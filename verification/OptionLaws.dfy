/**
 * What the option machine of src/libtelnet.c decides, seen through three questions about a side of an
 * option: is it on, is it wanted on, and is nothing asked that still waits for its answer.
 */
module OptionLaws {
  import opened Bytes
  import opened Negotiation
  import opened TelnetSpec

  /** On until the other peer has agreed to turn it off, and off until it has agreed to turn it on. */
  predicate On(q: Q) { q == Yes || q == WantNo || q == WantNoOp }

  predicate Wanted(q: Q) { q == Yes || q == WantYes || q == WantNoOp }

  predicate Settled(q: Q) { q == Yes || q == No }

  /** The three answers tell the state. */
  lemma AnswersTell(q: Q, q': Q)
    ensures q == q' <==> On(q) == On(q') && Wanted(q) == Wanted(q') && Settled(q) == Settled(q')
  {
  }

  /**
   * A request is remembered whatever the state; it is sent at once if and only if nothing waits for
   * an answer and the side is not as requested already; and it turns nothing on or off by itself.
   */
  lemma AskDecides(q: Q, positive: bool)
    ensures var r := Ask(q, positive);
      && Wanted(r.q) == positive && On(r.q) == On(q)
      && Settled(r.q) == (Settled(q) && Wanted(q) == positive)
      && r.reply == (if Settled(q) && Wanted(q) != positive then [positive] else []) && !r.warning
  {
  }

  /**
   * A command that arrives. WILL or DO turns the side on, unless it is an offer of what is not
   * supported or a wrong answer to turning off; WONT or DONT turns it off. What is wanted changes only
   * when an offer is accepted, an enabled side is taken back, or a request refused. Afterwards nothing
   * waits if and only if the side is as wanted.
   */
  lemma ReceiveDecides(q: Q, positive: bool, supported: bool)
    ensures var r := Receive(q, positive, supported);
      && On(r.q) == (positive && q != WantNo && (q == No ==> supported))
      && (Wanted(r.q) != Wanted(q)
          <==> (q == No && positive && supported) || (q == Yes && !positive) || (q == WantYes && !positive))
      && (Settled(r.q) <==> On(r.q) == Wanted(r.q))
  {
  }

  /**
   * The answer, if there is one, says what is now wanted. From a settled state a command is answered if
   * and only if it changes the state or offers what is not supported; while an answer was awaited, if
   * and only if there is something else to ask.
   */
  lemma ReceiveAnswers(q: Q, positive: bool, supported: bool)
    ensures var r := Receive(q, positive, supported);
      && r.reply == (if (if Settled(q) then r.q != q || (positive && q == No) else !Settled(r.q))
                     then [Wanted(r.q)] else [])
      && (r.warning <==> positive && On(q) && !Settled(q))
  {
  }

  /** The application is told exactly of the sides that go on or off. */
  lemma NoticeTellsChange(q: Q, positive: bool, supported: bool)
    ensures var q' := Receive(q, positive, supported).q;
      && Notice(q, positive, supported) == (if On(q) == On(q') then [] else [On(q')])
      && (Touches(q, positive, supported) <==> q' != q)
  {
  }

  /** The side of e's option that a command from the other peer is about. */
  function About(e: Engine, cmd: Command, opt: byte): Q { SideOf(Lookup(e.q, opt), !cmd.Own()) }

  /** A command that asks for what already is does nothing at all: no answer, no notice, no entry. */
  lemma SettledIsLeftAlone(c: Config, e: Engine, cmd: Command, opt: byte)
    requires e.state == InData && About(e, cmd, opt) == if cmd.Positive() then Yes else No
    ensures Feed(c, e, CommandBytes(cmd, opt)) == e
  {
    hide Lookup, SetOption, Feed, CommandBytes;
    CommandReceived(c, e, cmd, opt);
  }

  /** A command, by its three bytes: what the side is, what goes out, and what the application is told. */
  lemma CommandDecides(c: Config, e: Engine, cmd: Command, opt: byte, on: bool)
    requires e.state == InData
    ensures var e' := Feed(c, e, CommandBytes(cmd, opt));
      var q, q' := About(e, cmd, opt), About(e', cmd, opt);
      var supported := opt in (if cmd.Own() then c.him else c.us);
      var answered := if Settled(q) then q' != q || (cmd.Positive() && q == No) else !Settled(q');
      && On(q') == (cmd.Positive() && q != WantNo && (q == No ==> supported))
      && e.atoms <= e'.atoms
      && OnWire(News(e, e')) == (if answered then CommandBytes(CommandOf(!cmd.Own(), Wanted(q')), opt) else [])
      && (Other(Negotiated(CommandOf(cmd.Own(), on), opt)) in News(e, e') <==> On(q) != On(q') && on == On(q'))
  {
    hide *;
    var own := !cmd.Own();
    var q := About(e, cmd, opt);
    var supported := opt in (if own then c.us else c.him);
    var e1 := Negotiate(c, e, cmd, opt);
    CommandReceived(c, e, cmd, opt);
    AboutIs(e, cmd, opt);
    NegotiateIsReceive(c, e, cmd, opt, opt, on);
    NewsIn(e, e1);
    AboutAfter(Lookup(e.q, opt), own, Receive(q, cmd.Positive(), supported).q);
    AboutIs(e1.(state := InData), cmd, opt);
    ReceiveDecides(q, cmd.Positive(), supported);
    ReceiveAnswers(q, cmd.Positive(), supported);
    NoticeTellsChange(q, cmd.Positive(), supported);
    WireOfReply(opt, own, Receive(q, cmd.Positive(), supported).reply);
  }

  lemma AboutIs(e: Engine, cmd: Command, opt: byte)
    ensures About(e, cmd, opt) == SideOf(Lookup(e.q, opt), !cmd.Own())
  {
  }

  lemma AboutAfter(x: Sides, own: bool, q: Q)
    ensures SideOf(WithSide(x, own, q), own) == q && SideOf(WithSide(x, own, q), !own) == SideOf(x, !own)
  {
  }

  lemma NewsIn(e: Engine, e': Engine)
    ensures News(e, e'.(state := InData)) == News(e, e')
  {
  }
}
