/**
 * The binary flags of src/libtelnet.c: meant to follow the BINARY option, they are not set when the
 * option enters the table. When they are right, over every run.
 */
module TelnetFlags {
  import opened Bytes
  import opened Negotiation
  import opened TelnetSpec

  /** Both flags say what the option's sides are. */
  predicate FlagsFollow(e: Engine) {
    var x := Lookup(e.q, BINARY);
    e.flags.transmitBinary == (x.us == Yes) && e.flags.receiveBinary == (x.him == Yes)
  }

  /** After one change of the option the flags are right iff it was in the table, or they already were. */
  lemma SetOptionFollows(e: Engine, x: Sides)
    ensures FlagsFollow(SetOption(e, BINARY, x)) <==>
      Tracked(e.q, BINARY) || (e.flags.transmitBinary == (x.us == Yes) && e.flags.receiveBinary == (x.him == Yes))
  {
    LookupUpdate(e.q, BINARY, x, BINARY);
  }

  /** A new engine: no options, no binary transmission. */
  predicate New(e: Engine) { e.q == [] && !e.flags.transmitBinary && !e.flags.receiveBinary }

  /** DO BINARY, accepted by a new engine: the option is on and the flag is not. */
  lemma FirstBinaryUnflagged(c: Config, e: Engine)
    requires New(e) && e.state == InData && BINARY in c.us
    ensures var e' := Feed(c, e, [IAC, DO, BINARY]);
      Lookup(e'.q, BINARY).us == Yes && !e'.flags.transmitBinary
  {
    CommandReceived(c, e, Do, BINARY);
    assert CommandBytes(Do, BINARY) == [IAC, DO, BINARY];
    LookupUpdate(e.q, BINARY, Sides(Yes, No), BINARY);
    assert !Tracked(e.q, BINARY);
    hide Feed;
  }

  // ----- every run -----

  /** A byte comes from the peer, or the application asks for a change. */
  datatype Action = Arrives(b: byte) | Asked(cmd: Command, opt: byte)

  function Act(c: Config, e: Engine, a: Action): Engine {
    match a
    case Arrives(b) => FeedByte(c, e, b)
    case Asked(cmd, opt) => Request(e, cmd, opt)
  }

  function Run(c: Config, e: Engine, acts: seq<Action>): Engine {
    if acts == [] then e else Act(c, Run(c, e, acts[..|acts| - 1]), acts[|acts| - 1])
  }

  /** The action writes the entry of BINARY: a command that changes its side, or a request that does. */
  predicate SetsBinary(c: Config, e: Engine, a: Action) {
    match a
    case Arrives(b) =>
      e.state.InCommand? && b == BINARY
      && Touches(SideOf(Lookup(e.q, BINARY), !e.state.c.Own()), e.state.c.Positive(),
                 BINARY in (if e.state.c.Own() then c.him else c.us))
    case Asked(cmd, opt) =>
      opt == BINARY && var q := SideOf(Lookup(e.q, BINARY), cmd.Own()); Ask(q, cmd.Positive()).q != q
  }

  function TimesSet(c: Config, e: Engine, acts: seq<Action>): nat {
    if acts == [] then 0
    else
      var n := |acts| - 1;
      TimesSet(c, e, acts[..n]) + (if SetsBinary(c, Run(c, e, acts[..n]), acts[n]) then 1 else 0)
  }

  /** What is known after BINARY was written n times. */
  predicate AfterSetting(e: Engine, n: nat) {
    if n == 0 then !Tracked(e.q, BINARY) && Lookup(e.q, BINARY) == Sides(No, No)
                   && !e.flags.transmitBinary && !e.flags.receiveBinary
    else Tracked(e.q, BINARY)
         && if n == 1 then !e.flags.transmitBinary && !e.flags.receiveBinary else FlagsFollow(e)
  }

  lemma SetOnce(e: Engine, n: nat, x: Sides)
    requires AfterSetting(e, n)
    ensures AfterSetting(SetOption(e, BINARY, x), n + 1)
  {
    LookupUpdate(e.q, BINARY, x, BINARY);
  }

  lemma SetOther(e: Engine, n: nat, opt: byte, x: Sides)
    requires AfterSetting(e, n) && opt != BINARY
    ensures AfterSetting(SetOption(e, opt, x), n)
  {
    LookupUpdate(e.q, opt, x, BINARY);
  }

  lemma EmitSame(e: Engine, n: nat, x: seq<Atom>)
    ensures AfterSetting(Emit(e, x), n) == AfterSetting(e, n)
  {
  }

  lemma StateSame(e: Engine, n: nat, t: TState)
    ensures AfterSetting(e.(state := t), n) == AfterSetting(e, n)
  {
  }

  lemma NegotiateSets(c: Config, e: Engine, n: nat, cmd: Command, opt: byte)
    requires AfterSetting(e, n)
    ensures var own := !cmd.Own();
      var sets := opt == BINARY && Touches(SideOf(Lookup(e.q, opt), own), cmd.Positive(),
                                           opt in (if own then c.us else c.him));
      AfterSetting(Negotiate(c, e, cmd, opt), if sets then n + 1 else n)
  {
    hide Lookup, Update, Tracked, SetOption, AfterSetting, Receive, Notice, Touches;
    var own := !cmd.Own();
    var x := Lookup(e.q, opt);
    var supported := opt in (if own then c.us else c.him);
    var x' := WithSide(x, own, Receive(SideOf(x, own), cmd.Positive(), supported).q);
    if opt == BINARY {
      SetOnce(e, n, x');
    } else {
      SetOther(e, n, opt, x');
    }
    forall e1: Engine, m: nat, y: seq<Atom>
      ensures AfterSetting(Emit(e1, y), m) == AfterSetting(e1, m)
    {
      EmitSame(e1, m, y);
    }
    hide Emit;
  }

  lemma RequestSets(c: Config, e: Engine, n: nat, cmd: Command, opt: byte)
    requires AfterSetting(e, n)
    ensures AfterSetting(Request(e, cmd, opt), if SetsBinary(c, e, Asked(cmd, opt)) then n + 1 else n)
  {
    hide Lookup, Update, Tracked, SetOption, AfterSetting, Ask;
    var own := cmd.Own();
    var x := Lookup(e.q, opt);
    var x' := WithSide(x, own, Ask(SideOf(x, own), cmd.Positive()).q);
    if opt == BINARY {
      SetOnce(e, n, x');
    } else {
      SetOther(e, n, opt, x');
    }
    forall e1: Engine, m: nat, y: seq<Atom>
      ensures AfterSetting(Emit(e1, y), m) == AfterSetting(e1, m)
    {
      EmitSame(e1, m, y);
    }
    hide Emit;
  }

  lemma {:induction false} RunSets(c: Config, e: Engine, acts: seq<Action>)
    requires New(e)
    ensures AfterSetting(Run(c, e, acts), TimesSet(c, e, acts))
  {
    hide AfterSetting, Negotiate, Request;
    if acts == [] {
      NewIsUnset(e);
    } else {
      var k := |acts| - 1;
      RunSets(c, e, acts[..k]);
      var e1, n := Run(c, e, acts[..k]), TimesSet(c, e, acts[..k]);
      match acts[k] {
        case Arrives(b) =>
          if e1.state.InCommand? {
            NegotiateSets(c, e1, n, e1.state.c, b);
            StateSame(Negotiate(c, e1, e1.state.c, b), if SetsBinary(c, e1, acts[k]) then n + 1 else n, InData);
          } else {
            ByteKeepsOptions(c, e1, b);
            SameOptions(e1, FeedByte(c, e1, b), n);
          }
        case Asked(cmd, opt) =>
          RequestSets(c, e1, n, cmd, opt);
      }
    }
  }

  lemma NewIsUnset(e: Engine)
    requires New(e)
    ensures AfterSetting(e, 0)
  {
  }

  lemma SameOptions(e: Engine, e': Engine, n: nat)
    requires AfterSetting(e, n) && e'.q == e.q && e'.flags == e.flags
    ensures AfterSetting(e', n)
  {
  }

  /**
   * In every run of a new engine the binary flags say what the BINARY option is, except as long as
   * the option was written exactly once and that turned a side on: from an accepted offer of the
   * peer until the next change.
   */
  lemma FlagsFollowUnlessFirst(c: Config, e: Engine, acts: seq<Action>)
    requires New(e)
    ensures var e', n := Run(c, e, acts), TimesSet(c, e, acts);
      var x := Lookup(e'.q, BINARY);
      FlagsFollow(e') <==> n != 1 || (x.us != Yes && x.him != Yes)
  {
    RunSets(c, e, acts);
    hide Run, TimesSet, Lookup;
  }
}
