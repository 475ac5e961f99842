/**
 * Two engines of src/libtelnet.c joined by two streams of bytes, each carrying what the other's SEND
 * events hand on. Bytes arrive one at a time, between any two requests of the applications, and the
 * pair still does as the two peers of the abstract protocol do.
 */
module EnginePeers {
  import opened Options
  import opened Bytes
  import opened Sequences
  import opened Negotiation
  import opened TelnetSpec
  import opened TelnetEncoding

  // ----- what a stream of bytes still holds for an engine -----

  function CommandNamed(b: byte): Option<Command> {
    if b == WILL then Some(Will) else if b == WONT then Some(Wont)
    else if b == DO then Some(Do) else if b == DONT then Some(Dont) else None
  }

  /** Where a reader is in the stream: the parser's state, and how much of a payload it holds. */
  datatype Reader = Reader(st: TState, held: nat)

  function At(st: TState): Reader { Reader(st, 0) }

  function Where(e: Engine): Reader {
    Reader(e.state, if e.state.InSbData? || e.state.InSbIac? then |e.buffer| else 0)
  }

  /** One byte of a payload, if the largest buffer still has room for it. */
  function Held(r: Reader): Option<Reader> {
    if r.held < MAX_SUBNEGOTIATION then Some(Reader(InSbData, r.held + 1)) else None
  }

  /** Where a byte that completes no command leads, unless the stream should not hold it there. */
  function Next(r: Reader, b: byte): Option<Reader> {
    match r.st
    case InData => Some(At(if b == IAC then InIac else if b == CR then InEol else InData))
    case InEol => if b == LF || b == NUL then Some(At(InData)) else None
    case InIac =>
      if b == IAC then Some(At(InData))
      else if b == SB then Some(At(InSb))
      else if CommandNamed(b).None? then None
      else Some(At(InCommand(CommandNamed(b).value)))
    case InSb => if b == COMPRESS then None else Some(Reader(InSbData, 0))
    case InSbData => if b == IAC then Some(Reader(InSbIac, r.held)) else Held(r)
    case InSbIac => if b == SE then Some(At(InData)) else if b == IAC then Held(r) else None
    case InCommand(_) => None
    case InSkip => None
  }

  /** The commands that remain to be read, if the bytes hold nothing but commands, data and subnegotiations. */
  function Decoded(r: Reader, s: seq<byte>): Option<seq<Message>>
    decreases |s|
  {
    if s == [] then (if r == At(InData) then Some([]) else None)
    else if r.st.InCommand? then
      match Decoded(At(InData), s[1..])
      case Some(ms) => Some([Message(r.st.c, s[0])] + ms)
      case None => None
    else if Next(r, s[0]).None? then None
    else Decoded(Next(r, s[0]).value, s[1..])
  }

  /** Application data as it goes over the wire: whole, and without commands. */
  predicate Plain(s: seq<byte>) { Decoded(At(InData), s) == Some([]) }

  lemma {:induction false} DecodedAppend(r: Reader, x: seq<byte>, y: seq<byte>)
    requires Decoded(r, x).Some? && Decoded(At(InData), y).Some?
    ensures Decoded(r, x + y) == Some(Decoded(r, x).value + Decoded(At(InData), y).value)
    decreases |x|
  {
    hide Next;
    if x == [] {
      assert x + y == y && [] + Decoded(At(InData), y).value == Decoded(At(InData), y).value;
    } else {
      assert (x + y)[0] == x[0] && (x + y)[1..] == x[1..] + y;
      if r.st.InCommand? {
        DecodedAppend(At(InData), x[1..], y);
        Regroup([Message(r.st.c, x[0])], Decoded(At(InData), x[1..]).value, Decoded(At(InData), y).value);
      } else {
        DecodedAppend(Next(r, x[0]).value, x[1..], y);
      }
    }
  }

  lemma {:induction false} DecodedWire(ms: seq<Message>)
    ensures Decoded(At(InData), Wire(ms)) == Some(ms)
  {
    if ms != [] {
      var m, w := ms[0], Wire(ms[1..]);
      DecodedWire(ms[1..]);
      var s := CommandBytes(m.command, m.opt) + w;
      assert s[0] == IAC && s[1..][0] == CommandByte(m.command) && s[1..][1..][0] == m.opt && s[1..][1..][1..] == w;
      assert CommandNamed(CommandByte(m.command)) == Some(m.command);
      assert Decoded(At(InCommand(m.command)), s[1..][1..]) == Some([m] + ms[1..]);
      assert Decoded(At(InIac), s[1..]) == Some([m] + ms[1..]);
      assert Decoded(At(InData), s) == Decoded(At(InIac), s[1..]);
      HeadTail(ms);
    }
  }

  /** A translated newline or carriage return can also be read as it stands. */
  lemma DecodedEol(s: seq<byte>)
    requires Decoded(At(InEol), s).Some?
    ensures Decoded(At(InData), s) == Decoded(At(InEol), s)
  {
  }

  lemma NothingTwice()
    ensures var none: seq<Message> := []; none + none == none
  {
  }

  /** Text in NVT form is plain, whatever it says. */
  lemma {:induction false} TextIsPlain(s: seq<byte>)
    ensures Plain(EscapeText(s, false))
  {
    if s != [] {
      var b := s[|s| - 1];
      TextIsPlain(s[..|s| - 1]);
      TextByteIsPlain(b);
      DecodedAppend(At(InData), EscapeText(s[..|s| - 1], false), EscapeTextByte(b, false));
      NothingTwice();
    }
  }

  lemma TextByteIsPlain(b: byte)
    ensures Plain(EscapeTextByte(b, false))
  {
    var s := EscapeTextByte(b, false);
    assert s[1..] == [] || (s[1..] == [s[1]] && s[1..][1..] == []);
    assert s[1..] != [] ==> Decoded(At(InData), s[1..][1..]) == Some([]);
  }

  /** So are raw data without a carriage return. */
  lemma {:induction false} DataIsPlain(s: seq<byte>)
    requires CR !in s
    ensures Plain(Escape(s))
  {
    if s != [] {
      var b := s[|s| - 1];
      assert CR !in s[..|s| - 1] && b != CR;
      DataIsPlain(s[..|s| - 1]);
      var x := EscapeByte(b);
      assert x[1..] == [] || (x[1..] == [x[1]] && x[1..][1..] == []);
      assert x[1..] != [] ==> Decoded(At(InData), x[1..][1..]) == Some([]);
      DecodedAppend(At(InData), Escape(s[..|s| - 1]), x);
      NothingTwice();
    }
  }

  /** And so is a subnegotiation that fits the largest buffer, of any option but COMPRESS. */
  lemma SubnegotiationIsPlain(opt: byte, payload: seq<byte>)
    requires opt != COMPRESS && |payload| <= MAX_SUBNEGOTIATION
    ensures Plain(SubnegotiationBytes(opt, payload))
  {
    var p, end := Escape(payload), [IAC, SE];
    hide Decoded, Escape;
    assert SubnegotiationBytes(opt, payload) == [IAC] + ([SB] + ([opt] + (p + end)));
    Reads(At(InData), IAC, [SB] + ([opt] + (p + end)));
    Reads(At(InIac), SB, [opt] + (p + end));
    Reads(At(InSb), opt, p + end);
    PayloadReads(payload, end);
    assert end == [IAC] + ([SE] + []);
    Reads(Reader(InSbData, |payload|), IAC, [SE] + []);
    Reads(Reader(InSbIac, |payload|), SE, []);
    NothingLeft();
  }

  lemma NothingLeft()
    ensures Decoded(At(InData), []) == Some([])
  {
  }

  lemma Reads(r: Reader, b: byte, s: seq<byte>)
    requires !r.st.InCommand? && Next(r, b).Some?
    ensures Decoded(r, [b] + s) == Decoded(Next(r, b).value, s)
  {
    assert ([b] + s)[1..] == s;
  }

  lemma {:induction false} PayloadReads(p: seq<byte>, more: seq<byte>)
    requires |p| <= MAX_SUBNEGOTIATION
    ensures Decoded(Reader(InSbData, 0), Escape(p) + more) == Decoded(Reader(InSbData, |p|), more)
  {
    hide Decoded;
    if p == [] {
      assert Escape(p) + more == more;
    } else {
      var n := |p| - 1;
      var b, rest := p[n], p[..n];
      Regroup(Escape(rest), EscapeByte(b), more);
      PayloadReads(rest, EscapeByte(b) + more);
      if b == IAC {
        assert EscapeByte(b) + more == [IAC] + ([IAC] + more);
        Reads(Reader(InSbData, n), IAC, [IAC] + more);
        Reads(Reader(InSbIac, n), IAC, more);
      } else {
        Reads(Reader(InSbData, n), b, more);
      }
    }
  }

  /** Why raw data must not end in a carriage return: the receiver then takes the next command for data. */
  lemma ReturnEatsCommand(c: Config, e: Engine, cmd: Command, opt: byte)
    requires e.state == InData && e.flags.nvtEol && !e.flags.receiveBinary
    ensures !Plain(Escape([CR])) && Feed(c, e, Escape([CR]) + CommandBytes(cmd, opt)).q == e.q
  {
    hide Feed, FeedByte;
    ReturnIsNotPlain();
    var e1, e2, e3 := e.(state := InEol), Emit(e, [DataByte(CR), DataByte(IAC)]),
                      Emit(Emit(e, [DataByte(CR), DataByte(IAC)]), [DataByte(CommandByte(cmd))]);
    assert CommandBytes(cmd, opt) == [IAC, CommandByte(cmd)] + [opt];
    FeedAppend(c, e, [CR], CommandBytes(cmd, opt));
    FeedAppend(c, e1, [IAC, CommandByte(cmd)], [opt]);
    Feed1(c, e, CR);
    Feed2(c, e1, IAC, CommandByte(cmd));
    Feed1(c, e3, opt);
    EatenBytes(c, e, cmd, opt);
  }

  lemma ReturnIsNotPlain()
    ensures Escape([CR]) == [CR] && !Plain([CR])
  {
    assert [CR][..0] == [] && [CR][1..] == [];
    assert Decoded(At(InEol), []) == None;
  }

  lemma EatenBytes(c: Config, e: Engine, cmd: Command, opt: byte)
    requires e.state == InData && e.flags.nvtEol && !e.flags.receiveBinary
    ensures var e1, e2 := e.(state := InEol), Emit(e, [DataByte(CR), DataByte(IAC)]);
      var e3 := Emit(e2, [DataByte(CommandByte(cmd))]);
      && FeedByte(c, e, CR) == e1 && FeedByte(c, e1, IAC) == e2 && FeedByte(c, e2, CommandByte(cmd)) == e3
      && FeedByte(c, e3, opt).q == e.q
  {
    hide Negotiate, Subnegotiated, BufferByte, FeedIac;
  }

  // ----- the pair -----

  datatype Peers = Peers(a: Engine, ca: Config, ab: seq<byte>, b: Engine, cb: Config, ba: seq<byte>) {
    function Swap(): Peers { Peers(b, cb, ba, a, ca, ab) }
  }

  /** The oldest byte from a reaches b, and b's answer goes out. */
  function ByteToB(p: Peers): Peers
    requires p.ab != []
  {
    var b' := FeedByte(p.cb, p.b, p.ab[0]);
    p.(ab := p.ab[1..], b := b', ba := p.ba + OnWire(News(p.b, b')))
  }

  function AskA(p: Peers, cmd: Command, opt: byte): Peers {
    var a' := Request(p.a, cmd, opt);
    p.(a := a', ab := p.ab + OnWire(News(p.a, a')))
  }

  function SendA(p: Peers, s: seq<byte>): Peers {
    p.(a := Emit(p.a, [Other(Send(s))]), ab := p.ab + s)
  }

  datatype Step =
    | AsksA(cmd: Command, opt: byte) | AsksB(cmd: Command, opt: byte)
    | SendsA(s: seq<byte>) | SendsB(s: seq<byte>)
    | ByteAtA | ByteAtB

  predicate CanTake(p: Peers, x: Step) {
    match x
    case SendsA(s) => Plain(s)
    case SendsB(s) => Plain(s)
    case ByteAtA => p.ba != []
    case ByteAtB => p.ab != []
    case _ => true
  }

  function Take(p: Peers, x: Step): Peers
    requires CanTake(p, x)
  {
    match x
    case AsksA(cmd, opt) => AskA(p, cmd, opt)
    case AsksB(cmd, opt) => AskA(p.Swap(), cmd, opt).Swap()
    case SendsA(s) => SendA(p, s)
    case SendsB(s) => SendA(p.Swap(), s).Swap()
    case ByteAtA => ByteToB(p.Swap()).Swap()
    case ByteAtB => ByteToB(p)
  }

  /** The pairs that the steps xs lead through, one after the other. */
  ghost predicate Trace(ps: seq<Peers>, xs: seq<Step>) {
    |ps| == |xs| + 1
    && forall i {:trigger xs[i]} :: 0 <= i < |xs| ==> CanTake(ps[i], xs[i]) && ps[i + 1] == Take(ps[i], xs[i])
  }

  lemma TraceStep(ps: seq<Peers>, xs: seq<Step>, i: nat)
    requires Trace(ps, xs) && i < |xs|
    ensures CanTake(ps[i], xs[i]) && ps[i + 1] == Take(ps[i], xs[i])
  {
    hide CanTake, Take;
    var x := xs[i];
  }

  // ----- the pair as two peers of the protocol -----

  function TableOf(q: seq<Entry>): Table { map opt: byte | 0 <= opt < 256 :: Lookup(q, opt) }

  /** The streams hold commands and plain data, from where their readers are. */
  predicate Readable(p: Peers) {
    Sized(p.a) && Sized(p.b) && Decoded(Where(p.b), p.ab).Some? && Decoded(Where(p.a), p.ba).Some?
  }

  /** The payload buffer is in order, and not that of a COMPRESS subnegotiation. */
  predicate Sized(e: Engine) {
    |e.buffer| <= e.size && e.size in SIZES && (e.state.InSbData? || e.state.InSbIac? ==> e.sbTelopt != COMPRESS)
  }

  function NetOf(p: Peers): Net
    requires Readable(p)
  {
    Net(TableOf(p.a.q), Decoded(Where(p.b), p.ab).value, TableOf(p.b.q), Decoded(Where(p.a), p.ba).value)
  }

  lemma TableOfUpdate(q: seq<Entry>, q': seq<Entry>, opt: byte, x: Sides)
    requires forall o: byte :: Lookup(q', o) == if o == opt then x else Lookup(q, o)
    ensures TableOf(q') == TableOf(q)[opt := x]
  {
  }

  /** A byte that completes no command changes no option, sends nothing and warns of nothing. */
  lemma OtherByte(c: Config, e: Engine, s: seq<byte>)
    requires s != [] && Sized(e) && Decoded(Where(e), s).Some? && !e.state.InCommand?
    ensures var e' := FeedByte(c, e, s[0]);
      && Sized(e') && Decoded(Where(e'), s[1..]) == Decoded(Where(e), s) && e'.q == e.q
      && e.atoms <= e'.atoms && OnWire(News(e, e')) == [] && Other(Warning) !in News(e, e')
  {
    hide Decoded, Next, OnWire, FeedByte, News, Sized;
    DecodedStep(Where(e), s);
    OtherByteLeaves(c, e, s[0]);
    if e.state.InData? && s[0] == CR {
      DecodedEol(s[1..]);
    }
    NothingSent(News(e, FeedByte(c, e, s[0])));
  }

  lemma DecodedStep(r: Reader, s: seq<byte>)
    requires s != [] && !r.st.InCommand? && Decoded(r, s).Some?
    ensures Next(r, s[0]).Some? && Decoded(r, s) == Decoded(Next(r, s[0]).value, s[1..])
    ensures r.st.InData? && s[0] == CR ==> Next(r, s[0]) == Some(At(InEol))
  {
  }

  lemma {:induction false} NothingSent(x: seq<Atom>)
    requires forall a <- x :: SentBy(a) == [] && a != Other(Warning)
    ensures OnWire(x) == [] && Other(Warning) !in x
  {
    hide SentBy;
    if x != [] {
      assert x[|x| - 1] in x && forall a <- x[..|x| - 1] :: a in x;
      NothingSent(x[..|x| - 1]);
    }
  }

  /** Where the engine is after such a byte; a carriage return is data or held back, as its flags have it. */
  ghost predicate Leaves(e: Engine, b: byte, e': Engine) {
    && Sized(e') && e'.q == e.q && e.atoms <= e'.atoms
    && (Next(Where(e), b) == Some(Where(e')) || (e.state.InData? && b == CR && Where(e') == At(InData)))
    && forall x <- News(e, e') :: SentBy(x) == [] && x != Other(Warning)
  }

  lemma OtherByteLeaves(c: Config, e: Engine, b: byte)
    requires Sized(e) && !e.state.InCommand? && Next(Where(e), b).Some?
    ensures Leaves(e, b, FeedByte(c, e, b))
  {
    hide FeedByte, Leaves, Sized;
    if e.state.InSbIac? && b == SE {
      SubnegotiationEnds(c, e);
    } else if e.state.InSbData? || e.state.InSbIac? {
      PayloadLeaves(c, e, b);
    } else {
      DataLeaves(c, e, b);
    }
  }

  lemma SubnegotiationEnds(c: Config, e: Engine)
    requires Sized(e) && e.state.InSbIac?
    ensures Leaves(e, SE, FeedByte(c, e, SE))
  {
    hide Negotiate, BufferByte, FeedIac;
  }

  lemma DataLeaves(c: Config, e: Engine, b: byte)
    requires Sized(e) && !e.state.InCommand? && !e.state.InSbData? && !e.state.InSbIac? && Next(Where(e), b).Some?
    ensures Leaves(e, b, FeedByte(c, e, b))
  {
    hide News, Sized;
    var e' := FeedByte(c, e, b);
    DataNews(c, e, b);
    SizedStill(e, e', b);
    SentByNone();
  }

  /** Nothing but data comes of it, and the buffer stays. */
  lemma DataNews(c: Config, e: Engine, b: byte)
    requires !e.state.InCommand? && !e.state.InSbData? && !e.state.InSbIac? && Next(Where(e), b).Some?
    ensures var e' := FeedByte(c, e, b);
      && e.atoms <= e'.atoms && (forall x <- News(e, e') :: x.DataByte?) && e'.q == e.q && e'.size == e.size
      && (if e.state.InSb? then e'.buffer == [] && e'.sbTelopt == b
          else e'.buffer == e.buffer && e'.sbTelopt == e.sbTelopt)
      && (Next(Where(e), b) == Some(Where(e')) || (e.state.InData? && b == CR && Where(e') == At(InData)))
  {
    hide Negotiate, Subnegotiated, BufferByte, News, Where, Next;
    var e' := FeedByte(c, e, b);
    var x := match e.state
      case InData => if b != IAC && !Translates(e, b) then [DataByte(b)] else []
      case InEol => if b == LF then [DataByte(LF)] else if b == NUL then [DataByte(CR)] else [DataByte(CR), DataByte(b)]
      case InIac => if b == IAC then [DataByte(IAC)] else []
      case _ => [];
    NextIs(e, e', b);
    assert e.atoms + [] == e.atoms;
    assert e'.atoms == e.atoms + x;
    NewsAfter(e, e', x);
  }

  function AfterIac(b: byte): TState {
    if b == IAC then InData else if b == SB then InSb
    else if CommandNamed(b).Some? then InCommand(CommandNamed(b).value) else InIac
  }

  lemma NextIs(e: Engine, e': Engine, b: byte)
    requires Next(Where(e), b).Some? && !e.state.InSbData? && !e.state.InSbIac?
    ensures !e.state.InSkip? && !e.state.InCommand?
    ensures e.state.InData? && b != CR && e'.state == (if b == IAC then InIac else InData) ==>
      Next(Where(e), b) == Some(Where(e'))
    ensures e.state.InData? && b == CR && e'.state.InEol? ==> Next(Where(e), b) == Some(Where(e'))
    ensures e'.state.InData? ==> Where(e') == At(InData)
    ensures e.state.InEol? && e'.state.InData? ==> Next(Where(e), b) == Some(Where(e'))
    ensures e.state.InIac? ==> b == IAC || b == SB || b == WILL || b == WONT || b == DO || b == DONT
    ensures e.state.InIac? && e'.state == AfterIac(b) ==> Next(Where(e), b) == Some(Where(e'))
    ensures e.state.InSb? && e'.state.InSbData? && e'.buffer == [] ==> Next(Where(e), b) == Some(Where(e'))
  {
  }

  lemma SizedStill(e: Engine, e': Engine, b: byte)
    requires Sized(e) && e'.size == e.size && (e'.buffer == e.buffer || e'.buffer == [])
    requires e'.state.InSbData? || e'.state.InSbIac? ==> e'.sbTelopt != COMPRESS
    ensures Sized(e')
  {
  }

  lemma SentByNone()
    ensures forall a: Atom :: a.DataByte? ==> SentBy(a) == [] && a != Other(Warning)
  {
  }

  lemma PayloadLeaves(c: Config, e: Engine, b: byte)
    requires Sized(e) && (e.state.InSbData? || (e.state.InSbIac? && b == IAC)) && Next(Where(e), b).Some?
    ensures Leaves(e, b, FeedByte(c, e, b))
  {
    hide Negotiate, Subnegotiated, FeedIac, BufferByte;
    if e.state.InSbIac? || b != IAC {
      PayloadByte(e, b);
    }
  }

  lemma PayloadByte(e: Engine, b: byte)
    requires Sized(e) && |e.buffer| < MAX_SUBNEGOTIATION && e.sbTelopt != COMPRESS
    ensures var e' := BufferByte(e, b);
      && Sized(e') && Where(e') == Reader(InSbData, |e.buffer| + 1) && e'.q == e.q && e'.atoms == e.atoms
  {
  }

  lemma OtherByteStays(p: Peers)
    requires Readable(p) && p.ab != [] && !p.b.state.InCommand?
    ensures var p' := ByteToB(p);
      && Readable(p') && NetOf(p') == NetOf(p) && p'.ba == p.ba
      && p.b.atoms <= p'.b.atoms && Other(Warning) !in News(p.b, p'.b)
  {
    hide Decoded, FeedByte, OnWire, News, TableOf;
    OtherByte(p.cb, p.b, p.ab);
    assert p.ba + [] == p.ba;
  }

  /** The byte that completes a command is one delivery of the protocol. */
  lemma CommandByteIsDelivery(p: Peers)
    requires Readable(p) && p.ab != [] && p.b.state.InCommand?
    ensures Readable(ByteToB(p)) && NetOf(p).ab != []
    ensures exists supported :: NetOf(ByteToB(p)) == DeliverB(NetOf(p), supported)
    ensures p.b.atoms <= ByteToB(p).b.atoms
    ensures Other(Warning) in News(p.b, ByteToB(p).b) <==> WarnsB(NetOf(p))
    ensures |ByteToB(p).ba| <= |p.ba| + 3
  {
    hide Decoded, Wire, Negotiate, FeedByte, Lookup, Receive, OnWire, Messages, SideOf, WithSide, TableOf;
    var cmd, opt := p.b.state.c, p.ab[0];
    var x, e' := Lookup(p.b.q, opt), ByteToB(p).b;
    var own := !cmd.Own();
    var supported := opt in (if own then p.cb.us else p.cb.him);
    var r := Receive(SideOf(x, own), cmd.Positive(), supported);
    var reply, at := Messages(opt, own, r.reply), WithSide(x, own, r.q);
    DecodedCommand(cmd, p.ab);
    NegotiateKeepsBuffer(p.cb, p.b, cmd, opt);
    CommandFed(p.cb, p.b, p.ab[0]);
    forall o: byte
      ensures Lookup(e'.q, o) == if o == opt then at else Lookup(p.b.q, o)
    {
      NegotiateSides(p.cb, p.b, cmd, opt, o);
    }
    TableOfUpdate(p.b.q, e'.q, opt, at);
    GetTable(p.b.q, opt);
    NegotiateSends(p.cb, p.b, cmd, opt);
    DecodedWire(reply);
    DecodedAppend(Where(p.a), p.ba, Wire(reply));
    ReceiveSays(SideOf(x, own), cmd.Positive(), supported);
    WarnsAnyway(SideOf(x, own), cmd.Positive(), supported);
    WireOfReply(opt, own, r.reply);
    assert NetOf(ByteToB(p)) == DeliverB(NetOf(p), supported);
  }

  lemma WarnsAnyway(q: Q, positive: bool, supported: bool)
    ensures Receive(q, positive, supported).warning == Receive(q, positive, true).warning
  {
  }

  lemma DecodedCommand(c: Command, s: seq<byte>)
    requires s != [] && Decoded(At(InCommand(c)), s).Some?
    ensures Decoded(At(InData), s[1..]).Some?
    ensures Decoded(At(InCommand(c)), s).value == [Message(c, s[0])] + Decoded(At(InData), s[1..]).value
  {
  }

  lemma NegotiateKeepsBuffer(c: Config, e: Engine, cmd: Command, opt: byte)
    ensures var e' := Negotiate(c, e, cmd, opt); e'.buffer == e.buffer && e'.size == e.size
  {
    hide Lookup, Update, Tracked, Receive, Notice, Touches, CommandBytes;
  }

  lemma CommandFed(c: Config, e: Engine, b: byte)
    requires e.state.InCommand?
    ensures FeedByte(c, e, b) == Negotiate(c, e, e.state.c, b).(state := InData)
  {
  }

  lemma GetTable(q: seq<Entry>, opt: byte)
    ensures Get(TableOf(q), opt) == Lookup(q, opt)
  {
  }

  /** A request is the asking step of the protocol. */
  lemma RequestIsRequest(p: Peers, cmd: Command, opt: byte)
    requires Readable(p)
    ensures Readable(AskA(p, cmd, opt)) && NetOf(AskA(p, cmd, opt)) == RequestA(NetOf(p), Message(cmd, opt))
    ensures p.a.atoms <= AskA(p, cmd, opt).a.atoms && Other(Warning) !in News(p.a, AskA(p, cmd, opt).a)
  {
    hide Decoded, Wire, Lookup, Ask, OnWire, Messages, SideOf, WithSide, TableOf, Request;
    var x, e' := Lookup(p.a.q, opt), Request(p.a, cmd, opt);
    var r := Ask(SideOf(x, cmd.Own()), cmd.Positive());
    var at, sent := WithSide(x, cmd.Own(), r.q), Messages(opt, cmd.Own(), r.reply);
    forall o: byte
      ensures Lookup(e'.q, o) == if o == opt then at else Lookup(p.a.q, o)
    {
      RequestSides(p.a, cmd, opt, o);
    }
    TableOfUpdate(p.a.q, e'.q, opt, at);
    GetTable(p.a.q, opt);
    RequestIsAsk(p.a, cmd, opt, opt);
    RequestKeepsState(p.a, cmd, opt);
    DecodedWire(sent);
    DecodedAppend(Where(p.b), p.ab, Wire(sent));
  }

  lemma RequestKeepsState(e: Engine, cmd: Command, opt: byte)
    ensures var e' := Request(e, cmd, opt);
      e'.state == e.state && e'.buffer == e.buffer && e'.size == e.size && e'.sbTelopt == e.sbTelopt
  {
    hide Lookup, Update, Tracked, Ask, CommandBytes;
  }

  /** Application data is no step of the protocol. */
  lemma SendIsNoStep(p: Peers, s: seq<byte>)
    requires Readable(p) && Plain(s)
    ensures Readable(SendA(p, s)) && NetOf(SendA(p, s)) == NetOf(p)
  {
    hide Decoded, TableOf;
    DecodedAppend(Where(p.b), p.ab, s);
    var ms := Decoded(Where(p.b), p.ab).value;
    assert ms + [] == ms;
  }

  // ----- every run -----

  predicate Quiet(e: Engine) { Other(Warning) !in e.atoms }

  ghost predicate Fine(p: Peers) { Readable(p) && AllSound(NetOf(p)) && Quiet(p.a) && Quiet(p.b) }

  lemma SwapFine(p: Peers)
    requires Readable(p)
    ensures Readable(p.Swap()) && NetOf(p.Swap()) == NetOf(p).Swap()
    ensures Fine(p) ==> Fine(p.Swap())
  {
    hide Decoded, TableOf, AllSound;
    if Fine(p) {
      SwapSound(NetOf(p));
    }
  }

  lemma NewsOnly(e: Engine, e': Engine)
    requires e.atoms <= e'.atoms && Quiet(e) && Other(Warning) !in News(e, e')
    ensures Quiet(e')
  {
    assert e'.atoms == e.atoms + News(e, e');
  }

  lemma ByteFine(p: Peers)
    requires Fine(p) && p.ab != []
    ensures Fine(ByteToB(p))
  {
    hide Decoded, TableOf, AllSound, FeedByte, OnWire, News, DeliverB, WarnsB, Quiet;
    if p.b.state.InCommand? {
      CommandByteIsDelivery(p);
      var supported :| NetOf(ByteToB(p)) == DeliverB(NetOf(p), supported);
      DeliverAllSound(NetOf(p), supported);
    } else {
      OtherByteStays(p);
    }
    NewsOnly(p.b, ByteToB(p).b);
  }

  lemma AskFine(p: Peers, cmd: Command, opt: byte)
    requires Fine(p)
    ensures Fine(AskA(p, cmd, opt))
  {
    hide Decoded, TableOf, AllSound, OnWire, News, RequestA, Request, Quiet;
    RequestIsRequest(p, cmd, opt);
    RequestAllSound(NetOf(p), Message(cmd, opt));
    NewsOnly(p.a, AskA(p, cmd, opt).a);
  }

  lemma SendFine(p: Peers, s: seq<byte>)
    requires Fine(p) && Plain(s)
    ensures Fine(SendA(p, s))
  {
    hide Decoded, TableOf, AllSound;
    SendIsNoStep(p, s);
  }

  lemma TakeFine(p: Peers, x: Step)
    requires Fine(p) && CanTake(p, x)
    ensures Fine(Take(p, x))
  {
    hide Fine, AskA, SendA, ByteToB, Plain;
    FineReads(p);
    SwapFine(p);
    match x
    case AsksA(cmd, opt) => AskFine(p, cmd, opt);
    case AsksB(cmd, opt) => AskFine(p.Swap(), cmd, opt); SwapBack(AskA(p.Swap(), cmd, opt));
    case SendsA(s) => SendFine(p, s);
    case SendsB(s) => SendFine(p.Swap(), s); SwapBack(SendA(p.Swap(), s));
    case ByteAtB => ByteFine(p);
    case ByteAtA => ByteFine(p.Swap()); SwapBack(ByteToB(p.Swap()));
  }

  lemma FineReads(p: Peers)
    requires Fine(p)
    ensures Readable(p)
  {
  }

  lemma SwapBack(p: Peers)
    requires Fine(p)
    ensures Fine(p.Swap())
  {
    SwapFine(p);
  }

  lemma {:induction false} RunFine(ps: seq<Peers>, xs: seq<Step>, i: nat)
    requires Trace(ps, xs) && i < |ps| && Fine(ps[0])
    ensures Fine(ps[i])
  {
    hide Fine, Take, CanTake;
    if i > 0 {
      RunFine(ps, xs, i - 1);
      TraceStep(ps, xs, i - 1);
      TakeFine(ps[i - 1], xs[i - 1]);
    }
  }

  predicate Fresh(e: Engine) { e.q == [] && e.state == InData && e.atoms == [] && e.buffer == [] && e.size == 0 }

  /** Two new engines, nothing on its way. */
  predicate New(p: Peers) { Fresh(p.a) && p.ab == [] && Fresh(p.b) && p.ba == [] }

  lemma NewIsFine(p: Peers)
    requires New(p)
    ensures Fine(p)
  {
    forall opt: byte, own: bool
      ensures Sound(PairOf(NetOf(p), opt, own))
    {
      GetTable([], opt);
    }
  }

  /**
   * Two new engines, each configured as it likes, joined by two streams: whatever the applications ask
   * and send, and wherever the streams are cut, neither engine ever warns of a protocol error; and
   * when both streams are empty the engines agree on both sides of every option.
   */
  lemma PeersSafe(ps: seq<Peers>, xs: seq<Step>, i: nat, opt: byte)
    requires Trace(ps, xs) && New(ps[0]) && i < |ps|
    ensures Other(Warning) !in ps[i].a.atoms && Other(Warning) !in ps[i].b.atoms
    ensures ps[i].ab == [] && ps[i].ba == [] ==>
      var x, y := Lookup(ps[i].a.q, opt), Lookup(ps[i].b.q, opt);
      x.us == y.him && y.us == x.him && x.us in {Q.No, Q.Yes} && y.us in {Q.No, Q.Yes}
  {
    hide Trace, Lookup, Sound, PairOf, TableOf;
    NewIsFine(ps[0]);
    RunFine(ps, xs, i);
    if ps[i].ab == [] && ps[i].ba == [] {
      EmptyAgrees(ps[i], opt);
    }
  }

  lemma EmptyAgrees(p: Peers, opt: byte)
    requires Fine(p) && p.ab == [] && p.ba == []
    ensures var x, y := Lookup(p.a.q, opt), Lookup(p.b.q, opt);
      x.us == y.him && y.us == x.him && x.us in {Q.No, Q.Yes} && y.us in {Q.No, Q.Yes}
  {
    hide Lookup, TableOf, Sound;
    var n := NetOf(p);
    GetTable(p.a.q, opt);
    GetTable(p.b.q, opt);
    assert n.ab == [] && n.ba == [];
    QuietAgrees(PairOf(n, opt, true));
    QuietAgrees(PairOf(n, opt, false));
  }

  // ----- the streams run dry -----

  function Load(p: Peers): nat
    requires Readable(p)
  {
    |p.ab| + |p.ba| + 3 * NetMeasure(NetOf(p), 256)
  }

  lemma ByteLightens(p: Peers)
    requires Fine(p) && p.ab != []
    ensures Readable(ByteToB(p)) && Load(ByteToB(p)) < Load(p)
  {
    hide Decoded, TableOf, AllSound, FeedByte, OnWire, News, DeliverB, WarnsB, NetMeasure;
    if p.b.state.InCommand? {
      CommandByteIsDelivery(p);
      var supported :| NetOf(ByteToB(p)) == DeliverB(NetOf(p), supported);
      DeliverMeasure(NetOf(p), supported, 256);
    } else {
      OtherByteStays(p);
    }
  }

  lemma ArrivalLightens(p: Peers, x: Step)
    requires Fine(p) && CanTake(p, x) && (x.ByteAtA? || x.ByteAtB?)
    ensures Readable(Take(p, x)) && Load(Take(p, x)) < Load(p)
  {
    hide Fine, ByteToB, NetMeasure, NetOf, Readable;
    FineReads(p);
    if x.ByteAtB? {
      ByteLightens(p);
    } else {
      SwapBack(p);
      SwapLoad(p);
      ByteLightens(p.Swap());
      ByteFine(p.Swap());
      SwapLoad(ByteToB(p.Swap()));
    }
  }

  lemma SwapLoad(p: Peers)
    requires Fine(p)
    ensures Readable(p) && Readable(p.Swap()) && Load(p.Swap()) == Load(p)
  {
    hide Decoded, TableOf, AllSound, NetMeasure;
    SwapFine(p);
    SwapMeasure(NetOf(p), 256);
  }

  /** When the applications fall silent, no more bytes arrive than Load says: no negotiation goes on for ever. */
  lemma {:induction false} PeersFallSilent(ps: seq<Peers>, xs: seq<Step>, i: nat)
    requires Trace(ps, xs) && Fine(ps[0]) && i < |ps| && forall x <- xs :: x.ByteAtA? || x.ByteAtB?
    ensures Readable(ps[0]) && Readable(ps[i]) && i + Load(ps[i]) <= Load(ps[0])
  {
    hide Fine, Take, CanTake, Load, Readable;
    FineReads(ps[0]);
    if i > 0 {
      PeersFallSilent(ps, xs, i - 1);
      RunFine(ps, xs, i - 1);
      TraceStep(ps, xs, i - 1);
      assert xs[i - 1] in xs;
      ArrivalLightens(ps[i - 1], xs[i - 1]);
    }
  }
}
