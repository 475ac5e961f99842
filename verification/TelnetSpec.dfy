/**
 * The telnet engine of src/libtelnet.c one byte at a time: what the slice-based parser must amount
 * to, with DATA events cut into single bytes so that only their concatenation matters.
 */
module TelnetSpec {
  import opened Bytes
  import opened Negotiation

  const IAC: byte := 255
  const SB: byte := 250
  const SE: byte := 240
  const WILL: byte := 251
  const WONT: byte := 252
  const DO: byte := 253
  const DONT: byte := 254
  const CR: byte := 13
  const LF: byte := 10
  const NUL: byte := 0
  const BINARY: byte := 0
  const COMPRESS: byte := 85

  function CommandByte(c: Command): byte {
    match c case Will => WILL case Wont => WONT case Do => DO case Dont => DONT
  }

  /** InSkip is the data state after MCCPv1's IAC SB 85 WILL: the next byte is passed over. */
  datatype TState = InData | InEol | InIac | InCommand(c: Command) | InSb | InSbData | InSbIac | InSkip

  datatype Flags = Flags(nvtEol: bool, transmitBinary: bool, receiveBinary: bool)

  datatype Entry = Entry(telopt: byte, sides: Sides)

  /** What the event handler is told. */
  datatype TEvent =
    | Data(bytes: seq<byte>)
    | Send(bytes: seq<byte>)
    | IacCommand(cmd: byte)
    | Negotiated(command: Command, opt: byte)
    | Subnegotiation(opt: byte, payload: seq<byte>)
    | Special(opt: byte, payload: seq<byte>)
    | Warning

  /** An event, with DATA reduced to single bytes. */
  datatype Atom = DataByte(b: byte) | Other(e: TEvent)

  /** Options that an engine accepts on its own side and on the other's; subnegotiations it parses. */
  datatype Config = Config(us: set<byte>, him: set<byte>, special: set<byte>)

  /** overrun records a DATA event whose length would be negative. */
  datatype Engine = Engine(q: seq<Entry>, flags: Flags, state: TState, sbTelopt: byte, buffer: seq<byte>,
                           size: nat, overrun: bool, atoms: seq<Atom>)

  function Emit(e: Engine, x: seq<Atom>): Engine {
    if x == [] then e else e.(atoms := e.atoms + x)
  }

  function DataAtoms(s: seq<byte>): (r: seq<Atom>)
    ensures |r| == |s|
  {
    seq(|s|, i requires 0 <= i < |s| => DataByte(s[i]))
  }

  function AtomsOf(e: TEvent): seq<Atom> { if e.Data? then DataAtoms(e.bytes) else [Other(e)] }

  function Flatten(log: seq<TEvent>): seq<Atom> {
    if log == [] then [] else Flatten(log[..|log| - 1]) + AtomsOf(log[|log| - 1])
  }

  // ----- option states -----

  function Lookup(q: seq<Entry>, opt: byte): Sides {
    if q == [] then Sides(No, No) else if q[0].telopt == opt then q[0].sides else Lookup(q[1..], opt)
  }

  function Update(q: seq<Entry>, opt: byte, x: Sides): seq<Entry> {
    if q == [] then [Entry(opt, x)]
    else if q[0].telopt == opt then [Entry(opt, x)] + q[1..]
    else [q[0]] + Update(q[1..], opt, x)
  }

  predicate Tracked(q: seq<Entry>, opt: byte) { exists en <- q :: en.telopt == opt }

  /** _set_rfc1143: the binary flags follow the option only once it is in the table. */
  function SetOption(e: Engine, opt: byte, x: Sides): Engine {
    e.(q := Update(e.q, opt, x),
       flags := if Tracked(e.q, opt) && opt == BINARY
                then e.flags.(transmitBinary := x.us == Yes, receiveBinary := x.him == Yes) else e.flags)
  }

  lemma {:induction false} LookupUpdate(q: seq<Entry>, opt: byte, x: Sides, other: byte)
    ensures Lookup(Update(q, opt, x), other) == if other == opt then x else Lookup(q, other)
    ensures Tracked(Update(q, opt, x), other) <==> other == opt || Tracked(q, other)
  {
    if q != [] && q[0].telopt != opt {
      var u := Update(q[1..], opt, x);
      LookupUpdate(q[1..], opt, x, other);
      assert Update(q, opt, x)[1..] == u;
      assert forall en <- q :: en == q[0] || en in q[1..];
      assert forall en <- [q[0]] + u :: en == q[0] || en in u;
      assert forall en <- q[1..] :: en in q;
      assert forall en <- u :: en in [q[0]] + u;
      assert q[0] in [q[0]] + u && q[0] in q;
    } else if q != [] {
      assert Update(q, opt, x)[1..] == q[1..];
      assert forall en <- q :: en == q[0] || en in q[1..];
      assert forall en <- q[1..] :: en in Update(q, opt, x) && en in q;
      assert Entry(opt, x) in Update(q, opt, x) && q[0] in q;
    } else {
      assert Entry(opt, x) in Update(q, opt, x);
    }
  }

  function CommandBytes(c: Command, opt: byte): seq<byte> { [IAC, CommandByte(c), opt] }

  /** What the application is told about a command: nothing, or that the side is on or off. */
  function Notice(q: Q, positive: bool, supported: bool): seq<bool> {
    if positive then
      match q
      case No => if supported then [true] else []
      case WantNo => [false]
      case WantYes => [true]
      case WantYesOp => [true]
      case _ => []
    else if q == Yes || q == WantNo || q == WantNoOp then [false] else []
  }

  /** Commands that change nothing do not touch the table. */
  predicate Touches(q: Q, positive: bool, supported: bool) {
    if positive then q != Yes && (q == No ==> supported) else q != No
  }

  /** _negotiate: a command about its sender is about our `him`. */
  function Negotiate(c: Config, e: Engine, cmd: Command, opt: byte): Engine {
    var own := !cmd.Own();
    var x := Lookup(e.q, opt);
    var q := SideOf(x, own);
    var supported := opt in (if own then c.us else c.him);
    var r := Receive(q, cmd.Positive(), supported);
    var e1 := if Touches(q, cmd.Positive(), supported) then SetOption(e, opt, WithSide(x, own, r.q)) else e;
    var sent := if r.reply == [] then [] else [Other(Send(CommandBytes(CommandOf(own, r.reply[0]), opt)))];
    var notice := Notice(q, cmd.Positive(), supported);
    var told := if notice == [] then [] else [Other(Negotiated(CommandOf(cmd.Own(), notice[0]), opt))];
    var warned := if r.warning then [Other(Warning)] else [];
    Emit(Emit(Emit(e1, sent), told), warned)
  }

  /** telnet_negotiate. */
  function Request(e: Engine, cmd: Command, opt: byte): Engine {
    var own := cmd.Own();
    var x := Lookup(e.q, opt);
    var r := Ask(SideOf(x, own), cmd.Positive());
    var e1 := if r.q == SideOf(x, own) then e else SetOption(e, opt, WithSide(x, own, r.q));
    Emit(e1, if r.reply == [] then [] else [Other(Send(CommandBytes(cmd, opt)))])
  }

  // ----- the parser, byte by byte -----

  const SIZES: seq<nat> := [0, 512, 2048, 8192, 16384]
  const MAX_SUBNEGOTIATION := 16384

  /** The next buffer size, or the same size when there is none. */
  function Grown(size: nat): (r: nat)
    ensures r >= size
  {
    if size == 0 then 512 else if size == 512 then 2048 else if size == 2048 then 8192
    else if size == 8192 then 16384 else size
  }

  predicate Full(e: Engine) { |e.buffer| == e.size && Grown(e.size) == e.size }

  /** _buffer_byte; on overflow the subnegotiation is abandoned. */
  function BufferByte(e: Engine, b: byte): Engine {
    if Full(e) then Emit(e, [Other(Warning)]).(state := InData)
    else e.(buffer := e.buffer + [b], size := if |e.buffer| == e.size then Grown(e.size) else e.size, state := InSbData)
  }

  /** _subnegotiate: the payload, then whatever the parsers of special options add. */
  function Subnegotiated(c: Config, e: Engine): Engine {
    Emit(Emit(e, [Other(Subnegotiation(e.sbTelopt, e.buffer))]),
         if e.sbTelopt in c.special then [Other(Special(e.sbTelopt, e.buffer))] else [])
  }

  function FeedIac(e: Engine, b: byte): Engine {
    if b == SB then e.(state := InSb)
    else if b == WILL then e.(state := InCommand(Will))
    else if b == WONT then e.(state := InCommand(Wont))
    else if b == DO then e.(state := InCommand(Do))
    else if b == DONT then e.(state := InCommand(Dont))
    else if b == IAC then Emit(e, [DataByte(IAC)]).(state := InData)
    else Emit(e, [Other(IacCommand(b))]).(state := InData)
  }

  predicate Translates(e: Engine, b: byte) { b == CR && e.flags.nvtEol && !e.flags.receiveBinary }

  function FeedByte(c: Config, e: Engine, b: byte): Engine {
    match e.state
    case InData =>
      if b == IAC then e.(state := InIac)
      else if Translates(e, b) then e.(state := InEol)
      else Emit(e, [DataByte(b)])
    case InSkip => e.(state := InData, overrun := e.overrun || b == IAC || Translates(e, b))
    case InEol =>
      Emit(e, if b == LF then [DataByte(LF)] else if b == NUL then [DataByte(CR)] else [DataByte(CR), DataByte(b)])
        .(state := InData)
    case InIac => FeedIac(e, b)
    case InCommand(cmd) => Negotiate(c, e, cmd, b).(state := InData)
    case InSb => e.(sbTelopt := b, buffer := [], state := InSbData)
    case InSbData =>
      if b == IAC then e.(state := InSbIac)
      else if e.sbTelopt == COMPRESS && b == WILL then e.(state := InSkip)
      else BufferByte(e, b)
    case InSbIac =>
      if b == SE then Subnegotiated(c, e).(state := InData)
      else if b == IAC then BufferByte(e, IAC)
      else FeedIac(Subnegotiated(c, Emit(e, [Other(Warning)])).(state := InIac), b)
  }

  function Feed(c: Config, e: Engine, s: seq<byte>): Engine {
    if s == [] then e else FeedByte(c, Feed(c, e, s[..|s| - 1]), s[|s| - 1])
  }

  /** Chunking does not matter: feeding a stream in two pieces is feeding it whole. */
  lemma {:induction false} FeedAppend(c: Config, e: Engine, x: seq<byte>, y: seq<byte>)
    ensures Feed(c, e, x + y) == Feed(c, Feed(c, e, x), y)
  {
    if y == [] {
      assert x + y == x;
    } else {
      assert (x + y)[..|x + y| - 1] == x + y[..|y| - 1];
      FeedAppend(c, e, x, y[..|y| - 1]);
    }
  }

  function Concat(chunks: seq<seq<byte>>): seq<byte> {
    if chunks == [] then [] else Concat(chunks[..|chunks| - 1]) + chunks[|chunks| - 1]
  }

  lemma ConcatNothing()
    ensures Concat([]) == []
  {
  }

  lemma ConcatMore(chunks: seq<seq<byte>>, n: nat)
    requires n < |chunks|
    ensures Concat(chunks[..n + 1]) == Concat(chunks[..n]) + chunks[n]
  {
    assert chunks[..n + 1][..n] == chunks[..n];
  }

  lemma {:induction false} ConcatPrefix(chunks: seq<seq<byte>>, n: nat)
    requires n <= |chunks|
    ensures |Concat(chunks[..n])| <= |Concat(chunks)|
    ensures Concat(chunks)[..|Concat(chunks[..n])|] == Concat(chunks[..n])
    decreases |chunks| - n
  {
    if n == |chunks| {
      assert chunks[..n] == chunks;
    } else {
      ConcatPrefix(chunks, n + 1);
      ConcatMore(chunks, n);
      var x, y := Concat(chunks[..n]), Concat(chunks[..n + 1]);
      assert Concat(chunks)[..|y|][..|x|] == y[..|x|] == x;
    }
  }

  lemma DataAtomsAppend(x: seq<byte>, y: seq<byte>)
    ensures DataAtoms(x + y) == DataAtoms(x) + DataAtoms(y)
  {
  }

  lemma FeedNothing(c: Config, e: Engine)
    ensures Feed(c, e, []) == e
  {
  }

  lemma Feed1(c: Config, e: Engine, b: byte)
    ensures Feed(c, e, [b]) == FeedByte(c, e, b)
  {
    assert [b][..0] == [];
    assert Feed(c, e, []) == e;
  }

  lemma Feed2(c: Config, e: Engine, a: byte, b: byte)
    ensures Feed(c, e, [a, b]) == FeedByte(c, FeedByte(c, e, a), b)
  {
    assert [a, b][..1] == [a];
    Feed1(c, e, a);
  }

  /**
   * MCCPv1's IAC SB 85 WILL SE is discarded; but cut before its last byte, or with an IAC as its last
   * byte, it makes the original raise a DATA event of length -1.
   */
  lemma MccpDiscarded(c: Config, e: Engine)
    requires e.state == InData
    ensures var will := [IAC, SB, COMPRESS, WILL];
      && Feed(c, e, will + [SE]) == e.(sbTelopt := COMPRESS, buffer := [])
      && Feed(c, e, will).state == InSkip && Feed(c, e, will + [IAC]).overrun
  {
    hide Negotiate, Subnegotiated, BufferByte;
    var will := [IAC, SB, COMPRESS, WILL];
    assert will == [IAC, SB] + [COMPRESS, WILL];
    FeedAppend(c, e, [IAC, SB], [COMPRESS, WILL]);
    Feed2(c, e, IAC, SB);
    var e1 := e.(state := InSb);
    Feed2(c, e1, COMPRESS, WILL);
    var e2 := e.(sbTelopt := COMPRESS, buffer := [], state := InSkip);
    assert Feed(c, e, will) == e2;
    FeedAppend(c, e, will, [SE]);
    FeedAppend(c, e, will, [IAC]);
    Feed1(c, e2, SE);
    Feed1(c, e2, IAC);
  }

  // ----- the engine as a peer of the Q method -----

  lemma NegotiateInAnyState(c: Config, e: Engine, t: TState, cmd: Command, opt: byte)
    ensures Negotiate(c, e.(state := t), cmd, opt).(state := InData) == Negotiate(c, e, cmd, opt).(state := InData)
  {
    hide Lookup, Update, Tracked, Receive, Notice, Touches;
  }

  /** A command's three bytes, received outside a subnegotiation, run _negotiate once. */
  lemma CommandReceived(c: Config, e: Engine, cmd: Command, opt: byte)
    requires e.state == InData
    ensures Feed(c, e, CommandBytes(cmd, opt)) == Negotiate(c, e, cmd, opt).(state := InData)
  {
    hide Negotiate, Subnegotiated, BufferByte;
    var s := CommandBytes(cmd, opt);
    assert s[..2] == [IAC, CommandByte(cmd)];
    Feed2(c, e, IAC, CommandByte(cmd));
    assert FeedByte(c, FeedByte(c, e, IAC), CommandByte(cmd)) == e.(state := InCommand(cmd));
    NegotiateInAnyState(c, e, InCommand(cmd), cmd, opt);
  }

  /** The bytes that events hand to the transport. */
  function OnWire(x: seq<Atom>): seq<byte> {
    if x == [] then [] else OnWire(x[..|x| - 1]) + SentBy(x[|x| - 1])
  }

  function SentBy(a: Atom): seq<byte> { if a.Other? && a.e.Send? then a.e.bytes else [] }

  lemma OnWireNothing()
    ensures OnWire([]) == []
  {
  }

  lemma OnWireOneMore(x: seq<Atom>, a: Atom)
    ensures OnWire(x + [a]) == OnWire(x) + SentBy(a)
  {
    assert (x + [a])[..|x|] == x;
  }

  /** Commands as bytes. */
  function Wire(ms: seq<Message>): seq<byte> {
    if ms == [] then [] else CommandBytes(ms[0].command, ms[0].opt) + Wire(ms[1..])
  }

  lemma WireOfReply(opt: byte, own: bool, reply: seq<bool>)
    requires |reply| <= 1
    ensures Wire(Messages(opt, own, reply)) == if reply == [] then [] else CommandBytes(CommandOf(own, reply[0]), opt)
  {
    if reply != [] {
      var ms := Messages(opt, own, reply);
      assert ms[1..] == [];
    }
  }

  /** What e's handler was told on the way to e'. */
  function News(e: Engine, e': Engine): seq<Atom> {
    if e.atoms <= e'.atoms then e'.atoms[|e.atoms|..] else []
  }

  /** At most one command is sent, then at most one notice and one warning given. */
  function Told(sent: seq<seq<byte>>, notice: seq<TEvent>, warning: bool): seq<Atom> {
    (if sent == [] then [] else [Other(Send(sent[0]))]) + (if notice == [] then [] else [Other(notice[0])])
    + if warning then [Other(Warning)] else []
  }

  lemma SentTold(sent: seq<seq<byte>>, notice: seq<TEvent>, warning: bool)
    requires notice != [] ==> notice[0].Negotiated?
    ensures OnWire(Told(sent, notice, warning)) == if sent == [] then [] else sent[0]
  {
    hide OnWire;
    var s: seq<Atom> := if sent == [] then [] else [Other(Send(sent[0]))];
    OnWireNothing();
    OnWireOneMore([], Other(Send(if sent == [] then [] else sent[0])));
    assert sent != [] ==> [] + s == s && OnWire(s) == [] + sent[0] == sent[0];
    var n: seq<Atom> := if notice == [] then [] else [Other(notice[0])];
    OnWireOneMore(s, Other(if notice == [] then Warning else notice[0]));
    assert s + [] == s && OnWire(s + n) == OnWire(s);
    OnWireOneMore(s + n, Other(Warning));
    assert s + n + [] == s + n;
  }

  lemma ToldHas(sent: seq<seq<byte>>, notice: seq<TEvent>, warning: bool, x: TEvent)
    ensures Other(x) in Told(sent, notice, warning) <==>
      (sent != [] && x == Send(sent[0])) || (notice != [] && x == notice[0]) || (warning && x == Warning)
  {
  }

  lemma NegotiateTells(c: Config, e: Engine, cmd: Command, opt: byte)
    ensures var own := !cmd.Own();
      var q := SideOf(Lookup(e.q, opt), own);
      var supported := opt in (if own then c.us else c.him);
      var r := Receive(q, cmd.Positive(), supported);
      var notice := Notice(q, cmd.Positive(), supported);
      Negotiate(c, e, cmd, opt).atoms == e.atoms
        + Told(if r.reply == [] then [] else [CommandBytes(CommandOf(own, r.reply[0]), opt)],
               if notice == [] then [] else [Negotiated(CommandOf(cmd.Own(), notice[0]), opt)], r.warning)
  {
    hide Lookup, Update, Tracked, Receive, Notice, Touches, CommandBytes, SideOf, WithSide, CommandOf;
  }

  lemma CommandsDiffer(own: bool, on: bool)
    ensures CommandOf(own, on) != CommandOf(own, !on)
  {
  }

  lemma ReceiveSays(q: Q, positive: bool, supported: bool)
    ensures |Receive(q, positive, supported).reply| <= 1 && |Notice(q, positive, supported)| <= 1
  {
  }

  lemma NegotiateSends(c: Config, e: Engine, cmd: Command, opt: byte)
    ensures var own := !cmd.Own();
      var e', supported := Negotiate(c, e, cmd, opt), opt in (if own then c.us else c.him);
      var r := Receive(SideOf(Lookup(e.q, opt), own), cmd.Positive(), supported);
      && e.atoms <= e'.atoms && OnWire(News(e, e')) == Wire(Messages(opt, own, r.reply))
      && (Other(Warning) in News(e, e') <==> r.warning)
  {
    hide *;
    var own, q := !cmd.Own(), SideOf(Lookup(e.q, opt), !cmd.Own());
    var e', supported := Negotiate(c, e, cmd, opt), opt in (if own then c.us else c.him);
    var r, notice := Receive(q, cmd.Positive(), supported), Notice(q, cmd.Positive(), supported);
    NegotiateTells(c, e, cmd, opt);
    ReceiveSays(q, cmd.Positive(), supported);
    var sent := if r.reply == [] then [] else [CommandBytes(CommandOf(own, r.reply[0]), opt)];
    var told := if notice == [] then [] else [Negotiated(CommandOf(cmd.Own(), notice[0]), opt)];
    SentTold(sent, told, r.warning);
    ToldHas(sent, told, r.warning, Warning);
    WireOfReply(opt, own, r.reply);
    NewsAfter(e, e', Told(sent, told, r.warning));
  }

  lemma NegotiateNotices(c: Config, e: Engine, cmd: Command, opt: byte, on: bool)
    ensures var own := !cmd.Own();
      var e', supported := Negotiate(c, e, cmd, opt), opt in (if own then c.us else c.him);
      e.atoms <= e'.atoms && (Other(Negotiated(CommandOf(cmd.Own(), on), opt)) in News(e, e')
                              <==> Notice(SideOf(Lookup(e.q, opt), own), cmd.Positive(), supported) == [on])
  {
    hide *;
    var own, q := !cmd.Own(), SideOf(Lookup(e.q, opt), !cmd.Own());
    var e', supported := Negotiate(c, e, cmd, opt), opt in (if own then c.us else c.him);
    var r, notice := Receive(q, cmd.Positive(), supported), Notice(q, cmd.Positive(), supported);
    NegotiateTells(c, e, cmd, opt);
    ReceiveSays(q, cmd.Positive(), supported);
    var sent := if r.reply == [] then [] else [CommandBytes(CommandOf(own, r.reply[0]), opt)];
    var told := if notice == [] then [] else [Negotiated(CommandOf(cmd.Own(), notice[0]), opt)];
    ToldHas(sent, told, r.warning, Negotiated(CommandOf(cmd.Own(), on), opt));
    CommandsDiffer(cmd.Own(), on);
    NewsAfter(e, e', Told(sent, told, r.warning));
  }

  lemma NewsAfter(e: Engine, e': Engine, x: seq<Atom>)
    requires e'.atoms == e.atoms + x
    ensures e.atoms <= e'.atoms && News(e, e') == x
  {
  }

  lemma NegotiateSides(c: Config, e: Engine, cmd: Command, opt: byte, other: byte)
    ensures var own := !cmd.Own();
      var x := Lookup(e.q, opt);
      var supported := opt in (if own then c.us else c.him);
      Lookup(Negotiate(c, e, cmd, opt).q, other)
      == if other == opt then WithSide(x, own, Receive(SideOf(x, own), cmd.Positive(), supported).q)
         else Lookup(e.q, other)
  {
    hide Lookup, Update, Tracked, Notice, Told;
    var own := !cmd.Own();
    var x := Lookup(e.q, opt);
    var supported := opt in (if own then c.us else c.him);
    LookupUpdate(e.q, opt, WithSide(x, own, Receive(SideOf(x, own), cmd.Positive(), supported).q), other);
  }

  /**
   * _negotiate does as a peer of the two-party protocol does: it moves that side of that option and no
   * other, puts the reply on the wire, warns when the protocol says so, and gives its notice.
   */
  lemma NegotiateIsReceive(c: Config, e: Engine, cmd: Command, opt: byte, other: byte, on: bool)
    ensures var own := !cmd.Own();
      var x, e' := Lookup(e.q, opt), Negotiate(c, e, cmd, opt);
      var supported := opt in (if own then c.us else c.him);
      var r := Receive(SideOf(x, own), cmd.Positive(), supported);
      && Lookup(e'.q, other) == (if other == opt then WithSide(x, own, r.q) else Lookup(e.q, other))
      && e.atoms <= e'.atoms && OnWire(News(e, e')) == Wire(Messages(opt, own, r.reply))
      && (Other(Warning) in News(e, e') <==> r.warning)
      && (Other(Negotiated(CommandOf(cmd.Own(), on), opt)) in News(e, e')
          <==> Notice(SideOf(x, own), cmd.Positive(), supported) == [on])
  {
    hide *;
    NegotiateSides(c, e, cmd, opt, other);
    NegotiateSends(c, e, cmd, opt);
    NegotiateNotices(c, e, cmd, opt, on);
  }

  lemma RequestSides(e: Engine, cmd: Command, opt: byte, other: byte)
    ensures var x := Lookup(e.q, opt);
      Lookup(Request(e, cmd, opt).q, other) ==
      if other == opt then WithSide(x, cmd.Own(), Ask(SideOf(x, cmd.Own()), cmd.Positive()).q) else Lookup(e.q, other)
  {
    hide Lookup, Update, Tracked, CommandBytes, Ask;
    var x := Lookup(e.q, opt);
    LookupUpdate(e.q, opt, WithSide(x, cmd.Own(), Ask(SideOf(x, cmd.Own()), cmd.Positive()).q), other);
  }

  lemma RequestTells(e: Engine, cmd: Command, opt: byte)
    ensures var r := Ask(SideOf(Lookup(e.q, opt), cmd.Own()), cmd.Positive());
      Request(e, cmd, opt).atoms == e.atoms + if r.reply == [] then [] else [Other(Send(CommandBytes(cmd, opt)))]
  {
    hide Lookup, Update, Tracked, CommandBytes, Ask, SideOf, WithSide;
  }

  lemma AskSays(cmd: Command, q: Q)
    ensures var r := Ask(q, cmd.Positive()); r.reply == [] || r.reply == [cmd.Positive()]
    ensures CommandOf(cmd.Own(), cmd.Positive()) == cmd
  {
  }

  /** telnet_negotiate does as the asking step of the two-party protocol, its command on the wire. */
  lemma RequestIsAsk(e: Engine, cmd: Command, opt: byte, other: byte)
    ensures var own := cmd.Own();
      var x, e' := Lookup(e.q, opt), Request(e, cmd, opt);
      var r := Ask(SideOf(x, own), cmd.Positive());
      && Lookup(e'.q, other) == (if other == opt then WithSide(x, own, r.q) else Lookup(e.q, other))
      && e.atoms <= e'.atoms && OnWire(News(e, e')) == Wire(Messages(opt, own, r.reply))
      && Other(Warning) !in News(e, e')
  {
    hide *;
    var r := Ask(SideOf(Lookup(e.q, opt), cmd.Own()), cmd.Positive());
    RequestSides(e, cmd, opt, other);
    RequestTells(e, cmd, opt);
    AskSays(cmd, SideOf(Lookup(e.q, opt), cmd.Own()));
    WireOfReply(opt, cmd.Own(), r.reply);
    OnWireNothing();
    OnWireOne(CommandBytes(cmd, opt));
    NewsAfter(e, Request(e, cmd, opt), if r.reply == [] then [] else [Other(Send(CommandBytes(cmd, opt)))]);
  }

  lemma OnWireOne(s: seq<byte>)
    ensures OnWire([Other(Send(s))]) == s
  {
    OnWireOneMore([], Other(Send(s)));
    assert [] + [Other(Send(s))] == [Other(Send(s))] && [] + s == s;
  }

  /** A binary flag is set only while its side of the BINARY option is enabled. */
  predicate FlagsTrue(e: Engine) {
    (e.flags.transmitBinary ==> Tracked(e.q, BINARY) && Lookup(e.q, BINARY).us == Yes)
    && (e.flags.receiveBinary ==> Tracked(e.q, BINARY) && Lookup(e.q, BINARY).him == Yes)
  }

  lemma SetKeepsFlagsTrue(e: Engine, opt: byte, x: Sides)
    requires FlagsTrue(e)
    ensures FlagsTrue(SetOption(e, opt, x))
  {
    LookupUpdate(e.q, opt, x, BINARY);
  }

  /** Only a command byte touches the options and the flags. */
  lemma ByteKeepsOptions(c: Config, e: Engine, b: byte)
    requires !e.state.InCommand?
    ensures FeedByte(c, e, b).q == e.q && FeedByte(c, e, b).flags == e.flags
  {
  }

  lemma NegotiateKeepsFlagsTrue(c: Config, e: Engine, cmd: Command, opt: byte)
    requires FlagsTrue(e)
    ensures FlagsTrue(Negotiate(c, e, cmd, opt))
  {
    hide Lookup, Update, Tracked, Receive, Notice, Touches, SetOption, SideOf, WithSide, CommandBytes, CommandOf;
    var own := !cmd.Own();
    var x := Lookup(e.q, opt);
    var supported := opt in (if own then c.us else c.him);
    var x' := WithSide(x, own, Receive(SideOf(x, own), cmd.Positive(), supported).q);
    SetKeepsFlagsTrue(e, opt, x');
  }

  lemma {:induction false} FeedKeepsFlagsTrue(c: Config, e: Engine, s: seq<byte>)
    requires FlagsTrue(e)
    ensures FlagsTrue(Feed(c, e, s))
  {
    hide Lookup, Tracked, Negotiate;
    if s != [] {
      var n := |s| - 1;
      FeedKeepsFlagsTrue(c, e, s[..n]);
      var e1 := Feed(c, e, s[..n]);
      if e1.state.InCommand? {
        NegotiateKeepsFlagsTrue(c, e1, e1.state.c, s[n]);
      } else {
        ByteKeepsOptions(c, e1, s[n]);
      }
    }
  }

  // ----- slices of data that the parser has passed but not yet handed on -----

  /** e once the pending slice s of plain data is handed on. */
  function WithPending(e: Engine, s: seq<byte>): Engine {
    if e.state == InData then e.(atoms := e.atoms + DataAtoms(s)) else e
  }

  /** What the parser amounts to before byte i of s, when it will hand on data from start. */
  function Seen(e: Engine, s: seq<byte>, start: nat, i: nat): Engine
    requires i <= |s|
  {
    if e.state != InData then e
    else if start <= i then WithPending(e, s[start..i])
    else e.(state := InSkip)
  }

  lemma SeenNothing(e: Engine, s: seq<byte>, i: nat)
    requires i <= |s|
    ensures Seen(e, s, i, i) == e
  {
    assert DataAtoms(s[i..i]) == [] && e.atoms + [] == e.atoms;
  }

  lemma {:induction false} OverrunSticks(c: Config, e: Engine, s: seq<byte>, n: nat)
    requires n <= |s| && !Feed(c, e, s).overrun
    ensures !Feed(c, e, s[..n]).overrun
    decreases |s|
  {
    hide FeedByte;
    if n < |s| {
      ByteOverrunSticks(c, Feed(c, e, s[..|s| - 1]), s[|s| - 1]);
      OverrunSticks(c, e, s[..|s| - 1], n);
      assert s[..|s| - 1][..n] == s[..n];
    } else {
      assert s[..n] == s;
    }
  }

  lemma ByteOverrunSticks(c: Config, e: Engine, b: byte)
    ensures e.overrun ==> FeedByte(c, e, b).overrun
  {
    hide Lookup, Update, Tracked, Receive, Notice, Touches, Flatten;
  }

  lemma FeedSnoc(c: Config, e: Engine, s: seq<byte>, i: nat)
    requires i < |s|
    ensures Feed(c, e, s[..i + 1]) == FeedByte(c, Feed(c, e, s[..i]), s[i])
  {
    assert s[..i + 1][..i] == s[..i];
  }

  /** A plain byte of data only lengthens the pending slice. */
  lemma PendingPlain(c: Config, e: Engine, s: seq<byte>, b: byte)
    requires e.state == InData && b != IAC && !Translates(e, b)
    ensures FeedByte(c, WithPending(e, s), b) == WithPending(e, s + [b])
  {
    hide Negotiate, BufferByte, Subnegotiated;
    DataAtomsAppend(s, [b]);
    assert e.atoms + DataAtoms(s) + [DataByte(b)] == e.atoms + (DataAtoms(s) + DataAtoms([b]));
  }
}
