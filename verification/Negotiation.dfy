/**
 * The Q method of option negotiation (section 7 of RFC 1143), as two peers run it over FIFO
 * channels: src/libtelnet.c, _negotiate and telnet_negotiate.
 */
module Negotiation {
  import opened Bytes

  /** The state of one side of one option. */
  datatype Q = No | Yes | WantNo | WantYes | WantNoOp | WantYesOp

  /** WILL and DO are positive, WONT and DONT negative. */
  datatype Reaction = Reaction(q: Q, reply: seq<bool>, warning: bool)

  /** _negotiate on one side of an option: the new state, a reply, and the protocol-error branches. */
  function Receive(q: Q, positive: bool, supported: bool): Reaction {
    if positive then
      match q
      case No => if supported then Reaction(Yes, [true], false) else Reaction(No, [false], false)
      case Yes => Reaction(Yes, [], false)
      case WantNo => Reaction(No, [], true)
      case WantNoOp => Reaction(Yes, [], true)
      case WantYes => Reaction(Yes, [], false)
      case WantYesOp => Reaction(WantNo, [false], false)
    else
      match q
      case No => Reaction(No, [], false)
      case Yes => Reaction(No, [false], false)
      case WantNo => Reaction(No, [], false)
      case WantNoOp => Reaction(WantYes, [true], false)
      case WantYes => Reaction(No, [], false)
      case WantYesOp => Reaction(No, [], false)
  }

  /** telnet_negotiate on one side of an option. */
  function Ask(q: Q, positive: bool): Reaction {
    if positive then
      match q
      case No => Reaction(WantYes, [true], false)
      case WantNo => Reaction(WantNoOp, [], false)
      case WantYesOp => Reaction(WantYes, [], false)
      case _ => Reaction(q, [], false)
    else
      match q
      case Yes => Reaction(WantNo, [false], false)
      case WantYes => Reaction(WantYesOp, [], false)
      case WantNoOp => Reaction(WantNo, [], false)
      case _ => Reaction(q, [], false)
  }

  // ----- one option in one direction -----

  /** Two peers and what is in flight between them: one's own side and the other's view of it. */
  datatype Pair = Pair(a: Q, ab: seq<bool>, b: Q, ba: seq<bool>) {
    function Mirror(): Pair { Pair(b, ba, a, ab) }
  }

  predicate Wanting(q: Q) { q == WantYes || q == WantYesOp }

  predicate Unwanting(q: Q) { q == WantNo || q == WantNoOp }

  /** The shapes a pair can have, with the first peer as the one that waits. */
  predicate Shape(s: Pair) {
    || (s.a == No && s.ab == [] && s.b == No && s.ba == [])
    || (s.a == Yes && s.ab == [] && s.b == Yes && s.ba == [])
    || (Wanting(s.a) && s.ab == [true] && s.b == No && s.ba == [])
    || (Wanting(s.a) && s.ab == [] && s.b == Yes && s.ba == [true])
    || (Wanting(s.a) && s.ab == [] && s.b == No && s.ba == [false])
    || (Wanting(s.a) && s.ab == [true] && Wanting(s.b) && s.ba == [true])
    || (Wanting(s.a) && s.ab == [] && Unwanting(s.b) && s.ba == [true, false])
    || (Wanting(s.a) && s.ab == [] && Wanting(s.b) && s.ba == [false, true])
    || (Unwanting(s.a) && s.ab == [false] && s.b == Yes && s.ba == [])
    || (Unwanting(s.a) && s.ab == [] && s.b == No && s.ba == [false])
    || (Unwanting(s.a) && s.ab == [false] && Unwanting(s.b) && s.ba == [false])
    || (Unwanting(s.a) && s.ab == [] && Wanting(s.b) && s.ba == [false, true])
  }

  predicate Sound(s: Pair) { Shape(s) || Shape(s.Mirror()) }

  /** The oldest message from a reaches b. */
  function DeliverToB(s: Pair, supported: bool): Pair
    requires s.ab != []
  {
    var r := Receive(s.b, s.ab[0], supported);
    Pair(s.a, s.ab[1..], r.q, s.ba + r.reply)
  }

  function AskA(s: Pair, positive: bool): Pair {
    var r := Ask(s.a, positive);
    Pair(r.q, s.ab + r.reply, s.b, s.ba)
  }

  function OpCount(q: Q): nat { if q == WantNoOp || q == WantYesOp then 1 else 0 }

  /** How many deliveries a shape can still take when no side changes its mind again. */
  function Rank(s: Pair): nat {
    if s.ab == [] && s.ba == [] then 0
    else if |s.ba| == 2 || |s.ab| == 2 then 3
    else if s.ab != [] && s.ba != [] then 2
    else if s.ba != [] then (if Wanting(s.a) || (Unwanting(s.a) && s.b == No) then 1 else 2)
    else (if Wanting(s.b) || (Unwanting(s.b) && s.a == No) then 1 else 2)
  }

  /** The measure that every delivery decreases: queued changes of mind first, then the rank. */
  function Measure(s: Pair): nat { 4 * (OpCount(s.a) + OpCount(s.b)) + Rank(s) }

  lemma DeliverSound(s: Pair, supported: bool)
    requires Sound(s) && s.ab != []
    ensures Sound(DeliverToB(s, supported))
    ensures !Receive(s.b, s.ab[0], supported).warning
    ensures Measure(DeliverToB(s, supported)) < Measure(s)
  {
    hide Rank, OpCount;
    DeliverShape(s, supported);
    DeliverLowers(s, supported);
  }

  lemma DeliverShape(s: Pair, supported: bool)
    requires Sound(s) && s.ab != []
    ensures Sound(DeliverToB(s, supported)) && !Receive(s.b, s.ab[0], supported).warning
  {
    assert s.ab == [s.ab[0]] || s.ab == [s.ab[0], s.ab[1]];
  }

  lemma DeliverLowers(s: Pair, supported: bool)
    requires Sound(s) && s.ab != []
    ensures Measure(DeliverToB(s, supported)) < Measure(s)
  {
    assert s.ab == [s.ab[0]] || s.ab == [s.ab[0], s.ab[1]];
  }

  lemma AskSound(s: Pair, positive: bool)
    requires Sound(s)
    ensures Sound(AskA(s, positive))
  {
  }

  lemma QuietAgrees(s: Pair)
    requires Sound(s)
    ensures |s.ab| <= 2 && |s.ba| <= 2
    ensures s.ab == [] && s.ba == [] ==> (s.a == No && s.b == No) || (s.a == Yes && s.b == Yes)
    ensures Measure(s) == 0 ==> s.ab == [] && s.ba == []
  {
  }

  lemma MirrorSame(s: Pair)
    requires Sound(s)
    ensures Sound(s.Mirror()) && Measure(s.Mirror()) == Measure(s) && s.Mirror().Mirror() == s
  {
  }

  // ----- all options, both directions, two FIFO channels -----

  datatype Command = Will | Wont | Do | Dont {
    predicate Positive() { this == Will || this == Do }
    /** WILL and WONT speak of the sender's own side, DO and DONT of the other peer's. */
    predicate Own() { this == Will || this == Wont }
  }

  function CommandOf(own: bool, positive: bool): Command {
    if own then (if positive then Will else Wont) else (if positive then Do else Dont)
  }

  /** What one engine remembers of one option: its own side, and the other peer's. */
  datatype Sides = Sides(us: Q, him: Q)

  type Table = map<byte, Sides>

  function Get(t: Table, opt: byte): Sides { if opt in t then t[opt] else Sides(No, No) }

  /** The side that a peer reads and changes for a matter that is its own or the other's. */
  function SideOf(x: Sides, own: bool): Q { if own then x.us else x.him }

  function WithSide(x: Sides, own: bool, q: Q): Sides { if own then x.(us := q) else x.(him := q) }

  datatype Message = Message(command: Command, opt: byte)

  /** Two engines and the negotiation commands in flight, oldest first. */
  datatype Net = Net(a: Table, ab: seq<Message>, b: Table, ba: seq<Message>) {
    function Swap(): Net { Net(b, ba, a, ab) }
  }

  function Messages(opt: byte, own: bool, signs: seq<bool>): (ms: seq<Message>)
    ensures |ms| == |signs|
  {
    seq(|signs|, i requires 0 <= i < |signs| => Message(CommandOf(own, signs[i]), opt))
  }

  /** The oldest command from a reaches b: a command about its sender is about b's `him`. */
  function DeliverB(n: Net, supported: bool): Net
    requires n.ab != []
  {
    var m := n.ab[0];
    var own := !m.command.Own();
    var r := Receive(SideOf(Get(n.b, m.opt), own), m.command.Positive(), supported);
    Net(n.a, n.ab[1..], n.b[m.opt := WithSide(Get(n.b, m.opt), own, r.q)], n.ba + Messages(m.opt, own, r.reply))
  }

  /** The application on a asks for a change. */
  function RequestA(n: Net, m: Message): Net {
    var own := m.command.Own();
    var r := Ask(SideOf(Get(n.a, m.opt), own), m.command.Positive());
    Net(n.a[m.opt := WithSide(Get(n.a, m.opt), own, r.q)], n.ab + Messages(m.opt, own, r.reply), n.b, n.ba)
  }

  /** The signs of the commands in a channel about one side of one option. */
  function Project(ms: seq<Message>, opt: byte, own: bool): seq<bool> {
    if ms == [] then []
    else
      (if ms[0].opt == opt && ms[0].command.Own() == own then [ms[0].command.Positive()] else [])
      + Project(ms[1..], opt, own)
  }

  /** One side of one option, seen from a: its own side, or b's. */
  function PairOf(n: Net, opt: byte, own: bool): Pair {
    Pair(SideOf(Get(n.a, opt), own), Project(n.ab, opt, own), SideOf(Get(n.b, opt), !own), Project(n.ba, opt, !own))
  }

  lemma {:induction false} ProjectAppend(x: seq<Message>, y: seq<Message>, opt: byte, own: bool)
    ensures Project(x + y, opt, own) == Project(x, opt, own) + Project(y, opt, own)
  {
    if x == [] {
      assert x + y == y;
    } else {
      assert (x + y)[1..] == x[1..] + y;
      ProjectAppend(x[1..], y, opt, own);
    }
  }

  lemma {:induction false} ProjectMessages(opt: byte, own: bool, signs: seq<bool>, opt': byte, own': bool)
    ensures Project(Messages(opt, own, signs), opt', own') == if opt == opt' && own == own' then signs else []
  {
    if signs != [] {
      assert Messages(opt, own, signs)[1..] == Messages(opt, own, signs[1..]);
      ProjectMessages(opt, own, signs[1..], opt', own');
    }
  }

  /** A delivery moves the one pair its command is about, and no other. */
  lemma DeliverProjects(n: Net, supported: bool, opt: byte, own: bool)
    requires n.ab != []
    ensures var about := n.ab[0].opt == opt && n.ab[0].command.Own() == own;
      PairOf(DeliverB(n, supported), opt, own) ==
      if about then DeliverToB(PairOf(n, opt, own), supported) else PairOf(n, opt, own)
    ensures n.ab[0].opt == opt && n.ab[0].command.Own() == own ==> Project(n.ab, opt, own) != []
  {
    var m := n.ab[0];
    var r := Receive(SideOf(Get(n.b, m.opt), !m.command.Own()), m.command.Positive(), supported);
    ProjectAppend(n.ba, Messages(m.opt, !m.command.Own(), r.reply), opt, !own);
    ProjectMessages(m.opt, !m.command.Own(), r.reply, opt, !own);
  }

  lemma RequestProjects(n: Net, m: Message, opt: byte, own: bool)
    ensures PairOf(RequestA(n, m), opt, own) ==
      if m.opt == opt && m.command.Own() == own then AskA(PairOf(n, opt, own), m.command.Positive())
      else PairOf(n, opt, own)
  {
    var r := Ask(SideOf(Get(n.a, m.opt), m.command.Own()), m.command.Positive());
    ProjectAppend(n.ab, Messages(m.opt, m.command.Own(), r.reply), opt, own);
    ProjectMessages(m.opt, m.command.Own(), r.reply, opt, own);
  }

  // ----- every run -----

  ghost predicate AllSound(n: Net) {
    forall opt: byte, own: bool :: Sound(PairOf(n, opt, own))
  }

  lemma SwapSound(n: Net)
    requires AllSound(n)
    ensures AllSound(n.Swap())
  {
    forall opt: byte, own: bool
      ensures Sound(PairOf(n.Swap(), opt, own))
    {
      MirrorSame(PairOf(n, opt, !own));
    }
  }

  /** A request by either peer, or the arrival of the oldest command at either peer. */
  datatype Event = AskedA(m: Message) | AskedB(m: Message) | ArrivesA(supported: bool) | ArrivesB(supported: bool)

  predicate Enabled(n: Net, e: Event) {
    (e.ArrivesA? ==> n.ba != []) && (e.ArrivesB? ==> n.ab != [])
  }

  function Next(n: Net, e: Event): Net
    requires Enabled(n, e)
  {
    match e
    case AskedA(m) => RequestA(n, m)
    case AskedB(m) => RequestA(n.Swap(), m).Swap()
    case ArrivesB(s) => DeliverB(n, s)
    case ArrivesA(s) => DeliverB(n.Swap(), s).Swap()
  }

  /** The branches marked "DONT answered by WILL" and "WONT answered by DO". */
  predicate Warns(n: Net, e: Event)
    requires Enabled(n, e)
  {
    match e
    case ArrivesB(_) => WarnsB(n)
    case ArrivesA(_) => WarnsB(n.Swap())
    case _ => false
  }

  predicate WarnsB(n: Net)
    requires n.ab != []
  {
    var m := n.ab[0];
    Receive(SideOf(Get(n.b, m.opt), !m.command.Own()), m.command.Positive(), true).warning
  }

  predicate Possible(n: Net, es: seq<Event>)
    decreases |es|
  {
    es == [] || (Enabled(n, es[0]) && Possible(Next(n, es[0]), es[1..]))
  }

  function RunNet(n: Net, es: seq<Event>): Net
    requires Possible(n, es)
    decreases |es|
  {
    if es == [] then n else RunNet(Next(n, es[0]), es[1..])
  }

  const START: Net := Net(map[], [], map[], [])

  lemma DeliverAllSound(n: Net, supported: bool)
    requires AllSound(n) && n.ab != []
    ensures AllSound(DeliverB(n, supported)) && !WarnsB(n)
  {
    var m := n.ab[0];
    forall opt: byte, own: bool
      ensures Sound(PairOf(DeliverB(n, supported), opt, own))
    {
      DeliverProjects(n, supported, opt, own);
      if m.opt == opt && m.command.Own() == own {
        DeliverSound(PairOf(n, opt, own), supported);
      }
    }
    DeliverProjects(n, true, m.opt, m.command.Own());
    DeliverSound(PairOf(n, m.opt, m.command.Own()), true);
  }

  lemma RequestAllSound(n: Net, m: Message)
    requires AllSound(n)
    ensures AllSound(RequestA(n, m))
  {
    forall opt: byte, own: bool
      ensures Sound(PairOf(RequestA(n, m), opt, own))
    {
      RequestProjects(n, m, opt, own);
      AskSound(PairOf(n, opt, own), m.command.Positive());
    }
  }

  lemma NextSound(n: Net, e: Event)
    requires AllSound(n) && Enabled(n, e)
    ensures AllSound(Next(n, e)) && !Warns(n, e)
  {
    SwapSound(n);
    match e
    case AskedA(m) => RequestAllSound(n, m);
    case AskedB(m) => RequestAllSound(n.Swap(), m); SwapSound(RequestA(n.Swap(), m));
    case ArrivesB(s) => DeliverAllSound(n, s);
    case ArrivesA(s) => DeliverAllSound(n.Swap(), s); SwapSound(DeliverB(n.Swap(), s));
  }

  lemma {:induction false} RunSound(n: Net, es: seq<Event>)
    requires AllSound(n) && Possible(n, es)
    ensures AllSound(RunNet(n, es))
    decreases |es|
  {
    if es != [] {
      NextSound(n, es[0]);
      RunSound(Next(n, es[0]), es[1..]);
    }
  }

  /**
   * Safety over every run: whatever the two applications ask, in whatever order commands arrive
   * and are accepted or refused, no protocol-error branch is taken; no more than two commands
   * about one side of one option are in flight each way; and once both channels are empty the
   * two peers agree on every side of every option.
   */
  lemma NegotiationSafe(es: seq<Event>, e: Event, opt: byte, own: bool)
    requires Possible(START, es) && Enabled(RunNet(START, es), e)
    ensures !Warns(RunNet(START, es), e)
    ensures var n := RunNet(START, es);
      |Project(n.ab, opt, own)| <= 2 && |Project(n.ba, opt, !own)| <= 2
      && (n.ab == [] && n.ba == [] ==>
           var mine, his := SideOf(Get(n.a, opt), own), SideOf(Get(n.b, opt), !own);
           mine == his && (mine == No || mine == Yes))
  {
    forall o: byte, w: bool
      ensures Sound(PairOf(START, o, w))
    {
    }
    RunSound(START, es);
    var n := RunNet(START, es);
    NextSound(n, e);
    QuietAgrees(PairOf(n, opt, own));
  }

  // ----- no negotiation loops -----

  function NetMeasure(n: Net, options: nat): nat
    requires options <= 256
  {
    if options == 0 then 0
    else NetMeasure(n, options - 1) + Measure(PairOf(n, options - 1, true)) + Measure(PairOf(n, options - 1, false))
  }

  lemma {:induction false} SwapMeasure(n: Net, options: nat)
    requires AllSound(n) && options <= 256
    ensures NetMeasure(n.Swap(), options) == NetMeasure(n, options)
  {
    if options > 0 {
      SwapMeasure(n, options - 1);
      MirrorSame(PairOf(n, options - 1, true));
      MirrorSame(PairOf(n, options - 1, false));
    }
  }

  lemma {:induction false} DeliverMeasure(n: Net, supported: bool, options: nat)
    requires AllSound(n) && n.ab != [] && options <= 256
    ensures var less := NetMeasure(DeliverB(n, supported), options);
      if n.ab[0].opt < options then less < NetMeasure(n, options) else less == NetMeasure(n, options)
  {
    if options > 0 {
      DeliverMeasure(n, supported, options - 1);
      DeliverOne(n, supported, options - 1, true);
      DeliverOne(n, supported, options - 1, false);
    }
  }

  lemma DeliverOne(n: Net, supported: bool, opt: byte, own: bool)
    requires AllSound(n) && n.ab != []
    ensures var p, p' := PairOf(n, opt, own), PairOf(DeliverB(n, supported), opt, own);
      if n.ab[0].opt == opt && n.ab[0].command.Own() == own then Measure(p') < Measure(p) else p' == p
  {
    DeliverProjects(n, supported, opt, own);
    if n.ab[0].opt == opt && n.ab[0].command.Own() == own {
      DeliverSound(PairOf(n, opt, own), supported);
    }
  }

  predicate Arrival(e: Event) { e.ArrivesA? || e.ArrivesB? }

  lemma ArrivalDecreases(n: Net, e: Event)
    requires AllSound(n) && Enabled(n, e) && Arrival(e)
    ensures NetMeasure(Next(n, e), 256) < NetMeasure(n, 256)
  {
    if e.ArrivesB? {
      DeliverMeasure(n, e.supported, 256);
    } else {
      SwapSound(n);
      SwapMeasure(n, 256);
      DeliverMeasure(n.Swap(), e.supported, 256);
      DeliverAllSound(n.Swap(), e.supported);
      SwapMeasure(DeliverB(n.Swap(), e.supported), 256);
    }
  }

  /** Without new requests, at most NetMeasure deliveries are possible: the channels drain. */
  lemma {:induction false} NegotiationEnds(n: Net, es: seq<Event>)
    requires AllSound(n) && Possible(n, es) && forall e <- es :: Arrival(e)
    ensures |es| + NetMeasure(RunNet(n, es), 256) <= NetMeasure(n, 256)
    decreases |es|
  {
    if es != [] {
      assert es[0] in es;
      ArrivalDecreases(n, es[0]);
      NextSound(n, es[0]);
      assert forall e <- es[1..] :: e in es;
      NegotiationEnds(Next(n, es[0]), es[1..]);
    }
  }
}
