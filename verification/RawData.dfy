/**
 * Data sent by telnet_send of src/libtelnet.c to a receiver that translates line ends, as this driver's
 * own connections do: exactly which data comes through as it was.
 */
module RawData {
  import opened Bytes
  import opened Sequences
  import opened Negotiation
  import opened TelnetSpec
  import opened TelnetEncoding

  /**
   * Scanning from the left, every carriage return that the one before it does not take with it is
   * followed by a byte other than a newline, a NUL and an IAC.
   */
  predicate Clean(s: seq<byte>) {
    if s == [] then true
    else if s[0] != CR then Clean(s[1..])
    else |s| >= 2 && s[1] != LF && s[1] != NUL && s[1] != IAC && Clean(s[2..])
  }

  // ----- reading escaped data from the front -----

  lemma FeedFirst(c: Config, e: Engine, b: byte, s: seq<byte>)
    ensures Feed(c, e, Escape([b] + s)) == Feed(c, Feed(c, e, EscapeByte(b)), Escape(s))
  {
    hide *;
    EscapeSplit([b] + s, 1);
    EscapeOne(b, s);
    FeedAppend(c, e, EscapeByte(b), Escape(s));
  }

  lemma EscapeOne(b: byte, s: seq<byte>)
    ensures Escape(([b] + s)[..1]) == EscapeByte(b) && ([b] + s)[1..] == s
  {
    assert ([b] + s)[..1] == [b] && [b][..0] == [];
    assert Escape([]) == [];
  }

  lemma NothingFed(c: Config, e: Engine)
    ensures Feed(c, e, Escape([])) == e && Emit(e, DataAtoms([])) == e
  {
    assert DataAtoms([]) == [];
  }

  lemma DataFirst(e: Engine, b: byte, s: seq<byte>)
    ensures Emit(e, DataAtoms([b] + s)) == Emit(Emit(e, [DataByte(b)]), DataAtoms(s))
  {
    hide Emit;
    assert DataAtoms([b] + s) == [DataByte(b)] + DataAtoms(s);
    EmitTwice(e, [DataByte(b)], DataAtoms(s));
  }

  // ----- counting -----

  /** The data among the events. */
  function DataCount(atoms: seq<Atom>): nat {
    if atoms == [] then 0 else DataCount(atoms[..|atoms| - 1]) + (if atoms[|atoms| - 1].DataByte? then 1 else 0)
  }

  lemma {:induction false} DataCountAppend(x: seq<Atom>, y: seq<Atom>)
    ensures DataCount(x + y) == DataCount(x) + DataCount(y)
  {
    if y == [] {
      assert x + y == x;
    } else {
      var n := |y| - 1;
      assert (x + y)[..|x + y| - 1] == x + y[..n];
      DataCountAppend(x, y[..n]);
    }
  }

  lemma {:induction false} DataAtomsCount(s: seq<byte>)
    ensures DataCount(DataAtoms(s)) == |s|
  {
    if s != [] {
      var n := |s| - 1;
      assert DataAtoms(s)[..n] == DataAtoms(s[..n]);
      DataAtomsCount(s[..n]);
    }
  }

  /** Data handed on, and a carriage return that is held back. */
  function Weight(e: Engine): nat { DataCount(e.atoms) + if e.state.InEol? then 1 else 0 }

  lemma EmitCount(e: Engine, x: seq<Atom>)
    ensures DataCount(Emit(e, x).atoms) == DataCount(e.atoms) + DataCount(x) && Emit(e, x).state == e.state
  {
    DataCountAppend(e.atoms, x);
    assert DataCount([]) == 0;
  }

  lemma OneAtom(a: Atom)
    ensures DataCount([a]) == if a.DataByte? then 1 else 0
  {
    assert [a][..0] == [];
    assert DataCount([]) == 0;
  }

  lemma NegotiateCounts(c: Config, e: Engine, cmd: Command, opt: byte)
    ensures DataCount(Negotiate(c, e, cmd, opt).atoms) == DataCount(e.atoms)
  {
    hide Lookup, Update, Tracked, Receive, Notice, Touches, SetOption, DataCount, Emit;
    forall t: byte, x: Sides
      ensures SetOption(e, t, x).atoms == e.atoms
    {
      SetKeepsAtoms(e);
    }
    forall e1: Engine, x: seq<Atom>
      ensures DataCount(Emit(e1, x).atoms) == DataCount(e1.atoms) + DataCount(x)
    {
      EmitCount(e1, x);
    }
    forall a: TEvent
      ensures DataCount([Other(a)]) == 0
    {
      OneAtom(Other(a));
    }
    NoData();
  }

  lemma NoData()
    ensures DataCount([]) == 0
  {
  }

  /** One byte of the stream weighs at most one. */
  lemma ByteWeight(c: Config, e: Engine, b: byte)
    ensures Weight(FeedByte(c, e, b))
            <= Weight(e) + (if e.state.InData? || e.state.InEol? || e.state.InIac? then 1 else 0)
  {
    hide Negotiate, DataCount;
    forall e1: Engine, x: seq<Atom>
      ensures DataCount(Emit(e1, x).atoms) == DataCount(e1.atoms) + DataCount(x)
    {
      EmitCount(e1, x);
    }
    forall a: Atom
      ensures DataCount([a]) == if a.DataByte? then 1 else 0
    {
      OneAtom(a);
    }
    assert DataCount([DataByte(CR), DataByte(b)]) == 2 by {
      assert [DataByte(CR), DataByte(b)] == [DataByte(CR)] + [DataByte(b)];
      DataCountAppend([DataByte(CR)], [DataByte(b)]);
    }
    NoData();
    if e.state.InCommand? {
      NegotiateCounts(c, e, e.state.c, b);
    }
  }

  /** One byte of data, escaped, weighs at most one in any state. */
  lemma EscapedWeight(c: Config, e: Engine, b: byte)
    ensures Weight(Feed(c, e, EscapeByte(b))) <= Weight(e) + 1
  {
    if b != IAC {
      Feed1(c, e, b);
      hide *;
      ByteWeight(c, e, b);
    } else {
      Feed2(c, e, IAC, IAC);
      DoubledWeight(c, e);
    }
  }

  lemma DoubledWeight(c: Config, e: Engine)
    ensures Weight(FeedByte(c, FeedByte(c, e, IAC), IAC)) <= Weight(e) + 1
  {
    hide DataCount, Negotiate, BufferByte;
    var e1 := FeedByte(c, e, IAC);
    ByteWeight(c, e, IAC);
    ByteWeight(c, e1, IAC);
    if e.state.InData? {
      assert e1.state.InIac? && Weight(e1) == Weight(e);
    } else if e.state.InIac? {
      assert e1.state.InData? && FeedByte(c, e1, IAC).state.InIac?;
      assert Weight(FeedByte(c, e1, IAC)) == Weight(e1);
    } else if e.state.InEol? {
      assert e1.state.InData?;
      assert Weight(FeedByte(c, e1, IAC)) == Weight(e1);
    } else if e1.state.InData? {
      assert Weight(FeedByte(c, e1, IAC)) == Weight(e1);
    }
  }

  lemma {:induction false} StreamWeight(c: Config, e: Engine, s: seq<byte>)
    ensures Weight(Feed(c, e, Escape(s))) <= Weight(e) + |s|
    decreases |s|
  {
    hide *;
    if s == [] {
      NothingFed(c, e);
    } else {
      HeadTail(s);
      FeedFirst(c, e, s[0], s[1..]);
      EscapedWeight(c, e, s[0]);
      StreamWeight(c, Feed(c, e, EscapeByte(s[0])), s[1..]);
    }
  }

  /** After an IAC that was not meant as one: either the parser stays there, or data is lost. */
  lemma {:induction false} AfterStrayIac(c: Config, e: Engine, s: seq<byte>)
    requires e.state == InIac
    ensures var e' := Feed(c, e, Escape(s));
      e'.state == InIac || Weight(e') < Weight(e) + |s|
    decreases |s|
  {
    if s == [] {
      NothingFed(c, e);
    } else {
      var e1 := Feed(c, e, EscapeByte(s[0]));
      StrayByte(c, e, s[0]);
      hide *;
      HeadTail(s);
      FeedFirst(c, e, s[0], s[1..]);
      EscapedWeight(c, e, s[0]);
      if s[0] == IAC {
        AfterStrayIac(c, e1, s[1..]);
      } else {
        StreamWeight(c, e1, s[1..]);
      }
    }
  }

  lemma StrayByte(c: Config, e: Engine, b: byte)
    requires e.state == InIac
    ensures var e1 := Feed(c, e, EscapeByte(b));
      if b == IAC then e1.state == InIac else Weight(e1) == Weight(e)
  {
    hide DataCount;
    if b == IAC {
      Feed2(c, e, IAC, IAC);
    } else {
      Feed1(c, e, b);
      EmitCount(e, [Other(IacCommand(b))]);
      OneAtom(Other(IacCommand(b)));
    }
  }

  // ----- the condition -----

  /** What comes of a carriage return and the byte after it. */
  lemma ReturnAndByte(c: Config, e: Engine, b: byte)
    requires e.state == InData && !Raw(e)
    ensures var e2 := Feed(c, Feed(c, e, EscapeByte(CR)), EscapeByte(b));
      && ((b == LF || b == NUL) ==> Weight(e2) == Weight(e) + 1)
      && (b == IAC ==> e2.state == InIac && Weight(e2) <= Weight(e) + 2)
      && (b != LF && b != NUL && b != IAC ==> e2 == Emit(Emit(e, [DataByte(CR)]), [DataByte(b)]))
  {
    hide DataCount;
    Feed1(c, e, CR);
    var e1 := Feed(c, e, EscapeByte(CR));
    assert e1 == e.(state := InEol);
    if b == IAC {
      Feed2(c, e1, IAC, IAC);
      EscapedWeight(c, e1, IAC);
    } else {
      Feed1(c, e1, b);
      EmitCount(e1, [DataByte(LF)]);
      EmitCount(e1, [DataByte(CR)]);
      OneAtom(DataByte(LF));
      OneAtom(DataByte(CR));
      EmitTwice(e, [DataByte(CR)], [DataByte(b)]);
      assert [DataByte(CR)] + [DataByte(b)] == [DataByte(CR), DataByte(b)];
    }
  }

  /** All data came through: its weight and the state tell. */
  lemma ThroughWeight(e: Engine, s: seq<byte>)
    requires e.state == InData
    ensures var e' := Emit(e, DataAtoms(s)); e'.state == InData && Weight(e') == Weight(e) + |s|
  {
    EmitCount(e, DataAtoms(s));
    DataAtomsCount(s);
  }

  /**
   * Data escaped by telnet_send comes through a translating receiver as it was if and only if it is
   * clean: no carriage return that is not swallowed by the one before stands before a newline, a
   * NUL, an IAC, or the end.
   */
  lemma {:induction false} TranslatedIffClean(c: Config, e: Engine, s: seq<byte>)
    requires e.state == InData && !Raw(e)
    ensures Feed(c, e, Escape(s)) == Emit(e, DataAtoms(s)) <==> Clean(s)
    decreases |s|
  {
    if s == [] {
      NothingFed(c, e);
    } else if s[0] != CR {
      EscapedByteFed(c, e, s[0]);
      var e1 := Emit(e, [DataByte(s[0])]);
      assert e1.state == InData && !Raw(e1);
      assert Clean(s) == Clean(s[1..]);
      hide *;
      HeadTail(s);
      FeedFirst(c, e, s[0], s[1..]);
      DataFirst(e, s[0], s[1..]);
      TranslatedIffClean(c, e1, s[1..]);
    } else if |s| == 1 {
      FeedFirst(c, e, CR, []);
      HeadTail(s);
      Feed1(c, e, CR);
      NothingFed(c, e.(state := InEol));
      ThroughWeight(e, s);
    } else {
      ReturnTranslated(c, e, s);
      if s[1] != LF && s[1] != NUL && s[1] != IAC {
        TranslatedIffClean(c, Emit(Emit(e, [DataByte(CR)]), [DataByte(s[1])]), s[2..]);
      }
    }
  }

  lemma ReturnTranslated(c: Config, e: Engine, s: seq<byte>)
    requires e.state == InData && !Raw(e) && |s| >= 2 && s[0] == CR
    ensures var through := Feed(c, e, Escape(s)) == Emit(e, DataAtoms(s));
      if s[1] == LF || s[1] == NUL || s[1] == IAC then !through
      else
        var e2 := Emit(Emit(e, [DataByte(CR)]), [DataByte(s[1])]);
        e2.state == InData && !Raw(e2) && (through <==> Feed(c, e2, Escape(s[2..])) == Emit(e2, DataAtoms(s[2..])))
  {
    var b, rest := s[1], s[2..];
    var e2 := Feed(c, Feed(c, e, EscapeByte(CR)), EscapeByte(b));
    hide Feed, Weight, DataAtoms, Escape;
    HeadTail(s);
    HeadTail(s[1..]);
    assert s[1..][1..] == rest;
    FeedFirst(c, e, CR, s[1..]);
    FeedFirst(c, Feed(c, e, EscapeByte(CR)), b, rest);
    ReturnAndByte(c, e, b);
    DataFirst(e, CR, s[1..]);
    DataFirst(Emit(e, [DataByte(CR)]), b, rest);
    ThroughWeight(e, s);
    if b == LF || b == NUL {
      StreamWeight(c, e2, rest);
    } else if b == IAC {
      AfterStrayIac(c, e2, rest);
    }
  }

  lemma ReturnThenNewline(c: Config, e: Engine)
    requires e.state == InData && !Raw(e)
    ensures Feed(c, Feed(c, e, EscapeByte(CR)), EscapeByte(LF)) == Emit(e, [DataByte(LF)])
  {
    Feed1(c, e, CR);
    Feed1(c, e.(state := InEol), LF);
  }

  /** A line end sent as it is loses its carriage return. */
  lemma ReturnIsLost(c: Config, e: Engine)
    requires e.state == InData && !Raw(e)
    ensures Feed(c, e, Escape([CR, LF])) == Emit(e, DataAtoms([LF])) && !Clean([CR, LF])
    ensures Feed(c, e, Escape([CR, LF])) != Emit(e, DataAtoms([CR, LF]))
  {
    var line: seq<byte> := [CR, LF];
    assert !Clean(line) && line == [CR] + ([LF] + []) && DataAtoms([LF]) == [DataByte(LF)];
    TranslatedIffClean(c, e, line);
    hide *;
    FeedFirst(c, e, CR, [LF] + []);
    FeedFirst(c, Feed(c, e, EscapeByte(CR)), LF, []);
    ReturnThenNewline(c, e);
    NothingFed(c, Emit(e, [DataByte(LF)]));
  }

  // ----- text, whatever the two ends have agreed on -----

  /** In binary mode text is only escaped. */
  lemma {:induction false} BinaryText(s: seq<byte>)
    ensures EscapeText(s, true) == Escape(s)
  {
    if s != [] {
      BinaryText(s[..|s| - 1]);
    }
  }

  function NetworkByte(b: byte): seq<byte> {
    if b == CR then [CR, NUL] else if b == LF then [CR, LF] else [b]
  }

  /** Text as it stands on the network: a newline is CR LF, a carriage return CR NUL. */
  function NetworkText(s: seq<byte>): seq<byte> {
    if s == [] then [] else NetworkText(s[..|s| - 1]) + NetworkByte(s[|s| - 1])
  }

  lemma {:induction false} TextIsNetworkText(s: seq<byte>)
    ensures EscapeText(s, false) == Escape(NetworkText(s))
  {
    if s != [] {
      hide Escape, EscapeTextByte, NetworkByte;
      var n := |s| - 1;
      TextIsNetworkText(s[..n]);
      EscapeAppend(NetworkText(s[..n]), NetworkByte(s[n]));
      TextByteIsNetworkByte(s[n]);
    }
  }

  lemma TextByteIsNetworkByte(b: byte)
    ensures EscapeTextByte(b, false) == Escape(NetworkByte(b))
  {
    EscapePair(NetworkByte(b));
  }

  lemma EscapeAppend(x: seq<byte>, y: seq<byte>)
    ensures Escape(x + y) == Escape(x) + Escape(y)
  {
    EscapeSplit(x + y, |x|);
    CutAt(x, y);
  }

  lemma EscapePair(x: seq<byte>)
    requires |x| == 1 || |x| == 2
    ensures Escape(x) == if |x| == 1 then EscapeByte(x[0]) else EscapeByte(x[0]) + EscapeByte(x[1])
  {
    hide EscapeByte, Escape;
    EscapeNothing();
    EscapeOneMore([], x[0]);
    assert [] + [x[0]] == [x[0]] && [] + EscapeByte(x[0]) == EscapeByte(x[0]);
    if |x| == 2 {
      EscapeOneMore([x[0]], x[1]);
      assert x == [x[0]] + [x[1]];
    } else {
      assert x == [x[0]];
    }
  }

  lemma EscapeNothing()
    ensures Escape([]) == []
  {
  }

  lemma {:induction false} NetworkLength(s: seq<byte>)
    ensures |NetworkText(s)| >= |s|
    ensures NetworkText(s) == s <==> CR !in s && LF !in s
  {
    if s != [] {
      var n := |s| - 1;
      NetworkLength(s[..n]);
      assert s == s[..n] + [s[n]];
      if |NetworkText(s)| == |s| {
        assert NetworkText(s)[..n] == NetworkText(s[..n]);
      }
    }
  }

  /**
   * Text sent to a receiver in the data state comes through as it was in exactly these cases: the
   * sender translates and the receiver too; neither does; only the receiver does and the text is
   * clean; or only the sender does and the text has no line ends.
   */
  lemma TextThrough(c: Config, e: Engine, s: seq<byte>, binary: bool)
    requires e.state == InData
    ensures Feed(c, e, EscapeText(s, binary)) == Emit(e, DataAtoms(s)) <==>
      if Raw(e) then binary || (CR !in s && LF !in s) else !binary || Clean(s)
  {
    if binary {
      BinaryText(s);
      if Raw(e) {
        SendRoundTrip(c, e, s);
      } else {
        TranslatedIffClean(c, e, s);
      }
    } else if Raw(e) {
      TextIsNetworkText(s);
      SendRoundTrip(c, e, NetworkText(s));
      NetworkLength(s);
      ThroughWeight(e, s);
      ThroughWeight(e, NetworkText(s));
      hide Feed, Escape, EscapeText;
      if NetworkText(s) != s {
        DifferentData(e, NetworkText(s), s);
      }
    } else {
      TextRoundTrip(c, e, s);
    }
  }

  lemma DifferentData(e: Engine, x: seq<byte>, y: seq<byte>)
    requires x != y
    ensures Emit(e, DataAtoms(x)) != Emit(e, DataAtoms(y))
  {
    if Emit(e, DataAtoms(x)) == Emit(e, DataAtoms(y)) {
      SameData(e.atoms, x, y);
    }
  }

  lemma SameData(before: seq<Atom>, x: seq<byte>, y: seq<byte>)
    requires before + DataAtoms(x) == before + DataAtoms(y)
    ensures x == y
  {
    assert |x| == |y| by { assert |before + DataAtoms(x)| == |before + DataAtoms(y)|; }
    forall i | 0 <= i < |x|
      ensures x[i] == y[i]
    {
      assert (before + DataAtoms(x))[|before| + i] == DataByte(x[i]);
      assert (before + DataAtoms(y))[|before| + i] == DataByte(y[i]);
    }
  }
}
