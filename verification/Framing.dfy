/**
 * Text from one end to the other: telnet_send_text of src/libtelnet.c, the parser, append_input of
 * src/network.c and the polling of src/libcall.c taken together.
 */
module Framing {
  import opened Bytes
  import opened Sequences
  import opened TelnetSpec
  import opened TelnetEncoding
  import opened Network

  // ----- lines of a text -----

  /** The complete lines of a text, without their newlines. */
  function LinesOf(t: Text): seq<Text>
    decreases |t|
  {
    if LF !in t then [] else [t[..EndOfLine(t)]] + LinesOf(t[EndOfLine(t) + 1..])
  }

  /** What follows the last newline. */
  function TailOf(t: Text): Text
    decreases |t|
  {
    if LF !in t then t else TailOf(t[EndOfLine(t) + 1..])
  }

  function Joined(lines: seq<Text>): Text {
    if lines == [] then [] else Joined(lines[..|lines| - 1]) + lines[|lines| - 1] + [LF]
  }

  lemma {:induction false} FirstNewline(x: Text, y: Text)
    requires LF !in x
    ensures LF in x + [LF] + y && EndOfLine(x + [LF] + y) == |x|
    decreases |x|
  {
    var s := x + [LF] + y;
    assert s[|x|] == LF;
    if x != [] {
      assert s[1..] == x[1..] + [LF] + y;
      FirstNewline(x[1..], y);
    }
  }

  predicate NoNewlines(lines: seq<Text>) { forall i :: 0 <= i < |lines| ==> LF !in lines[i] }

  /** Taking a text apart at its newlines undoes joining lines. */
  lemma {:induction false} CutJoined(lines: seq<Text>, rest: Text)
    requires NoNewlines(lines)
    ensures LinesOf(Joined(lines) + rest) == lines + LinesOf(rest)
    ensures TailOf(Joined(lines) + rest) == TailOf(rest)
    decreases |lines|
  {
    if lines == [] {
      assert Joined(lines) == [];
      hide *;
      assert [] + rest == rest;
    } else {
      var n := |lines| - 1;
      CutOne(lines[n], rest);
      JoinedLast(lines, rest);
      assert NoNewlines(lines[..n]);
      hide *;
      CutJoined(lines[..n], lines[n] + [LF] + rest);
      LastMoved(lines, LinesOf(rest));
    }
  }

  lemma JoinedLast(lines: seq<Text>, rest: Text)
    requires lines != []
    ensures Joined(lines) + rest == Joined(lines[..|lines| - 1]) + (lines[|lines| - 1] + [LF] + rest)
  {
    var x, y := Joined(lines[..|lines| - 1]), lines[|lines| - 1];
    assert Joined(lines) == x + y + [LF];
    hide *;
    Regroup4(x, y, [LF], rest);
  }

  lemma CutOne(x: Text, rest: Text)
    requires LF !in x
    ensures LinesOf(x + [LF] + rest) == [x] + LinesOf(rest) && TailOf(x + [LF] + rest) == TailOf(rest)
  {
    FirstNewline(x, rest);
    var s := x + [LF] + rest;
    assert s[..|x|] == x && s[|x| + 1..] == rest;
  }

  // ----- one connection among the others -----

  /** What happens: bytes arrive from the peer, net.input is called, or other lines change. */
  datatype Happening = Arrive(chunk: seq<byte>) | PollLines | Elsewhere(lines: seq<Line>)

  /** The engine of line p, all lines, the polling position and the lines of text reported for p. */
  datatype Session = Session(engine: Engine, lines: seq<Line>, last: byte, texts: seq<Text>)

  function DataOf(atoms: seq<Atom>): seq<byte> {
    if atoms == [] then []
    else DataOf(atoms[..|atoms| - 1]) + (var a := atoms[|atoms| - 1]; if a.DataByte? then [a.b] else [])
  }

  ghost predicate Proper(s: Session, p: nat) { p < |s.lines| < 256 && Readable(s.lines) }

  ghost function Next(c: Config, p: nat, s: Session, h: Happening): Session
    requires Proper(s, p)
  {
    match h
    case Arrive(chunk) =>
      var e := Feed(c, s.engine, chunk);
      FeedAppends(c, s.engine, chunk);
      s.(engine := e, lines := s.lines[p := Append(s.lines[p], DataOf(e.atoms[|s.engine.atoms|..]))])
    case PollLines =>
      var r := Poll(s.lines, s.last);
      Session(s.engine, r.lines, r.last,
              if r.report.Input? && r.report.line == p then s.texts + [r.report.text] else s.texts)
    case Elsewhere(lines) =>
      if |lines| == |s.lines| && Readable(lines) then s.(lines := lines[p := s.lines[p]]) else s
  }

  /** A run; it would stop where get_input finds no newline, which FramingIsExact excludes. */
  ghost function Running(c: Config, p: nat, s: Session, hs: seq<Happening>): Session
    requires Proper(s, p)
  {
    if hs == [] then s
    else
      var t := Running(c, p, s, hs[..|hs| - 1]);
      if Proper(t, p) then Next(c, p, t, hs[|hs| - 1]) else t
  }

  function ChunkOf(h: Happening): seq<byte> { if h.Arrive? then h.chunk else [] }

  function Arrived(hs: seq<Happening>): seq<byte> {
    if hs == [] then []
    else Arrived(hs[..|hs| - 1]) + ChunkOf(hs[|hs| - 1])
  }

  // ----- the data that has come through so far -----

  lemma {:induction false} DataOfAtoms(t: seq<byte>)
    ensures DataOf(DataAtoms(t)) == t
  {
    if t != [] {
      var n := |t| - 1;
      DataOfAtoms(t[..n]);
      assert DataAtoms(t)[..n] == DataAtoms(t[..n]);
    }
  }

  /** A connection on which the peer sends the text t, none of which has come yet. */
  ghost predicate Opened(s: Session, p: nat) {
    && Proper(s, p)
    && s.engine.state == InData && s.engine.flags.nvtEol && !s.engine.flags.receiveBinary
    && Live(s.lines[p]) && s.lines[p].status != HasData && s.lines[p].inbuf == [] && s.texts == []
  }

  /** While the sender's bytes arrive, the data that has come out is a piece of the text's beginning. */
  lemma Received(c: Config, e: Engine, t: Text, got: seq<byte>) returns (n: nat)
    requires e.state == InData && e.flags.nvtEol && !e.flags.receiveBinary
    requires got <= EscapeText(t, false)
    ensures n <= |t| && Feed(c, e, got).atoms == e.atoms + DataAtoms(t[..n])
    ensures got == EscapeText(t, false) ==> n == |t|
  {
    var all := EscapeText(t, false);
    TextRoundTrip(c, e, t);
    FeedAppends(c, e, got);
    FeedAppend(c, e, got, all[|got|..]);
    assert all == got + all[|got|..];
    FeedAppends(c, Feed(c, e, got), all[|got|..]);
    n := |Feed(c, e, got).atoms| - |e.atoms|;
    hide Feed, EscapeText;
    assert DataAtoms(t)[..n] == DataAtoms(t[..n]);
    assert e.atoms + DataAtoms(t) == Feed(c, e, all).atoms;
  }

  /** The invariant of the connection, d being the data that came through. */
  ghost predicate Framed(c: Config, p: nat, s0: Session, s: Session, got: seq<byte>, d: Text) {
    && Proper(s, p)
    && s.engine == Feed(c, s0.engine, got) && s.engine.atoms == s0.engine.atoms + DataAtoms(d)
    && Live(s.lines[p]) && Marked(s.lines[p]) && TextOnly(s.lines[p])
    && NoNewlines(s.texts)
    && Joined(s.texts) + s.lines[p].inbuf == d
  }

  lemma ArrivalFramed(c: Config, p: nat, s0: Session, s: Session, got: seq<byte>, d: Text, chunk: seq<byte>, d': Text)
    requires Framed(c, p, s0, s, got, d) && d <= d' && 0 !in d'
    requires Feed(c, s0.engine, got + chunk).atoms == s0.engine.atoms + DataAtoms(d')
    ensures Framed(c, p, s0, Next(c, p, s, Arrive(chunk)), got + chunk, d')
  {
    hide Feed, DataOf, Joined, CString, DataAtoms;
    FeedAppend(c, s0.engine, got, chunk);
    FeedAppends(c, s.engine, chunk);
    var x := d'[|d|..];
    NewAtoms(s0.engine.atoms, d, d');
    DataOfAtoms(x);
    var l := s.lines[p];
    Regroup(Joined(s.texts), l.inbuf, x);
    assert d + x == d';
    AppendKeepsMarked(l, x);
    assert forall b <- x :: b in d';
    ReadableUpdate(s.lines, p, Append(l, x));
  }

  /** What is new among the events is the new data. */
  lemma NewAtoms(before: seq<Atom>, d: Text, d': Text)
    requires d <= d'
    ensures (before + DataAtoms(d'))[|before + DataAtoms(d)|..] == DataAtoms(d'[|d|..])
  {
  }

  lemma ReadableUpdate(lines: seq<Line>, q: nat, l: Line)
    requires q < |lines| && Readable(lines) && (l.status == HasData ==> LF in CString(l.inbuf))
    ensures Readable(lines[q := l])
  {
    assert forall i :: 0 <= i < |lines| ==> lines[i] in lines;
  }

  lemma PollFramed(c: Config, p: nat, s0: Session, s: Session, got: seq<byte>, d: Text)
    requires Framed(c, p, s0, s, got, d)
    ensures Framed(c, p, s0, Next(c, p, s, PollLines), got, d)
  {
    hide Feed, Joined, DataAtoms, AfterLine, CString, EndOfLine;
    var q := Scan(s.lines, StartAt(s.last, |s.lines|));
    if q < |s.lines| {
      var l := s.lines[q];
      assert l in s.lines;
      var r := Poll(s.lines, s.last);
      PolledReadable(s.lines, q);
      if q == p && l.status == HasData {
        AfterLineKeepsMarked(l);
        LineTaken(s.texts, l);
      }
    }
  }

  /** The line that get_input cuts out moves from the buffer to the reported lines. */
  lemma LineTaken(texts: seq<Text>, l: Line)
    requires LF in l.inbuf && TextOnly(l)
    ensures var x := l.inbuf[..EndOfLine(l.inbuf)];
      LF !in x && CString(l.inbuf) == l.inbuf
      && Joined(texts + [x]) + AfterLine(l).inbuf == Joined(texts) + l.inbuf
  {
    var n := EndOfLine(l.inbuf);
    var x, rest := l.inbuf[..n], l.inbuf[n + 1..];
    assert l.inbuf == x + [LF] + rest && AfterLine(l).inbuf == rest;
    JoinedLast(texts + [x], rest);
    hide *;
    assert (texts + [x])[..|texts|] == texts;
  }

  /** However a line is served, the lines stay readable. */
  lemma PolledReadable(lines: seq<Line>, q: nat)
    requires q < |lines| && Readable(lines)
    ensures Readable(lines[q := lines[q].(status := Idle)])
    ensures Readable(lines[q := lines[q].(status := Vacant)])
    ensures lines[q].status == HasData ==> LF in CString(lines[q].inbuf) && Readable(lines[q := AfterLine(lines[q])])
  {
    assert lines[q] in lines;
    ReadableUpdate(lines, q, lines[q].(status := Idle));
    ReadableUpdate(lines, q, lines[q].(status := Vacant));
    if lines[q].status == HasData {
      var s := CString(lines[q].inbuf);
      assert forall b <- s[EndOfLine(s) + 1..] :: b in s;
      ReadableUpdate(lines, q, AfterLine(lines[q]));
    }
  }

  lemma {:induction false} FramingHolds(c: Config, p: nat, s: Session, t: Text, hs: seq<Happening>) returns (d: Text)
    requires Opened(s, p) && 0 !in t && Arrived(hs) <= EscapeText(t, false)
    ensures Framed(c, p, s, Running(c, p, s, hs), Arrived(hs), d)
    ensures d <= t && (Arrived(hs) == EscapeText(t, false) ==> d == t)
    decreases |hs|
  {
    var got := Arrived(hs);
    var n := Received(c, s.engine, t, got);
    d := t[..n];
    if hs == [] {
      assert Joined([]) + [] == d;
      assert TextOnly(s.lines[p]);
    } else {
      var before := hs[..|hs| - 1];
      var h := hs[|hs| - 1];
      assert got == Arrived(before) + ChunkOf(h);
      var d0 := FramingHolds(c, p, s, t, before);
      assert d0 <= t;
      assert Running(c, p, s, hs) == Next(c, p, Running(c, p, s, before), h);
      hide *;
      StepFramed(c, p, s, Running(c, p, s, before), Arrived(before), d0, h, d);
    }
  }

  lemma FramedMeansCut(c: Config, p: nat, s0: Session, s: Session, got: seq<byte>, d: Text)
    requires Framed(c, p, s0, s, got, d)
    ensures LinesOf(d) == s.texts + LinesOf(s.lines[p].inbuf) && TailOf(d) == TailOf(s.lines[p].inbuf)
    ensures s.lines[p].status == HasData <==> LinesOf(s.lines[p].inbuf) != []
    ensures s.lines[p].status != HasData ==> s.texts == LinesOf(d) && s.lines[p].inbuf == TailOf(d)
  {
    CutJoined(s.texts, s.lines[p].inbuf);
  }

  lemma StepFramed(c: Config, p: nat, s0: Session, s: Session, got: seq<byte>, d0: Text, h: Happening, d: Text)
    requires Framed(c, p, s0, s, got, d0) && 0 !in d
    requires Feed(c, s0.engine, got + ChunkOf(h)).atoms == s0.engine.atoms + DataAtoms(d)
    ensures Framed(c, p, s0, Next(c, p, s, h), got + ChunkOf(h), d)
  {
    hide Feed, Joined, Poll;
    match h {
      case Arrive(chunk) =>
        DataPrefix(c, s0, s.engine, got, d0, chunk, d);
        ArrivalFramed(c, p, s0, s, got, d0, chunk, d);
      case PollLines =>
        assert got + [] == got;
        SameData(s0, s.engine, d0, d);
        PollFramed(c, p, s0, s, got, d);
      case Elsewhere(lines) =>
        assert got + [] == got;
        SameData(s0, s.engine, d0, d);
        if |lines| == |s.lines| && Readable(lines) {
          assert s.lines[p] in s.lines;
          ReadableUpdate(lines, p, s.lines[p]);
        }
    }
  }

  /** The data that the engine has handed on since the session s. */
  ghost function Through(s: Session, s': Session): seq<byte> {
    if |s.engine.atoms| <= |s'.engine.atoms| then DataOf(s'.engine.atoms[|s.engine.atoms|..]) else []
  }

  lemma OpenedIsProper(s: Session, p: nat)
    requires Opened(s, p)
    ensures Proper(s, p)
  {
  }

  lemma ThroughIs(c: Config, p: nat, s: Session, s': Session, got: seq<byte>, d: Text)
    requires Framed(c, p, s, s', got, d)
    ensures Through(s, s') == d
  {
    assert s'.engine.atoms[|s.engine.atoms|..] == DataAtoms(d);
    DataOfAtoms(d);
  }

  /**
   * From the peer's text to lines of input: at every moment of every run, whatever the chunks, the
   * polls in between and the other lines, the reported lines followed by those still buffered are
   * exactly the lines of the text received so far, the buffer ends in its unfinished tail, and the
   * line is marked as having data exactly when something is left to report. Once all bytes have
   * come, the text received is the whole text.
   */
  lemma FramingIsExact(c: Config, p: nat, s: Session, t: Text, hs: seq<Happening>)
    requires Opened(s, p) && 0 !in t && Arrived(hs) <= EscapeText(t, false)
    ensures var s' := Running(c, p, s, hs);
      var d := Through(s, s');
      && Framed(c, p, s, s', Arrived(hs), d)
      && d <= t && (Arrived(hs) == EscapeText(t, false) ==> d == t)
      && LinesOf(d) == s'.texts + LinesOf(s'.lines[p].inbuf) && TailOf(d) == TailOf(s'.lines[p].inbuf)
      && (s'.lines[p].status == HasData <==> LinesOf(s'.lines[p].inbuf) != [])
      && (s'.lines[p].status != HasData ==> s'.texts == LinesOf(d) && s'.lines[p].inbuf == TailOf(d))
  {
    hide *;
    OpenedIsProper(s, p);
    var d := FramingHolds(c, p, s, t, hs);
    ThroughIs(c, p, s, Running(c, p, s, hs), Arrived(hs), d);
    FramedMeansCut(c, p, s, Running(c, p, s, hs), Arrived(hs), d);
  }

  lemma SameData(s: Session, e: Engine, d0: Text, d: Text)
    requires e.atoms == s.engine.atoms + DataAtoms(d0) == s.engine.atoms + DataAtoms(d)
    ensures d0 == d
  {
    assert e.atoms[|s.engine.atoms|..] == DataAtoms(d0) == DataAtoms(d);
    DataOfAtoms(d0);
    DataOfAtoms(d);
  }

  lemma DataPrefix(c: Config, s: Session, e: Engine, got: seq<byte>, d0: Text, chunk: seq<byte>, d: Text)
    requires e == Feed(c, s.engine, got) && e.atoms == s.engine.atoms + DataAtoms(d0)
    requires Feed(c, s.engine, got + chunk).atoms == s.engine.atoms + DataAtoms(d)
    ensures d0 <= d
  {
    FeedAppend(c, s.engine, got, chunk);
    FeedAppends(c, e, chunk);
    hide Feed;
    var k := |s.engine.atoms|;
    var later := Feed(c, s.engine, got + chunk).atoms;
    assert e.atoms <= later;
    assert |later| == k + |d| && |e.atoms| == k + |d0|;
    forall i | 0 <= i < |d0|
      ensures d0[i] == d[i]
    {
      assert DataByte(d0[i]) == e.atoms[k + i] == later[k + i] == DataByte(d[i]);
    }
  }
}
