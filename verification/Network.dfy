/** Connected lines, line framing and fair polling: src/network.c and net.input of src/libcall.c. */
module Network {
  import opened Bytes
  import opened TelnetSpec

  datatype Status = Vacant | Connecting | Disconnecting | HasData | Idle

  /** A LINE_t: its status and its input buffer. */
  datatype Line = Line(status: Status, inbuf: seq<byte>)

  predicate Live(l: Line) { l.status == Connecting || l.status == HasData || l.status == Idle }

  /** append_input. */
  function Append(l: Line, msg: seq<byte>): Line {
    if l.status == Vacant || l.status == Disconnecting then l
    else Line(if LF in msg then HasData else l.status, l.inbuf + msg)
  }

  /** The position of the first newline. */
  function EndOfLine(s: seq<byte>): (n: nat)
    requires LF in s
    ensures n < |s| && s[n] == LF && LF !in s[..n]
  {
    if s[0] == LF then 0
    else
      var n := 1 + EndOfLine(s[1..]);
      assert s[..n] == [s[0]] + s[1..][..n - 1];
      n
  }

  /** What get_input leaves: the string after the newline. */
  function AfterLine(l: Line): Line
    requires LF in CString(l.inbuf)
  {
    var s := CString(l.inbuf);
    var rest := s[EndOfLine(s) + 1..];
    Line(if LF in rest then l.status else Idle, rest)
  }

  /** A live line is marked as having data exactly when its buffer holds a newline. */
  predicate Marked(l: Line) {
    Live(l) ==> (l.status == HasData <==> LF in l.inbuf)
  }

  predicate TextOnly(l: Line) { 0 !in l.inbuf }

  lemma AppendKeepsMarked(l: Line, msg: seq<byte>)
    requires Marked(l)
    ensures Marked(Append(l, msg))
  {
  }

  lemma AfterLineKeepsMarked(l: Line)
    requires Marked(l) && TextOnly(l) && l.status == HasData
    ensures CString(l.inbuf) == l.inbuf
    ensures Marked(AfterLine(l)) && TextOnly(AfterLine(l)) && Live(AfterLine(l))
    ensures l.inbuf == l.inbuf[..EndOfLine(l.inbuf)] + [LF] + AfterLine(l).inbuf
  {
    var s := l.inbuf;
    var n := EndOfLine(s);
    assert CString(s) == s && LF in s;
    hide CString, EndOfLine;
    assert s == s[..n] + [LF] + s[n + 1..];
    assert forall b <- s[n + 1..] :: b in s;
  }

  /** Text goes to the end of a line in use, and nowhere on one that is vacant or closing. */
  lemma AppendChanges(l: Line, msg: seq<byte>)
    ensures Append(l, msg).inbuf == (if Live(l) then l.inbuf + msg else l.inbuf)
    ensures Append(l, msg).status == l.status || (Live(l) && LF in msg && Append(l, msg).status == HasData)
  {
  }

  lemma AppendTwice(l: Line, x: seq<byte>, y: seq<byte>)
    ensures Append(Append(l, x), y) == Append(l, x + y)
  {
    assert l.inbuf + x + y == l.inbuf + (x + y);
  }

  // ----- polling -----

  predicate Pending(l: Line) { l.status == Connecting || l.status == Disconnecting || l.status == HasData }

  /** Where a call starts looking: lastconn is a byte and wraps, and past the last line it is 0. */
  function StartAt(last: byte, max: byte): byte
    requires max > 0
  {
    var next := (last + 1) % 256;
    if next >= max then 0 else next
  }

  /** The first pending line from c on, or the number of lines. */
  function Scan(lines: seq<Line>, c: nat): (q: nat)
    requires c <= |lines|
    ensures c <= q <= |lines| && (q < |lines| ==> Pending(lines[q]))
    ensures forall i :: c <= i < q ==> !Pending(lines[i])
    decreases |lines| - c
  {
    if c == |lines| || Pending(lines[c]) then c else Scan(lines, c + 1)
  }

  /** What a poll reports: nothing, a connection, a disconnection, or a line of text. */
  datatype Report = Nothing | Connected(line: nat) | Disconnected(line: nat) | Input(line: nat, text: Text)

  datatype Polled = Polled(lines: seq<Line>, last: byte, report: Report)

  predicate Readable(lines: seq<Line>) {
    forall l <- lines :: l.status == HasData ==> LF in CString(l.inbuf)
  }

  /** net.input, on the state of all lines. */
  function Poll(lines: seq<Line>, last: byte): Polled
    requires 0 < |lines| < 256 && Readable(lines)
  {
    var q := Scan(lines, StartAt(last, |lines|));
    if q == |lines| then Polled(lines, q, Nothing)
    else
      var l := lines[q];
      if l.status == Connecting then Polled(lines[q := l.(status := Idle)], q, Connected(q))
      else if l.status == Disconnecting then Polled(lines[q := l.(status := Vacant)], q, Disconnected(q))
      else
        var s := CString(l.inbuf);
        Polled(lines[q := AfterLine(l)], q, Input(q, s[..EndOfLine(s)]))
  }

  /** The line table and the polling position, updated in place. */
  class Lines {
    const line: array<Line>
    var lastconn: byte

    ghost predicate Valid()
      reads this, line
    {
      0 < line.Length < 256 && Readable(line[..])
    }

    /** init_networking, with the initial polling position of sin.c. */
    constructor (maxconns: nat)
      requires 0 < maxconns < 256
      ensures Valid() && fresh(line) && line.Length == maxconns && lastconn == 255
      ensures forall l <- line[..] :: l == Line(Vacant, [])
    {
      line := new Line[maxconns](_ => Line(Vacant, []));
      lastconn := 255;
    }

    /** add_line: the first vacant line starts connecting; none if all are taken. */
    method AddLine() returns (l: nat)
      requires Valid()
      modifies line
      ensures Valid() && l <= line.Length
      ensures forall i :: 0 <= i < l ==> old(line[i]).status != Vacant
      ensures if l == line.Length then line[..] == old(line[..])
              else old(line[l]).status == Vacant && line[..] == old(line[..])[l := Line(Connecting, [])]
    {
      l := 0;
      while line[l].status != Vacant
        invariant l < line.Length && forall i :: 0 <= i < l ==> line[i].status != Vacant
        decreases line.Length - l
      {
        l := l + 1;
        if l >= line.Length { return; }
      }
      line[l] := Line(Connecting, []);
    }

    /** append_input. */
    method AppendInput(l: nat, msg: seq<byte>)
      requires l < line.Length
      modifies line
      ensures line[..] == old(line[..])[l := Append(old(line[l]), msg)]
    {
      if line[l].status != Vacant && line[l].status != Disconnecting {
        if LF in msg {
          line[l] := line[l].(status := HasData);
        }
        line[l] := line[l].(inbuf := line[l].inbuf + msg);
      }
    }

    /** get_input: cut the first line out of the buffer. */
    method GetInput(l: nat) returns (data: Text)
      requires l < line.Length && LF in CString(line[l].inbuf)
      modifies line
      ensures var s := CString(old(line[l]).inbuf); data == s[..EndOfLine(s)]
      ensures line[..] == old(line[..])[l := AfterLine(old(line[l]))]
    {
      var s := CString(line[l].inbuf);
      var eol := EndOfLine(s);
      data := s[..eol];
      line[l] := line[l].(inbuf := s[eol + 1..]);
      if LF !in line[l].inbuf {
        line[l] := line[l].(status := Idle);
      }
    }

    /** lc_net_input. */
    method NetInput() returns (report: Report)
      requires Valid()
      modifies this, line
      ensures Polled(line[..], lastconn, report) == Poll(old(line[..]), old(lastconn))
    {
      lastconn := (lastconn + 1) % 256;
      if lastconn >= line.Length {
        lastconn := 0;
      }
      while lastconn < line.Length
        invariant lastconn <= line.Length && line[..] == old(line[..])
        invariant Scan(old(line[..]), lastconn) == Scan(old(line[..]), StartAt(old(lastconn), line.Length))
        decreases line.Length - lastconn
      {
        assert line[..][lastconn] == line[lastconn] && line[lastconn] in line[..];
        match line[lastconn].status {
          case Connecting =>
            line[lastconn] := line[lastconn].(status := Idle);
            return Connected(lastconn);
          case Disconnecting =>
            line[lastconn] := line[lastconn].(status := Vacant);
            return Disconnected(lastconn);
          case HasData =>
            var text := GetInput(lastconn);
            return Input(lastconn, text);
          case _ =>
            lastconn := lastconn + 1;
        }
      }
      return Nothing;
    }
  }

  // ----- what a poll reports -----

  /** The line that a poll comes to: the first pending one from its starting place on. */
  ghost predicate Reached(lines: seq<Line>, last: byte, q: nat)
    requires 0 < |lines| < 256
  {
    var s := StartAt(last, |lines|);
    s <= q < |lines| && Pending(lines[q]) && forall i :: s <= i < q ==> !Pending(lines[i])
  }

  /** Every report, in terms of the lines before and after: what the line was, and what becomes of it. */
  lemma PollReports(lines: seq<Line>, last: byte, q: nat)
    requires 0 < |lines| < 256 && Readable(lines) && q < |lines|
    ensures var r := Poll(lines, last);
      var here, l := Reached(lines, last, q), lines[q];
      && (r.report == Connected(q) <==> here && l.status == Connecting)
      && (r.report == Disconnected(q) <==> here && l.status == Disconnecting)
      && (r.report.Input? && r.report.line == q <==> here && l.status == HasData)
      && |r.lines| == |lines|
      && (if !here then r.lines[q] == l
          else if l.status == Connecting then r.lines[q] == Line(Idle, l.inbuf)
          else if l.status == Disconnecting then r.lines[q] == Line(Vacant, l.inbuf)
          else r.report.Input?
               && (TextOnly(l) ==> LF !in r.report.text && l.inbuf == r.report.text + [LF] + r.lines[q].inbuf))
  {
    var first := Scan(lines, StartAt(last, |lines|));
    if Reached(lines, last, q) {
      assert first == q;
      if lines[q].status == HasData {
        assert lines[q] in lines;
        TextTaken(lines[q]);
      }
    }
  }

  lemma TextTaken(l: Line)
    requires LF in CString(l.inbuf)
    ensures TextOnly(l) ==>
      CString(l.inbuf) == l.inbuf && l.inbuf == l.inbuf[..EndOfLine(l.inbuf)] + [LF] + AfterLine(l).inbuf
  {
    hide CString, EndOfLine;
    if TextOnly(l) {
      NoNul(l.inbuf);
      CutOut(l.inbuf, EndOfLine(l.inbuf));
    }
  }

  lemma CutOut(s: seq<byte>, n: nat)
    requires n < |s|
    ensures s == s[..n] + [s[n]] + s[n + 1..]
  {
  }

  lemma {:induction false} NoNul(s: seq<byte>)
    requires 0 !in s
    ensures CString(s) == s
  {
    if s != [] {
      NoNul(s[1..]);
    }
  }

  /** A poll reports nothing if and only if no line from its starting place up to the last is pending. */
  lemma ReportsNothing(lines: seq<Line>, last: byte)
    requires 0 < |lines| < 256 && Readable(lines)
    ensures Poll(lines, last).report.Nothing? <==>
      forall i :: StartAt(last, |lines|) <= i < |lines| ==> !Pending(lines[i])
  {
    var q := Scan(lines, StartAt(last, |lines|));
    if q == |lines| {
      assert forall i :: StartAt(last, |lines|) <= i < q ==> !Pending(lines[i]);
    }
  }

  /** The scan does not go round: a line below the starting place can wait while nothing is reported. */
  lemma WaitsForTheNextPoll()
    ensures var lines := [Line(HasData, [65, LF]), Line(Idle, [])];
      Readable(lines) && Pending(lines[0]) && Poll(lines, 0).report.Nothing?
      && Poll(lines, Poll(lines, 0).last).report == Input(0, [65])
  {
    var lines := [Line(HasData, [65, LF]), Line(Idle, [])];
    var s: seq<byte> := [65, LF];
    assert s[1..] == [LF] && CString([LF]) == [LF] && CString(s) == s;
    assert EndOfLine(s) == 1 && s[..1] == [65];
    assert Scan(lines, 1) == 2 && Scan(lines, 0) == 0;
    var r := Poll(lines, 0);
    assert r == Polled(lines, 2, Nothing);
  }

  /**
   * A new connection is reported by the poll that comes to it if and only if no newline has come in
   * before; otherwise that poll reports the line of text, and the connection never.
   */
  lemma ConnectionReported(lines: seq<Line>, q: nat, msg: seq<byte>, last: byte)
    requires 0 < |lines| < 256 && q < |lines| && lines[q].status == Connecting
    requires var now := lines[q := Append(lines[q], msg)];
      Readable(now) && Scan(now, StartAt(last, |now|)) == q
    ensures var r := Poll(lines[q := Append(lines[q], msg)], last);
      && (r.report == Connected(q) <==> LF !in msg)
      && (LF in msg ==> r.report.Input? && r.report.line == q)
      && r.lines[q].status != Connecting
  {
  }

  // ----- fairness -----

  /** How many lines from the next starting place on until p is reached, going round. */
  function Distance(last: byte, p: nat, max: byte): nat
    requires p < max
  {
    var start := StartAt(last, max);
    if start <= p then p - start else max - start + p
  }

  /** How far before p line q comes, going round. */
  function Ahead(q: nat, p: nat, max: nat): int {
    if q <= p then p - q else max - q + p
  }

  /** The line a report is about. */
  function Served(r: Report): seq<nat> { if r.Nothing? then [] else [r.line] }

  /** A poll that passes over p comes closer to p; the line it serves lies in between and is left behind. */
  lemma PollApproaches(lines: seq<Line>, last: byte, p: nat)
    requires 0 < |lines| < 256 && Readable(lines) && p < |lines| && Pending(lines[p])
    ensures var r := Poll(lines, last);
      Served(r.report) == [p]
      || (Distance(r.last, p, |lines|) < Distance(last, p, |lines|)
          && (r.report.Nothing?
              || (r.report.line != p
                  && Distance(r.last, p, |lines|) == Ahead(r.report.line, p, |lines|) - 1)))
  {
    var q := Scan(lines, StartAt(last, |lines|));
  }

  ghost predicate Rounds(rounds: seq<seq<Line>>, max: byte, p: nat) {
    p < max && forall r <- rounds :: |r| == max && Readable(r) && Pending(r[p])
  }

  /** The reports of successive polls; before each, the other lines may have changed in any way. */
  ghost function Reports(rounds: seq<seq<Line>>, max: byte, p: nat, last: byte): (r: seq<Report>)
    requires Rounds(rounds, max, p)
    ensures |r| == |rounds|
    decreases |rounds|
  {
    if rounds == [] then []
    else
      assert rounds[0] in rounds && forall r <- rounds[1..] :: r in rounds;
      var first := Poll(rounds[0], last);
      [first.report] + Reports(rounds[1..], max, p, first.last)
  }

  /**
   * Whatever the other lines do and wherever polling stands, a line that stays pending is served
   * within as many calls as there are lines, and no other line is served twice before it.
   */
  lemma {:induction false} PollingIsFair(rounds: seq<seq<Line>>, max: byte, p: nat, last: byte) returns (k: nat)
    requires Rounds(rounds, max, p) && |rounds| > Distance(last, p, max)
    ensures k <= Distance(last, p, max) < max
    ensures var rs := Reports(rounds, max, p, last);
      && Served(rs[k]) == [p]
      && (forall i :: 0 <= i < k ==> Served(rs[i]) != [p])
      && (forall i, j :: 0 <= i < j < k && !rs[i].Nothing? && !rs[j].Nothing? ==> rs[i].line != rs[j].line)
  {
    k := FairlyServed(rounds, max, p, last);
  }

  /** p is served at k; what was served before is distinct and lay at most d lines before p. */
  predicate ServedAt(rs: seq<Report>, k: nat, p: nat, max: nat, d: nat) {
    && k < |rs| && k <= d && Served(rs[k]) == [p]
    && (forall i :: 0 <= i < k && !rs[i].Nothing? ==> rs[i].line != p && Ahead(rs[i].line, p, max) <= d)
    && (forall i, j :: 0 <= i < j < k && !rs[i].Nothing? && !rs[j].Nothing? ==> rs[i].line != rs[j].line)
  }

  lemma {:induction false} FairlyServed(rounds: seq<seq<Line>>, max: byte, p: nat, last: byte) returns (k: nat)
    requires Rounds(rounds, max, p) && |rounds| > Distance(last, p, max)
    ensures ServedAt(Reports(rounds, max, p, last), k, p, max, Distance(last, p, max))
    decreases |rounds|
  {
    assert rounds[0] in rounds && forall r <- rounds[1..] :: r in rounds;
    var first := Poll(rounds[0], last);
    assert Reports(rounds, max, p, last) == [first.report] + Reports(rounds[1..], max, p, first.last);
    PollApproaches(rounds[0], last, p);
    if Served(first.report) == [p] {
      k := 0;
    } else {
      hide *;
      k := FairlyServed(rounds[1..], max, p, first.last);
      ServedLater(first.report, Reports(rounds[1..], max, p, first.last), k, p, max,
                  Distance(first.last, p, max), Distance(last, p, max));
      k := k + 1;
    }
  }

  lemma ServedLater(first: Report, rest: seq<Report>, k: nat, p: nat, max: nat, near: nat, d: nat)
    requires ServedAt(rest, k, p, max, near) && near < d
    requires first.Nothing? || (first.line != p && near == Ahead(first.line, p, max) - 1)
    ensures first.Nothing? || Ahead(first.line, p, max) <= d
    ensures ServedAt([first] + rest, k + 1, p, max, d)
  {
    var rs := [first] + rest;
    assert forall i :: 1 <= i < |rs| ==> rs[i] == rest[i - 1];
  }
}
