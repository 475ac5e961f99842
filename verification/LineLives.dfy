/**
 * The life of a line of src/network.c, over every run of connections, closings, input and polls: what
 * is reported of it, counted against what happened to it.
 */
module LineLives {
  import opened Bytes
  import opened TelnetSpec
  import opened Network

  /** A client connects, the socket of a line closes, text comes in on a line, the program polls. */
  datatype Happening = Connects | Closes(q: nat) | Brings(q: nat, msg: seq<byte>) | Polls

  datatype Table = Table(lines: seq<Line>, last: byte)

  /** add_line: the first vacant line, or the number of lines. */
  function FirstVacant(lines: seq<Line>): (q: nat)
    ensures q <= |lines| && (q < |lines| ==> lines[q].status == Vacant)
    ensures forall i :: 0 <= i < q ==> lines[i].status != Vacant
  {
    if lines == [] || lines[0].status == Vacant then 0
    else
      var q := 1 + FirstVacant(lines[1..]);
      assert forall i :: 1 <= i < q ==> lines[i] == lines[1..][i - 1];
      q
  }

  ghost predicate Fine(t: Table) {
    0 < |t.lines| < 256 && forall l <- t.lines :: Marked(l) && TextOnly(l)
  }

  /** A socket closes once, while its line is in use; text has no NULs. */
  predicate CanHappen(t: Table, h: Happening) {
    match h
    case Connects => true
    case Closes(q) => q < |t.lines| && Live(t.lines[q])
    case Brings(q, msg) => q < |t.lines| && 0 !in msg
    case Polls => true
  }

  lemma FineReads(t: Table)
    requires Fine(t)
    ensures Readable(t.lines)
  {
    forall l | l in t.lines && l.status == HasData
      ensures LF in CString(l.inbuf)
    {
      NoNul(l.inbuf);
    }
  }

  ghost function Report(t: Table, h: Happening): Network.Report
    requires Fine(t)
  {
    FineReads(t);
    if h.Polls? then Poll(t.lines, t.last).report else Nothing
  }

  ghost function After(t: Table, h: Happening): Table
    requires Fine(t) && CanHappen(t, h)
  {
    FineReads(t);
    match h
    case Connects =>
      var q := FirstVacant(t.lines);
      if q == |t.lines| then t else t.(lines := t.lines[q := Line(Connecting, [])])
    case Closes(q) => t.(lines := t.lines[q := t.lines[q].(status := Disconnecting)])
    case Brings(q, msg) => t.(lines := t.lines[q := Append(t.lines[q], msg)])
    case Polls => var r := Poll(t.lines, t.last); Table(r.lines, r.last)
  }

  /** One step of one line: its status before and after, and what is reported of it. */
  lemma StepOfLine(t: Table, h: Happening, q: nat)
    requires Fine(t) && CanHappen(t, h) && q < |t.lines|
    ensures var a, r := After(t, h), Report(t, h);
      |a.lines| == |t.lines| &&
      var s, s' := t.lines[q].status, a.lines[q].status;
      && (r == Disconnected(q) <==> s == Disconnecting && s' == Vacant)
      && (r == Connected(q) <==> s == Connecting && s' == Idle)
      && (s == Connecting ==> s' in {Connecting, Idle, HasData, Disconnecting})
      && (h == Closes(q) <==> s != Disconnecting && s' == Disconnecting)
      && (s != Vacant && s' == Vacant ==> s == Disconnecting)
      && (s == Disconnecting ==> s' == Disconnecting || s' == Vacant)
      && (h == Closes(q) ==> Live(t.lines[q]))
      && (s' == Connecting && s != Connecting ==> s == Vacant)
      && (s == Vacant && s' != Vacant ==> s' == Connecting)
  {
    FineReads(t);
    match h {
      case Polls => PollReports(t.lines, t.last, q);
      case _ =>
    }
  }

  lemma StepFine(t: Table, h: Happening)
    requires Fine(t) && CanHappen(t, h)
    ensures Fine(After(t, h)) && |After(t, h).lines| == |t.lines|
  {
    FineReads(t);
    forall q | 0 <= q < |t.lines|
      ensures Marked(After(t, h).lines[q]) && TextOnly(After(t, h).lines[q])
    {
      assert t.lines[q] in t.lines;
      LineStaysFine(t, h, q);
    }
  }

  lemma LineStaysFine(t: Table, h: Happening, q: nat)
    requires Fine(t) && CanHappen(t, h) && q < |t.lines| && Marked(t.lines[q]) && TextOnly(t.lines[q])
    ensures Marked(After(t, h).lines[q]) && TextOnly(After(t, h).lines[q])
  {
    hide CString, EndOfLine, AfterLine;
    FineReads(t);
    var l := t.lines[q];
    match h {
      case Brings(_, msg) => AppendKeepsMarked(l, msg);
      case Polls =>
        if l.status == HasData {
          AfterLineKeepsMarked(l);
        }
      case _ =>
    }
  }

  // ----- runs -----

  /** The tables that the happenings hs lead through. */
  ghost predicate Trace(ts: seq<Table>, hs: seq<Happening>) {
    |ts| == |hs| + 1 && Fine(ts[0])
    && forall i {:trigger hs[i]} :: 0 <= i < |hs| ==>
         Fine(ts[i]) && CanHappen(ts[i], hs[i]) && ts[i + 1] == After(ts[i], hs[i])
  }

  lemma {:induction false} TraceFine(ts: seq<Table>, hs: seq<Happening>, n: nat)
    requires Trace(ts, hs) && n < |ts|
    ensures Fine(ts[n]) && |ts[n].lines| == |ts[0].lines|
    ensures n < |hs| ==> CanHappen(ts[n], hs[n]) && ts[n + 1] == After(ts[n], hs[n])
  {
    if n < |hs| {
      var h := hs[n];
    }
    if n > 0 {
      TraceFine(ts, hs, n - 1);
      StepFine(ts[n - 1], hs[n - 1]);
    }
  }

  /** How often line q was taken by a client, and how often it became vacant, in the first n steps. */
  ghost function Takings(ts: seq<Table>, q: nat, n: nat): nat
    requires n < |ts| && forall t <- ts :: q < |t.lines|
  {
    if n == 0 then 0
    else
      Takings(ts, q, n - 1)
      + One(ts[n - 1].lines[q].status == Vacant && ts[n].lines[q].status != Vacant)
  }

  ghost function Vacatings(ts: seq<Table>, q: nat, n: nat): nat
    requires n < |ts| && forall t <- ts :: q < |t.lines|
  {
    if n == 0 then 0
    else
      Vacatings(ts, q, n - 1)
      + One(ts[n - 1].lines[q].status != Vacant && ts[n].lines[q].status == Vacant)
  }

  /** How often it stopped connecting because text or a closing came before a poll. */
  ghost function Misses(ts: seq<Table>, q: nat, n: nat): nat
    requires n < |ts| && forall t <- ts :: q < |t.lines|
  {
    if n == 0 then 0
    else
      Misses(ts, q, n - 1)
      + One(ts[n - 1].lines[q].status == Connecting && ts[n].lines[q].status in {HasData, Disconnecting})
  }

  /** How often its socket closed. */
  function Closings(hs: seq<Happening>, q: nat, n: nat): nat
    requires n <= |hs|
  {
    if n == 0 then 0 else Closings(hs, q, n - 1) + One(hs[n - 1] == Closes(q))
  }

  /** How often a report was made. */
  ghost function Reports(ts: seq<Table>, hs: seq<Happening>, r: Network.Report, n: nat): nat
    requires Trace(ts, hs) && n <= |hs|
  {
    if n == 0 then 0
    else
      TraceFine(ts, hs, n - 1);
      Reports(ts, hs, r, n - 1) + One(Report(ts[n - 1], hs[n - 1]) == r)
  }

  function One(b: bool): nat { if b then 1 else 0 }

  lemma TraceLines(ts: seq<Table>, hs: seq<Happening>, q: nat)
    requires Trace(ts, hs) && q < |ts[0].lines|
    ensures forall t <- ts :: q < |t.lines|
  {
    forall n | 0 <= n < |ts|
      ensures q < |ts[n].lines|
    {
      TraceFine(ts, hs, n);
    }
  }

  /**
   * In every run of a line that was vacant at first: it has become vacant as often as its disconnection
   * was reported, it was closed as often as that, once more while a poll has yet to come to it, and taken
   * as often as that, once more while it is in use. Each time it was taken, the connection was reported,
   * or missed because text or a closing came first, or is still to be reported.
   */
  lemma {:induction false} LivesAreReported(ts: seq<Table>, hs: seq<Happening>, q: nat, n: nat)
    requires Trace(ts, hs) && q < |ts[0].lines| && ts[0].lines[q].status == Vacant && n <= |hs|
    requires forall t <- ts :: q < |t.lines|
    ensures var gone, l := Reports(ts, hs, Disconnected(q), n), ts[n].lines[q];
      && Vacatings(ts, q, n) == gone
      && Closings(hs, q, n) == gone + One(l.status == Disconnecting)
      && Takings(ts, q, n) == Closings(hs, q, n) + One(Live(l))
      && Takings(ts, q, n) == Reports(ts, hs, Connected(q), n) + Misses(ts, q, n) + One(l.status == Connecting)
  {
    hide Report, After, CanHappen, Fine;
    if n > 0 {
      LivesAreReported(ts, hs, q, n - 1);
      TraceFine(ts, hs, n - 1);
      StepOfLine(ts[n - 1], hs[n - 1], q);
    }
  }
}
