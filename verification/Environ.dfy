/**
 * The in-place parser of ENVIRON and NEW-ENVIRON subnegotiations (section 2 of RFC 1572):
 * src/libtelnet.c, _environ_telnet.
 */
module Environ {
  import opened Bytes
  import opened Sequences

  const SEND: byte := 1
  const IS: byte := 0
  const INFO: byte := 2
  const VAR: byte := 0
  const VALUE: byte := 1
  const ESC: byte := 2
  const USERVAR: byte := 3

  predicate IsVar(b: byte) { b == VAR || b == USERVAR }

  /** Any marker ends a name; a VALUE marker inside a value is data. */
  predicate Ends(b: byte, inValue: bool) { IsVar(b) || (!inValue && b == VALUE) }

  /** One variable, with its value if it has one. */
  datatype Entry = Entry(kind: byte, name: seq<byte>, hasValue: bool, value: seq<byte>)

  /** What the original does with a payload: nothing, one of its three warnings, or an event. */
  datatype Parse = Empty | BadCommand | MissingType | EndsWithEsc | Parsed(cmd: byte, entries: seq<Entry>)

  // ----- the meaning of a payload -----

  /** The unescaped bytes from c up to a marker or the end, and where that is. */
  function Take(s: seq<byte>, c: nat, inValue: bool): (r: (seq<byte>, nat))
    requires c <= |s|
    ensures c <= r.1 <= |s| && |r.0| <= r.1 - c
    ensures r.1 < |s| ==> Ends(s[r.1], inValue)
    decreases |s| - c
  {
    if c == |s| || Ends(s[c], inValue) then ([], c)
    else if s[c] == ESC && c + 1 < |s| then
      var (t, end) := Take(s, c + 2, inValue);
      ([s[c + 1]] + t, end)
    else
      var (t, end) := Take(s, c + 1, inValue);
      ([s[c]] + t, end)
  }

  predicate HasValue(s: seq<byte>, c: nat) { c < |s| && s[c] == VALUE }

  /** The first entry from c on, and where the next one starts. */
  function First(s: seq<byte>, c: nat): (r: (Entry, nat))
    requires c < |s| && IsVar(s[c])
    ensures c < r.1 <= |s|
    ensures r.1 < |s| ==> IsVar(s[r.1])
  {
    var (name, end) := Take(s, c + 1, false);
    if HasValue(s, end) then
      var (value, end') := Take(s, end + 1, true);
      (Entry(s[c], name, true, value), end')
    else (Entry(s[c], name, false, []), end)
  }

  /** All entries from c on, where a VAR or USERVAR stands, or the end. */
  function Entries(s: seq<byte>, c: nat): seq<Entry>
    requires c <= |s| && (c < |s| ==> IsVar(s[c]))
    decreases |s| - c
  {
    if c == |s| then [] else [First(s, c).0] + Entries(s, First(s, c).1)
  }

  function ParseEnviron(s: seq<byte>): Parse {
    if s == [] then Empty
    else if s[0] !in {SEND, IS, INFO} then BadCommand
    else if |s| == 1 then Parsed(s[0], [])
    else if !IsVar(s[1]) then MissingType
    else if s[|s| - 1] == ESC then EndsWithEsc
    else Parsed(s[0], Entries(s, 1))
  }

  // ----- the encoding of RFC 1572, and the round trip -----

  function EscapeByte(b: byte): seq<byte> { if b <= USERVAR then [ESC, b] else [b] }

  function EscapeEnviron(s: seq<byte>): seq<byte> {
    if s == [] then [] else EscapeByte(s[0]) + EscapeEnviron(s[1..])
  }

  function EncodeEntry(e: Entry): seq<byte> {
    [e.kind] + EscapeEnviron(e.name) + (if e.hasValue then [VALUE] + EscapeEnviron(e.value) else [])
  }

  function EncodeEntries(es: seq<Entry>): seq<byte> {
    if es == [] then [] else EncodeEntry(es[0]) + EncodeEntries(es[1..])
  }

  predicate WellFormed(es: seq<Entry>) {
    forall e <- es :: IsVar(e.kind) && (!e.hasValue ==> e.value == [])
  }

  lemma TakeByte(pre: seq<byte>, b: byte, more: seq<byte>, inValue: bool)
    ensures var s, pre' := pre + EscapeByte(b) + more, pre + EscapeByte(b);
      Take(s, |pre|, inValue) == ([b] + Take(s, |pre'|, inValue).0, Take(s, |pre'|, inValue).1)
  {
    var s := pre + EscapeByte(b) + more;
    assert s[|pre|] == EscapeByte(b)[0];
    assert b <= USERVAR ==> s[|pre| + 1] == b;
  }

  lemma {:induction false} TakeEscaped(pre: seq<byte>, x: seq<byte>, rest: seq<byte>, inValue: bool)
    requires rest != [] ==> Ends(rest[0], inValue)
    ensures Take(pre + EscapeEnviron(x) + rest, |pre|, inValue) == (x, |pre| + |EscapeEnviron(x)|)
    decreases |x|
  {
    if x == [] {
      assert pre + EscapeEnviron(x) == pre;
      assert rest != [] ==> (pre + rest)[|pre|] == rest[0];
    } else {
      var y, more := EscapeByte(x[0]), EscapeEnviron(x[1..]);
      assert EscapeEnviron(x) == y + more;
      Regroup4(pre, y, more, rest);
      Regroup(pre + y, more, rest);
      TakeByte(pre, x[0], more + rest, inValue);
      hide *;
      TakeEscaped(pre + y, x[1..], rest, inValue);
      HeadTail(x);
    }
  }

  /** Reading one entry back from its encoding. */
  lemma FirstRoundTrip(pre: seq<byte>, e: Entry, rest: seq<byte>)
    requires IsVar(e.kind) && (!e.hasValue ==> e.value == []) && (rest != [] ==> IsVar(rest[0]))
    ensures var s := pre + EncodeEntry(e) + rest;
      s[|pre|] == e.kind && First(s, |pre|) == (e, |pre| + |EncodeEntry(e)|)
  {
    var n := EscapeEnviron(e.name);
    var pre1 := pre + [e.kind];
    var s := pre + EncodeEntry(e) + rest;
    hide Take, EscapeEnviron;
    if e.hasValue {
      var v := EscapeEnviron(e.value);
      var pre2 := pre1 + n + [VALUE];
      assert s == pre1 + n + ([VALUE] + v + rest);
      TakeEscaped(pre1, e.name, [VALUE] + v + rest, false);
      assert s == pre2 + v + rest;
      TakeEscaped(pre2, e.value, rest, true);
    } else {
      assert s == pre1 + n + rest;
      TakeEscaped(pre1, e.name, rest, false);
      assert rest != [] ==> s[|pre1 + n|] == rest[0];
    }
  }

  lemma EncodeStarts(es: seq<Entry>)
    requires WellFormed(es)
    ensures es != [] ==> EncodeEntries(es) != [] && IsVar(EncodeEntries(es)[0])
    ensures es == [] ==> EncodeEntries(es) == []
  {
    if es != [] {
      assert es[0] in es;
    }
  }

  /** Splitting and unescaping the encoding of any entries gives the entries back. */
  lemma {:induction false} EntriesRoundTrip(pre: seq<byte>, es: seq<Entry>)
    requires WellFormed(es)
    ensures var s := pre + EncodeEntries(es);
      (|pre| < |s| ==> IsVar(s[|pre|])) && Entries(s, |pre|) == es
    decreases |es|
  {
    EncodeStarts(es);
    if es == [] {
      assert pre + [] == pre;
    } else {
      var e, rest := es[0], EncodeEntries(es[1..]);
      var s := pre + EncodeEntries(es);
      EncodeSplits(es);
      EncodeStarts(es[1..]);
      Regroup(pre, EncodeEntry(e), rest);
      EntriesStep(pre, e, rest);
      hide *;
      EntriesRoundTrip(pre + EncodeEntry(e), es[1..]);
      HeadTail(es);
    }
  }

  lemma EntriesStep(pre: seq<byte>, e: Entry, rest: seq<byte>)
    requires IsVar(e.kind) && (!e.hasValue ==> e.value == []) && (rest != [] ==> IsVar(rest[0]))
    ensures var s, pre' := pre + EncodeEntry(e) + rest, pre + EncodeEntry(e);
      s[|pre|] == e.kind && (|pre'| < |s| ==> IsVar(s[|pre'|]))
      && Entries(s, |pre|) == [e] + Entries(s, |pre'|)
  {
    hide First, EncodeEntry, Take;
    FirstRoundTrip(pre, e, rest);
    assert |pre + EncodeEntry(e)| == |pre| + |EncodeEntry(e)|;
  }

  lemma EncodeSplits(es: seq<Entry>)
    requires WellFormed(es) && es != []
    ensures EncodeEntries(es) == EncodeEntry(es[0]) + EncodeEntries(es[1..])
    ensures WellFormed(es[1..]) && IsVar(es[0].kind) && (!es[0].hasValue ==> es[0].value == [])
  {
    assert es[0] in es;
  }

  /**
   * A payload that encodes entries is parsed into them if and only if its last byte is not ESC:
   * the check for a trailing ESC also refuses a last name or value that ends with an escaped ESC.
   */
  lemma EnvironRoundTrip(cmd: byte, es: seq<Entry>)
    requires cmd in {SEND, IS, INFO} && es != [] && WellFormed(es)
    ensures var s := EncodeEntries(es);
      s != [] && (ParseEnviron([cmd] + s) == Parsed(cmd, es) <==> s[|s| - 1] != ESC)
  {
    EncodeStarts(es);
    EntriesRoundTrip([cmd], es);
  }

  /** enc spells x, each byte as it is or after an ESC; a byte that would end x there must be escaped. */
  predicate Spells(enc: seq<byte>, x: seq<byte>, inValue: bool)
    decreases |x|
  {
    if x == [] then enc == []
    else if enc == [] then false
    else if enc[0] == ESC then |enc| >= 2 && enc[1] == x[0] && Spells(enc[2..], x[1..], inValue)
    else enc[0] == x[0] && !Ends(enc[0], inValue) && Spells(enc[1..], x[1..], inValue)
  }

  /** However a name or a value is spelled, it is read; a VALUE marker inside a value needs no ESC. */
  lemma {:induction false} SpellingRead(pre: seq<byte>, enc: seq<byte>, x: seq<byte>, rest: seq<byte>, inValue: bool)
    requires Spells(enc, x, inValue) && (rest != [] ==> Ends(rest[0], inValue))
    ensures Take(pre + enc + rest, |pre|, inValue) == (x, |pre| + |enc|)
    decreases |x|
  {
    var s := pre + enc + rest;
    if x == [] {
      assert s == pre + rest;
      assert rest != [] ==> s[|pre|] == rest[0];
    } else {
      var k := if enc[0] == ESC then 2 else 1;
      assert s[|pre|] == enc[0] && (k == 2 ==> s[|pre| + 1] == enc[1]);
      assert s == (pre + enc[..k]) + enc[k..] + rest;
      SpellingRead(pre + enc[..k], enc[k..], x[1..], rest, inValue);
      assert [x[0]] + x[1..] == x;
    }
  }

  /** What is refused, and in which order it is looked for. */
  lemma Refusals(s: seq<byte>)
    ensures ParseEnviron(s) == Empty <==> s == []
    ensures ParseEnviron(s) == BadCommand <==> s != [] && s[0] > 2
    ensures ParseEnviron(s) == MissingType <==> |s| >= 2 && s[0] <= 2 && s[1] != VAR && s[1] != USERVAR
    ensures ParseEnviron(s) == EndsWithEsc <==>
      |s| >= 2 && s[0] <= 2 && (s[1] == VAR || s[1] == USERVAR) && s[|s| - 1] == ESC
    ensures ParseEnviron(s).Parsed? ==> ParseEnviron(s).cmd == s[0] && (ParseEnviron(s).entries == [] <==> |s| == 1)
  {
  }

  /** An entry that RFC 1572 allows and the parser refuses: a name that is a single ESC. */
  lemma EscapedEscAtEndIsRefused()
    ensures ParseEnviron([IS] + EncodeEntries([Entry(VAR, [ESC], false, [])])) == EndsWithEsc
  {
    var es := [Entry(VAR, [ESC], false, [])];
    var escape: seq<byte> := [ESC];
    assert es[1..] == [] && escape[1..] == [];
    assert EscapeEnviron([ESC]) == [ESC, ESC];
    assert EncodeEntries(es) == [VAR, ESC, ESC];
  }

  // ----- the two passes over the buffer -----

  /** The unescaped VAR and USERVAR bytes from c on: what the first pass counts. */
  function CountFrom(s: seq<byte>, c: nat): nat
    decreases |s| - c
  {
    if c >= |s| then 0
    else if IsVar(s[c]) then 1 + CountFrom(s, c + 1)
    else if s[c] == ESC then CountFrom(s, c + 2)
    else CountFrom(s, c + 1)
  }

  lemma {:induction false} CountAfterTake(s: seq<byte>, c: nat, inValue: bool)
    requires c <= |s| && (s != [] ==> s[|s| - 1] != ESC)
    ensures CountFrom(s, c) == CountFrom(s, Take(s, c, inValue).1)
    decreases |s| - c
  {
    if c < |s| && !Ends(s[c], inValue) {
      CountAfterTake(s, if s[c] == ESC then c + 2 else c + 1, inValue);
    }
  }

  /** The second pass finds exactly as many entries as the first pass counted. */
  lemma {:induction false} CountIsEntries(s: seq<byte>, c: nat)
    requires c <= |s| && (c < |s| ==> IsVar(s[c])) && (s != [] ==> s[|s| - 1] != ESC)
    ensures CountFrom(s, c) == |Entries(s, c)|
    decreases |s| - c
  {
    hide Take;
    if c < |s| {
      var end := Take(s, c + 1, false).1;
      CountAfterTake(s, c + 1, false);
      if HasValue(s, end) {
        CountAfterTake(s, end + 1, true);
      }
      CountIsEntries(s, First(s, c).1);
    }
  }

  /** Where an entry's strings are in the buffer; no value is an empty string elsewhere. */
  datatype Slot = Slot(kind: byte, name: nat, hasValue: bool, value: nat)

  /** The string s is stored at a position, with its terminator, below limit. */
  ghost predicate StoredAt(buf: seq<byte>, at: nat, s: seq<byte>, limit: nat) {
    at + |s| < limit <= |buf| && (forall i :: 0 <= i < |s| ==> buf[at + i] == s[i]) && buf[at + |s|] == 0
  }

  ghost predicate Holds(buf: seq<byte>, slot: Slot, e: Entry, limit: nat) {
    slot.kind == e.kind && slot.hasValue == e.hasValue && StoredAt(buf, slot.name, e.name, limit)
    && (e.hasValue ==> StoredAt(buf, slot.value, e.value, limit))
  }

  ghost predicate HoldsAll(buf: seq<byte>, slots: seq<Slot>, es: seq<Entry>, limit: nat) {
    |slots| == |es| && forall k :: 0 <= k < |es| ==> Holds(buf, slots[k], es[k], limit)
  }

  ghost predicate SameBelow(buf: seq<byte>, buf': seq<byte>, limit: nat) {
    |buf| == |buf'| && forall i :: 0 <= i < limit && i < |buf| ==> buf'[i] == buf[i]
  }

  ghost predicate SameFrom(buf: seq<byte>, buf': seq<byte>, c: nat) {
    |buf| == |buf'| && forall i :: c <= i < |buf| ==> buf'[i] == buf[i]
  }

  /** Writing at or above limit does not disturb what is stored below it. */
  lemma HoldsAllKept(buf: seq<byte>, buf': seq<byte>, slots: seq<Slot>, es: seq<Entry>, limit: nat, limit': nat)
    requires HoldsAll(buf, slots, es, limit) && limit <= limit' <= |buf| && SameBelow(buf, buf', limit)
    ensures HoldsAll(buf', slots, es, limit')
  {
    forall k | 0 <= k < |es|
      ensures Holds(buf', slots[k], es[k], limit')
    {
      assert Holds(buf, slots[k], es[k], limit);
    }
  }

  lemma {:induction false} TakeSameFrom(s: seq<byte>, s': seq<byte>, c: nat, inValue: bool)
    requires |s| == |s'| && c <= |s| && forall i :: c <= i < |s| ==> s'[i] == s[i]
    ensures Take(s', c, inValue) == Take(s, c, inValue)
    decreases |s| - c
  {
    if c < |s| && !Ends(s[c], inValue) {
      TakeSameFrom(s, s', if s[c] == ESC && c + 1 < |s| then c + 2 else c + 1, inValue);
    }
  }

  /** The inner loops: copy unescaped bytes down to out up to a marker, then terminate the string. */
  method CopyOut(buffer: array<byte>, size: nat, c: nat, out: nat, inValue: bool) returns (c': nat, out': nat)
    requires out < c <= size == buffer.Length && buffer[size - 1] != ESC
    modifies buffer
    ensures var (s, end) := Take(old(buffer[..]), c, inValue);
      c' == end && out' == out + |s| + 1 <= c' && StoredAt(buffer[..], out, s, out')
    ensures SameBelow(old(buffer[..]), buffer[..], out) && SameFrom(old(buffer[..]), buffer[..], c')
  {
    hide Ends, Take;
    ghost var s0 := buffer[..];
    ghost var copied: seq<byte> := [];
    c', out' := c, out;
    assert copied + Take(s0, c, inValue).0 == Take(s0, c, inValue).0;
    while c' < size && !Ends(buffer[c'], inValue)
      invariant c <= c' <= size && out <= out' < c' && |copied| == out' - out
      invariant SameBelow(s0, buffer[..], out) && SameFrom(s0, buffer[..], c')
      invariant forall i :: 0 <= i < |copied| ==> buffer[out + i] == copied[i]
      invariant Take(s0, c, inValue) == (copied + Take(s0, c', inValue).0, Take(s0, c', inValue).1)
    {
      assert buffer[..][c'] == s0[c'];
      TakeStep(s0, c', inValue);
      var skip := if buffer[c'] == ESC then 1 else 0;
      var b := buffer[c' + skip];
      assert b == buffer[..][c' + skip] == s0[c' + skip];
      Regroup(copied, [b], Take(s0, c' + skip + 1, inValue).0);
      buffer[out'] := b;
      copied := copied + [b];
      c', out' := c' + skip + 1, out' + 1;
    }
    assert c' < size ==> buffer[..][c'] == s0[c'];
    TakeStops(s0, c', inValue);
    buffer[out'] := 0;
    out' := out' + 1;
  }

  lemma TakeStep(s: seq<byte>, c: nat, inValue: bool)
    requires c < |s| && !Ends(s[c], inValue) && s[|s| - 1] != ESC
    ensures var skip := if s[c] == ESC then 1 else 0;
      c + skip < |s| && Take(s, c, inValue)
        == ([s[c + skip]] + Take(s, c + skip + 1, inValue).0, Take(s, c + skip + 1, inValue).1)
  {
  }

  lemma TakeStops(s: seq<byte>, c: nat, inValue: bool)
    requires c <= |s| && (c < |s| ==> Ends(s[c], inValue))
    ensures Take(s, c, inValue) == ([], c)
  {
  }

  /** The first pass. */
  method CountEntries(buffer: array<byte>) returns (count: nat)
    requires buffer.Length > 1
    ensures count == CountFrom(buffer[..], 1)
  {
    count := 0;
    var c := 1;
    while c < buffer.Length
      invariant 1 <= c && count + CountFrom(buffer[..], c) == CountFrom(buffer[..], 1)
      decreases buffer.Length - c
    {
      if IsVar(buffer[c]) {
        count := count + 1;
      } else if buffer[c] == ESC {
        c := c + 1;
      }
      c := c + 1;
    }
  }

  /** The outcome of the parser: a rejected payload, or the slots of its entries. */
  datatype Outcome = Rejected(why: Parse) | Event(cmd: byte, slots: seq<Slot>)

  /**
   * _environ_telnet on a payload, in place. The strings written over the payload are exactly the
   * entries that the payload meant before it was overwritten; the second pass runs count times
   * and stops at the end of the payload.
   */
  method EnvironTelnet(buffer: array<byte>) returns (r: Outcome)
    modifies buffer
    ensures var parse := ParseEnviron(old(buffer[..]));
      match r
      case Rejected(why) => why == parse && !parse.Parsed? && buffer[..] == old(buffer[..])
      case Event(cmd, slots) =>
        parse.Parsed? && parse.cmd == cmd && HoldsAll(buffer[..], slots, parse.entries, buffer.Length)
  {
    var size := buffer.Length;
    if size == 0 { return Rejected(Empty); }
    if buffer[0] !in {SEND, IS, INFO} { return Rejected(BadCommand); }
    if size == 1 { return Event(buffer[0], []); }
    if !IsVar(buffer[1]) { return Rejected(MissingType); }
    if buffer[size - 1] == ESC { return Rejected(EndsWithEsc); }
    var cmd := buffer[0];
    var count := CountEntries(buffer);
    ghost var es := Entries(buffer[..], 1);
    var slots, end, out := ParsePass(buffer, count);
    HoldsAllKept(buffer[..], buffer[..], slots, es, out, end);
    return Event(cmd, slots);
  }

  /** One round of the second pass. */
  method ParseEntry(buffer: array<byte>, ghost s0: seq<byte>, ghost slots: seq<Slot>, ghost es: seq<Entry>, c: nat,
                    out: nat)
    returns (slot: Slot, c': nat, out': nat)
    requires out < c < buffer.Length && buffer[buffer.Length - 1] != ESC
    requires SameFrom(s0, buffer[..], c) && IsVar(s0[c])
    requires HoldsAll(buffer[..], slots, es, out)
    modifies buffer
    ensures c' == First(s0, c).1 && out' < c'
    ensures SameFrom(s0, buffer[..], c') && (c' < buffer.Length ==> buffer[buffer.Length - 1] != ESC)
    ensures HoldsAll(buffer[..], slots + [slot], es + [First(s0, c).0], out')
  {
    hide Take, Ends;
    var size := buffer.Length;
    var kind := buffer[c];
    assert buffer[..][c] == s0[c];
    ghost var b0 := buffer[..];
    TakeSameFrom(s0, b0, c + 1, false);
    var end, out1 := CopyOut(buffer, size, c + 1, out, false);
    ghost var b1 := buffer[..];
    slot, c', out' := Slot(kind, out, false, 0), end, out1;
    HoldsAllKept(b0, b1, slots, es, out, out1);
    if end < size {
      assert b1[end] == s0[end];
      if buffer[end] == VALUE {
        TakeSameFrom(s0, b1, end + 1, true);
        assert b1[size - 1] == s0[size - 1] == b0[size - 1];
        c', out' := CopyOut(buffer, size, end + 1, out1, true);
        slot := Slot(kind, out, true, out1);
        HoldsAllKept(b1, buffer[..], slots, es, out1, out');
      }
    }
    HoldsOne(buffer[..], slots, es, slot, First(s0, c).0, out');
  }

  lemma HoldsOne(buf: seq<byte>, slots: seq<Slot>, es: seq<Entry>, slot: Slot, e: Entry, limit: nat)
    requires HoldsAll(buf, slots, es, limit) && Holds(buf, slot, e, limit)
    ensures HoldsAll(buf, slots + [slot], es + [e], limit)
  {
  }

  /** The second pass stops exactly at the end of the buffer, having written less than it read. */
  method ParsePass(buffer: array<byte>, count: nat) returns (slots: seq<Slot>, c: nat, out: nat)
    requires buffer.Length > 1 && IsVar(buffer[1]) && buffer[buffer.Length - 1] != ESC
    requires count == CountFrom(buffer[..], 1)
    modifies buffer
    ensures c == buffer.Length && out < c && |slots| == count
    ensures HoldsAll(buffer[..], slots, Entries(old(buffer[..]), 1), out)
  {
    ghost var s0 := buffer[..];
    var size := buffer.Length;
    CountIsEntries(s0, 1);
    out, c := 0, 1;
    slots := [];
    ghost var es: seq<Entry> := [];
    for index := 0 to count
      invariant |es| == index && 0 <= out < c <= size && (c < size ==> IsVar(s0[c]))
      invariant es + Entries(s0, c) == Entries(s0, 1)
      invariant SameFrom(s0, buffer[..], c) && HoldsAll(buffer[..], slots, es, out)
    {
      assert c < size by { assert |es + Entries(s0, c)| == count; }
      ghost var e := First(s0, c).0;
      assert Entries(s0, c) == [e] + Entries(s0, First(s0, c).1);
      assert es + ([e] + Entries(s0, First(s0, c).1)) == es + [e] + Entries(s0, First(s0, c).1);
      var slot: Slot;
      slot, c, out := ParseEntry(buffer, s0, slots, es, c, out);
      slots, es := slots + [slot], es + [e];
    }
    assert Entries(s0, c) == [] && es == Entries(s0, 1) by { assert |es + Entries(s0, c)| == count; }
  }
}
