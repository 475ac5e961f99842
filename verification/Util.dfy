/** The integer printer of src/util.c, which names items by number, in any base. */
module Util {
  import opened Bytes
  import opened Paths
  import opened Sequences

  function Backwards(s: Text): (r: Text)
    ensures |r| == |s|
  {
    seq(|s|, i requires 0 <= i < |s| => s[|s| - 1 - i])
  }

  // ----- numerals -----

  predicate IsBase(base: nat) { 2 <= base <= 36 }

  /** The lookup table of itoa. */
  function DigitChar(d: nat): byte
    requires d < 36
  {
    if d < 10 then 48 + d else 87 + d
  }

  lemma QuotientSmaller(n: nat, base: nat)
    requires IsBase(base)
    ensures n > 0 ==> n / base < n
    ensures n < base ==> n / base == 0 && n % base == n
    ensures n >= base ==> n / base > 0
  {
    var q := n / base;
    assert n == q * base + n % base;
    AtLeastTwice(q, base);
  }

  lemma AtLeastTwice(q: nat, base: nat)
    requires base >= 2
    ensures q * base >= 2 * q && (q >= 1 ==> q * base >= base)
  {
    assert q * base == 2 * q + q * (base - 2);
    if q >= 1 {
      assert q * base == base + (q - 1) * base;
    }
  }

  /** The canonical numeral of n. */
  function Numeral(n: nat, base: nat): (r: Text)
    requires IsBase(base)
    ensures r != []
  {
    QuotientSmaller(n, base);
    if n < base then [DigitChar(n)] else Numeral(n / base, base) + [DigitChar(n % base)]
  }

  /** What itoa prints: a sign only in base 10. */
  function Printed(value: int, base: nat): Text
    requires IsBase(base) && (value >= 0 || base == 10)
  {
    if value < 0 then [MINUS] + Numeral(-value, base) else Numeral(value, base)
  }

  /** The number that a numeral stands for. */
  function Denotes(s: Text, base: nat): int {
    if s == [] then 0 else Denotes(s[..|s| - 1], base) * base + DigitOf(s[|s| - 1])
  }

  function DigitOf(c: byte): int { if c < 58 then c - 48 else c - 87 }

  /** A numeral stands for the number that was printed, in every base. */
  lemma {:induction false} NumeralDenotes(n: nat, base: nat)
    requires IsBase(base)
    ensures Denotes(Numeral(n, base), base) == n
  {
    hide Numeral, DigitChar, DigitOf, Denotes;
    QuotientSmaller(n, base);
    NumeralStep(n, base);
    DigitStandsFor(n % base);
    if n >= base {
      NumeralDenotes(n / base, base);
      DenotesSnoc(Numeral(n / base, base), DigitChar(n % base), base);
    } else {
      DenotesSnoc([], DigitChar(n % base), base);
      assert [] + [DigitChar(n % base)] == [DigitChar(n % base)];
    }
  }

  lemma DigitStandsFor(d: nat)
    requires d < 36
    ensures DigitOf(DigitChar(d)) == d
  {
  }

  lemma DenotesSnoc(s: Text, c: byte, base: nat)
    ensures Denotes(s + [c], base) == Denotes(s, base) * base + DigitOf(c) && Denotes([], base) == 0
  {
    assert (s + [c])[..|s|] == s;
  }

  /** In base 10 it is the numeral by which items are named. */
  lemma {:induction false} NumeralIsDecimal(n: nat)
    ensures Numeral(n, 10) == Digits(n)
  {
    if n >= 10 {
      NumeralIsDecimal(n / 10);
    }
  }

  lemma PrintedIsDecimal(value: int)
    ensures Printed(value, 10) == Decimal(value)
  {
    NumeralIsDecimal(if value < 0 then -value else value);
  }

  lemma {:induction false} NumeralIsText(n: nat, base: nat)
    requires IsBase(base)
    ensures 0 !in Numeral(n, base)
  {
    QuotientSmaller(n, base);
    if n >= base {
      NumeralIsText(n / base, base);
    }
  }

  // ----- the two loops -----

  /** The digits that are still to be written, then those written, last first. */
  ghost predicate Written(value: nat, base: nat, temp: nat, written: Text) {
    IsBase(base) && Numeral(value, base) == (if temp == 0 then [] else Numeral(temp, base)) + Backwards(written)
  }

  lemma OneMoreDigit(value: nat, base: nat, temp: nat, written: Text)
    requires IsBase(base) && Numeral(value, base) == Numeral(temp, base) + Backwards(written)
    ensures Written(value, base, temp / base, written + [DigitChar(temp % base)])
    ensures |written| < |Numeral(value, base)|
  {
    hide Numeral, Backwards, DigitChar;
    var d: Text := [DigitChar(temp % base)];
    BackwardsSnoc(written, DigitChar(temp % base));
    QuotientSmaller(temp, base);
    NumeralStep(temp, base);
    BackwardsLength(written);
    if temp >= base {
      Regroup(Numeral(temp / base, base), d, Backwards(written));
    } else {
      assert [] + (d + Backwards(written)) == d + Backwards(written);
    }
  }

  lemma NumeralStep(n: nat, base: nat)
    requires IsBase(base)
    ensures Numeral(n, base) ==
      if n < base then [DigitChar(n % base)] else Numeral(n / base, base) + [DigitChar(n % base)]
  {
    QuotientSmaller(n, base);
  }

  lemma BackwardsSnoc(s: Text, c: byte)
    ensures Backwards(s + [c]) == [c] + Backwards(s)
  {
  }

  lemma AllDigits(value: nat, base: nat, written: Text)
    requires Written(value, base, 0, written)
    ensures Backwards(written) == Numeral(value, base)
  {
    assert [] + Backwards(written) == Backwards(written);
  }

  /** The first loop of itoa: the digits, the last one first. */
  method WriteDigits(value: nat, base: nat, a: array<byte>, start: nat) returns (p: nat)
    requires IsBase(base) && start + |Numeral(value, base)| < a.Length
    modifies a
    ensures p == start + |Numeral(value, base)| && Backwards(a[start..p]) == Numeral(value, base)
    ensures a[..start] == old(a[..start]) && a[p..] == old(a[p..])
  {
    hide Numeral, Backwards, Written, DigitChar;
    NoDigits(value, base);
    OneMoreDigit(value, base, value, []);
    var temp := value;
    p := start;
    a[p] := DigitChar(temp % base);
    assert a[start..p + 1] == [] + [DigitChar(temp % base)];
    p, temp := p + 1, temp / base;
    QuotientSmaller(value, base);
    while temp != 0
      invariant start < p && temp >= 0 && p - start <= |Numeral(value, base)| && Written(value, base, temp, a[start..p])
      invariant forall k :: 0 <= k < start || p <= k < a.Length ==> a[k] == old(a[k])
      decreases temp
    {
      MoreDigits(value, base, temp, a[start..p]);
      QuotientSmaller(temp, base);
      ghost var written := a[start..p];
      a[p] := DigitChar(temp % base);
      assert a[start..p + 1] == written + [DigitChar(temp % base)];
      p, temp := p + 1, temp / base;
    }
    AllDigits(value, base, a[start..p]);
    BackwardsLength(a[start..p]);
  }

  lemma NoDigits(value: nat, base: nat)
    requires IsBase(base)
    ensures Numeral(value, base) == Numeral(value, base) + Backwards([])
  {
  }

  lemma BackwardsLength(s: Text)
    ensures |Backwards(s)| == |s|
  {
  }

  lemma MoreDigits(value: nat, base: nat, temp: nat, written: Text)
    requires Written(value, base, temp, written) && temp != 0
    ensures Written(value, base, temp / base, written + [DigitChar(temp % base)]) && |written| < |Numeral(value, base)|
  {
    OneMoreDigit(value, base, temp, written);
  }

  /** The second loop of itoa: the stretch from lo to hi is turned round in place. */
  method ReverseInPlace(a: array<byte>, start: nat, end: nat)
    requires start <= end <= a.Length
    modifies a
    ensures a[start..end] == Backwards(old(a[start..end]))
    ensures a[..start] == old(a[..start]) && a[end..] == old(a[end..])
  {
    var lo, hi: int := start, end - 1;
    while lo < hi
      invariant start <= lo <= hi + 1 <= end && lo - start == end - 1 - hi
      invariant forall k :: start <= k < lo || hi < k < end ==> a[k] == old(a[start + end - 1 - k])
      invariant forall k :: 0 <= k < start || lo <= k <= hi || end <= k < a.Length ==> a[k] == old(a[k])
    {
      a[lo], a[hi] := a[hi], a[lo];
      lo, hi := lo + 1, hi - 1;
    }
    ghost var was := old(a[start..end]);
    forall i | 0 <= i < end - start
      ensures a[start..end][i] == Backwards(was)[i]
    {
      assert a[start + i] == old(a[end - 1 - i]) == was[end - start - 1 - i];
    }
    assert forall k :: 0 <= k < start || end <= k < a.Length ==> a[k] == old(a[k]);
  }

  /**
   * itoa. The buffer ends up holding the numeral as a C string. The most negative int has no positive
   * counterpart, and a negative remainder has no digit, so the original is not defined for them.
   */
  method Itoa(value: int, buffer: array<byte>, base: nat)
    requires IsBase(base) && -0x8000_0000 < value < 0x8000_0000 && (value >= 0 || base == 10)
    requires |Printed(value, base)| < buffer.Length
    modifies buffer
    ensures CString(buffer[..]) == Printed(value, base)
    ensures buffer[|Printed(value, base)| + 1..] == old(buffer[|Printed(value, base)| + 1..])
  {
    hide Numeral, Backwards, CString;
    var start, v := 0, value;
    if value < 0 && base == 10 {
      buffer[0] := MINUS;
      start, v := 1, -value;
    }
    ghost var n := |Printed(value, base)|;
    ghost var tail := old(buffer[n + 1..]);
    assert buffer[n + 1..] == tail && buffer[n..][1..] == buffer[n + 1..];
    var p := WriteDigits(v, base, buffer, start);
    assert buffer[p..][1..] == buffer[p + 1..] == tail;
    buffer[p] := 0;
    assert buffer[p..][1..] == buffer[p + 1..] == tail;
    ReverseInPlace(buffer, start, p);
    assert buffer[p..][1..] == buffer[p + 1..];
    assert buffer[..p] == buffer[..start] + buffer[start..p];
    assert start == 1 ==> buffer[..start] == [MINUS];
    assert buffer[..p] == Printed(value, base) && buffer[p] == 0;
    PrintedIsCString(value, base, buffer[..]);
  }

  lemma PrintedIsCString(value: int, base: nat, s: seq<byte>)
    requires IsBase(base) && (value >= 0 || base == 10)
    requires |Printed(value, base)| < |s| && s[..|Printed(value, base)|] == Printed(value, base)
    requires s[|Printed(value, base)|] == 0
    ensures CString(s) == Printed(value, base)
  {
    NumeralIsText(if value < 0 then -value else value, base);
    CStringStops(s, |Printed(value, base)|);
  }

  lemma {:induction false} CStringStops(s: seq<byte>, n: nat)
    requires n < |s| && s[n] == 0 && 0 !in s[..n]
    ensures CString(s) == s[..n]
  {
    if n > 0 {
      assert s[..n][0] == s[0] && s[..n][1..] == s[1..][..n - 1];
      CStringStops(s[1..], n - 1);
    }
  }
}
