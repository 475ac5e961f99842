/** Where names of items are not what the language makes one expect, and exactly when they are. */
module NameLaws {
  import opened Bytes
  import opened Values
  import opened Paths
  import opened Syntax
  import opened Source
  import opened CodeGen
  import I = Interpreter

  // ----- integers as layers: an int64_t local goes through an int -----

  lemma TruncatedEqual(a: int, b: int)
    ensures Truncate32(a) == Truncate32(b) <==> (a - b) % 0x1_0000_0000 == 0
  {
    SameResidue(a + 0x8000_0000, b + 0x8000_0000, 0x1_0000_0000);
  }

  lemma SameResidue(x: int, y: int, n: nat)
    requires n > 0
    ensures x % n == y % n <==> (x - y) % n == 0
  {
    assert x == x / n * n + x % n && y == y / n * n + y % n;
    if x % n == y % n {
      assert x - y == (x / n - y / n) * n;
      MultipleResidue(x / n - y / n, n);
    } else if (x - y) % n == 0 {
      var q := (x - y) / n;
      assert x - y == q * n;
      assert x == (y / n + q) * n + y % n;
      QuotientUnique(y / n + q, y % n, n);
    }
  }

  lemma MultipleResidue(q: int, n: nat)
    requires n > 0
    ensures (q * n) % n == 0
  {
    QuotientUnique(q, 0, n);
  }

  lemma QuotientUnique(q: int, r: nat, n: nat)
    requires r < n
    ensures (q * n + r) % n == r
  {
    var x := q * n + r;
    var q', r' := x / n, x % n;
    assert (q - q') * n == r' - r;
    if q > q' {
      assert (q - q') * n >= n by { AtLeastOne(q - q', n); }
    } else if q < q' {
      assert (q' - q) * n >= n by { AtLeastOne(q' - q, n); }
    }
  }

  lemma AtLeastOne(k: nat, n: nat)
    requires k > 0
    ensures k * n >= n
  {
    assert k * n == (k - 1) * n + n;
  }

  /** Two int locals name the same layer if and only if they are equal in their low 32 bits. */
  lemma IntegerLayers(x: Text, a: Word, y: Text, b: Word, env: Env)
    requires x in env && env[x] == Int(a) && Truncate32(a) > -0x8000_0000
    requires y in env && env[y] == Int(b) && Truncate32(b) > -0x8000_0000
    ensures LayerText(LocalRef(x), env).Ok? && LayerText(LocalRef(y), env).Ok?
    ensures LayerText(LocalRef(x), env) == LayerText(LocalRef(y), env) <==> (a - b) % 0x1_0000_0000 == 0
  {
    hide Decimal, Truncate32;
    DecimalInjective(Truncate32(a), Truncate32(b));
    TruncatedEqual(a, b);
  }

  /** An int local names the layer of its own numeral if and only if it fits an int. */
  lemma IntegerLayerIsNumeral(x: Text, a: Word, env: Env)
    requires x in env && env[x] == Int(a) && Truncate32(a) > -0x8000_0000
    ensures LayerText(LocalRef(x), env) == Ok(Decimal(a)) <==> -0x8000_0000 < a < 0x8000_0000
  {
    DecimalInjective(Truncate32(a), a);
  }

  /** 1 and 4294967297 are one layer. */
  lemma OneLayerForTwoIntegers(x: Text)
    ensures var big: Word := 0x1_0000_0001;
      LayerText(LocalRef(x), map[x := Int(1)]) == LayerText(LocalRef(x), map[x := Int(big)]) == Ok([49])
  {
    hide Decimal;
    NumeralOfOne();
    assert Truncate32(1) == Truncate32(0x1_0000_0001) == 1;
  }

  lemma NumeralOfOne()
    ensures Decimal(1) == [49]
  {
  }

  /** Numerals are valid layers, but for the sign: a negative int names a layer that no string can name. */
  lemma NumeralsAreLayers(n: int)
    requires -0x8000_0000 < n < 0x8000_0000
    ensures IsValidLayer(Decimal(n)) <==> n >= 0
    ensures SolidLayer(Decimal(n))
  {
    DecimalInjective(n, n);
    DigitsAreDigits(if n < 0 then -n else n);
    FewDigits(if n < 0 then -n else n);
    if n < 0 {
      assert Decimal(n)[0] == MINUS && Decimal(n)[0] in Decimal(n) && !IsLayerChar(MINUS);
    }
  }

  lemma {:induction false} FewDigits(n: nat)
    requires n < 0x8000_0000
    ensures |Digits(n)| <= 10 && |Digits(n)| <= (if n < 10 then 1 else if n < 100 then 2 else if n < 1000 then 3
      else if n < 10000 then 4 else if n < 100000 then 5 else if n < 1000000 then 6 else if n < 10000000 then 7
      else if n < 100000000 then 8 else if n < 1000000000 then 9 else 10)
  {
    if n >= 10 {
      FewDigits(n / 10);
    }
  }

  /** The characters of a layer: letters, digits and the underscore. */
  lemma LayerAlphabet(c: byte)
    ensures var ch := c as char;
      IsLayerChar(c) <==> 'A' <= ch <= 'Z' || 'a' <= ch <= 'z' || '0' <= ch <= '9' || ch == '_'
  {
  }

  /** The longest layer has 32 characters. */
  lemma LongestLayer(s: Text)
    requires forall c <- s :: c == 97
    ensures IsValidLayer(s) <==> |s| <= 32
  {
  }

  // ----- names that end in a dot -----

  /** What assigning c under a name leaves at the path the name stands for. */
  lemma AssignedUnderName<C>(s: Store<C>, name: Text, c: Content<C>)
    requires PrefixClosed(s)
    ensures var r, p := InsertNamed(s, name, c), Split(name);
      && p in r
      && (r[p] == c <==> (name != [] && !EndsInDot(name)) || (if p in s then s[p] == c else c == Val(NIL)))
  {
    var p := Split(name);
    InsertNamedCases(s, name, c);
    MaterialiseAt(s, p, |p|, p);
  }

  /** Assigning 1 under "a." makes "a" a nil item. */
  lemma DotLosesTheValue()
    ensures var s: Store<int> := map[[] := Val(Int(0))];
      var name: Text := [97, DOT];
      InsertNamed(s, name, Val(Int(1))) == s[[[97]] := Val(NIL)] && Split(name) == [[97]]
  {
    var s: Store<int> := map[[] := Val(Int(0))];
    var name: Text := [97, DOT];
    assert name[1..] == [DOT] && name[..1] == [97] && name[2..] == [];
    assert LayerLength(name[1..]) == 0 && LayerLength(name) == 1;
    assert Split(name) == [[97]] + Split(name[2..]);
    var p: Path := [[97]];
    assert Split(name) == p && p[..1] == p;
    assert Materialise(s, p, 0) == s;
  }

  /** Such a name comes about: an empty string is a valid last layer. */
  lemma EmptyLayerEndsInDot(m: I.Machine)
    requires m.stack != [] && m.base == 0 && m.stack[0] == Str([])
    ensures var x: Text := [120];
      I.ReadName(GenItem([Name([97]), LocalRef(x)], [x]), 1, [], m) == I.Named(8, [97, DOT])
  {
    var x: Text := [120];
    var i: Item := [Name([97]), LocalRef(x)];
    assert i[1..] == [LocalRef(x)] && i[1..][1..] == [];
    assert SlotOf([x], x) == 0;
    var code: Code := [ITEM, LAYER, 1, 97, DEREF, DEREF_LOCAL, 0, END_ITEM];
    assert GenLayers([], [x]) == [];
    assert GenLayers(i[1..], [x]) == [DEREF, DEREF_LOCAL, 0];
    assert GenLayers(i, [x]) == [LAYER, 1, 97, DEREF, DEREF_LOCAL, 0];
    assert GenItem(i, [x]) == code;
    assert code[3..4] == [97] && CString([97]) == [97];
    assert I.ReadLayer(code, 1, m) == I.GoodLayer(4, [97]);
    assert I.ReadLayer(code, 4, m) == I.GoodLayer(7, []);
    var name: Text := [] + [97] + [DOT];
    assert name == [97, DOT] && name + [] == name;
    assert I.ReadName(code, 4, name, m) == I.Named(8, name);
  }
}
