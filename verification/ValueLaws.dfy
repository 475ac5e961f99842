/** What the operators of src/interpret.c amount to, and exactly where they differ from what is expected of them. */
module ValueLaws {
  import opened Bytes
  import opened Values

  // ----- what each operator gives; u stands for the bits of a string's address, used as a number -----

  const WORDS := 0x1_0000_0000_0000_0000

  /** What a machine word keeps of the number n: n itself if and only if it fits, and n modulo 2^64 always. */
  predicate IntOf(v: Value, n: int) {
    v.Int? && (v.i - n) % WORDS == 0 && (v.i == n <==> -0x8000_0000_0000_0000 <= n < 0x8000_0000_0000_0000)
  }

  lemma WrapIs(n: int)
    ensures IntOf(Int(Wrap64(n)), n)
  {
    var x := n + 0x8000_0000_0000_0000;
    assert x == x / WORDS * WORDS + x % WORDS;
    assert Wrap64(n) - n == -(x / WORDS) * WORDS;
  }

  /** So there is only one such value. */
  lemma IntOfOne(v: Value, w: Value, n: int)
    requires IntOf(v, n) && IntOf(w, n)
    ensures v == w
  {
    hide IntOf;
    IntOfResidue(v, n);
    IntOfResidue(w, n);
    NegatedMultiple(w.i - n);
    SumOfMultiples(v.i - n, -(w.i - n));
    SmallMultiple(v.i - w.i);
  }

  lemma IntOfResidue(v: Value, n: int)
    requires IntOf(v, n)
    ensures v.Int? && (v.i - n) % WORDS == 0
  {
  }

  lemma NegatedMultiple(a: int)
    requires a % WORDS == 0
    ensures (-a) % WORDS == 0
  {
  }

  /** The left operand is the one pushed first: a + b, a - b, a * b. */
  lemma IntArithmetic(a: Word, b: Word, u: Word)
    ensures IntOf(Apply(Add, Int(a), Int(b), u), a + b)
    ensures IntOf(Apply(Sub, Int(a), Int(b), u), a - b)
    ensures IntOf(Apply(Mul, Int(a), Int(b), u), a * b)
    ensures IntOf(Negate(Int(a)), 0 - a)
    ensures IntOf(Increment(Int(a), b), a + b)
  {
    WrapIs(a + b);
    WrapIs(a - b);
    WrapIs(a * b);
    WrapIs(0 - a);
  }

  /** 5 - 3 is 2, and so is every difference that fits. */
  lemma DifferenceFits(a: Word, b: Word, u: Word)
    requires -0x8000_0000_0000_0000 <= a - b < 0x8000_0000_0000_0000
    ensures Apply(Sub, Int(a), Int(b), u) == Int(a - b)
  {
    IntArithmetic(a, b, u);
  }

  /** Adding undoes subtracting, whatever wrapped. */
  lemma SubtractThenAdd(x: Value, y: Value, u: Word)
    requires x.Int? && y.Int?
    ensures Apply(Add, Apply(Sub, x, y, u), y, u) == x
  {
    var d := Apply(Sub, x, y, u);
    IntArithmetic(x.i, y.i, u);
    IntArithmetic(d.i, y.i, u);
    hide Apply;
    var s := Apply(Add, d, y, u);
    SumOfMultiples(s.i - (d.i + y.i), d.i - (x.i - y.i));
    SmallMultiple(s.i - x.i);
  }

  lemma SmallMultiple(n: int)
    requires -WORDS < n < WORDS && n % WORDS == 0
    ensures n == 0
  {
  }

  lemma SumOfMultiples(a: int, b: int)
    requires a % WORDS == 0 && b % WORDS == 0
    ensures (a + b) % WORDS == 0
  {
  }

  /** A left operand that is no int is read as the number in its payload; a right one spoils the result. */
  lemma OtherOperands(op: BinOp, y: Word, v2: Value, v1: Value, u: Word)
    requires op in {Sub, Mul, Div}
    ensures v2.Bool? ==> Apply(op, v2, Int(y), u) == Apply(op, Int(v2.b), Int(y), u)
    ensures v2.Nil? ==> Apply(op, v2, Int(y), u) == Apply(op, Int(v2.bits), Int(y), u)
    ensures v2.Str? ==> Apply(op, v2, Int(y), u) == Apply(op, Int(u), Int(y), u)
    ensures !v1.Int? ==> Apply(op, v2, v1, u) == if op == Div then Int(0) else NIL
  {
  }

  /** Strings are joined left before right; a nil adds its payload; anything else cannot be added. */
  lemma Sums(s: Text, t: Text, bits: Word, y: Word, v2: Value, v1: Value, u: Word)
    ensures Apply(Add, Str(s), Str(t), u) == Str(s + t)
    ensures Apply(Add, Nil(bits), Int(y), u) == Apply(Add, Int(bits), Int(y), u)
    ensures Apply(Add, Int(y), Nil(bits), u) == Apply(Add, Int(y), Int(bits), u)
    ensures Apply(Add, Nil(bits), Nil(y), u) == Apply(Add, Int(bits), Int(y), u)
    ensures (v2.Str? != v1.Str?) || v2.Bool? || v1.Bool? ==> Apply(Add, v2, v1, u) == NIL
  {
  }

  /** Equal is being the same value, except for nil. */
  lemma EqualIsSame(v2: Value, v1: Value, u: Word)
    ensures Apply(Eq, v2, v1, u) == Truth(v2 == v1 && !v2.Nil?)
    ensures Apply(Ne, v2, v1, u) == Truth(v2 != v1 && !(v2.Nil? && v1.Nil?))
  {
  }

  /** The orderings compare left with right. */
  lemma OrderingsCompare(a: Word, b: Word, u: Word)
    ensures Apply(Lt, Int(a), Int(b), u) == Apply(Lt, Bool(a), Bool(b), u) == Truth(a < b)
    ensures Apply(Le, Int(a), Int(b), u) == Apply(Le, Bool(a), Bool(b), u) == Truth(a <= b)
    ensures Apply(Gt, Int(a), Int(b), u) == Apply(Gt, Bool(a), Bool(b), u) == Truth(b < a)
    ensures Apply(Ge, Int(a), Int(b), u) == Apply(Ge, Bool(a), Bool(b), u) == Truth(b <= a)
  {
  }

  lemma NothingElseIsOrdered(op: BinOp, v2: Value, v1: Value, u: Word)
    requires op in {Lt, Le, Gt, Ge} && !(v2.Int? && v1.Int?) && !(v2.Bool? && v1.Bool?)
    ensures Apply(op, v2, v1, u) == Truth(false)
  {
  }

  /** What and, or and not take for true. */
  predicate Holds(v: Value) { v.Str? || (v.Int? && v.i != 0) || (v.Bool? && v.b != 0) }

  lemma Logic(v2: Value, v1: Value, u: Word)
    ensures Apply(And, v2, v1, u) == Truth(Holds(v2) && Holds(v1))
    ensures Apply(Or, v2, v1, u) == Truth(Holds(v2) || Holds(v1))
    ensures LogicalNot(v1) == Truth(!Holds(v1))
    ensures Truth(true) != Truth(false) && Holds(Truth(true)) && !Holds(Truth(false))
  {
  }

  /** What a jump takes for true: not a zero, a nil or an empty string. */
  lemma Conditions(v: Value)
    ensures IsTrue(v) <==> v != Int(0) && v != Bool(0) && v != Str([]) && !v.Nil?
    ensures !v.Int? ==> Negate(v) == v && Increment(v, 1) == v && Increment(v, -1) == v
  {
  }

  /** op_notequal is the reverse of op_equal if and only if the operands are not both nil. */
  lemma NotEqualReversesEqual(v2: Value, v1: Value)
    ensures Apply(Ne, v2, v1, 0) == LogicalNot(Apply(Eq, v2, v1, 0)) <==> !(v1.Nil? && v2.Nil?)
    ensures Equal(v2, v1) == Equal(v1, v2) && NotEqual(v2, v1) == NotEqual(v1, v2)
  {
  }

  /** On two ints or two bools the orderings are one total order; on anything else all four are false. */
  lemma OrderingsAgree(v2: Value, v1: Value)
    ensures Apply(Lt, v2, v1, 0) == Apply(Gt, v1, v2, 0) && Apply(Le, v2, v1, 0) == Apply(Ge, v1, v2, 0)
    ensures Apply(Lt, v2, v1, 0) == LogicalNot(Apply(Ge, v2, v1, 0)) <==> Ordered(v1, v2)
    ensures Apply(Le, v2, v1, 0) == Truth(Apply(Lt, v2, v1, 0) == Truth(true) || (Ordered(v1, v2) && Equal(v2, v1)))
  {
  }

  /** and, or and not obey De Morgan's law on values of every type. */
  lemma DeMorgan(v2: Value, v1: Value)
    ensures LogicalNot(Apply(And, v2, v1, 0)) == Apply(Or, LogicalNot(v2), LogicalNot(v1), 0)
    ensures LogicalNot(LogicalNot(v1)) == Truth(ToBool(v1).b != 0)
  {
  }

  /** A jump takes a value for true exactly when `and` and `or` do, if and only if it is not the empty string. */
  lemma JumpsAgreeWithLogic(v: Value)
    ensures (IsTrue(v) <==> ToBool(v).b != 0) <==> v != Str([])
  {
  }

  /** C division: the quotient truncates toward zero, and the remainder has the dividend's sign. */
  lemma QuotientTruncates(a: int, b: int)
    requires b != 0
    ensures var r := a - Quotient(a, b) * b;
      -(if b < 0 then -b else b) < r < (if b < 0 then -b else b) && (a >= 0 ==> r >= 0) && (a <= 0 ==> r <= 0)
  {
    hide Quotient;
    if a >= 0 {
      QuotientOfNat(a, b);
    } else {
      QuotientOfNat(-a, b);
      QuotientOfNegative(a, b);
    }
  }

  lemma QuotientOfNat(n: nat, b: int)
    requires b != 0
    ensures 0 <= n - Quotient(n, b) * b < if b < 0 then -b else b
  {
  }

  lemma QuotientOfNegative(a: int, b: int)
    requires b != 0 && a < 0
    ensures Quotient(a, b) * b == -(Quotient(-a, b) * b)
  {
    assert Quotient(a, b) == -Quotient(-a, b);
    hide Quotient;
    MinusTimes(Quotient(-a, b), b);
  }

  lemma MinusTimes(q: int, b: int)
    ensures (-q) * b == -(q * b)
  {
  }

  /** Division of ints is exact C division, if and only if the quotient is representable; by zero it gives 0. */
  lemma DivisionWraps(x: Word, y: Word)
    ensures y == 0 ==> Apply(Div, Int(x), Int(y), 0) == Int(0)
    ensures y != 0 ==>
      (Apply(Div, Int(x), Int(y), 0) == Int(Wrap64(Quotient(x, y)))
       && (Wrap64(Quotient(x, y)) == Quotient(x, y) <==> !(x == -0x8000_0000_0000_0000 && y == -1)))
  {
    if y != 0 {
      QuotientBounded(x, y);
    }
  }

  lemma QuotientBounded(a: int, b: int)
    requires b != 0
    ensures var m := if a < 0 then -a else a;
      -m <= Quotient(a, b) <= m && (b != 1 && b != -1 && m > 0 ==> -m < Quotient(a, b) < m)
    ensures b == -1 ==> Quotient(a, b) == -a
    ensures b == 1 ==> Quotient(a, b) == a
  {
    var m := if a < 0 then -a else a;
    if b > 0 {
      DivisionShrinks(m, b);
    } else {
      assert m / b == -(m / -b);
      DivisionShrinks(m, -b);
    }
  }

  lemma DivisionShrinks(m: nat, c: nat)
    requires c > 0
    ensures 0 <= m / c <= m && (c > 1 && m > 0 ==> m / c < m) && (c == 1 ==> m / c == m)
  {
    var q := m / c;
    assert q * c <= m && q >= 0;
    assert q * c == q + q * (c - 1);
    TimesAtLeast(q, c - 1);
  }

  lemma TimesAtLeast(q: nat, k: nat)
    ensures q * k >= 0 && (k > 0 ==> q * k >= q)
  {
    if k > 0 {
      assert q * k == q * (k - 1) + q;
    }
  }

  /** The result is an int whenever the top operand is one; division gives an int of everything. */
  lemma ArithmeticTypes(op: BinOp, v2: Value, v1: Value, address: Word)
    requires op in {Sub, Mul, Div}
    ensures Apply(op, v2, v1, address).Int? <==> op == Div || v1.Int?
    ensures !Apply(op, v2, v1, address).Int? ==> Apply(op, v2, v1, address) == NIL
  {
  }

  /** The increment instruction is adding an int, if and only if the local holds an int. */
  lemma IncrementIsAdd(v: Value, delta: Word)
    ensures Increment(v, delta) == Apply(Add, v, Int(delta), 0) <==> v.Int?
  {
  }
}
