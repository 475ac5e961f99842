/** Dotted item names, and the abstract itemstore they address. */
module Paths {
  import opened Bytes
  import opened Sequences
  import opened Values

  /** The layers of an item name, outermost first; the root is the empty path. */
  type Path = seq<Text>

  const DOT: byte := 46
  const UNDERSCORE: byte := 95
  const MINUS: byte := 45
  const MAX_LAYER := 32

  /** The length of the first layer of a dotted name. */
  function LayerLength(s: Text): (n: nat)
    ensures n <= |s| && DOT !in s[..n]
    ensures n < |s| ==> s[n] == DOT
  {
    if s == [] || s[0] == DOT then 0
    else
      var n := 1 + LayerLength(s[1..]);
      assert s[..n] == [s[0]] + s[1..][..n - 1];
      n
  }

  /** How find_item cuts a name: at each dot; nothing follows a final dot. */
  function Split(s: Text): Path
    decreases |s|
  {
    if s == [] then []
    else
      var n := LayerLength(s);
      if n == |s| then [s] else [s[..n]] + Split(s[n + 1..])
  }

  function Join(p: Path): Text {
    if p == [] then [] else if |p| == 1 then p[0] else p[0] + [DOT] + Join(p[1..])
  }

  predicate IsLayerChar(c: byte) {
    65 <= c <= 90 || 97 <= c <= 122 || 48 <= c <= 57 || c == UNDERSCORE
  }

  /** is_valid_layer accepts the empty string too. */
  predicate IsValidLayer(s: Text) {
    |s| <= MAX_LAYER && forall c <- s :: IsLayerChar(c)
  }

  /** A layer that a name can carry without being cut or merged. */
  predicate SolidLayer(s: Text) {
    s != [] && DOT !in s && 0 !in s
  }

  predicate SolidPath(p: Path) {
    forall l <- p :: SolidLayer(l)
  }

  lemma {:induction false} LayerLengthIs(s: Text, n: nat)
    requires n <= |s| && DOT !in s[..n]
    requires n < |s| ==> s[n] == DOT
    ensures LayerLength(s) == n
  {
    if n > 0 {
      assert s[..n][0] == s[0] && s[..n][1..] == s[1..][..n - 1];
      LayerLengthIs(s[1..], n - 1);
    }
  }

  /** A name built from solid layers comes apart into the same layers. */
  lemma {:induction false} SplitJoin(p: Path)
    requires SolidPath(p)
    ensures Split(Join(p)) == p
  {
    if |p| == 1 {
      assert SolidLayer(p[0]);
      assert p[0][..|p[0]|] == p[0];
      LayerLengthIs(p[0], |p[0]|);
    } else if |p| > 1 {
      var s := Join(p);
      assert SolidLayer(p[0]);
      assert s[..|p[0]|] == p[0] && s[|p[0]| + 1..] == Join(p[1..]);
      LayerLengthIs(s, |p[0]|);
      SplitJoin(p[1..]);
    }
  }

  /** Adding one layer to a name: a dot, then the layer. */
  lemma {:induction false} JoinSnoc(p: Path, l: Text)
    ensures p == [] ==> Join(p + [l]) == l
    ensures p != [] ==> Join(p + [l]) == Join(p) + [DOT] + l
  {
    if |p| == 1 {
      assert (p + [l])[1..] == [l];
    } else if |p| > 1 {
      JoinSnoc(p[1..], l);
      assert (p + [l])[1..] == p[1..] + [l];
      assert p[0] + [DOT] + (Join(p[1..]) + [DOT] + l) == p[0] + [DOT] + Join(p[1..]) + [DOT] + l;
    }
  }

  predicate EndsInDot(s: Text) { s != [] && s[|s| - 1] == DOT }

  /** The layer at the front of rest, what is left after it, and whether a dot came between them. */
  function FirstLayer(rest: Text): Text { rest[..LayerLength(rest)] }

  function AfterLayer(rest: Text): Text {
    var n := LayerLength(rest);
    if n == |rest| then [] else rest[n + 1..]
  }

  predicate LastLayer(rest: Text) { LayerLength(rest) == |rest| }

  /** One round of the loops over the layers of a name. */
  lemma SplitStep(s: Text)
    requires s != []
    ensures Split(s) == [FirstLayer(s)] + Split(AfterLayer(s)) && Split([]) == []
    ensures LastLayer(s) ==> !EndsInDot(s) && AfterLayer(s) == []
    ensures !LastLayer(s) ==> EndsInDot(s) == (AfterLayer(s) == [] || EndsInDot(AfterLayer(s)))
    ensures |AfterLayer(s)| < |s|
  {
    var n := LayerLength(s);
    if n == |s| {
      assert s[..n] == s;
    }
  }

  lemma SplitNothing(p: Path)
    ensures p + Split([]) == p
  {
  }

  lemma JoinTail(x: Text, y: Text, z: Text)
    ensures x + y == x + z <==> y == z
  {
    assert y == (x + y)[|x|..] && z == (x + z)[|x|..];
  }

  /** A name is its first layer, or that, a dot and the rest; the layers are joined in the same way. */
  lemma NameParts(s: Text)
    requires s != []
    ensures LastLayer(s) ==> FirstLayer(s) == s
    ensures !LastLayer(s) ==> FirstLayer(s) + [DOT] + AfterLayer(s) == s
  {
    var n := LayerLength(s);
    if n < |s| {
      assert s == s[..n] + [DOT] + s[n + 1..];
    } else {
      assert s[..n] == s;
    }
  }

  lemma JoinCons(l: Text, p: Path)
    ensures Join([]) == [] && (p == [] ==> Join([l] + p) == l)
    ensures p != [] ==> Join([l] + p) == l + [DOT] + Join(p)
  {
    assert ([l] + p)[1..] == p;
  }

  lemma NotShorter(x: Text, y: Text)
    ensures x != x + [DOT] + y
  {
    assert |x| < |x + [DOT] + y|;
  }

  /** A name is the join of its layers if and only if it does not end in a dot. */
  lemma {:induction false} JoinSplit(s: Text)
    ensures Join(Split(s)) == s <==> !EndsInDot(s)
    ensures s != [] ==> Split(s) != []
    decreases |s|
  {
    hide Join, Split, LayerLength, FirstLayer, AfterLayer, LastLayer;
    JoinCons([], []);
    SplitNothing([]);
    if s != [] {
      var l, rest := FirstLayer(s), AfterLayer(s);
      SplitStep(s);
      NameParts(s);
      JoinCons(l, Split(rest));
      JoinSplit(rest);
      NotShorter(l, rest);
      JoinTail(l + [DOT], Join(Split(rest)), rest);
    }
  }

  // ----- decimal numerals -----

  function Digits(n: nat): Text {
    if n < 10 then [48 + n] else Digits(n / 10) + [48 + n % 10]
  }

  /** The canonical decimal numeral. */
  function Decimal(n: int): Text {
    if n < 0 then [MINUS] + Digits(-n) else Digits(n)
  }

  function DigitsValue(s: Text): int {
    if s == [] then 0 else 10 * DigitsValue(s[..|s| - 1]) + s[|s| - 1] - 48
  }

  lemma {:induction false} DigitsAreDigits(n: nat)
    ensures Digits(n) != []
    ensures forall c <- Digits(n) :: 48 <= c <= 57
    ensures DigitsValue(Digits(n)) == n
    ensures n > 0 ==> Digits(n)[0] != 48
  {
    if n >= 10 {
      DigitsAreDigits(n / 10);
      assert Digits(n)[..|Digits(n)| - 1] == Digits(n / 10);
    }
  }

  lemma SignByte(n: int)
    ensures Decimal(n) != []
    ensures Decimal(n)[0] == MINUS <==> n < 0
  {
    DigitsAreDigits(if n < 0 then -n else n);
    assert n >= 0 ==> Decimal(n)[0] in Digits(n);
  }

  /** Distinct integers have distinct numerals, and every numeral is a solid layer. */
  lemma DecimalInjective(a: int, b: int)
    ensures Decimal(a) == Decimal(b) ==> a == b
    ensures SolidLayer(Decimal(a))
  {
    DigitsAreDigits(if a < 0 then -a else a);
    DigitsAreDigits(if b < 0 then -b else b);
    SignByte(a);
    SignByte(b);
    if Decimal(a) == Decimal(b) {
      if a < 0 {
        assert Decimal(a)[1..] == Digits(-a);
        assert Decimal(b)[1..] == Digits(-b);
      }
    }
  }

  // ----- the abstract itemstore -----

  /** An item is a value or a piece of code; C is how the code is represented. */
  datatype Content<C> = Val(v: Value) | Code(c: C)

  type Store<C> = map<Path, Content<C>>

  /** The itemstore's paths are closed under taking prefixes, and the root is always there. */
  predicate PrefixClosed<C>(s: Store<C>) {
    [] in s && forall p <- s :: forall k :: 0 <= k <= |p| ==> p[..k] in s
  }

  predicate IsPrefix(p: Path, q: Path) { p <= q }

  /** The first k layers of p that do not exist become nil items. */
  function Materialise<C>(s: Store<C>, p: Path, k: nat): Store<C>
    requires k <= |p|
  {
    if k == 0 then s else Touch(Materialise(s, p, k - 1), p[..k])
  }

  /** A missing path becomes a nil item. */
  function Touch<C>(s: Store<C>, p: Path): Store<C> { if p in s then s else s[p := Val(NIL)] }

  /** insert_item on an item that is not code: missing layers first, then the content. */
  function Insert<C>(s: Store<C>, p: Path, c: Content<C>): Store<C> {
    if p == [] then s else Materialise(s, p, |p|)[p := c]
  }

  /** insert_item by name: after a final dot there is no layer left to assign to. */
  function InsertNamed<C>(s: Store<C>, name: Text, c: Content<C>): Store<C> {
    var p := Split(name);
    if EndsInDot(name) then Materialise(s, p, |p|) else Insert(s, p, c)
  }

  lemma MaterialiseNone<C>(s: Store<C>, p: Path)
    ensures Materialise(s, p, 0) == s
  {
  }

  /** One round of the loops that make the layers of a name one after the other. */
  lemma NextLayer<C>(s: Store<C>, full: Path, done: Path, rest: Text)
    requires full == done + Split(rest) && rest != []
    ensures |done| < |full| && full == done + [FirstLayer(rest)] + Split(AfterLayer(rest))
    ensures Materialise(s, full, |done| + 1) == Touch(Materialise(s, full, |done|), done + [FirstLayer(rest)])
    ensures LastLayer(rest) ==> !EndsInDot(rest) && AfterLayer(rest) == []
    ensures !LastLayer(rest) ==> EndsInDot(rest) == (AfterLayer(rest) == [] || EndsInDot(AfterLayer(rest)))
  {
    hide *;
    SplitStep(rest);
    Regroup(done, [FirstLayer(rest)], Split(AfterLayer(rest)));
    MaterialiseNext(s, full, done, FirstLayer(rest), Split(AfterLayer(rest)));
  }

  lemma MaterialiseNext<C>(s: Store<C>, full: Path, done: Path, layer: Text, more: Path)
    requires full == done + [layer] + more
    ensures Materialise(s, full, |done| + 1) == Touch(Materialise(s, full, |done|), done + [layer])
  {
    assert full[..|done| + 1] == done + [layer];
  }

  lemma MaterialiseThere<C>(s: Store<C>, p: Path)
    requires PrefixClosed(s)
    ensures p in s ==> Materialise(s, p, |p|) == s
  {
    if p in s {
      MaterialiseExisting(s, p, |p|);
    }
  }

  lemma InsertNamedCases<C>(s: Store<C>, name: Text, c: Content<C>)
    ensures var p := Split(name);
      InsertNamed(s, name, c) == if name == [] || EndsInDot(name) then Materialise(s, p, |p|)
                                 else Materialise(s, p, |p|)[p := c]
    ensures name != [] ==> Split(name) != []
  {
  }

  /** What extends p by one layer and not before is p itself. */
  lemma PrefixSnoc(p: Path, q: Path, l: Text)
    requires IsPrefix(p, q + [l]) && !IsPrefix(p, q)
    ensures p == q + [l]
  {
    forall k | 0 <= k <= |q|
      ensures (q + [l])[..k] == q[..k]
    {
    }
  }

  /** Nothing is missing on the way to a path that is there. */
  lemma {:induction false} MaterialiseExisting<C>(s: Store<C>, p: Path, k: nat)
    requires PrefixClosed(s) && p in s && k <= |p|
    ensures Materialise(s, p, k) == s
  {
    if k > 0 {
      MaterialiseExisting(s, p, k - 1);
      assert p[..k] in s;
    }
  }

  function Delete<C>(s: Store<C>, p: Path): Store<C> {
    map q | q in s && !IsPrefix(p, q) :: s[q]
  }

  /** Every path keeps its content; a missing prefix of p becomes nil; no other path appears. */
  lemma {:induction false} MaterialiseAt<C>(s: Store<C>, p: Path, k: nat, q: Path)
    requires k <= |p|
    ensures q in Materialise(s, p, k) <==> q in s || (1 <= |q| <= k && IsPrefix(q, p))
    ensures q in s ==> Materialise(s, p, k)[q] == s[q]
    ensures q in Materialise(s, p, k) && q !in s ==> Materialise(s, p, k)[q] == Val(NIL)
  {
    if k > 0 {
      MaterialiseAt(s, p, k - 1, q);
      MaterialiseAt(s, p, k - 1, p[..k]);
      assert |q| == k && IsPrefix(q, p) ==> q == p[..k];
    }
  }

  /** Assigning to p changes p, creates exactly the missing prefixes as nil, and nothing else. */
  lemma InsertAt<C>(s: Store<C>, p: Path, c: Content<C>, q: Path)
    requires p != []
    ensures q in Insert(s, p, c) <==> q in s || (q != [] && IsPrefix(q, p))
    ensures Insert(s, p, c)[p] == c
    ensures q != p && q in s ==> Insert(s, p, c)[q] == s[q]
    ensures q != p && q !in s && q != [] && IsPrefix(q, p) ==> Insert(s, p, c)[q] == Val(NIL)
  {
    MaterialiseAt(s, p, |p|, q);
  }

  lemma InsertPrefixClosed<C>(s: Store<C>, p: Path, c: Content<C>)
    requires PrefixClosed(s)
    ensures PrefixClosed(Insert(s, p, c))
  {
    if p != [] {
      InsertAt(s, p, c, []);
      forall q, k | q in Insert(s, p, c) && 0 <= k <= |q|
        ensures q[..k] in Insert(s, p, c)
      {
        InsertAt(s, p, c, q);
        InsertAt(s, p, c, q[..k]);
      }
    }
  }

  /** Every layer of every path could be written in a name. */
  predicate SolidStore<C>(s: Store<C>) { forall p <- s :: SolidPath(p) }

  lemma InsertNamedSolid<C>(s: Store<C>, name: Text, c: Content<C>)
    requires SolidStore(s) && SolidPath(Split(name))
    ensures SolidStore(InsertNamed(s, name, c))
  {
    var p := Split(name);
    forall q | q in InsertNamed(s, name, c)
      ensures SolidPath(q)
    {
      MaterialiseAt(s, p, |p|, q);
      if q !in s {
        assert forall l <- q :: l in p;
      }
    }
  }

  lemma DeletePrefixClosed<C>(s: Store<C>, p: Path)
    requires PrefixClosed(s) && p != []
    ensures PrefixClosed(Delete(s, p))
  {
    assert !IsPrefix(p, []);
  }
}
