/**
 * The tables of children in src/item.c: an array of chains, with the hash an arbitrary function of
 * the key.
 */
module HashTables {
  import opened Options
  import opened Bytes

  datatype Entry<T> = Entry(key: Text, child: T)

  type Chain<T> = seq<Entry<T>>

  type Hash = Text -> nat

  function Bucket(h: Hash, n: nat, key: Text): (i: nat)
    requires n > 0
    ensures i < n
  {
    h(key) % n
  }

  function ChainFind<T>(c: Chain<T>, key: Text): Option<T> {
    if c == [] then None else if c[0].key == key then Some(c[0].child) else ChainFind(c[1..], key)
  }

  function ChainDelete<T>(c: Chain<T>, key: Text): Chain<T> {
    if c == [] then [] else if c[0].key == key then c[1..] else [c[0]] + ChainDelete(c[1..], key)
  }

  function Lookup<T>(h: Hash, t: seq<Chain<T>>, key: Text): Option<T>
    requires t != []
  {
    ChainFind(t[Bucket(h, |t|, key)], key)
  }

  function Put<T>(h: Hash, t: seq<Chain<T>>, e: Entry<T>): (r: seq<Chain<T>>)
    requires t != []
    ensures |r| == |t|
  {
    var i := Bucket(h, |t|, e.key);
    t[i := t[i] + [e]]
  }

  function Remove<T>(h: Hash, t: seq<Chain<T>>, key: Text): seq<Chain<T>>
    requires t != []
  {
    var i := Bucket(h, |t|, key);
    t[i := ChainDelete(t[i], key)]
  }

  /** All entries, bucket by bucket. */
  function All<T>(t: seq<Chain<T>>): Chain<T> {
    if t == [] then [] else All(t[..|t| - 1]) + t[|t| - 1]
  }

  function EmptyTable<T>(n: nat): seq<Chain<T>> { seq(n, _ => []) }

  /** A table of n buckets into which entries were put one after the other. */
  function Filled<T>(h: Hash, n: nat, es: Chain<T>): (r: seq<Chain<T>>)
    requires n > 0
    ensures |r| == n
  {
    if es == [] then EmptyTable(n) else Put(h, Filled(h, n, es[..|es| - 1]), es[|es| - 1])
  }

  // ----- what a table means -----

  predicate DistinctKeys<T>(c: Chain<T>) {
    forall i, j :: 0 <= i < j < |c| ==> c[i].key != c[j].key
  }

  /** Every entry is in the bucket of its key, and no key occurs twice. */
  predicate Proper<T>(h: Hash, t: seq<Chain<T>>) {
    t != [] && forall i :: 0 <= i < |t| ==> InBucket(h, |t|, i, t[i]) && DistinctKeys(t[i])
  }

  predicate InBucket<T>(h: Hash, n: nat, i: nat, c: Chain<T>)
    requires n > 0
  {
    forall j :: 0 <= j < |c| ==> Bucket(h, n, c[j].key) == i
  }

  function MapFind<T>(m: map<Text, T>, key: Text): Option<T> {
    if key in m then Some(m[key]) else None
  }

  ghost predicate Represents<T>(h: Hash, t: seq<Chain<T>>, m: map<Text, T>) {
    Proper(h, t) && forall key: Text :: Lookup(h, t, key) == MapFind(m, key)
  }

  /** The load factor is at most 3/4. */
  predicate Light<T>(t: seq<Chain<T>>) { 4 * |All(t)| <= 3 * |t| }

  lemma {:induction false} FindSome<T>(c: Chain<T>, key: Text)
    ensures ChainFind(c, key).None? <==> forall i :: 0 <= i < |c| ==> c[i].key != key
  {
    if c != [] {
      FindSome(c[1..], key);
      assert forall i :: 1 <= i < |c| ==> c[i] == c[1..][i - 1];
    }
  }

  lemma {:induction false} FindAppend<T>(x: Chain<T>, y: Chain<T>, key: Text)
    ensures ChainFind(x + y, key) == if ChainFind(x, key).Some? then ChainFind(x, key) else ChainFind(y, key)
  {
    if x == [] {
      assert x + y == y;
    } else {
      assert (x + y)[1..] == x[1..] + y;
      FindAppend(x[1..], y, key);
    }
  }

  lemma {:induction false} FindDeleted<T>(c: Chain<T>, key: Text, other: Text)
    requires DistinctKeys(c)
    ensures ChainFind(ChainDelete(c, key), other) == if other == key then None else ChainFind(c, other)
  {
    if c != [] {
      if c[0].key == key {
        FindSome(c[1..], key);
      } else {
        FindDeleted(c[1..], key, other);
        assert ([c[0]] + ChainDelete(c[1..], key))[1..] == ChainDelete(c[1..], key);
      }
    }
  }

  lemma {:induction false} DeletedIsProper<T>(h: Hash, n: nat, i: nat, c: Chain<T>, key: Text)
    requires n > 0 && InBucket(h, n, i, c) && DistinctKeys(c)
    ensures var d := ChainDelete(c, key);
      InBucket(h, n, i, d) && DistinctKeys(d) && |d| == |c| - (if ChainFind(c, key).Some? then 1 else 0)
      && forall e <- d :: e in c
  {
    if c != [] && c[0].key != key {
      var d := ChainDelete(c[1..], key);
      DeletedIsProper(h, n, i, c[1..], key);
      forall j | 0 <= j < |d|
        ensures Bucket(h, n, d[j].key) == i && d[j].key != c[0].key
      {
        assert d[j] in c[1..];
      }
    }
  }

  lemma PutProper<T>(h: Hash, t: seq<Chain<T>>, e: Entry<T>)
    requires Proper(h, t) && Lookup(h, t, e.key).None?
    ensures Proper(h, Put(h, t, e))
  {
    FindSome(t[Bucket(h, |t|, e.key)], e.key);
  }

  lemma PutLookup<T>(h: Hash, t: seq<Chain<T>>, e: Entry<T>, key: Text)
    requires t != []
    ensures Lookup(h, Put(h, t, e), key)
         == if Lookup(h, t, key).None? && key == e.key then Some(e.child) else Lookup(h, t, key)
  {
    if Bucket(h, |t|, key) == Bucket(h, |t|, e.key) {
      FindAppend(t[Bucket(h, |t|, key)], [e], key);
    }
  }

  /** Inserting under a new key. */
  lemma PutRepresents<T>(h: Hash, t: seq<Chain<T>>, m: map<Text, T>, e: Entry<T>)
    requires Represents(h, t, m) && e.key !in m
    ensures Represents(h, Put(h, t, e), m[e.key := e.child])
  {
    assert Lookup(h, t, e.key) == MapFind(m, e.key);
    PutProper(h, t, e);
    forall key: Text
      ensures Lookup(h, Put(h, t, e), key) == MapFind(m[e.key := e.child], key)
    {
      PutLookup(h, t, e, key);
      assert Lookup(h, t, key) == MapFind(m, key);
    }
  }

  /** Deleting takes the key away and leaves every other. */
  lemma RemoveRepresents<T>(h: Hash, t: seq<Chain<T>>, m: map<Text, T>, key: Text)
    requires Represents(h, t, m)
    ensures Represents(h, Remove(h, t, key), m - {key})
  {
    var i := Bucket(h, |t|, key);
    DeletedIsProper(h, |t|, i, t[i], key);
    forall other: Text
      ensures Lookup(h, Remove(h, t, key), other) == MapFind(m - {key}, other)
    {
      assert Lookup(h, t, other) == MapFind(m, other);
      FindDeleted(t[i], key, other);
    }
  }

  // ----- resizing -----

  lemma {:induction false} FilledLookup<T>(h: Hash, n: nat, es: Chain<T>, key: Text)
    requires n > 0
    ensures Lookup(h, Filled(h, n, es), key) == ChainFind(es, key)
  {
    if es != [] {
      var k := |es| - 1;
      FilledLookup(h, n, es[..k], key);
      PutLookup(h, Filled(h, n, es[..k]), es[k], key);
      FindAppend(es[..k], [es[k]], key);
      assert es == es[..k] + [es[k]];
    }
  }

  lemma {:induction false} FilledProper<T>(h: Hash, n: nat, es: Chain<T>)
    requires n > 0 && DistinctKeys(es)
    ensures Proper(h, Filled(h, n, es))
  {
    if es != [] {
      var k := |es| - 1;
      FilledProper(h, n, es[..k]);
      FilledLookup(h, n, es[..k], es[k].key);
      FindSome(es[..k], es[k].key);
      PutProper(h, Filled(h, n, es[..k]), es[k]);
    }
  }

  /** Entries found among the first k buckets are those whose bucket is below k. */
  lemma {:induction false} AllFind<T>(h: Hash, t: seq<Chain<T>>, k: nat, key: Text)
    requires Proper(h, t) && k <= |t|
    ensures ChainFind(All(t[..k]), key) == if Bucket(h, |t|, key) < k then Lookup(h, t, key) else None
  {
    if k > 0 {
      assert t[..k][..k - 1] == t[..k - 1];
      AllFind(h, t, k - 1, key);
      FindAppend(All(t[..k - 1]), t[k - 1], key);
      FindSome(t[k - 1], key);
    }
  }

  predicate BelowBucket<T>(h: Hash, n: nat, k: nat, c: Chain<T>)
    requires n > 0
  {
    forall i :: 0 <= i < |c| ==> Bucket(h, n, c[i].key) < k
  }

  lemma {:induction false} AllDistinct<T>(h: Hash, t: seq<Chain<T>>, k: nat)
    requires Proper(h, t) && k <= |t|
    ensures DistinctKeys(All(t[..k]))
    ensures BelowBucket(h, |t|, k, All(t[..k]))
  {
    if k > 0 {
      assert t[..k][..k - 1] == t[..k - 1];
      AllDistinct(h, t, k - 1);
      var x: Chain<T>, y: Chain<T> := All(t[..k - 1]), t[k - 1];
      assert InBucket(h, |t|, k - 1, y);
      forall i: nat, j: nat | i < j < |x + y|
        ensures (x + y)[i].key != (x + y)[j].key
      {
        assert i < |x| ==> Bucket(h, |t|, x[i].key) < k - 1;
      }
    }
  }

  lemma {:induction false} AllPut<T>(t: seq<Chain<T>>, i: nat, e: Entry<T>)
    requires i < |t|
    ensures multiset(All(t[i := t[i] + [e]])) == multiset(All(t)) + multiset{e}
    decreases |t|
  {
    var k := |t| - 1;
    var t' := t[i := t[i] + [e]];
    if i == k {
      assert t'[..k] == t[..k];
    } else {
      AllPut(t[..k], i, e);
      assert t'[..k] == t[..k][i := t[i] + [e]];
    }
  }

  lemma {:induction false} AllEmpty<T>(n: nat)
    ensures All<T>(EmptyTable(n)) == []
  {
    if n > 0 {
      assert EmptyTable<T>(n)[..n - 1] == EmptyTable<T>(n - 1);
      AllEmpty<T>(n - 1);
    }
  }

  lemma {:induction false} FilledKeeps<T>(h: Hash, n: nat, es: Chain<T>)
    requires n > 0
    ensures multiset(All(Filled(h, n, es))) == multiset(es)
  {
    if es == [] {
      AllEmpty<T>(n);
    } else {
      var k := |es| - 1;
      FilledKeeps(h, n, es[..k]);
      AllPut(Filled(h, n, es[..k]), Bucket(h, n, es[k].key), es[k]);
      assert es == es[..k] + [es[k]];
    }
  }

  /** Resizing loses and duplicates nothing, and the table still means the same. */
  lemma ResizeRepresents<T>(h: Hash, t: seq<Chain<T>>, m: map<Text, T>, n: nat)
    requires Represents(h, t, m) && n > 0
    ensures var r := Filled(h, n, All(t));
      Represents(h, r, m) && multiset(All(r)) == multiset(All(t)) && |All(r)| == |All(t)|
  {
    var r := Filled(h, n, All(t));
    assert t[..|t|] == t;
    AllDistinct(h, t, |t|);
    FilledProper(h, n, All(t));
    FilledKeeps(h, n, All(t));
    assert |multiset(All(r))| == |multiset(All(t))|;
    forall key: Text
      ensures Lookup(h, r, key) == MapFind(m, key)
    {
      FilledLookup(h, n, All(t), key);
      AllFind(h, t, |t|, key);
      assert Lookup(h, t, key) == MapFind(m, key);
    }
  }

  /** What maybe_resize_hashtable makes of a table. */
  function Grown<T>(h: Hash, t: seq<Chain<T>>): seq<Chain<T>>
    requires t != []
  {
    if Light(t) then t else Filled(h, 2 * |t| + 1, All(t))
  }

  // ----- in which order -----

  /** A new entry is the last of its bucket's chain, and no other chain changes. */
  lemma PutAtEnd<T>(h: Hash, t: seq<Chain<T>>, e: Entry<T>, i: nat)
    requires i < |t|
    ensures Put(h, t, e)[i] == if i == h(e.key) % |t| then t[i] + [e] else t[i]
  {
  }

  /** The entries whose bucket is i, in their order. */
  function Only<T>(h: Hash, n: nat, es: Chain<T>, i: nat): Chain<T>
    requires n > 0
  {
    if es == [] then []
    else Only(h, n, es[..|es| - 1], i) + if h(es[|es| - 1].key) % n == i then [es[|es| - 1]] else []
  }

  /** Resizing keeps the order of the entries, each in the chain of its new bucket. */
  lemma {:induction false} FilledInOrder<T>(h: Hash, n: nat, es: Chain<T>, i: nat)
    requires i < n
    ensures Filled(h, n, es)[i] == Only(h, n, es, i)
  {
    if es != [] {
      FilledInOrder(h, n, es[..|es| - 1], i);
    }
  }

  /** Deleting unlinks the first entry with the key and keeps the order of the others. */
  lemma {:induction false} DeletesFirst<T>(x: Chain<T>, e: Entry<T>, y: Chain<T>)
    requires ChainFind(x, e.key).None?
    ensures ChainDelete(x + [e] + y, e.key) == x + y
  {
    if x == [] {
      assert x + [e] + y == [e] + y && x + y == y;
    } else {
      assert (x + [e] + y)[0] == x[0] && (x + [e] + y)[1..] == x[1..] + [e] + y;
      DeletesFirst(x[1..], e, y);
      assert [x[0]] + (x[1..] + y) == x + y;
    }
  }

  /** A table is resized exactly when its load is over 3/4, and then to twice its size and one. */
  lemma GrownSize<T>(h: Hash, t: seq<Chain<T>>)
    requires t != []
    ensures |Grown(h, t)| == if 4 * |All(t)| > 3 * |t| then 2 * |t| + 1 else |t|
    ensures 4 * |All(t)| <= 3 * |t| ==> Grown(h, t) == t
  {
  }

  /** After every insertion the load is at most 3/4 again. */
  lemma GrownRepresents<T>(h: Hash, t: seq<Chain<T>>, m: map<Text, T>, e: Entry<T>)
    requires Represents(h, t, m) && e.key !in m && Light(t)
    ensures var r := Grown(h, Put(h, t, e));
      Represents(h, r, m[e.key := e.child]) && Light(r)
  {
    PutRepresents(h, t, m, e);
    PutCounts(h, t, e);
    hide *;
    HeavyResized(h, Put(h, t, e), m[e.key := e.child]);
  }

  lemma PutCounts<T>(h: Hash, t: seq<Chain<T>>, e: Entry<T>)
    requires t != [] && Light(t)
    ensures 4 * |All(Put(h, t, e))| <= 3 * |t| + 4
  {
    AllPut(t, Bucket(h, |t|, e.key), e);
    assert |multiset(All(Put(h, t, e)))| == |multiset(All(t)) + multiset{e}|;
  }

  lemma HeavyResized<T>(h: Hash, t: seq<Chain<T>>, m: map<Text, T>)
    requires Represents(h, t, m) && 4 * |All(t)| <= 3 * |t| + 4
    ensures t != [] && Represents(h, Grown(h, t), m) && Light(Grown(h, t))
  {
    ResizeRepresents(h, t, m, 2 * |t| + 1);
    hide Represents, All, Filled;
  }

  lemma {:induction false} AllReplaced<T>(t: seq<Chain<T>>, i: nat, c: Chain<T>)
    requires i < |t| && |c| <= |t[i]|
    ensures |All(t[i := c])| <= |All(t)|
    decreases |t|
  {
    var k := |t| - 1;
    if i == k {
      assert t[i := c][..k] == t[..k];
    } else {
      AllReplaced(t[..k], i, c);
      assert t[i := c][..k] == t[..k][i := c];
    }
  }

  lemma RemoveLight<T>(h: Hash, t: seq<Chain<T>>, key: Text)
    requires Proper(h, t) && Light(t)
    ensures Light(Remove(h, t, key))
  {
    var i := Bucket(h, |t|, key);
    DeletedIsProper(h, |t|, i, t[i], key);
    AllReplaced(t, i, ChainDelete(t[i], key));
  }

  lemma EmptyRepresents<T>(h: Hash, n: nat)
    requires n > 0
    ensures Represents(h, EmptyTable<T>(n), map[]) && Light(EmptyTable<T>(n))
  {
    AllEmpty<T>(n);
  }

  // ----- the operations, in place -----

  /** create_hashtable. */
  method Create<T>(n: nat) returns (t: array<Chain<T>>)
    requires n > 0
    ensures fresh(t) && t[..] == EmptyTable(n)
  {
    t := new Chain<T>[n](_ => []);
  }

  /** insert_hashtable: at the end of the chain. */
  method Insert<T>(h: Hash, t: array<Chain<T>>, e: Entry<T>)
    requires t.Length > 0
    modifies t
    ensures t[..] == Put(h, old(t[..]), e)
  {
    var i := h(e.key) % t.Length;
    t[i] := t[i] + [e];
  }

  /** search_hashtable. */
  method Search<T>(h: Hash, t: array<Chain<T>>, key: Text) returns (r: Option<T>)
    requires t.Length > 0
    ensures r == Lookup(h, t[..], key)
  {
    var chain := t[h(key) % t.Length];
    var j := 0;
    while j < |chain|
      invariant j <= |chain| && ChainFind(chain, key) == ChainFind(chain[j..], key)
    {
      if chain[j].key == key { return Some(chain[j].child); }
      assert chain[j..][1..] == chain[j + 1..];
      j := j + 1;
    }
    return None;
  }

  /** delete_hashtable: the first entry with the key is unlinked. */
  method Delete<T>(h: Hash, t: array<Chain<T>>, key: Text)
    requires t.Length > 0
    modifies t
    ensures t[..] == Remove(h, old(t[..]), key)
  {
    var i := h(key) % t.Length;
    var j := 0;
    while j < |t[i]|
      invariant j <= |t[i]| && t[..] == old(t[..])
      invariant ChainDelete(t[i], key) == t[i][..j] + ChainDelete(t[i][j..], key)
    {
      if t[i][j].key == key {
        assert t[i][j..][1..] == t[i][j + 1..];
        t[i] := t[i][..j] + t[i][j + 1..];
        return;
      }
      assert t[i][j..][1..] == t[i][j + 1..];
      j := j + 1;
    }
    assert t[i] == ChainDelete(t[i], key);
  }

  /** The counting loop of calculate_load_factor. */
  method Count<T>(t: array<Chain<T>>) returns (n: nat)
    ensures n == |All(t[..])|
  {
    n := 0;
    for i := 0 to t.Length
      invariant n == |All(t[..i])|
    {
      assert t[..i + 1][..i] == t[..i];
      n := n + |t[i]|;
    }
    assert t[..t.Length] == t[..];
  }

  /** resize_hashtable: every entry moves, in table order, to the end of its new chain. */
  method Resize<T>(h: Hash, t: array<Chain<T>>, n: nat) returns (r: array<Chain<T>>)
    requires n > 0
    ensures fresh(r) && r[..] == Filled(h, n, All(t[..]))
  {
    r := Create(n);
    hide Filled, All, Put, EmptyTable;
    FilledNone<T>(h, n);
    for i := 0 to t.Length
      invariant fresh(r) && r.Length == n && r[..] == Filled(h, n, All(t[..i]))
    {
      var chain := t[i];
      AllSnoc(t[..], i);
      ghost var done := All(t[..i]);
      assert t[..][..i] == t[..i] && t[..][..i + 1] == t[..i + 1];
      assert done + chain[..0] == done && done + chain[..|chain|] == All(t[..i + 1]);
      for j := 0 to |chain|
        invariant r.Length == n && r[..] == Filled(h, n, done + chain[..j])
      {
        FilledMore(h, n, done, chain, j);
        Insert(h, r, chain[j]);
      }
    }
    assert t[..t.Length] == t[..];
  }

  lemma FilledNone<T>(h: Hash, n: nat)
    requires n > 0
    ensures Filled<T>(h, n, []) == EmptyTable(n) && All<T>([]) == []
  {
  }

  lemma FilledMore<T>(h: Hash, n: nat, es: Chain<T>, c: Chain<T>, j: nat)
    requires n > 0 && j < |c|
    ensures Filled(h, n, es + c[..j + 1]) == Put(h, Filled(h, n, es + c[..j]), c[j])
  {
    assert (es + c[..j + 1])[..|es| + j] == es + c[..j];
  }

  lemma AllSnoc<T>(t: seq<Chain<T>>, i: nat)
    requires i < |t|
    ensures All(t[..i + 1]) == All(t[..i]) + t[i]
  {
    assert t[..i + 1][..i] == t[..i];
  }

  /** maybe_resize_hashtable. */
  method MaybeResize<T>(h: Hash, t: array<Chain<T>>) returns (r: array<Chain<T>>)
    requires t.Length > 0
    ensures r == t || fresh(r)
    ensures r[..] == Grown(h, t[..])
  {
    var entries := Count(t);
    if 4 * entries > 3 * t.Length {
      r := Resize(h, t, 2 * t.Length + 1);
    } else {
      r := t;
    }
  }
}
