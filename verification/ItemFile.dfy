/** The itemstore file of src/item.c: write_item and read_item as bytes. */
module ItemFile {
  import opened Options
  import opened Bytes
  import opened Sequences
  import opened Values
  import opened Paths
  import opened HashTables
  import opened Items

  /** An item and everything below it. */
  datatype Tree = Node(name: Text, content: Content<Bytecode>, children: seq<Tree>)

  /** The paths of a tree whose top is at p, and of the trees below p. */
  function Flat(t: Tree, p: Path): Store<Bytecode> {
    FlatAll(t.children, p)[p := t.content]
  }

  function FlatAll(ts: seq<Tree>, p: Path): Store<Bytecode> {
    if ts == [] then map[]
    else FlatAll(ts[..|ts| - 1], p) + Flat(ts[|ts| - 1], p + [ts[|ts| - 1].name])
  }

  // ----- the bytes -----

  const NAME_SIZE := 33
  const ITEM_VALUE := 0
  const ITEM_CODE := 1

  function Zeros(n: nat): seq<byte> { seq(n, _ => 0) }

  /** A name in 33 bytes, padded with NULs by strncpy. */
  function NameField(name: Text): (s: seq<byte>)
    requires |name| < NAME_SIZE
    ensures |s| == NAME_SIZE
  {
    name + Zeros(NAME_SIZE - |name|)
  }

  function TagOf(v: Value): nat {
    match v case Int(_) => 0 case Str(_) => 1 case Nil(_) => 2 case Bool(_) => 3
  }

  function ValueField(v: Value): seq<byte> {
    Encode(4, TagOf(v)) + if v.Str? then Encode(4, |v.s|) + v.s else Int64(Payload(v, 0))
  }

  function ContentField(c: Content<Bytecode>): seq<byte> {
    match c
    case Val(v) => Encode(4, ITEM_VALUE) + ValueField(v)
    case Code(b) => Encode(4, ITEM_CODE) + (Encode(4, |b|) + b)
  }

  predicate WritableContent(c: Content<Bytecode>) {
    match c
    case Val(v) => v.Str? ==> 0 !in v.s && |v.s| < 0x8000_0000
    case Code(b) => |b| < 0x1_0000_0000
  }

  predicate WritableName(name: Text) { |name| < NAME_SIZE && 0 !in name }

  predicate Writable(t: Tree) {
    && WritableName(t.name) && WritableContent(t.content) && |t.children| < 0x1_0000_0000
    && (forall c <- t.children :: Writable(c)) && DistinctNames(t.children)
  }

  predicate AllWritableTrees(ts: seq<Tree>) { forall c <- ts :: Writable(c) }

  predicate DistinctNames(ts: seq<Tree>) {
    forall i, j :: 0 <= i < j < |ts| ==> ts[i].name != ts[j].name
  }

  function Header(name: Text, c: Content<Bytecode>, children: nat): seq<byte>
    requires |name| < NAME_SIZE
  {
    NameField(name) + ContentField(c) + Encode(4, children)
  }

  /** write_item: the item, then its children. */
  function Written(t: Tree): seq<byte>
    requires Writable(t)
  {
    Header(t.name, t.content, |t.children|) + WrittenAll(t.children)
  }

  function WrittenAll(ts: seq<Tree>): seq<byte>
    requires AllWritableTrees(ts)
  {
    if ts == [] then [] else WrittenAll(ts[..|ts| - 1]) + Written(ts[|ts| - 1])
  }

  /** The format, byte by byte: types and counts in four bytes, low byte first, numbers in eight. */
  lemma FieldBytes(v: Value, b: Bytecode)
    ensures ContentField(Content.Code(b)) == [1, 0, 0, 0] + (Encode(4, |b|) + b)
    ensures v.Int? ==> ContentField(Val(v)) == [0, 0, 0, 0] + ([0, 0, 0, 0] + Int64(v.i))
    ensures v.Str? ==> ContentField(Val(v)) == [0, 0, 0, 0] + ([1, 0, 0, 0] + (Encode(4, |v.s|) + v.s))
    ensures v.Nil? ==> ContentField(Val(v)) == [0, 0, 0, 0] + ([2, 0, 0, 0] + Int64(v.bits))
    ensures v.Bool? ==> ContentField(Val(v)) == [0, 0, 0, 0] + ([3, 0, 0, 0] + Int64(v.b))
  {
    hide Int64;
    SmallCount(0);
    SmallCount(1);
    SmallCount(2);
    SmallCount(3);
    hide Encode;
    assert v.Str? ==> Encode(4, 1) + Encode(4, |v.s|) + v.s == Encode(4, 1) + (Encode(4, |v.s|) + v.s);
  }

  lemma SmallCount(n: byte)
    ensures Encode(4, n) == [n, 0, 0, 0]
  {
    assert Encode(0, 0) == [] && Encode(1, 0) == [0] && Encode(2, 0) == [0, 0] && Encode(3, 0) == [0, 0, 0];
  }

  // ----- reading -----

  function Count(s: seq<byte>): nat
    requires |s| >= 4
  {
    Decode(s[..4])
  }

  /** The bytes of a value after its tag, and how many of them there are. */
  function ParsePayload(tag: nat, s: seq<byte>): Option<(Value, nat)> {
    if tag == 1 then
      if |s| < 4 || |s| < 4 + Count(s) then None else Some((Str(CString(s[4..4 + Count(s)])), 4 + Count(s)))
    else if |s| < 8 || tag > 3 then None
    else
      var i := Signed64(s[..8]);
      Some((if tag == 0 then Int(i) else if tag == 2 then Nil(i) else Bool(i), 8))
  }

  /** A content field, and its length; files that end too early are not part of this model. */
  function ParseContent(s: seq<byte>): Option<(Content<Bytecode>, nat)> {
    if |s| < 8 then None
    else if Count(s) == ITEM_VALUE then
      var v := ParsePayload(Count(s[4..]), s[8..]);
      if v.None? then None else Some((Val(v.value.0), 8 + v.value.1))
    else if |s| < 8 + Count(s[4..]) then None
    else Some((Content.Code(s[8..8 + Count(s[4..])]), 8 + Count(s[4..])))
  }

  lemma CountEncoded(n: nat, rest: seq<byte>)
    requires n < 0x1_0000_0000
    ensures |Encode(4, n) + rest| >= 4 && Count(Encode(4, n) + rest) == n && (Encode(4, n) + rest)[4..] == rest
  {
    Pow256Eight();
    DecodeEncode(4, n);
    assert (Encode(4, n) + rest)[..4] == Encode(4, n);
  }

  lemma PayloadRoundTrip(v: Value, rest: seq<byte>)
    requires WritableContent(Val(v))
    ensures var field := if v.Str? then Encode(4, |v.s|) + v.s else Int64(Payload(v, 0));
      ParsePayload(TagOf(v), field + rest) == Some((v, |field|))
  {
    if v.Str? {
      CountEncoded(|v.s|, v.s + rest);
      Regroup(Encode(4, |v.s|), v.s, rest);
      var s := Encode(4, |v.s|) + v.s + rest;
      assert s[4..][..|v.s|] == v.s && s[4..4 + |v.s|] == s[4..][..|v.s|];
    } else {
      var i := Payload(v, 0);
      assert (Int64(i) + rest)[..8] == Int64(i);
      Signed64OfInt64(i);
    }
  }

  lemma ContentRoundTrip(c: Content<Bytecode>, rest: seq<byte>)
    requires WritableContent(c)
    ensures ParseContent(ContentField(c) + rest) == Some((c, |ContentField(c)|))
  {
    match c
    case Val(v) =>
      var field := if v.Str? then Encode(4, |v.s|) + v.s else Int64(Payload(v, 0));
      CountEncoded(ITEM_VALUE, Encode(4, TagOf(v)) + field + rest);
      CountEncoded(TagOf(v), field + rest);
      PayloadRoundTrip(v, rest);
      Regroup(Encode(4, ITEM_VALUE), Encode(4, TagOf(v)) + field, rest);
      Regroup(Encode(4, TagOf(v)), field, rest);
      var s := ContentField(c) + rest;
      assert s[4..] == Encode(4, TagOf(v)) + (field + rest) && s[8..] == s[4..][4..];
    case Code(b) =>
      CountEncoded(ITEM_CODE, Encode(4, |b|) + b + rest);
      CountEncoded(|b|, b + rest);
      Regroup(Encode(4, ITEM_CODE), Encode(4, |b|) + b, rest);
      Regroup(Encode(4, |b|), b, rest);
      var s := ContentField(c) + rest;
      assert s[8..] == s[4..][4..] == b + rest;
      assert s[8..8 + |b|] == s[8..][..|b|] == b;
  }

  lemma {:induction false} CStringPadded(name: Text, n: nat)
    requires 0 !in name && n > 0
    ensures CString(name + Zeros(n)) == name
  {
    if name != [] {
      assert (name + Zeros(n))[1..] == name[1..] + Zeros(n);
      CStringPadded(name[1..], n);
    }
  }

  /** What read_item reads before the children: name, content, number of children, and the length of it all. */
  function ParseHeader(s: seq<byte>): Option<(Text, Content<Bytecode>, nat, nat)> {
    if |s| < NAME_SIZE then None
    else
      var c := ParseContent(s[NAME_SIZE..]);
      if c.None? || |s| < NAME_SIZE + c.value.1 + 4 then None
      else
        var at := NAME_SIZE + c.value.1;
        Some((CString(s[..NAME_SIZE - 1]), c.value.0, Count(s[at..]), at + 4))
  }

  lemma HeaderRoundTrip(name: Text, c: Content<Bytecode>, children: nat, rest: seq<byte>)
    requires WritableName(name) && WritableContent(c) && children < 0x1_0000_0000
    ensures var h := Header(name, c, children);
      ParseHeader(h + rest) == Some((name, c, children, |h|))
  {
    var x, y, z := NameField(name), ContentField(c), Encode(4, children);
    var s := x + y + z + rest;
    hide NameField, ContentField, Encode, ParseContent, Count, CString;
    Regroup(x + y, z, rest);
    Regroup(x, y, z + rest);
    assert s == x + (y + (z + rest)) && s == (x + y) + (z + rest);
    CutAt(x, y + (z + rest));
    CutAt(x + y, z + rest);
    ContentRoundTrip(c, z + rest);
    CountEncoded(children, rest);
    NamePadded(name);
    assert s[..NAME_SIZE - 1] == s[..NAME_SIZE][..NAME_SIZE - 1];
  }

  lemma NamePadded(name: Text)
    requires WritableName(name)
    ensures CString(NameField(name)[..NAME_SIZE - 1]) == name
  {
    var n := NAME_SIZE - 1 - |name|;
    if n > 0 {
      assert NameField(name)[..NAME_SIZE - 1] == name + Zeros(n);
      CStringPadded(name, n);
    } else {
      assert NameField(name)[..NAME_SIZE - 1] == name;
    }
  }

  // ----- writing -----

  /** Names, contents and numbers of children all fit their fields. */
  ghost predicate AllWritable(store: Itemstore)
    requires store.Valid()
    reads store, store.items, store.owner.Keys
  {
    forall x <- store.items :: WritableItem(x)
  }

  ghost predicate WritableItem(x: Item)
    reads x, x.children
  {
    WritableName(x.name) && WritableContent(x.Holds()) && |All(x.children[..])| < 0x1_0000_0000
  }

  /** What a store holds at p and below. */
  function Below(s: Store<Bytecode>, p: Path): Store<Bytecode> {
    map q | q in s && IsPrefix(p, q) :: s[q]
  }

  predicate HasKey(es: Chain<Item>, key: Text) { exists i :: 0 <= i < |es| && es[i].key == key }

  /** What a store holds below p, down from the children that es lists. */
  function BelowKeys(s: Store<Bytecode>, p: Path, es: Chain<Item>): Store<Bytecode> {
    map q | q in s && IsPrefix(p, q) && |p| < |q| && HasKey(es, q[|p|]) :: s[q]
  }

  /** The children es of the item at p have been written, as the trees ts, after head. */
  ghost predicate Saved(s: Store<Bytecode>, p: Path, es: Chain<Item>, ts: seq<Tree>, head: seq<byte>, file: seq<byte>) {
    && |ts| == |es| && AllWritableTrees(ts) && (forall i :: 0 <= i < |es| ==> ts[i].name == es[i].key)
    && file == head + WrittenAll(ts) && FlatAll(ts, p) == BelowKeys(s, p, es)
  }

  lemma SavedNone(s: Store<Bytecode>, p: Path, head: seq<byte>)
    ensures Saved(s, p, [], [], head, head)
  {
    assert BelowKeys(s, p, []) == map[];
    assert head + [] == head;
  }

  lemma SavedMore(s: Store<Bytecode>, p: Path, es: Chain<Item>, ts: seq<Tree>, head: seq<byte>, file: seq<byte>,
                  e: Entry<Item>, t: Tree)
    requires Saved(s, p, es, ts, head, file) && Writable(t) && t.name == e.key
    requires Flat(t, p + [e.key]) == Below(s, p + [e.key])
    ensures Saved(s, p, es + [e], ts + [t], head, file + Written(t))
  {
    hide Writable, Flat, Written;
    assert (ts + [t])[..|ts|] == ts;
    Regroup(head, WrittenAll(ts), Written(t));
    BelowMore(s, p, es, e);
  }

  lemma BelowMore(s: Store<Bytecode>, p: Path, es: Chain<Item>, e: Entry<Item>)
    ensures BelowKeys(s, p, es + [e]) == BelowKeys(s, p, es) + Below(s, p + [e.key])
  {
    forall q: Path
      ensures IsPrefix(p + [e.key], q) <==> IsPrefix(p, q) && |p| < |q| && q[|p|] == e.key
    {
      if IsPrefix(p, q) && |p| < |q| {
        assert q[..|p| + 1] == p + [q[|p|]];
      }
    }
    forall key
      ensures HasKey(es + [e], key) <==> HasKey(es, key) || key == e.key
    {
      if HasKey(es, key) {
        var i :| 0 <= i < |es| && es[i].key == key;
        assert (es + [e])[i].key == key;
      }
      assert (es + [e])[|es|].key == e.key;
    }
  }

  /** What the table of x says about its j-th entry in bucket i. */
  lemma EntryIsChild(store: Itemstore, x: Item, i: nat, j: nat)
    requires store.Valid() && x in store.items && i < x.children.Length && j < |x.children[i]|
    ensures var e := x.children[i][j];
      e.child in store.items && e.child.name == e.key && e.child.path == x.path + [e.key]
  {
    hide Item.TableOk, Itemstore.LinksOk;
    store.AtPath(x);
    EntryInTable(store.hash, x, i, j);
    ChildLinks(store, x, x.children[i][j].key);
  }

  lemma EntryInTable(hash: Hash, x: Item, i: nat, j: nat)
    requires x.TableOk(hash) && i < x.children.Length && j < |x.children[i]|
    ensures var e := x.children[i][j]; e.key in x.kids && x.kids[e.key] == e.child
  {
    var t := x.children[..];
    FindAt(t[i], j);
    assert Lookup(hash, t, t[i][j].key) == MapFind(x.kids, t[i][j].key);
  }

  lemma {:induction false} FindAt(c: Chain<Item>, j: nat)
    requires DistinctKeys(c) && j < |c|
    ensures ChainFind(c, c[j].key) == Some(c[j].child)
  {
    if j > 0 {
      FindAt(c[1..], j - 1);
    }
  }

  lemma ChildLinks(store: Itemstore, x: Item, k: Text)
    requires store.Valid() && x in store.items && k in x.kids
    ensures var y := x.kids[k]; y in store.items && y.name == k && y.path == x.path + [k]
  {
    hide Item.TableOk;
    assert store.LinksOk(x);
    assert store.LinksOk(x.kids[k]);
  }

  /** All entries of the table lead to everything below x. */
  lemma AllBelow(store: Itemstore, x: Item)
    requires store.Valid() && x in store.items
    ensures var es := All(x.children[..]);
      DistinctKeys(es) && BelowKeys(store.Abs(), x.path, es)[x.path := x.Holds()] == Below(store.Abs(), x.path)
  {
    hide *;
    store.AtPath(x);
    KeysOfTable(store.hash, x);
    BelowIsBelowKeys(store, x);
  }

  lemma KeysOfTable(hash: Hash, x: Item)
    requires x.TableOk(hash)
    ensures DistinctKeys(All(x.children[..]))
    ensures forall l: Text :: HasKey(All(x.children[..]), l) <==> l in x.kids
  {
    var t := x.children[..];
    assert t[..|t|] == t;
    AllDistinct(hash, t, |t|);
    forall l: Text
      ensures HasKey(All(t), l) <==> l in x.kids
    {
      AllFind(hash, t, |t|, l);
      FindSome(All(t), l);
      assert Lookup(hash, t, l) == MapFind(x.kids, l);
    }
  }

  lemma BelowIsBelowKeys(store: Itemstore, x: Item)
    requires store.Valid() && x in store.items
    requires forall l: Text :: HasKey(All(x.children[..]), l) <==> l in x.kids
    ensures BelowKeys(store.Abs(), x.path, All(x.children[..]))[x.path := x.Holds()] == Below(store.Abs(), x.path)
  {
    hide Item.TableOk, Itemstore.LinksOk, HasKey, All, Item.Holds;
    var p := x.path;
    store.AtPath(x);
    forall q | q in store.at && IsPrefix(p, q) && |p| < |q|
      ensures HasKey(All(x.children[..]), q[|p|])
    {
      store.PathsClosed(q, |p| + 1);
      assert q[..|p| + 1] == p + [q[|p|]];
      store.ChildAt(p, q[|p|]);
    }
    assert forall q :: IsPrefix(p, q) && |q| <= |p| ==> q == p;
  }

  /** write_item. The depth bounds how far the paths reach below x. */
  method WriteItem(store: Itemstore, x: Item, ghost depth: nat) returns (file: seq<byte>, ghost t: Tree)
    requires store.Valid() && x in store.items && AllWritable(store)
    requires forall q <- store.at :: |q| <= |x.path| + depth
    ensures Writable(t) && file == Written(t) && t.name == x.name
    ensures Flat(t, x.path) == Below(store.Abs(), x.path)
    decreases depth
  {
    hide *;
    ItemWritable(store, x);
    AllBelow(store, x);
    ghost var abs := store.Abs();
    var entries := HashTables.Count(x.children);
    file := Header(x.name, x.Holds(), entries);
    ghost var head := file;
    ghost var ts: seq<Tree>, es: Chain<Item> := [], [];
    SavedNone(abs, x.path, head);
    AllNone(x.children[..]);
    for i := 0 to x.children.Length
      invariant es == All(x.children[..][..i]) && Saved(abs, x.path, es, ts, head, file)
    {
      var chain := x.children[i];
      AllSnoc(x.children[..], i);
      ghost var done := es;
      WholeChain(done, chain);
      for j := 0 to |chain|
        invariant es == done + chain[..j] && Saved(abs, x.path, es, ts, head, file)
      {
        EntryIsChild(store, x, i, j);
        DepthLeft(store, x, chain[j].child, depth);
        PrefixGrows(done, chain, j);
        var bytes, c := WriteItem(store, chain[j].child, depth - 1);
        SavedMore(abs, x.path, es, ts, head, file, chain[j], c);
        file, ts, es := file + bytes, ts + [c], es + [chain[j]];
      }
    }
    assert x.children[..][..x.children.Length] == x.children[..];
    t := Node(x.name, x.Holds(), ts);
    SavedAll(abs, x, es, ts, head, file);
  }

  lemma PrefixGrows(done: Chain<Item>, chain: Chain<Item>, j: nat)
    requires j < |chain|
    ensures done + chain[..j + 1] == done + chain[..j] + [chain[j]]
  {
  }

  lemma WholeChain(done: Chain<Item>, chain: Chain<Item>)
    ensures done + chain[..0] == done && chain[..|chain|] == chain
  {
  }

  lemma AllNone(t: seq<Chain<Item>>)
    ensures All(t[..0]) == []
  {
  }

  lemma ItemWritable(store: Itemstore, x: Item)
    requires store.Valid() && AllWritable(store) && x in store.items
    ensures WritableName(x.name) && |x.name| < NAME_SIZE && WritableContent(x.Holds())
            && |All(x.children[..])| < 0x1_0000_0000
  {
    hide Item.TableOk, Itemstore.LinksOk, Itemstore.Valid;
    assert WritableItem(x);
  }

  lemma DepthLeft(store: Itemstore, x: Item, y: Item, depth: nat)
    requires store.Valid() && y in store.items && |y.path| == |x.path| + 1
    requires forall q <- store.at :: |q| <= |x.path| + depth
    ensures depth > 0 && forall q <- store.at :: |q| <= |y.path| + (depth - 1)
  {
    hide Item.TableOk, Itemstore.LinksOk;
    store.AtPath(y);
  }

  lemma SavedAll(s: Store<Bytecode>, x: Item, es: Chain<Item>, ts: seq<Tree>, head: seq<byte>, file: seq<byte>)
    requires Saved(s, x.path, es, ts, head, file) && DistinctKeys(es) && |es| < 0x1_0000_0000
    requires WritableName(x.name) && WritableContent(x.Holds()) && head == Header(x.name, x.Holds(), |es|)
    ensures var t := Node(x.name, x.Holds(), ts);
      Writable(t) && file == Written(t) && Flat(t, x.path) == BelowKeys(s, x.path, es)[x.path := x.Holds()]
  {
    hide Header, WrittenAll, FlatAll, BelowKeys, WritableName, WritableContent;
  }

  // ----- reading back -----

  function Size(t: Tree): nat {
    1 + SizeAll(t.children)
  }

  function SizeAll(ts: seq<Tree>): (n: nat)
    ensures forall i :: 0 <= i < |ts| ==> n > Size(ts[i])
  {
    if ts == [] then 0 else SizeAll(ts[..|ts| - 1]) + Size(ts[|ts| - 1]) + 1
  }

  lemma {:induction false} FlatKeys(ts: seq<Tree>, p: Path, q: Path)
    requires q in FlatAll(ts, p)
    ensures IsPrefix(p, q) && |p| < |q| && exists i :: 0 <= i < |ts| && ts[i].name == q[|p|]
    decreases SizeAll(ts)
  {
    var n := |ts| - 1;
    if q in FlatAll(ts[..n], p) {
      FlatKeys(ts[..n], p, q);
      var i :| 0 <= i < n && ts[..n][i].name == q[|p|];
      assert ts[i].name == q[|p|];
    } else {
      var top := p + [ts[n].name];
      FlatBelow(ts[n], top, q);
      assert q[..|p|] == p && q[|p|] == top[|p|];
    }
  }

  lemma {:induction false} FlatBelow(t: Tree, p: Path, q: Path)
    requires q in Flat(t, p)
    ensures IsPrefix(p, q)
    decreases Size(t)
  {
    if q in FlatAll(t.children, p) {
      FlatKeys(t.children, p, q);
    }
  }

  /** None of the trees ts is there yet below p. */
  predicate NewNames(s: Store<Bytecode>, p: Path, ts: seq<Tree>) {
    forall i :: 0 <= i < |ts| ==> p + [ts[i].name] !in s
  }

  /** The first i of the trees ts have been read below the item at p. */
  ghost predicate ReadSoFar(before: Store<Bytecode>, now: Store<Bytecode>, p: Path, ts: seq<Tree>, i: nat)
    requires i <= |ts|
  {
    now == before + FlatAll(ts[..i], p)
  }

  lemma NothingRead(before: Store<Bytecode>, p: Path, ts: seq<Tree>)
    ensures ReadSoFar(before, before, p, ts, 0)
    ensures AllWritableTrees(ts[..0]) && WrittenAll(ts[..0]) == []
  {
  }

  lemma ReadMore(before: Store<Bytecode>, now: Store<Bytecode>, p: Path, ts: seq<Tree>, i: nat)
    requires i < |ts| && ReadSoFar(before, now, p, ts, i)
    ensures ReadSoFar(before, now + Flat(ts[i], p + [ts[i].name]), p, ts, i + 1)
  {
    assert ts[..i + 1][..i] == ts[..i];
    hide Flat;
  }

  /** The next child is not there yet. */
  lemma NextIsNew(before: Store<Bytecode>, now: Store<Bytecode>, p: Path, ts: seq<Tree>, i: nat)
    requires i < |ts| && ReadSoFar(before, now, p, ts, i) && DistinctNames(ts) && NewNames(before, p, ts)
    ensures p + [ts[i].name] !in now
  {
    var q := p + [ts[i].name];
    if q in FlatAll(ts[..i], p) {
      FlatKeys(ts[..i], p, q);
    }
  }

  /** Where the i-th child starts in the file. */
  lemma {:induction false} ChildBytes(ts: seq<Tree>, i: nat, file: seq<byte>)
    requires i < |ts| && AllWritableTrees(ts) && WrittenAll(ts) <= file
    ensures AllWritableTrees(ts[..i]) && AllWritableTrees(ts[..i + 1]) && Writable(ts[i])
    ensures var n := |WrittenAll(ts[..i])|;
      n <= |file| && Written(ts[i]) <= file[n..] && |WrittenAll(ts[..i + 1])| == n + |Written(ts[i])|
    decreases |ts|
  {
    var k := |ts| - 1;
    hide Written, Writable;
    assert AllWritableTrees(ts[..k]);
    assert ts[..i + 1][..i] == ts[..i];
    if i < k {
      ChildBytes(ts[..k], i, file);
      assert ts[..k][..i] == ts[..i] && ts[..k][..i + 1] == ts[..i + 1];
    } else {
      assert ts[..i + 1] == ts;
      var x, y := WrittenAll(ts[..i]), Written(ts[i]);
      assert file == x + y + file[|x + y|..];
    }
  }

  lemma TreeFields(t: Tree, file: seq<byte>)
    requires Writable(t) && Written(t) <= file
    ensures var h := Header(t.name, t.content, |t.children|);
      && ParseHeader(file) == Some((t.name, t.content, |t.children|, |h|)) && |h| <= |file|
      && AllWritableTrees(t.children) && DistinctNames(t.children)
      && WrittenAll(t.children) <= file[|h|..] && |Written(t)| == |h| + |WrittenAll(t.children)|
  {
    hide Header, WrittenAll, ParseHeader;
    var h, rest := Header(t.name, t.content, |t.children|), file[|Header(t.name, t.content, |t.children|)|..];
    HeaderRoundTrip(t.name, t.content, |t.children|, rest);
    assert file == h + rest;
  }

  /** The loop of read_item over the children of an item that was just made. */
  method ReadChildren(store: Itemstore, file: seq<byte>, start: nat, count: nat, item: Item, ghost ts: seq<Tree>)
    returns (next: nat)
    requires store.Valid() && item in store.items && start <= |file|
    requires AllWritableTrees(ts) && DistinctNames(ts) && count == |ts| && WrittenAll(ts) <= file[start..]
    requires NewNames(store.Abs(), item.path, ts)
    modifies store`at, store`items, store`owner, store.items`children, store.items`ordered, store.items`kids,
             store.owner.Keys
    ensures store.Valid() && Kept(old(store.at), store.at)
    ensures old(store.items) <= store.items
    ensures fresh(store.items - old(store.items)) && fresh(store.owner.Keys - old(store.owner.Keys))
    ensures next == start + |WrittenAll(ts)| && store.Abs() == old(store.Abs()) + FlatAll(ts, item.path)
    decreases SizeAll(ts), 1
  {
    hide *;
    next := start;
    ghost var before := store.Abs();
    NothingRead(before, item.path, ts);
    KeptItself(store.at);
    for i := 0 to count
      invariant store.Valid() && old(store.items) <= store.items && Kept(old(store.at), store.at)
      invariant fresh(store.items - old(store.items)) && fresh(store.owner.Keys - old(store.owner.Keys))
      invariant AllWritableTrees(ts[..i]) && next == start + |WrittenAll(ts[..i])|
      invariant ReadSoFar(before, store.Abs(), item.path, ts, i)
    {
      ghost var was := store.at;
      ChildBytes(ts, i, file[start..]);
      NextIsNew(before, store.Abs(), item.path, ts, i);
      store.AbsAt(item.path + [ts[i].name]);
      ReadMore(before, store.Abs(), item.path, ts, i);
      next := ReadItem(store, file, next, item, ts[i]);
      KeptTransitive(old(store.at), was, store.at);
    }
    AllRead(before, store.Abs(), item.path, ts);
  }

  /** read_item below a parent: it consumes the bytes of one tree and adds that tree's paths. */
  method ReadItem(store: Itemstore, file: seq<byte>, start: nat, parent: Item, ghost t: Tree) returns (next: nat)
    requires store.Valid() && parent in store.items && start <= |file|
    requires Writable(t) && Written(t) <= file[start..] && parent.path + [t.name] !in store.at
    modifies store`at, store`items, store`owner, store.items`children, store.items`ordered, store.items`kids,
             store.owner.Keys
    ensures store.Valid() && Kept(old(store.at), store.at)
    ensures old(store.items) <= store.items
    ensures fresh(store.items - old(store.items)) && fresh(store.owner.Keys - old(store.owner.Keys))
    ensures next == start + |Written(t)|
    ensures store.Abs() == old(store.Abs()) + Flat(t, parent.path + [t.name])
    decreases Size(t), 0
  {
    hide *;
    ghost var before := store.Abs();
    TreeFields(t, file[start..]);
    var header := ParseHeader(file[start..]).value;
    var name, content, count := header.0, header.1, header.2;
    next := start + header.3;
    NewChild(store, parent, t);
    SizeStep(t);
    var item := store.MakeItem(name, parent, content.Code?, if content.Val? then content.v else NIL,
                               if content.Code? then content.c else []);
    store.Present(parent.path + [t.name]);
    ghost var was := store.at;
    KeptWithout(old(store.at), parent.path + [t.name], item);
    MadeHolds(item, t.content);
    next := ReadChildren(store, file, next, count, item, t.children);
    KeptTransitive(old(store.at), was, store.at);
  }

  /** Before a child is made that is not there yet. */
  lemma NewChild(store: Itemstore, parent: Item, t: Tree)
    requires store.Valid() && parent in store.items && parent.path + [t.name] !in store.at
    ensures t.name !in parent.kids && parent.children in store.owner
    ensures var p, s := parent.path + [t.name], store.Abs();
      NewNames(s[p := t.content], p, t.children) && s[p := t.content] + FlatAll(t.children, p) == s + Flat(t, p)
  {
    hide *;
    store.AtPath(parent);
    store.ChildAt(parent.path, t.name);
    store.OwnTable(parent);
    store.AbsAt(parent.path + [t.name]);
    store.StoreClosed();
    NothingBelow(store.Abs(), parent.path + [t.name], t);
  }

  lemma MadeHolds(item: Item, c: Content<Bytecode>)
    requires item.isCode == c.Code? && item.value == (if c.Val? then c.v else NIL)
    requires item.bytecode == if c.Code? then c.c else []
    ensures item.Holds() == c
  {
  }

  lemma KeptWithout(at: map<Path, Item>, p: Path, x: Item)
    requires p !in at
    ensures Kept(at, at[p := x])
  {
  }

  lemma SizeStep(t: Tree)
    ensures SizeAll(t.children) < Size(t)
  {
  }

  /** A path that is not there has nothing below it; adding it and what is below it adds a whole tree. */
  lemma NothingBelow(s: Store<Bytecode>, p: Path, t: Tree)
    requires PrefixClosed(s) && p !in s
    ensures NewNames(s[p := t.content], p, t.children)
    ensures s[p := t.content] + FlatAll(t.children, p) == s + Flat(t, p)
  {
    forall i | 0 <= i < |t.children|
      ensures p + [t.children[i].name] !in s
    {
      var q := p + [t.children[i].name];
      assert q[..|p|] == p;
    }
    forall q | q in FlatAll(t.children, p)
      ensures q != p
    {
      FlatKeys(t.children, p, q);
    }
  }

  lemma AllRead(before: Store<Bytecode>, now: Store<Bytecode>, p: Path, ts: seq<Tree>)
    requires ReadSoFar(before, now, p, ts, |ts|)
    ensures now == before + FlatAll(ts, p) && ts[..|ts|] == ts
  {
    assert ts[..|ts|] == ts;
  }

  // ----- a whole store -----

  /** save_itemstore. */
  method Save(store: Itemstore) returns (file: seq<byte>, ghost t: Tree)
    requires store.Valid() && AllWritable(store)
    ensures Writable(t) && file == Written(t) && Flat(t, []) == store.Abs() && t.name == store.root.name
  {
    hide *;
    ghost var depth := Longest(store.at.Keys);
    store.RootFirst([]);
    file, t := WriteItem(store, store.root, depth);
    BelowRoot(store.Abs());
  }

  ghost function Longest(ps: set<Path>): (n: nat)
    ensures forall p <- ps :: |p| <= n
  {
    if ps == {} then 0
    else
      var p :| p in ps;
      var n := Longest(ps - {p});
      if |p| > n then |p| else n
  }

  lemma BelowRoot(s: Store<Bytecode>)
    ensures Below(s, []) == s
  {
  }

  /** load_itemstore: the root keeps its name only. Bytes after the tree are left alone. */
  method Load(hash: Hash, file: seq<byte>, ghost t: Tree) returns (store: Itemstore, next: nat)
    requires Writable(t) && Written(t) <= file
    ensures fresh(store) && store.Valid() && store.root.name == t.name && next == |Written(t)|
    ensures store.Abs() == Flat(t, [])[[] := Val(Int(0))]
  {
    hide *;
    TreeFields(t, file);
    var header := ParseHeader(file).value;
    store := new Itemstore(hash, header.0);
    store.RootFirst([]);
    RootOnly(t);
    next := ReadChildren(store, file, header.3, header.2, store.root, t.children);
  }

  lemma RootOnly(t: Tree)
    ensures var s: Store<Bytecode> := map[[] := Val(Int(0))];
      NewNames(s, [], t.children) && s + FlatAll(t.children, []) == Flat(t, [])[[] := Val(Int(0))]
  {
    if [] in FlatAll(t.children, []) {
      FlatKeys(t.children, [], []);
    }
    var s: Store<Bytecode> := map[[] := Val(Int(0))];
    assert s + FlatAll(t.children, []) == FlatAll(t.children, [])[[] := Val(Int(0))];
  }

  /** The bytes are those of a tree with exactly the store's paths. */
  ghost predicate Encodes(file: seq<byte>, s: Store<Bytecode>) {
    exists t :: Writable(t) && file == Written(t) && Flat(t, []) == s
  }

  /**
   * Saving a store writes an encoding of it, and loading that again gives the same paths with the
   * same types, values and bytecode, except that the root's value is the int 0. Exactly the bytes
   * of the encoding are read, whatever follows them.
   */
  method SaveThenLoad(store: Itemstore, hash: Hash, trailing: seq<byte>)
    returns (file: seq<byte>, copy: Itemstore, next: nat)
    requires store.Valid() && AllWritable(store)
    ensures Encodes(file, store.Abs()) && next == |file|
    ensures copy.Valid() && copy.Abs() == store.Abs()[[] := Val(Int(0))] && copy.root.name == store.root.name
  {
    hide *;
    ghost var t;
    file, t := Save(store);
    EncodesTree(t, file);
    CutAt(file, trailing);
    copy, next := Load(hash, file + trailing, t);
  }

  lemma EncodesTree(t: Tree, file: seq<byte>)
    requires Writable(t) && file == Written(t)
    ensures Encodes(file, Flat(t, []))
  {
  }

  // ----- a file has one reading -----

  /** No encoding is the beginning of another, and none is that of two trees. */
  lemma {:induction false} WrittenUnique(t: Tree, t': Tree, x: seq<byte>, y: seq<byte>)
    requires Writable(t) && Writable(t') && Written(t) + x == Written(t') + y
    ensures t == t' && x == y
    decreases Size(t), 1
  {
    hide *;
    SizeStep(t);
    PrefixOf(Written(t), x);
    PrefixOf(Written(t'), y);
    TreeFields(t, Written(t) + x);
    TreeFields(t', Written(t') + y);
    WrittenParts(t, x);
    WrittenParts(t', y);
    AllUnique(t.children, t'.children, x, y);
  }

  lemma PrefixOf(x: seq<byte>, y: seq<byte>)
    ensures x <= x + y
  {
  }

  lemma WrittenParts(t: Tree, x: seq<byte>)
    requires Writable(t)
    ensures AllWritableTrees(t.children)
    ensures (Written(t) + x)[|Header(t.name, t.content, |t.children|)|..] == WrittenAll(t.children) + x
  {
    hide Header, WrittenAll;
    var h := Header(t.name, t.content, |t.children|);
    Regroup(h, WrittenAll(t.children), x);
    CutAt(h, WrittenAll(t.children) + x);
  }

  lemma {:induction false} AllUnique(ts: seq<Tree>, ts': seq<Tree>, x: seq<byte>, y: seq<byte>)
    requires AllWritableTrees(ts) && AllWritableTrees(ts') && |ts| == |ts'|
    requires WrittenAll(ts) + x == WrittenAll(ts') + y
    ensures ts == ts' && x == y
    decreases SizeAll(ts), 0
  {
    hide *;
    if ts == [] {
      NoneWritten(x);
      NoneWritten(y);
    } else {
      var n := |ts| - 1;
      LastSplit(ts, x);
      LastSplit(ts', y);
      AllUnique(ts[..n], ts'[..n], Written(ts[n]) + x, Written(ts'[n]) + y);
      WrittenUnique(ts[n], ts'[n], x, y);
      assert ts == ts[..n] + [ts[n]] && ts' == ts'[..n] + [ts'[n]];
    }
  }

  lemma NoneWritten(x: seq<byte>)
    ensures WrittenAll([]) + x == x
  {
  }

  lemma LastSplit(ts: seq<Tree>, x: seq<byte>)
    requires ts != [] && AllWritableTrees(ts)
    ensures var n := |ts| - 1;
      AllWritableTrees(ts[..n]) && Writable(ts[n]) && WrittenAll(ts) + x == WrittenAll(ts[..n]) + (Written(ts[n]) + x)
      && SizeAll(ts[..n]) < SizeAll(ts) && Size(ts[n]) < SizeAll(ts)
  {
    hide Written, Writable;
    var n := |ts| - 1;
    assert ts[n] in ts && forall c <- ts[..n] :: c in ts;
    Regroup(WrittenAll(ts[..n]), Written(ts[n]), x);
  }

  /** So a file encodes at most one store. */
  lemma EncodesOne(file: seq<byte>, s: Store<Bytecode>, s': Store<Bytecode>)
    requires Encodes(file, s) && Encodes(file, s')
    ensures s == s'
  {
    hide Writable, Written, Flat;
    var t :| Writable(t) && file == Written(t) && Flat(t, []) == s;
    var t' :| Writable(t') && file == Written(t') && Flat(t', []) == s';
    assert Written(t) + [] == Written(t') + [];
    WrittenUnique(t, t', [], []);
  }

  lemma KeptItself(at: map<Path, Item>)
    ensures Kept(at, at)
  {
  }
}
