/** The tree of items of src/item.c: linked objects with tables of children, refining a map of paths. */
module Items {
  import opened Options
  import opened Bytes
  import opened Sequences
  import opened Values
  import opened Paths
  import opened HashTables

  type Bytecode = seq<byte>

  class Item {
    const name: Text
    const parent: Item?
    var isCode: bool
    var value: Value
    var bytecode: Bytecode
    var inuse: bool
    /** The table of children, and the children again in the order in which they were made. */
    var children: array<Chain<Item>>
    var ordered: seq<Item>
    ghost const path: Path
    ghost var kids: map<Text, Item>

    constructor (name: Text, parent: Item?, ghost path: Path, isCode: bool, value: Value, bytecode: Bytecode)
      ensures this.name == name && this.parent == parent && this.path == path
      ensures this.isCode == isCode && this.value == value && this.bytecode == bytecode && !inuse
      ensures fresh(children) && children.Length > 0 && children[..] == EmptyTable(INITIAL_BUCKETS)
      ensures ordered == [] && kids == map[]
    {
      this.name, this.parent, this.path := name, parent, path;
      this.isCode, this.value, this.bytecode, inuse := isCode, value, bytecode, false;
      children := new Chain<Item>[INITIAL_BUCKETS](_ => []);
      ordered, kids := [], map[];
    }

    function Holds(): Content<Bytecode>
      reads `isCode, `value, `bytecode
    {
      if isCode then Content.Code(bytecode) else Val(value)
    }

    /** The table and the array agree on the children. */
    ghost predicate TableOk(hash: Hash)
      reads `children, `ordered, `kids, children
    {
      Represents(hash, children[..], kids) && Light(children[..]) && Lists(ordered, kids)
    }

    /** search_hashtable on the children. */
    method FindChild(hash: Hash, key: Text) returns (r: Option<Item>)
      requires TableOk(hash)
      ensures r == if key in kids then Some(kids[key]) else None
    {
      r := Search(hash, children, key);
    }

    /** How make_item adds a child: to the table, which may be resized, and at the end of the array. */
    method AddChild(hash: Hash, item: Item)
      requires TableOk(hash) && item.name !in kids
      modifies `children, `ordered, `kids, children
      ensures TableOk(hash) && kids == old(kids)[item.name := item] && ordered == old(ordered) + [item]
      ensures children == old(children) || fresh(children)
    {
      GrownRepresents(hash, children[..], kids, Entry(item.name, item));
      ListsMore(ordered, kids, item);
      HashTables.Insert(hash, children, Entry(item.name, item));
      hide *;
      var table := MaybeResize(hash, children);
      children := table;
      ordered := ordered + [item];
      kids := kids[item.name := item];
    }

    /** How delete_item takes a child out of the table, and out of the array by a left shift. */
    method RemoveChild(hash: Hash, item: Item)
      requires TableOk(hash) && item.name in kids && kids[item.name] == item
      modifies `ordered, `kids, children
      ensures TableOk(hash) && kids == old(kids) - {item.name}
      ensures ordered == Dropped(old(ordered), item)
    {
      RemoveRepresents(hash, children[..], kids, item.name);
      RemoveLight(hash, children[..], item.name);
      HashTables.Delete(hash, children, item.name);
      var i := 0;
      while ordered[i] != item
        invariant i < |ordered| && ordered == old(ordered) && item !in ordered[..i]
        decreases |ordered| - i
      {
        i := i + 1;
      }
      ListsLess(ordered, kids, item, i);
      DroppedAt(ordered, item, i);
      ordered := ordered[..i] + ordered[i + 1..];
      kids := kids - {item.name};
    }
  }

  const INITIAL_BUCKETS := 16

  /** The array of children lists each child in the table exactly once. */
  ghost predicate Lists(ordered: seq<Item>, kids: map<Text, Item>) {
    (forall i, j :: 0 <= i < j < |ordered| ==> ordered[i] != ordered[j])
    && (forall c <- ordered :: c.name in kids && kids[c.name] == c)
    && (forall k <- kids :: kids[k] in ordered && kids[k].name == k)
  }

  /** Items that were there are still where they were. */
  ghost predicate Kept(before: map<Path, Item>, after: map<Path, Item>) {
    forall p <- before :: p in after && after[p] == before[p]
  }

  lemma KeptAt(before: map<Path, Item>, after: map<Path, Item>, p: Path)
    requires Kept(before, after)
    ensures p in before ==> p in after && after[p] == before[p]
  {
  }

  lemma KeptTransitive(a: map<Path, Item>, b: map<Path, Item>, c: map<Path, Item>)
    requires Kept(a, b) && Kept(b, c)
    ensures Kept(a, c)
  {
  }

  class Itemstore {
    const hash: Hash
    const root: Item
    /** All items, and the item at each path. */
    ghost var items: set<Item>
    ghost var at: map<Path, Item>
    /** Whose table of children an array is. */
    ghost var owner: map<array<Chain<Item>>, Item>

    /** The links of one item: up to its parent's entry for it, and down to its children. */
    ghost predicate LinksOk(x: Item)
      reads `items, items`kids, x`kids
    {
      && (x == root <==> x.parent == null)
      && (x.parent != null ==>
           && x.parent in items && x.path == x.parent.path + [x.name]
           && x.name in x.parent.kids && x.parent.kids[x.name] == x)
      && (forall k <- x.kids :: x.kids[k] in items && x.kids[k].parent == x && x.kids[k].name == k)
    }

    ghost predicate Valid()
      reads this, items`kids, items`children, items`ordered, owner.Keys
    {
      && [] in at && at[[]] == root
      && (forall p <- at :: at[p] in items && at[p].path == p)
      && (forall x {:trigger x.path} :: x in items ==> x.path in at && at[x.path] == x)
      && (forall x {:trigger LinksOk(x)} :: x in items ==> LinksOk(x))
      && (forall x {:trigger x.children} :: x in items ==> x.children in owner && owner[x.children] == x)
      && (forall x {:trigger x.TableOk(hash)} :: x in items ==> x.TableOk(hash))
    }

    /** The abstract store of paths. */
    ghost function Abs(): Store<Bytecode>
      requires Valid()
      reads this, items, owner.Keys
    {
      map p | p in at :: at[p].Holds()
    }

    /** make_root_item. */
    constructor (hash: Hash, name: Text)
      ensures Valid() && this.hash == hash && fresh(root) && fresh(root.children)
      ensures items == {root} && at == map[[] := root] && owner == map[root.children := root] && root.name == name
      ensures Abs() == map[[] := Val(Int(0))]
    {
      this.hash := hash;
      root := new Item(name, null, [], false, Int(0), []);
      at, items := map[[] := root], {root};
      new;
      owner := map[root.children := root];
      NoChildren(hash, root);
    }

    // ----- what the links amount to -----

    /** A child is looked up under its name exactly when its path is there. */
    lemma ChildAt(p: Path, l: Text)
      requires Valid() && p in at
      ensures l in at[p].kids <==> p + [l] in at
      ensures l in at[p].kids ==> at[p].kids[l] == at[p + [l]]
    {
      hide Item.TableOk;
      var x := at[p];
      assert x in items;
      if l in x.kids {
        var y := x.kids[l];
        assert LinksOk(x) && LinksOk(y);
        AtPath(y);
      }
      if p + [l] in at {
        var y := at[p + [l]];
        assert y in items && LinksOk(y) && y.path == p + [l];
        AtPath(y);
        assert y.path[..|p|] == p && y.path[|p|] == l;
        AtPath(y.parent);
      }
    }

    /** An item is found at its path, and its parent at the path above. */
    lemma AtPath(x: Item)
      requires Valid() && x in items
      ensures x.path in at && at[x.path] == x && x.TableOk(hash)
      ensures x != root ==> x.parent != null && x.parent in items && x.path != []
                            && x.parent.path == x.path[..|x.path| - 1] && x.name == x.path[|x.path| - 1]
                            && x.name in x.parent.kids && x.parent.kids[x.name] == x
    {
      hide Item.TableOk;
      assert LinksOk(x);
    }

    lemma {:induction false} PathsClosed(p: Path, k: nat)
      requires Valid() && p in at && k <= |p|
      ensures p[..k] in at
      decreases |p|
    {
      hide Item.TableOk;
      if k == |p| {
        assert p[..k] == p;
      } else {
        var x := at[p];
        assert LinksOk(x);
        AtPath(x);
        AtPath(x.parent);
        assert x.parent.path[..k] == p[..k];
        hide *;
        PathsClosed(x.parent.path, k);
      }
    }

    /** The paths of a store are closed under prefixes. */
    lemma StoreClosed()
      requires Valid()
      ensures PrefixClosed(Abs())
    {
      forall p, k | p in Abs() && 0 <= k <= |p|
        ensures p[..k] in Abs()
      {
        PathsClosed(p, k);
      }
    }

    // ----- the operations -----

    /** make_item: a new child of parent under a name it does not have yet. */
    method MakeItem(name: Text, parent: Item, isCode: bool, value: Value, bytecode: Bytecode) returns (item: Item)
      requires Valid() && parent in items && name !in parent.kids
      modifies `at, `items, `owner, parent`children, parent`ordered, parent`kids, parent.children
      ensures Valid() && items == old(items) + {item} && fresh(item) && fresh(item.children)
      ensures at == old(at)[parent.path + [name] := item] && parent.path + [name] !in old(at)
      ensures item.isCode == isCode && item.value == value && item.bytecode == bytecode && !item.inuse
      ensures item.ordered == [] && parent.ordered == old(parent.ordered) + [item]
      ensures fresh(owner.Keys - old(owner.Keys))
      ensures Abs() == old(Abs())[parent.path + [name] := item.Holds()]
    {
      hide *;
      AtPath(parent);
      ChildAt(parent.path, name);
      OwnTables();
      ghost var p := parent.path + [name];
      item := new Item(name, parent, p, isCode, value, bytecode);
      NoChildren(hash, item);
      assert parent.TableOk(hash);
      parent.AddChild(hash, item);
      at, items := at[p := item], items + {item};
      owner := owner[item.children := item][parent.children := parent];
      Grafted(parent, item);
      AbsGrafted(p, item);
    }

    twostate lemma AbsGrafted(p: Path, new item: Item)
      requires old(Valid()) && Valid() && at == old(at)[p := item]
      requires forall q <- old(at) :: old(at)[q].Holds() == old(at[q].Holds())
      ensures Abs() == old(Abs())[p := item.Holds()]
    {
      hide Item.TableOk, LinksOk;
    }

    /** Adding one child to one item keeps the store in order. */
    twostate lemma Grafted(parent: Item, new item: Item)
      requires old(Valid()) && parent in old(items) && item !in old(items)
      requires item.parent == parent && item.name !in old(parent.kids) && item.path == parent.path + [item.name]
      requires item.path !in old(at) && item.kids == map[]
      requires items == old(items) + {item} && at == old(at)[item.path := item]
      requires owner == old(owner)[item.children := item][parent.children := parent]
      requires item.children !in old(owner) && item.children != parent.children
      requires parent.children !in old(owner) || parent.children == old(parent.children)
      requires parent.kids == old(parent.kids)[item.name := item]
      requires parent.TableOk(hash) && item.TableOk(hash)
      requires forall x <- old(items) :: x != parent ==> unchanged(x) && unchanged(x.children)
      ensures Valid()
    {
      hide Item.TableOk, LinksOk;
      LinksKept(parent, item);
      TablesKept(parent, item);
    }

    twostate lemma TablesKept(parent: Item, new item: Item)
      requires old(Valid()) && parent in old(items) && item !in old(items) && items == old(items) + {item}
      requires parent.TableOk(hash) && item.TableOk(hash)
      requires forall x <- old(items) :: x != parent ==> unchanged(x) && unchanged(x.children)
      ensures forall x {:trigger x.TableOk(hash)} :: x in items ==> x.TableOk(hash)
    {
      hide Item.TableOk, LinksOk;
      forall x | x in old(items) && x != parent
        ensures x.TableOk(hash)
      {
        assert old(x.TableOk(hash));
      }
    }

    /** A new child disturbs no links. */
    twostate lemma LinksKept(parent: Item, new item: Item)
      requires old(forall x {:trigger LinksOk(x)} :: x in items ==> LinksOk(x))
      requires items == old(items) + {item} && item !in old(items) && parent in old(items) && item != root
      requires item.parent == parent && item.name !in old(parent.kids) && item.path == parent.path + [item.name]
      requires parent.kids == old(parent.kids)[item.name := item] && item.kids == map[]
      requires forall y <- old(items) :: y != parent ==> y.kids == old(y.kids)
      ensures forall x {:trigger LinksOk(x)} :: x in items ==> LinksOk(x)
    {
      forall x | x in items
        ensures LinksOk(x)
      {
        if x in old(items) {
          assert old(LinksOk(x));
        }
      }
    }

    /** find_item: down the layers of a name, one table at a time. */
    method FindItem(itemName: Text) returns (r: Item?)
      requires Valid()
      ensures r == null <==> Split(itemName) !in at
      ensures r != null ==> r == at[Split(itemName)]
    {
      hide *;
      ghost var full := Split(itemName);
      var current: Item?, rest := root, itemName;
      RootFirst(full);
      while current != null && rest != []
        invariant current != null ==> current in items && full == current.path + Split(rest)
        invariant current == null ==> full !in at
        decreases |rest|
      {
        SplitStep(rest);
        ghost var done := current.path + [FirstLayer(rest)];
        Regroup(current.path, [FirstLayer(rest)], Split(AfterLayer(rest)));
        AtPath(current);
        ChildAt(current.path, FirstLayer(rest));
        var child := current.FindChild(hash, FirstLayer(rest));
        if child.None? {
          Missing(done, Split(AfterLayer(rest)));
          current := null;
        } else {
          current := child.value;
          Present(done);
        }
        if LastLayer(rest) { break; }
        rest := AfterLayer(rest);
      }
      if current != null {
        SplitNothing(current.path);
        AtPath(current);
      }
      return current;
    }

    lemma RootFirst(full: Path)
      requires Valid()
      ensures root in items && root.path == [] && root.path + full == full && Kept(at, at) && !EndsInDot([])
    {
    }

    lemma Missing(p: Path, more: Path)
      requires Valid() && p !in at
      ensures p + more !in at
    {
      assert (p + more)[..|p|] == p;
      if p + more in at {
        PathsClosed(p + more, |p|);
      }
    }

    lemma Present(p: Path)
      requires Valid() && p in at
      ensures at[p] in items && at[p].path == p
    {
    }

    lemma OwnTables()
      requires Valid()
      ensures forall x <- items :: x.children in owner && owner[x.children] == x
      ensures forall p <- at :: at[p] in items
    {
    }

    lemma OwnTable(x: Item)
      requires Valid() && x in items
      ensures x.children in owner && owner[x.children] == x
    {
    }

    /** The loop that insert_item and insert_code_item share: make every missing layer a nil item. */
    method Reach(itemName: Text) returns (x: Item, last: bool)
      requires Valid()
      modifies `at, `items, `owner, items`children, items`ordered, items`kids, owner.Keys
      ensures Valid() && Kept(old(at), at) && fresh(items - old(items)) && fresh(owner.Keys - old(owner.Keys))
      ensures Split(itemName) in at && x == at[Split(itemName)] && x in items
      ensures last <==> itemName != [] && !EndsInDot(itemName)
      ensures Abs() == Materialise(old(Abs()), Split(itemName), |Split(itemName)|)
    {
      hide *;
      ghost var full, before := Split(itemName), Abs();
      var current, rest := root, itemName;
      MaterialiseNone(before, full);
      RootFirst(full);
      AtPath(root);
      while rest != []
        invariant Valid() && Kept(old(at), at) && fresh(items - old(items)) && fresh(owner.Keys - old(owner.Keys))
        invariant full == current.path + Split(rest) && current in items
        invariant EndsInDot(itemName) == if rest == [] then itemName != [] else EndsInDot(rest)
        invariant Abs() == Materialise(before, full, |current.path|)
        decreases |rest|
      {
        ghost var was := at;
        OwnTable(current);
        var next, more, last := Down(current, rest, full, before);
        KeptTransitive(old(at), was, at);
        current, rest := next, more;
        if last {
          SplitNothing(current.path);
          AtPath(current);
          return current, true;
        }
      }
      SplitNothing(current.path);
      AtPath(current);
      return current, false;
    }

    /** One layer down: to the child with that name, made with a nil value if it is not there. */
    method Down(current: Item, rest: Text, ghost full: Path, ghost before: Store<Bytecode>)
      returns (child: Item, more: Text, last: bool)
      requires Valid() && current in items && rest != [] && full == current.path + Split(rest)
      requires Abs() == Materialise(before, full, |current.path|)
      modifies `at, `items, `owner, current`children, current`ordered, current`kids, current.children
      ensures Valid() && Kept(old(at), at) && fresh(items - old(items)) && fresh(owner.Keys - old(owner.Keys))
      ensures child in items && full == child.path + Split(more) && |more| < |rest| && (last ==> more == [])
      ensures if last then !EndsInDot(rest) else EndsInDot(rest) == (more == [] || EndsInDot(more))
      ensures |child.path| <= |full| && Abs() == Materialise(before, full, |child.path|)
    {
      var layer := FirstLayer(rest);
      more, last := AfterLayer(rest), LastLayer(rest);
      NextLayer(before, full, current.path, rest);
      hide LayerLength, Split, Materialise, EndsInDot;
      child := MakeOrFind(current, layer);
    }

    method MakeOrFind(current: Item, layer: Text) returns (child: Item)
      requires Valid() && current in items
      modifies `at, `items, `owner, current`children, current`ordered, current`kids, current.children
      ensures Valid() && Kept(old(at), at) && fresh(items - old(items)) && fresh(owner.Keys - old(owner.Keys))
      ensures child in items && child.path == current.path + [layer]
      ensures Abs() == Touch(old(Abs()), current.path + [layer])
    {
      hide Valid, Abs, Item.TableOk;
      AtPath(current);
      ChildAt(current.path, layer);
      AbsAt(current.path + [layer]);
      var found := current.FindChild(hash, layer);
      if found.Some? {
        child := found.value;
        Present(current.path + [layer]);
      } else {
        child := MakeItem(layer, current, false, NIL, []);
        Present(current.path + [layer]);
      }
    }

    lemma AbsAt(p: Path)
      requires Valid()
      ensures p in Abs() <==> p in at
      ensures p in at ==> Abs()[p] == at[p].Holds()
    {
    }

    /** Removing a child, with all that is below it, keeps the store in order. */
    twostate lemma Pruned(item: Item)
      requires old(Valid()) && item in old(items) && item != root && item.parent != null && item.parent in old(items)
      requires at == Without(old(at), item.path) && items == set x | x in old(items) && !IsPrefix(item.path, x.path)
      requires owner == old(owner)
      requires item.parent.kids == old(item.parent.kids) - {item.name} && item.parent.TableOk(hash)
      requires item.parent.children == old(item.parent.children)
      requires forall x <- old(items) :: x != item.parent ==> unchanged(x) && unchanged(x.children)
      requires forall x <- old(items) :: x.Holds() == old(x.Holds())
      ensures Valid() && Abs() == Paths.Delete(old(Abs()), item.path)
    {
      hide *;
      PrunedLinks(item);
      PrunedTables(item);
      PrunedPaths(item);
    }

    twostate lemma PrunedLinks(item: Item)
      requires old(Valid()) && item in old(items) && item != root && item.parent != null && item.parent in old(items)
      requires items == set x | x in old(items) && !IsPrefix(item.path, x.path)
      requires item.parent.kids == old(item.parent.kids) - {item.name}
      requires forall x <- old(items) :: x != item.parent ==> x.kids == old(x.kids)
      ensures forall x {:trigger LinksOk(x)} :: x in items ==> LinksOk(x)
    {
      hide Item.TableOk;
      assert old(LinksOk(item));
      forall x | x in items
        ensures LinksOk(x)
      {
        assert old(LinksOk(x));
        forall k | k in x.kids
          ensures x.kids[k] in items
        {
          var y := x.kids[k];
          assert old(LinksOk(y)) && y.path == x.path + [k];
          if IsPrefix(item.path, y.path) {
            PrefixSnoc(item.path, x.path, k);
          }
        }
      }
    }

    twostate lemma PrunedTables(item: Item)
      requires old(Valid()) && item.parent != null && item.parent in old(items) && items <= old(items)
      requires item.parent.TableOk(hash)
      requires forall x <- old(items) :: x != item.parent ==> unchanged(x) && unchanged(x.children)
      ensures forall x {:trigger x.TableOk(hash)} :: x in items ==> x.TableOk(hash)
    {
      hide Item.TableOk, LinksOk;
      forall x | x in items && x != item.parent
        ensures x.TableOk(hash)
      {
        assert old(x.TableOk(hash));
      }
    }

    twostate lemma PrunedPaths(item: Item)
      requires old(Valid()) && item in old(items) && item != root
      requires at == Without(old(at), item.path) && items == set x | x in old(items) && !IsPrefix(item.path, x.path)
      requires owner == old(owner) && forall x <- old(items) :: x.children == old(x.children)
      requires forall x {:trigger LinksOk(x)} :: x in items ==> LinksOk(x)
      requires forall x {:trigger x.TableOk(hash)} :: x in items ==> x.TableOk(hash)
      requires forall x <- old(items) :: x.Holds() == old(x.Holds())
      ensures Valid() && Abs() == Paths.Delete(old(Abs()), item.path)
    {
      hide Item.TableOk, LinksOk, Item.Holds;
      assert item.path != [] by { assert old(at)[[]] == root; }
    }

    /** Changing what one item holds changes the store at its path only. */
    twostate lemma ContentChanged(x: Item)
      requires old(Valid()) && Valid() && x in items && items == old(items) && at == old(at)
      requires forall y <- items :: y != x ==> y.Holds() == old(y.Holds())
      ensures Abs() == old(Abs())[x.path := x.Holds()]
    {
      hide Item.TableOk, LinksOk, Item.Holds;
    }

    /** The name leads to a code item by its last layer. */
    ghost predicate NamesCode(itemName: Text)
      reads this, items
    {
      var p := Split(itemName);
      itemName != [] && !EndsInDot(itemName) && p in at && at[p] in items && at[p].isCode
    }

    /**
     * insert_item. It does nothing to a code item that is running. One at rest gets the value but stays
     * a code item, and what its freed bytecode reads as from then on is anything.
     */
    method InsertItem(itemName: Text, value: Value) returns (r: Item?)
      requires Valid()
      modifies `at, `items, `owner, items`children, items`ordered, items`kids, items`value, items`bytecode, owner.Keys
      ensures Valid() && Kept(old(at), at) && fresh(items - old(items)) && fresh(owner.Keys - old(owner.Keys))
      ensures r == null <==> old(NamesCode(itemName) && at[Split(itemName)].inuse)
      ensures r != null ==> Split(itemName) in at && r == at[Split(itemName)]
      ensures if r == null then Abs() == old(Abs())
              else if old(NamesCode(itemName)) then
                r.value == value && Abs() == old(Abs())[Split(itemName) := Content.Code(r.bytecode)]
              else Abs() == InsertNamed(old(Abs()), itemName, Val(value))
    {
      hide Valid, Item.TableOk, Abs, Materialise, InsertNamed, PrefixClosed, Split, EndsInDot, LinksOk, Kept;
      ghost var before, p := Abs(), Split(itemName);
      StoreClosed();
      OwnTables();
      AbsAt(p);
      InsertNamedCases(before, itemName, Val(value));
      var x, last := Reach(itemName);
      KeptAt(old(at), at, p);
      AbsAt(p);
      MaterialiseAt(before, p, |p|, p);
      MaterialiseThere(before, p);
      if !last { return x; }
      Present(p);
      var done := Fill(x, value);
      return if done then x else null;
    }

    /** What insert_item does to the item it has come to. */
    method Fill(x: Item, value: Value) returns (done: bool)
      requires Valid() && x in items
      modifies x`value, x`bytecode
      ensures Valid() && (done <==> !(x.isCode && x.inuse)) && (done ==> x.value == value)
      ensures Abs() == if done then old(Abs())[x.path := x.Holds()] else old(Abs())
    {
      hide Item.TableOk, LinksOk, Abs;
      if x.isCode {
        if x.inuse { return false; }
        x.bytecode := *;
      }
      x.value := value;
      ContentChanged(x);
      return true;
    }

    /** insert_code_item: what was there becomes a code item. */
    method InsertCodeItem(itemName: Text, bytecode: Bytecode) returns (r: Item)
      requires Valid()
      modifies `at, `items, `owner, items`children, items`ordered, items`kids, items`isCode, items`value,
               items`bytecode, owner.Keys
      ensures Valid() && Kept(old(at), at)
      ensures Split(itemName) in at && r == at[Split(itemName)]
      ensures Abs() == InsertNamed(old(Abs()), itemName, Content.Code(bytecode))
      ensures itemName != [] && !EndsInDot(itemName) ==> r.isCode && r.value == NIL && r.bytecode == bytecode
    {
      hide Valid, Item.TableOk, Abs, Materialise, InsertNamed;
      ghost var before := Abs();
      InsertNamedCases(before, itemName, Content.Code(bytecode));
      var last;
      r, last := Reach(itemName);
      if last {
        label Reached:
        Present(Split(itemName));
        r.isCode, r.value, r.bytecode := true, NIL, bytecode;
        ContentChanged@Reached(r);
      }
    }

    /** set_item: an item that exists gets the value, even the root; a code item stays code. */
    method SetItem(itemName: Text, value: Value)
      requires Valid()
      modifies `at, `items, `owner, items`children, items`ordered, items`kids, items`value, items`bytecode,
               owner.Keys
      ensures Valid() && Kept(old(at), at)
      ensures var p := Split(itemName);
        Abs() == if p !in old(at) then InsertNamed(old(Abs()), itemName, Val(value))
                 else if old(Abs()[p]).Code? then old(Abs()) else old(Abs())[p := Val(value)]
    {
      hide Valid, Item.TableOk, Abs, Materialise;
      var item := FindItem(itemName);
      AbsAt(Split(itemName));
      if item != null {
        Present(Split(itemName));
        item.value := value;
        ContentChanged(item);
        assert old(Abs())[item.path := old(Abs())[item.path]] == old(Abs());
      } else {
        var r := InsertItem(itemName, value);
      }
    }

    /** delete_item: a running item stays; any other goes with all the paths that extend its own. */
    method DeleteItem(itemName: Text)
      requires Valid() && Split(itemName) != []
      modifies `at, `items, items`ordered, items`kids, owner.Keys
      ensures Valid()
      ensures var p := Split(itemName);
        if p !in old(at) || old(at[p].inuse) then at == old(at) && Abs() == old(Abs())
        else Abs() == Paths.Delete(old(Abs()), p) && at == Without(old(at), p)
             && forall q <- at :: q in old(at) && at[q] == old(at)[q] && at[q].ordered ==
                  if |q| + 1 == |p| && IsPrefix(q, p) then Dropped(old(at[q].ordered), old(at[p]))
                  else old(at[q].ordered)
    {
      hide *;
      ghost var p := Split(itemName);
      var item := FindItem(itemName);
      if item != null {
        if item.inuse { return; }
        Present(p);
        RootFirst([]);
        AtPath(item);
        AtPath(item.parent);
        OwnTables();
        item.parent.RemoveChild(hash, item);
        at := Without(at, p);
        items := set x | x in items && !IsPrefix(p, x.path);
        Pruned(item);
        ParentLeft(item);
      }
    }

    /** The parent of a deleted item is the one item whose list got shorter. */
    twostate lemma ParentLeft(item: Item)
      requires old(Valid()) && Valid() && item.parent != null && item.path != []
               && item.parent.path == item.path[..|item.path| - 1]
      requires item.parent.ordered == Dropped(old(item.parent.ordered), item)
      requires item.parent.path in old(at) && old(at)[item.parent.path] == item.parent
               && at == Without(old(at), item.path)
      requires forall x <- old(items) :: x != item.parent ==> x.ordered == old(x.ordered)
      ensures forall q <- at :: q in old(at) && at[q] == old(at)[q] && at[q].ordered ==
                if |q| + 1 == |item.path| && IsPrefix(q, item.path) then Dropped(old(at[q].ordered), item)
                else old(at[q].ordered)
    {
      hide Item.TableOk, LinksOk;
      forall q | q in at
        ensures (|q| + 1 == |item.path| && IsPrefix(q, item.path)) <==> at[q] == item.parent
      {
        assert at[q].path == q;
        if at[q] == item.parent {
          assert item.path == item.parent.path + [item.path[|item.path| - 1]];
        }
        if |q| + 1 == |item.path| && IsPrefix(q, item.path) {
          assert q == item.path[..|item.path| - 1];
        }
      }
    }

    /** get_itemname: the names from below the root down, joined by dots. */
    method GetItemName(item: Item) returns (name: Text)
      requires Valid() && item in items && item != root
      ensures name == Join(item.path)
      decreases |item.path|
    {
      hide *;
      RootFirst([]);
      AtPath(item);
      AtPath(item.parent);
      if item.parent.parent != null {
        Rooted(item.parent);
        var above := GetItemName(item.parent);
        name := above + [DOT] + item.name;
        JoinSnoc(item.parent.path, item.name);
      } else {
        Rooted(item.parent);
        name := item.name;
        JoinSnoc([], item.name);
      }
      assert item.path == item.parent.path + [item.name];
    }

    lemma Rooted(x: Item)
      requires Valid() && x in items
      ensures x.parent == null <==> x == root
    {
      hide Item.TableOk;
      assert LinksOk(x);
    }

    /** Looking up the name of an item finds that item, if its layers are non-empty and without dots. */
    lemma NameLeadsBack(item: Item)
      requires Valid() && item in items && SolidPath(item.path)
      ensures Split(Join(item.path)) in at && at[Split(Join(item.path))] == item
    {
      hide Item.TableOk, LinksOk;
      SplitJoin(item.path);
    }

    /** The name of the item that is found under a name is that name, if and only if it does not end in a dot. */
    lemma FoundUnderItsName(itemName: Text)
      requires Valid() && Split(itemName) in at
      ensures Join(at[Split(itemName)].path) == itemName <==> !EndsInDot(itemName)
    {
      hide Item.TableOk, LinksOk;
      JoinSplit(itemName);
    }
  }

  /** What is left at the paths that do not extend p. */
  function Without(at: map<Path, Item>, p: Path): map<Path, Item> {
    map q | q in at && !IsPrefix(p, q) :: at[q]
  }

  /** A list without the one occurrence of x. */
  function Dropped(s: seq<Item>, x: Item): seq<Item> {
    if s == [] then [] else if s[0] == x then s[1..] else [s[0]] + Dropped(s[1..], x)
  }

  lemma {:induction false} DroppedAt(s: seq<Item>, x: Item, i: nat)
    requires i < |s| && s[i] == x && x !in s[..i]
    ensures Dropped(s, x) == s[..i] + s[i + 1..]
  {
    if i > 0 {
      assert s[0] in s[..i] && s[1..][..i - 1] == s[..i][1..];
      DroppedAt(s[1..], x, i - 1);
    }
  }

  lemma NoChildren(hash: Hash, item: Item)
    requires item.children[..] == EmptyTable(INITIAL_BUCKETS) && item.ordered == [] && item.kids == map[]
    ensures item.TableOk(hash)
  {
    EmptyRepresents<Item>(hash, INITIAL_BUCKETS);
  }

  lemma ListsMore(ordered: seq<Item>, kids: map<Text, Item>, item: Item)
    requires Lists(ordered, kids) && item.name !in kids
    ensures Lists(ordered + [item], kids[item.name := item])
  {
  }

  lemma ListsLess(ordered: seq<Item>, kids: map<Text, Item>, item: Item, i: nat)
    requires Lists(ordered, kids) && i < |ordered| && ordered[i] == item
    ensures Lists(ordered[..i] + ordered[i + 1..], kids - {item.name})
  {
    var less := ordered[..i] + ordered[i + 1..];
    forall k | k in kids - {item.name}
      ensures kids[k] in less
    {
      var j :| 0 <= j < |ordered| && ordered[j] == kids[k];
      assert less[if j < i then j else j - 1] == kids[k];
    }
  }
}
