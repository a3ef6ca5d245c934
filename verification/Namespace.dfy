/** The id-keyed OneDrive namespace as a value: what `apply` and `remove` make of the two
    maps, in any state, and the agreement between the maps that every feed must keep. */
module Namespace {
  import opened Bytes

  type Id = Str

  datatype ItemMeta = ItemMeta(isDir: bool, size: u64, mtime: u64, etag: Str)
  datatype Node = Node(parent: Option<Id>, name: Str, meta: ItemMeta)
  datatype Entry = Entry(name: Str, id: Id)
  datatype DeltaItem = DeltaItem(
    id: Id, parentId: Option<Id>, name: Str, deleted: bool, isRoot: bool, meta: ItemMeta)

  datatype Tree = Tree(nodes: map<Id, Node>, kids: map<Id, set<Entry>>, root: Option<Id>)

  const EMPTY_TREE := Tree(map[], map[], None)

  // ---------------------------------------------------------------- downward closure

  function KidSet(t: Tree, p: Id): set<Entry> {
    if p in t.kids then t.kids[p] else {}
  }

  ghost predicate Closed(t: Tree, s: set<Id>) {
    forall p, e :: p in s && e in KidSet(t, p) ==> e.id in s
  }

  ghost predicate InEveryClosed(t: Tree, id: Id, x: Id) {
    forall s :: id in s && Closed(t, s) ==> x in s
  }

  ghost function Mentioned(t: Tree, id: Id): (s: set<Id>)
    ensures id in s && Closed(t, s)
  {
    {id} + set p, e | p in t.kids && e in t.kids[p] :: e.id
  }

  /** The ids reachable downward from `id` through the child sets, `id` included:
      the least set that holds `id` and is closed under taking children. */
  ghost function Down(t: Tree, id: Id): (s: set<Id>)
    ensures id in s && Closed(t, s)
    ensures forall c :: id in c && Closed(t, c) ==> s <= c
  {
    var s := set x | x in Mentioned(t, id) && InEveryClosed(t, id, x);
    assert Closed(t, s) by {
      forall p, e | p in s && e in KidSet(t, p) ensures e.id in s {
        assert InEveryClosed(t, id, p);
        assert InEveryClosed(t, id, e.id);
      }
    }
    s
  }

  // ---------------------------------------------------------------- removal

  /** The child-set entries that removing the nodes in `s` takes out of `p`'s set. */
  function EntriesOf(t: Tree, s: set<Id>, p: Id): set<Entry> {
    set x | x in s && x in t.nodes && t.nodes[x].parent == Some(p) :: Entry(t.nodes[x].name, x)
  }

  /** `t` without the nodes and child sets in `s`, and without the one entry each removed
      node names in its parent's set. */
  function Prune(t: Tree, s: set<Id>): Tree {
    Tree(t.nodes - s,
         map p | p in t.kids && p !in s :: t.kids[p] - EntriesOf(t, s, p),
         if t.root.Some? && t.root.value in s && t.root.value in t.nodes then None else t.root)
  }

  lemma PruneTwice(t: Tree, a: set<Id>, b: set<Id>)
    ensures Prune(Prune(t, a), b) == Prune(t, a + b)
  {
    var l, r := Prune(Prune(t, a), b), Prune(t, a + b);
    assert l.nodes == r.nodes;
    assert l.kids.Keys == r.kids.Keys;
    forall p | p in l.kids ensures l.kids[p] == r.kids[p] {
      assert EntriesOf(t, a, p) + EntriesOf(Prune(t, a), b, p) == EntriesOf(t, a + b, p);
    }
    assert l.kids == r.kids;
  }

  // ---------------------------------------------------------------- apply

  ghost predicate IsLeast(m: Id, s: set<Id>) {
    m in s && forall x :: x in s && x != m ==> Less(m, x)
  }

  ghost function Min(s: set<Id>): (m: Id)
    requires s != {}
    ensures IsLeast(m, s)
  {
    LeastExists(s);
    var m :| IsLeast(m, s);
    m
  }

  lemma {:induction false} LeastExists(s: set<Id>)
    requires s != {}
    ensures exists m :: IsLeast(m, s)
    decreases |s|
  {
    var a :| a in s;
    if s == {a} {
      assert IsLeast(a, s);
    } else {
      LeastExists(s - {a});
      var m :| IsLeast(m, s - {a});
      LeastOfMore(m, s - {a}, a);
      assert s - {a} + {a} == s;
    }
  }

  /** The smaller of the least so far and one more id is the least of all. */
  lemma LeastOfMore(m: Id, s: set<Id>, id: Id)
    requires IsLeast(m, s)
    ensures IsLeast(if Less(id, m) then id else m, s + {id})
  {
    if Less(id, m) {
      forall x | x in s && x != id ensures Less(id, x) {
        if x != m { LessTransitive(id, m, x); }
      }
    } else if id != m {
      LessConnected(id, m);
    }
  }

  lemma MinIs(s: set<Id>, m: Id)
    requires IsLeast(m, s)
    ensures Min(s) == m
  {
    if Min(s) != m { LessAsymmetric(m, Min(s)); }
  }

  /** The ids under the name `n` in `p`'s set. */
  function Named(t: Tree, p: Id, n: Str): set<Id> {
    set e | e in KidSet(t, p) && e.name == n :: e.id
  }

  /** Takes `it.id`'s entry out of the set it is in when the item moves or renames it. */
  function Detach(t: Tree, it: DeltaItem): Tree {
    if it.id in t.nodes then
      var was := t.nodes[it.id];
      if (was.parent != it.parentId || was.name != it.name)
         && was.parent.Some? && was.parent.value in t.kids then
        t.(kids := t.kids[was.parent.value := t.kids[was.parent.value] - {Entry(was.name, it.id)}])
      else t
    else t
  }

  /** Evicts the first other id that already has the item's place and name. */
  ghost function Evict(t: Tree, it: DeltaItem): Tree
    requires it.parentId.Some?
  {
    var clash := Named(t, it.parentId.value, it.name) - {it.id};
    if clash == {} then t else Prune(t, Down(t, Min(clash)))
  }

  function Attach(t: Tree, it: DeltaItem): Tree
    requires it.parentId.Some?
  {
    var p := it.parentId.value;
    t.(kids := t.kids[p := KidSet(t, p) + {Entry(it.name, it.id)}],
       nodes := t.nodes[it.id := Node(Some(p), it.name, it.meta)])
  }

  ghost function Apply(t: Tree, it: DeltaItem): Tree {
    if it.id == [] then t
    else if it.deleted then Prune(t, Down(t, it.id))
    else if it.isRoot then
      t.(root := Some(it.id), nodes := t.nodes[it.id := Node(None, it.name, it.meta)])
    else if it.parentId == None then t
    else Attach(Evict(Detach(t, it), it), it)
  }

  ghost function ApplyAll(t: Tree, items: seq<DeltaItem>): Tree
    decreases |items|
  {
    if items == [] then t else ApplyAll(Apply(t, items[0]), items[1..])
  }

  lemma {:induction false} ApplyAllConcat(t: Tree, a: seq<DeltaItem>, b: seq<DeltaItem>)
    ensures ApplyAll(t, a + b) == ApplyAll(ApplyAll(t, a), b)
    decreases |a|
  {
    if a == [] {
      assert a + b == b;
    } else {
      assert (a + b)[1..] == a[1..] + b;
      ApplyAllConcat(Apply(t, a[0]), a[1..], b);
    }
  }

  // ---------------------------------------------------------------- agreement

  /** `e` is in `p`'s child set exactly when node `e.id` has parent `p` and that name. */
  ghost predicate Agree(t: Tree) {
    && (forall p, e :: e in KidSet(t, p) ==> HasPlace(t, e.id, p, e.name))
    && (forall p, n, c :: HasPlace(t, c, p, n) ==> Entry(n, c) in KidSet(t, p))
  }

  predicate HasPlace(t: Tree, c: Id, p: Id, n: Str) {
    c in t.nodes && t.nodes[c].parent == Some(p) && t.nodes[c].name == n
  }

  ghost predicate UniqueSiblings(t: Tree) {
    forall p, e, f :: e in KidSet(t, p) && f in KidSet(t, p) && e.name == f.name ==> e == f
  }

  /** The recorded root is a parentless node, and the only one. */
  ghost predicate SoleRoot(t: Tree) {
    && (t.root.Some? ==> t.root.value in t.nodes && t.nodes[t.root.value].parent == None)
    && (forall c :: c in t.nodes && t.nodes[c].parent == None ==> t.root == Some(c))
  }

  ghost predicate WellFormed(t: Tree) {
    Agree(t) && UniqueSiblings(t) && SoleRoot(t)
  }

  /** The items that would tag a second root, tag an id that already has a parent, or give
      the root a parent. */
  predicate MisusesRoot(t: Tree, it: DeltaItem) {
    && it.id != [] && !it.deleted
    && if it.isRoot then
         || (t.root.Some? && t.root.value != it.id)
         || (it.id in t.nodes && t.nodes[it.id].parent.Some?)
       else it.parentId.Some? && t.root == Some(it.id)
  }

  /** Removing a downward-closed set keeps the maps in agreement. */
  lemma PruneKeepsAgree(t: Tree, s: set<Id>)
    requires Agree(t) && Closed(t, s)
    ensures Agree(Prune(t, s))
  {
    var r := Prune(t, s);
    forall p, e | e in KidSet(r, p) ensures HasPlace(r, e.id, p, e.name) {
      assert e in KidSet(t, p);
      assert HasPlace(t, e.id, p, e.name);
      assert e.id in s ==> e in EntriesOf(t, s, p);
    }
    forall p, n, c | HasPlace(r, c, p, n) ensures Entry(n, c) in KidSet(r, p) {
      assert HasPlace(t, c, p, n);
      assert Entry(n, c) in KidSet(t, p);
    }
  }

  lemma PruneKeepsUnique(t: Tree, s: set<Id>)
    requires UniqueSiblings(t)
    ensures UniqueSiblings(Prune(t, s))
  {
    forall p, e | e in KidSet(Prune(t, s), p) ensures e in KidSet(t, p) {}
  }

  lemma PruneKeepsSoleRoot(t: Tree, s: set<Id>)
    requires SoleRoot(t)
    ensures SoleRoot(Prune(t, s))
  {
  }
}
