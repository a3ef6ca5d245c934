/** The tree a feed builds depends only on the last record of each id. */
module Ordering {
  import opened Bytes
  import opened Namespace
  import opened Agreement
  import opened Resolution
  import opened Moves

  /** The same nodes (the root's own name aside) and the same root. */
  ghost predicate Like(t: Tree, u: Tree) {
    && t.root == u.root && t.nodes.Keys == u.nodes.Keys
    && forall c :: c in t.nodes ==>
         && t.nodes[c].parent == u.nodes[c].parent && t.nodes[c].meta == u.nodes[c].meta
         && (t.nodes[c].parent.Some? ==> t.nodes[c].name == u.nodes[c].name)
  }

  /** When the maps agree, the nodes determine every child set. */
  lemma LikeKidSets(t: Tree, u: Tree, p: Id)
    requires Like(t, u) && Agree(t) && Agree(u)
    ensures KidSet(t, p) == KidSet(u, p)
  {
    forall e ensures e in KidSet(t, p) <==> e in KidSet(u, p) {
      assert HasPlace(t, e.id, p, e.name) <==> HasPlace(u, e.id, p, e.name);
      assert e == Entry(e.name, e.id);
    }
  }

  lemma LikeDown(t: Tree, u: Tree, id: Id)
    requires forall p :: KidSet(t, p) == KidSet(u, p)
    ensures Down(t, id) == Down(u, id)
  {
    assert Closed(u, Down(t, id)) && Closed(t, Down(u, id));
  }

  /** Items that write a node: neither empty nor deleted, and tagged root or with a parent. */
  predicate Writes(it: DeltaItem) {
    it.id != [] && !it.deleted && (it.isRoot || it.parentId.Some?)
  }

  function NodeOf(it: DeltaItem): Node {
    Node(if it.isRoot then None else it.parentId, it.name, it.meta)
  }

  /** The last record of each id. */
  function Last(items: seq<DeltaItem>): map<Id, DeltaItem> {
    if items == [] then map[]
    else Last(items[..|items| - 1])[items[|items| - 1].id := items[|items| - 1]]
  }

  function Written(items: seq<DeltaItem>): map<Id, Node> {
    var last := Last(items);
    map id | id in last :: NodeOf(last[id])
  }

  /** The two items would be siblings of the same name. */
  predicate Collide(a: DeltaItem, b: DeltaItem) {
    a.id != b.id && !a.isRoot && !b.isRoot && a.parentId == b.parentId && a.name == b.name
  }

  /** No record of the feed ever wants a place another record or another node of `t` holds. */
  ghost predicate NoCollisions(t: Tree, items: seq<DeltaItem>) {
    && (forall a, b :: a in items && b in items ==> !Collide(a, b))
    && (forall a, c :: a in items && c != a.id && !a.isRoot && a.parentId.Some? ==>
          !HasPlace(t, c, a.parentId.value, a.name))
  }

  /** Without a collision an item writes its node and nothing else. */
  lemma WriteOne(t: Tree, it: DeltaItem)
    requires Agree(t) && Writes(it)
    requires !it.isRoot ==> t.root != Some(it.id)
    requires !it.isRoot ==> forall c :: c != it.id ==> !HasPlace(t, c, it.parentId.value, it.name)
    ensures Apply(t, it).nodes == t.nodes[it.id := NodeOf(it)]
  {
    if !it.isRoot {
      if Evicted(t, it) != {} { var top := EvictedTop(t, it); }
      ApplyPlainNodes(t, it);
      assert t.nodes - {} == t.nodes;
    }
  }

  lemma ApplyAllSnoc(t: Tree, items: seq<DeltaItem>, it: DeltaItem)
    ensures ApplyAll(t, items + [it]) == Apply(ApplyAll(t, items), it)
  {
    ApplyAllConcat(t, items, [it]);
    assert [it][1..] == [];
  }

  lemma WrittenSnoc(items: seq<DeltaItem>, it: DeltaItem)
    ensures Written(items + [it]) == Written(items)[it.id := NodeOf(it)]
  {
    assert (items + [it])[..|items|] == items;
  }

  /** Over a feed without deletions and collisions the nodes are those the tree started with,
      overwritten by the last record of each id. */
  lemma {:induction false} FeedIsLastRecords(t: Tree, r: Id, items: seq<DeltaItem>)
    requires RunsUnder(t, r) && NoCollisions(t, items)
    requires forall it :: it in items ==> Writes(it) && KeepsToRoot(r, it)
    ensures ApplyAll(t, items).nodes == t.nodes + Written(items)
    decreases |items|
  {
    if items == [] {
      assert t.nodes + map[] == t.nodes;
    } else {
      var init, it := items[..|items| - 1], items[|items| - 1];
      assert items == init + [it];
      FeedIsLastRecords(t, r, init);
      FeedKeepsAgreement(t, r, init);
      ApplyAllSnoc(t, init, it);
      WriteLast(t, ApplyAll(t, init), r, init, it);
    }
  }

  lemma WriteLast(t: Tree, s: Tree, r: Id, init: seq<DeltaItem>, it: DeltaItem)
    requires NoCollisions(t, init + [it]) && Writes(it) && KeepsToRoot(r, it)
    requires Agree(s) && (s.root.Some? ==> s.root == Some(r)) && s.nodes == t.nodes + Written(init)
    ensures Apply(s, it).nodes == t.nodes + Written(init + [it])
  {
    PlaceIsFree(t, s, init, it);
    WriteOne(s, it);
    WrittenSnoc(init, it);
  }

  lemma PlaceIsFree(t: Tree, s: Tree, init: seq<DeltaItem>, it: DeltaItem)
    requires NoCollisions(t, init + [it]) && Writes(it) && s.nodes == t.nodes + Written(init)
    ensures !it.isRoot ==> forall c :: c != it.id ==> !HasPlace(s, c, it.parentId.value, it.name)
  {
    var items := init + [it];
    assert it in items;
    if !it.isRoot {
      var p := it.parentId.value;
      forall c | c != it.id ensures !HasPlace(s, c, p, it.name) {
        LastIsIn(init, c);
        if c in Last(init) {
          var x := Last(init)[c];
          assert s.nodes[c] == NodeOf(x);
          assert x in items && !Collide(x, it);
        } else {
          assert HasPlace(s, c, p, it.name) ==> HasPlace(t, c, p, it.name);
        }
      }
    }
  }

  lemma {:induction false} LastIsIn(items: seq<DeltaItem>, c: Id)
    ensures c in Last(items) ==> Last(items)[c] in items && Last(items)[c].id == c
    decreases |items|
  {
    if items != [] {
      LastIsIn(items[..|items| - 1], c);
    }
  }

  /** Two such feeds with the same last records build the same tree: reordering, repeating or
      superseding records makes no difference. */
  lemma OrderDoesNotMatter(t: Tree, r: Id, a: seq<DeltaItem>, b: seq<DeltaItem>)
    requires RunsUnder(t, r) && NoCollisions(t, a) && NoCollisions(t, b) && Last(a) == Last(b)
    requires forall it :: it in a || it in b ==> Writes(it) && KeepsToRoot(r, it)
    ensures ApplyAll(t, a).nodes == ApplyAll(t, b).nodes
    ensures ApplyAll(t, a).root == ApplyAll(t, b).root
    ensures forall p :: KidSet(ApplyAll(t, a), p) == KidSet(ApplyAll(t, b), p)
  {
    FeedIsLastRecords(t, r, a);
    FeedIsLastRecords(t, r, b);
    FeedKeepsAgreement(t, r, a);
    FeedKeepsAgreement(t, r, b);
    forall p ensures KidSet(ApplyAll(t, a), p) == KidSet(ApplyAll(t, b), p) {
      LikeKidSets(ApplyAll(t, a), ApplyAll(t, b), p);
    }
  }

  // ---------------------------------------------------------------- single records

  /** What an item comes to in any state of the maps, also broken ones: a tombstone takes its id out,
      a tagged or placed item leaves its record under its id, a tag makes its id what `/` resolves to,
      and anything else - no id, or neither tag nor parent - changes nothing. */
  lemma ItemTakesEffect(t: Tree, it: DeltaItem)
    ensures var r := Apply(t, it);
            && (it.id != [] && it.deleted ==> it.id !in r.nodes)
            && (Writes(it) ==> it.id in r.nodes && r.nodes[it.id] == NodeOf(it))
            && (Writes(it) && it.isRoot ==> Resolve(r, []) == Some(it.id) && r.nodes - {it.id} == t.nodes - {it.id} && r.kids == t.kids)
            && (it.id == [] || (!it.deleted && !it.isRoot && it.parentId == None) ==> r == t)
  {
  }

  /** No item brings back another id. */
  lemma AppliedNodes(t: Tree, it: DeltaItem, id: Id)
    requires id !in t.nodes && it.id != id
    ensures id !in Apply(t, it).nodes
  {
  }

  /** Whatever a feed holds otherwise, and whatever tree it meets: an id whose last record is a
      tombstone is in the tree no more. */
  lemma {:induction false} LastTombstoneHolds(t: Tree, items: seq<DeltaItem>, id: Id)
    requires id in Last(items) && Last(items)[id].deleted && id != []
    ensures id !in ApplyAll(t, items).nodes
    decreases |items|
  {
    hide Apply;
    var init, it := items[..|items| - 1], items[|items| - 1];
    assert items == init + [it];
    ApplyAllSnoc(t, init, it);
    if it.id == id {
      ItemTakesEffect(ApplyAll(t, init), it);
    } else {
      LastTombstoneHolds(t, init, id);
      AppliedNodes(ApplyAll(t, init), it, id);
    }
  }

  // ---------------------------------------------------------------- congruence

  lemma PruneLike(t: Tree, u: Tree, s: set<Id>)
    requires Like(t, u)
    ensures Like(Prune(t, s), Prune(u, s))
  {
  }

  /** Applying an item to trees with the same nodes gives trees with the same nodes. */
  lemma ApplyLike(t: Tree, u: Tree, r: Id, it: DeltaItem)
    requires Like(t, u) && RunsUnder(t, r) && RunsUnder(u, r) && KeepsToRoot(r, it)
    ensures Like(Apply(t, it), Apply(u, it)) && RunsUnder(Apply(t, it), r) && RunsUnder(Apply(u, it), r)
  {
    StepUnderRoot(t, r, it);
    StepUnderRoot(u, r, it);
    if it.id != [] && it.deleted {
      forall p ensures KidSet(t, p) == KidSet(u, p) { LikeKidSets(t, u, p); }
      LikeDown(t, u, it.id);
      PruneLike(t, u, Down(t, it.id));
    } else if it.id != [] && !it.isRoot && it.parentId.Some? {
      ApplyPlainLike(t, u, it);
    }
  }

  lemma ApplyPlainLike(t: Tree, u: Tree, it: DeltaItem)
    requires Like(t, u) && WellFormed(t) && WellFormed(u) && Plain(t, it)
    ensures Like(Apply(t, it), Apply(u, it))
  {
    EvictedLike(t, u, it);
    ApplyNonRootKeeps(t, it);
    ApplyNonRootKeeps(u, it);
    ApplyPlainNodes(t, it);
    ApplyPlainNodes(u, it);
    LikeOverwrite(t, u, Apply(t, it), Apply(u, it), Evicted(t, it), it.id, NodeOf(it));
  }

  lemma LikeOverwrite(t: Tree, u: Tree, r: Tree, w: Tree, s: set<Id>, id: Id, n: Node)
    requires Like(t, u) && r.root == w.root
    requires r.nodes == (t.nodes - s)[id := n] && w.nodes == (u.nodes - s)[id := n]
    ensures Like(r, w)
  {
  }

  lemma DetachLike(t: Tree, u: Tree, it: DeltaItem, p: Id)
    requires Like(t, u) && KidSet(t, p) == KidSet(u, p)
    ensures KidSet(Detach(t, it), p) == KidSet(Detach(u, it), p)
  {
    if it.id in t.nodes {
      var a, b := t.nodes[it.id], u.nodes[it.id];
      assert a.parent == b.parent && (a.parent.Some? ==> a.name == b.name);
    }
  }

  lemma EvictedLike(t: Tree, u: Tree, it: DeltaItem)
    requires Like(t, u) && Agree(t) && Agree(u) && it.parentId.Some?
    ensures Evicted(t, it) == Evicted(u, it)
  {
    var d, e := Detach(t, it), Detach(u, it);
    forall p ensures KidSet(d, p) == KidSet(e, p) {
      LikeKidSets(t, u, p);
      DetachLike(t, u, it, p);
    }
    var clash := Named(d, it.parentId.value, it.name) - {it.id};
    assert clash == Named(e, it.parentId.value, it.name) - {it.id};
    if clash != {} { LikeDown(d, e, Min(clash)); }
  }

  lemma {:induction false} ApplyAllLike(t: Tree, u: Tree, r: Id, items: seq<DeltaItem>)
    requires Like(t, u) && RunsUnder(t, r) && RunsUnder(u, r)
    requires forall it :: it in items ==> KeepsToRoot(r, it)
    ensures Like(ApplyAll(t, items), ApplyAll(u, items))
    ensures RunsUnder(ApplyAll(t, items), r) && RunsUnder(ApplyAll(u, items), r)
    decreases |items|
  {
    if items != [] {
      ApplyLike(t, u, r, items[0]);
      ApplyAllLike(Apply(t, items[0]), Apply(u, items[0]), r, items[1..]);
    }
  }
}
