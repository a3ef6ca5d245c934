/** What attaching, moving and removing an item does to every path. */
module Moves {
  import opened Bytes
  import opened Paths
  import opened Namespace
  import opened Agreement
  import opened Resolution

  // ---------------------------------------------------------------- subtrees and paths

  lemma {:induction false} WalkStaysInside(t: Tree, s: set<Id>, x: Id, segs: seq<Str>)
    requires Closed(t, s) && x in s && ResolveFrom(t, x, segs).Some?
    ensures ResolveFrom(t, x, segs).value in s
    decreases |segs|
  {
    if segs != [] {
      var c := ChildNamed(t, x, segs[0]).value;
      assert c in Named(t, x, segs[0]);
      assert Entry(segs[0], c) in KidSet(t, x);
      WalkStaysInside(t, s, c, segs[1..]);
    }
  }

  ghost predicate Reached(t: Tree, y: Id, x: Id) {
    exists segs :: ResolveFrom(t, y, segs) == Some(x)
  }

  lemma DownIsReached(t: Tree, y: Id, x: Id)
    requires Agree(t) && UniqueSiblings(t) && x in Down(t, y)
    ensures Reached(t, y, x)
  {
    var s := set z | z in Down(t, y) && Reached(t, y, z);
    assert ResolveFrom(t, y, []) == Some(y);
    hide ResolveFrom;
    forall p, e | p in s && e in KidSet(t, p) ensures e.id in s {
      var segs :| ResolveFrom(t, y, segs) == Some(p);
      assert HasPlace(t, e.id, p, e.name);
      ChildNamedIs(t, p, e.name, e.id);
      ResolveFromSnoc(t, y, segs, e.name);
      assert ResolveFrom(t, y, segs + [e.name]) == Some(e.id);
    }
    assert Closed(t, s);
  }

  /** The paths into the subtree of what `a` resolves to are the extensions of `a`. */
  lemma SubtreePaths(t: Tree, a: seq<Str>, q: seq<Str>)
    requires WellFormed(t) && Resolve(t, a).Some? && Resolve(t, q).Some?
    ensures Resolve(t, q).value in Down(t, Resolve(t, a).value) <==> a <= q
  {
    var y, x := Resolve(t, a).value, Resolve(t, q).value;
    if x in Down(t, y) {
      DownIsReached(t, y, x);
      var segs :| ResolveFrom(t, y, segs) == Some(x);
      ResolveConcat(t, a, segs);
      ResolveInjective(t, a + segs, q);
    }
    if a <= q {
      assert q == a + q[|a|..];
      ResolveConcat(t, a, q[|a|..]);
      WalkStaysInside(t, Down(t, y), y, q[|a|..]);
    }
  }

  /** Below the top of a subtree parents are inside it. */
  lemma ParentInside(t: Tree, top: Id, x: Id)
    requires Agree(t) && x in Down(t, top) && x != top
    ensures x in t.nodes && t.nodes[x].parent.Some? && t.nodes[x].parent.value in Down(t, top)
  {
    var d := Down(t, top);
    var s := set z | z in d && (z == top || (z in t.nodes && t.nodes[z].parent.Some? && t.nodes[z].parent.value in d));
    forall p, e | p in s && e in KidSet(t, p) ensures e.id in s {
      assert HasPlace(t, e.id, p, e.name);
    }
    assert Closed(t, s);
  }

  lemma {:induction false} AncestorIsAbove(t: Tree, x: Id, k: nat)
    requires Agree(t) && Ancestor(t, x, k).Some?
    ensures x in Down(t, Ancestor(t, x, k).value)
    decreases k
  {
    if k > 0 {
      var p, top := t.nodes[x].parent.value, Ancestor(t, x, k).value;
      AncestorIsAbove(t, p, k - 1);
      assert HasPlace(t, x, p, t.nodes[x].name);
      assert Entry(t.nodes[x].name, x) in KidSet(t, p);
    }
  }

  ghost predicate HasAncestor(t: Tree, x: Id, top: Id) {
    exists k: nat :: Ancestor(t, x, k) == Some(top)
  }

  /** What hangs below `top` is what has `top` on its parent chain. */
  lemma DownIsDescendants(t: Tree, top: Id, x: Id)
    requires Agree(t)
    ensures x in Down(t, top) <==> HasAncestor(t, x, top)
  {
    if HasAncestor(t, x, top) {
      var k: nat :| Ancestor(t, x, k) == Some(top);
      AncestorIsAbove(t, x, k);
    }
    var s := set z | z in Down(t, top) && HasAncestor(t, z, top);
    assert Ancestor(t, top, 0) == Some(top);
    forall p, e | p in s && e in KidSet(t, p) ensures e.id in s {
      var k: nat :| Ancestor(t, p, k) == Some(top);
      assert HasPlace(t, e.id, p, e.name);
      assert Ancestor(t, e.id, k + 1) == Some(top);
    }
    assert Closed(t, s);
  }

  // ---------------------------------------------------------------- attaching

  /** A plain item: neither empty, deleted nor a root tag, with a parent, and not for the root. */
  predicate Plain(t: Tree, it: DeltaItem) {
    it.id != [] && !it.deleted && !it.isRoot && it.parentId.Some? && t.root != Some(it.id)
  }

  /** The id the item evicts, if any, and with it its whole subtree. */
  ghost function Evicted(t: Tree, it: DeltaItem): set<Id>
    requires it.parentId.Some?
  {
    var clash := Named(Detach(t, it), it.parentId.value, it.name) - {it.id};
    if clash == {} then {} else Down(Detach(t, it), Min(clash))
  }

  /** Places after an item: the item's own place, and the places of what is not evicted. */
  lemma PlacesAfter(t: Tree, it: DeltaItem, c: Id, x: Id, n: Str)
    requires Plain(t, it)
    ensures HasPlace(Apply(t, it), c, x, n) <==>
            if c == it.id then Some(x) == it.parentId && n == it.name
            else c !in Evicted(t, it) && HasPlace(t, c, x, n)
  {
  }

  lemma ApplyPlainNodes(t: Tree, it: DeltaItem)
    requires Plain(t, it)
    ensures Apply(t, it).nodes == (t.nodes - Evicted(t, it))[it.id := Node(it.parentId, it.name, it.meta)]
  {
    if Evicted(t, it) == {} { assert t.nodes - {} == t.nodes; }
  }

  /** The evicted id sits at the item's parent under the item's name; what goes with it is
      downward closed but for the item itself, and lies below it. */
  lemma EvictedFacts(t: Tree, it: DeltaItem)
    requires WellFormed(t) && Plain(t, it)
    ensures it.id !in Evicted(t, it)
    ensures forall x :: x in Evicted(t, it) ==>
              && x in t.nodes && t.nodes[x].parent.Some?
              && (t.nodes[x].parent.value in Evicted(t, it) || HasPlace(t, x, it.parentId.value, it.name))
    ensures forall p, c, n :: p in Evicted(t, it) && c != it.id && HasPlace(t, c, p, n) ==> c in Evicted(t, it)
    ensures forall c :: c != it.id && HasPlace(t, c, it.parentId.value, it.name) ==>
              c in Evicted(t, it) && Evicted(t, it) <= Down(t, c)
  {
    var d := Detach(t, it);
    var clash := Named(d, it.parentId.value, it.name) - {it.id};
    EvictedIs(t, it);
    if clash != {} {
      var top := Min(clash);
      assert Entry(it.name, top) in KidSet(d, it.parentId.value);
      DetachKidSets(t, it, it.parentId.value);
      assert HasPlace(t, top, it.parentId.value, it.name);
      ClashIsNotInPlace(t, it, top);
      UprootKeepsAgree(t, it);
      var u := Uproot(t, it);
      NotReached(u, it.id, top);
      DownSameKids(d, u, top);
      forall x | x in Evicted(t, it)
        ensures x in t.nodes && t.nodes[x].parent.Some?
        ensures t.nodes[x].parent.value in Evicted(t, it) || HasPlace(t, x, it.parentId.value, it.name)
      {
        if x != top { ParentInside(u, top, x); }
      }
      forall p, c, n | p in Evicted(t, it) && c != it.id && HasPlace(t, c, p, n)
        ensures c in Evicted(t, it)
      {
        DetachKidSets(t, it, p);
        assert Entry(n, c) in KidSet(t, p);
        assert Entry(n, c) in KidSet(d, p);
      }
    }
  }

  lemma ClashIsNotInPlace(t: Tree, it: DeltaItem, c: Id)
    requires Agree(t) && UniqueSiblings(t) && it.parentId.Some?
    requires c != it.id && HasPlace(t, c, it.parentId.value, it.name)
    ensures !InPlace(t, it)
  {
    var p := it.parentId.value;
    assert Entry(it.name, c) in KidSet(t, p);
    assert InPlace(t, it) ==> Entry(it.name, it.id) in KidSet(t, p);
  }

  lemma EvictedIs(t: Tree, it: DeltaItem)
    requires WellFormed(t) && Plain(t, it)
    ensures forall c :: c != it.id && HasPlace(t, c, it.parentId.value, it.name) ==>
              c in Evicted(t, it) && Evicted(t, it) <= Down(t, c)
  {
    var d, p := Detach(t, it), it.parentId.value;
    DetachKidSets(t, it, p);
    var clash := Named(d, p, it.name) - {it.id};
    forall c | c != it.id && HasPlace(t, c, p, it.name)
      ensures c in Evicted(t, it) && Evicted(t, it) <= Down(t, c)
    {
      assert Entry(it.name, c) in KidSet(t, p);
      assert Entry(it.name, c) in KidSet(d, p);
      assert c in clash;
      forall x | x in clash ensures x == c {
        assert Entry(it.name, x) in KidSet(t, p);
      }
      assert Min(clash) == c;
      forall q, e | q in Down(t, c) && e in KidSet(d, q) ensures e.id in Down(t, c) {
        DetachKidSets(t, it, q);
      }
      assert Closed(d, Down(t, c));
    }
  }

  /** `it` puts its node under what `p` resolves to, from outside its own subtree. */
  ghost predicate AttachesAt(t: Tree, it: DeltaItem, p: seq<Str>) {
    && WellFormed(t) && Plain(t, it)
    && Resolve(t, p) == it.parentId
    && it.parentId.value !in Down(t, it.id)
    && OffCycle(t, it.id)
  }

  /** The node is not its own ancestor. */
  ghost predicate OffCycle(t: Tree, id: Id) {
    id in t.nodes && t.nodes[id].parent.Some? ==> t.nodes[id].parent.value !in Down(t, id)
  }

  lemma SubtreeNotEvicted(t: Tree, it: DeltaItem, p: seq<Str>)
    requires AttachesAt(t, it, p)
    ensures Down(t, it.id) !! Evicted(t, it)
  {
    EvictedFacts(t, it);
    var s := Down(t, it.id) - Evicted(t, it);
    forall q, e | q in s && e in KidSet(t, q) ensures e.id in s {
      assert HasPlace(t, e.id, q, e.name);
    }
    assert Closed(t, s);
  }

  /** Only paths through the new place lead to something evicted. */
  lemma EvictedLiesAtTarget(t: Tree, it: DeltaItem, p: seq<Str>, q: seq<Str>)
    requires AttachesAt(t, it, p) && Resolve(t, q).Some? && Resolve(t, q).value in Evicted(t, it)
    ensures p + [it.name] <= q
  {
    var top := EvictedTop(t, it);
    EvictedIs(t, it);
    ChildNamedIs(t, it.parentId.value, it.name, top);
    ResolveSnoc(t, p, it.name);
    SubtreePaths(t, p + [it.name], q);
  }

  lemma EvictedTop(t: Tree, it: DeltaItem) returns (top: Id)
    requires Agree(t) && it.parentId.Some? && Evicted(t, it) != {}
    ensures top != it.id && HasPlace(t, top, it.parentId.value, it.name)
  {
    var d, p := Detach(t, it), it.parentId.value;
    var clash := Named(d, p, it.name) - {it.id};
    top := Min(clash);
    DetachKidSets(t, it, p);
    assert Entry(it.name, top) in KidSet(d, p);
  }

  // ---------------------------------------------------------------- grafting

  /** `r` is `t` with the subtree of `id` sitting under the name `n` of what `p` resolves to,
      and without the ids in `gone`, which only paths through the new place led to. */
  ghost predicate Grafts(t: Tree, r: Tree, id: Id, p: seq<Str>, n: Str, gone: set<Id>) {
    && WellFormed(t) && WellFormed(r) && r.root == t.root && t.root != Some(id)
    && Resolve(t, p).Some? && Resolve(t, p).value !in Down(t, id)
    && Down(t, id) !! gone && OffCycle(t, id)
    && Relocates(t, r, id, Resolve(t, p).value, n, gone)
    && forall q :: Resolve(t, q).Some? && Resolve(t, q).value in gone ==> p + [n] <= q
  }

  ghost predicate Relocates(t: Tree, r: Tree, id: Id, parent: Id, n: Str, gone: set<Id>) {
    forall c, x, m :: HasPlace(r, c, x, m) <==>
      if c == id then x == parent && m == n else c !in gone && HasPlace(t, c, x, m)
  }

  /** Attaching an item from outside its own subtree grafts it. */
  lemma AttachGrafts(t: Tree, it: DeltaItem, p: seq<Str>)
    requires AttachesAt(t, it, p)
    ensures Grafts(t, Apply(t, it), it.id, p, it.name, Evicted(t, it))
  {
    ApplyNonRootKeeps(t, it);
    SubtreeNotEvicted(t, it, p);
    forall c, x, m ensures HasPlace(Apply(t, it), c, x, m) <==>
      if c == it.id then x == it.parentId.value && m == it.name
      else c !in Evicted(t, it) && HasPlace(t, c, x, m)
    {
      PlacesAfter(t, it, c, x, m);
    }
    forall q | Resolve(t, q).Some? && Resolve(t, q).value in Evicted(t, it) ensures p + [it.name] <= q {
      EvictedLiesAtTarget(t, it, p, q);
    }
  }

  lemma SameChild(t: Tree, r: Tree, x: Id, n: Str)
    requires Agree(t) && UniqueSiblings(t) && Agree(r) && UniqueSiblings(r)
    requires forall c :: HasPlace(r, c, x, n) <==> HasPlace(t, c, x, n)
    ensures ChildNamed(r, x, n) == ChildNamed(t, x, n)
  {
    var a, b := ChildNamed(r, x, n), ChildNamed(t, x, n);
    if a.Some? { ChildNamedIs(r, x, n, a.value); ChildNamedIs(t, x, n, a.value); }
    if b.Some? { ChildNamedIs(r, x, n, b.value); ChildNamedIs(t, x, n, b.value); }
  }

  lemma ChildIsInside(t: Tree, s: set<Id>, x: Id, n: Str)
    requires Closed(t, s) && x in s && ChildNamed(t, x, n).Some?
    ensures ChildNamed(t, x, n).value in s
  {
    assert Entry(n, ChildNamed(t, x, n).value) in KidSet(t, x);
  }

  /** A step that starts inside the moved subtree is unchanged. */
  lemma StepInside(t: Tree, r: Tree, id: Id, p: seq<Str>, n: Str, gone: set<Id>, x: Id, m: Str)
    requires Grafts(t, r, id, p, n, gone) && x in Down(t, id)
    ensures ChildNamed(r, x, m) == ChildNamed(t, x, m)
  {
    forall c ensures HasPlace(r, c, x, m) <==> HasPlace(t, c, x, m) {
      if HasPlace(t, c, x, m) { assert Entry(m, c) in KidSet(t, x); }
    }
    SameChild(t, r, x, m);
  }

  ghost predicate LeadsInto(t: Tree, q: seq<Str>, id: Id) {
    Resolve(t, q).Some? && Resolve(t, q).value in Down(t, id)
  }

  /** Where every path leads once `id` sits at `to`. */
  ghost function After(t: Tree, id: Id, to: seq<Str>, q: seq<Str>): Option<Id> {
    if to <= q then ResolveFrom(t, id, q[|to|..])
    else if LeadsInto(t, q, id) then None
    else Resolve(t, q)
  }

  lemma ResolveFromSnoc(t: Tree, x: Id, s: seq<Str>, m: Str)
    ensures ResolveFrom(t, x, s + [m]) ==
            if ResolveFrom(t, x, s) == None then None else ChildNamed(t, ResolveFrom(t, x, s).value, m)
  {
    ResolveFromConcat(t, x, s, [m]);
    assert [m][1..] == [];
  }

  /** One more segment below the new place. */
  lemma ExtendBelow(t: Tree, r: Tree, id: Id, p: seq<Str>, n: Str, gone: set<Id>, q: seq<Str>, m: Str)
    requires Grafts(t, r, id, p, n, gone) && p + [n] <= q
    requires Resolve(r, q) == After(t, id, p + [n], q)
    ensures Resolve(r, q + [m]) == After(t, id, p + [n], q + [m])
  {
    var s := q[|p + [n]|..];
    assert (q + [m])[|p + [n]|..] == s + [m];
    ResolveSnoc(r, q, m);
    ResolveFromSnoc(t, id, s, m);
    var x := ResolveFrom(t, id, s);
    if x.Some? {
      WalkStaysInside(t, Down(t, id), id, s);
      StepInside(t, r, id, p, n, gone, x.value, m);
    }
  }

  /** The step that reaches the new place. */
  lemma ExtendOnto(t: Tree, r: Tree, id: Id, p: seq<Str>, n: Str, gone: set<Id>)
    requires Grafts(t, r, id, p, n, gone) && Resolve(r, p) == Resolve(t, p)
    ensures Resolve(r, p + [n]) == Some(id)
  {
    ResolveSnoc(r, p, n);
    assert HasPlace(r, id, Resolve(t, p).value, n);
    ChildNamedIs(r, Resolve(t, p).value, n, id);
  }

  /** One more segment outside the moved subtree and not onto the new place. */
  lemma ExtendOutside(t: Tree, r: Tree, id: Id, p: seq<Str>, n: Str, gone: set<Id>, q: seq<Str>, m: Str)
    requires Grafts(t, r, id, p, n, gone) && !(p + [n] <= q + [m])
    requires Resolve(t, q).Some? && !LeadsInto(t, q, id) && Resolve(r, q) == Resolve(t, q)
    ensures Resolve(r, q + [m]) == After(t, id, p + [n], q + [m])
  {
    var x := Resolve(t, q).value;
    ResolveSnoc(t, q, m);
    ResolveSnoc(r, q, m);
    var a, b := ChildNamed(r, x, m), ChildNamed(t, x, m);
    if a.Some? {
      ChildNamedIs(r, x, m, a.value);
      ChildNamedIs(t, x, m, a.value);
      if a.value == id { ResolveInjective(t, p, q); }
      assert HasPlace(t, a.value, x, m);
      OutsideStaysOutside(t, id, x, a.value);
    }
    if b.Some? && b.value != id {
      ChildNamedIs(t, x, m, b.value);
      ChildNamedIs(r, x, m, b.value);
    }
  }

  lemma OutsideStaysOutside(t: Tree, id: Id, x: Id, c: Id)
    requires Agree(t) && x !in Down(t, id) && c in t.nodes && t.nodes[c].parent == Some(x)
    ensures c == id || c !in Down(t, id)
  {
    if c != id && c in Down(t, id) { ParentInside(t, id, c); }
  }

  lemma ExtendInto(t: Tree, q: seq<Str>, m: Str, id: Id)
    requires LeadsInto(t, q, id) && Resolve(t, q + [m]).Some?
    ensures LeadsInto(t, q + [m], id)
  {
    ResolveSnoc(t, q, m);
    ChildIsInside(t, Down(t, id), Resolve(t, q).value, m);
  }

  /** A graft decides every path: below the new place what was below the moved node, nothing
      where its subtree was, and everything else as before. */
  lemma {:induction false} GraftResolves(t: Tree, r: Tree, id: Id, p: seq<Str>, n: Str, gone: set<Id>, q: seq<Str>)
    requires Grafts(t, r, id, p, n, gone)
    ensures Resolve(r, q) == After(t, id, p + [n], q)
    decreases |q|
  {
    if q == [] {
      RootOutside(t, id);
    } else {
      var init, m := q[..|q| - 1], q[|q| - 1];
      assert q == init + [m];
      GraftResolves(t, r, id, p, n, gone, init);
      PrefixOfSnoc(p, n, init, m);
      if p + [n] <= init {
        ExtendBelow(t, r, id, p, n, gone, init, m);
      } else if p + [n] == q {
        NotBelowParent(t, r, id, p, n, gone);
        ExtendOnto(t, r, id, p, n, gone);
        assert q[|p + [n]|..] == [];
      } else {
        ResolveSnoc(r, init, m);
        ResolveSnoc(t, init, m);
        if LeadsInto(t, init, id) {
          if Resolve(t, q).Some? { ExtendInto(t, init, m, id); }
        } else if Resolve(t, init).Some? {
          ExtendOutside(t, r, id, p, n, gone, init, m);
        }
      }
    }
  }

  lemma NotBelowParent(t: Tree, r: Tree, id: Id, p: seq<Str>, n: Str, gone: set<Id>)
    requires Grafts(t, r, id, p, n, gone)
    ensures After(t, id, p + [n], p) == Resolve(t, p)
  {
  }

  lemma PrefixOfSnoc(p: seq<Str>, n: Str, q: seq<Str>, m: Str)
    ensures p + [n] <= q + [m] <==> p + [n] <= q || p + [n] == q + [m]
    ensures p + [n] == q + [m] ==> p == q && n == m
  {
    var a, b := p + [n], q + [m];
    if a <= b && |a| < |b| { assert a == b[..|a|] == q[..|a|]; }
    if a == b { assert p == a[..|p|] == b[..|q|] == q && n == a[|p|] == m; }
  }

  /** The root lies in no other node's subtree. */
  lemma RootOutside(t: Tree, id: Id)
    requires WellFormed(t) && t.root != Some(id)
    ensures !LeadsInto(t, [], id)
  {
    if t.root.Some? {
      forall p, e | e in KidSet(t, p) ensures e.id != t.root.value { assert HasPlace(t, e.id, p, e.name); }
      NotReached(t, t.root.value, id);
    }
  }

  // ---------------------------------------------------------------- losing a subtree

  /** Outside the subtree of `id` the trees have the same places, and none of them is taken by
      that subtree in `r`. */
  ghost predicate Loses(t: Tree, r: Tree, id: Id) {
    && WellFormed(t) && WellFormed(r)
    && r.root == (if t.root == Some(id) then None else t.root)
    && forall c, x, m :: x !in Down(t, id) ==> (HasPlace(r, c, x, m) <==> c !in Down(t, id) && HasPlace(t, c, x, m))
  }

  /** Exactly the paths into the lost subtree stop resolving; no other path changes. */
  lemma {:induction false} LossResolves(t: Tree, r: Tree, id: Id, q: seq<Str>)
    requires Loses(t, r, id)
    ensures Resolve(r, q) == if LeadsInto(t, q, id) then None else Resolve(t, q)
    decreases |q|
  {
    if q == [] {
      if t.root != Some(id) { RootOutside(t, id); }
    } else {
      var init, m := q[..|q| - 1], q[|q| - 1];
      assert q == init + [m];
      LossResolves(t, r, id, init);
      ResolveSnoc(r, init, m);
      ResolveSnoc(t, init, m);
      if LeadsInto(t, init, id) {
        if Resolve(t, q).Some? { ExtendInto(t, init, m, id); }
      } else if Resolve(t, init).Some? {
        LossStep(t, r, id, Resolve(t, init).value, m);
      }
    }
  }

  lemma LossStep(t: Tree, r: Tree, id: Id, x: Id, m: Str)
    requires Loses(t, r, id) && x !in Down(t, id)
    ensures ChildNamed(r, x, m) ==
            if ChildNamed(t, x, m).Some? && ChildNamed(t, x, m).value in Down(t, id) then None
            else ChildNamed(t, x, m)
  {
    var a, b := ChildNamed(r, x, m), ChildNamed(t, x, m);
    if a.Some? { ChildNamedIs(r, x, m, a.value); ChildNamedIs(t, x, m, a.value); }
    if b.Some? { ChildNamedIs(r, x, m, b.value); ChildNamedIs(t, x, m, b.value); }
  }

  /** Removing an id loses its subtree. */
  lemma RemovalLoses(t: Tree, id: Id)
    requires WellFormed(t)
    ensures Loses(t, Prune(t, Down(t, id)), id)
  {
    DeletionKeeps(t, id);
    if t.root.Some? && t.root.value != id { RootOutside(t, id); }
  }

  /** A deletion item loses the subtree of its id, wherever in the tree that is: exactly the ids with
      it on their parent chain are gone, all others keep their record, and exactly the paths at and
      below its own stop resolving. */
  lemma DeletionLoses(t: Tree, it: DeltaItem, c: Id, q: seq<Str>)
    requires WellFormed(t) && it.deleted && it.id != []
    ensures var r := Apply(t, it);
            && Loses(t, r, it.id)
            && (c in r.nodes <==> c in t.nodes && !HasAncestor(t, c, it.id))
            && (c in r.nodes ==> r.nodes[c] == t.nodes[c])
            && Resolve(r, q) == if Resolve(t, q).Some? && HasAncestor(t, Resolve(t, q).value, it.id) then None else Resolve(t, q)
    ensures forall p :: Resolve(t, p) == Some(it.id) && p <= q ==> Resolve(Apply(t, it), q) == None
  {
    hide Agree, UniqueSiblings, SoleRoot, HasAncestor;
    RemovalLoses(t, it.id);
    DownIsDescendants(t, it.id, c);
    LossResolves(t, Apply(t, it), it.id, q);
    if Resolve(t, q).Some? {
      DownIsDescendants(t, it.id, Resolve(t, q).value);
      forall p | Resolve(t, p) == Some(it.id) && p <= q ensures LeadsInto(t, q, it.id) { SubtreePaths(t, p, q); }
    }
  }

  /** Moving an id under one of its own descendants loses its subtree as well. */
  lemma MoveInsideLoses(t: Tree, it: DeltaItem)
    requires WellFormed(t) && Plain(t, it) && it.parentId.value in Down(t, it.id)
    ensures Loses(t, Apply(t, it), it.id)
  {
    var r, d := Apply(t, it), Down(t, it.id);
    ApplyNonRootKeeps(t, it);
    EvictedFacts(t, it);
    forall c, x, m | x !in d ensures HasPlace(r, c, x, m) <==> c !in d && HasPlace(t, c, x, m) {
      PlacesAfter(t, it, c, x, m);
      if HasPlace(t, c, x, m) {
        OutsideStaysOutside(t, it.id, x, c);
        if c in Evicted(t, it) { EvictedBelowParent(t, it); }
      }
    }
  }

  lemma EvictedBelowParent(t: Tree, it: DeltaItem)
    requires WellFormed(t) && Plain(t, it) && it.parentId.value in Down(t, it.id)
    ensures Evicted(t, it) <= Down(t, it.id)
  {
    if Evicted(t, it) != {} {
      var top := EvictedTop(t, it);
      EvictedIs(t, it);
      assert Entry(it.name, top) in KidSet(t, it.parentId.value);
      assert Down(t, top) <= Down(t, it.id);
    }
  }

  // ---------------------------------------------------------------- names

  /** An item that places a node gives it a usable name. */
  predicate NamesWell(it: DeltaItem) {
    it.id != [] && !it.deleted && !it.isRoot && it.parentId.Some? ==> GoodSeg(it.name)
  }

  lemma ApplyKeepsNames(t: Tree, it: DeltaItem)
    requires GoodNames(t) && [] !in t.nodes && NamesWell(it)
    ensures GoodNames(Apply(t, it)) && [] !in Apply(t, it).nodes
  {
  }

  /** A feed of well-named items builds a well-named tree. */
  lemma {:induction false} FeedKeepsNames(t: Tree, items: seq<DeltaItem>)
    requires GoodNames(t) && [] !in t.nodes && forall it :: it in items ==> NamesWell(it)
    ensures GoodNames(ApplyAll(t, items)) && [] !in ApplyAll(t, items).nodes
    decreases |items|
  {
    if items != [] {
      ApplyKeepsNames(t, items[0]);
      FeedKeepsNames(Apply(t, items[0]), items[1..]);
    }
  }
}
