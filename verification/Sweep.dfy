/** `sweep_orphans` keeps exactly the nodes that have a path. */
module Sweep {
  import opened Bytes
  import opened Namespace
  import opened Agreement
  import opened Resolution

  predicate WalksToRoot(t: Tree, cur: Id, fuel: nat)
    decreases fuel
  {
    && fuel > 0
    && (t.root == Some(cur)
        || (cur in t.nodes && t.nodes[cur].parent.Some? && WalksToRoot(t, t.nodes[cur].parent.value, fuel - 1)))
  }

  function Survivors(t: Tree): set<Id> {
    set id | id in t.nodes && WalksToRoot(t, id, WALK_LIMIT)
  }

  function SweepOrphans(t: Tree): Tree {
    if t.root == None then t
    else
      var keep := Survivors(t);
      Tree(map id | id in t.nodes && id in keep :: t.nodes[id],
           map p | p in t.kids && p in keep :: (set e | e in t.kids[p] && e.id in keep),
           t.root)
  }

  /** In any state of the maps, with or without cycles, a sweep keeps exactly the nodes that have the
      recorded root among themselves and their 63 nearest ancestors. */
  lemma SurvivorsReachRoot(t: Tree, id: Id)
    requires t.root.Some?
    ensures id in SweepOrphans(t).nodes <==> id in t.nodes && exists k: nat :: k < 64 && Ancestor(t, id, k) == t.root
  {
    WalksIffAncestor(t, id, WALK_LIMIT);
  }

  lemma {:induction false} WalksIffAncestor(t: Tree, id: Id, fuel: nat)
    requires t.root.Some?
    ensures WalksToRoot(t, id, fuel) <==> exists k: nat :: k < fuel && Ancestor(t, id, k) == t.root
    decreases fuel
  {
    if fuel > 0 {
      if id in t.nodes && t.nodes[id].parent.Some? { WalksIffAncestor(t, t.nodes[id].parent.value, fuel - 1); }
      forall k: nat | k < fuel && Ancestor(t, id, k) == t.root ensures WalksToRoot(t, id, fuel) {
        if k > 0 {
          var p := t.nodes[id].parent.value;
          assert k - 1 < fuel - 1 && Ancestor(t, p, k - 1) == t.root;
        } else {
          assert t.root == Some(id);
        }
      }
      if t.root == Some(id) {
        var k: nat := 0;
        assert k < fuel && Ancestor(t, id, k) == t.root;
      } else if WalksToRoot(t, id, fuel) {
        var p := t.nodes[id].parent.value;
        var k: nat :| k < fuel - 1 && Ancestor(t, p, k) == t.root;
        assert Ancestor(t, id, k + 1) == t.root;
      }
    }
  }

  lemma {:induction false} WalksIffClimbs(t: Tree, id: Id, fuel: nat)
    requires SoleRoot(t) && t.root.Some?
    ensures WalksToRoot(t, id, fuel) <==> Climb(t, id, fuel).Some?
    decreases fuel
  {
    if fuel > 0 && id in t.nodes && t.nodes[id].parent.Some? {
      WalksIffClimbs(t, t.nodes[id].parent.value, fuel - 1);
    }
  }

  lemma {:induction false} ClimbWithMore(t: Tree, id: Id, fuel: nat, more: nat)
    requires Climb(t, id, fuel).Some? && fuel <= more
    ensures Climb(t, id, more) == Climb(t, id, fuel)
    decreases fuel
  {
    if t.nodes[id].parent.Some? { ClimbWithMore(t, t.nodes[id].parent.value, fuel - 1, more - 1); }
  }

  /** The survivors of a sweep are exactly the nodes that had a path. */
  lemma SurvivorsHavePaths(t: Tree, id: Id)
    requires WellFormed(t) && t.root.Some?
    ensures id in SweepOrphans(t).nodes <==> PathOf(t, id).Some?
  {
    WalksIffClimbs(t, id, WALK_LIMIT);
  }

  lemma ParentSurvives(t: Tree, id: Id)
    requires WellFormed(t) && t.root.Some? && id in Survivors(t) && t.nodes[id].parent.Some?
    ensures t.nodes[id].parent.value in Survivors(t)
  {
    var p := t.nodes[id].parent.value;
    WalksIffClimbs(t, id, WALK_LIMIT);
    ClimbWithMore(t, p, WALK_LIMIT - 1, WALK_LIMIT);
    WalksIffClimbs(t, p, WALK_LIMIT);
  }

  lemma SweepPlaces(t: Tree, c: Id, p: Id, n: Str)
    requires t.root.Some?
    ensures HasPlace(SweepOrphans(t), c, p, n) <==> HasPlace(t, c, p, n) && c in Survivors(t)
  {
  }

  /** A sweep keeps the maps in agreement. */
  lemma SweepKeepsWellFormed(t: Tree)
    requires WellFormed(t)
    ensures WellFormed(SweepOrphans(t))
  {
    if t.root.Some? {
      var r := SweepOrphans(t);
      forall p, e | e in KidSet(r, p) ensures HasPlace(r, e.id, p, e.name) && e in KidSet(t, p) {
        assert e in KidSet(t, p);
        assert HasPlace(t, e.id, p, e.name);
        SweepPlaces(t, e.id, p, e.name);
      }
      forall p, n, c | HasPlace(r, c, p, n) ensures Entry(n, c) in KidSet(r, p) {
        SweepPlaces(t, c, p, n);
        assert Entry(n, c) in KidSet(t, p);
        ParentSurvives(t, c);
      }
    }
  }

  lemma SweepUnderRoot(t: Tree, r: Id)
    requires RunsUnder(t, r)
    ensures RunsUnder(SweepOrphans(t), r)
  {
    SweepKeepsWellFormed(t);
    hide Agree, UniqueSiblings;
    if t.root.Some? { RootSurvives(t); }
  }

  lemma RootSurvives(t: Tree)
    requires SoleRoot(t) && t.root.Some?
    ensures t.root.value in SweepOrphans(t).nodes
  {
  }

  lemma SweepKeepsNames(t: Tree)
    requires GoodNames(t) && [] !in t.nodes
    ensures GoodNames(SweepOrphans(t)) && [] !in SweepOrphans(t).nodes
  {
    hide WalksToRoot;
  }

  lemma {:induction false} SweepKeepsClimb(t: Tree, id: Id, fuel: nat)
    requires WellFormed(t) && t.root.Some? && id in Survivors(t)
    ensures Climb(SweepOrphans(t), id, fuel) == Climb(t, id, fuel)
    decreases fuel
  {
    if fuel > 0 && t.nodes[id].parent.Some? {
      ParentSurvives(t, id);
      SweepKeepsClimb(t, t.nodes[id].parent.value, fuel - 1);
    }
  }

  /** A sweep changes no survivor's path and leaves nothing without one, so no dangling parent
      and no cycle is left. */
  lemma SweepKeepsPaths(t: Tree, id: Id)
    requires WellFormed(t) && t.root.Some?
    ensures PathOf(SweepOrphans(t), id) == PathOf(t, id)
    ensures id in SweepOrphans(t).nodes <==> PathOf(SweepOrphans(t), id).Some?
  {
    WalksIffClimbs(t, id, WALK_LIMIT);
    if id in Survivors(t) { SweepKeepsClimb(t, id, WALK_LIMIT); }
  }

  /** Paths of fewer than 64 segments resolve as before; longer ones no longer do. */
  lemma SweepKeepsResolve(t: Tree, q: seq<Str>)
    requires WellFormed(t) && t.root.Some?
    ensures Resolve(SweepOrphans(t), q) == if |q| < 64 then Resolve(t, q) else None
  {
    var r := SweepOrphans(t);
    SweepKeepsWellFormed(t);
    var a, b := Resolve(r, q), Resolve(t, q);
    if a.Some? {
      ResolvedIsNode(r, q);
      assert a.value in Survivors(t);
      SweepKeepsClimb(t, a.value, WALK_LIMIT);
      WalksIffClimbs(t, a.value, WALK_LIMIT);
      var segs := Climb(t, a.value, WALK_LIMIT).value;
      ResolveIffClimb(r, segs, a.value, WALK_LIMIT);
      ResolveIffClimb(t, segs, a.value, WALK_LIMIT);
      ResolveInjective(r, segs, q);
    }
    if b.Some? && |q| < WALK_LIMIT {
      ResolveIffClimb(t, q, b.value, WALK_LIMIT);
      WalksIffClimbs(t, b.value, WALK_LIMIT);
      SweepKeepsClimb(t, b.value, WALK_LIMIT);
      ResolveIffClimb(r, q, b.value, WALK_LIMIT);
    }
  }

  /** Sweeping twice is sweeping once. */
  lemma SweepTwice(t: Tree)
    requires WellFormed(t)
    ensures SweepOrphans(SweepOrphans(t)) == SweepOrphans(t)
  {
    if t.root.Some? {
      var r := SweepOrphans(t);
      SweepKeepsWellFormed(t);
      forall id ensures id in Survivors(r) <==> id in r.nodes {
        SweepKeepsPaths(t, id);
        WalksIffClimbs(r, id, WALK_LIMIT);
      }
      assert Survivors(r) == r.nodes.Keys;
      forall p | p in r.kids ensures p in Survivors(r) && (set e | e in r.kids[p] && e.id in Survivors(r)) == r.kids[p] {
        assert forall e :: e in r.kids[p] ==> e.id in Survivors(t) && e in KidSet(t, p) && HasPlace(t, e.id, p, e.name);
      }
    }
  }
}
