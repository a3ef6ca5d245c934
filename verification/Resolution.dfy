/** Walking down (`resolve`) and walking up (`path_of`) are inverse, whatever cycles and
    dangling parents sit elsewhere in the maps. */
module Resolution {
  import opened Bytes
  import opened Paths
  import opened Namespace

  /** Both upward walks give up after this many nodes. */
  const WALK_LIMIT: nat := 64

  /** The first entry of that name in `p`'s set. */
  ghost function ChildNamed(t: Tree, p: Id, n: Str): Option<Id> {
    var ids := Named(t, p, n);
    if ids == {} then None else Some(Min(ids))
  }

  ghost function ResolveFrom(t: Tree, cur: Id, segs: seq<Str>): Option<Id>
    decreases |segs|
  {
    if segs == [] then Some(cur)
    else
      var c := ChildNamed(t, cur, segs[0]);
      if c == None then None else ResolveFrom(t, c.value, segs[1..])
  }

  ghost function Resolve(t: Tree, segs: seq<Str>): Option<Id> {
    if t.root == None then None else ResolveFrom(t, t.root.value, segs)
  }

  ghost function ResolvePath(t: Tree, path: Str): Option<Id> { Resolve(t, Segments(path)) }

  /** The names from a parentless node down to `id`, looking at no more than `fuel` nodes. */
  function Climb(t: Tree, id: Id, fuel: nat): Option<seq<Str>>
    decreases fuel
  {
    if fuel == 0 || id !in t.nodes then None
    else if t.nodes[id].parent == None then Some([])
    else
      var up := Climb(t, t.nodes[id].parent.value, fuel - 1);
      if up == None then None else Some(up.value + [t.nodes[id].name])
  }

  function PathOf(t: Tree, id: Id): Option<Str> {
    var segs := Climb(t, id, WALK_LIMIT);
    if segs == None then None else Some(Render(segs.value))
  }

  // ---------------------------------------------------------------- one step

  lemma ChildNamedIs(t: Tree, p: Id, n: Str, c: Id)
    requires Agree(t) && UniqueSiblings(t)
    ensures ChildNamed(t, p, n) == Some(c) <==> HasPlace(t, c, p, n)
  {
    forall x ensures x in Named(t, p, n) <==> HasPlace(t, x, p, n) {
      if HasPlace(t, x, p, n) { assert Entry(n, x) in KidSet(t, p); }
    }
    forall x, y | x in Named(t, p, n) && y in Named(t, p, n) ensures x == y {
      assert Entry(n, x) in KidSet(t, p) && Entry(n, y) in KidSet(t, p);
    }
  }

  lemma {:induction false} ResolveFromConcat(t: Tree, x: Id, a: seq<Str>, b: seq<Str>)
    ensures ResolveFrom(t, x, a + b) ==
            if ResolveFrom(t, x, a) == None then None
            else ResolveFrom(t, ResolveFrom(t, x, a).value, b)
    decreases |a|
  {
    if a == [] {
      assert a + b == b;
    } else {
      assert (a + b)[0] == a[0] && (a + b)[1..] == a[1..] + b;
      var c := ChildNamed(t, x, a[0]);
      if c.Some? { ResolveFromConcat(t, c.value, a[1..], b); }
    }
  }

  lemma ResolveConcat(t: Tree, a: seq<Str>, b: seq<Str>)
    ensures Resolve(t, a + b) ==
            if Resolve(t, a) == None then None else ResolveFrom(t, Resolve(t, a).value, b)
  {
    if t.root.Some? { ResolveFromConcat(t, t.root.value, a, b); }
  }

  lemma ResolveSnoc(t: Tree, a: seq<Str>, n: Str)
    ensures Resolve(t, a + [n]) ==
            if Resolve(t, a) == None then None else ChildNamed(t, Resolve(t, a).value, n)
  {
    ResolveConcat(t, a, [n]);
    if Resolve(t, a).Some? {
      var x := Resolve(t, a).value;
      assert [n][1..] == [];
      assert ResolveFrom(t, x, [n]) == ChildNamed(t, x, n);
    }
  }

  /** The last step of a walk, read upward. */
  lemma ResolveLast(t: Tree, segs: seq<Str>, id: Id)
    requires WellFormed(t) && segs != []
    ensures Resolve(t, segs) == Some(id) <==>
            && id in t.nodes && t.nodes[id].parent.Some?
            && Resolve(t, segs[..|segs| - 1]) == t.nodes[id].parent
            && t.nodes[id].name == segs[|segs| - 1]
  {
    var init, n := segs[..|segs| - 1], segs[|segs| - 1];
    assert segs == init + [n];
    ResolveSnoc(t, init, n);
    if Resolve(t, init).Some? { ChildNamedIs(t, Resolve(t, init).value, n, id); }
  }

  // ---------------------------------------------------------------- the walk down, step by step

  /** `ids` starts at the recorded root, and each next one has the least id among the entries of its
      name in the set of the one before. */
  ghost predicate StepsDown(t: Tree, ids: seq<Id>, segs: seq<Str>) {
    && |ids| == |segs| + 1 && t.root == Some(ids[0])
    && forall i :: 0 <= i < |segs| ==> IsLeast(ids[i + 1], set e | e in KidSet(t, ids[i]) && e.name == segs[i] :: e.id)
  }

  /** In any state of the maps, also broken ones, a path leads to an id exactly if such a walk does. */
  lemma {:induction false} ResolveIffSteps(t: Tree, segs: seq<Str>, id: Id)
    ensures Resolve(t, segs) == Some(id) <==> exists ids :: StepsDown(t, ids, segs) && ids[|segs|] == id
    decreases |segs|
  {
    if segs == [] {
      if Resolve(t, []) == Some(id) { assert StepsDown(t, [id], []); }
    } else {
      var init, n := segs[..|segs| - 1], segs[|segs| - 1];
      assert segs == init + [n];
      ResolveSnoc(t, init, n);
      if Resolve(t, segs) == Some(id) {
        ResolveIffSteps(t, init, Resolve(t, init).value);
        var ids :| StepsDown(t, ids, init) && ids[|init|] == Resolve(t, init).value;
        assert StepsDown(t, ids + [id], segs);
      }
      forall ids | StepsDown(t, ids, segs) && ids[|segs|] == id ensures Resolve(t, segs) == Some(id) {
        assert StepsDown(t, ids[..|segs|], init);
        ResolveIffSteps(t, init, ids[|init|]);
        assert IsLeast(ids[|init| + 1], Named(t, ids[|init|], segs[|init|]));
        MinIs(Named(t, ids[|init|], n), id);
      }
    }
  }

  // ---------------------------------------------------------------- down and up are inverse

  /** A path of fewer than `fuel` segments leads to `id` exactly when the upward walk of
      `fuel` nodes from `id` spells it. */
  lemma {:induction false} ResolveIffClimb(t: Tree, segs: seq<Str>, id: Id, fuel: nat)
    requires WellFormed(t)
    ensures Resolve(t, segs) == Some(id) && |segs| < fuel <==> Climb(t, id, fuel) == Some(segs)
    decreases fuel
  {
    if fuel > 0 {
      if segs == [] {
        if id in t.nodes && t.nodes[id].parent.Some? && Climb(t, t.nodes[id].parent.value, fuel - 1).Some? {
          assert |Climb(t, id, fuel).value| > 0;
        }
      } else {
        ResolveLast(t, segs, id);
        if id in t.nodes && t.nodes[id].parent.Some? {
          var init, p := segs[..|segs| - 1], t.nodes[id].parent.value;
          ResolveIffClimb(t, init, p, fuel - 1);
          assert segs == init + [segs[|segs| - 1]];
          var up := Climb(t, p, fuel - 1);
          if up.Some? {
            var c := up.value + [t.nodes[id].name];
            assert c[..|c| - 1] == up.value;
          }
        }
      }
    }
  }

  /** Two paths to the same node are the same path. */
  lemma ResolveInjective(t: Tree, a: seq<Str>, b: seq<Str>)
    requires WellFormed(t) && Resolve(t, a).Some? && Resolve(t, a) == Resolve(t, b)
    ensures a == b
  {
    var id, fuel := Resolve(t, a).value, |a| + |b| + 1;
    ResolveIffClimb(t, a, id, fuel);
    ResolveIffClimb(t, b, id, fuel);
  }

  lemma ResolvedIsNode(t: Tree, segs: seq<Str>)
    requires WellFormed(t) && Resolve(t, segs).Some?
    ensures Resolve(t, segs).value in t.nodes
  {
    if segs != [] { ResolveLast(t, segs, Resolve(t, segs).value); }
  }

  /** The `k`-th ancestor. */
  function Ancestor(t: Tree, id: Id, k: nat): Option<Id>
    decreases k
  {
    if k == 0 then Some(id)
    else if id in t.nodes && t.nodes[id].parent.Some? then Ancestor(t, t.nodes[id].parent.value, k - 1)
    else None
  }

  lemma {:induction false} AncestorsAreThePath(t: Tree, segs: seq<Str>, k: nat)
    requires WellFormed(t) && Resolve(t, segs).Some? && k <= |segs|
    ensures Ancestor(t, Resolve(t, segs).value, k) == Resolve(t, segs[..|segs| - k])
    decreases |segs|
  {
    if k == 0 {
      assert segs[..|segs|] == segs;
    } else {
      ResolveLast(t, segs, Resolve(t, segs).value);
      var init := segs[..|segs| - 1];
      AncestorsAreThePath(t, init, k - 1);
      assert init[..|init| - (k - 1)] == segs[..|segs| - k];
    }
  }

  /** Whatever a path resolves to has an acyclic parent chain that ends at the root after as
      many steps as the path has segments. */
  lemma ResolvedChainIsAcyclic(t: Tree, segs: seq<Str>)
    requires WellFormed(t) && Resolve(t, segs).Some?
    ensures var id := Resolve(t, segs).value;
            && Ancestor(t, id, |segs|) == t.root
            && Ancestor(t, id, |segs| + 1) == None
            && forall i, j :: 0 <= i < j <= |segs| ==> Ancestor(t, id, i) != Ancestor(t, id, j)
  {
    var id := Resolve(t, segs).value;
    AncestorsAreThePath(t, segs, |segs|);
    assert segs[..0] == [];
    AncestorEnd(t, id, |segs|);
    forall i, j | 0 <= i < j <= |segs| ensures Ancestor(t, id, i) != Ancestor(t, id, j) {
      AncestorsAreThePath(t, segs, i);
      AncestorsAreThePath(t, segs, j);
      var a, b := segs[..|segs| - i], segs[..|segs| - j];
      assert |a| != |b|;
      PrefixResolves(t, segs, |segs| - i);
      if Resolve(t, a) == Resolve(t, b) { ResolveInjective(t, a, b); }
    }
  }

  lemma PrefixResolves(t: Tree, segs: seq<Str>, k: nat)
    requires k <= |segs| && Resolve(t, segs).Some?
    ensures Resolve(t, segs[..k]).Some?
  {
    assert segs == segs[..k] + segs[k..];
    ResolveConcat(t, segs[..k], segs[k..]);
  }

  lemma {:induction false} AncestorEnd(t: Tree, id: Id, k: nat)
    requires SoleRoot(t) && t.root.Some? && Ancestor(t, id, k) == t.root
    ensures Ancestor(t, id, k + 1) == None
    decreases k
  {
    if k > 0 { AncestorEnd(t, t.nodes[id].parent.value, k - 1); }
  }

  // ---------------------------------------------------------------- on path strings

  /** Every node but the root has a non-empty name without a slash. */
  ghost predicate GoodNames(t: Tree) {
    forall c :: c in t.nodes && t.nodes[c].parent.Some? ==> GoodSeg(t.nodes[c].name)
  }

  lemma {:induction false} ClimbIsGood(t: Tree, id: Id, fuel: nat)
    requires GoodNames(t) && Climb(t, id, fuel).Some?
    ensures GoodSegs(Climb(t, id, fuel).value) && |Climb(t, id, fuel).value| < fuel
    decreases fuel
  {
    if t.nodes[id].parent.Some? { ClimbIsGood(t, t.nodes[id].parent.value, fuel - 1); }
  }

  /** `resolve(path_of(id))` is `id`. */
  lemma PathOfResolves(t: Tree, id: Id)
    requires WellFormed(t) && GoodNames(t) && PathOf(t, id).Some?
    ensures ResolvePath(t, PathOf(t, id).value) == Some(id)
    ensures |Segments(PathOf(t, id).value)| < 64
    ensures Climb(t, id, WALK_LIMIT) == Some(Segments(PathOf(t, id).value))
  {
    var segs := Climb(t, id, WALK_LIMIT).value;
    ClimbIsGood(t, id, WALK_LIMIT);
    SegmentsOfRender(segs);
    ResolveIffClimb(t, segs, id, WALK_LIMIT);
  }

  /** For a path of fewer than 64 segments `resolve` finds `id` exactly when `path_of(id)` is
      the path in normal form. */
  lemma ResolveIffPathOf(t: Tree, path: Str, id: Id)
    requires WellFormed(t) && GoodNames(t)
    ensures ResolvePath(t, path) == Some(id) && |Segments(path)| < 64
            <==> PathOf(t, id) == Some(Normalize(path))
  {
    ResolveIffClimb(t, Segments(path), id, WALK_LIMIT);
    if PathOf(t, id) == Some(Normalize(path)) {
      ClimbIsGood(t, id, WALK_LIMIT);
      SegmentsAreGood(path);
      RenderInjective(Climb(t, id, WALK_LIMIT).value, Segments(path));
    }
  }

  lemma PathOfInjective(t: Tree, a: Id, b: Id)
    requires WellFormed(t) && GoodNames(t) && PathOf(t, a).Some? && PathOf(t, a) == PathOf(t, b)
    ensures a == b
  {
    PathOfResolves(t, a);
    PathOfResolves(t, b);
  }
}
