/** What happens at the depth where the upward walks give up: a chain of directories one deeper
    than they reach. */
module Depth {
  import opened Bytes
  import opened Paths
  import opened Namespace
  import opened Agreement
  import opened Resolution
  import opened Moves
  import opened PathEdits
  import opened Sweep
  import opened Ordering
  import opened Snapshot
  import opened SnapshotLookup
  import opened SnapshotDecode
  import opened Reloading
  import opened Answers
  import opened WriteThrough
  import opened Sync
  import opened Resumption

  const SEG: Str := [100]

  function IdAt(k: nat): (id: Id)
    ensures |id| == k + 1
  {
    if k == 0 then [1] else IdAt(k - 1) + [1]
  }

  function Names(k: nat): (segs: seq<Str>)
    ensures |segs| == k && GoodSegs(segs)
  {
    if k == 0 then [] else Names(k - 1) + [SEG]
  }

  function LinkItem(k: nat, meta: ItemMeta): DeltaItem {
    if k == 0 then DeltaItem(IdAt(0), None, [], false, true, meta)
    else DeltaItem(IdAt(k), Some(IdAt(k - 1)), SEG, false, false, meta)
  }

  /** A root and `n` directories below one another, top first. */
  function ChainFeed(n: nat, meta: ItemMeta): seq<DeltaItem> {
    (if n == 0 then [] else ChainFeed(n - 1, meta)) + [LinkItem(n, meta)]
  }

  ghost function Chain(n: nat, meta: ItemMeta): Tree { ApplyAll(EMPTY_TREE, ChainFeed(n, meta)) }

  /** Every node is a directory below the node whose id is one shorter. */
  ghost predicate Chained(t: Tree, n: nat, meta: ItemMeta) {
    && t.root == Some(IdAt(0))
    && forall c :: c in t.nodes ==>
         && 0 < |c| <= n + 1 && t.nodes[c].meta == meta
         && (t.nodes[c].parent.Some? ==> |t.nodes[c].parent.value| + 1 == |c| && t.nodes[c].name == SEG)
  }

  lemma NewLinkIsFresh(t: Tree, n: nat, meta: ItemMeta, id: Id)
    requires WellFormed(t) && Chained(t, n, meta) && |id| > n + 1
    ensures Fresh(t, id) && KidSet(t, IdAt(n)) == {}
  {
    forall q ensures Resolve(t, q) != Some(id) {
      if Resolve(t, q).Some? { ResolvedIsNode(t, q); }
    }
    forall p, e | |p| >= n + 1 ensures e !in KidSet(t, p) {
      assert e in KidSet(t, p) ==> HasPlace(t, e.id, p, e.name);
    }
  }

  lemma {:induction false} ChainIs(n: nat, meta: ItemMeta)
    ensures var t := Chain(n, meta);
            WellFormed(t) && Chained(t, n, meta) && Resolve(t, Names(n)) == Some(IdAt(n))
  {
    if n == 0 {
      var it := LinkItem(0, meta);
      assert ChainFeed(0, meta) == [] + [it];
      ApplyAllSnoc(EMPTY_TREE, [], it);
      ApplyKeepsWellFormed(EMPTY_TREE, it);
    } else {
      var t, it := Chain(n - 1, meta), LinkItem(n, meta);
      ChainIs(n - 1, meta);
      ApplyAllSnoc(EMPTY_TREE, ChainFeed(n - 1, meta), it);
      LinkOneMore(t, n, meta);
    }
  }

  lemma LinkOneMore(t: Tree, n: nat, meta: ItemMeta)
    requires n > 0 && WellFormed(t) && Chained(t, n - 1, meta) && Resolve(t, Names(n - 1)) == Some(IdAt(n - 1))
    ensures var r := Apply(t, LinkItem(n, meta));
            WellFormed(r) && Chained(r, n, meta) && Resolve(r, Names(n)) == Some(IdAt(n))
  {
    hide Agree, UniqueSiblings, SoleRoot, Apply, Resolve, Fresh;
    var it := LinkItem(n, meta);
    NewLinkIsFresh(t, n - 1, meta, it.id);
    assert Named(t, IdAt(n - 1), SEG) == {};
    ResolveSnoc(t, Names(n - 1), SEG);
    InsertResolves(t, Names(n - 1), it, Names(n));
    ApplyNonRootKeeps(t, it);
    ApplyPlainNodes(t, it);
  }

  lemma ChainIsSound(n: nat, meta: ItemMeta)
    requires meta.isDir
    ensures GoodNames(Chain(n, meta)) && [] !in Chain(n, meta).nodes && DirsOnly(Chain(n, meta))
  {
    hide Agree, UniqueSiblings, SoleRoot, Resolve;
    ChainIs(n, meta);
    assert SEG[0] != SLASH;
  }

  /** The node at depth 64 resolves and has no path; a sweep removes it, and what resolved
      resolves no more. */
  lemma DeepNodeIsSwept(meta: ItemMeta)
    requires meta.isDir
    ensures var t, id, segs := Chain(WALK_LIMIT, meta), IdAt(WALK_LIMIT), Names(WALK_LIMIT);
            && WellFormed(t) && Resolve(t, segs) == Some(id) && id in t.nodes && PathOf(t, id) == None
            && Resolve(SweepOrphans(t), segs) == None && id !in SweepOrphans(t).nodes
  {
    hide Agree, UniqueSiblings, SoleRoot, Resolve, SweepOrphans, Climb;
    var t, id, segs := Chain(WALK_LIMIT, meta), IdAt(WALK_LIMIT), Names(WALK_LIMIT);
    ChainIs(WALK_LIMIT, meta);
    ResolvedIsNode(t, segs);
    NoDeepPath(t, segs, id);
    SweepKeepsResolve(t, segs);
    SurvivorsHavePaths(t, id);
  }

  lemma NoDeepPath(t: Tree, segs: seq<Str>, id: Id)
    requires WellFormed(t) && Resolve(t, segs) == Some(id) && |segs| >= WALK_LIMIT
    ensures PathOf(t, id) == None
  {
    hide Agree, UniqueSiblings, SoleRoot, Resolve, Climb;
    if Climb(t, id, WALK_LIMIT).Some? {
      var up := Climb(t, id, WALK_LIMIT).value;
      ResolveIffClimb(t, up, id, WALK_LIMIT);
      ResolveInjective(t, up, segs);
    }
  }

  /** Such a node is in the file, as a record in its parent's block, and is lost from memory, not
      from the file, by an idle poll that finds nothing to save. */
  lemma IdlePollSweepsDeepNode(initial: Str, token: Str, generation: u64, meta: ItemMeta)
    requires meta.isDir
    ensures var w, id := Reload(Chain(WALK_LIMIT, meta)), IdAt(WALK_LIMIT);
            var store := Store(Some(State(w, Cursor(Some(token), None, true, generation))), None);
            var t := RunTick(store, initial, false, [Got(Page([], None, Some(token)))]);
            && WellFormed(w) && Reload(w) == w && StoreOk(store) && !t.dirty && !t.failed && t.done
            && id in w.nodes && id !in t.idx.tree.nodes && Reloaded(t.idx) != Working(store)
  {
    hide Agree, UniqueSiblings, SoleRoot, Resolve, SweepOrphans, Climb, Reload, PathOf, ApplyAll;
    var w, id := Reload(Chain(WALK_LIMIT, meta)), IdAt(WALK_LIMIT);
    var store := Store(Some(State(w, Cursor(Some(token), None, true, generation))), None);
    var page := Page([], None, Some(token));
    var t := OneResponse(store, initial, Got(page));
    DeepReload(meta);
    SurvivorsHavePaths(w, id);
    assert ApplyAll(w, []) == w by { ApplyNone(w); }
    CleanTickLosesNothing(store, initial, [Got(page)]);
  }

  lemma ApplyNone(t: Tree)
    ensures ApplyAll(t, []) == t
  {
  }

  lemma DeepReload(meta: ItemMeta)
    requires meta.isDir
    ensures var w, id := Reload(Chain(WALK_LIMIT, meta)), IdAt(WALK_LIMIT);
            WellFormed(w) && Reload(w) == w && w.root.Some? && id in w.nodes && PathOf(w, id) == None
  {
    hide Agree, UniqueSiblings, SoleRoot, Resolve, Climb, Reload, PathOf;
    var t, id := Chain(WALK_LIMIT, meta), IdAt(WALK_LIMIT);
    ChainIs(WALK_LIMIT, meta);
    ChainIsSound(WALK_LIMIT, meta);
    DirsOnlyGivesRows(t);
    ReloadWellFormedIff(t);
    ReloadTwice(t);
    ReloadRoot(t);
    NoDeepPath(t, Names(WALK_LIMIT), id);
    ReloadKeepsPaths(t, id);
    DeepIsRecorded(t, meta);
    ReloadNodes(t, id);
  }

  lemma DeepIsRecorded(t: Tree, meta: ItemMeta)
    requires meta.isDir && WellFormed(t) && Chained(t, WALK_LIMIT, meta) && Resolve(t, Names(WALK_LIMIT)) == Some(IdAt(WALK_LIMIT))
    ensures Recorded(t, IdAt(WALK_LIMIT))
  {
    hide Agree, UniqueSiblings, SoleRoot, Resolve, PathOf;
    var segs := Names(WALK_LIMIT);
    ResolvedIsNode(t, segs);
    ResolveLast(t, segs, IdAt(WALK_LIMIT));
    RowAt(t, segs[..|segs| - 1]);
  }

  /** A `PUT` or `MKCOL` below the directory at depth 64 succeeds, and the file cannot show what it
      made: no lookup finds it. */
  lemma DeepUpsertIsNotShown(dir: ItemMeta, meta: ItemMeta)
    requires dir.isDir
    ensures var t, path := Chain(WALK_LIMIT, dir), Render(Names(WALK_LIMIT + 1));
            && WellFormed(t) && FreshIfNeeded(t, path) && ResolvePath(t, path) == None
            && UpsertAtPath(t, path, meta).1 && ResolvePath(UpsertAtPath(t, path, meta).0, path) == Some(LOCAL + path)
            && !Shows(t, Segments(path), meta) && Answer(UpsertAtPath(t, path, meta).0, path) == None
  {
    hide Agree, UniqueSiblings, SoleRoot, Resolve, Climb, Apply, UpsertAtPath, Fresh, HasRow, Answer, ChildList, Segments, ParentPath;
    var t, segs := Chain(WALK_LIMIT, dir), Names(WALK_LIMIT + 1);
    var path := Render(segs);
    ChainIs(WALK_LIMIT, dir);
    SegmentsOfRender(segs);
    HelpersSplitSegments(path);
    assert segs[..|segs| - 1] == Names(WALK_LIMIT) && segs == Names(WALK_LIMIT) + [SEG];
    RenderIsLong(segs);
    NewLinkIsFresh(t, WALK_LIMIT, dir, LOCAL + path);
    assert Named(t, IdAt(WALK_LIMIT), SEG) == {};
    ResolveSnoc(t, Names(WALK_LIMIT), SEG);
    RowAt(t, Names(WALK_LIMIT));
    UpsertAtPathResolves(t, path, meta, []);
    UpsertAnswersHere(t, path, meta);
  }

  lemma RenderIsLong(segs: seq<Str>)
    requires GoodSegs(segs) && segs != []
    ensures |Render(segs)| >= 2 * |segs|
  {
    FlatIsLong(segs);
  }

  lemma {:induction false} FlatIsLong(segs: seq<Str>)
    requires GoodSegs(segs)
    ensures |Flat(segs)| >= 2 * |segs|
  {
    if segs != [] {
      assert segs[0] in segs && forall s :: s in segs[1..] ==> s in segs;
      FlatIsLong(segs[1..]);
    }
  }
}
