/** Folders and files: what Graph says of an id for good, and what that keeps of every tree. */
module Kinds {
  import opened Bytes
  import opened Paths
  import opened Namespace
  import opened Agreement
  import opened Resolution
  import opened Moves
  import opened PathEdits
  import opened Sweep
  import opened Snapshot
  import opened SnapshotDecode
  import opened Reloading

  /** A drive as Graph has it: the root and the ids that are folders. */
  datatype Drive = Drive(root: Id, folders: iset<Id>)

  /** An id made up for a node whose Graph id is unknown. */
  predicate MadeUp(id: Id) { LOCAL <= id }

  ghost predicate DriveOk(d: Drive) {
    d.root in d.folders && forall id :: id in d.folders ==> !MadeUp(id)
  }

  /** An item of the drive: well named and of its kind, below a folder, never made up, and the one
      root is the drive's. */
  ghost predicate OfDrive(d: Drive, it: DeltaItem) {
    && KeepsToRoot(d.root, it) && NamesWell(it) && !MadeUp(it.id)
    && (it.id != [] && !it.deleted ==>
          && (it.meta.isDir <==> it.id in d.folders)
          && (it.parentId.Some? ==> it.parentId.value in d.folders))
  }

  /** A node whose parent is there hangs below a directory, one whose parent is missing waits for a
      folder, and every node with an id of Graph's is of its kind. */
  ghost predicate KindedAt(t: Tree, d: Drive, c: Id) {
    c in t.nodes ==>
      && (!MadeUp(c) ==> (t.nodes[c].meta.isDir <==> c in d.folders))
      && (t.nodes[c].parent.Some? ==>
            var p := t.nodes[c].parent.value; if p in t.nodes then t.nodes[p].meta.isDir else p in d.folders)
  }

  ghost predicate Kinded(t: Tree, d: Drive) { forall c :: KindedAt(t, d, c) }

  /** A tree of the drive: the maps agree, the one root is the drive's, names are usable and kinds
      are right. */
  ghost predicate Sound(t: Tree, d: Drive) {
    RunsUnder(t, d.root) && GoodNames(t) && [] !in t.nodes && Kinded(t, d)
  }

  lemma EmptyIsSound(d: Drive)
    ensures Sound(EMPTY_TREE, d)
  {
    hide RunsUnder;
    EmptyRunsUnder(d.root);
  }

  // ---------------------------------------------------------------- items

  /** Placing a node below a directory, or below a folder still to come, keeps the kinds. */
  lemma PlacingKeepsKinds(t: Tree, d: Drive, it: DeltaItem)
    requires WellFormed(t) && Kinded(t, d) && Plain(t, it) && DriveOk(d)
    requires !MadeUp(it.id) ==> (it.meta.isDir <==> it.id in d.folders)
    requires it.id in t.nodes ==> t.nodes[it.id].meta.isDir == it.meta.isDir
    requires var p := it.parentId.value;
             (if p in t.nodes then t.nodes[p].meta.isDir else p in d.folders) && (p in Evicted(t, it) ==> p in d.folders)
    ensures Kinded(Apply(t, it), d)
  {
    hide Agree, UniqueSiblings, SoleRoot, Apply, Evicted;
    var r := Apply(t, it);
    ApplyPlainNodes(t, it);
    EvictedFacts(t, it);
    forall c ensures KindedAt(r, d, c) {
      assert KindedAt(t, d, c) && KindedAt(t, d, it.id);
      if c != it.id && c in r.nodes && t.nodes[c].parent.Some? {
        assert HasPlace(t, c, t.nodes[c].parent.value, t.nodes[c].name);
      }
    }
  }

  lemma RemovalKeepsKinds(t: Tree, d: Drive, id: Id)
    requires Agree(t) && Kinded(t, d)
    ensures Kinded(Prune(t, Down(t, id)), d)
  {
    var r := Prune(t, Down(t, id));
    forall c ensures KindedAt(r, d, c) {
      assert KindedAt(t, d, c);
      if c in r.nodes && t.nodes[c].parent.Some? {
        var p, n := t.nodes[c].parent.value, t.nodes[c].name;
        assert HasPlace(t, c, p, n);
        assert Entry(n, c) in KidSet(t, p);
        assert p in Down(t, id) ==> Entry(n, c).id in Down(t, id);
      }
    }
  }

  /** An item of the drive keeps a tree of the drive. */
  lemma ItemKeepsSound(t: Tree, d: Drive, it: DeltaItem)
    requires Sound(t, d) && DriveOk(d) && OfDrive(d, it)
    ensures Sound(Apply(t, it), d)
  {
    hide RunsUnder, GoodNames, Kinded, KindedAt, DriveOk;
    StepUnderRoot(t, d.root, it);
    ApplyKeepsNames(t, it);
    ItemKeepsKinds(t, d, it);
  }

  lemma ItemKeepsKinds(t: Tree, d: Drive, it: DeltaItem)
    requires RunsUnder(t, d.root) && Kinded(t, d) && DriveOk(d) && OfDrive(d, it)
    ensures Kinded(Apply(t, it), d)
  {
    hide Agree, UniqueSiblings, Evicted, Down, Evict;
    assert KindedAt(t, d, it.id);
    if it.id == [] {
    } else if it.deleted {
      RemovalKeepsKinds(t, d, it.id);
    } else if it.isRoot {
      forall c ensures KindedAt(Apply(t, it), d, c) { assert KindedAt(t, d, c); }
    } else if it.parentId.Some? {
      assert KindedAt(t, d, it.parentId.value);
      PlacingKeepsKinds(t, d, it);
    }
  }

  /** So does a whole page. */
  lemma {:induction false} FeedKeepsSound(t: Tree, d: Drive, items: seq<DeltaItem>)
    requires Sound(t, d) && DriveOk(d) && forall it :: it in items ==> OfDrive(d, it)
    ensures Sound(ApplyAll(t, items), d)
    decreases |items|
  {
    hide Sound, OfDrive, DriveOk;
    if items != [] {
      ItemKeepsSound(t, d, items[0]);
      FeedKeepsSound(Apply(t, items[0]), d, items[1..]);
    }
  }

  lemma SweepKeepsSound(t: Tree, d: Drive)
    requires Sound(t, d)
    ensures Sound(SweepOrphans(t), d)
  {
    hide Agree, UniqueSiblings, WalksToRoot, GoodNames;
    SweepUnderRoot(t, d.root);
    SweepKeepsNames(t);
    forall c ensures KindedAt(SweepOrphans(t), d, c) {
      assert KindedAt(t, d, c);
      if t.root.Some? && c in SweepOrphans(t).nodes && t.nodes[c].parent.Some? { ParentSurvives(t, c); }
    }
  }

  // ---------------------------------------------------------------- saving and loading

  /** In a tree of the drive no directory hangs below a file, so it loads as a tree of the drive. */
  lemma ReloadKeepsSound(t: Tree, d: Drive)
    requires Sound(t, d) && DriveOk(d)
    ensures RowsBelowRows(t) && Sound(Reload(t), d)
  {
    hide Agree, UniqueSiblings, PathOf, GoodNames, Reload, Kinded;
    KindedHasRows(t, d);
    ReloadWellFormedIff(t);
    ReloadRoot(t);
    ReloadNodes(t, d.root);
    if t.root.Some? { RootHasRow(t); }
    ReloadNodes(t, []);
    ReloadKeepsGoodNames(t);
    ReloadKeepsKinds(t, d);
  }

  lemma KindedHasRows(t: Tree, d: Drive)
    requires Kinded(t, d)
    ensures RowsBelowRows(t)
  {
    forall c, p | c in t.nodes && t.nodes[c].parent == Some(p) && p in t.nodes ensures t.nodes[p].meta.isDir {
      assert KindedAt(t, d, c);
    }
    DirsOnlyGivesRows(t);
  }

  lemma ReloadKeepsGoodNames(t: Tree)
    requires GoodNames(t) && RowsBelowRows(t)
    ensures GoodNames(Reload(t))
  {
    hide PathOf, Reload, HasRow, RowsBelowRows;
    forall c | c in Reload(t).nodes ensures Recorded(t, c) && Reload(t).nodes[c] == Reread(t, c) { ReloadNodes(t, c); }
  }

  lemma ReloadKeepsKinds(t: Tree, d: Drive)
    requires RunsUnder(t, d.root) && Kinded(t, d) && DriveOk(d) && RowsBelowRows(t)
    ensures Kinded(Reload(t), d)
  {
    hide PathOf, Reload, RowsBelowRows, Agree, UniqueSiblings;
    var r := Reload(t);
    forall c ensures KindedAt(r, d, c) {
      assert KindedAt(t, d, c);
      ReloadNodes(t, c);
      if c in r.nodes && t.nodes[c].parent.Some? {
        ParentIsRecorded(t, c);
        ReloadNodes(t, t.nodes[c].parent.value);
      }
    }
  }

  // ---------------------------------------------------------------- patches

  /** The path leads to a directory, if it leads anywhere. */
  ghost predicate ToDirectory(t: Tree, path: Str) {
    var p := ResolvePath(t, path);
    p.Some? && p.value in t.nodes ==> t.nodes[p.value].meta.isDir
  }

  /** The node `id`, if there is one, is of this kind. */
  predicate OfKind(t: Tree, id: Id, isDir: bool) { id in t.nodes ==> t.nodes[id].meta.isDir == isDir }

  /** A request for a `PUT` or `MKCOL` that keeps kinds: of the node that is there, or of the made-up
      id, below a directory. */
  ghost predicate FitsUpsert(t: Tree, path: Str, meta: ItemMeta) {
    if ResolvePath(t, path).Some? then OfKind(t, ResolvePath(t, path).value, meta.isDir)
    else OfKind(t, LOCAL + path, meta.isDir) && ToDirectory(t, ParentPath(path))
  }

  /** A patch as the handlers write it: the item, if there is one, is of the drive and does not delete
      the root; and the edit by path, where it comes to that, keeps kinds, stays below directories,
      and neither moves nor deletes `/`. */
  ghost predicate PatchOfDrive(t: Tree, d: Drive, p: Patch) {
    var u := WithItem(t, p);
    && (ItemOf(p).Some? ==> OfDrive(d, ItemOf(p).value) && !(ItemOf(p).value.deleted && ItemOf(p).value.id == d.root))
    && match p
       case Upsert(item, path, meta) => (item.Some? && ResolvePath(u, path).Some?) || FitsUpsert(u, path, meta)
       case Move(item, from, to) => (item.Some? && ResolvePath(u, to).Some?) || (Segments(from) != [] && ToDirectory(u, ParentPath(to)))
       case Delete(path) => Segments(path) != []
  }

  /** A directory a path leads to is not below what is evicted from it. */
  lemma ParentNotEvicted(t: Tree, it: DeltaItem, p: seq<Str>)
    requires WellFormed(t) && Plain(t, it) && Resolve(t, p) == it.parentId
    ensures it.parentId.value !in Evicted(t, it)
  {
    hide Resolve, Down, Evicted;
    if it.parentId.value in Evicted(t, it) {
      var top := EvictedTop(t, it);
      EvictedFacts(t, it);
      ResolveSnoc(t, p, it.name);
      ChildNamedIs(t, it.parentId.value, it.name, top);
      SubtreePaths(t, p + [it.name], p);
    }
  }

  /** Placing a node by path. */
  lemma PlacedKeepsSound(t: Tree, d: Drive, id: Id, path: Str, meta: ItemMeta)
    requires Sound(t, d) && DriveOk(d) && id != [] && id != d.root && LastSegment(path) != []
    requires ResolvePath(t, ParentPath(path)).Some? && ToDirectory(t, ParentPath(path))
    requires (!MadeUp(id) ==> (meta.isDir <==> id in d.folders)) && OfKind(t, id, meta.isDir)
    ensures Sound(Apply(t, ItemAt(id, ResolvePath(t, ParentPath(path)).value, path, meta)), d)
  {
    hide Segments, ParentPath, LastSegment, Agree, UniqueSiblings, SoleRoot, GoodNames, Resolve, Apply, Evicted, Kinded;
    var parent := ResolvePath(t, ParentPath(path)).value;
    var it := ItemAt(id, parent, path, meta);
    HelpersSplitSegments(path);
    TargetSegments(path);
    ResolvedIsNode(t, Segments(ParentPath(path)));
    StepUnderRoot(t, d.root, it);
    ApplyKeepsNames(t, it);
    ParentNotEvicted(t, it, Segments(ParentPath(path)));
    PlacingKeepsKinds(t, d, it);
  }

  lemma UpsertKeepsSound(t: Tree, d: Drive, path: Str, meta: ItemMeta)
    requires Sound(t, d) && DriveOk(d) && FitsUpsert(t, path, meta)
    ensures Sound(UpsertAtPath(t, path, meta).0, d)
  {
    hide Segments, ParentPath, LastSegment, Agree, UniqueSiblings, SoleRoot, GoodNames, Resolve, Apply, Kinded;
    var here, parent := ResolvePath(t, path), ResolvePath(t, ParentPath(path));
    if here.Some? {
      ResolvedIsNode(t, Segments(path));
      UpdateKeepsSound(t, d, here.value, meta);
    } else if LastSegment(path) != [] && parent.Some? {
      assert MadeUp(LOCAL + path) && !MadeUp(d.root);
      PlacedKeepsSound(t, d, LOCAL + path, path, meta);
    }
  }

  lemma UpdateKeepsSound(t: Tree, d: Drive, id: Id, meta: ItemMeta)
    requires Sound(t, d) && id in t.nodes && t.nodes[id].meta.isDir == meta.isDir
    ensures Sound(t.(nodes := t.nodes[id := t.nodes[id].(meta := meta)]), d)
  {
    hide Agree, UniqueSiblings, SoleRoot;
    MetaKeepsWellFormed(t, id, meta);
    var r := t.(nodes := t.nodes[id := t.nodes[id].(meta := meta)]);
    forall c ensures KindedAt(r, d, c) { assert KindedAt(t, d, c); }
  }

  lemma MoveKeepsSound(t: Tree, d: Drive, from: Str, to: Str)
    requires Sound(t, d) && DriveOk(d) && Segments(from) != [] && ToDirectory(t, ParentPath(to))
    ensures Sound(MoveAtPath(t, from, to).0, d)
  {
    hide Segments, ParentPath, LastSegment, Agree, UniqueSiblings, SoleRoot, GoodNames, Resolve, Apply;
    var here, parent := ResolvePath(t, from), ResolvePath(t, ParentPath(to));
    if here.Some? && here.value in t.nodes && LastSegment(to) != [] && parent.Some? {
      MovedIsNotRoot(t, d, Segments(from));
      assert KindedAt(t, d, here.value);
      PlacedKeepsSound(t, d, here.value, to, t.nodes[here.value].meta);
    }
  }

  lemma MovedIsNotRoot(t: Tree, d: Drive, segs: seq<Str>)
    requires RunsUnder(t, d.root) && segs != [] && Resolve(t, segs).Some?
    ensures Resolve(t, segs).value != d.root
  {
    hide Agree, UniqueSiblings, Resolve;
    ResolveLast(t, segs, Resolve(t, segs).value);
    ResolvedIsNode(t, segs);
  }

  lemma DeleteKeepsSound(t: Tree, d: Drive, path: Str)
    requires Sound(t, d)
    ensures Sound(RemoveAtPath(t, path).0, d)
  {
    hide Segments, Agree, UniqueSiblings, SoleRoot, Resolve;
    if ResolvePath(t, path).Some? {
      var id := ResolvePath(t, path).value;
      ResolvedIsNode(t, Segments(path));
      RemovalUnderRoot(t, d.root, id);
      RemovalKeepsKinds(t, d, id);
    }
  }

  lemma RemovalUnderRoot(t: Tree, r: Id, id: Id)
    requires RunsUnder(t, r) && id in t.nodes
    ensures RunsUnder(Prune(t, Down(t, id)), r)
  {
    DeletionKeeps(t, id);
  }

  /** A patch of the drive keeps a tree of the drive, and its root. */
  lemma PatchKeepsSound(t: Tree, d: Drive, p: Patch)
    requires Sound(t, d) && DriveOk(d) && PatchOfDrive(t, d, p)
    ensures Sound(Patched(t, p).0, d)
    ensures t.root.Some? ==> Patched(t, p).0.root.Some?
  {
    hide Segments, ParentPath, RunsUnder, GoodNames, Kinded, DriveOk, OfDrive, FitsUpsert, ToDirectory, Apply, UpsertAtPath, MoveAtPath,
         RemoveAtPath, Resolve;
    if ItemOf(p).Some? { ItemKeepsSound(t, d, ItemOf(p).value); }
    var u := WithItem(t, p);
    match p {
      case Upsert(item, path, meta) =>
        if !(item.Some? && ResolvePath(u, path).Some?) { UpsertKeepsSound(u, d, path, meta); }
      case Move(item, from, to) =>
        if !(item.Some? && ResolvePath(u, to).Some?) { MoveKeepsSound(u, d, from, to); }
      case Delete(path) => DeleteKeepsSound(t, d, path);
    }
    if t.root.Some? { PatchKeepsItsRoot(t, d, p); }
  }

  lemma PatchKeepsItsRoot(t: Tree, d: Drive, p: Patch)
    requires Sound(t, d) && PatchOfDrive(t, d, p) && t.root.Some?
    ensures Patched(t, p).0.root == t.root
  {
    hide Segments, ParentPath, Agree, UniqueSiblings, GoodNames, Kinded, FitsUpsert, ToDirectory, Apply, Patched, Resolve;
    if ItemOf(p).Some? { ItemRespectsRoot(t, d, ItemOf(p).value); }
    PatchKeepsRoot(t, p);
  }

  lemma ItemRespectsRoot(t: Tree, d: Drive, it: DeltaItem)
    requires RunsUnder(t, d.root) && OfDrive(d, it)
    ensures !MisusesRoot(t, it)
  {
    hide Agree, UniqueSiblings;
  }
}
