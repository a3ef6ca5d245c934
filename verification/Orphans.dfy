/** A directory below a file: what a save and a load make of it, and what lookups answer after the
    next save. */
module Orphans {
  import opened Bytes
  import opened Paths
  import opened Namespace
  import opened Agreement
  import opened Resolution
  import opened Moves
  import opened Ordering
  import opened Records
  import opened Snapshot
  import opened SnapshotLookup
  import opened SnapshotDecode
  import opened Reloading
  import opened Kinds

  const ROOT: Id := [1]
  const FILE: Id := [2]
  const ORPHAN: Id := [3]
  const CHILD: Id := [4]

  /** A root, a file in it, a directory below the file, and a file in that. */
  function StrayFeed(file: ItemMeta, dir: ItemMeta): seq<DeltaItem> {
    [DeltaItem(ROOT, None, [], false, true, dir), DeltaItem(FILE, Some(ROOT), [50], false, false, file),
     DeltaItem(ORPHAN, Some(FILE), [51], false, false, dir), DeltaItem(CHILD, Some(ORPHAN), [52], false, false, file)]
  }

  ghost function Stray(file: ItemMeta, dir: ItemMeta): Tree { ApplyAll(EMPTY_TREE, StrayFeed(file, dir)) }

  /** The nodes of the feed, and those that load. */
  function StrayNodes(file: ItemMeta, dir: ItemMeta): map<Id, Node> {
    map[ROOT := Node(None, [], dir), FILE := Node(Some(ROOT), [50], file),
        ORPHAN := Node(Some(FILE), [51], dir), CHILD := Node(Some(ORPHAN), [52], file)]
  }

  lemma StrayFits(file: ItemMeta, dir: ItemMeta)
    ensures forall it :: it in StrayFeed(file, dir) ==> Writes(it) && KeepsToRoot(ROOT, it) && NamesWell(it)
    ensures NoCollisions(EMPTY_TREE, StrayFeed(file, dir))
  {
    assert [50][0] != SLASH && [51][0] != SLASH && [52][0] != SLASH;
  }

  lemma StrayIs(file: ItemMeta, dir: ItemMeta)
    ensures var t := Stray(file, dir);
            RunsUnder(t, ROOT) && GoodNames(t) && t.root == Some(ROOT) && t.nodes == StrayNodes(file, dir)
  {
    hide StrayFeed, ApplyAll, Writes, KeepsToRoot, NamesWell, NoCollisions, Agree, UniqueSiblings, SoleRoot;
    var items := StrayFeed(file, dir);
    StrayFits(file, dir);
    EmptyRunsUnder(ROOT);
    FeedKeepsAgreement(EMPTY_TREE, ROOT, items);
    FeedKeepsNames(EMPTY_TREE, items);
    FeedIsLastRecords(EMPTY_TREE, ROOT, items);
    LastOfStray(file, dir);
    assert EMPTY_TREE.nodes + StrayNodes(file, dir) == StrayNodes(file, dir);
    assert ROOT in Stray(file, dir).nodes;
  }

  /** It is the feed of no drive: the file would have to be a folder. */
  lemma StrayIsOfNoDrive(file: ItemMeta, dir: ItemMeta, d: Drive)
    requires !file.isDir
    ensures exists it :: it in StrayFeed(file, dir) && !OfDrive(d, it)
  {
    var items := StrayFeed(file, dir);
    assert items[1] in items && items[2] in items;
    assert OfDrive(d, items[1]) ==> !OfDrive(d, items[2]);
  }

  lemma LastOfStray(file: ItemMeta, dir: ItemMeta)
    ensures Written(StrayFeed(file, dir)) == StrayNodes(file, dir)
  {
    var s := StrayFeed(file, dir);
    assert s[..1] == [] + [s[0]] && s[..2] == s[..1] + [s[1]] && s[..3] == s[..2] + [s[2]] && s == s[..3] + [s[3]];
    WrittenSnoc([], s[0]);
    WrittenSnoc(s[..1], s[1]);
    WrittenSnoc(s[..2], s[2]);
    WrittenSnoc(s[..3], s[3]);
    assert Written([]) == map[];
  }

  /** What the file of that tree loads as: the directory below the file has no parent. */
  lemma OrphanIs(file: ItemMeta, dir: ItemMeta)
    requires !file.isDir && dir.isDir
    ensures var w := Reload(Stray(file, dir));
            && w.root == Some(ROOT) && Agree(w)
            && (forall id :: id in w.nodes <==> id in {ROOT, FILE, ORPHAN, CHILD})
            && w.nodes[ROOT] == Node(None, [], dir) && w.nodes[FILE] == Node(Some(ROOT), [50], file)
            && w.nodes[ORPHAN].parent == None && w.nodes[ORPHAN].meta == dir && w.nodes[CHILD] == Node(Some(ORPHAN), [52], file)
  {
    hide Agree, UniqueSiblings, SoleRoot, HasRow, Reload, Stray, GoodNames;
    var t := Stray(file, dir);
    StrayIs(file, dir);
    StrayRows(t, file, dir);
    StrayLoads(t, file, dir);
    ReloadRoot(t);
    ReloadKeepsAgree(t);
  }

  lemma StrayLoads(t: Tree, file: ItemMeta, dir: ItemMeta)
    requires t.nodes == StrayNodes(file, dir) && dir.isDir
    requires HasRow(t, ROOT) && !HasRow(t, FILE) && HasRow(t, ORPHAN) && !HasRow(t, CHILD)
    ensures var w := Reload(t);
            && (forall id :: id in w.nodes <==> id in {ROOT, FILE, ORPHAN, CHILD})
            && w.nodes[ROOT] == Node(None, [], dir) && w.nodes[FILE] == Node(Some(ROOT), [50], file)
            && w.nodes[ORPHAN].parent == None && w.nodes[ORPHAN].meta == dir && w.nodes[CHILD] == Node(Some(ORPHAN), [52], file)
  {
    hide HasRow, Reload;
    forall id ensures id in Reload(t).nodes <==> id in {ROOT, FILE, ORPHAN, CHILD} { ReloadNodes(t, id); }
    ReloadNodes(t, ROOT);
    ReloadNodes(t, FILE);
    ReloadNodes(t, ORPHAN);
    ReloadNodes(t, CHILD);
  }

  lemma StrayRows(t: Tree, file: ItemMeta, dir: ItemMeta)
    requires t.root == Some(ROOT) && t.nodes == StrayNodes(file, dir) && !file.isDir && dir.isDir
    ensures HasRow(t, ROOT) && !HasRow(t, FILE) && HasRow(t, ORPHAN) && !HasRow(t, CHILD)
  {
    assert Climb(t, ROOT, WALK_LIMIT - 2) == Some([]);
    assert Climb(t, FILE, WALK_LIMIT - 1).Some?;
    assert Climb(t, ORPHAN, WALK_LIMIT).Some?;
    assert Climb(t, FILE, WALK_LIMIT).Some? ==> !file.isDir;
  }

  /** The two directories a save of the loaded tree writes, both at `/`, in the one of the two orders
      that puts the root first. */
  const BOTH: seq<Dir> := [Dir(ROOT, [SLASH]), Dir(ORPHAN, [SLASH])]

  lemma BothAtRoot(file: ItemMeta, dir: ItemMeta)
    requires !file.isDir && dir.isDir
    ensures var w := Reload(Stray(file, dir));
            && PathOf(w, ROOT) == Some([SLASH]) && PathOf(w, ORPHAN) == Some([SLASH])
            && IsDirList(w, BOTH) && !WellFormed(w)
  {
    hide Reload, Stray, Agree, KidSet, Less;
    var w := Reload(Stray(file, dir));
    OrphanIs(file, dir);
    LessIrreflexive([SLASH]);
    assert BOTH[0] in BOTH && BOTH[1] in BOTH;
    forall id | HasRow(w, id) ensures exists e :: e in BOTH && e.id == id { assert id == ROOT || id == ORPHAN; }
  }

  /** A directory below a file, as a feed may bring it: after a save and a load it has no parent, its
      path is `/`, and the next save writes two rows at `/`. The lookup of `/` may then answer with
      the orphan: with its id and its children. */
  lemma OrphanAnswersAtRoot(file: ItemMeta, dir: ItemMeta, w: Tree, meta: Str)
    requires !file.isDir && dir.isDir
    requires Fits(w, BOTH, meta) && w == Reload(Stray(file, dir))
    ensures WellFormed(Stray(file, dir)) && !WellFormed(w)
    ensures PathOf(w, ROOT) == Some([SLASH]) && PathOf(w, ORPHAN) == Some([SLASH]) && IsDirList(w, BOTH)
    ensures var hit := LookupFile(Some(FileBytes(w, BOTH, meta)), [SLASH]);
            && hit.Success? && hit.value.Some? && hit.value.value.DirHit?
            && hit.value.value.info.id == ORPHAN && hit.value.value.children == ChildList(w, ORPHAN)
            && FindChild(hit.value.value.children, [52]).Some? && FindChild(hit.value.value.children, [52]).value.id == CHILD
  {
    hide Reload, Stray, WellFormed, PathOf, HasRow, IsDirList, FileBytes, LookupFile, At, Block, ChildList, FindChild, ParseChildren, Rows;
    StrayIs(file, dir);
    OrphanIs(file, dir);
    BothAtRoot(file, dir);
    FileIsOpened(w, BOTH, meta, [SLASH]);
    FileRows(w, BOTH, meta);
    var rows := Rows(w, BOTH, HEADER_LEN);
    SlashIsNormal();
    assert FindDir(rows, [SLASH]) == Some(rows[1]);
    RowBlockIsRead(FileBytes(w, BOTH, meta), w, rows[1], ORPHAN);
    OrphanListsChild(w, file);
  }

  lemma SlashIsNormal()
    ensures Normalize([SLASH]) == [SLASH]
  {
    SegmentsOfRender([]);
  }

  lemma OrphanListsChild(w: Tree, file: ItemMeta)
    requires Agree(w) && w.nodes.Keys == {ROOT, FILE, ORPHAN, CHILD} && w.nodes[CHILD] == Node(Some(ORPHAN), [52], file)
    requires w.nodes[FILE].parent == Some(ROOT) && w.nodes[ROOT].parent == None && w.nodes[ORPHAN].parent == None
    ensures FindChild(ChildList(w, ORPHAN), [52]) == Some(InfoOf(w, Entry([52], CHILD)))
  {
    forall e ensures e in KidSet(w, ORPHAN) <==> e == Entry([52], CHILD) {
      assert e in KidSet(w, ORPHAN) ==> HasPlace(w, e.id, ORPHAN, e.name);
      assert HasPlace(w, CHILD, ORPHAN, [52]);
    }
    var es := SortEntries(KidSet(w, ORPHAN));
    FindChildAmong(w, es, [52], Some(CHILD));
  }
}
