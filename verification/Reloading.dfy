/** What a tree loses, and does not lose, by being saved and loaded. */
module Reloading {
  import opened Bytes
  import opened Namespace
  import opened Resolution
  import opened Sweep
  import opened Records
  import opened Snapshot
  import opened SnapshotLookup
  import opened SnapshotDecode

  /** Every directory of the file hangs below a directory of the file. */
  ghost predicate RowsBelowRows(t: Tree) {
    forall id :: HasRow(t, id) && t.nodes[id].parent.Some? ==> HasRow(t, t.nodes[id].parent.value)
  }

  lemma ParentHasPath(t: Tree, id: Id)
    requires PathOf(t, id).Some? && t.nodes[id].parent.Some?
    ensures PathOf(t, t.nodes[id].parent.value).Some?
  {
    ClimbWithMore(t, t.nodes[id].parent.value, WALK_LIMIT - 1, WALK_LIMIT);
  }

  /** That is so when only directories have children. */
  lemma DirsOnlyGivesRows(t: Tree)
    requires DirsOnly(t)
    ensures RowsBelowRows(t)
  {
    forall id | HasRow(t, id) && t.nodes[id].parent.Some? ensures HasRow(t, t.nodes[id].parent.value) {
      ParentHasPath(t, id);
    }
  }

  lemma ReloadNodes(t: Tree, id: Id)
    ensures id in Reload(t).nodes <==> Recorded(t, id)
    ensures Recorded(t, id) ==> Reload(t).nodes[id] == Reread(t, id)
  {
  }

  lemma ReloadKids(t: Tree, p: Id)
    ensures KidSet(Reload(t), p) == if HasRow(t, p) then KidSet(t, p) else {}
  {
    hide PathOf;
    if HasRow(t, p) { HasRowIsNode(t, p); }
  }

  /** Places in the reloaded tree: the recorded ones, and those only. */
  lemma ReloadPlaces(t: Tree, c: Id, p: Id, n: Str)
    ensures HasPlace(Reload(t), c, p, n) <==> HasPlace(t, c, p, n) && HasRow(t, p)
  {
    hide PathOf;
    ReloadNodes(t, c);
    if HasRow(t, c) { HasRowIsNode(t, c); }
  }

  /** A load keeps the maps in agreement, whatever the tree loses. */
  lemma ReloadKeepsAgree(t: Tree)
    requires Agree(t)
    ensures Agree(Reload(t))
  {
    hide PathOf, Reload, Reread;
    var r := Reload(t);
    forall p, e | e in KidSet(r, p) ensures HasPlace(r, e.id, p, e.name) {
      ReloadKids(t, p);
      ReloadPlaces(t, e.id, p, e.name);
    }
    forall p, n, c | HasPlace(r, c, p, n) ensures Entry(n, c) in KidSet(r, p) {
      ReloadKids(t, p);
      ReloadPlaces(t, c, p, n);
    }
  }

  lemma ReloadKeepsWellFormed(t: Tree)
    requires WellFormed(t) && RowsBelowRows(t)
    requires t.root.Some? ==> HasRow(t, t.root.value)
    ensures WellFormed(Reload(t))
  {
    hide PathOf, Reload, RowsBelowRows, Reread;
    ReloadKeepsAgree(t);
    forall p, e | e in KidSet(Reload(t), p) ensures e in KidSet(t, p) { ReloadKids(t, p); }
    ReloadSoleRoot(t);
  }

  lemma ReloadSoleRoot(t: Tree)
    requires SoleRoot(t) && RowsBelowRows(t) && (t.root.Some? ==> HasRow(t, t.root.value))
    ensures SoleRoot(Reload(t))
  {
    hide PathOf;
    var r := Reload(t);
    forall c | c in r.nodes && r.nodes[c].parent == None ensures r.root == Some(c) {
      if HasRow(t, c) { HasRowIsNode(t, c); }
    }
  }

  lemma RootHasRow(t: Tree)
    requires SoleRoot(t) && t.root.Some?
    ensures HasRow(t, t.root.value)
  {
  }

  /** A saved and loaded tree is well-formed again exactly when every directory of the file
      hangs below a directory of the file: otherwise a directory comes back without a parent. */
  lemma ReloadWellFormedIff(t: Tree)
    requires WellFormed(t)
    ensures WellFormed(Reload(t)) <==> RowsBelowRows(t)
  {
    hide Agree, UniqueSiblings;
    if t.root.Some? { RootHasRow(t); }
    if RowsBelowRows(t) {
      ReloadKeepsWellFormed(t);
    } else {
      var id :| HasRow(t, id) && t.nodes[id].parent.Some? && !HasRow(t, t.nodes[id].parent.value);
      HasRowIsNode(t, id);
      assert Reload(t).nodes[id].parent == None;
    }
  }

  /** A directory below a file, for one: it is reachable before the save and has lost its
      parent after it. */
  lemma DirectoryBelowFileIsOrphaned(file: ItemMeta, dir: ItemMeta)
    requires !file.isDir && dir.isDir
    ensures var r, f, d := [1], [2], [3];
            var t := Tree(map[r := Node(None, [], dir), f := Node(Some(r), [4], file), d := Node(Some(f), [5], dir)],
                          map[r := {Entry([4], f)}, f := {Entry([5], d)}], Some(r));
            WellFormed(t) && PathOf(t, d).Some? && !WellFormed(Reload(t))
  {
    var r: Id, f: Id, d: Id := [1], [2], [3];
    var t := Tree(map[r := Node(None, [], dir), f := Node(Some(r), [4], file), d := Node(Some(f), [5], dir)],
                  map[r := {Entry([4], f)}, f := {Entry([5], d)}], Some(r));
    assert r != f && r != d && f != d;
    assert Climb(t, r, WALK_LIMIT - 2) == Some([]);
    assert Climb(t, f, WALK_LIMIT - 1).Some?;
    assert PathOf(t, d).Some?;
    assert HasRow(t, d) && !HasRow(t, f);
    ReloadWellFormedIff(t);
  }

  // ---------------------------------------------------------------- paths

  lemma {:induction false} ReloadKeepsClimb(t: Tree, id: Id, fuel: nat)
    requires RowsBelowRows(t) && Recorded(t, id)
    ensures Climb(Reload(t), id, fuel) == Climb(t, id, fuel)
    decreases fuel
  {
    hide PathOf, Reload, HasRow;
    ReloadNodes(t, id);
    if fuel > 0 && t.nodes[id].parent.Some? {
      var p := t.nodes[id].parent.value;
      ParentIsRecorded(t, id);
      ReloadKeepsClimb(t, p, fuel - 1);
    }
  }

  lemma ParentIsRecorded(t: Tree, id: Id)
    requires RowsBelowRows(t) && Recorded(t, id) && t.nodes[id].parent.Some?
    ensures HasRow(t, t.nodes[id].parent.value) && Recorded(t, t.nodes[id].parent.value)
    ensures Reread(t, id).parent == t.nodes[id].parent && Reread(t, id).name == t.nodes[id].name
  {
    hide PathOf;
    HasRowIsNode(t, t.nodes[id].parent.value);
  }

  /** Recorded nodes keep their paths. */
  lemma ReloadKeepsPaths(t: Tree, id: Id)
    requires RowsBelowRows(t)
    ensures PathOf(Reload(t), id) == if Recorded(t, id) then PathOf(t, id) else None
  {
    hide HasRow, Reread;
    ReloadNodes(t, id);
    if Recorded(t, id) { ReloadKeepsClimb(t, id, WALK_LIMIT); }
  }

  /** Every node with a path whose parent is a directory is recorded, and comes back with its
      parent, name and metadata; only the root loses its name. */
  lemma ReloadKeepsNodes(t: Tree, id: Id)
    requires WellFormed(t) && DirsOnly(t) && PathOf(t, id).Some?
    ensures id in Reload(t).nodes
    ensures t.root != Some(id) ==> Reload(t).nodes[id] == t.nodes[id]
    ensures t.root == Some(id) ==> Reload(t).nodes[id] == Node(None, [], t.nodes[id].meta.(isDir := true))
  {
    hide Agree, UniqueSiblings;
    DirsOnlyGivesRows(t);
    if t.nodes[id].parent.Some? {
      ParentHasPath(t, id);
    }
    ReloadNodes(t, id);
  }

  /** The same directories, with the same records, are in the reloaded tree. */
  lemma ReloadKeepsRows(t: Tree, id: Id)
    requires WellFormed(t) && RowsBelowRows(t)
    ensures HasRow(Reload(t), id) <==> HasRow(t, id)
  {
    hide Agree, UniqueSiblings, PathOf, RowsBelowRows;
    ReloadKeepsPaths(t, id);
    ReloadNodes(t, id);
    if HasRow(t, id) { HasRowIsNode(t, id); }
    if HasRow(Reload(t), id) { HasRowIsNode(Reload(t), id); }
  }

  lemma ReloadKeepsDirList(t: Tree, dirs: seq<Dir>)
    requires WellFormed(t) && RowsBelowRows(t) && IsDirList(t, dirs)
    ensures IsDirList(Reload(t), dirs)
  {
    hide WellFormed, RowsBelowRows, HasRow, PathOf, Reload, Less;
    forall id ensures HasRow(Reload(t), id) <==> HasRow(t, id) { ReloadKeepsRows(t, id); }
    forall d | d in dirs ensures PathOf(Reload(t), d.id) == Some(d.path) {
      ReloadKeepsPaths(t, d.id);
      HasRowIsNode(t, d.id);
    }
  }

  lemma {:induction false} InfosSame(t: Tree, r: Tree, es: seq<Entry>)
    requires forall e :: e in es ==> e.id in t.nodes && e.id in r.nodes && t.nodes[e.id].meta == r.nodes[e.id].meta
    ensures Infos(t, es) == Infos(r, es)
    decreases |es|
  {
    if es != [] {
      assert es[0] in es;
      InfosSame(t, r, es[1..]);
    }
  }

  lemma RereadMeta(t: Tree, id: Id)
    requires id in t.nodes && t.nodes[id].parent.Some? && SoleRoot(t)
    ensures Reread(t, id).meta == t.nodes[id].meta
  {
  }

  /** A directory's child records are the same before and after. */
  lemma ReloadKeepsChildren(t: Tree, p: Id)
    requires WellFormed(t) && RowsBelowRows(t) && HasRow(t, p)
    ensures ChildList(Reload(t), p) == ChildList(t, p)
  {
    hide PathOf, HasRow, Reload, Reread, UniqueSiblings, RowsBelowRows;
    ReloadKids(t, p);
    var es := SortEntries(KidSet(t, p));
    forall e | e in es
      ensures e.id in t.nodes && e.id in Reload(t).nodes && t.nodes[e.id].meta == Reload(t).nodes[e.id].meta
    {
      assert HasPlace(t, e.id, p, e.name);
      ReloadNodes(t, e.id);
      RereadMeta(t, e.id);
    }
    InfosSame(t, Reload(t), es);
  }

  lemma {:induction false} ReloadKeepsBlocks(t: Tree, dirs: seq<Dir>, off: nat)
    requires WellFormed(t) && RowsBelowRows(t) && Known(t, dirs) && Known(Reload(t), dirs)
    requires forall d :: d in dirs ==> HasRow(t, d.id)
    ensures Blocks(Reload(t), dirs) == Blocks(t, dirs) && Rows(Reload(t), dirs, off) == Rows(t, dirs, off)
    decreases |dirs|
  {
    hide WellFormed, RowsBelowRows, HasRow, Reload, ChildList, BlockBytes;
    if dirs != [] {
      var d := dirs[0];
      ReloadKeepsChildren(t, d.id);
      RowMetaSame(t, d.id);
      ReloadKeepsBlocks(t, dirs[1..], off + |Block(t, d.id)|);
    }
  }

  lemma RowMetaSame(t: Tree, id: Id)
    requires id in t.nodes && id in Reload(t).nodes
    ensures Reload(t).nodes[id].meta.(isDir := true) == t.nodes[id].meta.(isDir := true)
  {
  }

  /** Encoding the loaded tree again gives the same child blocks and the same directory table:
      with the same metadata bytes, the same file. */
  lemma ReencodeIsSame(t: Tree, dirs: seq<Dir>, meta: Str)
    requires WellFormed(t) && RowsBelowRows(t) && IsDirList(t, dirs) && Known(t, dirs)
    ensures IsDirList(Reload(t), dirs) && Known(Reload(t), dirs)
    ensures FileBytes(Reload(t), dirs, meta) == FileBytes(t, dirs, meta)
  {
    hide WellFormed, RowsBelowRows, HasRow, PathOf, Reload, Less, Blocks, Rows, TableBytes, HeaderBytes;
    ReloadKeepsDirList(t, dirs);
    forall d | d in dirs ensures d.id in Reload(t).nodes { HasRowIsNode(Reload(t), d.id); }
    ReloadKeepsBlocks(t, dirs, HEADER_LEN);
  }

  /** Loading a saved tree a second time changes nothing more. */
  lemma ReloadTwice(t: Tree)
    requires WellFormed(t) && RowsBelowRows(t)
    ensures Reload(Reload(t)) == Reload(t)
  {
    hide WellFormed, RowsBelowRows, HasRow, PathOf, Reread, KidSet;
    var r := Reload(t);
    forall id ensures HasRow(r, id) <==> HasRow(t, id) { ReloadKeepsRows(t, id); }
    forall id | id in r.nodes ensures Recorded(r, id) && Reread(r, id) == r.nodes[id] { RereadTwice(t, id); }
    forall id | HasRow(t, id) ensures KidSet(r, id) == KidSet(t, id) { ReloadKids(t, id); }
    forall id | HasRow(t, id) ensures id in r.nodes { HasRowIsNode(r, id); }
    assert Reload(r).nodes == r.nodes;
    assert Reload(r).kids == r.kids;
  }

  lemma RereadTwice(t: Tree, id: Id)
    requires WellFormed(t) && RowsBelowRows(t) && id in Reload(t).nodes
    ensures Recorded(Reload(t), id) && Reread(Reload(t), id) == Reload(t).nodes[id]
  {
    hide PathOf, Agree, UniqueSiblings, HasRow;
    var r := Reload(t);
    ReloadNodes(t, id);
    ReloadKeepsRows(t, id);
    if t.nodes[id].parent.Some? {
      ParentIsRecorded(t, id);
      ReloadKeepsRows(t, t.nodes[id].parent.value);
    }
    ParentlessHasRow(t, id);
  }

  lemma ParentlessHasRow(t: Tree, id: Id)
    requires SoleRoot(t) && id in t.nodes
    ensures t.nodes[id].parent == None ==> HasRow(t, id)
  {
  }
}
