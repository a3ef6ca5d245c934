/** Reading a snapshot back: what an encode and a decode keep of a tree. */
module SnapshotDecode {
  import opened Bytes
  import opened Paths
  import opened Namespace
  import opened Resolution
  import opened Sweep
  import opened Records
  import opened Snapshot
  import opened SnapshotLookup

  // ---------------------------------------------------------------- decoding

  datatype Maps = Maps(nodes: map<Id, Node>, kids: map<Id, set<Entry>>)

  function RowNode(r: DirRow): Node {
    Node(None, LastSegment(r.path), ItemMeta(true, r.size, r.mtime, r.etag))
  }

  function ChildNode(parent: Id, c: ChildInfo): Node {
    Node(Some(parent), c.name, ItemMeta(c.isDir, c.size, c.mtime, c.etag))
  }

  function AddChildren(nodes: map<Id, Node>, parent: Id, cs: seq<ChildInfo>): map<Id, Node>
    decreases |cs|
  {
    if cs == [] then nodes else AddChildren(nodes[cs[0].id := ChildNode(parent, cs[0])], parent, cs[1..])
  }

  function EntrySet(cs: seq<ChildInfo>): set<Entry> {
    set c | c in cs :: Entry(c.name, c.id)
  }

  function LoadRow(m: Maps, r: DirRow, cs: seq<ChildInfo>): Maps {
    Maps(AddChildren(m.nodes[r.id := RowNode(r)], r.id, cs), m.kids[r.id := EntrySet(cs)])
  }

  /** The first pass: every row's node, its children and its child set. */
  function LoadRows(bytes: Str, rows: seq<DirRow>, m: Maps): Result<Maps>
    decreases |rows|
  {
    if rows == [] then Success(m)
    else
      var cs :- ParseBlock(bytes, rows[0].blockOff, rows[0].blockLen);
      LoadRows(bytes, rows[1..], LoadRow(m, rows[0], cs))
  }

  function PathIds(rows: seq<DirRow>): map<Str, Id> {
    if rows == [] then map[] else PathIds(rows[..|rows| - 1])[rows[|rows| - 1].path := rows[|rows| - 1].id]
  }

  function LinkRow(nodes: map<Id, Node>, ids: map<Str, Id>, r: DirRow): map<Id, Node> {
    if r.id !in nodes then nodes
    else if r.path == [SLASH] then nodes[r.id := nodes[r.id].(parent := None, name := [])]
    else if ParentPath(r.path) in ids then nodes[r.id := nodes[r.id].(parent := Some(ids[ParentPath(r.path)]))]
    else nodes
  }

  /** The second pass: every directory below the one its path names. */
  function LinkRows(nodes: map<Id, Node>, ids: map<Str, Id>, rows: seq<DirRow>): map<Id, Node>
    decreases |rows|
  {
    if rows == [] then nodes else LinkRows(LinkRow(nodes, ids, rows[0]), ids, rows[1..])
  }

  function RootOf(recorded: Option<Id>, rows: seq<DirRow>): Option<Id>
    decreases |rows|
  {
    if recorded.Some? || rows == [] then recorded
    else RootOf(if rows[0].path == [SLASH] then Some(rows[0].id) else None, rows[1..])
  }

  /** The slice of the directory table exists (`decode` slices without a check). */
  predicate TableInRange(bytes: Str, codec: MetaCodec) {
    var h := ParseHeader(bytes);
    h.Success? && ParseMeta(bytes, h.value, codec).Success? ==> h.value.dirTableOff <= h.value.metaOff
  }

  function Decode(bytes: Str, codec: MetaCodec): Result<State>
    requires TableInRange(bytes, codec)
  {
    var h :- ParseHeader(bytes);
    var meta :- ParseMeta(bytes, h, codec);
    var rows :- ParseRows(bytes[h.dirTableOff..h.metaOff], 0, h.dirCount);
    var m :- LoadRows(bytes, rows, Maps(map[], map[]));
    Success(State(Tree(LinkRows(m.nodes, PathIds(rows), rows), m.kids, RootOf(meta.rootId, rows)), meta.cursor))
  }

  // ---------------------------------------------------------------- what survives

  /** The nodes a file records: the directories with a row, and their children. */
  predicate Recorded(t: Tree, id: Id) {
    id in t.nodes && (HasRow(t, id) || (t.nodes[id].parent.Some? && HasRow(t, t.nodes[id].parent.value)))
  }

  /** A recorded node as it is read back. */
  function Reread(t: Tree, id: Id): Node
    requires id in t.nodes
  {
    var n := t.nodes[id];
    if !HasRow(t, id) then n
    else if n.parent == None then Node(None, [], n.meta.(isDir := true))
    else if HasRow(t, n.parent.value) then n.(meta := n.meta.(isDir := true))
    else n.(parent := None, meta := n.meta.(isDir := true))
  }

  function Reload(t: Tree): Tree {
    Tree(map id | id in t.nodes && Recorded(t, id) :: Reread(t, id),
         map id | id in t.nodes && HasRow(t, id) :: KidSet(t, id),
         t.root)
  }

  // ---------------------------------------------------------------- the first pass

  ghost predicate Among(dirs: seq<Dir>, id: Id) { exists d :: d in dirs && d.id == id }

  ghost predicate BelowAmong(t: Tree, dirs: seq<Dir>, id: Id) {
    id in t.nodes && t.nodes[id].parent.Some? && Among(dirs, t.nodes[id].parent.value)
  }

  function Bare(t: Tree, id: Id): Node
    requires id in t.nodes
  {
    var n := t.nodes[id];
    Node(None, if n.parent == None then [] else n.name, n.meta.(isDir := true))
  }

  /** The maps after the first pass has read `dirs`. */
  ghost function Loaded(t: Tree, dirs: seq<Dir>): Maps {
    Maps(map id | id in t.nodes && (Among(dirs, id) || BelowAmong(t, dirs, id)) ::
           if Among(dirs, id) then Bare(t, id) else t.nodes[id],
         map id | id in t.nodes && Among(dirs, id) :: KidSet(t, id))
  }

  /** A path sorts after its parent's. */
  lemma PathAfterParent(t: Tree, c: Id, p: Id)
    requires WellFormed(t) && GoodNames(t) && PathOf(t, c).Some? && t.nodes[c].parent == Some(p)
    ensures PathOf(t, p).Some? && Less(PathOf(t, p).value, PathOf(t, c).value)
    ensures PathOf(t, c).value == Render(Climb(t, p, WALK_LIMIT).value + [t.nodes[c].name])
  {
    hide Render, Less;
    ClimbWithMore(t, p, WALK_LIMIT - 1, WALK_LIMIT);
    var up, n := Climb(t, p, WALK_LIMIT).value, t.nodes[c].name;
    assert Climb(t, c, WALK_LIMIT) == Some(up + [n]);
    RenderGrows(up, n);
  }

  lemma RenderGrows(up: seq<Str>, n: Str)
    requires GoodSeg(n)
    ensures Less(Render(up), Render(up + [n]))
  {
    hide Less;
    FlatConcat(up, [n]);
    assert Flat([n]) == [SLASH] + n;
    if up == [] {
      assert Render([n]) == [SLASH] + n && up + [n] == [n];
      PrefixIsLess([SLASH], n);
    } else {
      PrefixIsLess(Flat(up), [SLASH] + n);
    }
  }

  function Pick(t: Tree, ids: set<Id>): map<Id, Node> { map id | id in t.nodes && id in ids :: t.nodes[id] }

  function IdsOf(es: seq<Entry>): set<Id> { set e | e in es :: e.id }

  lemma IdsOfCons(es: seq<Entry>)
    requires es != []
    ensures IdsOf(es) == {es[0].id} + IdsOf(es[1..])
  {
    assert forall e :: e in es <==> e == es[0] || e in es[1..];
  }

  /** Reading a directory's children adds their nodes unchanged. */
  lemma {:induction false} AddInfos(t: Tree, nodes: map<Id, Node>, p: Id, es: seq<Entry>)
    requires forall e :: e in es ==> HasPlace(t, e.id, p, e.name)
    ensures AddChildren(nodes, p, Infos(t, es)) == nodes + Pick(t, IdsOf(es))
    decreases |es|
  {
    if es == [] {
      assert nodes + Pick(t, {}) == nodes;
    } else {
      assert HasPlace(t, es[0].id, p, es[0].name);
      AddFirst(t, nodes, p, es);
      AddInfos(t, nodes[es[0].id := t.nodes[es[0].id]], p, es[1..]);
      IdsOfCons(es);
      PickCons(t, nodes, es[0].id, IdsOf(es[1..]));
    }
  }

  lemma AddFirst(t: Tree, nodes: map<Id, Node>, p: Id, es: seq<Entry>)
    requires es != [] && HasPlace(t, es[0].id, p, es[0].name)
    ensures AddChildren(nodes, p, Infos(t, es)) ==
            AddChildren(nodes[es[0].id := t.nodes[es[0].id]], p, Infos(t, es[1..]))
  {
    var c := InfoOf(t, es[0]);
    assert ChildNode(p, c) == t.nodes[c.id];
    assert Infos(t, es) == [c] + Infos(t, es[1..]);
  }

  lemma PickCons(t: Tree, nodes: map<Id, Node>, id: Id, ids: set<Id>)
    requires id in t.nodes
    ensures nodes[id := t.nodes[id]] + Pick(t, ids) == nodes + Pick(t, {id} + ids)
  {
  }

  function ChildIds(t: Tree, p: Id): set<Id> { set id | id in t.nodes && t.nodes[id].parent == Some(p) }

  lemma IdsOfKids(t: Tree, p: Id)
    requires Agree(t)
    ensures IdsOf(SortEntries(KidSet(t, p))) == ChildIds(t, p)
  {
    var es := SortEntries(KidSet(t, p));
    forall id | id in ChildIds(t, p) ensures id in IdsOf(es) {
      assert HasPlace(t, id, p, t.nodes[id].name);
      assert Entry(t.nodes[id].name, id) in es;
    }
    forall e | e in es ensures e.id in ChildIds(t, p) { assert HasPlace(t, e.id, p, e.name); }
  }

  lemma AddChildList(t: Tree, nodes: map<Id, Node>, p: Id)
    requires Agree(t)
    ensures AddChildren(nodes, p, ChildList(t, p)) == nodes + Pick(t, ChildIds(t, p))
  {
    var es := SortEntries(KidSet(t, p));
    forall e | e in es ensures HasPlace(t, e.id, p, e.name) {}
    AddInfos(t, nodes, p, es);
    IdsOfKids(t, p);
  }

  lemma {:induction false} EntrySetOfInfos(t: Tree, es: seq<Entry>)
    requires forall e :: e in es ==> e.id in t.nodes
    ensures EntrySet(Infos(t, es)) == set e | e in es
    decreases |es|
  {
    if es != [] {
      EntrySetOfInfos(t, es[1..]);
      var c := InfoOf(t, es[0]);
      assert Infos(t, es) == [c] + Infos(t, es[1..]);
      EntrySetCons(c, Infos(t, es[1..]));
      assert forall e :: e in es <==> e == es[0] || e in es[1..];
    }
  }

  lemma EntrySetCons(c: ChildInfo, cs: seq<ChildInfo>)
    ensures EntrySet([c] + cs) == {Entry(c.name, c.id)} + EntrySet(cs)
  {
    assert forall x :: x in [c] + cs <==> x == c || x in cs;
  }

  lemma EntrySetOfChildList(t: Tree, p: Id)
    requires Agree(t)
    ensures EntrySet(ChildList(t, p)) == KidSet(t, p)
  {
    var es := SortEntries(KidSet(t, p));
    forall e | e in es ensures e.id in t.nodes { assert HasPlace(t, e.id, p, e.name); }
    EntrySetOfInfos(t, es);
  }

  /** One directory of the first pass, in path order. */
  lemma LoadOne(t: Tree, dirs: seq<Dir>, k: nat, r: DirRow)
    requires WellFormed(t) && GoodNames(t) && IsDirList(t, dirs) && k < |dirs|
    requires dirs[k].id in t.nodes && r == RowFor(t, dirs[k], r.blockOff)
    ensures LoadRow(Loaded(t, dirs[..k]), r, ChildList(t, dirs[k].id)) == Loaded(t, dirs[..k + 1])
  {
    hide IsDirList, ChildList, AddChildren, EntrySet, KidSet, Bare, Among, BelowAmong, GoodNames, Agree, HasRow, Block;
    var d := dirs[k];
    var before := Loaded(t, dirs[..k]);
    DirAt(t, dirs, k);
    RowNodeIsBare(t, d, r);
    AddChildList(t, before.nodes[d.id := Bare(t, d.id)], d.id);
    EntrySetOfChildList(t, d.id);
    forall id ensures Among(dirs[..k + 1], id) <==> Among(dirs[..k], id) || id == d.id {
      AmongSnoc(dirs, k, id);
    }
    forall c | c in ChildIds(t, d.id) ensures !Among(dirs[..k + 1], c) {
      ChildComesLater(t, dirs, k, c);
    }
    LoadedNodes(t, dirs[..k], dirs[..k + 1], d.id);
    LoadedKids(t, dirs[..k], dirs[..k + 1], d.id);
  }

  lemma DirAt(t: Tree, dirs: seq<Dir>, k: nat)
    requires IsDirList(t, dirs) && k < |dirs|
    ensures HasRow(t, dirs[k].id) && PathOf(t, dirs[k].id) == Some(dirs[k].path)
  {
    assert dirs[k] in dirs;
  }

  lemma LoadedKids(t: Tree, a: seq<Dir>, b: seq<Dir>, p: Id)
    requires p in t.nodes && forall id :: Among(b, id) <==> Among(a, id) || id == p
    ensures Loaded(t, b).kids == Loaded(t, a).kids[p := KidSet(t, p)]
  {
    hide KidSet, Among;
  }

  lemma RowNodeIsBare(t: Tree, d: Dir, r: DirRow)
    requires WellFormed(t) && GoodNames(t) && d.id in t.nodes && PathOf(t, d.id) == Some(d.path)
    requires r == RowFor(t, d, r.blockOff)
    ensures RowNode(r) == Bare(t, d.id)
  {
    hide LastSegment, Render;
    var segs := Climb(t, d.id, WALK_LIMIT).value;
    ClimbIsGood(t, d.id, WALK_LIMIT);
    if t.nodes[d.id].parent == None {
      LastOfSlash();
    } else {
      HelpersOnRender(segs);
    }
  }

  lemma LastOfSlash()
    ensures LastSegment(Render([])) == []
  {
    assert TrimEnd([SLASH]) == TrimEnd([]) == [];
  }

  lemma AmongSnoc(dirs: seq<Dir>, k: nat, id: Id)
    requires k < |dirs|
    ensures Among(dirs[..k + 1], id) <==> Among(dirs[..k], id) || id == dirs[k].id
  {
    assert dirs[..k + 1] == dirs[..k] + [dirs[k]];
    assert dirs[k] in dirs[..k + 1];
  }

  /** A directory's children come after it in path order. */
  lemma ChildComesLater(t: Tree, dirs: seq<Dir>, k: nat, c: Id)
    requires WellFormed(t) && GoodNames(t) && IsDirList(t, dirs) && k < |dirs|
    requires c in t.nodes && t.nodes[c].parent == Some(dirs[k].id)
    ensures !Among(dirs[..k + 1], c)
  {
    hide Less, PathOf;
    if Among(dirs[..k + 1], c) {
      var d :| d in dirs[..k + 1] && d.id == c;
      var j :| 0 <= j < k + 1 && dirs[..k + 1][j] == d;
      assert dirs[j] == d && d in dirs && dirs[k] in dirs;
      PathAfterParent(t, c, dirs[k].id);
      LessIrreflexive(dirs[k].path);
    }
  }

  lemma LoadedNodes(t: Tree, a: seq<Dir>, b: seq<Dir>, p: Id)
    requires p in t.nodes && forall id :: Among(b, id) <==> Among(a, id) || id == p
    requires forall c :: c in ChildIds(t, p) ==> !Among(b, c)
    ensures Loaded(t, b).nodes == Loaded(t, a).nodes[p := Bare(t, p)] + Pick(t, ChildIds(t, p))
  {
    hide Bare, Among;
    var l, r := Loaded(t, b).nodes, Loaded(t, a).nodes[p := Bare(t, p)] + Pick(t, ChildIds(t, p));
    forall id ensures id in l <==> id in r {}
    forall id | id in l ensures l[id] == r[id] {}
  }

  /** The whole first pass. */
  lemma {:induction false} LoadAll(bytes: Str, t: Tree, dirs: seq<Dir>, rows: seq<DirRow>, k: nat)
    requires WellFormed(t) && GoodNames(t) && IsDirList(t, dirs) && StringsFit(t)
    requires Tables(bytes, t, dirs, rows) && k <= |rows|
    ensures LoadRows(bytes, rows[k..], Loaded(t, dirs[..k])) == Success(Loaded(t, dirs))
    decreases |rows| - k
  {
    hide Loaded, At, Block, StringsFit, WellFormed, GoodNames, IsDirList, LoadRow, ParseBlock, ChildList;
    if k == |rows| {
      assert dirs[..k] == dirs && rows[k..] == [];
    } else {
      assert rows[k..][0] == rows[k] && rows[k..][1..] == rows[k + 1..];
      BlockParses(bytes, t, rows[k], dirs[k].id);
      assert dirs[k] in dirs;
      LoadOne(t, dirs, k, rows[k]);
      LoadAll(bytes, t, dirs, rows, k + 1);
    }
  }

  lemma BlockParses(bytes: Str, t: Tree, r: DirRow, id: Id)
    requires WellFormed(t) && StringsFit(t) && r.blockLen == |Block(t, id)| && At(bytes, r.blockOff, Block(t, id))
    ensures ParseBlock(bytes, r.blockOff, r.blockLen) == Success(ChildList(t, id))
  {
    hide At, ParseBlock, ChildList, StringsFit, BlockBytes;
    ChildListFits(t, id);
    ParseWrittenBlock(bytes, r.blockOff, ChildList(t, id));
  }

  // ---------------------------------------------------------------- the second pass

  /** The path map sends each row's path to the id of the last row with that path, and no other path
      anywhere. */
  lemma {:induction false} PathIdsAre(rows: seq<DirRow>, path: Str)
    ensures path in PathIds(rows) <==> exists i :: 0 <= i < |rows| && rows[i].path == path
    ensures forall i :: 0 <= i < |rows| && rows[i].path == path && (forall j :: i < j < |rows| ==> rows[j].path != path) ==>
              PathIds(rows)[path] == rows[i].id
    decreases |rows|
  {
    if rows != [] {
      var init, n := rows[..|rows| - 1], |rows| - 1;
      PathIdsAre(init, path);
      assert forall i :: 0 <= i < n ==> init[i] == rows[i];
    }
  }

  /** In a table in order no two rows have the same path. */
  lemma PathOnce(rows: seq<DirRow>, i: nat, j: nat)
    requires RowsAscend(rows) && i < |rows| && j < |rows| && rows[i].path == rows[j].path
    ensures i == j
  {
    hide Less;
    LessIrreflexive(rows[i].path);
  }

  /** Looking up a rendered path in the path map finds the directory that resolves it. */
  lemma PathIdsResolve(bytes: Str, t: Tree, dirs: seq<Dir>, rows: seq<DirRow>, p: Id)
    requires WellFormed(t) && GoodNames(t) && IsDirList(t, dirs) && Tables(bytes, t, dirs, rows) && PathOf(t, p).Some?
    ensures PathOf(t, p).value in PathIds(rows) <==> HasRow(t, p)
    ensures HasRow(t, p) ==> PathIds(rows)[PathOf(t, p).value] == p
  {
    hide At, Block, WellFormed, GoodNames, PathOf, PathIds, Less;
    var path := PathOf(t, p).value;
    PathIdsAre(rows, path);
    if HasRow(t, p) {
      var d :| d in dirs && d.id == p;
      var i :| 0 <= i < |dirs| && dirs[i] == d;
      assert rows[i].path == path && rows[i].id == p;
    }
    if path in PathIds(rows) {
      var i :| 0 <= i < |rows| && rows[i].path == path;
      DirAt(t, dirs, i);
      PathOfInjective(t, dirs[i].id, p);
    }
  }

  /** A directory's path is `/` exactly for the root, and names its parent's path otherwise. */
  lemma PathNamesParent(t: Tree, id: Id)
    requires WellFormed(t) && GoodNames(t) && PathOf(t, id).Some?
    ensures PathOf(t, id).value == [SLASH] <==> t.nodes[id].parent == None
    ensures t.nodes[id].parent.Some? ==>
              PathOf(t, t.nodes[id].parent.value).Some?
              && ParentPath(PathOf(t, id).value) == PathOf(t, t.nodes[id].parent.value).value
  {
    hide Render, ParentPath, Less;
    ClimbIsGood(t, id, WALK_LIMIT);
    var segs := Climb(t, id, WALK_LIMIT).value;
    if t.nodes[id].parent == None {
      RenderOfNone();
    } else {
      var p := t.nodes[id].parent.value;
      PathAfterParent(t, id, p);
      var up := Climb(t, p, WALK_LIMIT).value;
      ClimbWithMore(t, p, WALK_LIMIT - 1, WALK_LIMIT);
      HelpersOnRender(segs);
      assert segs == up + [t.nodes[id].name];
      assert segs[..|segs| - 1] == up;
      if Render(segs) == [SLASH] {
        RenderOfNone();
        RenderInjective(segs, []);
      }
    }
  }

  lemma RenderOfNone()
    ensures Render([]) == [SLASH]
  {
  }

  /** The nodes after the second pass has linked `dirs`. */
  ghost function Linked(t: Tree, dirs: seq<Dir>, done: seq<Dir>): map<Id, Node> {
    map id | id in t.nodes && (Among(dirs, id) || BelowAmong(t, dirs, id)) ::
      if Among(done, id) then Reread(t, id) else if Among(dirs, id) then Bare(t, id) else t.nodes[id]
  }

  lemma LinkOne(bytes: Str, t: Tree, dirs: seq<Dir>, rows: seq<DirRow>, k: nat)
    requires WellFormed(t) && GoodNames(t) && IsDirList(t, dirs) && Tables(bytes, t, dirs, rows) && k < |dirs|
    ensures LinkRow(Linked(t, dirs, dirs[..k]), PathIds(rows), rows[k]) == Linked(t, dirs, dirs[..k + 1])
  {
    hide At, Block, Agree, UniqueSiblings, GoodNames, PathOf, PathIds, ParentPath, BelowAmong, Climb, Linked, Less;
    var id := dirs[k].id;
    DirAt(t, dirs, k);
    PathNamesParent(t, id);
    NotYetLinked(t, dirs, k);
    if t.nodes[id].parent.Some? {
      PathIdsResolve(bytes, t, dirs, rows, t.nodes[id].parent.value);
    }
    LinkedSnoc(t, dirs, k);
  }

  lemma NotYetLinked(t: Tree, dirs: seq<Dir>, k: nat)
    requires IsDirList(t, dirs) && k < |dirs|
    ensures dirs[k].id in Linked(t, dirs, dirs[..k]) && Linked(t, dirs, dirs[..k])[dirs[k].id] == Bare(t, dirs[k].id)
  {
    hide Bare, Reread, PathOf, Less;
    assert dirs[k] in dirs;
    HasRowIsNode(t, dirs[k].id);
    assert !Among(dirs[..k], dirs[k].id);
  }

  lemma LinkedSnoc(t: Tree, dirs: seq<Dir>, k: nat)
    requires IsDirList(t, dirs) && k < |dirs|
    ensures dirs[k].id in t.nodes
    ensures Linked(t, dirs, dirs[..k + 1]) == Linked(t, dirs, dirs[..k])[dirs[k].id := Reread(t, dirs[k].id)]
  {
    hide Bare, Reread, PathOf, Less, BelowAmong;
    DirAt(t, dirs, k);
    HasRowIsNode(t, dirs[k].id);
    assert Among(dirs, dirs[k].id) by { assert dirs[k] in dirs; }
    forall id ensures Among(dirs[..k + 1], id) <==> Among(dirs[..k], id) || id == dirs[k].id {
      AmongSnoc(dirs, k, id);
    }
  }

  lemma {:induction false} LinkAll(bytes: Str, t: Tree, dirs: seq<Dir>, rows: seq<DirRow>, k: nat)
    requires WellFormed(t) && GoodNames(t) && IsDirList(t, dirs) && Tables(bytes, t, dirs, rows) && k <= |rows|
    ensures LinkRows(Linked(t, dirs, dirs[..k]), PathIds(rows), rows[k..]) == Linked(t, dirs, dirs)
    decreases |rows| - k
  {
    hide Linked, At, Block, WellFormed, GoodNames, IsDirList, LinkRow, PathIds;
    if k == |rows| {
      assert dirs[..k] == dirs && rows[k..] == [];
    } else {
      assert rows[k..][0] == rows[k] && rows[k..][1..] == rows[k + 1..];
      LinkOne(bytes, t, dirs, rows, k);
      LinkAll(bytes, t, dirs, rows, k + 1);
    }
  }

  lemma HasRowIsNode(t: Tree, id: Id)
    requires HasRow(t, id)
    ensures id in t.nodes
  {
  }

  lemma AmongIffRow(t: Tree, dirs: seq<Dir>, id: Id)
    requires IsDirList(t, dirs)
    ensures Among(dirs, id) <==> HasRow(t, id)
  {
    hide PathOf, Less;
  }

  lemma LinkedIsReload(t: Tree, dirs: seq<Dir>)
    requires IsDirList(t, dirs)
    ensures Linked(t, dirs, []) == Loaded(t, dirs).nodes
    ensures Linked(t, dirs, dirs) == Reload(t).nodes && Loaded(t, dirs).kids == Reload(t).kids
  {
    hide HasRow, Bare, Reread, IsDirList;
    forall id ensures Among(dirs, id) <==> HasRow(t, id) { AmongIffRow(t, dirs, id); }
    RereadOther(t);
    assert forall id :: !Among([], id);
  }

  lemma RereadOther(t: Tree)
    ensures forall id :: id in t.nodes && !HasRow(t, id) ==> Reread(t, id) == t.nodes[id]
  {
  }

  lemma {:induction false} RootIsKept(bytes: Str, t: Tree, dirs: seq<Dir>, rows: seq<DirRow>, k: nat)
    requires WellFormed(t) && IsDirList(t, dirs) && Tables(bytes, t, dirs, rows) && GoodNames(t) && k <= |rows|
    ensures RootOf(t.root, rows[k..]) == t.root
  {
    hide At, Block, Agree, UniqueSiblings, GoodNames, PathOf, Less;
    if t.root == None && k < |rows| {
      DirAt(t, dirs, k);
      assert false by { NoRootNoPath(t, dirs[k].id); }
    }
  }

  lemma {:induction false} NoRootNoClimb(t: Tree, id: Id, fuel: nat)
    requires SoleRoot(t) && t.root == None
    ensures Climb(t, id, fuel) == None
    decreases fuel
  {
    if fuel > 0 && id in t.nodes && t.nodes[id].parent.Some? { NoRootNoClimb(t, t.nodes[id].parent.value, fuel - 1); }
  }

  lemma NoRootNoPath(t: Tree, id: Id)
    requires SoleRoot(t) && t.root == None
    ensures PathOf(t, id) == None
  {
    NoRootNoClimb(t, id, WALK_LIMIT);
  }

  // ---------------------------------------------------------------- the round trip

  /** The header, the metadata and the table of an encoded file are read back. */
  lemma PartsAreRead(t: Tree, dirs: seq<Dir>, meta: SnapshotMeta, codec: MetaCodec)
    requires WellFormed(t) && GoodNames(t) && IsDirList(t, dirs) && Known(t, dirs) && Faithful(codec)
    requires Fits(t, dirs, codec.write(meta))
    ensures var bytes := FileBytes(t, dirs, codec.write(meta));
            var h := HeaderOf(t, dirs, codec.write(meta));
            && ParseHeader(bytes) == Success(h) && ParseMeta(bytes, h, codec) == Success(meta)
            && TableInRange(bytes, codec) && h.dirTableOff <= h.metaOff <= |bytes|
            && ParseRows(bytes[h.dirTableOff..h.metaOff], 0, h.dirCount) == Success(Rows(t, dirs, HEADER_LEN))
  {
    hide At, Rows, TableBytes, HeaderBytes, ParseHeader, ParseRows, WellFormed, GoodNames, IsDirList, FileBytes,
         StringsFit, Blocks;
    var m := codec.write(meta);
    var bytes, h := FileBytes(t, dirs, m), HeaderOf(t, dirs, m);
    FileParts(t, dirs, m);
    HeaderFits(t, dirs, m);
    HeaderIsRead(bytes, h);
    TableIsRead(t, dirs, m);
    TableSlice(bytes, h.metaOff, m);
    assert codec.read(codec.write(meta)) == Some(meta);
  }

  /** A table with the root's row gives back the root, whether the metadata name it or not. */
  lemma RootIsFound(t: Tree, dirs: seq<Dir>, bytes: Str, rows: seq<DirRow>)
    requires WellFormed(t) && GoodNames(t) && IsDirList(t, dirs) && Tables(bytes, t, dirs, rows)
    ensures RootOf(None, rows) == t.root
  {
    hide At, Block, Agree, UniqueSiblings, GoodNames, PathOf, Less, RootOf;
    if t.root == None {
      RootIsKept(bytes, t, dirs, rows, 0);
      assert rows[0..] == rows;
    } else {
      var root := t.root.value;
      assert HasRow(t, root) && PathOf(t, root) == Some([SLASH]) by { RootAtSlash(t); }
      var d :| d in dirs && d.id == root;
      var i :| 0 <= i < |dirs| && dirs[i] == d;
      assert rows[i].path == [SLASH] && rows[i].id == root;
      forall j | 0 <= j < i ensures rows[j].path != [SLASH] {
        if rows[j].path == [SLASH] { PathOnce(rows, i, j); }
      }
      FirstSlashRow(rows, i);
    }
  }

  lemma RootAtSlash(t: Tree)
    requires SoleRoot(t) && t.root.Some?
    ensures HasRow(t, t.root.value) && PathOf(t, t.root.value) == Some([SLASH])
  {
  }

  /** Without a recorded root the first row at `/` is it. */
  lemma {:induction false} FirstSlashRow(rows: seq<DirRow>, i: nat)
    requires i < |rows| && rows[i].path == [SLASH] && forall j :: 0 <= j < i ==> rows[j].path != [SLASH]
    ensures RootOf(None, rows) == Some(rows[i].id)
    decreases i
  {
    if i > 0 {
      FirstSlashRow(rows[1..], i - 1);
    } else {
      assert RootOf(Some(rows[0].id), rows[1..]) == Some(rows[0].id);
    }
  }

  /** Decoding what was encoded gives the reloaded tree and every cursor field. */
  lemma DecodeEncoded(s: State, dirs: seq<Dir>, now: u64, codec: MetaCodec)
    requires WellFormed(s.tree) && GoodNames(s.tree) && IsDirList(s.tree, dirs) && Known(s.tree, dirs) && Faithful(codec)
    requires Fits(s.tree, dirs, codec.write(MetaOf(s, dirs, now)))
    ensures var bytes := FileBytes(s.tree, dirs, codec.write(MetaOf(s, dirs, now)));
            TableInRange(bytes, codec) && Decode(bytes, codec) == Success(State(Reload(s.tree), s.cursor))
  {
    hide IsDirList, Fits, FileBytes, Decode, TableInRange, Agree, UniqueSiblings, SoleRoot, GoodNames;
    DecodeWritten(s.tree, dirs, MetaOf(s, dirs, now), codec);
  }

  /** The same for a file of any build time and totals, and for one whose metadata do not name the
      root: the root is found again in the table. */
  lemma DecodeWritten(t: Tree, dirs: seq<Dir>, meta: SnapshotMeta, codec: MetaCodec)
    requires WellFormed(t) && GoodNames(t) && IsDirList(t, dirs) && Known(t, dirs) && Faithful(codec)
    requires Fits(t, dirs, codec.write(meta)) && (meta.rootId == t.root || meta.rootId == None)
    ensures var bytes := FileBytes(t, dirs, codec.write(meta));
            TableInRange(bytes, codec) && Decode(bytes, codec) == Success(State(Reload(t), meta.cursor))
  {
    hide At, Rows, ParseHeader, ParseMeta, ParseRows, Agree, UniqueSiblings, SoleRoot, GoodNames, IsDirList, FileBytes, StringsFit,
         Tables, LoadRows, LinkRows, PathIds, RootOf, Loaded, Linked, HeaderOf, Reload;
    var bytes := FileBytes(t, dirs, codec.write(meta));
    var rows := Rows(t, dirs, HEADER_LEN);
    PartsAreRead(t, dirs, meta, codec);
    FileTables(t, dirs, codec.write(meta));
    assert |rows| == |dirs|;
    assert rows[0..] == rows && dirs[..0] == [];
    LoadAll(bytes, t, dirs, rows, 0);
    LoadedNone(t);
    LinkAll(bytes, t, dirs, rows, 0);
    RootIsKept(bytes, t, dirs, rows, 0);
    RootIsFound(t, dirs, bytes, rows);
    LinkedIsReload(t, dirs);
    ReloadRoot(t);
  }

  lemma ReloadRoot(t: Tree)
    ensures Reload(t).root == t.root
  {
  }

  lemma LoadedNone(t: Tree)
    ensures Loaded(t, []) == Maps(map[], map[])
  {
    assert forall id :: !Among([], id);
  }
}
