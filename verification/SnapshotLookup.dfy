/** Looking a path up in the file answers exactly as walking the tree that was encoded. */
module SnapshotLookup {
  import opened Bytes
  import opened Paths
  import opened Namespace
  import opened Resolution
  import opened Records
  import opened Snapshot

  // ---------------------------------------------------------------- what fits the format

  ghost predicate StringsFit(t: Tree) {
    forall id :: id in t.nodes ==> StrOk(id) && StrOk(t.nodes[id].name) && StrOk(t.nodes[id].meta.etag)
  }

  /** Every length and offset fits its field. */
  ghost predicate Fits(t: Tree, dirs: seq<Dir>, meta: Str) {
    && Known(t, dirs) && StringsFit(t)
    && (forall d :: d in dirs ==> |d.path| < U32_SPAN && |Block(t, d.id)| < U32_SPAN)
    && |dirs| < U32_SPAN && |meta| < U32_SPAN && |FileBytes(t, dirs, meta)| < U64_SPAN
  }

  lemma {:induction false} InfosFit(t: Tree, es: seq<Entry>)
    requires StringsFit(t) && forall e :: e in es && e.id in t.nodes ==> StrOk(e.name)
    ensures ChildrenOk(Infos(t, es))
  {
    hide StrOk;
    if es != [] {
      InfosFit(t, es[1..]);
      assert es[0] in es;
    }
  }

  lemma ChildListFits(t: Tree, id: Id)
    requires StringsFit(t) && Agree(t)
    ensures ChildrenOk(ChildList(t, id))
  {
    hide StrOk;
    forall e | e in SortEntries(KidSet(t, id)) ensures StrOk(e.name) {
      assert HasPlace(t, e.id, id, e.name);
    }
    InfosFit(t, SortEntries(KidSet(t, id)));
  }

  lemma {:induction false} ClimbUtf8(t: Tree, id: Id, fuel: nat)
    requires StringsFit(t) && Climb(t, id, fuel).Some?
    ensures forall s :: s in Climb(t, id, fuel).value ==> Utf8(s)
    decreases fuel
  {
    hide Utf8;
    if t.nodes[id].parent.Some? { ClimbUtf8(t, t.nodes[id].parent.value, fuel - 1); }
  }

  lemma {:induction false} FlatUtf8(segs: seq<Str>)
    requires forall s :: s in segs ==> Utf8(s)
    ensures Utf8(Flat(segs))
  {
    hide Utf8;
    if segs == [] {
      Utf8Nil();
    } else {
      Utf8Ascii(SLASH);
      FlatUtf8(segs[1..]);
      Utf8Concat([SLASH], segs[0]);
      Utf8Concat([SLASH] + segs[0], Flat(segs[1..]));
    }
  }

  lemma PathUtf8(t: Tree, id: Id)
    requires StringsFit(t) && PathOf(t, id).Some?
    ensures Utf8(PathOf(t, id).value)
  {
    ClimbUtf8(t, id, WALK_LIMIT);
    FlatUtf8(Climb(t, id, WALK_LIMIT).value);
    Utf8Ascii(SLASH);
  }

  // ---------------------------------------------------------------- where things stand

  /** The row of the `i`-th directory, and its block at the row's offset. */
  lemma {:induction false} RowAndBlock(bytes: Str, t: Tree, dirs: seq<Dir>, off: nat, i: nat)
    requires Known(t, dirs) && i < |dirs|
    requires At(bytes, off, Blocks(t, dirs))
    ensures var r := Rows(t, dirs, off)[i];
            r == RowFor(t, dirs[i], r.blockOff) && At(bytes, r.blockOff, Block(t, dirs[i].id))
    decreases i
  {
    hide At, Block;
    AtConcat(bytes, off, Block(t, dirs[0].id), Blocks(t, dirs[1..]));
    if i > 0 {
      RowAndBlock(bytes, t, dirs[1..], off + |Block(t, dirs[0].id)|, i - 1);
    }
  }

  /** The four parts of the file, each at its offset. */
  lemma FileParts(t: Tree, dirs: seq<Dir>, meta: Str)
    requires Known(t, dirs)
    ensures var bytes, h := FileBytes(t, dirs, meta), HeaderOf(t, dirs, meta);
            && At(bytes, 0, HeaderBytes(h)) && At(bytes, HEADER_LEN, Blocks(t, dirs))
            && At(bytes, h.dirTableOff, TableBytes(Rows(t, dirs, HEADER_LEN)))
            && At(bytes, h.metaOff, meta) && h.metaOff + |meta| == |bytes|
  {
    hide At, HeaderBytes, Blocks, TableBytes, Rows;
    var h := HeaderOf(t, dirs, meta);
    var bytes := FileBytes(t, dirs, meta);
    var tail := TableBytes(Rows(t, dirs, HEADER_LEN)) + meta;
    AtWhole(bytes);
    AtConcat(bytes, 0, HeaderBytes(h), Blocks(t, dirs) + tail);
    AtConcat(bytes, HEADER_LEN, Blocks(t, dirs), tail);
    AtConcat(bytes, h.dirTableOff, TableBytes(Rows(t, dirs, HEADER_LEN)), meta);
  }

  lemma ReadAtIs(bytes: Str, off: nat, b: Str)
    requires At(bytes, off, b)
    ensures ReadAt(bytes, off, |b|) == b
  {
  }

  predicate HeaderOk(h: Header) {
    h.dirTableOff < U64_SPAN && h.dirCount < U32_SPAN && h.metaOff < U64_SPAN && h.metaLen < U32_SPAN
  }

  /** The header that was written is read, from the whole file and from its first 32 bytes. */
  lemma HeaderIsRead(bytes: Str, h: Header)
    requires HeaderOk(h) && At(bytes, 0, HeaderBytes(h))
    requires |bytes| == HEADER_LEN || (h.dirTableOff <= |bytes| && h.metaOff <= |bytes|)
    ensures ParseHeader(bytes) == Success(h)
  {
    hide LeBytes, ReadInt;
    var d := LeBytes(h.metaOff, 8) + LeBytes(h.metaLen, 4);
    var c := LeBytes(h.dirCount, 4) + d;
    var b := LeBytes(h.dirTableOff, 8) + c;
    HeaderPieces(bytes, h);
    Spans();
    AtInt(bytes, 4, VERSION, 4);
    AtInt(bytes, 8, h.dirTableOff, 8);
    AtInt(bytes, 16, h.dirCount, 4);
    AtInt(bytes, 20, h.metaOff, 8);
    AtInt(bytes, 28, h.metaLen, 4);
    assert bytes[0..0 + 4] == bytes[..4];
  }

  lemma HeaderPieces(bytes: Str, h: Header)
    requires At(bytes, 0, HeaderBytes(h))
    ensures At(bytes, 0, MAGIC) && At(bytes, 4, LeBytes(VERSION, 4)) && At(bytes, 8, LeBytes(h.dirTableOff, 8))
    ensures At(bytes, 16, LeBytes(h.dirCount, 4)) && At(bytes, 20, LeBytes(h.metaOff, 8))
    ensures At(bytes, 28, LeBytes(h.metaLen, 4)) && |bytes| >= HEADER_LEN
  {
    hide At, LeBytes;
    var d := LeBytes(h.metaOff, 8) + LeBytes(h.metaLen, 4);
    var c := LeBytes(h.dirCount, 4) + d;
    var b := LeBytes(h.dirTableOff, 8) + c;
    AtConcat(bytes, 0, MAGIC, LeBytes(VERSION, 4) + b);
    AtConcat(bytes, 4, LeBytes(VERSION, 4), b);
    AtConcat(bytes, 8, LeBytes(h.dirTableOff, 8), c);
    AtConcat(bytes, 16, LeBytes(h.dirCount, 4), d);
    AtConcat(bytes, 20, LeBytes(h.metaOff, 8), LeBytes(h.metaLen, 4));
    AtBound(bytes, 28, LeBytes(h.metaLen, 4));
  }

  lemma AtBound(bytes: Str, pos: nat, b: Str)
    requires At(bytes, pos, b)
    ensures pos + |b| <= |bytes|
  {
  }

  // ---------------------------------------------------------------- the directory table

  /** Directories in the list sit at distinct paths in ascending order. */
  lemma DirListAscends(t: Tree, dirs: seq<Dir>, i: nat, j: nat)
    requires WellFormed(t) && GoodNames(t) && IsDirList(t, dirs) && i < j < |dirs|
    ensures Less(dirs[i].path, dirs[j].path)
  {
    if dirs[i].path == dirs[j].path {
      PathOfInjective(t, dirs[i].id, dirs[j].id);
    } else {
      LessConnected(dirs[i].path, dirs[j].path);
    }
  }

  ghost predicate RowsAscend(rows: seq<DirRow>) {
    forall i, j :: 0 <= i < j < |rows| ==> Less(rows[i].path, rows[j].path)
  }

  /** Binary search finds a row of the range exactly when one has the path. */
  lemma {:induction false} BisectFinds(rows: seq<DirRow>, path: Str, lo: nat, hi: nat, i: nat)
    requires RowsAscend(rows) && lo <= i < hi <= |rows| && rows[i].path == path
    ensures Bisect(rows, path, lo, hi) == Some(rows[i])
    decreases hi - lo
  {
    var mid := lo + (hi - lo) / 2;
    LessIrreflexive(path);
    if mid < i {
      LessAsymmetric(rows[mid].path, path);
      BisectFinds(rows, path, mid + 1, hi, i);
    } else if i < mid {
      LessAsymmetric(path, rows[mid].path);
      BisectFinds(rows, path, lo, mid, i);
    }
  }

  lemma {:induction false} BisectIsRow(rows: seq<DirRow>, path: Str, lo: nat, hi: nat)
    requires lo <= hi <= |rows|
    ensures var r := Bisect(rows, path, lo, hi);
            r.Some? ==> r.value.path == path && exists i :: lo <= i < hi && rows[i] == r.value
    decreases hi - lo
  {
    if lo < hi {
      var mid := lo + (hi - lo) / 2;
      BisectIsRow(rows, path, mid + 1, hi);
      BisectIsRow(rows, path, lo, mid);
    }
  }

  /** The tables `FileBytes` writes: rows, their blocks and the directories they stand for. */
  ghost predicate Tables(bytes: Str, t: Tree, dirs: seq<Dir>, rows: seq<DirRow>) {
    && |rows| == |dirs| && RowsAscend(rows) && Known(t, dirs)
    && forall i :: 0 <= i < |rows| ==>
         rows[i] == RowFor(t, dirs[i], rows[i].blockOff) && At(bytes, rows[i].blockOff, Block(t, dirs[i].id))
  }

  /** Every row of a file stands for its directory, and the block is where the row says. */
  lemma FileRows(t: Tree, dirs: seq<Dir>, meta: Str)
    requires Known(t, dirs)
    ensures var rows := Rows(t, dirs, HEADER_LEN);
            forall i :: 0 <= i < |rows| ==>
              && rows[i] == RowFor(t, dirs[i], rows[i].blockOff)
              && At(FileBytes(t, dirs, meta), rows[i].blockOff, Block(t, dirs[i].id))
  {
    hide FileBytes, At, Blocks, Block, Rows;
    var bytes, rows := FileBytes(t, dirs, meta), Rows(t, dirs, HEADER_LEN);
    FileParts(t, dirs, meta);
    forall i | 0 <= i < |rows|
      ensures rows[i] == RowFor(t, dirs[i], rows[i].blockOff) && At(bytes, rows[i].blockOff, Block(t, dirs[i].id))
    {
      RowAndBlock(bytes, t, dirs, HEADER_LEN, i);
    }
  }

  lemma FileTables(t: Tree, dirs: seq<Dir>, meta: Str)
    requires WellFormed(t) && GoodNames(t) && IsDirList(t, dirs) && Known(t, dirs)
    ensures Tables(FileBytes(t, dirs, meta), t, dirs, Rows(t, dirs, HEADER_LEN))
  {
    hide FileBytes, At, Blocks, Block, Less, Rows;
    var bytes, rows := FileBytes(t, dirs, meta), Rows(t, dirs, HEADER_LEN);
    FileRows(t, dirs, meta);
    forall i, j | 0 <= i < j < |rows| ensures Less(rows[i].path, rows[j].path) {
      DirListAscends(t, dirs, i, j);
      assert rows[i] == RowFor(t, dirs[i], rows[i].blockOff) && rows[j] == RowFor(t, dirs[j], rows[j].blockOff);
    }
  }

  // ---------------------------------------------------------------- the answer

  ghost function SelfInfo(t: Tree, id: Id, name: Str): ChildInfo
    requires id in t.nodes
  {
    var m := t.nodes[id].meta;
    ChildInfo(name, true, m.size, m.mtime, m.etag, id)
  }

  /** What a lookup of `path` must answer: a node with a table row answers with its children,
      any other node below a node with a row answers alone, and nothing else answers. */
  ghost function Answer(t: Tree, path: Str): Option<Lookup> {
    var segs := Segments(path);
    var here := Resolve(t, segs);
    if here == None || here.value !in t.nodes then None
    else if HasRow(t, here.value) then
      Some(DirHit(SelfInfo(t, here.value, LastSegment(Normalize(path))), ChildList(t, here.value)))
    else if segs != [] && ParentHasRow(t, segs) then
      Some(FileHit(InfoOf(t, Entry(segs[|segs| - 1], here.value))))
    else None
  }

  ghost predicate ParentHasRow(t: Tree, segs: seq<Str>)
    requires segs != []
  {
    var p := Resolve(t, segs[..|segs| - 1]);
    p.Some? && HasRow(t, p.value)
  }

  lemma {:induction false} FindChildAmong(t: Tree, es: seq<Entry>, n: Str, c: Option<Id>)
    requires forall e :: e in es ==> e.id in t.nodes
    requires forall e :: e in es && e.name == n ==> c == Some(e.id)
    requires c.Some? ==> Entry(n, c.value) in es
    ensures c.Some? ==> c.value in t.nodes
    ensures FindChild(Infos(t, es), n) == if c == None then None else Some(InfoOf(t, Entry(n, c.value)))
  {
    if es != [] {
      assert es == [es[0]] + es[1..];
      if es[0].name == n {
        assert es[0] == Entry(n, c.value);
      } else {
        FindChildAmong(t, es[1..], n, c);
      }
    }
  }

  /** Searching a child list finds the child of that name. */
  lemma FindChildIs(t: Tree, p: Id, n: Str)
    requires Agree(t) && UniqueSiblings(t)
    ensures ChildNamed(t, p, n).Some? ==> ChildNamed(t, p, n).value in t.nodes
    ensures FindChild(ChildList(t, p), n) ==
            if ChildNamed(t, p, n) == None then None else Some(InfoOf(t, Entry(n, ChildNamed(t, p, n).value)))
  {
    var es, c := SortEntries(KidSet(t, p)), ChildNamed(t, p, n);
    forall e | e in es ensures e.id in t.nodes && (e.name == n ==> c == Some(e.id)) {
      assert HasPlace(t, e.id, p, e.name);
      if e.name == n { ChildNamedIs(t, p, n, e.id); }
    }
    if c.Some? { ChildNamedIs(t, p, n, c.value); }
    FindChildAmong(t, es, n, c);
  }

  lemma {:induction false} InfosArePlaced(t: Tree, es: seq<Entry>, c: ChildInfo)
    requires c in Infos(t, es)
    ensures c.id in t.nodes && Entry(c.name, c.id) in es && c == InfoOf(t, Entry(c.name, c.id))
    decreases |es|
  {
    if es[0].id in t.nodes && c == InfoOf(t, es[0]) {
      assert es[0] == Entry(c.name, c.id);
    } else {
      InfosArePlaced(t, es[1..], c);
    }
  }

  lemma ChildIsPlaced(t: Tree, id: Id, c: ChildInfo)
    requires Agree(t) && c in ChildList(t, id)
    ensures HasPlace(t, c.id, id, c.name) && c == InfoOf(t, Entry(c.name, c.id))
  {
    InfosArePlaced(t, SortEntries(KidSet(t, id)), c);
  }

  /** A directory's block parses to its children. */
  lemma BlockIsParsed(t: Tree, id: Id)
    requires StringsFit(t) && Agree(t)
    ensures ParseChildren(Block(t, id), 0) == Success(ChildList(t, id))
  {
    hide ChildList, BlockBytes, ParseChildren, HoldsChildren, StringsFit, Agree, At;
    ChildListFits(t, id);
    AtWhole(Block(t, id));
    WrittenChildrenAreHeld(Block(t, id), 0, ChildList(t, id));
    ParseChildrenIffHeld(Block(t, id), 0, ChildList(t, id));
  }

  /** A node with a row is found under its own path only. */
  lemma RowPath(t: Tree, segs: seq<Str>, id: Id)
    requires WellFormed(t) && GoodNames(t) && GoodSegs(segs)
    ensures Resolve(t, segs) == Some(id) && PathOf(t, id).Some? <==> PathOf(t, id) == Some(Render(segs))
  {
    SegmentsOfRender(segs);
    ResolveIffPathOf(t, Render(segs), id);
    if Resolve(t, segs) == Some(id) && PathOf(t, id).Some? {
      PathOfResolves(t, id);
      ResolveInjective(t, segs, Segments(PathOf(t, id).value));
    }
  }

  /** The directory search finds the row of a directory under its path. */
  lemma FindsRow(bytes: Str, t: Tree, dirs: seq<Dir>, rows: seq<DirRow>, segs: seq<Str>)
    requires WellFormed(t) && GoodNames(t) && IsDirList(t, dirs) && Tables(bytes, t, dirs, rows) && GoodSegs(segs)
    requires Resolve(t, segs).Some? && HasRow(t, Resolve(t, segs).value)
    ensures var row := FindDir(rows, Render(segs));
            var id := Resolve(t, segs).value;
            && row.Some? && row.value == RowFor(t, Dir(id, Render(segs)), row.value.blockOff)
            && At(bytes, row.value.blockOff, Block(t, id))
  {
    hide At, Block, WellFormed, GoodNames;
    var id := Resolve(t, segs).value;
    RowPath(t, segs, id);
    var d :| d in dirs && d.id == id;
    var i :| 0 <= i < |dirs| && dirs[i] == d;
    BisectFinds(rows, Render(segs), 0, |rows|, i);
  }

  /** It finds nothing under any other path. */
  lemma FindsNoRow(bytes: Str, t: Tree, dirs: seq<Dir>, rows: seq<DirRow>, segs: seq<Str>)
    requires WellFormed(t) && GoodNames(t) && IsDirList(t, dirs) && Tables(bytes, t, dirs, rows) && GoodSegs(segs)
    requires Resolve(t, segs) == None || !HasRow(t, Resolve(t, segs).value)
    ensures FindDir(rows, Render(segs)) == None
  {
    hide At, Block, WellFormed, GoodNames;
    BisectIsRow(rows, Render(segs), 0, |rows|);
    if FindDir(rows, Render(segs)).Some? {
      var i :| 0 <= i < |rows| && rows[i] == FindDir(rows, Render(segs)).value;
      assert dirs[i] in dirs;
      RowPath(t, segs, dirs[i].id);
    }
  }

  lemma RowBlockIsRead(bytes: Str, t: Tree, row: DirRow, id: Id)
    requires StringsFit(t) && Agree(t) && row.blockLen == |Block(t, id)| && At(bytes, row.blockOff, Block(t, id))
    ensures ParseChildren(ReadBlock(bytes, row), 0) == Success(ChildList(t, id))
  {
    hide At, Block, ParseChildren, ChildList, StringsFit, Agree;
    ReadAtIs(bytes, row.blockOff, Block(t, id));
    BlockIsParsed(t, id);
  }

  /** Searching the table and parsing one block answers as the tree does. */
  lemma LookupWithAnswers(bytes: Str, t: Tree, dirs: seq<Dir>, rows: seq<DirRow>, path: Str)
    requires WellFormed(t) && GoodNames(t) && StringsFit(t) && IsDirList(t, dirs) && Tables(bytes, t, dirs, rows)
    ensures LookupWith(bytes, rows, path) == Success(Answer(t, path))
  {
    hide Tables, IsDirList, FindDir, ReadBlock, ParseChildren, ChildList, StringsFit, GoodNames, PathOf, Segments, Render,
         LastSegment, ParentPath, FindChild, At, GoodSegs, ResolveFrom;
    var segs := Segments(path);
    SegmentsAreGood(path);
    var here := Resolve(t, segs);
    if here.Some? { ResolvedIsNode(t, segs); }
    if here.Some? && HasRow(t, here.value) {
      FindsRow(bytes, t, dirs, rows, segs);
      RowBlockIsRead(bytes, t, FindDir(rows, Render(segs)).value, here.value);
    } else {
      FindsNoRow(bytes, t, dirs, rows, segs);
      if segs == [] {
        ParentOfSlash();
      } else {
        LookupInParent(bytes, t, dirs, rows, segs);
      }
    }
  }

  /** The second search: the parent's block and the child of the last name in it. */
  lemma LookupInParent(bytes: Str, t: Tree, dirs: seq<Dir>, rows: seq<DirRow>, segs: seq<Str>)
    requires WellFormed(t) && GoodNames(t) && StringsFit(t) && IsDirList(t, dirs) && Tables(bytes, t, dirs, rows)
    requires segs != [] && GoodSegs(segs)
    ensures Resolve(t, segs).Some? ==> Resolve(t, segs).value in t.nodes
    ensures var row := FindDir(rows, ParentPath(Render(segs)));
            var here := Resolve(t, segs);
            && (row.Some? <==> ParentHasRow(t, segs))
            && (here.Some? && row == None ==> !ParentHasRow(t, segs))
            && (row.Some? ==>
                  var cs := ParseChildren(ReadBlock(bytes, row.value), 0);
                  cs.Success? && FindChild(cs.value, LastSegment(Render(segs))) ==
                  if here == None then None else Some(InfoOf(t, Entry(segs[|segs| - 1], here.value))))
  {
    hide Tables, IsDirList, FindDir, ReadBlock, ParseChildren, ChildList, StringsFit, GoodNames, PathOf, Render,
         LastSegment, ParentPath, FindChild, At, ResolveFrom;
    var init, n := segs[..|segs| - 1], segs[|segs| - 1];
    assert segs == init + [n];
    assert GoodSegs(init);
    HelpersOnRender(segs);
    ResolveSnoc(t, init, n);
    if Resolve(t, segs).Some? { ResolvedIsNode(t, segs); }
    if ParentHasRow(t, segs) {
      FindsRow(bytes, t, dirs, rows, init);
      RowBlockIsRead(bytes, t, FindDir(rows, Render(init)).value, Resolve(t, init).value);
      FindChildIs(t, Resolve(t, init).value, n);
    } else {
      FindsNoRow(bytes, t, dirs, rows, init);
    }
  }

  lemma ParentOfSlash()
    ensures ParentPath(Render([])) == Render([])
  {
    assert TrimEnd([SLASH]) == TrimEnd([]) == [];
  }

  lemma HeaderFits(t: Tree, dirs: seq<Dir>, meta: Str)
    requires Fits(t, dirs, meta)
    ensures var bytes, h := FileBytes(t, dirs, meta), HeaderOf(t, dirs, meta);
            HeaderOk(h) && h.dirTableOff <= h.metaOff <= |bytes|
  {
    hide TableBytes, Blocks, HeaderBytes, StringsFit;
  }

  lemma TableIsRead(t: Tree, dirs: seq<Dir>, meta: Str)
    requires Known(t, dirs) && Fits(t, dirs, meta) && IsDirList(t, dirs)
    ensures var bytes, h := FileBytes(t, dirs, meta), HeaderOf(t, dirs, meta);
            && h.dirTableOff <= h.metaOff <= |bytes|
            && ParseRows(bytes[h.dirTableOff..h.metaOff], 0, h.dirCount) == Success(Rows(t, dirs, HEADER_LEN))
  {
    hide At, Blocks, TableBytes, ParseRows, RowsOk, HeaderBytes, FileBytes, Fits, IsDirList;
    var bytes, h := FileBytes(t, dirs, meta), HeaderOf(t, dirs, meta);
    var rows := Rows(t, dirs, HEADER_LEN);
    HeaderFits(t, dirs, meta);
    FileParts(t, dirs, meta);
    TableSlice(bytes, h.dirTableOff, TableBytes(rows));
    RowsFit(t, dirs, meta);
    AtWhole(TableBytes(rows));
    ParseRowsIffWritten(TableBytes(rows), 0, |rows|, rows);
  }

  lemma RowsFit(t: Tree, dirs: seq<Dir>, meta: Str)
    requires Fits(t, dirs, meta) && IsDirList(t, dirs)
    ensures RowsOk(Rows(t, dirs, HEADER_LEN))
  {
    hide FileBytes, At, Block, Utf8, PathOf, Blocks, Rows;
    var bytes, rows := FileBytes(t, dirs, meta), Rows(t, dirs, HEADER_LEN);
    FileRows(t, dirs, meta);
    forall r | r in rows ensures RowOk(r) {
      var i :| 0 <= i < |rows| && rows[i] == r;
      assert dirs[i] in dirs;
      PathUtf8(t, dirs[i].id);
      AtBound(bytes, r.blockOff, Block(t, dirs[i].id));
    }
  }

  /** The lookup reads the first 32 bytes and the table of any encoded file. */
  lemma FileIsOpened(t: Tree, dirs: seq<Dir>, meta: Str, path: Str)
    requires IsDirList(t, dirs) && Fits(t, dirs, meta)
    ensures var bytes := FileBytes(t, dirs, meta);
            LookupFile(Some(bytes), path) == LookupWith(bytes, Rows(t, dirs, HEADER_LEN), path)
  {
    hide IsDirList, ParseRows, LookupWith, Rows, TableBytes, HeaderBytes, ParseHeader, At, FileBytes, StringsFit;
    var bytes, h := FileBytes(t, dirs, meta), HeaderOf(t, dirs, meta);
    HeaderFits(t, dirs, meta);
    FileParts(t, dirs, meta);
    ReadAtIs(bytes, 0, HeaderBytes(h));
    AtWhole(HeaderBytes(h));
    HeaderIsRead(HeaderBytes(h), h);
    ReadAtIs(bytes, h.dirTableOff, TableBytes(Rows(t, dirs, HEADER_LEN)));
    TableIsRead(t, dirs, meta);
    TableSlice(bytes, h.dirTableOff, TableBytes(Rows(t, dirs, HEADER_LEN)));
  }

  /** For every path, looking it up in the file that encodes a tree - first 32 bytes, directory
      table, one child block - answers what the tree answers. */
  lemma LookupAnswers(t: Tree, dirs: seq<Dir>, meta: Str, path: Str)
    requires WellFormed(t) && GoodNames(t) && IsDirList(t, dirs) && Fits(t, dirs, meta)
    ensures LookupFile(Some(FileBytes(t, dirs, meta)), path) == Success(Answer(t, path))
  {
    hide Tables, IsDirList, LookupWith, LookupFile, Answer, Rows, GoodNames, WellFormed, FileBytes, StringsFit;
    FileIsOpened(t, dirs, meta, path);
    FileTables(t, dirs, meta);
    LookupWithAnswers(FileBytes(t, dirs, meta), t, dirs, Rows(t, dirs, HEADER_LEN), path);
  }

  lemma TableSlice(bytes: Str, off: nat, b: Str)
    requires At(bytes, off, b)
    ensures off + |b| <= |bytes| && bytes[off..off + |b|] == b
  {
  }

  /** Only directories, and the root, have children. */
  ghost predicate DirsOnly(t: Tree) {
    forall c, p :: c in t.nodes && t.nodes[c].parent == Some(p) && p in t.nodes ==>
      t.nodes[p].meta.isDir || t.root == Some(p)
  }

  /** Below 64 segments the answer is a directory, a file or nothing exactly as `resolve`
      finds a directory, another node or nothing. */
  lemma AnswerFollowsResolve(t: Tree, path: Str)
    requires WellFormed(t) && GoodNames(t) && DirsOnly(t) && |Segments(path)| < WALK_LIMIT
    ensures var here := ResolvePath(t, path);
            var a := Answer(t, path);
            && (here == None <==> a == None)
            && (here.Some? ==>
                  && here.value in t.nodes && a.value.info.id == here.value
                  && (t.nodes[here.value].meta.isDir || t.root == here <==> a.value.DirHit?)
                  && (a.value.DirHit? ==> a.value.children == ChildList(t, here.value)))
  {
    var segs := Segments(path);
    var here := Resolve(t, segs);
    if here.Some? {
      ResolvedIsNode(t, segs);
      ResolveIffClimb(t, segs, here.value, WALK_LIMIT);
      if segs != [] {
        ResolveLast(t, segs, here.value);
        var init := segs[..|segs| - 1];
        ResolvedIsNode(t, init);
        ResolveIffClimb(t, init, Resolve(t, init).value, WALK_LIMIT);
      }
    }
  }
}
