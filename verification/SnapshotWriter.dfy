/** `encode`: the byte buffer and the loops that fill it. */
module SnapshotWriter {
  import opened Bytes
  import opened Namespace
  import opened Resolution
  import opened Records
  import opened Snapshot
  import opened IndexObject

  class ByteBuffer {
    var data: Str

    /** `n` zero bytes. */
    constructor (n: nat)
      ensures |data| == n
    {
      data := seq(n, _ => 0);
    }

    method Extend(bytes: Str)
      modifies this
      ensures data == old(data) + bytes
    {
      data := data + bytes;
    }

    method WriteStr(s: Str)
      modifies this
      ensures data == old(data) + StrBytes(s)
    {
      Extend(LeBytes(|s|, 4));
      Extend(s);
    }

    method WriteChild(c: ChildInfo)
      modifies this
      ensures data == old(data) + ChildBytes(c)
    {
      hide StrBytes, LeBytes;
      WriteStr(c.name);
      Extend(FlagByte(c.isDir));
      Extend(LeBytes(c.size, 8));
      Extend(LeBytes(c.mtime, 8));
      WriteStr(c.etag);
      WriteStr(c.id);
    }

    method WriteDirRow(r: DirRow)
      modifies this
      ensures data == old(data) + RowBytes(r)
    {
      hide StrBytes, LeBytes;
      WriteStr(r.path);
      Extend(LeBytes(r.blockOff, 8));
      Extend(LeBytes(r.blockLen, 4));
      WriteStr(r.id);
      Extend(LeBytes(r.size, 8));
      Extend(LeBytes(r.mtime, 8));
      WriteStr(r.etag);
    }

    /** Overwrites the first 32 bytes. */
    method WriteHeader(h: Header)
      requires |data| >= HEADER_LEN
      modifies this
      ensures data == HeaderBytes(h) + old(data)[HEADER_LEN..]
    {
      data := HeaderBytes(h) + data[HEADER_LEN..];
    }
  }

  // ---------------------------------------------------------------- ordering

  /** The entries in set order. */
  method SortedEntries(s: set<Entry>) returns (r: seq<Entry>)
    ensures r == SortEntries(s)
  {
    r := [];
    var rest := s;
    while rest != {}
      invariant rest <= s && Ascending(r) && forall e :: e in r <==> e in s && e !in rest
      decreases |rest|
    {
      var e :| e in rest;
      rest := rest - {e};
      InsertEntryMembers(r, e);
      InsertEntryAscends(r, e);
      r := InsertEntry(r, e);
    }
    AscendingUnique(r, SortEntries(s));
  }

  function InsertDir(s: seq<Dir>, d: Dir): seq<Dir> {
    if s == [] || Less(d.path, s[0].path) then [d] + s else [s[0]] + InsertDir(s[1..], d)
  }

  ghost predicate DirsAscend(s: seq<Dir>) {
    forall i, j :: 0 <= i < j < |s| ==> s[i].id != s[j].id && !Less(s[j].path, s[i].path)
  }

  lemma {:induction false} InsertDirMembers(s: seq<Dir>, d: Dir)
    ensures forall x :: x in InsertDir(s, d) <==> x in s || x == d
  {
    hide Less;
    if s != [] && !Less(d.path, s[0].path) {
      InsertDirMembers(s[1..], d);
      assert s == [s[0]] + s[1..];
    }
  }

  lemma NotLessTransitive(a: Str, b: Str, c: Str)
    requires !Less(b, a) && !Less(c, b)
    ensures !Less(c, a)
  {
    if Less(c, a) && a != b {
      LessConnected(a, b);
      LessTransitive(c, a, b);
    }
  }

  lemma {:induction false} InsertDirAscends(s: seq<Dir>, d: Dir)
    requires DirsAscend(s) && forall x :: x in s ==> x.id != d.id
    ensures DirsAscend(InsertDir(s, d))
  {
    hide Less;
    if s != [] {
      if Less(d.path, s[0].path) {
        LessAsymmetric(d.path, s[0].path);
        LessIrreflexive(s[0].path);
        forall i | 0 <= i < |s| ensures !Less(s[i].path, d.path) {
          NotLessTransitive(d.path, s[0].path, s[i].path);
        }
      } else {
        InsertDirAscends(s[1..], d);
        InsertDirMembers(s[1..], d);
        var r := InsertDir(s[1..], d);
        forall i | 0 <= i < |r| ensures s[0].id != r[i].id && !Less(r[i].path, s[0].path) {
          assert r[i] in r;
          if r[i] != d {
            assert r[i] in s[1..];
            var j :| 0 <= j < |s[1..]| && s[1..][j] == r[i];
            assert s[j + 1] == r[i];
          }
        }
      }
    }
  }

  /** The directories among `seen`, each once, in path order. */
  ghost predicate DirsOf(t: Tree, seen: set<Id>, dirs: seq<Dir>) {
    && (forall d :: d in dirs <==> d.id in seen && HasRow(t, d.id) && PathOf(t, d.id) == Some(d.path))
    && DirsAscend(dirs)
  }

  lemma AddDir(t: Tree, seen: set<Id>, dirs: seq<Dir>, d: Dir)
    requires DirsOf(t, seen, dirs) && d.id !in seen && HasRow(t, d.id) && PathOf(t, d.id) == Some(d.path)
    ensures DirsOf(t, seen + {d.id}, InsertDir(dirs, d))
  {
    hide HasRow, PathOf, Less, InsertDir;
    InsertDirMembers(dirs, d);
    InsertDirAscends(dirs, d);
    forall x ensures x in InsertDir(dirs, d) <==>
                     x.id in seen + {d.id} && HasRow(t, x.id) && PathOf(t, x.id) == Some(x.path) {
      if x.id == d.id && PathOf(t, x.id) == Some(x.path) { assert x == d; }
    }
  }

  lemma DirsOfAll(t: Tree, dirs: seq<Dir>)
    requires DirsOf(t, t.nodes.Keys, dirs)
    ensures IsDirList(t, dirs)
  {
    hide Less;
    forall id | HasRow(t, id) ensures exists d :: d in dirs && d.id == id {
      assert Dir(id, PathOf(t, id).value) in dirs;
    }
  }

  /** The directories that get a table row, sorted by path. */
  method CollectDirs(idx: Index) returns (dirs: seq<Dir>)
    ensures IsDirList(idx.View(), dirs)
  {
    dirs := [];
    var rest := idx.nodes.Keys;
    while rest != {}
      invariant rest <= idx.nodes.Keys && DirsOf(idx.View(), idx.nodes.Keys - rest, dirs)
      decreases |rest|
    {
      hide DirsOf, Resolution.PathOf;
      var id :| id in rest;
      ghost var seen := idx.nodes.Keys - rest;
      rest := rest - {id};
      assert idx.nodes.Keys - rest == seen + {id};
      var path := idx.PathOf(id);
      if path.Some? && (idx.nodes[id].meta.isDir || idx.root == Some(id)) {
        AddDir(idx.View(), seen, dirs, Dir(id, path.value));
        dirs := InsertDir(dirs, Dir(id, path.value));
      } else {
        SkipDir(idx.View(), seen, dirs, id);
      }
    }
    assert idx.nodes.Keys - rest == idx.View().nodes.Keys;
    DirsOfAll(idx.View(), dirs);
  }

  lemma SkipDir(t: Tree, seen: set<Id>, dirs: seq<Dir>, id: Id)
    requires DirsOf(t, seen, dirs) && !HasRow(t, id)
    ensures DirsOf(t, seen + {id}, dirs)
  {
    hide HasRow, Less;
  }

  // ---------------------------------------------------------------- one more of each

  lemma {:induction false} InfosSnoc(t: Tree, es: seq<Entry>, e: Entry)
    ensures Infos(t, es + [e]) == Infos(t, es) + if e.id in t.nodes then [InfoOf(t, e)] else []
    decreases |es|
  {
    if es == [] {
      assert [] + [e] == [e] && [e][1..] == [];
    } else {
      assert (es + [e])[1..] == es[1..] + [e];
      InfosSnoc(t, es[1..], e);
    }
  }

  lemma {:induction false} BlockBytesSnoc(cs: seq<ChildInfo>, c: ChildInfo)
    ensures BlockBytes(cs + [c]) == BlockBytes(cs) + ChildBytes(c)
    decreases |cs|
  {
    hide ChildBytes;
    if cs == [] {
      assert [] + [c] == [c] && [c][1..] == [];
    } else {
      assert (cs + [c])[1..] == cs[1..] + [c];
      BlockBytesSnoc(cs[1..], c);
    }
  }

  lemma {:induction false} TableBytesSnoc(rows: seq<DirRow>, r: DirRow)
    ensures TableBytes(rows + [r]) == TableBytes(rows) + RowBytes(r)
    decreases |rows|
  {
    hide RowBytes;
    if rows == [] {
      assert [] + [r] == [r] && [r][1..] == [];
    } else {
      assert (rows + [r])[1..] == rows[1..] + [r];
      TableBytesSnoc(rows[1..], r);
    }
  }

  lemma {:induction false} FilesSnoc(t: Tree, dirs: seq<Dir>, d: Dir)
    ensures TotalFiles(t, dirs + [d]) == TotalFiles(t, dirs) + CountFiles(ChildList(t, d.id))
    decreases |dirs|
  {
    hide ChildList, CountFiles;
    if dirs == [] {
      assert [] + [d] == [d] && [d][1..] == [];
    } else {
      assert (dirs + [d])[1..] == dirs[1..] + [d] && (dirs + [d])[0] == dirs[0];
      FilesSnoc(t, dirs[1..], d);
    }
  }

  lemma {:induction false} DirsSnoc(t: Tree, dirs: seq<Dir>, d: Dir, off: nat)
    requires Known(t, dirs + [d])
    ensures Known(t, dirs) && d.id in t.nodes
    ensures Blocks(t, dirs + [d]) == Blocks(t, dirs) + Block(t, d.id)
    ensures Rows(t, dirs + [d], off) == Rows(t, dirs, off) + [RowFor(t, d, off + |Blocks(t, dirs)|)]
    ensures TotalFiles(t, dirs + [d]) == TotalFiles(t, dirs) + CountFiles(ChildList(t, d.id))
    decreases |dirs|
  {
    hide Block, ChildList, CountFiles, TotalFiles;
    assert d in dirs + [d];
    FilesSnoc(t, dirs, d);
    if dirs == [] {
      assert [] + [d] == [d] && [d][1..] == [];
    } else {
      assert (dirs + [d])[1..] == dirs[1..] + [d] && (dirs + [d])[0] == dirs[0];
      DirsSnoc(t, dirs[1..], d, off + |Block(t, dirs[0].id)|);
      assert Blocks(t, dirs) == Block(t, dirs[0].id) + Blocks(t, dirs[1..]);
    }
  }

  /** Appends a directory's child records in set order. */
  method WriteBlock(idx: Index, id: Id, body: ByteBuffer)
    modifies body
    ensures body.data == old(body.data) + Block(idx.View(), id)
  {
    hide ChildBytes, BlockBytes, Infos, Ascending, HasRow;
    ghost var t, was := idx.View(), body.data;
    if id in idx.kids {
      var es := SortedEntries(idx.kids[id]);
      NoInfos(t, es);
      for i := 0 to |es|
        invariant body.data == was + BlockBytes(Infos(t, es[..i]))
      {
        var e := es[i];
        OneMoreInfo(t, es, i);
        if e.id !in idx.nodes {
          continue;
        }
        body.WriteChild(InfoOf(idx.View(), e));
      }
      assert es[..|es|] == es;
    } else {
      NoInfos(t, SortEntries({}));
    }
  }

  lemma NoInfos(t: Tree, es: seq<Entry>)
    ensures BlockBytes(Infos(t, es[..0])) == []
    ensures es == [] ==> BlockBytes(Infos(t, es)) == []
  {
  }

  lemma OneMoreInfo(t: Tree, es: seq<Entry>, i: nat)
    requires i < |es|
    ensures BlockBytes(Infos(t, es[..i + 1])) ==
            BlockBytes(Infos(t, es[..i])) + if es[i].id in t.nodes then ChildBytes(InfoOf(t, es[i])) else []
  {
    hide ChildBytes;
    assert es[..i + 1] == es[..i] + [es[i]];
    InfosSnoc(t, es[..i], es[i]);
    if es[i].id in t.nodes {
      BlockBytesSnoc(Infos(t, es[..i]), InfoOf(t, es[i]));
    } else {
      assert Infos(t, es[..i]) + [] == Infos(t, es[..i]);
      assert BlockBytes(Infos(t, es[..i])) + [] == BlockBytes(Infos(t, es[..i]));
    }
  }

  /** The number of entries of `id` whose node is known and no directory. */
  method CountFilesOf(idx: Index, id: Id) returns (n: nat)
    ensures n == CountFiles(ChildList(idx.View(), id))
  {
    n := 0;
    if id in idx.kids {
      var rest := SortedEntries(idx.kids[id]);
      while rest != []
        invariant n + CountFiles(Infos(idx.View(), rest)) == CountFiles(ChildList(idx.View(), id))
        decreases |rest|
      {
        var e := rest[0];
        if e.id in idx.nodes {
          assert Infos(idx.View(), rest) == [InfoOf(idx.View(), e)] + Infos(idx.View(), rest[1..]);
          if !idx.nodes[e.id].meta.isDir { n := n + 1; }
        } else {
          assert Infos(idx.View(), rest) == Infos(idx.View(), rest[1..]);
        }
        rest := rest[1..];
      }
    }
  }

  /** The child blocks and the rows that point at them. */
  method WriteBlocks(idx: Index, dirs: seq<Dir>, body: ByteBuffer) returns (rows: seq<DirRow>)
    requires Known(idx.View(), dirs) && |body.data| == HEADER_LEN
    modifies body
    ensures body.data == old(body.data) + Blocks(idx.View(), dirs)
    ensures rows == Rows(idx.View(), dirs, HEADER_LEN)
  {
    hide Block, Known;
    rows := [];
    assert dirs[..0] == [];
    KnownPart(idx.View(), dirs, 0);
    for i := 0 to |dirs|
      invariant Known(idx.View(), dirs[..i])
      invariant body.data == old(body.data) + Blocks(idx.View(), dirs[..i])
      invariant rows == Rows(idx.View(), dirs[..i], HEADER_LEN)
    {
      var d := dirs[i];
      assert dirs[..i + 1] == dirs[..i] + [d];
      KnownPart(idx.View(), dirs, i + 1);
      DirsSnoc(idx.View(), dirs[..i], d, HEADER_LEN);
      var blockOff := |body.data|;
      WriteBlock(idx, d.id, body);
      var blockLen := |body.data| - blockOff;
      var m := idx.nodes[d.id].meta;
      rows := rows + [DirRow(d.path, blockOff, blockLen, d.id, m.size, m.mtime, m.etag)];
    }
    assert dirs[..|dirs|] == dirs;
  }

  lemma KnownPart(t: Tree, dirs: seq<Dir>, k: nat)
    requires Known(t, dirs) && k <= |dirs|
    ensures Known(t, dirs[..k])
  {
  }

  method WriteTable(rows: seq<DirRow>, body: ByteBuffer)
    modifies body
    ensures body.data == old(body.data) + TableBytes(rows)
  {
    hide RowBytes;
    assert rows[..0] == [];
    for i := 0 to |rows|
      invariant body.data == old(body.data) + TableBytes(rows[..i])
    {
      assert rows[..i + 1] == rows[..i] + [rows[i]];
      TableBytesSnoc(rows[..i], rows[i]);
      body.WriteDirRow(rows[i]);
    }
    assert rows[..|rows|] == rows;
  }

  method CountAllFiles(idx: Index, dirs: seq<Dir>) returns (total: nat)
    ensures total == TotalFiles(idx.View(), dirs)
  {
    total := 0;
    var rest := dirs;
    while rest != []
      invariant total + TotalFiles(idx.View(), rest) == TotalFiles(idx.View(), dirs)
      decreases |rest|
    {
      var n := CountFilesOf(idx, rest[0].id);
      total := total + n;
      rest := rest[1..];
    }
  }

  function CursorOf(idx: Index): Cursor
    reads idx
  {
    Cursor(idx.deltaToken, idx.pendingNextLink, idx.crawlComplete, idx.generation)
  }

  function StateOf(idx: Index): State
    reads idx
  {
    State(idx.View(), CursorOf(idx))
  }

  /** The whole file: header, child blocks, directory table and metadata. */
  method Encode(idx: Index, now: u64, codec: MetaCodec) returns (bytes: Str)
    ensures IsEncoding(StateOf(idx), now, codec, bytes)
  {
    hide IsDirList, Blocks, Rows, TableBytes, HeaderBytes, TotalFiles;
    var dirs := CollectDirs(idx);
    DirListIsKnown(idx.View(), dirs);
    var body := new ByteBuffer(HEADER_LEN);
    ghost var zeros := body.data;
    var rows := WriteBlocks(idx, dirs, body);
    var dirTableOff := |body.data|;
    WriteTable(rows, body);
    var totalFiles := CountAllFiles(idx, dirs);
    var meta := SnapshotMeta(CursorOf(idx), now, idx.root, |dirs|, totalFiles);
    var metaBytes := codec.write(meta);
    var metaOff := |body.data|;
    body.Extend(metaBytes);
    ghost var parts := Blocks(idx.View(), dirs) + (TableBytes(rows) + metaBytes);
    assert body.data == zeros + parts;
    assert body.data[HEADER_LEN..] == parts;
    body.WriteHeader(Header(dirTableOff, |rows|, metaOff, |metaBytes|));
    assert meta == MetaOf(StateOf(idx), dirs, now);
    return body.data;
  }

  lemma DirListIsKnown(t: Tree, dirs: seq<Dir>)
    requires IsDirList(t, dirs)
    ensures Known(t, dirs)
  {
    hide Less;
  }
}
