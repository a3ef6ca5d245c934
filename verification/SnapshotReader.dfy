/** `decode`: the two passes that rebuild the index from the table and the child blocks. */
module SnapshotReader {
  import opened Bytes
  import opened Paths
  import opened Namespace
  import opened Records
  import opened Snapshot
  import opened SnapshotDecode
  import opened IndexObject
  import opened SnapshotWriter

  /** The first pass over one row's children. */
  method AddRow(idx: Index, row: DirRow, children: seq<ChildInfo>)
    modifies idx`nodes, idx`kids
    ensures Maps(idx.nodes, idx.kids) == LoadRow(Maps(old(idx.nodes), old(idx.kids)), row, children)
  {
    idx.nodes := idx.nodes[row.id := RowNode(row)];
    var entries: set<Entry> := {};
    ghost var whole := AddChildren(idx.nodes, row.id, children);
    assert children[0..] == children && EntrySet(children[..0]) == {};
    for i := 0 to |children|
      invariant AddChildren(idx.nodes, row.id, children[i..]) == whole
      invariant entries == EntrySet(children[..i]) && idx.kids == old(idx.kids)
    {
      var c := children[i];
      assert children[i..][0] == c && children[i..][1..] == children[i + 1..];
      assert children[..i + 1] == children[..i] + [c];
      idx.nodes := idx.nodes[c.id := ChildNode(row.id, c)];
      entries := entries + {Entry(c.name, c.id)};
    }
    assert children[..|children|] == children;
    idx.kids := idx.kids[row.id := entries];
  }

  /** The first pass: stops at the first block that does not parse. */
  method AddRows(idx: Index, bytes: Str, rows: seq<DirRow>) returns (failed: Option<string>)
    modifies idx`nodes, idx`kids
    ensures match LoadRows(bytes, rows, Maps(old(idx.nodes), old(idx.kids)))
            case Failure(e) => failed == Some(e)
            case Success(m) => failed == None && Maps(idx.nodes, idx.kids) == m
  {
    assert rows[0..] == rows;
    for i := 0 to |rows|
      invariant LoadRows(bytes, rows[i..], Maps(idx.nodes, idx.kids)) ==
                LoadRows(bytes, rows, Maps(old(idx.nodes), old(idx.kids)))
    {
      hide LoadRow, ParseBlock;
      assert rows[i..][0] == rows[i] && rows[i..][1..] == rows[i + 1..];
      var children := ParseChildBlock(bytes, rows[i].blockOff, rows[i].blockLen);
      if children.Failure? {
        return Some(children.error);
      }
      AddRow(idx, rows[i], children.value);
    }
    return None;
  }

  method CollectPaths(rows: seq<DirRow>) returns (ids: map<Str, Id>)
    ensures ids == PathIds(rows)
  {
    ids := map[];
    assert rows[..0] == [];
    for i := 0 to |rows|
      invariant ids == PathIds(rows[..i])
    {
      assert rows[..i + 1][..i] == rows[..i];
      ids := ids[rows[i].path := rows[i].id];
    }
    assert rows[..|rows|] == rows;
  }

  /** The second pass: parents from paths, and the root if none was recorded. */
  method LinkParents(idx: Index, rows: seq<DirRow>, ids: map<Str, Id>)
    modifies idx`nodes, idx`root
    ensures idx.nodes == LinkRows(old(idx.nodes), ids, rows) && idx.root == RootOf(old(idx.root), rows)
  {
    assert rows[0..] == rows;
    for i := 0 to |rows|
      invariant LinkRows(idx.nodes, ids, rows[i..]) == LinkRows(old(idx.nodes), ids, rows)
      invariant RootOf(idx.root, rows[i..]) == RootOf(old(idx.root), rows)
    {
      var row := rows[i];
      assert rows[i..][0] == row && rows[i..][1..] == rows[i + 1..];
      RootOnceFound(idx.root, rows[i + 1..]);
      if row.path == [SLASH] {
        if row.id in idx.nodes {
          idx.nodes := idx.nodes[row.id := idx.nodes[row.id].(parent := None, name := [])];
        }
        if idx.root == None {
          idx.root := Some(row.id);
        }
        continue;
      }
      var parent := ParentPath(row.path);
      if parent in ids && row.id in idx.nodes {
        idx.nodes := idx.nodes[row.id := idx.nodes[row.id].(parent := Some(ids[parent]))];
      }
    }
  }

  lemma RootOnceFound(root: Option<Id>, rows: seq<DirRow>)
    ensures root.Some? ==> RootOf(root, rows) == root
  {
  }

  /** Rebuilds an index from a whole file. */
  method DecodeFile(bytes: Str, codec: MetaCodec) returns (r: Result<Index>)
    requires TableInRange(bytes, codec)
    ensures match Decode(bytes, codec)
            case Failure(e) => r == Failure(e)
            case Success(s) => r.Success? && fresh(r.value) && StateOf(r.value) == s
  {
    hide ParseHeader, ParseMeta, ParseRows, LoadRows, LinkRows, RootOf, PathIds;
    var header := ParseHeader(bytes);
    if header.Failure? {
      return Failure(header.error);
    }
    var h := header.value;
    var meta := ParseMeta(bytes, h, codec);
    if meta.Failure? {
      return Failure(meta.error);
    }
    MetaInFile(bytes, h, codec);
    var rows := ParseDirTable(bytes[h.dirTableOff..h.metaOff], h.dirCount);
    if rows.Failure? {
      return Failure(rows.error);
    }
    var idx := new Index();
    var cursor := meta.value.cursor;
    idx.deltaToken, idx.pendingNextLink := cursor.deltaToken, cursor.pendingNextLink;
    idx.crawlComplete, idx.generation := cursor.crawlComplete, cursor.generation;
    idx.root := meta.value.rootId;
    var failed := AddRows(idx, bytes, rows.value);
    if failed.Some? {
      return Failure(failed.value);
    }
    var ids := CollectPaths(rows.value);
    LinkParents(idx, rows.value, ids);
    return Success(idx);
  }

  lemma MetaInFile(bytes: Str, h: Header, codec: MetaCodec)
    requires ParseMeta(bytes, h, codec).Success?
    ensures h.metaOff <= |bytes|
  {
  }
}
