/** The segmented snapshot file: header, one child block per directory, the sorted directory
    table, and the metadata. */
module Snapshot {
  import opened Bytes
  import opened Paths
  import opened Namespace
  import opened Resolution
  import opened Records

  // ---------------------------------------------------------------- what a file records

  datatype Cursor = Cursor(
    deltaToken: Option<Str>, pendingNextLink: Option<Str>, crawlComplete: bool, generation: u64)

  datatype State = State(tree: Tree, cursor: Cursor)

  datatype SnapshotMeta = SnapshotMeta(
    cursor: Cursor, builtAt: u64, rootId: Option<Id>, totalDirs: nat, totalFiles: nat)

  /** The JSON codec of the metadata, kept abstract. */
  datatype MetaCodec = MetaCodec(write: SnapshotMeta -> Str, read: Str -> Option<SnapshotMeta>)

  ghost predicate Faithful(codec: MetaCodec) {
    forall m :: codec.read(codec.write(m)) == Some(m)
  }

  datatype Dir = Dir(id: Id, path: Str)

  // ---------------------------------------------------------------- set order

  predicate EntryLess(e: Entry, f: Entry) {
    Less(e.name, f.name) || (e.name == f.name && Less(e.id, f.id))
  }

  ghost predicate Ascending(s: seq<Entry>) {
    forall i, j :: 0 <= i < j < |s| ==> EntryLess(s[i], s[j])
  }

  function InsertEntry(s: seq<Entry>, e: Entry): (r: seq<Entry>) {
    if s == [] || EntryLess(e, s[0]) then [e] + s else [s[0]] + InsertEntry(s[1..], e)
  }

  lemma EntryLessTransitive(a: Entry, b: Entry, c: Entry)
    requires EntryLess(a, b) && EntryLess(b, c)
    ensures EntryLess(a, c)
  {
    if Less(a.name, b.name) && Less(b.name, c.name) { LessTransitive(a.name, b.name, c.name); }
    if Less(a.id, b.id) && Less(b.id, c.id) { LessTransitive(a.id, b.id, c.id); }
  }

  lemma EntryLessConnected(a: Entry, b: Entry)
    requires a != b
    ensures EntryLess(a, b) || EntryLess(b, a)
  {
    if a.name != b.name { LessConnected(a.name, b.name); } else { LessConnected(a.id, b.id); }
  }

  lemma EntryLessAsymmetric(a: Entry, b: Entry)
    requires EntryLess(a, b)
    ensures !EntryLess(b, a)
  {
    if Less(a.name, b.name) { LessAsymmetric(a.name, b.name); }
    if a.name == b.name { LessIrreflexive(a.name); LessAsymmetric(a.id, b.id); }
  }

  lemma {:induction false} InsertEntryMembers(s: seq<Entry>, e: Entry)
    ensures forall x :: x in InsertEntry(s, e) <==> x in s || x == e
  {
    if s != [] && !EntryLess(e, s[0]) {
      InsertEntryMembers(s[1..], e);
      assert s == [s[0]] + s[1..];
    }
  }

  lemma {:induction false} InsertEntryAscends(s: seq<Entry>, e: Entry)
    requires Ascending(s) && e !in s
    ensures Ascending(InsertEntry(s, e))
  {
    if s != [] {
      if EntryLess(e, s[0]) {
        forall i | 0 < i < |s| ensures EntryLess(e, s[i]) { EntryLessTransitive(e, s[0], s[i]); }
      } else {
        EntryLessConnected(e, s[0]);
        InsertEntryAscends(s[1..], e);
        InsertEntryMembers(s[1..], e);
        var r := InsertEntry(s[1..], e);
        forall x | x in r ensures EntryLess(s[0], x) {
          if x in s[1..] {}
        }
        assert forall i :: 0 <= i < |r| ==> r[i] in r;
      }
    }
  }

  /** The entries in the order the set is iterated. */
  ghost function SortEntries(s: set<Entry>): (r: seq<Entry>)
    ensures Ascending(r)
    ensures forall e :: e in r <==> e in s
    decreases |s|
  {
    if s == {} then []
    else
      var e :| e in s;
      var rest := SortEntries(s - {e});
      InsertEntryMembers(rest, e);
      InsertEntryAscends(rest, e);
      InsertEntry(rest, e)
  }

  /** Only one ascending list has these members. */
  lemma {:induction false} AscendingUnique(a: seq<Entry>, b: seq<Entry>)
    requires Ascending(a) && Ascending(b) && forall e :: e in a <==> e in b
    ensures a == b
  {
    if a == [] {
      if b != [] { HeadIsMember(b); }
    } else {
      assert a[0] in b && b[0] in a;
      var i :| 0 <= i < |b| && b[i] == a[0];
      var j :| 0 <= j < |a| && a[j] == b[0];
      if i > 0 && j > 0 { EntryLessAsymmetric(a[0], a[j]); }
      TailMembers(a);
      TailMembers(b);
      AscendingUnique(a[1..], b[1..]);
      assert a == [a[0]] + a[1..] && b == [b[0]] + b[1..];
    }
  }

  lemma HeadIsMember(b: seq<Entry>)
    requires b != []
    ensures exists e :: e in b
  {
    assert b[0] in b;
  }

  lemma TailMembers(a: seq<Entry>)
    requires Ascending(a) && a != []
    ensures forall e :: e in a[1..] <==> e in a && e != a[0]
  {
    forall i | 0 < i < |a| ensures a[i] != a[0] && a[i] in a[1..] {
      EntryLessAsymmetric(a[0], a[i]);
      assert a[1..][i - 1] == a[i];
    }
  }

  // ---------------------------------------------------------------- writing a file

  /** The child records of the entries whose node is known. */
  function Infos(t: Tree, es: seq<Entry>): seq<ChildInfo> {
    if es == [] then []
    else (if es[0].id in t.nodes then [InfoOf(t, es[0])] else []) + Infos(t, es[1..])
  }

  function InfoOf(t: Tree, e: Entry): ChildInfo
    requires e.id in t.nodes
  {
    var m := t.nodes[e.id].meta;
    ChildInfo(e.name, m.isDir, m.size, m.mtime, m.etag, e.id)
  }

  ghost function ChildList(t: Tree, id: Id): seq<ChildInfo> { Infos(t, SortEntries(KidSet(t, id))) }

  ghost function Block(t: Tree, id: Id): Str { BlockBytes(ChildList(t, id)) }

  ghost function Blocks(t: Tree, dirs: seq<Dir>): Str {
    if dirs == [] then [] else Block(t, dirs[0].id) + Blocks(t, dirs[1..])
  }

  predicate Known(t: Tree, dirs: seq<Dir>) { forall d :: d in dirs ==> d.id in t.nodes }

  ghost function RowFor(t: Tree, d: Dir, off: nat): DirRow
    requires d.id in t.nodes
  {
    var m := t.nodes[d.id].meta;
    DirRow(d.path, off, |Block(t, d.id)|, d.id, m.size, m.mtime, m.etag)
  }

  /** The table rows of directories whose blocks start at `off`. */
  ghost function Rows(t: Tree, dirs: seq<Dir>, off: nat): (r: seq<DirRow>)
    requires Known(t, dirs)
    ensures |r| == |dirs|
  {
    if dirs == [] then []
    else [RowFor(t, dirs[0], off)] + Rows(t, dirs[1..], off + |Block(t, dirs[0].id)|)
  }

  /** Root-reachable within the walk limit, and a directory or the root: gets a table row. */
  predicate HasRow(t: Tree, id: Id) {
    PathOf(t, id).Some? && (t.nodes[id].meta.isDir || t.root == Some(id))
  }

  /** The directories of the file, each once, in path order. */
  ghost predicate IsDirList(t: Tree, dirs: seq<Dir>) {
    && (forall d :: d in dirs ==> HasRow(t, d.id) && PathOf(t, d.id) == Some(d.path))
    && (forall id :: HasRow(t, id) ==> exists d :: d in dirs && d.id == id)
    && (forall i, j :: 0 <= i < j < |dirs| ==> dirs[i].id != dirs[j].id && !Less(dirs[j].path, dirs[i].path))
  }

  const MAGIC: Str := [79, 68, 73, 88]
  const VERSION: nat := 1
  const HEADER_LEN: nat := 32

  datatype Header = Header(dirTableOff: nat, dirCount: nat, metaOff: nat, metaLen: nat)

  function HeaderBytes(h: Header): (s: Str)
    ensures |s| == HEADER_LEN
  {
    MAGIC + (LeBytes(VERSION, 4) + (LeBytes(h.dirTableOff, 8) + (LeBytes(h.dirCount, 4)
      + (LeBytes(h.metaOff, 8) + LeBytes(h.metaLen, 4)))))
  }

  function CountFiles(cs: seq<ChildInfo>): nat {
    if cs == [] then 0 else (if cs[0].isDir then 0 else 1) + CountFiles(cs[1..])
  }

  ghost function TotalFiles(t: Tree, dirs: seq<Dir>): nat {
    if dirs == [] then 0 else CountFiles(ChildList(t, dirs[0].id)) + TotalFiles(t, dirs[1..])
  }

  ghost function MetaOf(s: State, dirs: seq<Dir>, now: u64): SnapshotMeta {
    SnapshotMeta(s.cursor, now, s.tree.root, |dirs|, TotalFiles(s.tree, dirs))
  }

  ghost function HeaderOf(t: Tree, dirs: seq<Dir>, meta: Str): Header
    requires Known(t, dirs)
  {
    var tableOff := HEADER_LEN + |Blocks(t, dirs)|;
    Header(tableOff, |dirs|, tableOff + |TableBytes(Rows(t, dirs, HEADER_LEN))|, |meta|)
  }

  /** The file for `s` with these directories and metadata bytes. */
  ghost function FileBytes(t: Tree, dirs: seq<Dir>, meta: Str): Str
    requires Known(t, dirs)
  {
    HeaderBytes(HeaderOf(t, dirs, meta)) + (Blocks(t, dirs) + (TableBytes(Rows(t, dirs, HEADER_LEN)) + meta))
  }

  ghost predicate IsEncoding(s: State, now: u64, codec: MetaCodec, bytes: Str) {
    exists dirs :: IsDirList(s.tree, dirs) && bytes == FileBytes(s.tree, dirs, codec.write(MetaOf(s, dirs, now)))
  }

  // ---------------------------------------------------------------- reading a file

  function ParseHeader(bytes: Str): Result<Header> {
    if |bytes| < HEADER_LEN then Failure("index header too short")
    else if bytes[..4] != MAGIC then Failure("index magic mismatch")
    else if ReadInt(bytes, 4, 4) != VERSION then Failure("unsupported index version")
    else
      var h := Header(ReadInt(bytes, 8, 8), ReadInt(bytes, 16, 4), ReadInt(bytes, 20, 8), ReadInt(bytes, 28, 4));
      if (h.dirTableOff > |bytes| || h.metaOff > |bytes|) && |bytes| != HEADER_LEN
      then Failure("index offsets out of range")
      else Success(h)
  }

  function ParseMeta(bytes: Str, h: Header, codec: MetaCodec): Result<SnapshotMeta> {
    if h.metaOff + h.metaLen > |bytes| then Failure("index meta truncated")
    else
      var m := codec.read(bytes[h.metaOff..h.metaOff + h.metaLen]);
      if m == None then Failure("index meta") else Success(m.value)
  }

  /** What a bounded read of a file yields: the part of the range that exists. */
  function ReadAt(bytes: Str, off: nat, len: nat): Str {
    if off >= |bytes| then []
    else if off + len > |bytes| then bytes[off..]
    else bytes[off..off + len]
  }

  /** Binary search among the rows from `lo` up to `hi`. */
  function Bisect(rows: seq<DirRow>, path: Str, lo: nat, hi: nat): (r: Option<DirRow>)
    requires lo <= hi <= |rows|
    decreases hi - lo
  {
    if lo == hi then None
    else
      var mid := lo + (hi - lo) / 2;
      if rows[mid].path == path then Some(rows[mid])
      else if Less(rows[mid].path, path) then Bisect(rows, path, mid + 1, hi)
      else Bisect(rows, path, lo, mid)
  }

  function FindDir(rows: seq<DirRow>, path: Str): Option<DirRow> { Bisect(rows, path, 0, |rows|) }

  function FindChild(cs: seq<ChildInfo>, name: Str): Option<ChildInfo> {
    if cs == [] then None else if cs[0].name == name then Some(cs[0]) else FindChild(cs[1..], name)
  }

  datatype Lookup = FileHit(info: ChildInfo) | DirHit(info: ChildInfo, children: seq<ChildInfo>)

  function ReadBlock(bytes: Str, row: DirRow): Str {
    if row.blockLen == 0 then [] else ReadAt(bytes, row.blockOff, row.blockLen)
  }

  function LookupWith(bytes: Str, rows: seq<DirRow>, rawPath: Str): Result<Option<Lookup>> {
    var path := Normalize(rawPath);
    var row := FindDir(rows, path);
    if row.Some? then
      var children :- ParseChildren(ReadBlock(bytes, row.value), 0);
      Success(Some(DirHit(ChildInfo(LastSegment(row.value.path), true, row.value.size, row.value.mtime,
                                    row.value.etag, row.value.id), children)))
    else
      var parent := FindDir(rows, ParentPath(path));
      if parent == None then Success(None)
      else
        var children :- ParseChildren(ReadBlock(bytes, parent.value), 0);
        var hit := FindChild(children, LastSegment(path));
        Success(if hit == None then None else Some(FileHit(hit.value)))
  }

  /** The lookup of `PROPFIND` and `HEAD`: header, directory table and one child block; `None`
      stands for a file that cannot be opened. */
  function LookupFile(file: Option<Str>, path: Str): Result<Option<Lookup>> {
    if file == None then Success(None)
    else
      var bytes := file.value;
      var header := ReadAt(bytes, 0, HEADER_LEN);
      if |header| < HEADER_LEN then Failure("index header truncated")
      else
        var h :- ParseHeader(header);
        var tableLen := if h.metaOff < h.dirTableOff then 0 else h.metaOff - h.dirTableOff;
        var rows :- ParseRows(ReadAt(bytes, h.dirTableOff, tableLen), 0, h.dirCount);
        LookupWith(bytes, rows, path)
  }
}
