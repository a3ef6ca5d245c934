/** Files that are not what an encode wrote: which headers, tables and blocks are accepted at all,
    and what becomes of a file that is cut short or has bytes after its end. */
module Damage {
  import opened Bytes
  import opened Paths
  import opened Namespace
  import opened Records
  import opened Snapshot
  import opened SnapshotLookup
  import opened SnapshotDecode

  /** `ODIX` and the version 1 in four bytes. */
  const SIGNATURE: Str := [79, 68, 73, 88, 1, 0, 0, 0]

  /** The header fields as they stand in the first 32 bytes. */
  ghost predicate HeaderStands(bytes: Str, h: Header) {
    && |bytes| >= 32 && bytes[..8] == SIGNATURE
    && FromLe(bytes[8..16]) == h.dirTableOff && FromLe(bytes[16..20]) == h.dirCount
    && FromLe(bytes[20..28]) == h.metaOff && FromLe(bytes[28..32]) == h.metaLen
  }

  /** A header is accepted exactly if it stands there and, unless there is nothing but the header to
      look at, both its offsets lie within the file. */
  lemma HeaderAcceptedIff(bytes: Str, h: Header)
    ensures ParseHeader(bytes) == Success(h) <==>
            HeaderStands(bytes, h) && (|bytes| == 32 || (h.dirTableOff <= |bytes| && h.metaOff <= |bytes|))
  {
    if |bytes| >= 32 { SignatureIs(bytes); }
  }

  lemma SignatureIs(bytes: Str)
    requires |bytes| >= 32
    ensures bytes[..8] == SIGNATURE <==> bytes[..4] == MAGIC && ReadInt(bytes, 4, 4) == VERSION
  {
    assert bytes[..8] == bytes[..4] + bytes[4..8];
    assert SIGNATURE[..4] == MAGIC && SIGNATURE[4..] == [1, 0, 0, 0];
    LeRoundTripBack(bytes[4..8]);
    assert LeBytes(1, 4) == [1, 0, 0, 0];
    LeRoundTripBack([1, 0, 0, 0]);
    LeRoundTrip(1, 4) by { Spans(); }
    assert bytes[4..4 + 4] == bytes[4..8];
  }

  // ---------------------------------------------------------------- lookups in any file

  /** The table the header speaks of: that many well-formed rows in front of the metadata. */
  ghost predicate TableStands(bytes: Str, h: Header, rows: seq<DirRow>) {
    && |rows| == h.dirCount && RowsOk(rows)
    && (rows != [] ==> At(bytes, h.dirTableOff, TableBytes(rows)) && h.dirTableOff + |TableBytes(rows)| <= h.metaOff)
  }

  /** On any bytes: a lookup answers exactly if a header and the whole table stand there and the blocks
      it needs are held, and it answers from them; anything else is an error, never a miss. Only a file
      that is not there is a miss. */
  lemma LookupAnswersIff(bytes: Str, path: Str, r: Option<Lookup>)
    ensures LookupFile(Some(bytes), path) == Success(r) <==>
            exists h, rows :: HeaderStands(bytes, h) && TableStands(bytes, h, rows) && LookupWith(bytes, rows, path) == Success(r)
    ensures LookupFile(None, path) == Success(None)
  {
    hide ParseHeader, ParseRows, LookupWith, TableBytes, At, ReadAt;
    forall h: Header ensures |ReadAt(bytes, 0, 32)| >= 32 && ParseHeader(ReadAt(bytes, 0, 32)) == Success(h) <==> HeaderStands(bytes, h) {
      FirstBytes(bytes, h);
    }
    forall h: Header, rows
      ensures ParseRows(ReadAt(bytes, h.dirTableOff, TableLen(h)), 0, h.dirCount) == Success(rows) <==> TableStands(bytes, h, rows) {
      TableIsReadIff(bytes, h, rows);
    }
  }

  /** The row a lookup of `path` reads the block of: the one at the path, else the one at its parent. */
  ghost predicate NeedsRow(rows: seq<DirRow>, path: Str, i: nat) {
    i < |rows| &&
    (rows[i].path == Normalize(path)
     || (rows[i].path == ParentPath(Normalize(path)) && forall j :: 0 <= j < |rows| ==> rows[j].path != Normalize(path)))
  }

  /** Among rows in order a lookup fails exactly if the block it needs is not empty and does not parse. */
  lemma LookupFailsIff(bytes: Str, rows: seq<DirRow>, path: Str)
    requires RowsAscend(rows)
    ensures LookupWith(bytes, rows, path).Failure? <==>
            exists i: nat :: NeedsRow(rows, path, i) && rows[i].blockLen > 0
                             && ParseChildren(ReadAt(bytes, rows[i].blockOff, rows[i].blockLen), 0).Failure?
  {
    hide ParseChildren, ReadAt, Normalize, ParentPath, LastSegment, Bisect, FindChild, Less;
    var norm := Normalize(path);
    FindsRow(rows, norm);
    FindsRow(rows, ParentPath(norm));
    NothingHeld();
  }

  lemma FindsRow(rows: seq<DirRow>, path: Str)
    requires RowsAscend(rows)
    ensures FindDir(rows, path).Some? ==> exists i :: 0 <= i < |rows| && rows[i] == FindDir(rows, path).value && rows[i].path == path
    ensures forall i :: 0 <= i < |rows| && rows[i].path == path ==> FindDir(rows, path) == Some(rows[i])
  {
    hide Bisect, Less;
    BisectIsRow(rows, path, 0, |rows|);
    forall i | 0 <= i < |rows| && rows[i].path == path ensures FindDir(rows, path) == Some(rows[i]) {
      BisectFinds(rows, path, 0, |rows|, i);
    }
  }

  lemma NothingHeld()
    ensures ParseChildren([], 0) == Success([])
  {
  }

  function TableLen(h: Header): nat { if h.metaOff < h.dirTableOff then 0 else h.metaOff - h.dirTableOff }

  lemma FirstBytes(bytes: Str, h: Header)
    ensures |ReadAt(bytes, 0, 32)| >= 32 && ParseHeader(ReadAt(bytes, 0, 32)) == Success(h) <==> HeaderStands(bytes, h)
  {
    hide ParseHeader, FromLe;
    var first := ReadAt(bytes, 0, 32);
    if |first| >= 32 {
      HeaderAcceptedIff(first, h);
      assert first == bytes[..32];
      assert first[..8] == bytes[..8] && first[8..16] == bytes[8..16] && first[16..20] == bytes[16..20]
          && first[20..28] == bytes[20..28] && first[28..32] == bytes[28..32];
    }
  }

  lemma TableIsReadIff(bytes: Str, h: Header, rows: seq<DirRow>)
    ensures ParseRows(ReadAt(bytes, h.dirTableOff, TableLen(h)), 0, h.dirCount) == Success(rows) <==> TableStands(bytes, h, rows)
  {
    hide ParseRows, TableBytes, RowsOk;
    var table := ReadAt(bytes, h.dirTableOff, TableLen(h));
    ParseRowsIffWritten(table, 0, h.dirCount, rows);
    if rows != [] {
      TableNotEmpty(rows);
      AtInRange(bytes, h.dirTableOff, TableLen(h), TableBytes(rows));
    }
  }

  lemma TableNotEmpty(rows: seq<DirRow>)
    requires rows != []
    ensures |TableBytes(rows)| > 0
  {
    RowLen(rows[0]);
  }

  /** What stands at the start of a bounded read stands in the file, within the bound. */
  lemma AtInRange(bytes: Str, off: nat, len: nat, b: Str)
    requires b != []
    ensures At(ReadAt(bytes, off, len), 0, b) <==> At(bytes, off, b) && |b| <= len
  {
    var part := ReadAt(bytes, off, len);
    if off + |b| <= |bytes| && |b| <= len { assert part[0..0 + |b|] == bytes[off..off + |b|]; }
  }

  // ---------------------------------------------------------------- decoding any file

  /** The first pass succeeds exactly if every row's block lies within the file and parses. */
  lemma {:induction false} LoadsIffBlocksHeld(bytes: Str, rows: seq<DirRow>, m: Maps)
    ensures LoadRows(bytes, rows, m).Success? <==>
            forall r :: r in rows ==>
              r.blockOff + r.blockLen <= |bytes| && ParseChildren(bytes[r.blockOff..r.blockOff + r.blockLen], 0).Success?
    decreases |rows|
  {
    hide ParseChildren, LoadRow;
    if rows != [] {
      assert forall r :: r in rows <==> r == rows[0] || r in rows[1..];
      var cs := ParseBlock(bytes, rows[0].blockOff, rows[0].blockLen);
      if cs.Success? { LoadsIffBlocksHeld(bytes, rows[1..], LoadRow(m, rows[0], cs.value)); }
    }
  }

  /** A file that lost any number of bytes at its end does not decode: a torn write is never taken for
      a snapshot, not even for a smaller one. */
  lemma TornFileFails(t: Tree, dirs: seq<Dir>, meta: Str, codec: MetaCodec, k: nat)
    requires Known(t, dirs) && |dirs| < U32_SPAN && |meta| < U32_SPAN && |FileBytes(t, dirs, meta)| < U64_SPAN
    requires k < |FileBytes(t, dirs, meta)|
    ensures var torn := FileBytes(t, dirs, meta)[..k]; TableInRange(torn, codec) && Decode(torn, codec).Failure?
  {
    hide FileBytes, Blocks, TableBytes, Rows, HeaderBytes, At, ParseHeader, FromLe;
    var bytes, h := FileBytes(t, dirs, meta), HeaderOf(t, dirs, meta);
    var torn := bytes[..k];
    FileParts(t, dirs, meta);
    if ParseHeader(torn).Success? {
      var g := ParseHeader(torn).value;
      HeaderAcceptedIff(torn, g);
      HeaderIsRead(bytes, h);
      HeaderAcceptedIff(bytes, h);
      assert torn[20..28] == bytes[20..28] && torn[28..32] == bytes[28..32];
    }
  }

  /** Bytes after the end of a file that decodes make no difference. */
  lemma TrailingBytesIgnored(bytes: Str, extra: Str, codec: MetaCodec)
    requires TableInRange(bytes, codec) && Decode(bytes, codec).Success?
    ensures TableInRange(bytes + extra, codec) && Decode(bytes + extra, codec) == Decode(bytes, codec)
  {
    hide ParseHeader, ParseRows, LoadRows, LinkRows, PathIds, RootOf;
    var h := ParseHeader(bytes).value;
    var more := bytes + extra;
    assert ParseHeader(more) == Success(h) by { HeaderWithMore(bytes, extra, h); }
    assert more[h.metaOff..h.metaOff + h.metaLen] == bytes[h.metaOff..h.metaOff + h.metaLen];
    assert more[h.dirTableOff..h.metaOff] == bytes[h.dirTableOff..h.metaOff];
    var rows := ParseRows(bytes[h.dirTableOff..h.metaOff], 0, h.dirCount).value;
    LoadWithMore(bytes, extra, rows, Maps(map[], map[]));
  }

  lemma HeaderWithMore(bytes: Str, extra: Str, h: Header)
    requires ParseHeader(bytes) == Success(h) && h.dirTableOff <= |bytes| && h.metaOff <= |bytes|
    ensures ParseHeader(bytes + extra) == Success(h)
  {
    hide ParseHeader, FromLe;
    var more := bytes + extra;
    HeaderAcceptedIff(bytes, h);
    HeaderAcceptedIff(more, h);
    assert more[..8] == bytes[..8] && more[8..16] == bytes[8..16] && more[16..20] == bytes[16..20]
        && more[20..28] == bytes[20..28] && more[28..32] == bytes[28..32];
  }

  lemma {:induction false} LoadWithMore(bytes: Str, extra: Str, rows: seq<DirRow>, m: Maps)
    requires LoadRows(bytes, rows, m).Success?
    ensures LoadRows(bytes + extra, rows, m) == LoadRows(bytes, rows, m)
    decreases |rows|
  {
    hide ParseChildren, LoadRow;
    if rows != [] {
      var off, len := rows[0].blockOff, rows[0].blockLen;
      assert (bytes + extra)[off..off + len] == bytes[off..off + len];
      LoadWithMore(bytes, extra, rows[1..], LoadRow(m, rows[0], ParseBlock(bytes, off, len).value));
    }
  }

  /** The second pass leaves alone what has no row. */
  lemma {:induction false} LinkingKeepsOthers(nodes: map<Id, Node>, ids: map<Str, Id>, rows: seq<DirRow>, id: Id)
    requires forall r :: r in rows ==> r.id != id
    ensures LinkRows(nodes, ids, rows).Keys == nodes.Keys
    ensures id in nodes ==> LinkRows(nodes, ids, rows)[id] == nodes[id]
    decreases |rows|
  {
    hide ParentPath;
    if rows != [] {
      assert rows[0] in rows && forall r :: r in rows[1..] ==> r in rows;
      LinkingKeepsOthers(LinkRow(nodes, ids, rows[0]), ids, rows[1..], id);
    }
  }

  /** Whatever the blocks of a file say, the second pass leaves the node of a row at `/` without parent
      and name, and hangs that of any other row below the row its path names, if there is one. */
  lemma {:induction false} RowsDecideParents(nodes: map<Id, Node>, ids: map<Str, Id>, rows: seq<DirRow>, i: nat)
    requires i < |rows| && rows[i].id in nodes && forall j :: 0 <= j < |rows| && j != i ==> rows[j].id != rows[i].id
    ensures var id, path := rows[i].id, rows[i].path;
            id in LinkRows(nodes, ids, rows) &&
            var was, n := nodes[id], LinkRows(nodes, ids, rows)[id];
            n == if path == [47] then Node(None, [], was.meta)
                 else if ParentPath(path) in ids then Node(Some(ids[ParentPath(path)]), was.name, was.meta) else was
    decreases i
  {
    hide ParentPath;
    var next := LinkRow(nodes, ids, rows[0]);
    if i == 0 {
      LinkingKeepsOthers(next, ids, rows[1..], rows[0].id);
    } else {
      assert rows[1..][i - 1] == rows[i];
      RowsDecideParents(next, ids, rows[1..], i - 1);
    }
  }
}
