/** Snapshots in the state directory: load, save, look up, and patch in place. */
module SnapshotStore {
  import opened Bytes
  import opened Paths
  import opened Namespace
  import opened Resolution
  import opened PathEdits
  import opened Records
  import opened Snapshot
  import opened SnapshotLookup
  import opened SnapshotDecode
  import opened IndexObject
  import opened SnapshotWriter
  import opened SnapshotReader
  import opened StateFile
  import opened Sync

  const INDEX_FILE := "index.bin"

  /** Encodes and replaces the file: in every state the directory passes through, `name` holds
      the old file or a whole encoding of the index. */
  method Save(dir: Directory, name: string, idx: Index, now: u64, codec: MetaCodec) returns (ok: bool, ghost bytes: Str)
    modifies dir`files, dir`seen
    ensures IsEncoding(old(StateOf(idx)), now, codec, bytes)
    ensures ok ==> name in dir.files && dir.files[name] == bytes
    ensures !ok ==> SameAt(dir.files, old(dir.files), name)
    ensures dir.writable ==> ok
    ensures OnlyDiffer(dir.files, old(dir.files), {name, name + TMP})
    ensures dir.SeenWhole(|old(dir.seen)|, old(dir.files), name, bytes) && dir.seen[..|old(dir.seen)|] == old(dir.seen)
  {
    hide IsEncoding;
    var data := Encode(idx, now, codec);
    bytes := data;
    ok := dir.WriteAtomic(name, data);
  }

  /** Reads and decodes the file; `None` if it cannot be opened. */
  method Load(dir: Directory, name: string, codec: MetaCodec) returns (r: Result<Option<Index>>)
    requires name in dir.files ==> TableInRange(dir.files[name], codec)
    ensures r.Success? && r.value.Some? ==>
              && name in dir.files && fresh(r.value.value)
              && Decode(dir.files[name], codec) == Success(StateOf(r.value.value))
    ensures dir.readable && name !in dir.files ==> r == Success(None)
    ensures dir.readable && name in dir.files ==>
              (r.Success? <==> Decode(dir.files[name], codec).Success?) && (r.Success? ==> r.value.Some?)
  {
    hide Decode;
    var file := dir.ReadFile(name);
    if file.Failure? {
      return Failure(file.error);
    }
    if file.value == None {
      return Success(None);
    }
    var idx := DecodeFile(file.value.value, codec);
    if idx.Failure? {
      return Failure(idx.error);
    }
    return Success(Some(idx.value));
  }

  function FileAt(files: Files, name: string): Option<Str> { if name in files then Some(files[name]) else None }

  /** The lookup on the file: three bounded reads, the last only for a non-empty block. While
      reads do not fail it answers as the lookup on the whole file, errors included; at any time
      a hit is that lookup's hit. */
  method LookupPath(dir: Directory, path: Str) returns (r: Result<Option<Lookup>>)
    ensures dir.readable ==> r == LookupFile(FileAt(dir.files, INDEX_FILE), path)
    ensures r.Success? && r.value.Some? ==> r == LookupFile(FileAt(dir.files, INDEX_FILE), path)
  {
    hide ReadAt, ParseHeader, ParseRows, ParseChildren, FindDir, FindChild, Normalize, ParentPath, LastSegment;
    var header := dir.ReadRange(INDEX_FILE, 0, HEADER_LEN);
    if header.Failure? {
      return Failure(header.error);
    }
    if header.value == None {
      return Success(None);
    }
    if |header.value.value| < HEADER_LEN {
      return Failure("index header truncated");
    }
    var parsed := ParseHeader(header.value.value);
    if parsed.Failure? {
      return Failure(parsed.error);
    }
    var h := parsed.value;
    var tableLen := if h.metaOff < h.dirTableOff then 0 else h.metaOff - h.dirTableOff;
    var table := dir.ReadRange(INDEX_FILE, h.dirTableOff, tableLen);
    if table.Failure? {
      return Failure(table.error);
    }
    if table.value == None {
      return Failure("index dir table missing");
    }
    var rows := ParseDirTable(table.value.value, h.dirCount);
    if rows.Failure? {
      return Failure(rows.error);
    }
    var norm := Normalize(path);
    var row := FindDir(rows.value, norm);
    if row.Some? {
      var children := ChildrenOf(dir, row.value);
      if children.Failure? {
        return Failure(children.error);
      }
      var d := row.value;
      return Success(Some(DirHit(ChildInfo(LastSegment(d.path), true, d.size, d.mtime, d.etag, d.id), children.value)));
    }
    var parent := FindDir(rows.value, ParentPath(norm));
    if parent == None {
      return Success(None);
    }
    var children := ChildrenOf(dir, parent.value);
    if children.Failure? {
      return Failure(children.error);
    }
    var hit := FindChild(children.value, LastSegment(norm));
    return Success(if hit == None then None else Some(FileHit(hit.value)));
  }

  /** The parsed child block of a row; an empty block is not read. */
  method ChildrenOf(dir: Directory, row: DirRow) returns (r: Result<seq<ChildInfo>>)
    ensures r.Success? ==> row.blockLen == 0 || INDEX_FILE in dir.files
    ensures INDEX_FILE in dir.files && (r.Success? || dir.readable) ==> r == ParseChildren(ReadBlock(dir.files[INDEX_FILE], row), 0)
  {
    hide ReadAt, ParseChildren;
    var block: Str := [];
    if row.blockLen != 0 {
      var got := dir.ReadRange(INDEX_FILE, row.blockOff, row.blockLen);
      if got.Failure? {
        return Failure(got.error);
      }
      if got.value == None {
        return Failure("index child block missing");
      }
      block := got.value.value;
    }
    r := ParseChildBlock(block, 0, |block|);
    assert block[0..0 + |block|] == block;
  }

  // ---------------------------------------------------------------- patches

  method ApplyPatch(idx: Index, p: Patch) returns (ok: bool)
    modifies idx`nodes, idx`kids, idx`root
    ensures (idx.View(), ok) == Patched(old(idx.View()), p)
  {
    hide Namespace.Apply, PathEdits.UpsertAtPath, PathEdits.MoveAtPath, PathEdits.RemoveAtPath, ResolvePath;
    match p
    case Upsert(item, path, meta) =>
      if item.Some? {
        idx.Apply(item.value);
        var here := idx.Resolve(path);
        if here.Some? { return true; }
      }
      ok := idx.UpsertAtPath(path, meta);
    case Delete(path) =>
      ok := idx.RemoveAtPath(path);
    case Move(item, from, to) =>
      if item.Some? {
        idx.Apply(item.value);
        var here := idx.Resolve(to);
        if here.Some? { return true; }
      }
      ok := idx.MoveAtPath(from, to);
  }

  /** The live file loads, and the patch applies to what it holds. */
  ghost predicate Takes(before: Files, p: Patch, codec: MetaCodec) {
    && INDEX_FILE in before && TableInRange(before[INDEX_FILE], codec) && Decode(before[INDEX_FILE], codec).Success?
    && Patched(Decode(before[INDEX_FILE], codec).value.tree, p).1
  }

  /** The live file holds the patched tree under the cursor it had. */
  ghost predicate Rewritten(before: Files, after: Files, p: Patch, now: u64, codec: MetaCodec) {
    && Takes(before, p, codec) && INDEX_FILE in after
    && var s := Decode(before[INDEX_FILE], codec).value;
       IsEncoding(s.(tree := Patched(s.tree, p).0), now, codec, after[INDEX_FILE])
  }

  /** What a patch may leave behind: the live file untouched or rewritten, and no other file but
      its temporary one changed. */
  ghost predicate PatchedFiles(before: Files, after: Files, p: Patch, now: u64, codec: MetaCodec) {
    && OnlyDiffer(after, before, {INDEX_FILE, INDEX_FILE + TMP})
    && (SameAt(after, before, INDEX_FILE) || Rewritten(before, after, p, now, codec))
  }

  /** Patches the live snapshot; does nothing if it is missing or unreadable, or if the patch
      does not apply. In every state on the way the live file is the old one or the whole patched
      one, and as long as no call fails a patch that applies is on file in the end. */
  method Mutate(dir: Directory, p: Patch, now: u64, codec: MetaCodec)
    requires INDEX_FILE in dir.files ==> TableInRange(dir.files[INDEX_FILE], codec)
    modifies dir`files, dir`seen
    ensures PatchedFiles(old(dir.files), dir.files, p, now, codec)
    ensures |dir.seen| >= |old(dir.seen)| && dir.seen[..|old(dir.seen)|] == old(dir.seen)
    ensures forall i :: |old(dir.seen)| <= i < |dir.seen| ==> PatchedFiles(old(dir.files), dir.seen[i], p, now, codec)
    ensures !Takes(old(dir.files), p, codec) ==> dir.files == old(dir.files) && dir.seen == old(dir.seen)
    ensures dir.readable && dir.writable && Takes(old(dir.files), p, codec) ==>
              Rewritten(old(dir.files), dir.files, p, now, codec)
  {
    hide Decode, IsEncoding, Patched, TableInRange;
    var loaded := Load(dir, INDEX_FILE, codec);
    if loaded.Failure? || loaded.value == None {
      return;
    }
    var idx := loaded.value.value;
    var ok := ApplyPatch(idx, p);
    if ok {
      ghost var bytes;
      ok, bytes := Save(dir, INDEX_FILE, idx, now, codec);
    }
  }

  /** Whatever order the directories are listed in, every length fits its field. */
  ghost predicate StateFits(s: State, now: u64, codec: MetaCodec) {
    forall dirs :: IsDirList(s.tree, dirs) ==> Known(s.tree, dirs) && Fits(s.tree, dirs, codec.write(MetaOf(s, dirs, now)))
  }

  /** The bytes a save writes load as the state the sync tick counts on. */
  lemma SaveThenLoad(s: State, now: u64, codec: MetaCodec, bytes: Str)
    requires WellFormed(s.tree) && GoodNames(s.tree) && Faithful(codec) && StateFits(s, now, codec)
    requires IsEncoding(s, now, codec, bytes)
    ensures TableInRange(bytes, codec) && Decode(bytes, codec) == Success(Reloaded(s))
  {
    hide IsDirList, Fits, FileBytes, Decode, TableInRange, MetaOf, Faithful, WellFormed, GoodNames, Reload;
    var dirs :| IsDirList(s.tree, dirs) && bytes == FileBytes(s.tree, dirs, codec.write(MetaOf(s, dirs, now)));
    DecodeEncoded(s, dirs, now, codec);
  }
}
