/** What a request written through the files does to every later lookup on them. */
module Requests {
  import opened Bytes
  import opened Paths
  import opened Namespace
  import opened Resolution
  import opened Moves
  import opened PathEdits
  import opened Kinds
  import opened Snapshot
  import opened SnapshotLookup
  import opened SnapshotDecode
  import opened Reloading
  import opened WriteThrough
  import opened StateFile
  import opened Sync
  import opened SnapshotStore
  import opened SyncTick
  import opened Patching

  /** The live tree of sound files. */
  ghost function LiveTree(files: Files, codec: MetaCodec): Tree {
    if StoreOf(files, codec).live.Some? then StoreOf(files, codec).live.value.tree else EMPTY_TREE
  }

  /** From sound files, a patch of the drive was written: the live file holds what it makes. */
  ghost predicate Wrote(was: Files, files: Files, p: Patch, now: u64, d: Drive, codec: MetaCodec) {
    && Faithful(codec) && DriveOk(d) && SoundFiles(was, d, codec)
    && MayPatch(was, p, now, d, codec) && Rewritten(was, files, p, now, codec)
  }

  /** Bytes written from a state encode its tree. */
  lemma WrittenEncodes(bytes: Str, s: State, now: u64, d: Drive, codec: MetaCodec) returns (dirs: seq<Dir>, meta: Str)
    requires WrittenFrom(bytes, s, now, d, codec)
    ensures Encodes(bytes, s.tree, dirs, meta)
  {
    hide Agree, UniqueSiblings, SoleRoot, GoodNames, Kinded, IsDirList, Fits, FileBytes, MetaOf;
    dirs :| IsDirList(s.tree, dirs) && bytes == FileBytes(s.tree, dirs, codec.write(MetaOf(s, dirs, now)));
    meta := codec.write(MetaOf(s, dirs, now));
  }

  /** Both live files encode trees: the old one a tree that loads as the live one, the new one what
      the patch makes of that. */
  lemma FilesEncode(was: Files, files: Files, p: Patch, now: u64, d: Drive, codec: MetaCodec)
    returns (t: Tree, dirs: seq<Dir>, meta: Str, dirs': seq<Dir>, meta': Str)
    requires Wrote(was, files, p, now, d, codec)
    ensures INDEX_FILE in was && INDEX_FILE in files && Sound(LiveTree(was, codec), d)
    ensures Encodes(was[INDEX_FILE], t, dirs, meta) && RowsBelowRows(t) && Reload(t) == LiveTree(was, codec)
    ensures Encodes(files[INDEX_FILE], Patched(Reload(t), p).0, dirs', meta') && Patched(Reload(t), p).1
    ensures PatchOfDrive(LiveTree(was, codec), d, p)
  {
    hide IsEncoding, Decode, TableInRange, Faithful, StateFits, Reload, Sound, DriveOk, Encodes, Patched, PatchOfDrive, StoreOk, RowsBelowRows;
    var s, since :| WrittenFrom(was[INDEX_FILE], s, since, d, codec);
    SoundIsSavable(s, d, since, codec);
    SaveThenLoad(s, since, codec, was[INDEX_FILE]);
    ReloadKeepsSound(s.tree, d);
    t := s.tree;
    dirs, meta := WrittenEncodes(was[INDEX_FILE], s, since, d, codec);
    SoundFilesLoad(was, d, codec);
    RewrittenFrom(was, files, p, now, d, codec);
    var u := Decode(was[INDEX_FILE], codec).value;
    dirs', meta' := WrittenEncodes(files[INDEX_FILE], u.(tree := Patched(u.tree, p).0), now, d, codec);
  }

  /** A `DELETE` and every lookup after it. */
  lemma DeleteOnFiles(was: Files, files: Files, path: Str, now: u64, d: Drive, codec: MetaCodec, q: Str)
    requires Wrote(was, files, Patch.Delete(path), now, d, codec)
    ensures var before, after := LookupFile(FileAt(was, INDEX_FILE), q), LookupFile(FileAt(files, INDEX_FILE), q);
            before.Success? && after.Success? && DeleteEffect(path, q, before.value, after.value)
  {
    hide Wrote, Encodes, LookupFile, DeleteEffect, RemoveAtPath, Reload, RowsBelowRows, Sound, PatchOfDrive;
    var t, dirs, meta, dirs', meta' := FilesEncode(was, files, Patch.Delete(path), now, d, codec);
    DeleteThroughFile(was[INDEX_FILE], t, dirs, meta, path, files[INDEX_FILE], dirs', meta', q);
  }

  /** The upsert of a `PUT` or `MKCOL` and every lookup after it. */
  lemma UpsertOnFiles(was: Files, files: Files, path: Str, item: ItemMeta, now: u64, d: Drive, codec: MetaCodec, q: Str)
    requires Wrote(was, files, Patch.Upsert(None, path, item), now, d, codec) && FreshIfNeeded(LiveTree(was, codec), path)
    ensures var before, after := LookupFile(FileAt(was, INDEX_FILE), q), LookupFile(FileAt(files, INDEX_FILE), q);
            before.Success? && after.Success? && UpsertEffect(LiveTree(was, codec), path, item, q, before.value, after.value)
  {
    hide Wrote, Encodes, LookupFile, UpsertEffect, UpsertAtPath, Reload, RowsBelowRows, Sound, ToDirectory, Resolve, Segments, ParentPath,
         LiveTree;
    var t, dirs, meta, dirs', meta' := FilesEncode(was, files, Patch.Upsert(None, path, item), now, d, codec);
    UpsertThroughFile(was[INDEX_FILE], t, dirs, meta, path, item, files[INDEX_FILE], dirs', meta', q);
  }

  /** A `MOVE` by path, to a place outside what is moved, and every lookup after it. */
  lemma MoveOnFiles(was: Files, files: Files, from: Str, to: Str, now: u64, d: Drive, codec: MetaCodec, q: Str, rest: seq<Str>, source: Str)
    requires Wrote(was, files, Patch.Move(None, from, to), now, d, codec) && CanMove(LiveTree(was, codec), from, to)
    ensures var before, after, found := LookupFile(FileAt(was, INDEX_FILE), q), LookupFile(FileAt(files, INDEX_FILE), q),
                                        LookupFile(FileAt(was, INDEX_FILE), source);
            && before.Success? && after.Success? && found.Success?
            && MoveEffect(LiveTree(was, codec), from, to, q, before.value, after.value)
            && MovedEffect(LiveTree(was, codec), from, to, rest, source, q, found.value, after.value)
  {
    hide Wrote, Encodes, LookupFile, MoveEffect, MovedEffect, MoveAtPath, Reload, RowsBelowRows, PatchOfDrive, CanMove, LiveTree;
    var t, dirs, meta, dirs', meta' := FilesEncode(was, files, Patch.Move(None, from, to), now, d, codec);
    MoveThroughFile(was[INDEX_FILE], t, dirs, meta, from, to, files[INDEX_FILE], dirs', meta', q, rest, source);
  }

  /** A `PUT`, `MKCOL` or `MOVE` whose item Graph answered, at the path that was asked for, and every
      lookup after it. */
  lemma ItemOnFiles(was: Files, files: Files, p: Patch, dir: seq<Str>, now: u64, d: Drive, codec: MetaCodec, q: Str,
                    place: seq<Str>, rest: seq<Str>, source: Str)
    requires Wrote(was, files, p, now, d, codec) && ItemOf(p).Some? && AttachesAt(LiveTree(was, codec), ItemOf(p).value, dir)
    requires Segments(TargetOf(p)) == dir + [ItemOf(p).value.name]
    ensures var before, after, found := LookupFile(FileAt(was, INDEX_FILE), q), LookupFile(FileAt(files, INDEX_FILE), q),
                                        LookupFile(FileAt(was, INDEX_FILE), source);
            && before.Success? && after.Success? && found.Success?
            && ItemEffect(LiveTree(was, codec), ItemOf(p).value, dir, q, before.value, after.value)
            && ItemBelowEffect(LiveTree(was, codec), ItemOf(p).value, dir, place, rest, source, q, found.value, after.value)
  {
    hide Wrote, Encodes, LookupFile, ItemEffect, ItemBelowEffect, Patched, Reload, RowsBelowRows, PatchOfDrive, AttachesAt, LiveTree, Segments,
         Sound;
    var t, dirs, meta, dirs', meta' := FilesEncode(was, files, p, now, d, codec);
    ItemThroughFile(was[INDEX_FILE], t, dirs, meta, p, dir, files[INDEX_FILE], dirs', meta', q, place, rest, source);
  }
}
