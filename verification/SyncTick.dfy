/** `run_inner`: one bounded tick, its loop and what it does to the two files. */
module SyncTick {
  import opened Bytes
  import opened Namespace
  import opened Records
  import opened Reloading
  import opened Snapshot
  import opened SnapshotLookup
  import opened SnapshotDecode
  import opened IndexObject
  import opened SnapshotWriter
  import opened Sync
  import opened Resolution
  import opened SnapshotStore
  import opened StateFile

  const REBUILD_FILE := "index.rebuild.bin"

  // ---------------------------------------------------------------- files as a store

  /** What the file loads as. */
  ghost function LoadOf(files: Files, name: string, codec: MetaCodec): Option<State> {
    if name in files && TableInRange(files[name], codec) && Decode(files[name], codec).Success?
    then Some(Decode(files[name], codec).value) else None
  }

  ghost function StoreOf(files: Files, codec: MetaCodec): Store {
    Store(LoadOf(files, INDEX_FILE, codec), LoadOf(files, REBUILD_FILE, codec))
  }

  /** Each of the two files, if it is there, can be decoded. */
  ghost predicate FilesOk(files: Files, codec: MetaCodec) {
    && (INDEX_FILE in files ==> LoadOf(files, INDEX_FILE, codec).Some?)
    && (REBUILD_FILE in files ==> LoadOf(files, REBUILD_FILE, codec).Some?)
  }

  /** The state can be written down and read back. */
  ghost predicate Savable(s: State, now: u64, codec: MetaCodec) {
    WellFormed(s.tree) && GoodNames(s.tree) && StateFits(s, now, codec)
  }

  function NameOf(target: Target): string { if target == RebuildFile then REBUILD_FILE else INDEX_FILE }

  lemma NamesDiffer(target: Target)
    ensures INDEX_FILE != REBUILD_FILE
    ensures NameOf(target) + TMP != INDEX_FILE && NameOf(target) + TMP != REBUILD_FILE
  {
    assert |INDEX_FILE| == 9 && |REBUILD_FILE| == 17 && |TMP| == 4;
  }

  lemma SameLoad(a: Files, b: Files, name: string, codec: MetaCodec)
    requires SameAt(a, b, name)
    ensures LoadOf(a, name, codec) == LoadOf(b, name, codec)
  {
  }

  lemma SameStore(a: Files, b: Files, codec: MetaCodec)
    requires SameAt(a, b, INDEX_FILE) && SameAt(a, b, REBUILD_FILE)
    ensures StoreOf(a, codec) == StoreOf(b, codec) && (FilesOk(a, codec) <==> FilesOk(b, codec))
  {
    hide LoadOf;
    SameLoad(a, b, INDEX_FILE, codec);
    SameLoad(a, b, REBUILD_FILE, codec);
  }

  /** The files once `target` holds a whole encoding and the other file is as before. */
  lemma SavedStore(was: Files, files: Files, target: Target, s: State, now: u64, codec: MetaCodec, bytes: Str)
    requires FilesOk(was, codec) && Savable(s, now, codec) && Faithful(codec) && IsEncoding(s, now, codec, bytes)
    requires NameOf(target) in files && files[NameOf(target)] == bytes
    requires OnlyDiffer(files, was, {NameOf(target), NameOf(target) + TMP})
    ensures FilesOk(files, codec)
    ensures StoreOf(files, codec) == if target == RebuildFile then StoreOf(was, codec).(rebuild := Some(Reloaded(s)))
                                    else StoreOf(was, codec).(live := Some(Reloaded(s)))
  {
    hide IsEncoding, Decode, TableInRange, Faithful, WellFormed, GoodNames, StateFits, Reload;
    NamesDiffer(target);
    SaveThenLoad(s, now, codec, bytes);
    if target == RebuildFile {
      SameLoad(files, was, INDEX_FILE, codec);
    } else {
      SameLoad(files, was, REBUILD_FILE, codec);
    }
  }

  method ApplyItems(idx: Index, items: seq<DeltaItem>)
    modifies idx`nodes, idx`kids, idx`root
    ensures idx.View() == ApplyAll(old(idx.View()), items)
  {
    assert items[0..] == items;
    for i := 0 to |items|
      invariant ApplyAll(idx.View(), items[i..]) == ApplyAll(old(idx.View()), items)
    {
      assert items[i..][0] == items[i] && items[i..][1..] == items[i + 1..];
      idx.Apply(items[i]);
    }
  }

  lemma {:induction false} LoopSnoc(t: Tick, store: Store, initial: Str, rs: seq<Response>, r: Response)
    ensures var e := Loop(t, store, initial, rs);
            Loop(t, store, initial, rs + [r]) == if e.done || e.failed then e else Step(e, store, initial, r)
    decreases |rs|
  {
    if rs == [] {
      assert [] + [r] == [r] && [r][1..] == [];
      assert t.done || t.failed || Loop(t, store, initial, [r]) == Loop(Step(t, store, initial, r), store, initial, []);
    } else if !t.done && !t.failed {
      assert (rs + [r])[0] == rs[0] && (rs + [r])[1..] == rs[1..] + [r];
      LoopSnoc(Step(t, store, initial, rs[0]), store, initial, rs[1..], r);
    }
  }

  /** One more request. */
  lemma SeeingSteps(view: Store, again: Option<State>, initial: Str, legacy: bool, graph: seq<Str -> Response>, k: nat)
    requires k < |graph|
    ensures var rs := AnswersSeeing(view, again, initial, legacy, graph[..k]);
            var t := RunTickSeeing(view, again, initial, legacy, rs);
            RunTickSeeing(view, again, initial, legacy, AnswersSeeing(view, again, initial, legacy, graph[..k + 1])) ==
            if t.done || t.failed then t else Step(t, Store(again, None), initial, graph[k](t.url))
  {
    hide Step, Loop, Answered;
    var t0, store := Start(view, initial, legacy), Store(again, None);
    var rs := AnswersSeeing(view, again, initial, legacy, graph[..k]);
    assert graph[..k + 1] == graph[..k] + [graph[k]];
    AnsweredSnoc(graph[..k], graph[k], t0, store, initial);
    LoopSnoc(t0, store, initial, rs, graph[k](Loop(t0, store, initial, rs).url));
  }

  /** A restart forgets what earlier ones saw of the live file. */
  lemma RestartSees(view: Store, again: Option<State>, now: Option<State>, initial: Str, legacy: bool,
                    graph: seq<Str -> Response>, k: nat)
    requires k < |graph|
    requires var t := RunTickSeeing(view, again, initial, legacy, AnswersSeeing(view, again, initial, legacy, graph[..k]));
             !t.done && !t.failed && graph[k](t.url) == Resync
    ensures RunTickSeeing(view, now, initial, legacy, AnswersSeeing(view, now, initial, legacy, graph[..k + 1])) ==
            StartOver(RunTickSeeing(view, again, initial, legacy, AnswersSeeing(view, again, initial, legacy, graph[..k])),
                      Store(now, None), initial)
  {
    hide Loop, Answered;
    var t0 := Start(view, initial, legacy);
    SeeingSteps(view, now, initial, legacy, graph, k);
    AnsweredUpToTarget(graph[..k], t0, t0, Store(again, None), Store(now, None), initial);
    LoopUpToTarget(t0, t0, Store(again, None), Store(now, None), initial,
                   AnswersSeeing(view, again, initial, legacy, graph[..k]));
  }

  lemma NoResponses(view: Store, again: Option<State>, initial: Str, legacy: bool)
    ensures RunTickSeeing(view, again, initial, legacy, AnswersSeeing(view, again, initial, legacy, [])) == Start(view, initial, legacy)
  {
  }

  /** Takes one page into the index and says whether anything to save came with it. */
  method ApplyPage(idx: Index, page: Page, ghost t: Tick) returns (dirty: bool)
    requires t.idx == StateOf(idx)
    modifies idx
    ensures StateOf(idx) == TakePage(t, page).idx && TakePage(t, page).dirty == (t.dirty || dirty)
  {
    dirty := page.items != [];
    ApplyItems(idx, page.items);
    match page.nextLink
    case Some(next) =>
      if idx.pendingNextLink != Some(next) { dirty := true; }
      idx.pendingNextLink := Some(next);
      idx.crawlComplete := false;
    case None =>
      if idx.deltaToken != page.deltaToken || idx.pendingNextLink.Some? { dirty := true; }
      idx.pendingNextLink := None;
      if page.deltaToken.Some? { idx.deltaToken := page.deltaToken; }
      idx.crawlComplete := true;
      idx.SweepOrphans();
  }

  lemma TakePageFlow(t: Tick, page: Page)
    ensures var n := TakePage(t, page);
            && n.target == t.target && n.failed == t.failed
            && (page.nextLink.Some? ==> !n.complete && n.url == page.nextLink.value && n.done == t.done)
            && (page.nextLink == None ==> n.complete && n.url == t.url && n.done)
  {
    hide ApplyAll;
  }

  // ---------------------------------------------------------------- the end of a tick

  /** The target has been saved, if there was anything to save. */
  ghost predicate TargetSaved(was: Files, files: Files, t: Tick, now: u64, codec: MetaCodec) {
    var name := NameOf(t.target);
    if t.dirty then OnlyDiffer(files, was, {name, name + TMP}) && name in files && IsEncoding(t.idx, now, codec, files[name])
    else files == was
  }

  /** The rebuild, saved or found, has been renamed over the live file. */
  ghost predicate TargetPromoted(was: Files, files: Files, t: Tick, now: u64, codec: MetaCodec) {
    && Promotes(t) && OnlyDiffer(files, was, {INDEX_FILE, REBUILD_FILE, REBUILD_FILE + TMP})
    && REBUILD_FILE !in files && INDEX_FILE in files
    && if t.dirty then IsEncoding(t.idx, now, codec, files[INDEX_FILE])
       else REBUILD_FILE in was && files[INDEX_FILE] == was[REBUILD_FILE]
  }

  /** What a tick leaves of the files, wherever it is cut: both as they were, but for a temporary
      file; or the target saved; or the rebuild promoted. A tick that failed leaves all as it was. */
  ghost predicate TickLeaves(was: Files, files: Files, t: Tick, now: u64, codec: MetaCodec) {
    || files == was
    || (!t.failed && OnlyDiffer(files, was, {NameOf(t.target), NameOf(t.target) + TMP}) && SameAt(files, was, NameOf(t.target)))
    || (!t.failed && TargetSaved(was, files, t, now, codec))
    || (!t.failed && TargetPromoted(was, files, t, now, codec))
  }

  /** A tick that got through: what it crawled is on file, promoted if it is a finished rebuild. */
  ghost predicate TickDone(was: Files, files: Files, t: Tick, now: u64, codec: MetaCodec) {
    !t.failed && if Promotes(t) then TargetPromoted(was, files, t, now, codec) else TargetSaved(was, files, t, now, codec)
  }

  /** Saves the index if there is anything to save. */
  method SaveTarget(dir: Directory, idx: Index, dirty: bool, target: Target, now: u64, codec: MetaCodec, ghost t: Tick)
    returns (ok: bool)
    requires t.idx == StateOf(idx) && t.dirty == dirty && t.target == target && !t.failed
    modifies dir`files, dir`seen
    ensures |dir.seen| >= |old(dir.seen)| && dir.seen[..|old(dir.seen)|] == old(dir.seen)
    ensures forall i :: |old(dir.seen)| <= i < |dir.seen| ==> TickLeaves(old(dir.files), dir.seen[i], t, now, codec)
    ensures TickLeaves(old(dir.files), dir.files, t, now, codec)
    ensures ok ==> TargetSaved(old(dir.files), dir.files, t, now, codec)
    ensures dir.writable ==> ok
  {
    hide IsEncoding;
    ok := true;
    if dirty {
      ghost var bytes;
      ok, bytes := Save(dir, NameOf(target), idx, now, codec);
    }
  }

  /** What a finished loop leaves to do: save if anything changed, then promote. */
  method Finish(dir: Directory, idx: Index, dirty: bool, complete: bool, target: Target, now: u64, codec: MetaCodec,
                ghost t: Tick) returns (ok: bool)
    requires t.idx == StateOf(idx) && t.dirty == dirty && t.complete == complete && t.target == target && !t.failed
    requires target == RebuildFile && !dirty ==> REBUILD_FILE in dir.files
    modifies dir`files, dir`seen
    ensures |dir.seen| >= |old(dir.seen)| && dir.seen[..|old(dir.seen)|] == old(dir.seen)
    ensures forall i :: |old(dir.seen)| <= i < |dir.seen| ==> TickLeaves(old(dir.files), dir.seen[i], t, now, codec)
    ensures TickLeaves(old(dir.files), dir.files, t, now, codec)
    ensures ok ==> TickDone(old(dir.files), dir.files, t, now, codec)
    ensures dir.writable ==> ok
  {
    hide TickLeaves, IsEncoding;
    ghost var was, from := dir.files, |dir.seen|;
    ok := SaveTarget(dir, idx, dirty, target, now, codec, t);
    if !ok { return; }
    if complete && target == RebuildFile {
      ghost var saved, seen := dir.files, dir.seen;
      ok := dir.Rename(REBUILD_FILE, INDEX_FILE);
      if ok { RenamedIsPromoted(was, saved, dir.files, t, now, codec); }
      forall i | from <= i < |dir.seen| ensures TickLeaves(was, dir.seen[i], t, now, codec) {
        if i < |seen| { assert dir.seen[i] == seen[i]; }
      }
    }
  }

  lemma RenamedIsPromoted(was: Files, saved: Files, files: Files, t: Tick, now: u64, codec: MetaCodec)
    requires TargetSaved(was, saved, t, now, codec) && Promotes(t) && !t.failed && REBUILD_FILE in saved
    requires files == (saved - {REBUILD_FILE})[INDEX_FILE := saved[REBUILD_FILE]]
    ensures TargetPromoted(was, files, t, now, codec) && TickLeaves(was, files, t, now, codec)
  {
    hide IsEncoding;
    NamesDiffer(RebuildFile);
    forall n | n !in {INDEX_FILE, REBUILD_FILE, REBUILD_FILE + TMP} ensures SameAt(files, was, n) {
      assert SameAt(saved, was, n);
    }
  }

  // ---------------------------------------------------------------- what the files load as afterwards

  /** What the end of a tick may leave behind. */
  predicate Outcome(store: Store, t: Tick, next: Store) {
    next == store || next == Saved(store, t) || (Promotes(t) && next == Promoted(Saved(store, t)))
  }

  lemma NotSaved(was: Files, files: Files, target: Target, codec: MetaCodec)
    requires SameAt(files, was, NameOf(target)) && OnlyDiffer(files, was, {NameOf(target), NameOf(target) + TMP})
    ensures StoreOf(files, codec) == StoreOf(was, codec) && (FilesOk(files, codec) <==> FilesOk(was, codec))
  {
    hide StoreOf, FilesOk;
    NamesDiffer(target);
    SameStore(files, was, codec);
  }

  /** Wherever a tick is cut, the two files load as one of its states; and as its last one if it got
      through. */
  lemma TickLoads(was: Files, files: Files, t: Tick, now: u64, codec: MetaCodec)
    requires FilesOk(was, codec) && Faithful(codec) && (t.dirty ==> Savable(t.idx, now, codec))
    requires TickLeaves(was, files, t, now, codec)
    ensures FilesOk(files, codec) && Outcome(StoreOf(was, codec), t, StoreOf(files, codec))
    ensures t.failed ==> StoreOf(files, codec) == StoreOf(was, codec)
    ensures TickDone(was, files, t, now, codec) ==>
              var store := StoreOf(was, codec);
              StoreOf(files, codec) == if Promotes(t) then Promoted(Saved(store, t)) else Saved(store, t)
  {
    hide StoreOf, FilesOk, IsEncoding, Savable, Faithful, Reload;
    if OnlyDiffer(files, was, {NameOf(t.target), NameOf(t.target) + TMP}) && SameAt(files, was, NameOf(t.target)) {
      NotSaved(was, files, t.target, codec);
    }
    if TargetSaved(was, files, t, now, codec) { SavedLoads(was, files, t, now, codec); }
    if TargetPromoted(was, files, t, now, codec) { PromotedLoads(was, files, t, now, codec); }
  }

  lemma SavedLoads(was: Files, files: Files, t: Tick, now: u64, codec: MetaCodec)
    requires FilesOk(was, codec) && Faithful(codec) && (t.dirty ==> Savable(t.idx, now, codec))
    requires TargetSaved(was, files, t, now, codec)
    ensures FilesOk(files, codec) && StoreOf(files, codec) == Saved(StoreOf(was, codec), t)
  {
    hide StoreOf, FilesOk, IsEncoding, Savable, Faithful, Reload;
    if t.dirty { SavedStore(was, files, t.target, t.idx, now, codec, files[NameOf(t.target)]); }
  }

  lemma PromotedLoads(was: Files, files: Files, t: Tick, now: u64, codec: MetaCodec)
    requires FilesOk(was, codec) && Faithful(codec) && (t.dirty ==> Savable(t.idx, now, codec))
    requires TargetPromoted(was, files, t, now, codec)
    ensures FilesOk(files, codec) && StoreOf(files, codec) == Promoted(Saved(StoreOf(was, codec), t))
  {
    hide IsEncoding, Decode, TableInRange, Faithful, WellFormed, GoodNames, StateFits, Reload;
    if t.dirty { SaveThenLoad(t.idx, now, codec, files[INDEX_FILE]); }
  }

  // ---------------------------------------------------------------- files of an older format

  /** Metadata without a build time, or without totals for a finished crawl; unreadable metadata
      counts as current. */
  predicate Outdated(bytes: Str, codec: MetaCodec) {
    var header := ParseHeader(ReadAt(bytes, 0, HEADER_LEN));
    header.Success? &&
    var meta := codec.read(ReadAt(bytes, header.value.metaOff, header.value.metaLen));
    meta.Some? && (meta.value.builtAt == 0 || (meta.value.totalDirs == 0 && meta.value.cursor.crawlComplete))
  }

  predicate LiveOutdated(files: Files, codec: MetaCodec) {
    INDEX_FILE in files && Outdated(files[INDEX_FILE], codec)
  }

  method NeedsRewrite(dir: Directory, codec: MetaCodec) returns (legacy: bool)
    ensures legacy ==> LiveOutdated(dir.files, codec)
    ensures dir.readable ==> legacy == LiveOutdated(dir.files, codec)
  {
    hide ReadAt;
    legacy := false;
    var header := dir.ReadRange(INDEX_FILE, 0, HEADER_LEN);
    if header.Success? && header.value.Some? && |header.value.value| >= HEADER_LEN {
      var h := ParseHeader(header.value.value);
      if h.Success? {
        var meta := dir.ReadRange(INDEX_FILE, h.value.metaOff, h.value.metaLen);
        if meta.Success? && meta.value.Some? {
          var m := codec.read(meta.value.value);
          legacy := m.Some? && (m.value.builtAt == 0 || (m.value.totalDirs == 0 && m.value.cursor.crawlComplete));
        }
      }
    }
  }

  /** One rewrite is enough, except that a file written at time 0, or for a finished crawl that saw
      no root, is rewritten by every tick. */
  lemma RewrittenIsCurrent(s: State, now: u64, codec: MetaCodec, bytes: Str)
    requires WellFormed(s.tree) && GoodNames(s.tree) && Faithful(codec) && StateFits(s, now, codec)
    requires IsEncoding(s, now, codec, bytes)
    ensures Outdated(bytes, codec) <==> now == 0 || (s.cursor.crawlComplete && s.tree.root == None)
  {
    hide HeaderBytes, FileBytes, Rows, Blocks, TableBytes, At, ReadAt, ParseHeader, IsDirList, StringsFit, WellFormed, GoodNames;
    var dirs :| IsDirList(s.tree, dirs) && bytes == FileBytes(s.tree, dirs, codec.write(MetaOf(s, dirs, now)));
    var meta := codec.write(MetaOf(s, dirs, now));
    var h := HeaderOf(s.tree, dirs, meta);
    FileParts(s.tree, dirs, meta);
    HeaderFits(s.tree, dirs, meta);
    ReadAtIs(bytes, 0, HeaderBytes(h));
    AtWhole(HeaderBytes(h));
    HeaderIsRead(HeaderBytes(h), h);
    ReadAtIs(bytes, h.metaOff, meta);
    NoDirsIffNoRoot(s.tree, dirs);
  }

  lemma NoDirsIffNoRoot(t: Tree, dirs: seq<Dir>)
    requires WellFormed(t) && IsDirList(t, dirs)
    ensures |dirs| == 0 <==> t.root == None
  {
    hide Climb, Agree, UniqueSiblings;
    if t.root.Some? {
      RootHasRow(t);
    } else if |dirs| > 0 {
      assert dirs[0] in dirs;
      NoRootNoPath(t, dirs[0].id);
    }
  }

  // ---------------------------------------------------------------- the tick

  /** Starts over: an empty index of the next generation, aimed at the file the live snapshot leaves
      free. */
  method Restart(dir: Directory, before: Index, codec: MetaCodec) returns (idx: Index, target: Target, ghost seen: Option<State>)
    requires TablesInRange(dir.files, codec)
    ensures fresh(idx)
    ensures StateOf(idx) == State(EMPTY_TREE, FRESH_CURSOR.(generation := NextGeneration(before.generation)))
    ensures target == if Served(seen) then RebuildFile else LiveFile
    ensures Opens(StoreOf(dir.files, codec), seen) && (dir.readable ==> seen == StoreOf(dir.files, codec).live)
  {
    hide StoreOf, TablesInRange, Served;
    idx := new Index();
    idx.generation := NextGeneration(before.generation);
    var served;
    served, seen := LiveIsServed(dir, codec);
    target := if served then RebuildFile else LiveFile;
  }

  /** The loop: at most `maxPages` requests, fewer when the crawl ends, an answer is an error, or
      the time budget is over after a page. Returns the index it ends with, unless it failed, and
      what the last restart saw of the live file. */
  method Crawl(dir: Directory, start: Index, rebuilding: bool, initial: Str, maxPages: nat, graph: seq<Str -> Response>,
               late: seq<bool>, legacy: bool, codec: MetaCodec, ghost view: Store)
    returns (idx: Index, dirty: bool, complete: bool, target: Target, pages: nat, failed: bool, ghost again: Option<State>)
    requires |graph| >= maxPages && |late| >= maxPages && TablesInRange(dir.files, codec)
    requires StateOf(start) == Working(view) && rebuilding == view.rebuild.Some?
    modifies start
    ensures pages <= maxPages && Opens(StoreOf(dir.files, codec), again)
    ensures forall k :: 0 < k < pages ==> !late[k]
    ensures dir.readable ==> again == StoreOf(dir.files, codec).live
    ensures var t := RunTickSeeing(view, again, initial, legacy, AnswersSeeing(view, again, initial, legacy, graph[..pages]));
            && failed == t.failed
            && (pages == maxPages || t.done || t.failed || (pages > 0 && late[pages]))
            && (!failed ==> t.idx == StateOf(idx) && t.dirty == dirty && t.complete == complete && t.target == target)
  {
    hide RunTickSeeing, AnswersSeeing, Loop, ApplyAll, TakePage, StoreOf, TablesInRange, Served, NextGeneration, Reload, TableInRange;
    idx := start;
    target := if rebuilding then RebuildFile else LiveFile;
    var url := if idx.pendingNextLink.Some? then idx.pendingNextLink.value
               else if idx.deltaToken.Some? then idx.deltaToken.value else initial;
    dirty := legacy;
    complete := idx.crawlComplete && idx.pendingNextLink == None;
    var done := false;
    pages := 0;
    failed := false;
    again := StoreOf(dir.files, codec).live;
    ghost var t := Start(view, initial, legacy);
    assert graph[..0] == [];
    NoResponses(view, again, initial, legacy);
    while pages < maxPages && !done
      invariant pages <= maxPages && (idx == start || fresh(idx)) && Opens(StoreOf(dir.files, codec), again)
      invariant forall k :: 0 < k < pages ==> !late[k]
      invariant dir.readable ==> again == StoreOf(dir.files, codec).live
      invariant t == RunTickSeeing(view, again, initial, legacy, AnswersSeeing(view, again, initial, legacy, graph[..pages]))
      invariant t == Tick(StateOf(idx), url, dirty, complete, target, done, false)
      decreases maxPages - pages, !done
    {
      if late[pages] && pages > 0 {
        break;
      }
      SeeingSteps(view, again, initial, legacy, graph, pages);
      ghost var was := t;
      match graph[pages](url)
      case Got(page) =>
        t := TakePage(was, page);
        pages := pages + 1;
        var news := ApplyPage(idx, page, was);
        TakePageFlow(was, page);
        dirty := dirty || news;
        if page.nextLink.Some? {
          complete := false;
          url := page.nextLink.value;
        } else {
          complete := true;
          done := true;
        }
      case Resync =>
        dirty := true;
        url := initial;
        complete := false;
        ghost var seen;
        idx, target, seen := Restart(dir, idx, codec);
        RestartSees(view, again, seen, initial, legacy, graph, pages);
        again := seen;
        t := StartOver(was, Store(again, None), initial);
        pages := pages + 1;
      case Other =>
        pages := pages + 1;
        failed := true;
        return;
    }
  }

  /** Both files, where they are there, have their table in range. */
  ghost predicate TablesInRange(files: Files, codec: MetaCodec) {
    && (INDEX_FILE in files ==> TableInRange(files[INDEX_FILE], codec))
    && (REBUILD_FILE in files ==> TableInRange(files[REBUILD_FILE], codec))
  }

  /** One tick. `graph` is what each request would be answered, at any url, and `late` when the time
      budget is over. `view` is what the tick took the files for, and `again` what the last restart
      took the live file for; while reads do not fail both are what is on file. A file that cannot be
      read or decoded stops the tick before it does anything. Otherwise it asks at least once, and
      again until the page limit, the last page, an error or the end of the time budget, leaves the
      files as `TickLeaves` says wherever a call fails or a crash falls, and, unless an answer is an
      error or a call that writes fails, ends with what it crawled on file. */
  method RunInner(dir: Directory, initial: Str, maxPages: nat, graph: seq<Str -> Response>, late: seq<bool>, now: u64,
                  codec: MetaCodec)
    returns (ok: bool, pages: nat, ghost started: bool, ghost view: Store, ghost again: Option<State>, ghost legacy: bool)
    requires |graph| >= maxPages && |late| >= maxPages && TablesInRange(dir.files, codec)
    modifies dir`files, dir`seen
    ensures !started ==> !ok && pages == 0 && dir.files == old(dir.files) && dir.seen == old(dir.seen)
    ensures pages <= maxPages && (forall k :: 0 < k < pages ==> !late[k])
    ensures |dir.seen| >= |old(dir.seen)| && dir.seen[..|old(dir.seen)|] == old(dir.seen)
    ensures dir.readable ==> (started <==> FilesOk(old(dir.files), codec))
    ensures started ==>
              var store, answers := StoreOf(old(dir.files), codec), AnswersSeeing(view, again, initial, legacy, graph[..pages]);
              var t := RunTickSeeing(view, again, initial, legacy, answers);
              && Hides(store, view) && Opens(store, again) && (legacy ==> LiveOutdated(old(dir.files), codec))
              && (dir.readable ==> view == store && again == store.live && legacy == LiveOutdated(old(dir.files), codec))
              && (pages == maxPages || Ends(answers) || Breaks(answers) || (pages > 0 && late[pages]))
              && TickLeaves(old(dir.files), dir.files, t, now, codec)
              && (forall i :: |old(dir.seen)| <= i < |dir.seen| ==> TickLeaves(old(dir.files), dir.seen[i], t, now, codec))
              && (Breaks(answers) ==> !ok && dir.files == old(dir.files) && dir.seen == old(dir.seen))
              && (ok ==> TickDone(old(dir.files), dir.files, t, now, codec))
              && (dir.writable && !Breaks(answers) ==> ok)
  {
    hide RunTickSeeing, AnswersSeeing, Reload, StoreOf, FilesOk, Decode, Ends, Breaks, LiveOutdated, TickLeaves, TickDone;
    ghost var was := dir.files;
    again := None;
    var start, rebuilding, unread;
    start, rebuilding, unread, view := LoadWorking(dir, codec);
    started := !unread;
    legacy := false;
    if unread {
      ok, pages := false, 0;
      return;
    }
    var rewrite := NeedsRewrite(dir, codec);
    legacy := rewrite;
    var idx, dirty, complete, target, n, failed;
    idx, dirty, complete, target, n, failed, again :=
      Crawl(dir, start, rebuilding, initial, maxPages, graph, late, rewrite, codec, view);
    pages := n;
    ghost var answers := AnswersSeeing(view, again, initial, legacy, graph[..n]);
    ghost var t := RunTickSeeing(view, again, initial, legacy, answers);
    TickStops(view, again, initial, legacy, answers);
    if failed {
      NothingDone(was, t, now, codec);
      ok := false;
      return;
    }
    CleanRebuildIsThere(was, view, again, initial, legacy, answers, codec);
    ok := Finish(dir, idx, dirty, complete, target, now, codec, t);
  }

  lemma TickStops(view: Store, again: Option<State>, initial: Str, legacy: bool, rs: seq<Response>)
    ensures var t := RunTickSeeing(view, again, initial, legacy, rs); (t.done <==> Ends(rs)) && (t.failed <==> Breaks(rs))
  {
    LoopStops(Start(view, initial, legacy), Store(again, None), initial, rs);
  }

  lemma NothingDone(was: Files, t: Tick, now: u64, codec: MetaCodec)
    ensures TickLeaves(was, was, t, now, codec)
  {
  }

  /** A tick that has nothing to save and works on the rebuild found it on file. */
  lemma CleanRebuildIsThere(was: Files, view: Store, again: Option<State>, initial: Str, legacy: bool, answers: seq<Response>,
                            codec: MetaCodec)
    requires Hides(StoreOf(was, codec), view)
    ensures var t := RunTickSeeing(view, again, initial, legacy, answers);
            t.target == RebuildFile && !t.dirty ==> REBUILD_FILE in was
  {
    hide Loop;
    LoopDrifts(Start(view, initial, legacy), Start(view, initial, legacy), Store(again, None), initial, answers, false);
  }

  /** The index a tick works on: the rebuild, the live one or an empty one. */
  method LoadWorking(dir: Directory, codec: MetaCodec) returns (idx: Index, rebuilding: bool, failed: bool, ghost view: Store)
    requires TablesInRange(dir.files, codec)
    ensures fresh(idx)
    ensures dir.readable ==> (failed <==> !FilesOk(dir.files, codec)) && (!failed ==> view == StoreOf(dir.files, codec))
    ensures !failed ==> Hides(StoreOf(dir.files, codec), view) && StateOf(idx) == Working(view)
    ensures !failed ==> rebuilding == view.rebuild.Some?
  {
    hide Decode, TableInRange;
    failed := false;
    rebuilding := false;
    view := Store(None, None);
    var live := Load(dir, INDEX_FILE, codec);
    var rebuild := Load(dir, REBUILD_FILE, codec);
    if live.Failure? || rebuild.Failure? {
      idx := new Index();
      failed := true;
      return;
    }
    view := Store(if live.value == None then None else Some(StateOf(live.value.value)),
                  if rebuild.value == None then None else Some(StateOf(rebuild.value.value)));
    if rebuild.value.Some? {
      idx := rebuild.value.value;
      rebuilding := true;
    } else if live.value.Some? {
      idx := live.value.value;
    } else {
      idx := new Index();
    }
  }

  /** Whether there is a live snapshot worth serving; one that does not load counts as none. */
  method LiveIsServed(dir: Directory, codec: MetaCodec) returns (served: bool, ghost seen: Option<State>)
    requires TablesInRange(dir.files, codec)
    ensures Opens(StoreOf(dir.files, codec), seen) && served == Served(seen)
    ensures dir.readable ==> seen == StoreOf(dir.files, codec).live
  {
    hide Decode, TableInRange;
    var live := Load(dir, INDEX_FILE, codec);
    seen := if live.Success? && live.value.Some? then Some(StateOf(live.value.value)) else None;
    served := live.Success? && live.value.Some? && (live.value.value.crawlComplete || live.value.value.root.Some?);
  }
}
