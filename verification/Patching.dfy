/** Write-throughs and ticks on the same two files: every run of both, cut anywhere, is safe. */
module Patching {
  import opened Bytes
  import opened Namespace
  import opened Resolution
  import opened PathEdits
  import opened Kinds
  import opened Sweep
  import opened Snapshot
  import opened SnapshotDecode
  import opened StateFile
  import opened Sync
  import opened Resumption
  import opened SnapshotStore
  import opened SyncTick

  // ---------------------------------------------------------------- trees along a tick

  /** Every page holds items of the drive. */
  ghost predicate FeedOfDrive(d: Drive, rs: seq<Response>) {
    forall a, it :: a in rs && a.Got? && it in a.page.items ==> OfDrive(d, it)
  }

  lemma StepKeepsSound(t: Tick, store: Store, initial: Str, a: Response, d: Drive)
    requires Sound(t.idx.tree, d) && DriveOk(d) && FeedOfDrive(d, [a])
    ensures Sound(Step(t, store, initial, a).idx.tree, d)
  {
    hide Sound, OfDrive, DriveOk, SweepOrphans, ApplyAll;
    assert a in [a];
    if a.Got? {
      forall it | it in a.page.items ensures OfDrive(d, it) {}
      FeedKeepsSound(t.idx.tree, d, a.page.items);
      SweepKeepsSound(ApplyAll(t.idx.tree, a.page.items), d);
    } else {
      EmptyIsSound(d);
    }
  }

  /** Whatever a tick sees, its tree is a tree of the drive. */
  lemma {:induction false} LoopKeepsSound(t: Tick, store: Store, initial: Str, rs: seq<Response>, d: Drive)
    requires Sound(t.idx.tree, d) && DriveOk(d) && FeedOfDrive(d, rs)
    ensures Sound(Loop(t, store, initial, rs).idx.tree, d)
    decreases |rs|
  {
    hide Sound, DriveOk, OfDrive, Step;
    if rs != [] && !t.done && !t.failed {
      assert rs[0] in rs && forall a :: a in rs[1..] ==> a in rs;
      StepKeepsSound(t, store, initial, rs[0], d);
      LoopKeepsSound(Step(t, store, initial, rs[0]), store, initial, rs[1..], d);
    }
  }

  // ---------------------------------------------------------------- sound files

  /** The bytes are a whole encoding of a tree of the drive. */
  ghost predicate WrittenFrom(bytes: Str, s: State, now: u64, d: Drive, codec: MetaCodec) {
    Sound(s.tree, d) && StateFits(s, now, codec) && IsEncoding(s, now, codec, bytes)
  }

  ghost predicate Written(files: Files, name: string, d: Drive, codec: MetaCodec) {
    name in files ==> exists s, now :: WrittenFrom(files[name], s, now, d, codec)
  }

  /** Each of the two files is a whole encoding of a tree of the drive, and the two fit together. */
  ghost predicate SoundFiles(files: Files, d: Drive, codec: MetaCodec) {
    Written(files, INDEX_FILE, d, codec) && Written(files, REBUILD_FILE, d, codec) && StoreOk(StoreOf(files, codec))
  }

  lemma SoundIsSavable(s: State, d: Drive, now: u64, codec: MetaCodec)
    requires Sound(s.tree, d) && StateFits(s, now, codec)
    ensures Savable(s, now, codec)
  {
    hide Agree, UniqueSiblings, SoleRoot, GoodNames, Kinded, StateFits;
  }

  /** Such a file loads, as a tree of the drive. */
  lemma WrittenLoads(files: Files, name: string, d: Drive, codec: MetaCodec)
    requires Written(files, name, d, codec) && name in files && Faithful(codec) && DriveOk(d)
    ensures TableInRange(files[name], codec) && LoadOf(files, name, codec).Some?
    ensures Sound(LoadOf(files, name, codec).value.tree, d)
  {
    hide IsEncoding, Decode, TableInRange, Faithful, StateFits, Reload, Sound, DriveOk;
    var s, now :| WrittenFrom(files[name], s, now, d, codec);
    SoundIsSavable(s, d, now, codec);
    SaveThenLoad(s, now, codec, files[name]);
    ReloadKeepsSound(s.tree, d);
  }

  /** Both trees are trees of the drive. */
  ghost predicate SoundStore(store: Store, d: Drive) {
    && (store.live.Some? ==> Sound(store.live.value.tree, d))
    && (store.rebuild.Some? ==> Sound(store.rebuild.value.tree, d))
  }

  lemma SoundFilesLoad(files: Files, d: Drive, codec: MetaCodec)
    requires Written(files, INDEX_FILE, d, codec) && Written(files, REBUILD_FILE, d, codec) && Faithful(codec) && DriveOk(d)
    ensures FilesOk(files, codec) && TablesInRange(files, codec) && SoundStore(StoreOf(files, codec), d)
  {
    hide Decode, TableInRange, Faithful, Sound, DriveOk, Written;
    if INDEX_FILE in files { WrittenLoads(files, INDEX_FILE, d, codec); }
    if REBUILD_FILE in files { WrittenLoads(files, REBUILD_FILE, d, codec); }
  }

  lemma SameWritten(files: Files, was: Files, name: string, d: Drive, codec: MetaCodec)
    requires SameAt(files, was, name) && Written(was, name, d, codec)
    ensures Written(files, name, d, codec)
  {
    hide WrittenFrom;
  }

  // ---------------------------------------------------------------- a tick on files

  /** What a tick that took the files for `view` ends with is a tree of the drive. */
  lemma TickIsSound(view: Store, again: Option<State>, initial: Str, legacy: bool, rs: seq<Response>, d: Drive)
    requires SoundStore(view, d) && DriveOk(d) && FeedOfDrive(d, rs)
    ensures Sound(RunTickSeeing(view, again, initial, legacy, rs).idx.tree, d)
  {
    hide Sound, DriveOk, Loop;
    EmptyIsSound(d);
    LoopKeepsSound(Start(view, initial, legacy), Store(again, None), initial, rs, d);
  }

  /** Wherever a tick is cut, each file is a whole encoding of a tree of the drive. */
  lemma TickLeavesWritten(was: Files, files: Files, t: Tick, now: u64, d: Drive, codec: MetaCodec)
    requires Written(was, INDEX_FILE, d, codec) && Written(was, REBUILD_FILE, d, codec)
    requires Sound(t.idx.tree, d) && StateFits(t.idx, now, codec) && TickLeaves(was, files, t, now, codec)
    ensures Written(files, INDEX_FILE, d, codec) && Written(files, REBUILD_FILE, d, codec)
  {
    hide IsEncoding, Sound, StateFits;
    NamesDiffer(t.target);
    forall bytes | IsEncoding(t.idx, now, codec, bytes) ensures WrittenFrom(bytes, t.idx, now, d, codec) {}
    if OnlyDiffer(files, was, {NameOf(t.target), NameOf(t.target) + TMP}) {
      if SameAt(files, was, NameOf(t.target)) { SameWritten(files, was, NameOf(t.target), d, codec); }
      var other := if t.target == LiveFile then REBUILD_FILE else INDEX_FILE;
      SameWritten(files, was, other, d, codec);
    }
  }

  /** The tick on the files with these answers. */
  ghost function TickOn(files: Files, initial: Str, answers: seq<Response>, codec: MetaCodec): Tick {
    RunTick(StoreOf(files, codec), initial, LiveOutdated(files, codec), answers)
  }

  /** One tick with these answers, cut anywhere. What is asked of it is asked of Graph - items of the
      drive, a token on the last page - and of sizes. */
  ghost predicate TickedFiles(was: Files, files: Files, initial: Str, answers: seq<Response>, now: u64, d: Drive, codec: MetaCodec) {
    var t := TickOn(was, initial, answers, codec);
    && AllCarryToken(answers) && FeedOfDrive(d, answers) && StateFits(t.idx, now, codec)
    && TickLeaves(was, files, t, now, codec)
  }

  /** A tick step on files is safe. */
  lemma TickedIsSafe(was: Files, files: Files, initial: Str, answers: seq<Response>, now: u64, d: Drive, codec: MetaCodec)
    requires SoundFiles(was, d, codec) && Faithful(codec) && DriveOk(d)
    requires TickedFiles(was, files, initial, answers, now, d, codec)
    ensures SoundFiles(files, d, codec)
    ensures var store, next := StoreOf(was, codec), StoreOf(files, codec);
            GenerationKept(store, next) && (next == store || SafeStep(initial, store, next))
  {
    hide StoreOf, StoreOk, Written, Faithful, DriveOk, Sound, RunTick, TickLeaves, LiveOutdated, AllCarryToken, StateFits, LiveSafe,
         GenerationKept, FeedOfDrive, Savable, Saved, Promoted;
    var store, legacy := StoreOf(was, codec), LiveOutdated(was, codec);
    var t := RunTick(store, initial, legacy, answers);
    SoundFilesLoad(was, d, codec);
    SeeingAll(store, initial, legacy, answers);
    TickIsSound(store, store.live, initial, legacy, answers, d);
    SoundIsSavable(t.idx, d, now, codec);
    TickLeavesWritten(was, files, t, now, d, codec);
    TickLoads(was, files, t, now, codec);
    TickIsSafe(store, initial, legacy, answers, StoreOf(files, codec));
  }

  /** Whatever is asked, last pages carry a token and items are of the drive. */
  ghost predicate GraphOfDrive(d: Drive, graph: seq<Str -> Response>) {
    forall i, url :: 0 <= i < |graph| ==> CarriesToken(graph[i](url)) && FeedOfDrive(d, [graph[i](url)])
  }

  /** What a tick on the files is answered. */
  ghost function FilesAsk(files: Files, initial: Str, graph: seq<Str -> Response>, codec: MetaCodec): seq<Response> {
    var store := StoreOf(files, codec);
    AnswersSeeing(store, store.live, initial, LiveOutdated(files, codec), graph)
  }

  /** The sync handler: nothing if the index is switched off, else one tick. At its end and wherever
      it is cut the files stand for a tick step, and can take the next tick or write-through. */
  method Run(enabled: bool, dir: Directory, initial: Str, maxPages: nat, graph: seq<Str -> Response>, late: seq<bool>, now: u64,
             codec: MetaCodec, ghost d: Drive) returns (ok: bool, ghost pages: nat)
    requires |graph| >= maxPages && |late| >= maxPages && dir.readable
    requires SoundFiles(dir.files, d, codec) && Faithful(codec) && DriveOk(d) && GraphOfDrive(d, graph)
    requires forall k: nat :: k <= |graph| ==>
               StateFits(TickOn(dir.files, initial, FilesAsk(dir.files, initial, graph[..k], codec), codec).idx, now, codec)
    modifies dir`files, dir`seen
    ensures pages <= maxPages && |dir.seen| >= |old(dir.seen)|
    ensures var answers := FilesAsk(old(dir.files), initial, graph[..pages], codec);
            && TickedFiles(old(dir.files), dir.files, initial, answers, now, d, codec) && SoundFiles(dir.files, d, codec)
            && (forall i :: |old(dir.seen)| <= i < |dir.seen| ==>
                  TickedFiles(old(dir.files), dir.seen[i], initial, answers, now, d, codec) && SoundFiles(dir.seen[i], d, codec))
            && (enabled && ok ==> TickDone(old(dir.files), dir.files, TickOn(old(dir.files), initial, answers, codec), now, codec))
            && (enabled && dir.writable && !Breaks(answers) ==> ok)
    ensures !enabled ==> dir.files == old(dir.files) && dir.seen == old(dir.seen)
  {
    hide StoreOf, Faithful, DriveOk, RunTick, RunTickSeeing, AnswersSeeing, TickLeaves, TickDone, LiveOutdated, StateFits, FeedOfDrive, FilesOk,
         Written, AllCarryToken, TablesInRange, Ends, Breaks, GraphOfDrive;
    ghost var was, from := dir.files, |dir.seen|;
    ok, pages := true, 0;
    SoundFilesLoad(was, d, codec);
    ghost var t := TickOn(was, initial, FilesAsk(was, initial, graph[..0], codec), codec);
    if enabled {
      var n;
      ghost var started, view, again, legacy;
      ok, n, started, view, again, legacy := RunInner(dir, initial, maxPages, graph, late, now, codec);
      pages := n;
      ghost var asked := FilesAsk(was, initial, graph[..n], codec);
      SeeingAll(view, initial, legacy, asked);
      t := TickOn(was, initial, asked, codec);
    } else {
      NothingDone(was, t, now, codec);
    }
    ghost var answers := FilesAsk(was, initial, graph[..pages], codec);
    AnswersOfDrive(d, was, initial, graph, pages, codec);
    TickedIsSafe(was, dir.files, initial, answers, now, d, codec);
    forall i | from <= i < |dir.seen|
      ensures TickedFiles(was, dir.seen[i], initial, answers, now, d, codec) && SoundFiles(dir.seen[i], d, codec)
    {
      TickedIsSafe(was, dir.seen[i], initial, answers, now, d, codec);
    }
  }

  lemma AnswersOfDrive(d: Drive, files: Files, initial: Str, graph: seq<Str -> Response>, k: nat, codec: MetaCodec)
    requires k <= |graph| && GraphOfDrive(d, graph)
    ensures var answers := FilesAsk(files, initial, graph[..k], codec); AllCarryToken(answers) && FeedOfDrive(d, answers)
  {
    hide OfDrive, CarriesToken, StoreOf, Start, Answered;
    var store := StoreOf(files, codec);
    var answers := FilesAsk(files, initial, graph[..k], codec);
    forall a | a in answers ensures CarriesToken(a) && FeedOfDrive(d, [a]) {
      AnswersAreGiven(graph[..k], Start(store, initial, LiveOutdated(files, codec)), Store(store.live, None), initial, a);
      var i, url :| 0 <= i < k && graph[..k][i](url) == a;
      assert graph[i](url) == a;
    }
    forall a, it | a in answers && a.Got? && it in a.page.items ensures OfDrive(d, it) { assert a in [a]; }
  }

  /** A poll on files. Its requests reach a server that has these pages where the crawl of the snapshot
      on file goes on; if it may ask for all of them and gets through, the live file afterwards stands
      for one uninterrupted crawl over that snapshot, and there is no rebuild. */
  lemma PollOnFiles(server: Str -> Response, graph: seq<Str -> Response>, was: Files, files: Files, initial: Str, now: u64, d: Drive,
                    codec: MetaCodec, s: State, url: Str, pages: seq<Page>)
    requires SoundFiles(was, d, codec) && Faithful(codec) && DriveOk(d) && GraphOfDrive(d, graph)
    requires forall i, u :: 0 <= i < |graph| ==> graph[i](u) == server(u)
    requires WorksOn(StoreOf(was, codec), s) && GoesOnAt(s.cursor, initial, url)
    requires Serves(server, url, pages) && |graph| >= |pages| && !Idle(s.cursor, pages)
    requires var t := TickOn(was, initial, FilesAsk(was, initial, graph, codec), codec);
             StateFits(t.idx, now, codec) && TickDone(was, files, t, now, codec)
    ensures StoreOf(files, codec) == Store(Some(Reloaded(Crawled(s, pages, |pages|))), None)
  {
    hide StoreOf, StoreOk, Written, Faithful, DriveOk, Sound, RunTick, TickLeaves, TickDone, LiveOutdated, StateFits, GraphOfDrive, Savable,
         Saved, Promoted, Answered, Crawled, Idle, Serves, Follows, Reload, WorksOn, GoesOnAt;
    var store, legacy, rs := StoreOf(was, codec), LiveOutdated(was, codec), FilesAsk(was, initial, graph, codec);
    var t := RunTick(store, initial, legacy, rs);
    AskedPages(server, graph, store, initial, legacy, s, url, pages);
    FollowsSeeing(server, store, initial, legacy, rs);
    PollCrawlsOn(server, store, initial, legacy, rs, s, url, pages);
    SoundFilesLoad(was, d, codec);
    assert graph[..|graph|] == graph;
    AnswersOfDrive(d, was, initial, graph, |graph|, codec);
    SeeingAll(store, initial, legacy, rs);
    TickIsSound(store, store.live, initial, legacy, rs, d);
    SoundIsSavable(t.idx, d, now, codec);
    DoneLeaves(was, files, t, now, codec);
    TickLoads(was, files, t, now, codec);
  }

  /** An idle poll on files leaves them as they are, byte for byte, except that a rebuild it finds
      finished becomes the live file; unless the live file asks for the one-shot rewrite. */
  lemma IdlePollOnFiles(server: Str -> Response, graph: seq<Str -> Response>, was: Files, files: Files, initial: Str, now: u64, d: Drive,
                        codec: MetaCodec, live: State, since: u64, s: State, url: Str, page: Page)
    requires SoundFiles(was, d, codec) && Faithful(codec) && DriveOk(d)
    requires INDEX_FILE in was && WrittenFrom(was[INDEX_FILE], live, since, d, codec)
    requires since > 0 && (live.cursor.crawlComplete ==> live.tree.root.Some?)
    requires forall i, u :: 0 <= i < |graph| ==> graph[i](u) == server(u)
    requires WorksOn(StoreOf(was, codec), s) && GoesOnAt(s.cursor, initial, url)
    requires Serves(server, url, [page]) && |graph| >= 1 && Idle(s.cursor, [page])
    requires TickDone(was, files, TickOn(was, initial, FilesAsk(was, initial, graph, codec), codec), now, codec)
    ensures if REBUILD_FILE in was then REBUILD_FILE !in files && INDEX_FILE in files && files[INDEX_FILE] == was[REBUILD_FILE]
            else files == was
  {
    hide StoreOf, StoreOk, Written, IsEncoding, Faithful, DriveOk, Sound, RunTick, LiveOutdated, StateFits, Answered, Crawled, Idle, Serves,
         Follows, Reload, WorksOn, GoesOnAt;
    var store, legacy, rs := StoreOf(was, codec), LiveOutdated(was, codec), FilesAsk(was, initial, graph, codec);
    CurrentFile(was, live, since, d, codec);
    AskedPages(server, graph, store, initial, legacy, s, url, [page]);
    FollowsSeeing(server, store, initial, legacy, rs);
    PollCrawlsOn(server, store, initial, legacy, rs, s, url, [page]);
    SoundFilesLoad(was, d, codec);
    assert REBUILD_FILE in was <==> store.rebuild.Some? by { LoadedIffThere(was, codec); }
  }

  lemma CurrentFile(was: Files, live: State, since: u64, d: Drive, codec: MetaCodec)
    requires INDEX_FILE in was && WrittenFrom(was[INDEX_FILE], live, since, d, codec) && Faithful(codec)
    requires since > 0 && (live.cursor.crawlComplete ==> live.tree.root.Some?)
    ensures !LiveOutdated(was, codec)
  {
    hide Outdated, IsEncoding, StateFits, Faithful, Kinded, Agree, UniqueSiblings, SoleRoot, GoodNames;
    RewrittenIsCurrent(live, since, codec, was[INDEX_FILE]);
  }

  lemma LoadedIffThere(was: Files, codec: MetaCodec)
    requires FilesOk(was, codec)
    ensures REBUILD_FILE in was <==> StoreOf(was, codec).rebuild.Some?
  {
    hide Decode, TableInRange;
  }

  lemma DoneLeaves(was: Files, files: Files, t: Tick, now: u64, codec: MetaCodec)
    requires TickDone(was, files, t, now, codec)
    ensures TickLeaves(was, files, t, now, codec)
  {
    hide IsEncoding;
  }

  lemma AskedPages(server: Str -> Response, graph: seq<Str -> Response>, store: Store, initial: Str, legacy: bool, s: State, url: Str,
                   pages: seq<Page>)
    requires forall i, u :: 0 <= i < |graph| ==> graph[i](u) == server(u)
    requires WorksOn(store, s) && GoesOnAt(s.cursor, initial, url) && Serves(server, url, pages) && |graph| >= |pages|
    ensures var rs := AnswersSeeing(store, store.live, initial, legacy, graph);
            |rs| == |pages| && Other !in rs && Follows(server, Start(store, initial, legacy), Store(store.live, None), initial, rs)
  {
    hide Answered, Serves, Follows;
    AnsweredPages(server, graph, Start(store, initial, legacy), Store(store.live, None), initial, pages);
  }

  lemma FollowsSeeing(server: Str -> Response, store: Store, initial: Str, legacy: bool, rs: seq<Response>)
    requires Follows(server, Start(store, initial, legacy), Store(store.live, None), initial, rs)
    ensures Follows(server, Start(store, initial, legacy), store, initial, rs)
  {
    FollowsSame(server, Start(store, initial, legacy), Store(store.live, None), store, initial, rs);
  }

  lemma {:induction false} FollowsSame(server: Str -> Response, t: Tick, s1: Store, s2: Store, initial: Str, rs: seq<Response>)
    requires Follows(server, t, s1, initial, rs) && s1.live == s2.live
    ensures Follows(server, t, s2, initial, rs)
    decreases |rs|
  {
    hide TakePage;
    if rs != [] && !t.done && !t.failed { FollowsSame(server, Step(t, s1, initial, rs[0]), s1, s2, initial, rs[1..]); }
  }

  /** The exact condition of `UnopenedSafeIff`, on files: of a tick that took them for `view` and
      saved its target over one of them. */
  lemma UnopenedFilesSafeIff(was: Files, files: Files, view: Store, again: Option<State>, initial: Str, legacy: bool,
                             rs: seq<Response>, now: u64, d: Drive, codec: MetaCodec)
    requires SoundFiles(was, d, codec) && Faithful(codec) && DriveOk(d) && AllCarryToken(rs) && FeedOfDrive(d, rs)
    requires Hides(StoreOf(was, codec), view) && Opens(StoreOf(was, codec), again) && Served(StoreOf(was, codec).live)
    requires var t := RunTickSeeing(view, again, initial, legacy, rs);
             && !t.failed && t.dirty && Reloaded(t.idx) != StoreOf(was, codec).live.value && StateFits(t.idx, now, codec)
             && TargetSaved(was, files, t, now, codec)
    ensures var t, store := RunTickSeeing(view, again, initial, legacy, rs), StoreOf(was, codec);
            LiveSafe(store, Working(view), Restarts(rs), t, StoreOf(files, codec)) <==>
              if Restarts(rs) == 0 then view.live.Some? || view.rebuild.Some?
              else again.Some? || (store.rebuild == None && Ends(rs)
                                   && Above(Raised(Working(view).cursor.generation, Restarts(rs)), store.live.value.cursor.generation))
  {
    hide StoreOf, StoreOk, Written, Faithful, DriveOk, Sound, RunTickSeeing, TargetSaved, AllCarryToken, StateFits, LiveSafe, FeedOfDrive,
         Savable, Saved, FilesOk, Restarts, Ends, Above, Raised, Served, Reload;
    var t := RunTickSeeing(view, again, initial, legacy, rs);
    SoundFilesLoad(was, d, codec);
    TickIsSound(view, again, initial, legacy, rs, d);
    SoundIsSavable(t.idx, d, now, codec);
    SavedLoads(was, files, t, now, codec);
    UnopenedSafeIff(StoreOf(was, codec), view, again, initial, legacy, rs);
  }

  // ---------------------------------------------------------------- a patch on files

  /** The patch is of the drive, and what it makes fits the format. */
  ghost predicate MayWrite(s: State, p: Patch, now: u64, d: Drive, codec: MetaCodec) {
    PatchOfDrive(s.tree, d, p) && StateFits(s.(tree := Patched(s.tree, p).0), now, codec)
  }

  /** If the patch applies at all, it may be written. */
  ghost predicate MayPatch(files: Files, p: Patch, now: u64, d: Drive, codec: MetaCodec) {
    Takes(files, p, codec) ==> MayWrite(Decode(files[INDEX_FILE], codec).value, p, now, d, codec)
  }

  /** The state a rewritten file stands for. */
  lemma RewrittenFrom(was: Files, files: Files, p: Patch, now: u64, d: Drive, codec: MetaCodec)
    requires SoundStore(StoreOf(was, codec), d) && DriveOk(d) && MayPatch(was, p, now, d, codec)
    requires Rewritten(was, files, p, now, codec)
    ensures var s := Decode(was[INDEX_FILE], codec).value;
            && StoreOf(was, codec).live == Some(s) && Patched(s.tree, p).1
            && WrittenFrom(files[INDEX_FILE], s.(tree := Patched(s.tree, p).0), now, d, codec)
            && (s.tree.root.Some? ==> Patched(s.tree, p).0.root.Some?)
  {
    hide Decode, TableInRange, IsEncoding, Patched, Sound, StateFits, DriveOk, PatchOfDrive;
    PatchKeepsSound(Decode(was[INDEX_FILE], codec).value.tree, d, p);
  }

  /** Rewriting the live file is a write-through of the two files. */
  lemma RewriteIsWriteStep(was: Files, files: Files, p: Patch, now: u64, d: Drive, codec: MetaCodec)
    requires SoundFiles(was, d, codec) && Faithful(codec) && DriveOk(d) && MayPatch(was, p, now, d, codec)
    requires OnlyDiffer(files, was, {INDEX_FILE, INDEX_FILE + TMP}) && Rewritten(was, files, p, now, codec)
    ensures WriteStep(StoreOf(was, codec), p, StoreOf(files, codec)) && SoundFiles(files, d, codec)
  {
    hide Decode, TableInRange, IsEncoding, Patched, Sound, Faithful, Reload, DriveOk, MayPatch, StateFits, StoreOk, Savable, LoadOf;
    SoundFilesLoad(was, d, codec);
    RewrittenFrom(was, files, p, now, d, codec);
    var s := Decode(was[INDEX_FILE], codec).value;
    var n := s.(tree := Patched(s.tree, p).0);
    SoundIsSavable(n, d, now, codec);
    SavedStore(was, files, LiveFile, n, now, codec, files[INDEX_FILE]);
    WriteIsSafe(StoreOf(was, codec), p, StoreOf(files, codec));
    NamesDiffer(LiveFile);
    SameWritten(files, was, REBUILD_FILE, d, codec);
  }

  /** Whatever a patch leaves behind, at its end or where it was cut, the two files load as before
      or as after a write-through, and stay sound. */
  lemma PatchIsWriteStep(was: Files, files: Files, p: Patch, now: u64, d: Drive, codec: MetaCodec)
    requires SoundFiles(was, d, codec) && Faithful(codec) && DriveOk(d) && MayPatch(was, p, now, d, codec)
    requires PatchedFiles(was, files, p, now, codec)
    ensures SoundFiles(files, d, codec)
    ensures StoreOf(files, codec) == StoreOf(was, codec) || WriteStep(StoreOf(was, codec), p, StoreOf(files, codec))
  {
    hide StoreOf, Rewritten, MayPatch, WriteStep, Faithful, DriveOk, Written, StoreOk, FilesOk;
    if SameAt(files, was, INDEX_FILE) {
      NotSaved(was, files, LiveFile, codec);
      NamesDiffer(LiveFile);
      SameWritten(files, was, INDEX_FILE, d, codec);
      SameWritten(files, was, REBUILD_FILE, d, codec);
    } else {
      RewriteIsWriteStep(was, files, p, now, d, codec);
    }
  }

  /** A handler's write-through: nothing if the index is switched off, else the patch. In every
      state on the way the files load as before or as after it and can take the next tick or
      write-through, and as long as no call fails a patch that applies is on file. */
  method WriteThrough(enabled: bool, dir: Directory, p: Patch, now: u64, codec: MetaCodec, ghost d: Drive)
    requires SoundFiles(dir.files, d, codec) && Faithful(codec) && DriveOk(d) && MayPatch(dir.files, p, now, d, codec)
    modifies dir`files, dir`seen
    ensures var was := old(dir.files);
            && SoundFiles(dir.files, d, codec) && PatchedFiles(was, dir.files, p, now, codec)
            && (StoreOf(dir.files, codec) == StoreOf(was, codec) || WriteStep(StoreOf(was, codec), p, StoreOf(dir.files, codec)))
            && |dir.seen| >= |old(dir.seen)|
            && (forall i :: |old(dir.seen)| <= i < |dir.seen| ==>
                  && SoundFiles(dir.seen[i], d, codec) && PatchedFiles(was, dir.seen[i], p, now, codec)
                  && (StoreOf(dir.seen[i], codec) == StoreOf(was, codec)
                      || WriteStep(StoreOf(was, codec), p, StoreOf(dir.seen[i], codec))))
            && (enabled && dir.readable && dir.writable && Takes(was, p, codec) ==>
                  Rewritten(was, dir.files, p, now, codec) && WriteStep(StoreOf(was, codec), p, StoreOf(dir.files, codec)))
            && (!enabled || !Takes(was, p, codec) ==> dir.files == was && dir.seen == old(dir.seen))
  {
    hide StoreOf, Rewritten, MayPatch, WriteStep, Faithful, Takes, DriveOk, SoundFiles, FilesOk, TablesInRange, Written;
    if enabled {
      ghost var was, from := dir.files, |dir.seen|;
      LiveInRange(was, d, codec);
      Mutate(dir, p, now, codec);
      PatchIsWriteStep(was, dir.files, p, now, d, codec);
      forall i | from <= i < |dir.seen|
        ensures SoundFiles(dir.seen[i], d, codec)
        ensures StoreOf(dir.seen[i], codec) == StoreOf(was, codec) || WriteStep(StoreOf(was, codec), p, StoreOf(dir.seen[i], codec))
      {
        PatchIsWriteStep(was, dir.seen[i], p, now, d, codec);
      }
      if dir.readable && dir.writable && Takes(was, p, codec) { RewriteIsWriteStep(was, dir.files, p, now, d, codec); }
    }
  }

  lemma LiveInRange(files: Files, d: Drive, codec: MetaCodec)
    requires SoundFiles(files, d, codec) && Faithful(codec) && DriveOk(d)
    ensures INDEX_FILE in files ==> TableInRange(files[INDEX_FILE], codec)
  {
    hide TableInRange, Written, Faithful, DriveOk, StoreOk;
    SoundFilesLoad(files, d, codec);
  }

  // ---------------------------------------------------------------- runs on files

  /** One step on the files: a tick, or a write-through, either of them up to wherever it was cut. */
  ghost predicate FileStep(was: Files, files: Files, initial: Str, d: Drive, codec: MetaCodec) {
    || (exists answers, now :: TickedFiles(was, files, initial, answers, now, d, codec))
    || (exists p, now :: MayPatch(was, p, now, d, codec) && PatchedFiles(was, files, p, now, codec))
  }

  ghost predicate IsFileRun(run: seq<Files>, initial: Str, d: Drive, codec: MetaCodec) {
    && run != [] && INDEX_FILE !in run[0] && REBUILD_FILE !in run[0]
    && forall i :: 0 <= i < |run| - 1 ==> FileStep(run[i], run[i + 1], initial, d, codec)
  }

  /** Whatever ticks and write-throughs run on the files, and wherever they are cut: both files are
      whole encodings of trees of the drive, so they can always be decoded and the next tick or
      write-through may come; a rebuild only stands beside a served live snapshot and ahead of it;
      generations never fall; and a served live snapshot is only kept, carried forward, patched or
      replaced by a complete crawl. Nothing is asked of the files on the way: only that Graph answers
      with items of the one drive, that patches are of that drive, and that sizes fit. */
  lemma {:induction false} FileRunsAreSafe(run: seq<Files>, initial: Str, d: Drive, codec: MetaCodec, i: nat)
    requires IsFileRun(run, initial, d, codec) && Faithful(codec) && DriveOk(d) && i < |run|
    ensures SoundFiles(run[i], d, codec) && FilesOk(run[i], codec) && SoundStore(StoreOf(run[i], codec), d)
    ensures i > 0 ==>
              var store, next := StoreOf(run[i - 1], codec), StoreOf(run[i], codec);
              GenerationKept(store, next) && (next == store || SafeStep(initial, store, next))
    decreases i
  {
    hide FileStep, FilesOk, StoreOf, StoreOk, GenerationKept, SafeStep, Faithful, DriveOk, Written, TablesInRange, SoundStore;
    if i == 0 {
      NoFiles(run[0], d, codec);
    } else {
      FileRunsAreSafe(run, initial, d, codec, i - 1);
      assert FileStep(run[i - 1], run[i - 1 + 1], initial, d, codec);
      FileStepIsSafe(run[i - 1], run[i], initial, d, codec);
    }
    SoundFilesLoad(run[i], d, codec);
  }

  lemma NoFiles(files: Files, d: Drive, codec: MetaCodec)
    requires INDEX_FILE !in files && REBUILD_FILE !in files
    ensures SoundFiles(files, d, codec)
  {
  }

  lemma FileStepIsSafe(was: Files, files: Files, initial: Str, d: Drive, codec: MetaCodec)
    requires FileStep(was, files, initial, d, codec) && Faithful(codec) && DriveOk(d) && SoundFiles(was, d, codec)
    ensures SoundFiles(files, d, codec)
    ensures var store, next := StoreOf(was, codec), StoreOf(files, codec);
            GenerationKept(store, next) && (next == store || SafeStep(initial, store, next))
  {
    hide StoreOf, StoreOk, Faithful, MayPatch, PatchedFiles, TickedFiles, TickStep, WriteStep, LiveSafe, RunTick, DriveOk, Written;
    var store, next := StoreOf(was, codec), StoreOf(files, codec);
    if answers, now :| TickedFiles(was, files, initial, answers, now, d, codec) {
      TickedIsSafe(was, files, initial, answers, now, d, codec);
    } else {
      var p, now :| MayPatch(was, p, now, d, codec) && PatchedFiles(was, files, p, now, codec);
      PatchIsWriteStep(was, files, p, now, d, codec);
      if next != store { WriteIsSafe(store, p, next); }
    }
  }
}
