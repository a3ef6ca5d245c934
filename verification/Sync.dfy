/** The bounded sync tick as steps over two files: the live snapshot and the shadow rebuild. */
module Sync {
  import opened Bytes
  import opened Namespace
  import opened PathEdits
  import opened Sweep
  import opened Snapshot
  import opened SnapshotDecode

  datatype Page = Page(items: seq<DeltaItem>, nextLink: Option<Str>, deltaToken: Option<Str>)

  /** What one `/delta` request yields: a page, a demand to start over, or any other error. */
  datatype Response = Got(page: Page) | Resync | Other

  datatype Target = LiveFile | RebuildFile

  /** What loading each of the two files would return. */
  datatype Store = Store(live: Option<State>, rebuild: Option<State>)

  const FRESH_CURSOR := Cursor(None, None, false, 0)
  const EMPTY_STATE := State(EMPTY_TREE, FRESH_CURSOR)

  /** A saved state as it loads again. */
  function Reloaded(s: State): State { s.(tree := Reload(s.tree)) }

  datatype Tick = Tick(idx: State, url: Str, dirty: bool, complete: bool, target: Target, done: bool, failed: bool)

  function StartUrl(c: Cursor, initial: Str): Str {
    if c.pendingNextLink.Some? then c.pendingNextLink.value
    else if c.deltaToken.Some? then c.deltaToken.value
    else initial
  }

  /** The state a tick works on: the rebuild if there is one, else the live snapshot, else an
      empty index. */
  function Working(store: Store): State {
    if store.rebuild.Some? then store.rebuild.value
    else if store.live.Some? then store.live.value
    else EMPTY_STATE
  }

  predicate Settled(c: Cursor) { c.crawlComplete && c.pendingNextLink == None }

  function Start(store: Store, initial: Str, legacy: bool): Tick {
    var idx := Working(store);
    Tick(idx, StartUrl(idx.cursor, initial), legacy, Settled(idx.cursor),
         if store.rebuild.Some? then RebuildFile else LiveFile, false, false)
  }

  /** A live snapshot worth serving while a rebuild runs. */
  predicate Served(live: Option<State>) {
    live.Some? && (live.value.cursor.crawlComplete || live.value.tree.root.Some?)
  }

  function NextGeneration(g: u64): u64 { if g == U64_SPAN - 1 then g else g + 1 }

  ghost function TakePage(t: Tick, page: Page): Tick {
    var tree := ApplyAll(t.idx.tree, page.items);
    var c := t.idx.cursor;
    var dirty := t.dirty || page.items != [];
    if page.nextLink.Some? then
      t.(idx := State(tree, c.(pendingNextLink := page.nextLink, crawlComplete := false)),
         url := page.nextLink.value, dirty := dirty || c.pendingNextLink != page.nextLink, complete := false)
    else
      t.(idx := State(SweepOrphans(tree),
                      c.(pendingNextLink := None, crawlComplete := true,
                         deltaToken := if page.deltaToken.Some? then page.deltaToken else c.deltaToken)),
         dirty := dirty || c.deltaToken != page.deltaToken || c.pendingNextLink.Some?,
         complete := true, done := true)
  }

  function StartOver(t: Tick, store: Store, initial: Str): Tick {
    t.(idx := State(EMPTY_TREE, FRESH_CURSOR.(generation := NextGeneration(t.idx.cursor.generation))),
       url := initial, dirty := true, complete := false,
       target := if Served(store.live) then RebuildFile else LiveFile)
  }

  ghost function Step(t: Tick, store: Store, initial: Str, r: Response): Tick {
    match r
    case Got(page) => TakePage(t, page)
    case Resync => StartOver(t, store, initial)
    case Other => t.(failed := true)
  }

  /** The loop over the responses it gets to see before the page or time budget ends it. */
  ghost function Loop(t: Tick, store: Store, initial: Str, rs: seq<Response>): Tick
    decreases |rs|
  {
    if rs == [] || t.done || t.failed then t else Loop(Step(t, store, initial, rs[0]), store, initial, rs[1..])
  }

  ghost function RunTick(store: Store, initial: Str, legacy: bool, rs: seq<Response>): Tick {
    Loop(Start(store, initial, legacy), store, initial, rs)
  }

  function Saved(store: Store, t: Tick): Store {
    if !t.dirty then store
    else if t.target == RebuildFile then store.(rebuild := Some(Reloaded(t.idx)))
    else store.(live := Some(Reloaded(t.idx)))
  }

  predicate Promotes(t: Tick) { t.complete && t.target == RebuildFile }

  /** Renames the rebuild over the live file. */
  function Promoted(store: Store): Store { Store(store.rebuild, None) }

  /** Everything a tick can leave behind: nothing new (an error, a failed save, a crash before
      the save), the saved target (a crash or an error before the promotion), or the end. */
  ghost predicate TickStep(store: Store, initial: Str, legacy: bool, rs: seq<Response>, next: Store) {
    var t := RunTick(store, initial, legacy, rs);
    || next == store
    || (!t.failed && next == Saved(store, t))
    || (!t.failed && Promotes(t) && next == Promoted(Saved(store, t)))
  }

  /** A write-through patches the live snapshot's tree under its cursor; this one does not take
      the root away. */
  ghost predicate WriteStep(store: Store, p: Patch, next: Store) {
    && store.live.Some? && Patched(store.live.value.tree, p).1
    && (store.live.value.tree.root.Some? ==> Patched(store.live.value.tree, p).0.root.Some?)
    && next == store.(live := Some(Reloaded(store.live.value.(tree := Patched(store.live.value.tree, p).0))))
  }

  // ---------------------------------------------------------------- cursors

  /** A snapshot is fresh (no token, no link, incomplete), crawling (a link, incomplete) or
      settled (a token, no link, complete). */
  predicate CursorOk(c: Cursor) {
    || (c.deltaToken == None && c.pendingNextLink == None && !c.crawlComplete)
    || (c.pendingNextLink.Some? && !c.crawlComplete)
    || (c.deltaToken.Some? && c.pendingNextLink == None && c.crawlComplete)
  }

  /** The last page of a crawl carries the token of the next one. */
  predicate CarriesToken(r: Response) {
    r.Got? && r.page.nextLink == None ==> r.page.deltaToken.Some?
  }

  predicate AllCarryToken(rs: seq<Response>) { forall r :: r in rs ==> CarriesToken(r) }

  predicate TickOk(t: Tick) {
    CursorOk(t.idx.cursor) && (t.complete <==> Settled(t.idx.cursor))
  }

  lemma {:induction false} LoopKeepsCursor(t: Tick, store: Store, initial: Str, rs: seq<Response>)
    requires TickOk(t) && AllCarryToken(rs)
    ensures TickOk(Loop(t, store, initial, rs))
    decreases |rs|
  {
    if rs != [] && !t.done && !t.failed {
      assert CarriesToken(rs[0]);
      LoopKeepsCursor(Step(t, store, initial, rs[0]), store, initial, rs[1..]);
    }
  }

  // ---------------------------------------------------------------- what a tick works on

  /** How often the crawl starts over before it ends. */
  function Restarts(rs: seq<Response>): nat {
    if rs == [] then 0
    else match rs[0]
      case Got(page) => if page.nextLink.Some? then Restarts(rs[1..]) else 0
      case Resync => 1 + Restarts(rs[1..])
      case Other => 0
  }

  /** Whether the last page of the crawl comes. */
  predicate Ends(rs: seq<Response>) {
    if rs == [] then false
    else match rs[0]
      case Got(page) => page.nextLink.Some? ==> Ends(rs[1..])
      case Resync => Ends(rs[1..])
      case Other => false
  }

  /** Whether an error comes before it. */
  predicate Breaks(rs: seq<Response>) {
    if rs == [] then false
    else match rs[0]
      case Got(page) => page.nextLink.Some? && Breaks(rs[1..])
      case Resync => Breaks(rs[1..])
      case Other => true
  }

  /** A tick ends its crawl, or fails, exactly when the responses say so. */
  lemma {:induction false} LoopStops(t: Tick, store: Store, initial: Str, rs: seq<Response>)
    requires !t.done && !t.failed
    ensures Loop(t, store, initial, rs).done <==> Ends(rs)
    ensures Loop(t, store, initial, rs).failed <==> Breaks(rs)
    decreases |rs|
  {
    hide ApplyAll, SweepOrphans;
    if rs != [] {
      var n := Step(t, store, initial, rs[0]);
      if n.done || n.failed {
        assert Loop(n, store, initial, rs[1..]) == n;
      } else {
        LoopStops(n, store, initial, rs[1..]);
      }
    }
  }

  /** Generations rise with every restart, unless saturated. */
  predicate Above(g: u64, than: u64) { g > than || (g == than && than == U64_SPAN - 1) }

  /** How far a tick has moved from its start: no restart, and the same file and generation; or
      a restart, which is saved, aims at the file the live snapshot leaves free and raises the
      generation. */
  ghost predicate Drifted(t0: Tick, t: Tick, store: Store, restarted: bool) {
    && (!restarted ==> t.target == t0.target && t.idx.cursor.generation == t0.idx.cursor.generation)
    && (restarted ==>
          && t.dirty && t.target == (if Served(store.live) then RebuildFile else LiveFile)
          && Above(t.idx.cursor.generation, t0.idx.cursor.generation))
    && (t0.dirty ==> t.dirty)
  }

  lemma {:induction false} LoopDrifts(t0: Tick, t: Tick, store: Store, initial: Str, rs: seq<Response>, restarted: bool)
    requires Drifted(t0, t, store, restarted) && !t.done && !t.failed
    ensures Drifted(t0, Loop(t, store, initial, rs), store, restarted || Restarts(rs) > 0)
    decreases |rs|
  {
    if rs != [] {
      var r := rs[0];
      var n := Step(t, store, initial, r);
      if n.done || n.failed {
        assert Loop(n, store, initial, rs[1..]) == n;
      } else {
        LoopDrifts(t0, n, store, initial, rs[1..], restarted || r.Resync?);
      }
    }
  }

  // ---------------------------------------------------------------- two-file safety

  /** The invariant of the two files: a rebuild stands beside a served live snapshot and is
      ahead of it, and both cursors make sense. */
  ghost predicate StoreOk(store: Store) {
    && (store.rebuild.Some? ==>
          Served(store.live)
          && Above(store.rebuild.value.cursor.generation, store.live.value.cursor.generation))
    && (store.live.Some? ==> CursorOk(store.live.value.cursor))
    && (store.rebuild.Some? ==> CursorOk(store.rebuild.value.cursor))
  }

  // ---------------------------------------------------------------- clean ticks

  /** While nothing is marked for saving, token and link are the loaded ones and the tree is
      the loaded one, swept once the crawl has ended. */
  lemma {:induction false} CleanLoop(t: Tick, store: Store, initial: Str, rs: seq<Response>)
    requires !Loop(t, store, initial, rs).dirty && !t.done && !Loop(t, store, initial, rs).failed
    ensures !t.dirty
    ensures var e := Loop(t, store, initial, rs);
            && e.target == t.target && e.idx.cursor.deltaToken == t.idx.cursor.deltaToken
            && e.idx.cursor.pendingNextLink == t.idx.cursor.pendingNextLink
            && e.idx.cursor.generation == t.idx.cursor.generation
            && e.idx.tree == (if e.done then SweepOrphans(t.idx.tree) else t.idx.tree)
            && (e.done ==> e.idx.cursor.pendingNextLink == None)
    decreases |rs|
  {
    if rs != [] && !t.failed {
      var t' := Step(t, store, initial, rs[0]);
      StaysDirty(t', store, initial, rs[1..]);
      if t'.done {
        assert Loop(t', store, initial, rs[1..]) == t';
      } else {
        CleanLoop(t', store, initial, rs[1..]);
      }
    }
  }

  lemma {:induction false} StaysDirty(t: Tick, store: Store, initial: Str, rs: seq<Response>)
    ensures t.dirty ==> Loop(t, store, initial, rs).dirty
    ensures t.failed ==> Loop(t, store, initial, rs).failed
    decreases |rs|
  {
    if rs != [] && !t.done && !t.failed {
      StaysDirty(Step(t, store, initial, rs[0]), store, initial, rs[1..]);
    }
  }

  /** A tick that has nothing to save still has the cursor it loaded. */
  lemma CleanTickKeepsCursor(store: Store, initial: Str, rs: seq<Response>)
    requires StoreOk(store) && AllCarryToken(rs)
    requires var t := RunTick(store, initial, false, rs); !t.dirty && !t.failed
    ensures RunTick(store, initial, false, rs).idx.cursor == Working(store).cursor
  {
    var t0 := Start(store, initial, false);
    CleanLoop(t0, store, initial, rs);
    LoopKeepsCursor(t0, store, initial, rs);
  }

  // ---------------------------------------------------------------- one tick

  /** What may become of a served live snapshot in a tick that started with `from`: it stays; or
      it is what the tick started with and is carried forward by pages alone; or a complete
      crawl of a higher generation replaces it and no rebuild is left. */
  ghost predicate LiveSafe(store: Store, from: State, restarts: nat, t: Tick, next: Store) {
    Served(store.live) ==>
      || next.live == store.live
      || (from == store.live.value && restarts == 0 && t.target == LiveFile
          && next == store.(live := Some(Reloaded(t.idx))) && t.idx.cursor.generation == from.cursor.generation)
      || (next.live.Some? && CompleteWithToken(next.live.value.cursor) && next.rebuild == None
          && Above(next.live.value.cursor.generation, store.live.value.cursor.generation))
  }

  predicate CompleteWithToken(c: Cursor) { Settled(c) && c.deltaToken.Some? }

  ghost predicate GenerationKept(store: Store, next: Store) {
    store.live.Some? ==> next.live.Some? && next.live.value.cursor.generation >= store.live.value.cursor.generation
  }

  /** Facts about where a tick from a consistent store ends. */
  lemma TickEnd(store: Store, initial: Str, legacy: bool, rs: seq<Response>)
    requires StoreOk(store) && AllCarryToken(rs)
    ensures var t := RunTick(store, initial, legacy, rs);
            && TickOk(t)
            && Drifted(Start(store, initial, legacy), t, store, Restarts(rs) > 0)
            && (!t.dirty && !t.failed ==> t.idx.cursor == Working(store).cursor && !legacy)
  {
    hide Step;
    var t0 := Start(store, initial, legacy);
    assert TickOk(t0);
    LoopKeepsCursor(t0, store, initial, rs);
    LoopDrifts(t0, t0, store, initial, rs, false);
    var t := RunTick(store, initial, legacy, rs);
    if !t.dirty && !t.failed {
      CleanLoop(t0, store, initial, rs);
      CleanTickKeepsCursor(store, initial, rs);
    }
  }

  /** Saving keeps the two files consistent and a served live snapshot safe. */
  lemma SaveIsSafe(store: Store, initial: Str, legacy: bool, rs: seq<Response>)
    requires StoreOk(store) && AllCarryToken(rs)
    ensures var t := RunTick(store, initial, legacy, rs);
            !t.failed ==> StoreOk(Saved(store, t)) && LiveSafe(store, Working(store), Restarts(rs), t, Saved(store, t)) && GenerationKept(store, Saved(store, t))
  {
    hide Loop, Reload;
    TickEnd(store, initial, legacy, rs);
  }

  /** Promotion installs a complete rebuild of a higher generation. */
  lemma PromotionIsSafe(store: Store, initial: Str, legacy: bool, rs: seq<Response>)
    requires StoreOk(store) && AllCarryToken(rs)
    requires var t := RunTick(store, initial, legacy, rs); !t.failed && Promotes(t)
    ensures var t := RunTick(store, initial, legacy, rs);
            var next := Promoted(Saved(store, t));
            StoreOk(next) && LiveSafe(store, Working(store), Restarts(rs), t, next) && GenerationKept(store, next)
            && next.live.Some? && CompleteWithToken(next.live.value.cursor)
            && store.live.Some? && Above(next.live.value.cursor.generation, store.live.value.cursor.generation)
  {
    hide Loop, Reload;
    TickEnd(store, initial, legacy, rs);
  }

  /** Whatever a tick leaves behind - also after an error, a failed save or a crash between
      save and promotion - the files are consistent and the served snapshot is safe. */
  lemma TickIsSafe(store: Store, initial: Str, legacy: bool, rs: seq<Response>, next: Store)
    requires StoreOk(store) && AllCarryToken(rs) && TickStep(store, initial, legacy, rs, next)
    ensures StoreOk(next) && GenerationKept(store, next)
    ensures LiveSafe(store, Working(store), Restarts(rs), RunTick(store, initial, legacy, rs), next)
  {
    hide RunTick, Saved, Promoted, Reload;
    var t := RunTick(store, initial, legacy, rs);
    SaveIsSafe(store, initial, legacy, rs);
    if !t.failed && Promotes(t) { PromotionIsSafe(store, initial, legacy, rs); }
  }

  lemma WriteIsSafe(store: Store, p: Patch, next: Store)
    requires StoreOk(store) && WriteStep(store, p, next)
    ensures StoreOk(next) && GenerationKept(store, next) && next.rebuild == store.rebuild
    ensures Served(store.live) ==> Served(next.live)
  {
    hide Patched;
  }

  /** A tick that may not ask at all promotes what it finds exactly if that is a rebuild that has no
      page left to fetch, and saves exactly if the one-shot rewrite is due; whatever the cursors are. */
  lemma UnaskedTick(store: Store, initial: Str, legacy: bool)
    ensures var t := RunTick(store, initial, legacy, []);
            && (Promotes(t) <==> store.rebuild.Some? && store.rebuild.value.cursor.crawlComplete
                                 && store.rebuild.value.cursor.pendingNextLink == None)
            && (Saved(store, t) == store || legacy) && t.idx == Working(store) && !t.failed
  {
  }

  // ---------------------------------------------------------------- whole runs

  ghost predicate AnyStep(initial: Str, store: Store, next: Store) {
    || (exists legacy, rs :: AllCarryToken(rs) && TickStep(store, initial, legacy, rs, next))
    || (exists p :: WriteStep(store, p, next))
  }

  /** A run from empty files by ticks, crashes and write-throughs. */
  ghost predicate IsRun(initial: Str, stores: seq<Store>) {
    && stores != [] && stores[0] == Store(None, None)
    && forall i :: 0 <= i < |stores| - 1 ==> AnyStep(initial, stores[i], stores[i + 1])
  }

  /** One safe step: a write-through, or a tick that keeps a served live snapshot safe. */
  ghost predicate SafeStep(initial: Str, store: Store, next: Store) {
    || (exists p :: WriteStep(store, p, next))
    || (exists legacy, rs :: TickStep(store, initial, legacy, rs, next)
                             && LiveSafe(store, Working(store), Restarts(rs), RunTick(store, initial, legacy, rs), next))
  }

  /** In every run the two files stay consistent: a rebuild only stands beside a served live
      snapshot and ahead of it, both cursors are fresh, crawling or settled, generations never
      fall, and a served live snapshot is only ever kept, carried forward, written through or
      replaced by a complete rebuild. */
  lemma {:induction false} RunsAreSafe(initial: Str, stores: seq<Store>, i: nat)
    requires IsRun(initial, stores) && i < |stores|
    ensures StoreOk(stores[i])
    ensures i > 0 ==> GenerationKept(stores[i - 1], stores[i]) && SafeStep(initial, stores[i - 1], stores[i])
    decreases i
  {
    hide TickStep, WriteStep, StoreOk, GenerationKept, LiveSafe, AllCarryToken, RunTick;
    if i == 0 {
      EmptyStoreOk();
    } else {
      var store, next := stores[i - 1], stores[i];
      RunsAreSafe(initial, stores, i - 1);
      assert AnyStep(initial, stores[i - 1], stores[i - 1 + 1]);
      if p :| WriteStep(store, p, next) {
        WriteIsSafe(store, p, next);
      } else {
        var legacy, rs :| AllCarryToken(rs) && TickStep(store, initial, legacy, rs, next);
        TickIsSafe(store, initial, legacy, rs, next);
      }
    }
  }

  lemma EmptyStoreOk()
    ensures StoreOk(Store(None, None))
  {
  }

  // ---------------------------------------------------------------- without the token

  /** Whether the crawl the responses end has a token: it had one, or its last page brings one,
      unless it had to start over in between. */
  predicate TokenComes(have: bool, rs: seq<Response>) {
    if rs == [] then have
    else match rs[0]
      case Got(page) => if page.nextLink.Some? then TokenComes(have, rs[1..]) else have || page.deltaToken.Some?
      case Resync => TokenComes(false, rs[1..])
      case Other => have
  }

  lemma {:induction false} LoopToken(t: Tick, store: Store, initial: Str, rs: seq<Response>)
    requires !t.done && !t.failed
    ensures Loop(t, store, initial, rs).idx.cursor.deltaToken.Some? <==> TokenComes(t.idx.cursor.deltaToken.Some?, rs)
    decreases |rs|
  {
    hide ApplyAll, SweepOrphans;
    if rs != [] {
      var n := Step(t, store, initial, rs[0]);
      if n.done || n.failed {
        assert Loop(n, store, initial, rs[1..]) == n;
      } else {
        LoopToken(n, store, initial, rs[1..]);
      }
    }
  }

  /** A promotion - whatever pages led to it - installs a complete snapshot with a token exactly
      when the crawl has one: a last page without a token promotes an unfinished rebuild. */
  lemma PromotionIffToken(store: Store, initial: Str, legacy: bool, rs: seq<Response>)
    requires StoreOk(store)
    requires var t := RunTick(store, initial, legacy, rs); !t.failed && Promotes(t)
    ensures var t := RunTick(store, initial, legacy, rs);
            var next := Promoted(Saved(store, t));
            next.live.Some? &&
            (CompleteWithToken(next.live.value.cursor) <==> TokenComes(Working(store).cursor.deltaToken.Some?, rs))
  {
    hide Step, Reload;
    var t0 := Start(store, initial, legacy);
    var t := RunTick(store, initial, legacy, rs);
    LoopTracksComplete(t0, store, initial, rs);
    LoopDrifts(t0, t0, store, initial, rs, false);
    LoopToken(t0, store, initial, rs);
    if !t.dirty { CleanLoop(t0, store, initial, rs); }
  }

  lemma {:induction false} LoopTracksComplete(t: Tick, store: Store, initial: Str, rs: seq<Response>)
    requires t.complete <==> Settled(t.idx.cursor)
    ensures Loop(t, store, initial, rs).complete <==> Settled(Loop(t, store, initial, rs).idx.cursor)
    decreases |rs|
  {
    if rs != [] && !t.done && !t.failed {
      LoopTracksComplete(Step(t, store, initial, rs[0]), store, initial, rs[1..]);
    }
  }

  /** Such a run: one empty last page without a token replaces a complete live snapshot by a
      rebuild that has not seen a single page of its crawl. */
  lemma TokenlessPagePromotesUnfinished(initial: Str, token: Str)
    ensures var live := State(EMPTY_TREE, Cursor(Some(token), None, true, 0));
            var rebuild := State(EMPTY_TREE, FRESH_CURSOR.(generation := 1));
            var store := Store(Some(live), Some(rebuild));
            var rs := [Got(Page([], None, None))];
            && StoreOk(store) && TickStep(store, initial, false, rs, Store(Some(rebuild), None))
            && !LiveSafe(store, Working(store), Restarts(rs), RunTick(store, initial, false, rs), Store(Some(rebuild), None))
  {
    var live := State(EMPTY_TREE, Cursor(Some(token), None, true, 0));
    var rebuild := State(EMPTY_TREE, FRESH_CURSOR.(generation := 1));
    var store := Store(Some(live), Some(rebuild));
    var rs := [Got(Page([], None, None))];
    var t0 := Start(store, initial, false);
    var t := Step(t0, store, initial, rs[0]);
    assert rs[1..] == [];
    assert Loop(t, store, initial, rs[1..]) == t;
    assert RunTick(store, initial, false, rs) == t;
  }

  // ---------------------------------------------------------------- files that cannot be opened

  /** What a tick takes the files for when some cannot be opened: the source treats such a file
      as missing. */
  predicate Hides(store: Store, view: Store) {
    (view.live == None || view.live == store.live) && (view.rebuild == None || view.rebuild == store.rebuild)
  }

  function Raised(g: u64, n: nat): u64 {
    if g + n >= U64_SPAN then U64_SPAN - 1 else g + n
  }

  /** What opening the live file can give. */
  predicate Opens(store: Store, again: Option<State>) { again == None || again == store.live }

  /** The tick that opened the files as `view`, and the live file, when it had to start over, as
      `again`. */
  ghost function RunTickSeeing(view: Store, again: Option<State>, initial: Str, legacy: bool, rs: seq<Response>): Tick {
    Loop(Start(view, initial, legacy), Store(again, None), initial, rs)
  }

  /** What a tick is answered when its `i`-th request, at whatever url, would be answered `graph[i]`
      of that url. */
  ghost function Answered(graph: seq<Str -> Response>, t: Tick, store: Store, initial: Str): seq<Response>
    decreases |graph|
  {
    if |graph| == 0 || t.done || t.failed then []
    else [graph[0](t.url)] + Answered(graph[1..], Step(t, store, initial, graph[0](t.url)), store, initial)
  }

  /** The answers to the tick that opened the files as `view` and `again`. */
  ghost function AnswersSeeing(view: Store, again: Option<State>, initial: Str, legacy: bool, graph: seq<Str -> Response>): seq<Response> {
    Answered(graph, Start(view, initial, legacy), Store(again, None), initial)
  }

  lemma {:induction false} AnsweredSnoc(graph: seq<Str -> Response>, g: Str -> Response, t: Tick, store: Store, initial: Str)
    ensures var rs := Answered(graph, t, store, initial);
            var e := Loop(t, store, initial, rs);
            Answered(graph + [g], t, store, initial) == if e.done || e.failed then rs else rs + [g(e.url)]
    decreases |graph|
  {
    hide Step;
    if t.done || t.failed {
    } else if |graph| == 0 {
      assert Answered(([g])[1..], Step(t, store, initial, g(t.url)), store, initial) == [];
      assert (graph + [g])[1..] == [g][1..];
    } else {
      var a := graph[0](t.url);
      var n := Step(t, store, initial, a);
      assert (graph + [g])[0] == graph[0] && (graph + [g])[1..] == graph[1..] + [g];
      AnsweredSnoc(graph[1..], g, n, store, initial);
      assert ([a] + Answered(graph[1..], n, store, initial))[1..] == Answered(graph[1..], n, store, initial);
    }
  }

  /** Every answer is one that was given. */
  lemma {:induction false} AnswersAreGiven(graph: seq<Str -> Response>, t: Tick, store: Store, initial: Str, r: Response)
    requires r in Answered(graph, t, store, initial)
    ensures exists i, url :: 0 <= i < |graph| && graph[i](url) == r
    decreases |graph|
  {
    hide Step;
    var a := graph[0](t.url);
    if r != a {
      AnswersAreGiven(graph[1..], Step(t, store, initial, a), store, initial, r);
      var i, url :| 0 <= i < |graph[1..]| && graph[1..][i](url) == r;
      assert graph[i + 1](url) == r;
    }
  }

  /** Which live file a restart saw makes no difference to what is asked and answered. */
  lemma {:induction false} AnsweredUpToTarget(graph: seq<Str -> Response>, a: Tick, b: Tick, s1: Store, s2: Store, initial: Str)
    requires a.(target := b.target) == b
    ensures Answered(graph, a, s1, initial) == Answered(graph, b, s2, initial)
    decreases |graph|
  {
    hide ApplyAll, SweepOrphans;
    if |graph| > 0 && !a.done && !a.failed {
      var r := graph[0](a.url);
      AnsweredUpToTarget(graph[1..], Step(a, s1, initial, r), Step(b, s2, initial, r), s1, s2, initial);
    }
  }

  /** Which live file a restart saw decides the target and nothing else. */
  lemma {:induction false} LoopUpToTarget(a: Tick, b: Tick, s1: Store, s2: Store, initial: Str, rs: seq<Response>)
    requires a.(target := b.target) == b
    ensures var e1, e2 := Loop(a, s1, initial, rs), Loop(b, s2, initial, rs); e1.(target := e2.target) == e2
    decreases |rs|
  {
    hide ApplyAll, SweepOrphans;
    if rs != [] && !a.done && !a.failed {
      LoopUpToTarget(Step(a, s1, initial, rs[0]), Step(b, s2, initial, rs[0]), s1, s2, initial, rs[1..]);
    }
  }

  lemma {:induction false} LoopSeesLive(t: Tick, s1: Store, s2: Store, initial: Str, rs: seq<Response>)
    requires s1.live == s2.live
    ensures Loop(t, s1, initial, rs) == Loop(t, s2, initial, rs)
    decreases |rs|
  {
    hide TakePage;
    if rs != [] && !t.done && !t.failed { LoopSeesLive(Step(t, s1, initial, rs[0]), s1, s2, initial, rs[1..]); }
  }

  /** A tick that opens every file is a tick of the store. */
  lemma SeeingAll(store: Store, initial: Str, legacy: bool, rs: seq<Response>)
    ensures RunTickSeeing(store, store.live, initial, legacy, rs) == RunTick(store, initial, legacy, rs)
  {
    LoopSeesLive(Start(store, initial, legacy), store, Store(store.live, None), initial, rs);
  }

  lemma {:induction false} LoopEnd(t: Tick, store: Store, initial: Str, rs: seq<Response>)
    requires !t.done && !t.failed && AllCarryToken(rs) && TickOk(t)
    ensures var e := Loop(t, store, initial, rs);
            && e.idx.cursor.generation == Raised(t.idx.cursor.generation, Restarts(rs))
            && e.target == (if Restarts(rs) == 0 then t.target else if Served(store.live) then RebuildFile else LiveFile)
            && (!e.failed && (Restarts(rs) > 0 || !t.complete) ==> (CompleteWithToken(e.idx.cursor) <==> Ends(rs)))
    decreases |rs|
  {
    hide ApplyAll, SweepOrphans;
    if rs != [] {
      var n := Step(t, store, initial, rs[0]);
      assert CarriesToken(rs[0]);
      if n.done || n.failed {
        assert Loop(n, store, initial, rs[1..]) == n;
      } else {
        LoopEnd(n, store, initial, rs[1..]);
      }
    }
  }

  /** When a tick is safe although files could not be opened. Of a tick that saves something new
      beside a served live snapshot: without a restart, exactly if it opened one of the files; with
      restarts, exactly if it opened the live file at the last one, or if there was no rebuild and
      the crawl it started over ended within the tick, at a generation above the live one. */
  lemma UnopenedSafeIff(store: Store, view: Store, again: Option<State>, initial: Str, legacy: bool, rs: seq<Response>)
    requires StoreOk(store) && AllCarryToken(rs) && Served(store.live)
    requires Hides(store, view) && Opens(store, again)
    requires var t := RunTickSeeing(view, again, initial, legacy, rs);
             !t.failed && t.dirty && Reloaded(t.idx) != store.live.value
    ensures var t := RunTickSeeing(view, again, initial, legacy, rs);
            var live := store.live.value;
            LiveSafe(store, Working(view), Restarts(rs), t, Saved(store, t)) <==>
              if Restarts(rs) == 0 then view.live.Some? || view.rebuild.Some?
              else again.Some? || (store.rebuild == None && Ends(rs)
                                   && Above(Raised(Working(view).cursor.generation, Restarts(rs)), live.cursor.generation))
  {
    hide Loop, Reload;
    LoopEnd(Start(view, initial, legacy), Store(again, None), initial, rs);
  }

  /** When its promotion is safe as well: exactly if the crawl it promotes is of a generation above
      the live one. It is not if the tick could open neither file at first, so that its generations
      count from 0, and could open the live file when it started over. */
  lemma UnopenedPromotionSafeIff(store: Store, view: Store, again: Option<State>, initial: Str, legacy: bool,
                                 rs: seq<Response>)
    requires StoreOk(store) && AllCarryToken(rs) && Served(store.live)
    requires Hides(store, view) && Opens(store, again)
    requires var t := RunTickSeeing(view, again, initial, legacy, rs);
             !t.failed && Promotes(t) && Saved(store, t).rebuild != store.live
    ensures var t := RunTickSeeing(view, again, initial, legacy, rs);
            LiveSafe(store, Working(view), Restarts(rs), t, Promoted(Saved(store, t))) <==>
            Above(Raised(Working(view).cursor.generation, Restarts(rs)), store.live.value.cursor.generation)
  {
    hide Loop, Reload, Step;
    var t0, seen := Start(view, initial, legacy), Store(again, None);
    LoopEnd(t0, seen, initial, rs);
    LoopKeepsCursor(t0, seen, initial, rs);
    LoopDrifts(t0, t0, seen, initial, rs, false);
    if !RunTickSeeing(view, again, initial, legacy, rs).dirty { CleanLoop(t0, seen, initial, rs); }
  }

  /** Such a tick: it could not open the live file, started a first crawl and saved it over a
      complete snapshot. */
  lemma UnopenedLiveIsReplaced(initial: Str, token: Str, link: Str)
    ensures var live := State(EMPTY_TREE, Cursor(Some(token), None, true, 1));
            var store := Store(Some(live), None);
            var view := Store(None, None);
            var rs := [Got(Page([], Some(link), None))];
            var t := RunTickSeeing(view, None, initial, false, rs);
            && StoreOk(store) && Served(store.live) && Hides(store, view)
            && t.dirty && t.target == LiveFile && !LiveSafe(store, Working(view), Restarts(rs), t, Saved(store, t))
  {
    var live := State(EMPTY_TREE, Cursor(Some(token), None, true, 1));
    var none := Store(None, None);
    var rs := [Got(Page([], Some(link), None))];
    var t := Step(Start(none, initial, false), none, initial, rs[0]);
    assert rs[1..] == [];
    assert Loop(t, none, initial, rs[1..]) == t;
    assert RunTickSeeing(none, None, initial, false, rs) == t;
  }
}
