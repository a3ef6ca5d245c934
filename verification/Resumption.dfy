/** A crawl split into ticks that may fail or crash ends where one uninterrupted crawl ends. */
module Resumption {
  import opened Bytes
  import opened Namespace
  import opened Agreement
  import opened Resolution
  import opened Ordering
  import opened Sweep
  import opened Snapshot
  import opened SnapshotDecode
  import opened Reloading
  import opened Sync

  // ---------------------------------------------------------------- trees with the same nodes

  lemma {:induction false} ClimbLike(t: Tree, u: Tree, id: Id, fuel: nat)
    requires Like(t, u)
    ensures Climb(t, id, fuel) == Climb(u, id, fuel)
    decreases fuel
  {
    if fuel > 0 && id in t.nodes && t.nodes[id].parent.Some? { ClimbLike(t, u, t.nodes[id].parent.value, fuel - 1); }
  }

  lemma HasRowLike(t: Tree, u: Tree, id: Id)
    requires Like(t, u)
    ensures HasRow(t, id) <==> HasRow(u, id)
  {
    ClimbLike(t, u, id, WALK_LIMIT);
    hide Climb;
  }

  /** Trees with the same nodes are the same once saved and loaded. */
  lemma ReloadLike(t: Tree, u: Tree)
    requires Like(t, u) && Agree(t) && Agree(u)
    ensures Reload(t) == Reload(u)
  {
    hide HasRow, Agree, KidSet;
    forall id ensures HasRow(t, id) <==> HasRow(u, id) { HasRowLike(t, u, id); }
    forall p ensures KidSet(t, p) == KidSet(u, p) { LikeKidSets(t, u, p); }
    assert Reload(t).nodes == Reload(u).nodes;
    assert Reload(t).kids == Reload(u).kids;
  }

  lemma {:induction false} WalksLike(t: Tree, u: Tree, id: Id, fuel: nat)
    requires Like(t, u)
    ensures WalksToRoot(t, id, fuel) <==> WalksToRoot(u, id, fuel)
    decreases fuel
  {
    if fuel > 0 && id in t.nodes && t.nodes[id].parent.Some? { WalksLike(t, u, t.nodes[id].parent.value, fuel - 1); }
  }

  lemma SweepLike(t: Tree, u: Tree)
    requires Like(t, u)
    ensures Like(SweepOrphans(t), SweepOrphans(u))
  {
    forall id ensures WalksToRoot(t, id, WALK_LIMIT) <==> WalksToRoot(u, id, WALK_LIMIT) { WalksLike(t, u, id, WALK_LIMIT); }
    hide WalksToRoot;
    assert Survivors(t) == Survivors(u);
  }

  // ---------------------------------------------------------------- tick boundaries

  /** Saving and loading keeps every node: all are recorded, the directories among them hang
      below one another, and the root is a directory. */
  ghost predicate LosesNothing(t: Tree) {
    && (forall id :: id in t.nodes ==> Recorded(t, id)) && RowsBelowRows(t)
    && (t.root.Some? && t.root.value in t.nodes ==> t.nodes[t.root.value].meta.isDir)
  }

  lemma RereadLike(t: Tree, id: Id)
    requires SoleRoot(t) && id in t.nodes
    ensures var n, m := t.nodes[id], Reread(t, id);
            n.parent == m.parent && n.meta == m.meta && (n.parent.Some? ==> n.name == m.name) <==>
            && (HasRow(t, id) && n.parent.Some? ==> HasRow(t, n.parent.value))
            && (n.parent == None ==> n.meta.isDir)
  {
    hide PathOf;
    ParentlessHasRow(t, id);
  }

  /** A tree keeps all its nodes across a tick boundary exactly when nothing in it is pending:
      an item whose parent has not arrived, or is no directory, is dropped by the save. */
  lemma KeptIffLosesNothing(t: Tree)
    requires WellFormed(t)
    ensures Like(Reload(t), t) <==> LosesNothing(t)
  {
    hide Agree, UniqueSiblings, HasRow, Reread, Recorded;
    forall id ensures id in Reload(t).nodes <==> Recorded(t, id) { ReloadNodes(t, id); }
    forall id | id in t.nodes && Recorded(t, id) ensures Reload(t).nodes[id] == Reread(t, id) { ReloadNodes(t, id); }
    forall id | Recorded(t, id) ensures id in t.nodes { RecordedIsNode(t, id); }
    forall id | HasRow(t, id) ensures id in t.nodes { HasRowIsNode(t, id); }
    forall id | id in t.nodes
      ensures var n, m := t.nodes[id], Reread(t, id);
              n.parent == m.parent && n.meta == m.meta && (n.parent.Some? ==> n.name == m.name) <==>
              (HasRow(t, id) && n.parent.Some? ==> HasRow(t, n.parent.value)) && (n.parent == None ==> n.meta.isDir)
    {
      RereadLike(t, id);
    }
    ReloadRoot(t);
  }

  lemma RecordedIsNode(t: Tree, id: Id)
    requires Recorded(t, id)
    ensures id in t.nodes
  {
  }

  /** An item saved before its parent arrives is dropped. */
  lemma PendingItemIsLost(meta: ItemMeta)
    ensures var r, d, f := [1], [2], [3];
            var page := [DeltaItem(r, None, [], false, true, meta.(isDir := true)),
                         DeltaItem(f, Some(d), [4], false, false, meta)];
            var t := ApplyAll(EMPTY_TREE, page);
            f in t.nodes && f !in Reload(t).nodes
  {
    var r: Id, d: Id, f: Id := [1], [2], [3];
    var a := DeltaItem(r, None, [], false, true, meta.(isDir := true));
    var b := DeltaItem(f, Some(d), [4], false, false, meta);
    var t1 := Apply(EMPTY_TREE, a);
    var t2 := Apply(t1, b);
    assert [a] + [b] == [a, b] && [a][1..] == [];
    assert ApplyAll(EMPTY_TREE, [a]) == t1;
    ApplyAllSnoc(EMPTY_TREE, [a], b);
    assert t1.kids == map[] && Detach(t1, b) == t1 && Named(t1, d, [4]) == {};
    assert t2.nodes == map[r := Node(None, [], a.meta), f := Node(Some(d), [4], b.meta)];
    assert Climb(t2, d, WALK_LIMIT) == None && Climb(t2, d, WALK_LIMIT - 1) == None;
    assert PathOf(t2, f) == None;
  }

  // ---------------------------------------------------------------- the feed

  /** The server answers `url` and the links that follow with these pages, the last of which
      carries the token and no further link. */
  ghost predicate Serves(server: Str -> Response, url: Str, pages: seq<Page>)
    decreases |pages|
  {
    && pages != [] && server(url) == Got(pages[0])
    && if |pages| == 1 then pages[0].nextLink == None && pages[0].deltaToken.Some?
       else pages[0].nextLink.Some? && Serves(server, pages[0].nextLink.value, pages[1..])
  }

  /** The responses of a tick: what the server answers to each request, or an error. */
  ghost predicate Follows(server: Str -> Response, t: Tick, store: Store, initial: Str, rs: seq<Response>)
    decreases |rs|
  {
    rs != [] && !t.done && !t.failed ==>
      && (rs[0] == server(t.url) || rs[0] == Other)
      && Follows(server, Step(t, store, initial, rs[0]), store, initial, rs[1..])
  }

  function Items(pages: seq<Page>): seq<DeltaItem> {
    if pages == [] then [] else pages[0].items + Items(pages[1..])
  }

  lemma {:induction false} ItemsConcat(a: seq<Page>, b: seq<Page>)
    ensures Items(a + b) == Items(a) + Items(b)
  {
    if a == [] {
      assert a + b == b;
    } else {
      assert (a + b)[1..] == a[1..] + b;
      ItemsConcat(a[1..], b);
    }
  }

  /** The state one uninterrupted crawl from `s` has after `k` pages. */
  ghost function Crawled(s: State, pages: seq<Page>, k: nat): State
    requires k <= |pages|
  {
    if k == 0 then s
    else if k < |pages| then
      State(ApplyAll(s.tree, Items(pages[..k])),
            s.cursor.(pendingNextLink := pages[k - 1].nextLink, crawlComplete := false))
    else
      State(SweepOrphans(ApplyAll(s.tree, Items(pages))),
            s.cursor.(pendingNextLink := None, crawlComplete := true, deltaToken := pages[k - 1].deltaToken))
  }

  /** The request that fetches page `k`. */
  function UrlAt(url: Str, pages: seq<Page>, k: nat): Str
    requires k <= |pages|
  {
    if k == 0 || pages[k - 1].nextLink == None then url else pages[k - 1].nextLink.value
  }

  lemma {:induction false} ServesFrom(server: Str -> Response, url: Str, pages: seq<Page>, k: nat)
    requires Serves(server, url, pages) && k < |pages|
    ensures Serves(server, UrlAt(url, pages, k), pages[k..])
    ensures k > 0 ==> pages[k - 1].nextLink == Some(UrlAt(url, pages, k))
    decreases k
  {
    if k == 0 {
      assert pages[0..] == pages;
    } else {
      ServesFrom(server, pages[0].nextLink.value, pages[1..], k - 1);
      assert pages[1..][k - 1..] == pages[k..];
    }
  }

  /** The pages behind a link are determined by the server. */
  lemma {:induction false} ServesUnique(server: Str -> Response, url: Str, a: seq<Page>, b: seq<Page>)
    requires Serves(server, url, a) && Serves(server, url, b)
    ensures a == b
    decreases |a|
  {
    assert a[0] == b[0];
    if |a| > 1 { ServesUnique(server, a[0].nextLink.value, a[1..], b[1..]); }
    assert a == [a[0]] + a[1..] && b == [b[0]] + b[1..];
  }

  // ---------------------------------------------------------------- one tick over the feed

  lemma CrawlOneMore(s: State, page: Page, rest: seq<Page>, k: nat)
    requires page.nextLink.Some? && rest != [] && k <= |rest|
    requires k > 0
    ensures Crawled(State(ApplyAll(s.tree, page.items),
                          s.cursor.(pendingNextLink := page.nextLink, crawlComplete := false)), rest, k)
            == Crawled(s, [page] + rest, k + 1)
  {
    var pages := [page] + rest;
    assert pages[1..] == rest && pages[..k + 1] == [page] + rest[..k];
    assert pages[k] == rest[k - 1];
    ItemsConcat([page], rest[..k]);
    ItemsConcat([page], rest);
    assert Items([page]) == page.items by { assert [page][1..] == []; assert page.items + [] == page.items; }
    ApplyAllConcat(s.tree, page.items, Items(rest[..k]));
    ApplyAllConcat(s.tree, page.items, Items(rest));
  }

  lemma CrawlFirst(s: State, page: Page, rest: seq<Page>)
    requires rest != []
    ensures Crawled(s, [page] + rest, 1) ==
            State(ApplyAll(s.tree, page.items), s.cursor.(pendingNextLink := page.nextLink, crawlComplete := false))
  {
    var pages := [page] + rest;
    assert pages[..1] == [page] && pages[0] == page;
    assert Items([page]) == page.items by { assert [page][1..] == []; assert page.items + [] == page.items; }
    assert 1 < |pages|;
  }

  /** A tick that follows the server reads some of the pages, each once and in order. */
  lemma {:induction false} LoopReadsPages(server: Str -> Response, t: Tick, store: Store, initial: Str, rs: seq<Response>,
                                          pages: seq<Page>)
    returns (k: nat)
    requires Follows(server, t, store, initial, rs) && Serves(server, t.url, pages) && !t.done && !t.failed
    ensures k <= |pages|
    ensures var e := Loop(t, store, initial, rs);
            !e.failed ==> e.idx == Crawled(t.idx, pages, k) && (e.done <==> k == |pages|) && e.target == t.target
                          && (e.done ==> e.complete)
    decreases |rs|
  {
    k := 0;
    if rs != [] {
      var t' := Step(t, store, initial, rs[0]);
      if rs[0] == Other {
        StaysDirty(t', store, initial, rs[1..]);
      } else if |pages| == 1 {
        k := 1;
        CrawlOnly(t.idx, pages);
        assert Loop(t', store, initial, rs[1..]) == t';
      } else {
        var j := LoopReadsPages(server, t', store, initial, rs[1..], pages[1..]);
        k := j + 1;
        assert pages == [pages[0]] + pages[1..];
        CrawlFirst(t.idx, pages[0], pages[1..]);
        if j > 0 { CrawlOneMore(t.idx, pages[0], pages[1..], j); }
      }
    }
  }

  /** Crawling on from `k` pages is crawling `k` pages more. */
  lemma CrawlOn(s: State, pages: seq<Page>, k: nat, m: nat)
    requires k < |pages| && m <= |pages| - k
    ensures Crawled(Crawled(s, pages, k), pages[k..], m) == Crawled(s, pages, k + m)
  {
    if k > 0 && m > 0 {
      assert pages[..k] + pages[k..] == pages && pages[..k] + pages[k..][..m] == pages[..k + m];
      ItemsConcat(pages[..k], pages[k..]);
      ItemsConcat(pages[..k], pages[k..][..m]);
      ApplyAllConcat(s.tree, Items(pages[..k]), Items(pages[k..]));
      ApplyAllConcat(s.tree, Items(pages[..k]), Items(pages[k..][..m]));
    } else if k == 0 {
      assert pages[0..] == pages;
    }
  }

  // ---------------------------------------------------------------- across ticks

  ghost predicate FeedKeepsTo(r: Id, pages: seq<Page>) { forall it :: it in Items(pages) ==> KeepsToRoot(r, it) }

  /** Two states of a crawl that differ at most in the root's name and in empty child sets. */
  ghost predicate SameState(a: State, b: State, r: Id) {
    a.cursor == b.cursor && Like(a.tree, b.tree) && RunsUnder(a.tree, r) && RunsUnder(b.tree, r)
  }

  lemma CrawlSame(a: State, b: State, r: Id, pages: seq<Page>, k: nat)
    requires SameState(a, b, r) && FeedKeepsTo(r, pages) && k <= |pages|
    ensures SameState(Crawled(a, pages, k), Crawled(b, pages, k), r)
  {
    hide RunsUnder, Like;
    if k > 0 {
      assert pages[..k] + pages[k..] == pages;
      ItemsConcat(pages[..k], pages[k..]);
      ApplyAllLike(a.tree, b.tree, r, Items(pages[..k]));
      if k == |pages| {
        assert pages[..k] == pages;
        SweepLike(ApplyAll(a.tree, Items(pages)), ApplyAll(b.tree, Items(pages)));
        SweepUnderRoot(ApplyAll(a.tree, Items(pages)), r);
        SweepUnderRoot(ApplyAll(b.tree, Items(pages)), r);
      }
    }
  }

  /** Reloading a state that loses nothing gives the same state. */
  lemma ReloadSame(s: State, r: Id)
    requires RunsUnder(s.tree, r) && LosesNothing(s.tree)
    ensures SameState(Reloaded(s), s, r)
  {
    hide Agree, UniqueSiblings, LosesNothing;
    KeptIffLosesNothing(s.tree);
    assert RowsBelowRows(s.tree) by { LosesNothingRows(s.tree); }
    ReloadWellFormedIff(s.tree);
  }

  lemma LosesNothingRows(t: Tree)
    requires LosesNothing(t)
    ensures RowsBelowRows(t)
  {
  }

  lemma LikeTransitive(a: Tree, b: Tree, c: Tree)
    requires Like(a, b) && Like(b, c)
    ensures Like(a, c)
  {
  }

  /** The store stands at page `k` of the crawl from `s`. */
  ghost predicate StandsAt(store: Store, s: State, r: Id, pages: seq<Page>, k: nat) {
    k < |pages| && SameState(Working(store), Crawled(s, pages, k), r)
  }

  /** The crawl has been saved: the working file, or the live file after a promotion, holds
      exactly what one uninterrupted crawl saves. */
  ghost predicate Finished(store: Store, s: State, pages: seq<Page>) {
    Working(store) == Reloaded(Crawled(s, pages, |pages|))
  }

  /** An idle poll: one page without items whose token is the one already known. */
  predicate Idle(c: Cursor, pages: seq<Page>) {
    |pages| == 1 && pages[0].items == [] && c.pendingNextLink == None && c.deltaToken == pages[0].deltaToken
  }

  /** What a tick that does not fail has read when it stands at page `k`. */
  lemma TickReads(server: Str -> Response, store: Store, initial: Str, legacy: bool, rs: seq<Response>,
                  s: State, r: Id, url: Str, pages: seq<Page>, k: nat)
    returns (m: nat)
    requires Serves(server, url, pages) && StartUrl(s.cursor, initial) == url && FeedKeepsTo(r, pages)
    requires StandsAt(store, s, r, pages, k)
    requires Follows(server, Start(store, initial, legacy), store, initial, rs)
    requires !RunTick(store, initial, legacy, rs).failed
    ensures k + m <= |pages| && StartUrl(Working(store).cursor, initial) == UrlAt(url, pages, k)
    ensures var t := RunTick(store, initial, legacy, rs);
            && SameState(t.idx, Crawled(s, pages, k + m), r) && (t.done <==> k + m == |pages|)
            && t.target == Start(store, initial, legacy).target
  {
    hide Step, Loop, Follows, Serves, RunsUnder, Like, ApplyAll, StandsAt, SweepOrphans;
    var w, t0 := Working(store), Start(store, initial, legacy);
    assert SameState(w, Crawled(s, pages, k), r) && k < |pages| by { StandsAtIs(store, s, r, pages, k); }
    ServesFrom(server, url, pages, k);
    m := LoopReadsPages(server, t0, store, initial, rs, pages[k..]);
    FeedPart(r, pages, k);
    CrawlSame(w, Crawled(s, pages, k), r, pages[k..], m);
    CrawlOn(s, pages, k, m);
  }

  lemma StandsAtIs(store: Store, s: State, r: Id, pages: seq<Page>, k: nat)
    requires StandsAt(store, s, r, pages, k)
    ensures k < |pages| && SameState(Working(store), Crawled(s, pages, k), r)
  {
  }

  lemma FeedPart(r: Id, pages: seq<Page>, k: nat)
    requires FeedKeepsTo(r, pages) && k <= |pages|
    ensures FeedKeepsTo(r, pages[k..])
  {
    hide KeepsToRoot;
    assert pages[..k] + pages[k..] == pages;
    ItemsConcat(pages[..k], pages[k..]);
  }

  /** Finishing a crawl without a change to save means an idle poll. */
  lemma CleanFinishIsIdle(server: Str -> Response, t: Tick, store: Store, initial: Str, rs: seq<Response>, pages: seq<Page>)
    requires Follows(server, t, store, initial, rs) && Serves(server, t.url, pages) && !t.done && !t.failed
    requires var e := Loop(t, store, initial, rs); !e.failed && e.done && !e.dirty
    requires t.idx.cursor.pendingNextLink == None
    ensures Idle(t.idx.cursor, pages)
  {
    hide SweepOrphans, ApplyAll;
    var t' := Step(t, store, initial, rs[0]);
    StaysDirty(t', store, initial, rs[1..]);
  }

  /** A tick over the feed that has nothing to save has read nothing. */
  lemma CleanTickReadNothing(server: Str -> Response, store: Store, initial: Str, legacy: bool, rs: seq<Response>,
                             s: State, r: Id, url: Str, pages: seq<Page>, k: nat, m: nat)
    requires Serves(server, url, pages) && StartUrl(s.cursor, initial) == url && StandsAt(store, s, r, pages, k)
    requires !Idle(s.cursor, pages) && Follows(server, Start(store, initial, legacy), store, initial, rs)
    requires StartUrl(Working(store).cursor, initial) == UrlAt(url, pages, k) && k + m <= |pages|
    requires var t := RunTick(store, initial, legacy, rs);
             !t.failed && !t.dirty && t.idx.cursor == Crawled(s, pages, k + m).cursor && (t.done <==> k + m == |pages|)
    ensures m == 0
  {
    hide Step, Loop, Follows, Serves, RunsUnder, Like, ApplyAll, SweepOrphans;
    var t0 := Start(store, initial, legacy);
    CleanLoop(t0, store, initial, rs);
    ServesFrom(server, url, pages, k);
    if k + m == |pages| {
      assert pages[0..] == pages;
      CleanFinishIsIdle(server, t0, store, initial, rs, pages[k..]);
    } else if m > 0 {
      ServesFrom(server, url, pages, k + m);
      ServesUnique(server, UrlAt(url, pages, k), pages[k..], pages[k + m..]);
    }
  }

  lemma SavedWorking(store: Store, initial: Str, legacy: bool, t: Tick, next: Store)
    requires t.target == Start(store, initial, legacy).target
    requires next == Saved(store, t) || (Promotes(t) && next == Promoted(Saved(store, t)))
    ensures Working(next) == if t.dirty then Reloaded(t.idx) else Working(store)
  {
    hide Reload;
  }

  lemma FinishIsExact(a: State, b: State, r: Id)
    requires SameState(a, b, r)
    ensures Reloaded(a) == Reloaded(b)
  {
    hide Reload, Agree, Like;
    ReloadLike(a.tree, b.tree);
  }

  lemma ReloadedSame(a: State, b: State, r: Id)
    requires SameState(a, b, r) && LosesNothing(a.tree)
    ensures SameState(Reloaded(a), b, r)
  {
    hide Reload, LosesNothing, RunsUnder, Like;
    ReloadSame(a, r);
    LikeTransitive(Reloaded(a).tree, a.tree, b.tree);
  }

  /** One tick of the crawl - of any length, failing, crashing or not - leaves the store where
      it was, further on, or finished with exactly the uninterrupted result. Nothing may be
      pending when an unfinished tick saves. */
  lemma TickAdvances(server: Str -> Response, store: Store, next: Store, initial: Str, legacy: bool, rs: seq<Response>,
                     s: State, r: Id, url: Str, pages: seq<Page>, k: nat)
    returns (k': nat)
    requires Serves(server, url, pages) && StartUrl(s.cursor, initial) == url && FeedKeepsTo(r, pages)
    requires StandsAt(store, s, r, pages, k) && !Idle(s.cursor, pages)
    requires CrawlTick(server, initial, store, legacy, rs, next)
    ensures k <= k' <= |pages|
    ensures if k' == |pages| then Finished(next, s, pages) else StandsAt(next, s, r, pages, k')
  {
    hide RunTick, Follows, Serves, RunsUnder, Like, LosesNothing, ApplyAll, SweepOrphans, Reload, FeedKeepsTo;
    k' := k;
    var t := RunTick(store, initial, legacy, rs);
    if next != store {
      var m := TickReads(server, store, initial, legacy, rs, s, r, url, pages, k);
      k' := k + m;
      SavedWorking(store, initial, legacy, t, next);
      if !t.dirty {
        CleanTickReadNothing(server, store, initial, legacy, rs, s, r, url, pages, k, m);
      } else if k' == |pages| {
        FinishIsExact(t.idx, Crawled(s, pages, k'), r);
      } else {
        ReloadedSame(t.idx, Crawled(s, pages, k'), r);
      }
    }
  }

  /** A tick that follows the server and leaves nothing pending when it stops early. */
  ghost predicate CrawlTick(server: Str -> Response, initial: Str, store: Store, legacy: bool, rs: seq<Response>, next: Store) {
    && TickStep(store, initial, legacy, rs, next)
    && Follows(server, Start(store, initial, legacy), store, initial, rs)
    && (next == store || RunTick(store, initial, legacy, rs).done
        || LosesNothing(RunTick(store, initial, legacy, rs).idx.tree))
  }

  ghost predicate CrawlRun(server: Str -> Response, initial: Str, stores: seq<Store>) {
    forall i :: 0 <= i < |stores| - 1 ==> SomeCrawlTick(server, initial, stores[i], stores[i + 1])
  }

  ghost predicate SomeCrawlTick(server: Str -> Response, initial: Str, store: Store, next: Store) {
    exists legacy, rs :: CrawlTick(server, initial, store, legacy, rs, next)
  }

  /** However a crawl is split into ticks, and however many of them fail or crash: as long as it
      has not finished, the store stands at some page, never skipping or repeating one; and the
      snapshot it finishes with is the one an uninterrupted crawl saves. */
  lemma {:induction false} ResumedCrawlIsUninterrupted(server: Str -> Response, initial: Str, stores: seq<Store>,
                                                       r: Id, url: Str, pages: seq<Page>, i: nat)
    requires CrawlRun(server, initial, stores) && i < |stores|
    requires Serves(server, url, pages) && FeedKeepsTo(r, pages)
    requires var s := Working(stores[0]);
             RunsUnder(s.tree, r) && StartUrl(s.cursor, initial) == url && !Idle(s.cursor, pages)
    ensures var s := Working(stores[0]);
            || (exists j :: 0 <= j <= i && Finished(stores[j], s, pages))
            || (exists k :: StandsAt(stores[i], s, r, pages, k))
    decreases i
  {
    hide CrawlTick, Serves, RunsUnder, FeedKeepsTo, Finished, Idle;
    var s := Working(stores[0]);
    if i == 0 {
      StandsAtStart(stores[0], r, pages, server, url);
    } else {
      ResumedCrawlIsUninterrupted(server, initial, stores, r, url, pages, i - 1);
      var store, next := stores[i - 1], stores[i];
      if k :| StandsAt(store, s, r, pages, k) {
        assert SomeCrawlTick(server, initial, stores[i - 1], stores[i - 1 + 1]);
        var legacy, rs :| CrawlTick(server, initial, store, legacy, rs, next);
        var k' := TickAdvances(server, store, next, initial, legacy, rs, s, r, url, pages, k);
        if k' < |pages| { assert StandsAt(next, s, r, pages, k'); }
      }
    }
  }

  lemma StandsAtStart(store: Store, r: Id, pages: seq<Page>, server: Str -> Response, url: Str)
    requires Serves(server, url, pages) && RunsUnder(Working(store).tree, r)
    ensures StandsAt(store, Working(store), r, pages, 0)
  {
    hide RunsUnder;
  }

  function Pages(pages: seq<Page>): seq<Response> {
    if pages == [] then [] else [Got(pages[0])] + Pages(pages[1..])
  }

  /** The uninterrupted crawl: one tick that reads every page. */
  lemma {:induction false} UninterruptedLoop(server: Str -> Response, t: Tick, store: Store, initial: Str, pages: seq<Page>)
    requires Serves(server, t.url, pages) && !t.done && !t.failed
    ensures var e := Loop(t, store, initial, Pages(pages));
            e.idx == Crawled(t.idx, pages, |pages|) && e.done && !e.failed
    decreases |pages|
  {
    hide SweepOrphans, ApplyAll, Items, Crawled;
    var t' := Step(t, store, initial, Got(pages[0]));
    assert Pages(pages)[0] == Got(pages[0]) && Pages(pages)[1..] == Pages(pages[1..]);
    if |pages| == 1 {
      CrawlOnly(t.idx, pages);
      assert Loop(t', store, initial, Pages(pages[1..])) == t';
    } else {
      UninterruptedLoop(server, t', store, initial, pages[1..]);
      assert pages == [pages[0]] + pages[1..];
      CrawlOneMore(t.idx, pages[0], pages[1..], |pages| - 1);
    }
  }

  // ---------------------------------------------------------------- a tick that gets through

  /** A tick that follows the server, asks at least once for every page and meets no error reads them
      all, and has something to save exactly unless the poll was idle. */
  lemma {:induction false} LoopReadsAll(server: Str -> Response, t: Tick, store: Store, initial: Str, rs: seq<Response>, pages: seq<Page>)
    requires Follows(server, t, store, initial, rs) && Serves(server, t.url, pages) && !t.done && !t.failed
    requires |rs| >= |pages| && Other !in rs
    ensures var e := Loop(t, store, initial, rs);
            && e.idx == Crawled(t.idx, pages, |pages|) && e.done && e.complete && !e.failed && e.target == t.target
            && (e.dirty <==> t.dirty || !Idle(t.idx.cursor, pages))
    decreases |rs|
  {
    hide SweepOrphans, ApplyAll, Items, Crawled;
    var t' := Step(t, store, initial, rs[0]);
    assert rs[0] in rs && forall r :: r in rs[1..] ==> r in rs;
    if |pages| == 1 {
      CrawlOnly(t.idx, pages);
      assert Loop(t', store, initial, rs[1..]) == t';
    } else {
      LoopReadsAll(server, t', store, initial, rs[1..], pages[1..]);
      assert pages == [pages[0]] + pages[1..];
      CrawlOneMore(t.idx, pages[0], pages[1..], |pages| - 1);
    }
  }

  /** The snapshot a tick works on: the rebuild, else the live one, else an empty index that has
      neither token nor link. */
  predicate WorksOn(store: Store, s: State) {
    if store.rebuild.Some? then store.rebuild == Some(s)
    else if store.live.Some? then store.live == Some(s)
    else s == State(Tree(map[], map[], None), Cursor(None, None, false, 0))
  }

  /** Where the crawl of a snapshot goes on: at its pending link, else at its token, else at the
      beginning. */
  predicate GoesOnAt(c: Cursor, initial: Str, url: Str) {
    || c.pendingNextLink == Some(url)
    || (c.pendingNextLink == None && c.deltaToken == Some(url))
    || (c.pendingNextLink == None && c.deltaToken == None && url == initial)
  }

  /** What a tick that gets through leaves: a finished rebuild becomes the live snapshot. */
  function Left(store: Store, t: Tick): Store { if Promotes(t) then Promoted(Saved(store, t)) else Saved(store, t) }

  /** A poll. The tick asks where the crawl of its snapshot goes on - at the link, the token or the
      beginning, whatever the server would have answered elsewhere - and what it finds there is the
      live snapshot afterwards, with no rebuild left beside it. Only an idle poll of the live snapshot
      saves nothing. */
  lemma PollCrawlsOn(server: Str -> Response, store: Store, initial: Str, legacy: bool, rs: seq<Response>, s: State, url: Str,
                     pages: seq<Page>)
    requires WorksOn(store, s) && GoesOnAt(s.cursor, initial, url) && Serves(server, url, pages)
    requires Follows(server, Start(store, initial, legacy), store, initial, rs) && |rs| >= |pages| && Other !in rs
    ensures var t, end := RunTick(store, initial, legacy, rs), Crawled(s, pages, |pages|);
            && t.idx == end && t.done && !t.failed && (t.dirty <==> legacy || !Idle(s.cursor, pages))
            && (Promotes(t) <==> store.rebuild.Some?)
            && Left(store, t) == if legacy || !Idle(s.cursor, pages) then Store(Some(Reloaded(end)), None)
                                 else if store.rebuild.Some? then Store(store.rebuild, None) else store
  {
    hide Reload, Serves, Follows, Crawled, Idle, Loop;
    LoopReadsAll(server, Start(store, initial, legacy), store, initial, rs, pages);
  }

  /** A tick that is sent round in circles - the pending link leads to pages that hold nothing and name
      that same link again - saves nothing, however many of them it reads. */
  lemma {:induction false} CircleSavesNothing(t: Tick, store: Store, initial: Str, rs: seq<Response>, link: Str)
    requires t.idx.cursor.pendingNextLink == Some(link) && !t.dirty && !t.done
    requires forall r :: r in rs ==> r.Got? && r.page.items == [] && r.page.nextLink == Some(link)
    ensures Saved(store, Loop(t, store, initial, rs)) == store
    decreases |rs|
  {
    hide ApplyAll, SweepOrphans, Reload;
    if rs != [] && !t.failed {
      assert rs[0] in rs && forall r :: r in rs[1..] ==> r in rs;
      CircleSavesNothing(Step(t, store, initial, rs[0]), store, initial, rs[1..], link);
    }
  }

  /** A stale token or link. The server wants to start over, and the same tick crawls everything from
      the beginning, into an empty index of the next generation; that replaces both snapshots. */
  lemma StaleLinkStartsOver(server: Str -> Response, store: Store, initial: Str, legacy: bool, rs: seq<Response>, s: State, url: Str,
                            pages: seq<Page>)
    requires WorksOn(store, s) && GoesOnAt(s.cursor, initial, url) && server(url) == Resync && Serves(server, initial, pages)
    requires Follows(server, Start(store, initial, legacy), store, initial, rs) && |rs| > |pages| && Other !in rs && StoreOk(store)
    ensures var t, g := RunTick(store, initial, legacy, rs), s.cursor.generation;
            var blank := State(EMPTY_TREE, Cursor(None, None, false, if g == 0xFFFF_FFFF_FFFF_FFFF then g else g + 1));
            && t.idx == Crawled(blank, pages, |pages|) && t.done && !t.failed
            && Left(store, t) == Store(Some(Reloaded(Crawled(blank, pages, |pages|))), None)
  {
    hide Reload, Serves, Crawled, Idle;
    var t0 := Start(store, initial, legacy);
    var t1 := StartOver(t0, store, initial);
    assert rs[0] in rs && forall r :: r in rs[1..] ==> r in rs;
    assert Step(t0, store, initial, rs[0]) == t1;
    LoopReadsAll(server, t1, store, initial, rs[1..], pages);
  }

  /** While a crawl that had to start over is under way, a live snapshot that is complete or has a root
      stays and the crawl goes to the rebuild; a live snapshot that is neither is overwritten. */
  lemma RestartSparesLive(store: Store, initial: Str, legacy: bool, rs: seq<Response>)
    requires Restarts(rs) > 0 && !RunTick(store, initial, legacy, rs).failed
    ensures var t, live := RunTick(store, initial, legacy, rs), store.live;
            Saved(store, t) ==
            if live.Some? && (live.value.cursor.crawlComplete || live.value.tree.root.Some?)
            then Store(live, Some(Reloaded(t.idx))) else Store(Some(Reloaded(t.idx)), store.rebuild)
  {
    hide Reload, Loop;
    var t0 := Start(store, initial, legacy);
    LoopDrifts(t0, t0, store, initial, rs, false);
  }

  /** A tick whose requests all reach the server is answered the pages, in order, and nothing else. */
  lemma {:induction false} AnsweredPages(server: Str -> Response, graph: seq<Str -> Response>, t: Tick, store: Store, initial: Str,
                                         pages: seq<Page>)
    requires forall i, url :: 0 <= i < |graph| ==> graph[i](url) == server(url)
    requires Serves(server, t.url, pages) && |graph| >= |pages| && !t.done && !t.failed
    ensures var rs := Answered(graph, t, store, initial);
            rs == Pages(pages) && |rs| == |pages| && Other !in rs && Follows(server, t, store, initial, rs)
    decreases |graph|
  {
    hide ApplyAll, SweepOrphans;
    var n := Step(t, store, initial, Got(pages[0]));
    assert graph[0](t.url) == Got(pages[0]);
    var rest := Answered(graph[1..], n, store, initial);
    assert ([Got(pages[0])] + rest)[1..] == rest;
    if |pages| == 1 {
      assert pages[1..] == [] && rest == [];
    } else {
      AnsweredPages(server, graph[1..], n, store, initial, pages[1..]);
    }
  }

  lemma CrawlOnly(s: State, pages: seq<Page>)
    requires |pages| == 1
    ensures Crawled(s, pages, 1) ==
            State(SweepOrphans(ApplyAll(s.tree, pages[0].items)),
                  s.cursor.(pendingNextLink := None, crawlComplete := true, deltaToken := pages[0].deltaToken))
  {
    assert pages[1..] == [] && pages[0].items + [] == pages[0].items;
    assert Items(pages) == pages[0].items;
  }

  // ---------------------------------------------------------------- a pending item at a boundary

  const ROOT_ID: Id := [1]
  const DIR_ID: Id := [2]
  const FILE_ID: Id := [3]

  function RootItem(meta: ItemMeta): DeltaItem { DeltaItem(ROOT_ID, None, [], false, true, meta.(isDir := true)) }

  function DirItem(meta: ItemMeta): DeltaItem {
    DeltaItem(DIR_ID, Some(ROOT_ID), [5], false, false, meta.(isDir := true))
  }

  function FileItem(meta: ItemMeta): DeltaItem { DeltaItem(FILE_ID, Some(DIR_ID), [4], false, false, meta) }

  /** A file arrives on the first page, its directory on the second. */
  function SplitPages(meta: ItemMeta, link: Str, token: Str): seq<Page> {
    [Page([RootItem(meta), FileItem(meta)], Some(link), None), Page([DirItem(meta)], None, Some(token))]
  }

  /** Two ticks that take one page each finish the crawl without the file; one tick that takes both
      has it: where an item is pending when a tick saves, resumption is not equivalent. */
  lemma PendingItemStaysLost(server: Str -> Response, initial: Str, link: Str, token: Str, meta: ItemMeta)
    requires var pages := SplitPages(meta, link, token);
             server(initial) == Got(pages[0]) && server(link) == Got(pages[1])
    ensures var pages, none := SplitPages(meta, link, token), Store(None, None);
            var one, two := [Got(pages[0])], [Got(pages[1])];
            var s1 := Saved(none, RunTick(none, initial, false, one));
            var s2 := Saved(s1, RunTick(s1, initial, false, two));
            && Serves(server, initial, pages)
            && TickStep(none, initial, false, one, s1) && Follows(server, Start(none, initial, false), none, initial, one)
            && TickStep(s1, initial, false, two, s2) && Follows(server, Start(s1, initial, false), s1, initial, two)
            && Working(s2).cursor == Crawled(EMPTY_STATE, pages, 2).cursor
            && FILE_ID !in Working(s2).tree.nodes && FILE_ID in Reloaded(Crawled(EMPTY_STATE, pages, 2)).tree.nodes
  {
    hide Reload, SweepOrphans, ApplyAll;
    var pages, none := SplitPages(meta, link, token), Store(None, None);
    var t1 := OneResponse(none, initial, Got(pages[0]));
    var s1 := Saved(none, t1);
    var t2 := OneResponse(s1, initial, Got(pages[1]));
    assert pages[1..] == [pages[1]];
    PendingTrees(meta);
    CrawledBoth(meta, link, token);
  }

  /** A tick with one answer. */
  lemma OneResponse(store: Store, initial: Str, a: Response) returns (t: Tick)
    ensures t == RunTick(store, initial, false, [a]) == Step(Start(store, initial, false), store, initial, a)
  {
    hide Step;
    var t0 := Start(store, initial, false);
    assert [a][1..] == [];
    t := Step(t0, store, initial, a);
    assert Loop(t, store, initial, []) == t;
    assert Loop(t0, store, initial, [a]) == Loop(t, store, initial, [a][1..]);
  }

  lemma CrawledBoth(meta: ItemMeta, link: Str, token: Str)
    ensures var c := Crawled(EMPTY_STATE, SplitPages(meta, link, token), 2);
            && c.tree == SweepOrphans(ApplyAll(EMPTY_TREE, [RootItem(meta), FileItem(meta), DirItem(meta)]))
            && c.cursor == Cursor(Some(token), None, true, 0)
  {
    hide SweepOrphans, ApplyAll;
    var pages := SplitPages(meta, link, token);
    assert pages[1..] == [pages[1]] && [pages[1]][1..] == [];
    assert Items(pages[1..]) == pages[1].items + Items([]) == pages[1].items;
    assert Items(pages) == [RootItem(meta), FileItem(meta), DirItem(meta)];
  }

  lemma PendingTrees(meta: ItemMeta)
    ensures var page, last := [RootItem(meta), FileItem(meta)], [DirItem(meta)];
            && FILE_ID !in Reload(SweepOrphans(ApplyAll(Reload(ApplyAll(EMPTY_TREE, page)), last))).nodes
            && FILE_ID in Reload(SweepOrphans(ApplyAll(EMPTY_TREE, page + last))).nodes
    ensures [RootItem(meta), FileItem(meta)] + [DirItem(meta)] == [RootItem(meta), FileItem(meta), DirItem(meta)]
  {
    hide Reload, SweepOrphans;
    var page, d := [RootItem(meta), FileItem(meta)], DirItem(meta);
    PendingItemIsLost(meta);
    var kept := Reload(ApplyAll(EMPTY_TREE, page));
    assert ApplyAll(kept, [d]) == Apply(kept, d) by { assert [d][1..] == []; }
    NotBrought(kept, d, FILE_ID);
    var t := ApplyAll(EMPTY_TREE, page);
    ApplyAllSnoc(EMPTY_TREE, page, d);
    FirstPageTree(meta);
    WholeTree(t, meta);
  }

  /** Neither an item for another node nor a sweep nor a load brings a node back. */
  lemma NotBrought(t: Tree, it: DeltaItem, id: Id)
    requires id !in t.nodes && it.id != id
    ensures id !in Reload(SweepOrphans(Apply(t, it))).nodes
  {
    hide Apply, SweepOrphans;
    AppliedNodes(t, it, id);
    SweptNodes(Apply(t, it), id);
    ReloadNodes(SweepOrphans(Apply(t, it)), id);
  }

  lemma SweptNodes(t: Tree, id: Id)
    requires id !in t.nodes
    ensures id !in SweepOrphans(t).nodes
  {
  }

  /** The tree after the first page. */
  lemma FirstPageTree(meta: ItemMeta)
    ensures var t := ApplyAll(EMPTY_TREE, [RootItem(meta), FileItem(meta)]);
            && t.nodes == map[ROOT_ID := Node(None, [], meta.(isDir := true)), FILE_ID := Node(Some(DIR_ID), [4], meta)]
            && t.kids == map[DIR_ID := {Entry([4], FILE_ID)}] && t.root == Some(ROOT_ID)
  {
    var a, b := RootItem(meta), FileItem(meta);
    var t1 := Apply(EMPTY_TREE, a);
    assert [a] + [b] == [a, b] && [a][1..] == [];
    assert ApplyAll(EMPTY_TREE, [a]) == t1;
    ApplyAllSnoc(EMPTY_TREE, [a], b);
    assert t1.kids == map[] && Detach(t1, b) == t1 && Named(t1, DIR_ID, [4]) == {};
    assert KidSet(t1, DIR_ID) + {Entry([4], FILE_ID)} == {Entry([4], FILE_ID)};
  }

  /** With the directory the file has a path, and is recorded. */
  lemma WholeTree(t: Tree, meta: ItemMeta)
    requires t.nodes == map[ROOT_ID := Node(None, [], meta.(isDir := true)), FILE_ID := Node(Some(DIR_ID), [4], meta)]
    requires t.kids == map[DIR_ID := {Entry([4], FILE_ID)}] && t.root == Some(ROOT_ID)
    ensures FILE_ID in Reload(SweepOrphans(Apply(t, DirItem(meta)))).nodes
  {
    var d := DirItem(meta);
    var u := Apply(t, d);
    assert Detach(t, d) == t && Named(t, ROOT_ID, [5]) == {};
    assert u.nodes == t.nodes[DIR_ID := Node(Some(ROOT_ID), [5], d.meta)];
    assert WalksToRoot(u, ROOT_ID, WALK_LIMIT - 2);
    assert WalksToRoot(u, DIR_ID, WALK_LIMIT - 1);
    assert WalksToRoot(u, FILE_ID, WALK_LIMIT) && WalksToRoot(u, DIR_ID, WALK_LIMIT) && WalksToRoot(u, ROOT_ID, WALK_LIMIT);
    var s := SweepOrphans(u);
    assert s.nodes == u.nodes;
    assert Climb(s, ROOT_ID, WALK_LIMIT - 1) == Some([]);
    assert PathOf(s, DIR_ID).Some?;
    assert HasRow(s, DIR_ID);
    ReloadNodes(s, FILE_ID);
  }

  // ---------------------------------------------------------------- ticks without a save

  /** Every node of the tree has a path. */
  ghost predicate AllHavePaths(t: Tree) { forall id :: id in t.nodes ==> PathOf(t, id).Some? }

  lemma SweepOfAllPaths(t: Tree)
    requires WellFormed(t) && Reload(t) == t && t.root.Some? && AllHavePaths(t)
    ensures SweepOrphans(t) == t
  {
    hide PathOf, UniqueSiblings;
    forall id | id in t.nodes ensures id in Survivors(t) { SurvivorsHavePaths(t, id); }
    forall p | p in t.kids ensures p in Survivors(t) && (set e | e in t.kids[p] && e.id in Survivors(t)) == t.kids[p] {
      assert forall e :: e in t.kids[p] ==> e in KidSet(t, p) && HasPlace(t, e.id, p, e.name);
      assert p in Reload(t).kids;
    }
  }

  /** A tick that ends with nothing marked for saving holds in memory exactly what the file
      holds - except that a finished poll sweeps nodes that lie too deep to have a path, which
      the file keeps. */
  lemma CleanTickLosesNothing(store: Store, initial: Str, rs: seq<Response>)
    requires StoreOk(store) && AllCarryToken(rs)
    requires var w := Working(store).tree; WellFormed(w) && Reload(w) == w
    requires var t := RunTick(store, initial, false, rs); !t.dirty && !t.failed
    ensures var t := RunTick(store, initial, false, rs);
            Reloaded(t.idx) == Working(store) <==>
            (t.done && Working(store).tree.root.Some? ==> AllHavePaths(Working(store).tree))
  {
    hide Step, PathOf, Agree, UniqueSiblings;
    var t, w := RunTick(store, initial, false, rs), Working(store).tree;
    CleanLoop(Start(store, initial, false), store, initial, rs);
    CleanTickKeepsCursor(store, initial, rs);
    if t.done && w.root.Some? {
      if AllHavePaths(w) {
        SweepOfAllPaths(w);
      } else {
        var id :| id in w.nodes && PathOf(w, id) == None;
        SurvivorsHavePaths(w, id);
        assert id !in Reload(SweepOrphans(w)).nodes;
      }
    }
  }
}
