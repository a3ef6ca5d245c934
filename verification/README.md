# OneDrive WebDAV index: a verified model

A Dafny model of the metadata index of a OneDrive WebDAV daemon: the id-keyed namespace that an
unordered `/delta` feed updates, the segmented file it is saved to and looked up in, the two-file
sync tick that keeps it fresh, and the date, path and admission code around it.

| file | content |
|---|---|
| `Bytes.dfy`, `Paths.dfy` | byte strings, their order, UTF-8, little-endian integers; path helpers |
| `Namespace.dfy`, `Agreement.dfy` | what `apply` and `remove` make of the two maps, and the agreement between the maps |
| `Resolution.dfy`, `Moves.dfy`, `PathEdits.dfy` | walking down and up; what attaching, moving, removing and upserting do to every path |
| `Sweep.dfy`, `Ordering.dfy` | the orphan sweep; independence of the order of the feed |
| `Index.dfy` | the index object, updated in place, proved against the functions above |
| `Records.dfy`, `Snapshot.dfy`, `SnapshotLookup.dfy`, `SnapshotDecode.dfy`, `Reloading.dfy` | the file format, lookups in it, decoding, and what a save and a load keep |
| `Listings.dfy`, `Damage.dfy` | what a listing shows and the metadata count; files that are cut short, continued or not written by an encode |
| `SnapshotWriter.dfy`, `SnapshotReader.dfy`, `SnapshotStore.dfy` | the loops that encode and decode, and load, save, lookup and patch on files |
| `StateFile.dfy` | short reads and writes, replacement by rename, crash points |
| `Sync.dfy`, `Resumption.dfy`, `SyncTick.dfy` | the tick as steps over two files, resumed crawls, and the tick itself on files |
| `Answers.dfy`, `WriteThrough.dfy` | which lookups an edit leaves alone; what deletes, upserts, moves and items do to later lookups |
| `Kinds.dfy` | what Graph says of folders and files for good, and what that keeps of every tree |
| `Patching.dfy`, `Requests.dfy` | write-throughs and ticks as runs on the same two files; what a request written through them does to every later lookup |
| `Orphans.dfy` | what a directory below a file comes to |
| `Depth.dfy` | a chain of directories one deeper than the upward walks |
| `CivilDate.dfy`, `Href.dfy`, `Admission.dfy` | dates; percent-encoding, sanitising and listings; the host's admission queue |

## How the source is rendered

- Strings are byte sequences in byte-lexicographic order, UTF-8 validity is defined in full. The
  JSON codec of the snapshot metadata is a parameter with a round-trip hypothesis (`Faithful`).
- The index is a class with the source's fields; a `BTreeSet` of children is a set of entries whose
  order is given by `SortEntries`. Loops over maps and sets visit their elements in any order, so
  what is proved does not depend on hash order. `Index.Remove` and `Index.RemoveChildren` are one
  function in the source, as are `RunInner`, `LoadWorking`, `Crawl`, `Restart` and `Finish`.
- Clocks, Graph and the operating system are arbitrary: the answers to requests and the moments the
  time budget is over are parameters, and every write may be short or fail. Every call of the
  operating system records the state of the directory, so that statements about all recorded states
  are statements about all crash points.
- Sorting and binary search are the library's in the source; they are modelled by insertion and by
  plain bisection, and used through their contracts on sorted tables.

## Hypotheses

Each is a contract of the members it concerns.

- The feed keeps to one root (`KeepsToRoot`): no second id is tagged root, and the root gets no
  parent. `ApplyKeepsWellFormed` says that a step breaks the maps exactly when it does otherwise.
- Runs on files are runs on one drive (`OfDrive`, `PatchOfDrive`): an id of Graph's is a folder or a
  file for good and does not start with `local:`, items hang below folders, and requests that are
  written through make nodes below directories, keep kinds, and neither move nor delete `/`. All of
  this is asked of Graph and of requests, nothing of the trees and files on the way.
  `OrphanAnswersAtRoot` shows what a feed of no drive comes to.
- Names are non-empty and have no slash (`GoodNames`), ids are non-empty. `FeedKeepsNames` keeps both.
- Strings, blocks, tables and offsets fit their fields (`Fits`).
- The last page of a crawl carries a token (`CarriesToken`). `PromotionIffToken` says of any pages
  whether they promote a complete snapshot, and `TokenlessPagePromotesUnfinished` is a run without it.
- Nothing is pending when an unfinished tick saves (`LosesNothing`). `KeptIffLosesNothing` is the exact
  role of this; in `PendingItemStaysLost` a crawl of two ticks finishes without an item that one tick
  would have.
- The made-up id of an insertion is fresh (`Fresh`). `InsertAloneIffFresh` is the exact role of this, and
  `SecondPutDropsMoved` a sequence of requests in which it is not.
- An upsert keeps the kind of a node that is there (`KeepsKind`), when lookups elsewhere are concerned.
  `KindMatters` is the exact role of this.
- Files that exist can be opened and read (`Directory.readable`) where a run is claimed to be safe: the
  source takes a file it cannot open for a missing one. `RunInner` is specified without this, and
  `UnopenedFilesSafeIff` and `UnopenedPromotionSafeIff` say exactly when such a tick is safe;
  `UnopenedLiveIsReplaced` is one that is not.
- A read returns no bytes only at the end of the file (`Directory.Read`): the source stops at any empty
  chunk and takes what it has for the whole.
- Success of a tick or a write-through is promised while calls that write do not fail
  (`Directory.writable`); safety is promised whether they fail or not.
- `decode` slices the directory table without a check (`TableInRange`); encoded files satisfy this.

## Where the code is not what it seems

- A saved and loaded tree is consistent exactly when every recorded directory hangs below a recorded
  directory (`ReloadWellFormedIff`); a directory below a file loses its parent
  (`DirectoryBelowFileIsOrphaned`), its path becomes `/`, and after the next save the lookup of `/` may
  answer with it and its children (`OrphanAnswersAtRoot`).
- Both upward walks stop after 64 nodes, `resolve` does not: a sweep makes paths of 64 and more
  segments unresolvable (`SweepKeepsResolve`, `DeepNodeIsSwept`), and a finished poll that has nothing
  to save may have swept such nodes in memory while the file keeps them (`CleanTickLosesNothing`,
  `IdlePollSweepsDeepNode`). A directory at depth 64 has a record and no table row: an upsert below it
  succeeds and is found by no lookup (`DeepUpsertIsNotShown`).
- The made-up id of an upsert by path is `local:` and the path. A node that was made so and then moved
  keeps it, and the next upsert at the old path takes the node away from its new one
  (`SecondPutDropsMoved`).
- The rewrite of files of an older format happens once, except that a file written at time 0, or for a
  finished crawl that saw no root, is rewritten by every tick (`RewrittenIsCurrent`).
- A move whose destination directory lies inside what is moved makes the whole subtree unreachable
  (`MoveInsideResolves`, `MoveLandsIffOutside`).
- The comment on `sanitize_path` and the repository's README say that `.` segments are rejected; the
  code drops them. The model follows the code.

## Model

| member | source | states |
|---|---|---|
| Agreement.ApplyKeepsWellFormed | src/index.rs:47-122 | One item keeps both maps in agreement, sibling names unique and the root the one parentless node, exactly when it does not misuse the root; for every item and every such tree. |
| Agreement.FeedKeepsAgreement | src/index.rs:47-122 | The same over every feed that keeps to one root: out of order, repeated, with deletions, dangling parents, cycles and clashes. |
| IndexObject.Index.Remove | src/index.rs:106-122 | In any state of the maps, also half-updated or cyclic, removal takes out exactly the ids below `id` and the one entry each has in its parent's set, and terminates. |
| Moves.DownIsDescendants | src/index.rs:106-122 | The ids below a node, defined as the least set closed under children, are exactly those with the node on their parent chain. |
| IndexObject.Index.Apply | src/index.rs:47-104 | The method's whole effect on the three fields, in any state, including the eviction of the first clashing sibling's subtree. |
| Moves.DeletionLoses | src/index.rs:51-54 | A deletion item, for whatever id, takes out exactly the ids with it on their parent chain and leaves every other record alone; exactly the paths at and below it stop resolving. |
| Ordering.ItemTakesEffect | src/index.rs:47-104 | In any state of the maps: a tombstone leaves nothing under its id, an item with a tag or a parent leaves its record there, a tag makes its id the root, and nothing else has an effect. |
| Ordering.LastTombstoneHolds | src/index.rs:47-122 | Whatever else a feed holds, and whatever tree it meets, an id whose last record is a tombstone is gone at its end. |
| Moves.GraftResolves | src/index.rs:71-103 | What every path resolves to once a node sits at a new place: its old subtree below it, nothing where that was, everything else as before. |
| Moves.AttachGrafts | src/index.rs:71-103 | `apply` of an item from outside its own subtree is such a graft, evictions included. |
| Moves.LossResolves | src/index.rs:106-122 | When a subtree is lost, exactly the paths into it stop resolving. |
| Moves.RemovalLoses | src/index.rs:106-122 | A removal loses exactly the subtree of its id. |
| Moves.FeedKeepsNames | src/index.rs:47-104 | Feeds of well-named items build trees whose names have no slash and are not empty. |
| IndexObject.Index.Resolve | src/index.rs:124-136 | The loop walks down as the recursive definition does. |
| Resolution.ResolveIffSteps | src/index.rs:124-136 | In any state of the maps a path leads to an id exactly along a chain of child-set entries from the recorded root, each the first of its name. |
| IndexObject.Index.PathOf | src/index.rs:149-170 | The loop with its reversed segment list is the 64-node upward walk. |
| Resolution.ResolveIffClimb | src/index.rs:124-170 | A path of fewer than n segments leads to a node exactly when the n-node upward walk from it spells that path. |
| Resolution.ResolveIffPathOf | src/index.rs:124-170 | On strings: below 64 segments `resolve(p)` is `id` exactly when `path_of(id)` is `p` in normal form. |
| Resolution.PathOfResolves | src/index.rs:149-170 | `resolve(path_of(id))` is `id`. |
| Resolution.PathOfInjective | src/index.rs:149-170 | No two ids have the same path. |
| Resolution.ResolvedChainIsAcyclic | src/index.rs:124-136 | What a path resolves to has an acyclic parent chain that ends at the root, whatever cycles exist elsewhere. |
| Paths.HelpersSplitSegments | src/index.rs:279-293 | For every string, `last_segment` and `parent_path` split its segment list into the last and the others. |
| Paths.SegmentsOfRender | src/index.rs:295-302 | Splitting a normal form gives back its segments. |
| IndexObject.Index.SweepOrphans | src/index.rs:173-213 | The loops keep exactly the nodes that walk to the root within 64 nodes. |
| Sweep.SurvivorsReachRoot | src/index.rs:173-213 | In any state of the maps, cycles included: what is kept is exactly what has the recorded root among itself and its 63 nearest ancestors. |
| Sweep.SurvivorsHavePaths | src/index.rs:173-213 | The survivors are exactly the nodes for which `path_of` was defined. |
| Sweep.SweepKeepsPaths | src/index.rs:173-213 | No survivor's path changes, and nothing without a path - dangling or cyclic - is left. |
| Sweep.SweepKeepsResolve | src/index.rs:173-213 | `resolve` of paths below 64 segments is unchanged, and of longer ones undefined. |
| Sweep.SweepTwice | src/index.rs:173-213 | Sweeping is idempotent. |
| Depth.DeepNodeIsSwept | src/index.rs:149-213 | In a chain of 64 directories below the root the last one resolves, has no path, and is swept. |
| Depth.IdlePollSweepsDeepNode | src/sync.rs:100-145 | An idle poll with nothing to save loses that node from memory while the file keeps it. |
| Depth.DeepUpsertIsNotShown | src/snapshot.rs:69-100 | An upsert below that node succeeds, and no lookup finds what it made. |
| Ordering.FeedIsLastRecords | src/index.rs:47-104 | Without deletions and collisions a feed gives the old nodes overwritten by the last record of each id. |
| Ordering.OrderDoesNotMatter | src/index.rs:346-355 | Two such feeds with the same last records build the same nodes, root and child sets. |
| IndexObject.Index.UpsertAtPath | src/index.rs:217-241 | The method's whole effect and its result. |
| PathEdits.UpsertAtPathResolves | src/index.rs:217-241 | It succeeds exactly when the path or its parent resolves, leaves the metadata at the path, a new node under the id `local:` and the path, and changes no other path. |
| PathEdits.ItemThenUpsert | src/dav.rs:261-274 | With Graph's item: the item alone if it put something at the path, else the edit by path after it; an upsert that applies leaves something at the path. |
| PathEdits.InsertAloneIffFresh | src/index.rs:232-240 | An insertion leaves all other paths alone exactly when its id is fresh. |
| PathEdits.SecondPutDropsMoved | src/index.rs:217-276 | For all such paths: upsert at `a`, move to `b`, upsert at `a` again; the second upsert re-uses the made-up id and nothing is left at `b`. |
| PathEdits.PatchKeepsRoot | src/dav.rs:261-364 | A patch of the handlers takes the root away exactly when it deletes `/`, or its item deletes the root. |
| PathEdits.PatchKeepsWellFormed | src/dav.rs:261-364 | Such a patch keeps the maps in agreement and the names usable, unless its item, its made-up id or a move of `/` misuses the root. |
| IndexObject.Index.RemoveAtPath | src/index.rs:243-250 | The method's whole effect and its result. |
| PathEdits.RemoveAtPathResolves | src/index.rs:243-250 | The path and everything below is gone, every other path is unchanged; a removal that does not apply changes nothing. |
| IndexObject.Index.MoveAtPath | src/index.rs:252-276 | The method's whole effect and its result. |
| PathEdits.MoveAppliesIff | src/index.rs:252-276 | A move applies exactly if there is something at `from`, `to` is not `/` and its parent is there; otherwise the tree stays as it is. |
| PathEdits.ItemThenMove | src/dav.rs:348-364 | With Graph's item: the item alone if it put something at `to`, else the move by path after it. |
| PathEdits.MoveAtPathResolves | src/index.rs:252-276 | Every path below `to` resolves to what it did below `from`, the rest of `from` to nothing, all others as before; also when `to` is occupied or above `from`. |
| PathEdits.MoveInsideResolves | src/index.rs:252-276 | A move into itself loses exactly the moved subtree. |
| PathEdits.MoveLandsIffOutside | src/index.rs:252-276 | The node lands at `to` exactly when the destination directory lies outside it. |
| Records.ParseRowsIffWritten | src/snapshot.rs:508-550 | A table is accepted exactly when the bytes of well-formed rows stand there; accepted rows serialise to the bytes read. |
| Records.ParseChildrenIffHeld | src/snapshot.rs:462-506 | A block is accepted exactly when it holds well-formed records to its last byte. |
| Records.AcceptedBlockSerialises | src/snapshot.rs:462-506 | An accepted block is consumed completely and serialises to itself, up to set flags other than 1. |
| Records.ReadStrIffWritten | src/snapshot.rs:441-460 | A string is read exactly where its length-prefixed UTF-8 bytes stand. |
| Records.ChildLayout | src/snapshot.rs:462-469 | Where each field of a child record stands, byte by byte. |
| Records.RowLayout | src/snapshot.rs:508-516 | The same for a directory row. |
| Bytes.LittleEndian | src/snapshot.rs:394-401 | What four bytes, and more behind them, stand for: least significant first. |
| Bytes.Utf8IffScalars | src/snapshot.rs:447-460 | A string is valid exactly if it is the encoding of a sequence of Unicode scalar values (section 3 of RFC 3629). |
| Bytes.LessIffFirstDifference | src/snapshot.rs:388-392 | The order of strings is that of the first differing byte, a proper prefix first. |
| Records.ParseChildBlock | src/snapshot.rs:471-506 | The loop over arbitrary bytes stays in bounds, terminates and parses as specified. |
| Records.ParseDirTable | src/snapshot.rs:518-550 | The same for the directory table. |
| SnapshotWriter.Encode | src/snapshot.rs:69-165 | The loops write a file whose header, blocks, table and metadata are those of the index, with one row per reachable directory in path order. |
| Listings.ListingIs | src/snapshot.rs:69-100 | The children of a directory, each once and in the order of their names, with the metadata of their nodes, and nothing else. |
| Listings.TotalsCount | src/snapshot.rs:69-165 | The totals in the metadata are the number of reachable directories and of files right below them. |
| SnapshotLookup.BisectFinds | src/snapshot.rs:388-392 | Binary search over ascending rows finds the row with the path. |
| SnapshotLookup.LookupAnswers | src/snapshot.rs:315-392 | For every path, header, table search and one child block of an encoded file answer exactly what the tree answers: directory with its children in order, file, or nothing. |
| SnapshotLookup.AnswerFollowsResolve | src/snapshot.rs:354-392 | Below 64 segments that answer is a directory, a file or nothing exactly as `resolve` finds one. |
| Damage.HeaderAcceptedIff | src/snapshot.rs:394-428 | A header is accepted exactly if the signature, the version and the four fields stand in the first 32 bytes and both offsets lie within the file. |
| Damage.LookupAnswersIff | src/snapshot.rs:315-386 | On any bytes a lookup answers exactly if the header, every row of the table and the block it needs are held; anything else is an error and never a miss. |
| Damage.LookupFailsIff | src/snapshot.rs:354-386 | Among rows in order a lookup fails exactly if the block of the directory, or else of its parent, does not parse. |
| SnapshotReader.DecodeFile | src/snapshot.rs:167-241 | The two passes rebuild the index the fold over the rows describes, with the same errors. |
| SnapshotDecode.DecodeEncoded | src/snapshot.rs:167-241 | Decoding an encoded file gives the reloaded tree and every cursor field. |
| SnapshotDecode.DecodeWritten | src/snapshot.rs:218-239 | The same when the metadata do not name the root: it is found in the table. |
| Damage.LoadsIffBlocksHeld | src/snapshot.rs:184-216 | The first pass succeeds exactly if every row's block lies within the file and parses. |
| Damage.RowsDecideParents | src/snapshot.rs:218-239 | Whatever the blocks say, the row at `/` has neither parent nor name, and any other row hangs below the one its path names. |
| Damage.TornFileFails | src/snapshot.rs:167-172 | An encoded file that lost any number of bytes at its end does not decode. |
| Damage.TrailingBytesIgnored | src/snapshot.rs:167-172 | Bytes after the end of a file that decodes make no difference. |
| Reloading.ReloadKeepsNodes | src/snapshot.rs:167-241 | When only directories have children, every node with a path comes back with parent, name and metadata; only the root's name is cleared. |
| Reloading.ReloadWellFormedIff | src/snapshot.rs:218-239 | The reloaded tree is consistent exactly when every recorded directory hangs below one. |
| Reloading.DirectoryBelowFileIsOrphaned | src/snapshot.rs:218-239 | A concrete tree that is not. |
| Orphans.OrphanAnswersAtRoot | src/snapshot.rs:69-100 | For a tree that a feed builds with a directory below a file: after a save and a load that directory has path `/`, the next save may write it beside the root's row, and the lookup of `/` then answers with its id and its children. |
| Orphans.StrayIsOfNoDrive | src/graph.rs:195-220 | On no drive, where items hang below folders only, can that feed come. |
| Kinds.FeedKeepsSound | src/index.rs:47-122 | Pages of one drive keep the tree sound: the maps agree, one root, usable names, every node of its kind and below a directory or waiting for a folder. |
| Kinds.ReloadKeepsSound | src/snapshot.rs:167-241 | A sound tree is sound again after a save and a load. |
| Kinds.PatchKeepsSound | src/dav.rs:261-364 | A patch of the drive keeps the tree sound and keeps its root. |
| Reloading.ReencodeIsSame | src/snapshot.rs:69-165 | Encoding the decoded tree again gives identical child blocks and directory table. |
| Reloading.ReloadTwice | src/snapshot.rs:167-241 | A second save and load changes nothing. |
| SnapshotStore.LookupPath | src/snapshot.rs:315-335 | While reads do not fail, three bounded and possibly short reads answer as the lookup on the whole file: hits, misses and errors. At any time a hit is that lookup's hit. |
| SnapshotStore.Mutate | src/snapshot.rs:293-301 | After a patch, and in every state on the way, the live file is the old one or a whole encoding of the patched tree under the old cursor, and no other file but its temporary one differs; a patch that applies is on file if no call fails, and one that does not apply touches nothing. |
| SnapshotStore.ApplyPatch | src/dav.rs:261-274 | The closures of PUT, MKCOL, DELETE and MOVE: the item Graph answered, else the edit by path. |
| SnapshotStore.SaveThenLoad | src/snapshot.rs:280-290 | What a save writes loads as the reloaded state. |
| WriteThrough.DeleteThroughFile | src/dav.rs:336-344 | After a DELETE, lookups at or below the path find nothing and all others find what they found, children included; the parent's listing is the old one without the one record. |
| WriteThrough.UpsertThroughFile | src/dav.rs:261-306 | After the fallback upsert of a PUT or MKCOL, every lookup off the path and its parent finds exactly what it found; the parent's listing differs by the one record, which carries the new metadata; the path is found, with that metadata and the children it had, exactly when the file can show it. |
| WriteThrough.UpsertAnswersHere | src/index.rs:217-241 | On trees: whether the upserted path is found is decided by the tree before the upsert - a directory above the walk limit, or a parent with a row. |
| WriteThrough.KindMatters | src/index.rs:217-225 | An upsert on a node that is there leaves all other lookups alone exactly if the node keeps its kind, is the root or too deep for a row, or has no child that stands only in its block. |
| WriteThrough.MoveThroughFile | src/dav.rs:348-364 | After the fallback of a MOVE, what was found below the source is found below the target under its new name, with the same children; what is left below the source is found no more; all others find what they found, and in the parents' listings the source's record is gone and the target's is there with the node's metadata. |
| WriteThrough.ItemThroughFile | src/dav.rs:261-274 | After a PUT, MKCOL or MOVE whose item Graph answered: the path is found with the item's metadata exactly when the file can show it, with the children its node had; below it what was below the node's old place; at and below the old place nothing; all others find what they found, and the listings of the two parents lose the old record and have the new one. |
| Requests.DeleteOnFiles | src/dav.rs:336-344 | The same for DELETE, from what `mutate` leaves on file to lookups of those files. |
| Requests.UpsertOnFiles | src/dav.rs:276-334 | The same for the fallback of PUT and MKCOL. |
| Requests.MoveOnFiles | src/dav.rs:348-364 | The same for the fallback of MOVE. |
| Requests.ItemOnFiles | src/dav.rs:261-274 | The same for PUT, MKCOL and MOVE with Graph's item. |
| Patching.WriteThrough | src/dav.rs:254-259 | A handler's write-through on sound files: at its end and at every crash point the two files load as before or as after the patch and are sound, and as long as no call fails a patch that applies is on file. |
| Patching.PatchIsWriteStep | src/snapshot.rs:293-301 | Whatever a patch leaves of sound files is sound, and a write-through step of the two-file store or no change. |
| Patching.Run | src/sync.rs:13-24 | The sync handler on sound files: at its end and at every crash point the files stand for a tick step and are sound, so the next tick or write-through may follow. |
| Patching.PollOnFiles | src/sync.rs:47-149 | If the requests of a tick reach a server and suffice for the pages it has where the crawl of the snapshot on file goes on, the live file afterwards stands for one uninterrupted crawl over that snapshot, and no rebuild is left. |
| Patching.IdlePollOnFiles | src/sync.rs:67-72 | An idle poll leaves the files as they are, byte for byte, or makes a finished rebuild the live file; unless the live file asks for the rewrite. |
| Patching.TickedIsSafe | src/sync.rs:47-149 | Wherever a tick on sound files is cut, the files are sound, generations have not fallen, and a served live snapshot is safe. |
| Patching.FileRunsAreSafe | src/sync.rs:47-149 | Along every run of ticks and write-throughs on files, each cut anywhere, asking only of Graph and of requests that they are of one drive, of last pages a token, and sizes: both files are whole encodings of sound trees and load as such, a rebuild stands only beside a served live snapshot and ahead of it, generations never fall, and a served live snapshot is kept, carried forward, patched or replaced by a complete crawl. |
| StateFile.Directory.WriteFile | src/state_file.rs:35-56 | However short the writes, success means the whole contents; no other file changes at any point. |
| StateFile.Directory.WriteAtomic | src/state_file.rs:95-105 | At every crash point the file holds all of the old or all of the new contents. |
| StateFile.Directory.ReadFile | src/state_file.rs:6-30 | However short the reads, the result is the whole file. |
| StateFile.Directory.ReadRange | src/state_file.rs:60-91 | However short the reads, the result is the part of the range that exists. |
| Sync.TickIsSafe | src/sync.rs:47-149 | After any tick - error, failed save, crash between save and promotion included - the two files are consistent and a served live snapshot is kept, carried forward by pages alone from itself, or replaced by a complete rebuild of a higher generation. |
| Sync.RunsAreSafe | src/sync.rs:47-149 | The same along every run of ticks and patches of the handlers from empty files; generations never fall and every cursor is fresh, crawling or settled. |
| Sync.PromotionIsSafe | src/sync.rs:146-149 | A promoted rebuild is complete, has a token and a generation above that of the live snapshot it replaces, unless saturated. |
| Sync.UnaskedTick | src/sync.rs:74-149 | A tick with a page limit of 0 promotes a rebuild exactly if it is complete and has no pending link. |
| Sync.PromotionIffToken | src/sync.rs:100-112 | Without assuming that last pages carry a token: the promoted snapshot is complete with a token exactly when the responses bring one, or the working snapshot had one and no restart came in between. |
| Sync.TokenlessPagePromotesUnfinished | src/sync.rs:100-149 | A concrete tick that promotes an unfinished rebuild. |
| Sync.UnopenedSafeIff | src/state_file.rs:7-15 | For every tick that could not open some of the files and saves something new beside a served live snapshot: safe without a restart exactly if it opened one of the files, and with restarts exactly if it opened the live file at the last one, or there was no rebuild and the crawl ended within the tick above the live generation. |
| Sync.UnopenedPromotionSafeIff | src/sync.rs:115-149 | Its promotion is safe exactly if the generation it counted to is above the live one. |
| Patching.UnopenedFilesSafeIff | src/state_file.rs:7-15 | The first of the two on files, for what `RunInner` leaves of them. |
| Sync.UnopenedLiveIsReplaced | src/state_file.rs:7-15 | A concrete tick that overwrites a complete live file it could not open. |
| Sync.LoopKeepsCursor | src/sync.rs:74-113 | The local `complete` equals the cursor's state throughout, and cursors stay fresh, crawling or settled. |
| Resumption.ResumedCrawlIsUninterrupted | src/sync.rs:47-149 | However a crawl is split into ticks that may fail or crash, no page is skipped or repeated and the finished snapshot is the one an uninterrupted crawl saves. |
| Resumption.TickAdvances | src/sync.rs:47-149 | One such tick leaves the store where it was, at a later page, or finished. |
| Resumption.UninterruptedLoop | src/sync.rs:76-113 | One tick that sees every page ends with the state those statements compare with. |
| Resumption.PollCrawlsOn | src/sync.rs:58-62 | A tick asks at the pending link, else at the token, else at the beginning, whatever the server has elsewhere; what it finds there is the live snapshot afterwards, and only an idle poll saves nothing. |
| Resumption.StaleLinkStartsOver | src/sync.rs:115-138 | When that link is stale the same tick crawls everything from the beginning into an empty index of the next generation, which replaces both snapshots. |
| Resumption.RestartSparesLive | src/sync.rs:124-137 | A restarted crawl goes to the rebuild exactly if the live snapshot is complete or has a root. |
| Resumption.CircleSavesNothing | src/sync.rs:89-99 | Empty pages that name the pending link again make nothing to save. |
| Resumption.KeptIffLosesNothing | src/snapshot.rs:69-75 | A save and load keeps all nodes exactly when nothing in the tree is pending. |
| Resumption.PendingItemIsLost | src/snapshot.rs:70-75 | A concrete page whose item is dropped at the tick boundary. |
| Resumption.PendingItemStaysLost | src/sync.rs:47-149 | With it a crawl of two ticks finishes, settled and with the same token, without an item that a crawl in one tick has. |
| Resumption.CleanTickLosesNothing | src/sync.rs:143-145 | A tick with nothing to save holds in memory what the file holds, exactly unless a finished poll swept nodes too deep to have a path. |
| SyncTick.RunInner | src/sync.rs:47-180 | The tick on files, whether they open or not: it stops at the page limit, the last page, an error or the time budget; after it, and at every crash point, the files are as they were, or hold the whole encoding of the tick's index at its target, or that promoted; an error leaves them untouched; without one, and while writes do not fail, what was crawled is on file. A file that does not read or decode stops it first. |
| SyncTick.TickLoads | src/sync.rs:143-149 | Whatever a tick leaves, the two files load as one of its states, and as its last one if it got through. |
| SyncTick.Crawl | src/sync.rs:58-141 | The loop asks at the url its state names, whatever would be answered elsewhere, fails exactly at an error, goes on exactly as long as its page and time budgets let it, and ends in the state the steps give. |
| SyncTick.RewrittenIsCurrent | src/sync.rs:67-72 | A file just written asks for the one-shot rewrite again exactly if it was written at time 0 or for a finished crawl that saw no root. |
| Sync.LoopStops | src/sync.rs:76-140 | A tick ends its crawl, or fails, exactly when the responses say so. |
| CivilDate.ConversionsAgree | src/xml.rs:60-72 | Day numbers and dates are inverse, together with src/graph.rs:100-108: for all integers, also before the epoch, and all dates, `civil_from_days` gives the date exactly when it is valid and `days_from_civil` gives the number. |
| CivilDate.CountingDaysWalksCalendar | src/xml.rs:60-72 | Day 0 is 1 January 1970 and consecutive numbers are consecutive dates under the leap-year rule. |
| CivilDate.RangesHold | src/xml.rs:61-69 | The commented ranges of the intermediate values. |
| CivilDate.HttpDateShowsTimestamp | src/graph.rs:86-97 | The HTTP date (section 7.1.1.1 of RFC 7231) shows the date and time of every valid Graph timestamp from 1970. |
| CivilDate.TimestampOfSeconds | src/xml.rs:34-56 | Every second count prints as a valid timestamp that stands for it. |
| CivilDate.WeekdayAdvances | src/xml.rs:44 | The weekday starts on a Thursday and moves on with the date. |
| CivilDate.WeekdayIsOfDate | src/xml.rs:44 | The weekday is that of the printed date, at every second of the day. |
| CivilDate.EarlyTimestampsAreZero | src/graph.rs:86-97 | Valid timestamps before 1970, and besides them only the epoch, count as second 0. |
| Href.PctEncode | src/xml.rs:91-102 | The loop computes the encoding the next row describes. |
| Href.EncodedIsUriPath | src/xml.rs:91-102 | Exactly the bytes that are neither unreserved (section 2.3 of RFC 3986) nor slashes are escaped, as `%` and two upper-case digits. |
| Href.PctDecode | src/xml.rs:167-184 | The loop decodes, refusing malformed escapes and invalid UTF-8. |
| Href.PctDecodesIff | src/xml.rs:167-184 | On any input: decoding succeeds exactly if every `%` begins an escape of two digits of either case and the result is valid UTF-8, and gives what the input stands for. |
| Href.PctRoundTrip | src/xml.rs:91-184 | Decoding undoes encoding for every string (section 2.1 of RFC 3986). |
| Href.SanitizePath | src/lib.rs:146-164 | The loops accept and reject as specified. |
| Href.SanitizesIff | src/lib.rs:146-164 | On any input: a path passes exactly if it decodes, has no control byte and no `..` segment; what is left are its segments without `.`. |
| Href.SanitizedIsClean | src/lib.rs:146-164 | A path that passes is in normal form; its segments are valid UTF-8 without slashes, dot segments and control bytes. |
| Href.ListedHrefSanitizes | src/xml.rs:104-110 | The href of a listed child, trailing slash included, is sanitised to that child's path. |
| Href.ListedChildIsFound | src/dav.rs:141-181 | Listing closure: every child a listing shows is found again, with the same record, under the href it is listed with. |
| Href.SelfHrefSanitizes | src/xml.rs:104-110 | The href of the listed resource itself, trailing slash included, is sanitised to the path that was asked for. |
| Href.ListedHrefsShowKind | src/xml.rs:104-110 | The hrefs of a listing end in a slash exactly for directories, and decode to the path but for that slash; the root's is the slash. |
| Href.HrefsOfAnyPath | src/dav.rs:162-173 | For any path string the resource's own href is the normal form, and a trailing slash makes no difference to the hrefs of children. |
| Href.ListedSelfIsFound | src/dav.rs:141-170 | The first entry of a listing, of a directory or a file, finds the same answer again under its href. |
| Admission.AdmissionIsSafe | host/src/main.rs:505-524 | In every interleaving at most one request holds the permit, at most eight are parked, the counter counts the requests between increment and decrement, and it ends at 0 with the permit free. |
| Admission.RejectedFoundFull | host/src/main.rs:505-524 | A request is turned away only if it came when another one held the permit and found eight others counting when it added itself. |
| Admission.RoomMeansAdmitted | host/src/main.rs:505-524 | A request that came to a free permit, or found fewer than eight others counting, is never turned away. |
| Admission.NeverStuck | host/src/main.rs:571-603 | While a request is under way some request can move. |
| Admission.RunsEnd | host/src/main.rs:571-603 | Every run is over after six steps a request, and one that cannot go on has run or turned away every request. |

## Left out

- Graph requests, OAuth, Basic auth, configuration, logging and HTTP status codes: foreign calls and plumbing; Graph is an arbitrary source of answers.
- The JSON of pages and metadata: an abstract codec; `built_at` is carried as an opaque number.
- The text of HTTP dates, timestamps and XML: the dates are modelled as numbers, the markup not at all.
- Uploads and upload sessions, LOCK and UNLOCK, and the live PROPFIND fallback: wrappers over foreign calls.
- Files that vanish between the reads of one lookup: `SnapshotStore.LookupPath` reads one unchanging file.
- 32-bit `usize` wrap-around and `i64` overflow of day numbers: integers are unbounded, and lengths carry explicit bounds.
- A request cancelled while parked, whose increment is never taken back: parked requests run to completion in the model.
- WriteThrough.ItemThroughFile: an item that Graph placed elsewhere than asked for, after which the edit by path follows, is decided for the tree (`Patched`) and not for lookups.
- The reports of `src/api.rs` and `src/sync_stats.rs`: filters over the index that would add only easy members.
