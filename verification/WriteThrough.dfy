/** What a write-through does to every later lookup of the file. */
module WriteThrough {
  import opened Bytes
  import opened Paths
  import opened Namespace
  import opened Agreement
  import opened Resolution
  import opened Moves
  import opened PathEdits
  import opened Records
  import opened Snapshot
  import opened SnapshotLookup
  import opened SnapshotDecode
  import opened Reloading
  import opened Answers

  predicate Extends(a: seq<Str>, q: seq<Str>) { a <= q }

  ghost function Below(a: seq<Str>): iset<seq<Str>> { iset q | Extends(a, q) }

  // ---------------------------------------------------------------- deletions

  /** A deletion edits the tree at and below its path only. */
  lemma DeleteIsEdit(t: Tree, path: Str)
    requires WellFormed(t) && Segments(path) != []
    ensures EditedOnly(t, RemoveAtPath(t, path).0, Below(Segments(path)))
  {
    hide Segments, WellFormed, SameNode, RemoveAtPath;
    var r, a := RemoveAtPath(t, path).0, Segments(path);
    RemoveAtPathResolves(t, path, a);
    DeleteSparesRoot(t, path);
    forall q | q !in Below(a) ensures SameNode(t, r, Below(a), q) { DeleteSameNode(t, path, q); }
  }

  lemma DeleteSparesRoot(t: Tree, path: Str)
    requires WellFormed(t) && Segments(path) != []
    ensures RemoveAtPath(t, path).0.root == t.root
  {
    hide Segments;
    if t.root.Some? { DeleteKeepsRoot(t, path); }
  }

  lemma DeleteSameNode(t: Tree, path: Str, q: seq<Str>)
    requires WellFormed(t) && !(Segments(path) <= q)
    ensures SameNode(t, RemoveAtPath(t, path).0, Below(Segments(path)), q)
  {
    hide Segments, Agree, UniqueSiblings, SoleRoot, Down, Resolve;
    var r, a := RemoveAtPath(t, path).0, Segments(path);
    RemoveAtPathResolves(t, path, q);
    if q != [] { RemoveAtPathResolves(t, path, q[..|q| - 1]); }
    if Resolve(t, a).Some? && Resolve(t, q).Some? {
      var top, x := Resolve(t, a).value, Resolve(t, q).value;
      forall c, n | q + [n] !in Below(a) ensures HasPlace(r, c, x, n) <==> HasPlace(t, c, x, n) {
        RemovalPlaces(t, top, c, x, n);
        if HasPlace(t, c, x, n) {
          PlaceResolves(t, q, c, n);
          SubtreePaths(t, a, q + [n]);
        }
      }
    }
  }

  lemma RemovalPlaces(t: Tree, id: Id, c: Id, p: Id, n: Str)
    ensures HasPlace(Prune(t, Down(t, id)), c, p, n) <==> c !in Down(t, id) && HasPlace(t, c, p, n)
  {
  }

  lemma PlaceResolves(t: Tree, q: seq<Str>, c: Id, n: Str)
    requires WellFormed(t) && Resolve(t, q).Some?
    ensures HasPlace(t, c, Resolve(t, q).value, n) <==> Resolve(t, q + [n]) == Some(c)
  {
    ResolveSnoc(t, q, n);
    ChildNamedIs(t, Resolve(t, q).value, n, c);
  }

  /** The listing of a directory after a deletion: without the record of the deleted path. */
  predicate ListsWithout(before: Option<Lookup>, after: Option<Lookup>, segs: seq<Str>, gone: seq<Str>) {
    && SameHit(before, after)
    && (before.Some? && before.value.DirHit? && after.Some? && after.value.DirHit? ==>
          after.value.children == Unedited(before.value.children, segs, {gone}))
  }

  /** After a deletion nothing at or below the path answers, and every other path answers as
      before; only its parent's listing has changed, by the one record. */
  lemma DeleteAnswers(t: Tree, path: Str, q: Str)
    requires WellFormed(t)
    ensures var r, a, segs := RemoveAtPath(t, path).0, Segments(path), Segments(q);
            && WellFormed(r)
            && (a <= segs ==> Answer(r, q) == None)
            && (!(a <= segs) ==> ListsWithout(Answer(t, q), Answer(r, q), segs, a))
            && (!(a <= segs) && segs != Segments(ParentPath(path)) ==> Answer(r, q) == Answer(t, q))
  {
    hide Segments, Answer, SameHit, ParentPath, Agree, UniqueSiblings, SoleRoot, HasRow, EditedOnly, RemoveAtPath;
    var r, a, segs := RemoveAtPath(t, path).0, Segments(path), Segments(q);
    RemoveAtPathResolves(t, path, segs);
    if a <= segs {
      NothingAnswers(r, q);
    } else {
      RemoveAtPathResolves(t, path, a);
      DeleteIsEdit(t, path);
      ChildrenBelow(a, segs);
      EditAnswers(t, r, Below(a), {a}, q);
      NoneListed(r, q, a);
      HelpersSplitSegments(path);
      if segs != Segments(ParentPath(path)) { SameListingIsSame(Answer(t, q), Answer(r, q), segs, {a}); }
    }
  }

  lemma ChildrenBelow(a: seq<Str>, segs: seq<Str>)
    requires !(a <= segs)
    ensures EditsChildren(Below(a), segs, {a})
  {
    forall n: Str | a <= segs + [n] ensures segs + [n] == a { ExtendsByOne(a, segs, n); }
  }

  /** The listing of the directory at `segs` has no record at `gone`. */
  predicate Omits(cs: seq<ChildInfo>, segs: seq<Str>, gone: seq<Str>) {
    forall c :: c in cs ==> segs + [c.name] != gone
  }

  /** A listing has no record at a path that does not resolve. */
  lemma NoneListed(t: Tree, q: Str, a: seq<Str>)
    requires WellFormed(t) && Resolve(t, a) == None
    ensures var here := Answer(t, q);
            here.Some? && here.value.DirHit? ==>
              Omits(here.value.children, Segments(q), a) && Unedited(here.value.children, Segments(q), {a}) == here.value.children
  {
    hide Segments, Answer, Agree, UniqueSiblings, SoleRoot, ChildList;
    var segs := Segments(q);
    DirHitLists(t, q);
    if Resolve(t, segs).Some? {
      var id := Resolve(t, segs).value;
      forall c | c in ChildList(t, id) ensures segs + [c.name] != a {
        ChildIsPlaced(t, id, c);
        PlaceResolves(t, segs, c.id, c.name);
      }
      NothingEdited(ChildList(t, id), segs, {a});
    }
  }

  // ---------------------------------------------------------------- upserts

  /** The metadata an upsert brings keeps a node that is there a file or a directory. */
  ghost predicate KeepsKind(t: Tree, path: Str, meta: ItemMeta) {
    var here := ResolvePath(t, path);
    here.Some? && here.value in t.nodes ==> t.nodes[here.value].meta.isDir == meta.isDir
  }

  /** The made-up id is fresh if it is needed. */
  ghost predicate FreshIfNeeded(t: Tree, path: Str) {
    ResolvePath(t, path) == None ==> Fresh(t, LOCAL + path)
  }

  /** The id an upsert leaves at its path. */
  ghost function UpsertedId(t: Tree, path: Str): Id {
    if ResolvePath(t, path).Some? then ResolvePath(t, path).value else LOCAL + path
  }

  /** Where an upsert edits the tree: at a node that is there, or at and below a new path. */
  ghost function UpsertedAt(t: Tree, path: Str): iset<seq<Str>> {
    if ResolvePath(t, path).Some? then iset{Segments(path)} else Below(Segments(path))
  }

  lemma UpsertIsEdit(t: Tree, path: Str, meta: ItemMeta)
    requires WellFormed(t) && KeepsKind(t, path, meta) && FreshIfNeeded(t, path)
    ensures EditedOnly(t, UpsertAtPath(t, path, meta).0, UpsertedAt(t, path))
  {
    hide Segments, ParentPath, LastSegment, WellFormed, SameNode, UpsertAtPath, KeepsKind, Fresh, Resolve;
    var r := UpsertAtPath(t, path, meta).0;
    UpsertAtPathResolves(t, path, meta, []);
    UpsertKeepsRoot(t, path, meta);
    forall q | q !in UpsertedAt(t, path) ensures SameNode(t, r, UpsertedAt(t, path), q) {
      if ResolvePath(t, path).Some? {
        UpdateSameNode(t, path, meta, q);
      } else {
        InsertSameNode(t, path, meta, q);
      }
    }
  }

  lemma UpdateSameNode(t: Tree, path: Str, meta: ItemMeta, q: seq<Str>)
    requires WellFormed(t) && KeepsKind(t, path, meta) && ResolvePath(t, path).Some? && q != Segments(path)
    ensures SameNode(t, UpsertAtPath(t, path, meta).0, UpsertedAt(t, path), q)
  {
    hide Segments, Agree, UniqueSiblings, SoleRoot, Resolve;
    var here := ResolvePath(t, path).value;
    ResolvedIsNode(t, Segments(path));
    UpdateResolves(t, here, meta, q);
    if q != [] { UpdateResolves(t, here, meta, q[..|q| - 1]); }
    if Resolve(t, q) == Some(here) { ResolveInjective(t, q, Segments(path)); }
  }

  lemma UpdateResolves(t: Tree, id: Id, meta: ItemMeta, q: seq<Str>)
    requires id in t.nodes
    ensures Resolve(t.(nodes := t.nodes[id := t.nodes[id].(meta := meta)]), q) == Resolve(t, q)
  {
    if t.root.Some? { MetaKeepsPaths(t, id, meta, t.root.value, q); }
  }

  /** The item an insertion applies; it evicts nothing. */
  lemma InsertedItem(t: Tree, path: Str, meta: ItemMeta) returns (it: DeltaItem)
    requires WellFormed(t) && ResolvePath(t, path) == None && Fresh(t, LOCAL + path)
    requires Segments(path) != [] && ResolvePath(t, ParentPath(path)).Some?
    ensures it == ItemAt(LOCAL + path, ResolvePath(t, ParentPath(path)).value, path, meta) && Plain(t, it)
    ensures UpsertAtPath(t, path, meta) == (Apply(t, it), true) && Evicted(t, it) == {}
    ensures Segments(path) == Segments(ParentPath(path)) + [it.name]
  {
    hide Segments, ParentPath, LastSegment, UniqueSiblings, SoleRoot, Apply, Evicted;
    it := ItemAt(LOCAL + path, ResolvePath(t, ParentPath(path)).value, path, meta);
    TargetSegments(path);
    if Evicted(t, it) != {} {
      var top := EvictedTop(t, it);
      PlaceResolves(t, Segments(ParentPath(path)), top, it.name);
    }
  }

  lemma InsertSameNode(t: Tree, path: Str, meta: ItemMeta, q: seq<Str>)
    requires WellFormed(t) && ResolvePath(t, path) == None && Fresh(t, LOCAL + path) && !(Segments(path) <= q)
    ensures SameNode(t, UpsertAtPath(t, path, meta).0, Below(Segments(path)), q)
  {
    hide Segments, ParentPath, LastSegment, Agree, UniqueSiblings, SoleRoot, Resolve, Apply, UpsertAtPath;
    var r := UpsertAtPath(t, path, meta).0;
    UpsertAtPathResolves(t, path, meta, q);
    if q != [] { UpsertAtPathResolves(t, path, meta, q[..|q| - 1]); }
    if UpsertAtPath(t, path, meta).1 {
      var it := InsertedItem(t, path, meta);
      ApplyPlainNodes(t, it);
      assert t.nodes - {} == t.nodes;
      if Resolve(t, q).Some? {
        var x := Resolve(t, q).value;
        forall c, n | q + [n] !in Below(Segments(path)) ensures HasPlace(r, c, x, n) <==> HasPlace(t, c, x, n) {
          PlacesAfter(t, it, c, x, n);
          PlaceResolves(t, q, c, n);
          if c == it.id && Some(x) == it.parentId { ResolveInjective(t, q, Segments(ParentPath(path))); }
        }
      }
    } else {
      assert r == t;
    }
  }

  /** A file can show a node with this metadata at `segs`: a directory above the walk limit, or
      anything below a directory with a row. */
  ghost predicate Shows(t: Tree, segs: seq<Str>, meta: ItemMeta) {
    (|segs| < WALK_LIMIT && (meta.isDir || segs == [])) || (segs != [] && ParentHasRow(t, segs))
  }

  /** The record `info` carries this metadata. */
  predicate Carries(info: ChildInfo, id: Id, meta: ItemMeta) {
    info.id == id && info.size == meta.size && info.mtime == meta.mtime && info.etag == meta.etag
  }

  /** What a tree answers at a path whose node has this metadata. */
  lemma AnswerAt(t: Tree, path: Str, meta: ItemMeta)
    requires WellFormed(t) && ResolvePath(t, path).Some?
    requires ResolvePath(t, path).value in t.nodes ==> t.nodes[ResolvePath(t, path).value].meta == meta
    ensures var a := Answer(t, path);
            && (a.Some? <==> Shows(t, Segments(path), meta))
            && (a.Some? ==> Carries(a.value.info, ResolvePath(t, path).value, meta))
  {
    hide Segments, LastSegment, Normalize, Agree, UniqueSiblings, HasRow, ChildList;
    RowAt(t, Segments(path));
    OnlyNoneIsRoot(t, Segments(path));
  }

  lemma OnlyNoneIsRoot(t: Tree, segs: seq<Str>)
    requires WellFormed(t) && Resolve(t, segs).Some?
    ensures Resolve(t, segs) == t.root <==> segs == []
  {
    if segs != [] && Resolve(t, segs) == t.root { ResolveInjective(t, segs, []); }
  }

  /** After an upsert its path answers with the new metadata exactly when the file can show it, as
      can be seen before: as a directory above the walk limit, or below a directory with a row. */
  lemma UpsertAnswersHere(t: Tree, path: Str, meta: ItemMeta)
    requires WellFormed(t) && FreshIfNeeded(t, path) && UpsertAtPath(t, path, meta).1
    ensures var r := UpsertAtPath(t, path, meta).0;
            var a := Answer(r, path);
            && WellFormed(r) && ResolvePath(r, path) == Some(UpsertedId(t, path))
            && (a.Some? <==> Shows(t, Segments(path), meta))
            && (a.Some? ==> Carries(a.value.info, UpsertedId(t, path), meta))
            && (a.Some? && a.value.DirHit? ==>
                  a.value.children == if ResolvePath(t, path).Some? then ChildList(t, ResolvePath(t, path).value) else [])
  {
    hide Segments, ParentPath, LastSegment, Agree, UniqueSiblings, SoleRoot, Fresh, ChildList, UpsertAtPath, Answer, HasRow, Resolve;
    var r, segs := UpsertAtPath(t, path, meta).0, Segments(path);
    UpsertAtPathResolves(t, path, meta, segs);
    UpsertKeepsRoot(t, path, meta);
    if segs != [] {
      UpsertAtPathResolves(t, path, meta, segs[..|segs| - 1]);
      UpsertParentMeta(t, path, meta);
      SameParentRow(t, r, segs);
    }
    UpsertedNode(t, path, meta);
    AnswerAt(r, path, meta);
    DirHitLists(r, path);
    UpsertChildrenHere(t, path, meta);
  }

  lemma UpsertParentMeta(t: Tree, path: Str, meta: ItemMeta)
    requires WellFormed(t) && FreshIfNeeded(t, path) && Segments(path) != []
    ensures SameKindAt(t, UpsertAtPath(t, path, meta).0, Segments(path)[..|Segments(path)| - 1])
  {
    hide Segments, ParentPath, LastSegment, Agree, UniqueSiblings, SoleRoot, Fresh, Apply, Resolve;
    var segs := Segments(path);
    var init := segs[..|segs| - 1];
    var here := ResolvePath(t, path);
    if here.Some? {
      ResolvedIsNode(t, segs);
      assert |init| != |segs|;
      if Resolve(t, init) == here { ResolveInjective(t, init, segs); }
    } else if UpsertAtPath(t, path, meta).1 {
      HelpersSplitSegments(path);
      var it := InsertedItem(t, path, meta);
      ApplyPlainNodes(t, it);
      assert t.nodes - {} == t.nodes;
      if Resolve(t, init) == Some(it.id) { FreshIsNowhere(t, it.id, init); }
    }
  }

  lemma FreshIsNowhere(t: Tree, id: Id, q: seq<Str>)
    requires Fresh(t, id)
    ensures Resolve(t, q) != Some(id)
  {
  }

  /** The children of an upserted node: those it had, or none. */
  lemma UpsertChildrenHere(t: Tree, path: Str, meta: ItemMeta)
    requires WellFormed(t) && FreshIfNeeded(t, path) && UpsertAtPath(t, path, meta).1
    ensures var r := UpsertAtPath(t, path, meta).0;
            && ResolvePath(r, path).Some?
            && ChildList(r, ResolvePath(r, path).value) ==
               if ResolvePath(t, path).Some? then ChildList(t, ResolvePath(t, path).value) else []
  {
    hide Segments, ParentPath, LastSegment, Agree, UniqueSiblings, SoleRoot, Apply, Resolve, ChildList;
    var r := UpsertAtPath(t, path, meta).0;
    UpsertAtPathResolves(t, path, meta, Segments(path));
    if ResolvePath(t, path).Some? {
      var here := ResolvePath(t, path).value;
      ResolvedIsNode(t, Segments(path));
      UpdateResolves(t, here, meta, Segments(path));
      OwnRecordAside(t, here, meta);
    } else {
      HelpersSplitSegments(path);
      var it := InsertedItem(t, path, meta);
      InsertResolves(t, Segments(ParentPath(path)), it, Segments(path));
      forall e | e in KidSet(r, it.id) ensures false { InsertedHasNoKids(t, it, e); }
      NoChildren(r, it.id);
    }
  }

  lemma InsertedHasNoKids(t: Tree, it: DeltaItem, e: Entry)
    requires WellFormed(t) && Plain(t, it) && Fresh(t, it.id) && it.parentId.value != it.id
    ensures e !in KidSet(Apply(t, it), it.id)
  {
    ApplyNonRootKeeps(t, it);
    PlacesAfter(t, it, e.id, it.id, e.name);
    assert HasPlace(t, e.id, it.id, e.name) ==> Entry(e.name, e.id) in KidSet(t, it.id);
    assert e in KidSet(Apply(t, it), it.id) ==> HasPlace(Apply(t, it), e.id, it.id, e.name);
  }

  lemma NoChildren(t: Tree, id: Id)
    requires KidSet(t, id) == {}
    ensures ChildList(t, id) == []
  {
    var es := SortEntries(KidSet(t, id));
    if es != [] { HeadIsMember(es); }
  }

  /** A node's metadata is in no record of its own listing. */
  lemma OwnRecordAside(t: Tree, id: Id, meta: ItemMeta)
    requires WellFormed(t) && id in t.nodes && (exists q :: Resolve(t, q) == Some(id))
    ensures ChildList(t.(nodes := t.nodes[id := t.nodes[id].(meta := meta)]), id) == ChildList(t, id)
  {
    var r := t.(nodes := t.nodes[id := t.nodes[id].(meta := meta)]);
    var es := SortEntries(KidSet(t, id));
    assert KidSet(r, id) == KidSet(t, id);
    var q :| Resolve(t, q) == Some(id);
    forall e | e in es ensures e.id in t.nodes && e.id != id {
      assert HasPlace(t, e.id, id, e.name);
      PlaceResolves(t, q, e.id, e.name);
      if e.id == id { ResolveInjective(t, q + [e.name], q); }
    }
    InfosSame(t, r, es);
  }

  /** The listing of a directory after an upsert: as before but for the path's own record, which
      carries the new metadata. */
  predicate ListsUpserted(before: Option<Lookup>, after: Option<Lookup>, segs: seq<Str>, at: seq<Str>, id: Id, meta: ItemMeta) {
    && SameListing(before, after, segs, {at})
    && (after.Some? && after.value.DirHit? && at != [] && at[..|at| - 1] == segs ==>
          var c := FindChild(after.value.children, at[|at| - 1]);
          c.Some? && c.value.isDir == meta.isDir && Carries(c.value, id, meta))
  }

  /** The record of a resolved path in its parent's listing. */
  lemma RecordListed(t: Tree, a: seq<Str>)
    requires WellFormed(t) && a != [] && Resolve(t, a).Some? && Resolve(t, a[..|a| - 1]).Some?
    ensures var id, c := Resolve(t, a).value, FindChild(ChildList(t, Resolve(t, a[..|a| - 1]).value), a[|a| - 1]);
            id in t.nodes && c.Some? && c.value.isDir == t.nodes[id].meta.isDir && Carries(c.value, id, t.nodes[id].meta)
  {
    hide FindChild, ChildList;
    var init := a[..|a| - 1];
    assert a == init + [a[|a| - 1]];
    ResolvedIsNode(t, a);
    ResolveSnoc(t, init, a[|a| - 1]);
    FindChildIs(t, Resolve(t, init).value, a[|a| - 1]);
  }

  /** After an upsert every other path answers as before; only its parent's listing has changed, by
      the one record, which is new or carries the new metadata. */
  lemma UpsertAnswersElsewhere(t: Tree, path: Str, meta: ItemMeta, q: Str)
    requires WellFormed(t) && KeepsKind(t, path, meta) && FreshIfNeeded(t, path) && Segments(q) != Segments(path)
    requires UpsertAtPath(t, path, meta).1
    ensures var r, segs := UpsertAtPath(t, path, meta).0, Segments(q);
            && WellFormed(r) && ResolvePath(r, path) == Some(UpsertedId(t, path))
            && ListsUpserted(Answer(t, q), Answer(r, q), segs, Segments(path), UpsertedId(t, path), meta)
            && (segs != Segments(ParentPath(path)) ==> Answer(r, q) == Answer(t, q))
  {
    hide Segments, Answer, SameListing, ParentPath, WellFormed, Fresh, UpsertAtPath, KeepsKind, FindChild, Resolve, ListsEdited;
    var r, a, segs := UpsertAtPath(t, path, meta).0, Segments(path), Segments(q);
    UpsertedNode(t, path, meta);
    UpsertListsAlike(t, path, meta, q);
    NotParent(path, segs);
    if segs != Segments(ParentPath(path)) { SameListingIsSame(Answer(t, q), Answer(r, q), segs, {a}); }
    if a != [] && a[..|a| - 1] == segs { RecordAnswered(r, a, q); }
  }

  lemma UpsertedNode(t: Tree, path: Str, meta: ItemMeta)
    requires WellFormed(t) && FreshIfNeeded(t, path) && UpsertAtPath(t, path, meta).1
    ensures var r, id := UpsertAtPath(t, path, meta).0, UpsertedId(t, path);
            WellFormed(r) && ResolvePath(r, path) == Some(id) && id in r.nodes && r.nodes[id].meta == meta
  {
    hide Segments, ParentPath, LastSegment, WellFormed, Resolve, Apply, Evicted;
    UpsertAtPathResolves(t, path, meta, []);
    if ResolvePath(t, path).Some? {
      ResolvedIsNode(t, Segments(path));
      UpdateResolves(t, ResolvePath(t, path).value, meta, Segments(path));
    } else {
      HelpersSplitSegments(path);
      var it := InsertedItem(t, path, meta);
      InsertResolves(t, Segments(ParentPath(path)), it, Segments(path));
    }
  }

  /** The record in the answer for the parent. */
  lemma RecordAnswered(t: Tree, a: seq<Str>, q: Str)
    requires WellFormed(t) && a != [] && Resolve(t, a).Some? && Segments(q) == a[..|a| - 1]
    ensures Resolve(t, a).value in t.nodes
    ensures var here, id := Answer(t, q), Resolve(t, a).value;
            here.Some? && here.value.DirHit? ==>
              var c := FindChild(here.value.children, a[|a| - 1]);
              c.Some? && c.value.isDir == t.nodes[id].meta.isDir && Carries(c.value, id, t.nodes[id].meta)
  {
    hide Segments, Answer, WellFormed, FindChild, ChildList, Resolve;
    ResolvedIsNode(t, a);
    DirHitLists(t, q);
    if Resolve(t, a[..|a| - 1]).Some? { RecordListed(t, a); }
  }

  /** Only the parent lists the path. */
  lemma NotParent(path: Str, segs: seq<Str>)
    ensures segs != Segments(ParentPath(path)) ==> !ListsEdited(segs, {Segments(path)})
  {
    hide Segments, ParentPath;
    HelpersSplitSegments(path);
  }

  lemma UpsertListsAlike(t: Tree, path: Str, meta: ItemMeta, q: Str)
    requires WellFormed(t) && KeepsKind(t, path, meta) && FreshIfNeeded(t, path) && Segments(q) != Segments(path)
    ensures SameListing(Answer(t, q), Answer(UpsertAtPath(t, path, meta).0, q), Segments(q), {Segments(path)})
  {
    hide Segments, Answer, WellFormed, Fresh, EditedOnly, UpsertAtPath, KeepsKind, Resolve;
    var r, a, segs := UpsertAtPath(t, path, meta).0, Segments(path), Segments(q);
    if a <= segs && ResolvePath(t, path) == None {
      UpsertAtPathResolves(t, path, meta, segs);
      Unreachable(t, a, segs);
      NothingAnswers(t, q);
      NothingAnswers(r, q);
    } else {
      UpsertIsEdit(t, path, meta);
      if ResolvePath(t, path) == None { ChildrenBelow(a, segs); }
      EditAnswers(t, r, UpsertedAt(t, path), {a}, q);
    }
  }

  /** A child at `segs` that has no table row of its own: a file, or a directory too deep. */
  ghost predicate HasLooseChild(t: Tree, segs: seq<Str>) {
    exists n: Str :: Resolve(t, segs + [n]).Some? && !HasRow(t, Resolve(t, segs + [n]).value)
  }

  /** The exact role of `KeepsKind`: where an upsert finds a node, all other lookups are left alone
      exactly if the node keeps its kind, is the root or too deep for a row, or has no child whose
      record stands only in its block. */
  lemma KindMatters(t: Tree, path: Str, meta: ItemMeta)
    requires WellFormed(t) && GoodNames(t) && ResolvePath(t, path).Some?
    ensures (forall q :: Segments(q) != Segments(path) ==> SameHit(Answer(t, q), Answer(UpsertAtPath(t, path, meta).0, q)))
            <==> KeepsKind(t, path, meta) || Segments(path) == [] || |Segments(path)| >= WALK_LIMIT
                 || !HasLooseChild(t, Segments(path))
  {
    hide Segments, Answer, SameHit, WellFormed, GoodNames, UpsertAtPath, Resolve, HasRow, KeepsKind, HasLooseChild;
    var r, a := UpsertAtPath(t, path, meta).0, Segments(path);
    if KeepsKind(t, path, meta) || a == [] || |a| >= WALK_LIMIT || !HasLooseChild(t, a) {
      forall q | Segments(q) != a ensures SameHit(Answer(t, q), Answer(r, q)) { KindKeptAnswers(t, path, meta, q); }
    } else {
      var q := LooseChildIsHidden(t, path, meta);
      assert Segments(q) != a && !SameHit(Answer(t, q), Answer(r, q));
    }
  }

  /** What an update does to the rows at and above a path. */
  lemma UpdateRows(t: Tree, path: Str, meta: ItemMeta, segs: seq<Str>)
    requires WellFormed(t) && ResolvePath(t, path).Some? && segs != Segments(path)
    ensures var r := UpsertAtPath(t, path, meta).0;
            && WellFormed(r) && r.root == t.root && Resolve(r, segs) == Resolve(t, segs)
            && (Resolve(t, segs).Some? ==>
                  var id := Resolve(t, segs).value;
                  id in t.nodes && id in r.nodes && r.nodes[id] == t.nodes[id] && (HasRow(r, id) <==> HasRow(t, id)))
  {
    hide Segments, Agree, UniqueSiblings, SoleRoot, Resolve, HasRow;
    var r, here := UpsertAtPath(t, path, meta).0, ResolvePath(t, path).value;
    ResolvedIsNode(t, Segments(path));
    MetaKeepsWellFormed(t, here, meta);
    UpdateResolves(t, here, meta, segs);
    if Resolve(t, segs).Some? {
      if Resolve(t, segs) == Some(here) { ResolveInjective(t, segs, Segments(path)); }
      RowAt(t, segs);
      RowAt(r, segs);
    }
  }

  /** The row of the updated node itself: lost or gained with its kind. */
  lemma UpdatedRow(t: Tree, path: Str, meta: ItemMeta)
    requires WellFormed(t) && ResolvePath(t, path).Some?
    ensures var r, here, a := UpsertAtPath(t, path, meta).0, ResolvePath(t, path).value, Segments(path);
            && here in t.nodes && Resolve(r, a) == Some(here)
            && (HasRow(r, here) <==> |a| < WALK_LIMIT && (meta.isDir || a == []))
            && (HasRow(t, here) <==> |a| < WALK_LIMIT && (t.nodes[here].meta.isDir || a == []))
  {
    hide Segments, Agree, UniqueSiblings, Resolve, HasRow;
    var r, here := UpsertAtPath(t, path, meta).0, ResolvePath(t, path).value;
    ResolvedIsNode(t, Segments(path));
    MetaKeepsWellFormed(t, here, meta);
    UpdateResolves(t, here, meta, Segments(path));
    RowAt(t, Segments(path));
    RowAt(r, Segments(path));
    OnlyNoneIsRoot(t, Segments(path));
  }

  lemma KindKeptAnswers(t: Tree, path: Str, meta: ItemMeta, q: Str)
    requires WellFormed(t) && ResolvePath(t, path).Some? && Segments(q) != Segments(path)
    requires KeepsKind(t, path, meta) || Segments(path) == [] || |Segments(path)| >= WALK_LIMIT || !HasLooseChild(t, Segments(path))
    ensures SameHit(Answer(t, q), Answer(UpsertAtPath(t, path, meta).0, q))
  {
    hide Segments, Agree, UniqueSiblings, SoleRoot, UpsertAtPath, Resolve, HasRow, ChildList, LastSegment, Normalize;
    var segs := Segments(q);
    UpdateRows(t, path, meta, segs);
    if segs != [] {
      var init := segs[..|segs| - 1];
      assert segs == init + [segs[|segs| - 1]];
      if init == Segments(path) { UpdatedRow(t, path, meta); } else { UpdateRows(t, path, meta, init); }
    }
  }

  lemma LooseChildIsHidden(t: Tree, path: Str, meta: ItemMeta) returns (q: Str)
    requires WellFormed(t) && GoodNames(t) && ResolvePath(t, path).Some? && HasLooseChild(t, Segments(path))
    requires !KeepsKind(t, path, meta) && Segments(path) != [] && |Segments(path)| < WALK_LIMIT
    ensures Segments(q) != Segments(path) && !SameHit(Answer(t, q), Answer(UpsertAtPath(t, path, meta).0, q))
  {
    hide Segments, Agree, UniqueSiblings, SoleRoot, UpsertAtPath, Resolve, HasRow, ChildList, LastSegment, Normalize;
    var a := Segments(path);
    var n: Str :| Resolve(t, a + [n]).Some? && !HasRow(t, Resolve(t, a + [n]).value);
    ResolveLast(t, a + [n], Resolve(t, a + [n]).value);
    SegmentsAreGood(path);
    q := Render(a + [n]);
    SegmentsOfRender(a + [n]);
    assert (a + [n])[..|a + [n]| - 1] == a;
    UpdateRows(t, path, meta, a + [n]);
    UpdatedRow(t, path, meta);
  }

  // ---------------------------------------------------------------- attached items and moves

  /** Where an item attached below `p` edits the tree: at and below its new place, and at and
      below the place its node had. */
  ghost predicate AttachEdits(t: Tree, it: DeltaItem, p: seq<Str>, q: seq<Str>) {
    p + [it.name] <= q || exists s :: s <= q && Resolve(t, s) == Some(it.id)
  }

  ghost function AttachedAt(t: Tree, it: DeltaItem, p: seq<Str>): iset<seq<Str>> {
    iset q | AttachEdits(t, it, p, q)
  }

  lemma AttachIsEdit(t: Tree, it: DeltaItem, p: seq<Str>)
    requires AttachesAt(t, it, p)
    ensures EditedOnly(t, Apply(t, it), AttachedAt(t, it, p))
  {
    hide SameNode, Apply, AttachEdits;
    ApplyNonRootKeeps(t, it);
    var off := AttachedAt(t, it, p);
    forall q | q !in off ensures SameNode(t, Apply(t, it), off, q) { AttachSameNode(t, it, p, q); }
  }

  lemma AttachResolves(t: Tree, it: DeltaItem, p: seq<Str>, q: seq<Str>)
    requires AttachesAt(t, it, p) && !AttachEdits(t, it, p, q)
    ensures Resolve(Apply(t, it), q) == Resolve(t, q) && Resolve(t, q) != Some(it.id)
  {
    hide Resolve, Apply, Down, OffCycle;
    AttachGrafts(t, it, p);
    GraftResolves(t, Apply(t, it), it.id, p, it.name, Evicted(t, it), q);
    if LeadsInto(t, q, it.id) {
      EntersThroughTop(t, q, it.id);
      var s :| Resolve(t, s) == Some(it.id);
      SubtreePaths(t, s, q);
      assert false;
    }
    assert q <= q;
  }

  lemma PrefixEdits(t: Tree, it: DeltaItem, p: seq<Str>, q: seq<Str>)
    requires !AttachEdits(t, it, p, q) && q != []
    ensures !AttachEdits(t, it, p, q[..|q| - 1])
  {
    hide Resolve;
    var init := q[..|q| - 1];
    assert p + [it.name] <= init ==> p + [it.name] <= q;
    forall s | s <= init && Resolve(t, s) == Some(it.id) ensures s <= q {}
  }

  lemma AttachSameNode(t: Tree, it: DeltaItem, p: seq<Str>, q: seq<Str>)
    requires AttachesAt(t, it, p) && !AttachEdits(t, it, p, q)
    ensures SameNode(t, Apply(t, it), AttachedAt(t, it, p), q)
  {
    hide Resolve, Apply, Down, WellFormed, OffCycle, Evicted, AttachEdits;
    AttachResolves(t, it, p, q);
    ApplyPlainNodes(t, it);
    if q != [] {
      PrefixEdits(t, it, p, q);
      AttachResolves(t, it, p, q[..|q| - 1]);
    }
    if Resolve(t, q).Some? {
      forall c, n | !AttachEdits(t, it, p, q + [n])
        ensures HasPlace(Apply(t, it), c, Resolve(t, q).value, n) <==> HasPlace(t, c, Resolve(t, q).value, n)
      {
        AttachSamePlace(t, it, p, q, c, n);
      }
    }
  }

  lemma AttachSamePlace(t: Tree, it: DeltaItem, p: seq<Str>, q: seq<Str>, c: Id, n: Str)
    requires AttachesAt(t, it, p) && Resolve(t, q).Some? && !AttachEdits(t, it, p, q + [n])
    ensures HasPlace(Apply(t, it), c, Resolve(t, q).value, n) <==> HasPlace(t, c, Resolve(t, q).value, n)
  {
    hide Resolve, Apply, Down, OffCycle, Evicted;
    PlacesAfter(t, it, c, Resolve(t, q).value, n);
    PlaceResolves(t, q, c, n);
    if c == it.id {
      assert q + [n] <= q + [n];
      if Resolve(t, q) == it.parentId && n == it.name {
        ResolveInjective(t, q, p);
        assert false;
      }
    } else if HasPlace(t, c, Resolve(t, q).value, n) && c in Evicted(t, it) {
      EvictedLiesAtTarget(t, it, p, q + [n]);
      assert false;
    }
  }

  /** What hangs below the item's node hangs there as before. */
  lemma AttachKeepsListings(t: Tree, it: DeltaItem, p: seq<Str>, x: Id)
    requires AttachesAt(t, it, p) && x in Down(t, it.id)
    ensures ChildList(Apply(t, it), x) == ChildList(t, x)
  {
    hide Apply, Down, Evicted, Resolve, Unedited, ChildList;
    ApplyNonRootKeeps(t, it);
    ApplyPlainNodes(t, it);
    SubtreeNotEvicted(t, it, p);
    forall c, n ensures HasPlace(Apply(t, it), c, x, n) <==> HasPlace(t, c, x, n) {
      PlacesAfter(t, it, c, x, n);
      if HasPlace(t, c, x, n) {
        assert Entry(n, c) in KidSet(t, x);
        assert c in Down(t, it.id);
      }
    }
    ListedAlike(t, Apply(t, it), x, [], {});
    NothingEdited(ChildList(t, x), [], {});
    NothingEdited(ChildList(Apply(t, it), x), [], {});
  }

  /** Where the item's node was, if anywhere. */
  ghost function PlacesOf(t: Tree, id: Id): (s: set<seq<Str>>)
    ensures forall q :: q in s ==> Resolve(t, q) == Some(id)
    ensures s == {} ==> forall q :: Resolve(t, q) != Some(id)
  {
    if q :| Resolve(t, q) == Some(id) then {q} else {}
  }

  lemma OnlyPlace(t: Tree, id: Id, s: seq<Str>)
    requires WellFormed(t) && Resolve(t, s) == Some(id)
    ensures PlacesOf(t, id) == {s}
  {
    hide WellFormed, Resolve;
    forall q | Resolve(t, q) == Some(id) ensures q == s { ResolveInjective(t, q, s); }
  }

  /** The new and the old place of the item's node. */
  ghost function EditedBy(t: Tree, it: DeltaItem, p: seq<Str>): set<seq<Str>> { PlacesOf(t, it.id) + {p + [it.name]} }

  lemma AttachEditsChildren(t: Tree, it: DeltaItem, p: seq<Str>, segs: seq<Str>)
    requires AttachesAt(t, it, p) && !AttachEdits(t, it, p, segs)
    ensures EditsChildren(AttachedAt(t, it, p), segs, EditedBy(t, it, p))
  {
    hide WellFormed, Plain, OffCycle, Down;
    forall n: Str | segs + [n] in AttachedAt(t, it, p) ensures segs + [n] in EditedBy(t, it, p) {
      var q := segs + [n];
      if p + [it.name] <= q {
        ExtendsByOne(p + [it.name], segs, n);
      } else {
        var s :| s <= q && Resolve(t, s) == Some(it.id);
        ExtendsByOne(s, segs, n);
        OnlyPlace(t, it.id, s);
      }
    }
  }

  lemma ExtendsByOne(a: seq<Str>, segs: seq<Str>, n: Str)
    requires a <= segs + [n] && !(a <= segs)
    ensures a == segs + [n]
  {
    var init, last := a[..|a| - 1], a[|a| - 1];
    assert a == init + [last];
    PrefixOfSnoc(init, last, segs, n);
  }

  /** The listing of a directory after a node was placed at `at`: as before but for the records at
      its old and its new place; none at the old one any more, and at the new one a record that
      carries its metadata. */
  predicate ListsPlaced(before: Option<Lookup>, after: Option<Lookup>, segs: seq<Str>, olds: set<seq<Str>>, at: seq<Str>,
                        id: Id, meta: ItemMeta) {
    && SameListing(before, after, segs, olds + {at})
    && (after.Some? && after.value.DirHit? ==>
          && (forall o :: o in olds && o != at ==> Omits(after.value.children, segs, o))
          && (at != [] && at[..|at| - 1] == segs ==>
                var c := FindChild(after.value.children, at[|at| - 1]);
                c.Some? && c.value.isDir == meta.isDir && Carries(c.value, id, meta)))
  }

  /** An item attached below `p`. Lookups at and below the old place of its node find nothing, unless
      they are below the new one. Lookups off both places answer as before, but for the two records
      in listings. The new place answers with the item's metadata exactly when the file can show it,
      and lists what its node had. */
  lemma AttachAnswers(t: Tree, it: DeltaItem, p: seq<Str>, path: Str, q: Str)
    requires AttachesAt(t, it, p) && Segments(path) == p + [it.name]
    ensures var r, a, segs, olds := Apply(t, it), p + [it.name], Segments(q), PlacesOf(t, it.id);
            && WellFormed(r) && ResolvePath(r, path) == Some(it.id)
            && (AttachEdits(t, it, p, segs) && !(a <= segs) ==> Answer(r, q) == None)
            && (!AttachEdits(t, it, p, segs) ==> ListsPlaced(Answer(t, q), Answer(r, q), segs, olds, a, it.id, it.meta))
            && (!AttachEdits(t, it, p, segs) && !ListsEdited(segs, EditedBy(t, it, p)) ==> Answer(r, q) == Answer(t, q))
            && (Answer(r, path).Some? <==> Shows(t, a, it.meta))
            && (Answer(r, path).Some? ==> Carries(Answer(r, path).value.info, it.id, it.meta))
            && (Answer(r, path).Some? && Answer(r, path).value.DirHit? ==> Answer(r, path).value.children == ChildList(t, it.id))
  {
    hide Segments, Answer, WellFormed, Apply, Resolve, Down, EditedOnly, AttachEdits, SameListing, Shows, Carries, ChildList,
         ListsEdited, OffCycle, Plain, AttachesAt, FindChild, Omits;
    var r, segs := Apply(t, it), Segments(q);
    AttachedAnswers(t, it, p, path);
    if !AttachEdits(t, it, p, segs) {
      AttachIsEdit(t, it, p);
      AttachEditsChildren(t, it, p, segs);
      EditAnswers(t, r, AttachedAt(t, it, p), EditedBy(t, it, p), q);
      if !ListsEdited(segs, EditedBy(t, it, p)) { SameListingIsSame(Answer(t, q), Answer(r, q), segs, EditedBy(t, it, p)); }
      forall o | o in PlacesOf(t, it.id) && o != p + [it.name] && Answer(r, q).Some? && Answer(r, q).value.DirHit?
        ensures Omits(Answer(r, q).value.children, segs, o)
      {
        OldPlaceOmitted(t, it, p, o, q);
      }
      NewPlaceListed(t, it, p, q);
    } else if !(p + [it.name] <= segs) {
      OldPlaceIsGone(t, it, p, segs);
      NothingAnswers(r, q);
    }
  }

  lemma OldPlaceIsGone(t: Tree, it: DeltaItem, p: seq<Str>, segs: seq<Str>)
    requires AttachesAt(t, it, p) && AttachEdits(t, it, p, segs) && !(p + [it.name] <= segs)
    ensures Resolve(Apply(t, it), segs) == None
  {
    hide Resolve, Apply, Down, OffCycle, Evicted;
    AttachGrafts(t, it, p);
    GraftResolves(t, Apply(t, it), it.id, p, it.name, Evicted(t, it), segs);
    var s :| s <= segs && Resolve(t, s) == Some(it.id);
    if Resolve(t, segs).Some? { SubtreePaths(t, s, segs); }
  }

  lemma OldPlaceOmitted(t: Tree, it: DeltaItem, p: seq<Str>, o: seq<Str>, q: Str)
    requires AttachesAt(t, it, p) && Resolve(t, o) == Some(it.id) && o != p + [it.name]
    requires !AttachEdits(t, it, p, Segments(q))
    ensures var a := Answer(Apply(t, it), q);
            a.Some? && a.value.DirHit? ==> Omits(a.value.children, Segments(q), o)
  {
    hide Segments, Answer, Resolve, Apply, Down, OffCycle, Unedited, ChildList;
    ApplyNonRootKeeps(t, it);
    if p + [it.name] <= o {
      forall n: Str ensures Segments(q) + [n] != o {
        if Segments(q) + [n] == o { ExtendsByOne(p + [it.name], Segments(q), n); }
      }
    } else {
      assert o <= o;
      OldPlaceIsGone(t, it, p, o);
      NoneListed(Apply(t, it), q, o);
    }
  }

  lemma NewPlaceListed(t: Tree, it: DeltaItem, p: seq<Str>, q: Str)
    requires AttachesAt(t, it, p)
    ensures var a, at := Answer(Apply(t, it), q), p + [it.name];
            a.Some? && a.value.DirHit? && at[..|at| - 1] == Segments(q) ==>
              var c := FindChild(a.value.children, it.name);
              c.Some? && c.value.isDir == it.meta.isDir && Carries(c.value, it.id, it.meta)
  {
    hide Segments, Answer, Resolve, Apply, Down, OffCycle, Evicted, FindChild, ChildList;
    var r, at := Apply(t, it), p + [it.name];
    AttachGrafts(t, it, p);
    GraftResolves(t, r, it.id, p, it.name, Evicted(t, it), at);
    assert at[|at|..] == [] && at[..|at| - 1] == p && at[|at| - 1] == it.name;
    ResolveFromNil(t, it.id);
    ApplyPlainNodes(t, it);
    if Segments(q) == p { RecordAnswered(r, at, q); }
  }

  lemma AttachedAnswers(t: Tree, it: DeltaItem, p: seq<Str>, path: Str)
    requires AttachesAt(t, it, p) && Segments(path) == p + [it.name]
    ensures var a := Answer(Apply(t, it), path);
            && WellFormed(Apply(t, it)) && ResolvePath(Apply(t, it), path) == Some(it.id)
            && (a.Some? <==> Shows(t, p + [it.name], it.meta))
            && (a.Some? ==> Carries(a.value.info, it.id, it.meta))
            && (a.Some? && a.value.DirHit? ==> a.value.children == ChildList(t, it.id))
  {
    hide Segments, Answer, Apply, Resolve, Down, HasRow, ChildList, OffCycle, Evicted;
    var r, to := Apply(t, it), p + [it.name];
    AttachGrafts(t, it, p);
    GraftResolves(t, r, it.id, p, it.name, Evicted(t, it), to);
    assert to[|to|..] == [] && to[..|to| - 1] == p;
    ResolveFromNil(t, it.id);
    ApplyPlainNodes(t, it);
    ParentNotEdited(t, it, p);
    AttachResolves(t, it, p, p);
    SameParentRow(t, r, to);
    AnswerAt(r, path, it.meta);
    DirHitLists(r, path);
    AttachKeepsListings(t, it, p, it.id);
  }

  lemma ResolveFromNil(t: Tree, id: Id)
    ensures ResolveFrom(t, id, []) == Some(id)
  {
  }

  lemma ParentNotEdited(t: Tree, it: DeltaItem, p: seq<Str>)
    requires AttachesAt(t, it, p)
    ensures !AttachEdits(t, it, p, p)
  {
    hide Resolve, Down, OffCycle;
    if s :| s <= p && Resolve(t, s) == Some(it.id) { SubtreePaths(t, s, p); }
  }

  /** An answer under another name. */
  predicate Renamed(a: Option<Lookup>, b: Option<Lookup>, name: Str) {
    match (a, b)
    case (None, None) => true
    case (Some(FileHit(x)), Some(FileHit(y))) => y == x.(name := name)
    case (Some(DirHit(x, cs)), Some(DirHit(y, ds))) => y == x.(name := name) && ds == cs
    case _ => false
  }

  /** After a move by path, lookups off both ends answer as before, but for the two records in the
      listings of the parents, and lookups below the source that are not below the target find
      nothing. */
  lemma MoveAnswersElsewhere(t: Tree, from: Str, to: Str, q: Str)
    requires WellFormed(t) && [] !in t.nodes && CanMove(t, from, to) && !(Segments(to) <= Segments(q))
    ensures var r, f, a, segs, id := MoveAtPath(t, from, to).0, Segments(from), Segments(to), Segments(q), ResolvePath(t, from).value;
            && WellFormed(r) && id in t.nodes
            && (f <= segs ==> Answer(r, q) == None)
            && (!(f <= segs) ==> ListsPlaced(Answer(t, q), Answer(r, q), segs, {f}, a, id, t.nodes[id].meta))
            && (!(f <= segs) && segs != Segments(ParentPath(from)) && segs != Segments(ParentPath(to)) ==> Answer(r, q) == Answer(t, q))
  {
    hide Segments, Answer, ParentPath, LastSegment, WellFormed, Apply, Resolve, MoveAtPath, ListsPlaced, EditedBy, AttachEdits;
    var r, f, segs := MoveAtPath(t, from, to).0, Segments(from), Segments(q);
    MoveAtPathResolves(t, from, to, segs);
    var it := MoveAttaches(t, from, to);
    if f <= segs {
      NothingAnswers(r, q);
    } else {
      MoveEdits(t, it, from, to, segs);
      AttachAnswers(t, it, Segments(ParentPath(to)), to, q);
      OnlyPlace(t, it.id, f);
      NotParent(from, segs);
      NotParent(to, segs);
    }
  }

  /** The item a move applies attaches below the target directory. */
  lemma MoveAttaches(t: Tree, from: Str, to: Str) returns (it: DeltaItem)
    requires WellFormed(t) && [] !in t.nodes && CanMove(t, from, to)
    ensures MoveAtPath(t, from, to) == (Apply(t, it), true) && AttachesAt(t, it, Segments(ParentPath(to)))
    ensures Segments(to) == Segments(ParentPath(to)) + [it.name]
    ensures ResolvePath(t, from) == Some(it.id) && it.id in t.nodes && it.meta == t.nodes[it.id].meta
  {
    hide Segments, ParentPath, LastSegment, Agree, UniqueSiblings, SoleRoot, Apply, Resolve, Down, OffCycle;
    ResolvedIsNode(t, Segments(from));
    TargetSegments(to);
    it := MoveItem(t, from, to);
    MovedIsPlain(t, Segments(from), it);
    SubtreePaths(t, Segments(from), Segments(ParentPath(to)));
  }

  /** A move edits what is at or below its two ends. */
  lemma MoveEdits(t: Tree, it: DeltaItem, from: Str, to: Str, segs: seq<Str>)
    requires WellFormed(t) && ResolvePath(t, from) == Some(it.id) && Segments(to) == Segments(ParentPath(to)) + [it.name]
    ensures AttachEdits(t, it, Segments(ParentPath(to)), segs) <==> Segments(from) <= segs || Segments(to) <= segs
    ensures EditedBy(t, it, Segments(ParentPath(to))) == {Segments(from), Segments(to)}
  {
    hide Segments, ParentPath, WellFormed, Resolve;
    OnlyPlace(t, it.id, Segments(from));
    forall s | Resolve(t, s) == Some(it.id) ensures s == Segments(from) { ResolveInjective(t, s, Segments(from)); }
  }

  /** Both ends of a move lie in directories with a row, or what is asked for lies deeper: the move
      takes its answer from one end to the other. */
  ghost predicate ShownAtBothEnds(t: Tree, from: Str, to: Str, a: Str, b: Str) {
    && |Segments(a)| < WALK_LIMIT && |Segments(b)| < WALK_LIMIT
    && (Segments(a) == Segments(from) ==>
          Segments(from) != [] && Segments(to) != [] && ParentHasRow(t, Segments(from)) && ParentHasRow(t, Segments(to)))
  }

  /** What a path below the source answered, the same path below the target answers after the
      move, under its new name: a directory with the same children, a file, or nothing. */
  lemma MovedAnswers(t: Tree, from: Str, to: Str, rest: seq<Str>, a: Str, b: Str)
    requires WellFormed(t) && [] !in t.nodes && CanMove(t, from, to)
    requires Segments(a) == Segments(from) + rest && Segments(b) == Segments(to) + rest && ShownAtBothEnds(t, from, to, a, b)
    ensures var name := Segments(b)[|Segments(b)| - 1];
            Renamed(Answer(t, a), Answer(MoveAtPath(t, from, to).0, b), name)
  {
    hide Segments, Answer, ParentPath, WellFormed, Resolve, MoveAtPath, Renamed, ParentHasRow, CanMove;
    MovedResolves(t, from, to, rest);
    if Resolve(t, Segments(a)) == None {
      NothingAnswers(t, a);
      NothingAnswers(MoveAtPath(t, from, to).0, b);
      NothingRenamed(Segments(b)[|Segments(b)| - 1]);
    } else {
      MovedFound(t, from, to, rest, a, b);
    }
  }

  lemma NothingRenamed(name: Str)
    ensures Renamed(None, None, name)
  {
  }

  lemma MovedResolves(t: Tree, from: Str, to: Str, rest: seq<Str>)
    requires WellFormed(t) && [] !in t.nodes && CanMove(t, from, to)
    ensures var r := MoveAtPath(t, from, to).0;
            && WellFormed(r) && r.root == t.root
            && Resolve(r, Segments(to) + rest) == Resolve(t, Segments(from) + rest)
    ensures Segments(from) != [] && Segments(to) != []
  {
    hide Segments, ParentPath, WellFormed, Resolve, MoveAtPath;
    MoveAtPathResolves(t, from, to, Segments(to) + rest);
    MoveKeepsRoot(t, from, to);
    assert (Segments(to) + rest)[|Segments(to)|..] == rest;
  }

  lemma MovedFound(t: Tree, from: Str, to: Str, rest: seq<Str>, a: Str, b: Str)
    requires WellFormed(t) && [] !in t.nodes && CanMove(t, from, to)
    requires Segments(a) == Segments(from) + rest && Segments(b) == Segments(to) + rest && Segments(b) != []
    requires |Segments(a)| < WALK_LIMIT && |Segments(b)| < WALK_LIMIT && ResolvePath(t, a).Some?
    requires rest == [] ==> Segments(from) != [] && ParentHasRow(t, Segments(from)) && ParentHasRow(t, Segments(to))
    ensures Renamed(Answer(t, a), Answer(MoveAtPath(t, from, to).0, b), Segments(b)[|Segments(b)| - 1])
  {
    hide Segments, Answer, ParentPath, LastSegment, WellFormed, Apply, Resolve, MoveAtPath, AttachesAt, Renamed, ParentHasRow, CanMove,
         ChildList;
    MovedResolves(t, from, to, rest);
    var it := MoveAttaches(t, from, to);
    MovedNode(t, it, from, rest);
    MovedParent(t, it, from, to, rest);
    RenamedAnswer(t, MoveAtPath(t, from, to).0, a, b);
  }

  /** A node in the moved subtree keeps its metadata and its listing. */
  lemma MovedNode(t: Tree, it: DeltaItem, from: Str, rest: seq<Str>)
    requires WellFormed(t) && ResolvePath(t, from) == Some(it.id) && Resolve(t, Segments(from) + rest).Some?
    requires it.id in t.nodes && it.meta == t.nodes[it.id].meta
    requires exists p :: AttachesAt(t, it, p)
    ensures var x := Resolve(t, Segments(from) + rest).value;
            && x in t.nodes && x in Apply(t, it).nodes && Apply(t, it).nodes[x].meta == t.nodes[x].meta
            && ChildList(Apply(t, it), x) == ChildList(t, x)
  {
    hide Segments, Apply, Resolve, ChildList, Agree, UniqueSiblings, SoleRoot, OffCycle, Down, Evicted;
    var p :| AttachesAt(t, it, p);
    var sa := Segments(from) + rest;
    SubtreePaths(t, Segments(from), sa);
    ResolvedIsNode(t, sa);
    SubtreeNotEvicted(t, it, p);
    ApplyPlainNodes(t, it);
    AttachKeepsListings(t, it, p, Resolve(t, sa).value);
  }

  /** The directory of a moved path has a row after the move as before. */
  lemma MovedParent(t: Tree, it: DeltaItem, from: Str, to: Str, rest: seq<Str>)
    requires WellFormed(t) && [] !in t.nodes && CanMove(t, from, to)
    requires MoveAtPath(t, from, to) == (Apply(t, it), true) && AttachesAt(t, it, Segments(ParentPath(to)))
    requires ResolvePath(t, from) == Some(it.id) && Segments(to) == Segments(ParentPath(to)) + [it.name]
    requires it.id in t.nodes && it.meta == t.nodes[it.id].meta
    requires Resolve(t, Segments(from) + rest).Some? && |Segments(from) + rest| < WALK_LIMIT && |Segments(to) + rest| < WALK_LIMIT
    requires rest == [] ==> ParentHasRow(t, Segments(from)) && ParentHasRow(t, Segments(to))
    ensures ParentHasRow(Apply(t, it), Segments(to) + rest) <==> ParentHasRow(t, Segments(from) + rest)
  {
    hide Segments, ParentPath, Apply, Resolve, MoveAtPath, Agree, UniqueSiblings, SoleRoot, Down, OffCycle, HasRow;
    var r, f, b := Apply(t, it), Segments(from), Segments(to);
    ApplyNonRootKeeps(t, it);
    if rest == [] {
      var p := Segments(ParentPath(to));
      assert f + [] == f && b + [] == b && b[..|b| - 1] == p;
      ParentNotEdited(t, it, p);
      AttachIsEdit(t, it, p);
      assert SameNode(t, r, AttachedAt(t, it, p), p);
      SameParentRow(t, r, b);
    } else {
      var up := rest[..|rest| - 1];
      assert (f + rest)[..|f + rest| - 1] == f + up && (b + rest)[..|b + rest| - 1] == b + up;
      MoveAtPathResolves(t, from, to, b + up);
      assert (b + up)[|b|..] == up;
      PrefixResolves(t, f + rest, |f + up|);
      assert (f + rest)[..|f + up|] == f + up;
      MovedNode(t, it, from, up);
      RowAt(t, f + up);
      RowAt(r, b + up);
      assert r.root == t.root;
    }
  }

  /** Two paths to one node whose directories both have a row, or both have none. */
  lemma RenamedAnswer(t: Tree, r: Tree, a: Str, b: Str)
    requires WellFormed(t) && WellFormed(r) && r.root == t.root && Segments(a) != [] && Segments(b) != []
    requires ResolvePath(t, a).Some? && ResolvePath(r, b) == ResolvePath(t, a)
    requires |Segments(a)| < WALK_LIMIT && |Segments(b)| < WALK_LIMIT
    requires ParentHasRow(r, Segments(b)) <==> ParentHasRow(t, Segments(a))
    requires var x := ResolvePath(t, a).value;
             x in t.nodes && x in r.nodes && r.nodes[x].meta == t.nodes[x].meta && ChildList(r, x) == ChildList(t, x)
    ensures Renamed(Answer(t, a), Answer(r, b), Segments(b)[|Segments(b)| - 1])
  {
    hide Segments, Resolve, Agree, UniqueSiblings, SoleRoot, HasRow, ChildList, Render, LastSegment, ParentHasRow;
    RowAt(t, Segments(a));
    RowAt(r, Segments(b));
    SegmentsAreGood(b);
    HelpersOnRender(Segments(b));
  }

  // ---------------------------------------------------------------- below an attached item

  /** A node strictly below the item's keeps its metadata and its listing. */
  lemma BelowKeeps(t: Tree, it: DeltaItem, p: seq<Str>, o: seq<Str>, rest: seq<Str>)
    requires AttachesAt(t, it, p) && Resolve(t, o) == Some(it.id) && rest != [] && Resolve(t, o + rest).Some?
    ensures var x := Resolve(t, o + rest).value;
            && x in t.nodes && x in Apply(t, it).nodes && Apply(t, it).nodes[x].meta == t.nodes[x].meta
            && ChildList(Apply(t, it), x) == ChildList(t, x)
  {
    hide Apply, Resolve, ChildList, Agree, UniqueSiblings, SoleRoot, OffCycle, Down, Evicted;
    var x := Resolve(t, o + rest).value;
    SubtreePaths(t, o, o + rest);
    ResolvedIsNode(t, o + rest);
    SubtreeNotEvicted(t, it, p);
    ApplyPlainNodes(t, it);
    if x == it.id { ResolveInjective(t, o + rest, o); }
    AttachKeepsListings(t, it, p, x);
  }

  /** What was at `o + rest` is at the new place and `rest`. */
  lemma BelowResolves(t: Tree, it: DeltaItem, p: seq<Str>, o: seq<Str>, rest: seq<Str>)
    requires AttachesAt(t, it, p) && Resolve(t, o) == Some(it.id)
    ensures Resolve(Apply(t, it), p + [it.name] + rest) == Resolve(t, o + rest)
  {
    hide Apply, Resolve, Down, OffCycle, Evicted;
    AttachGrafts(t, it, p);
    var q := p + [it.name] + rest;
    GraftResolves(t, Apply(t, it), it.id, p, it.name, Evicted(t, it), q);
    assert p + [it.name] <= q && q[|p + [it.name]|..] == rest;
    ResolveConcat(t, o, rest);
  }

  /** A node that was nowhere and has no child set brings nothing with it. */
  lemma NothingBelow(t: Tree, it: DeltaItem, p: seq<Str>, rest: seq<Str>)
    requires AttachesAt(t, it, p) && KidSet(t, it.id) == {} && rest != []
    ensures Resolve(Apply(t, it), p + [it.name] + rest) == None
  {
    hide Apply, Resolve, Down, OffCycle, Evicted;
    AttachGrafts(t, it, p);
    var q := p + [it.name] + rest;
    GraftResolves(t, Apply(t, it), it.id, p, it.name, Evicted(t, it), q);
    assert p + [it.name] <= q && q[|p + [it.name]|..] == rest;
    assert Named(t, it.id, rest[0]) == {};
  }

  /** Within the walk limit, what a path strictly below the old place answered, the same path below
      the new place answers, as long as the node keeps its kind. */
  lemma BelowAnswers(t: Tree, it: DeltaItem, p: seq<Str>, o: seq<Str>, rest: seq<Str>, a: Str, b: Str)
    requires AttachesAt(t, it, p) && Resolve(t, o) == Some(it.id) && rest != []
    requires Segments(a) == o + rest && Segments(b) == p + [it.name] + rest
    requires |Segments(a)| < WALK_LIMIT && |Segments(b)| < WALK_LIMIT
    requires it.id in t.nodes ==> t.nodes[it.id].meta.isDir == it.meta.isDir
    ensures Answer(Apply(t, it), b) == Answer(t, a)
  {
    hide Segments, Answer, Apply, Resolve, AttachesAt, ChildList, ParentHasRow, WellFormed;
    AttachedIsSound(t, it, p);
    BelowResolves(t, it, p, o, rest);
    if Resolve(t, o + rest) == None {
      NothingAnswers(t, a);
      NothingAnswers(Apply(t, it), b);
    } else {
      BelowKeeps(t, it, p, o, rest);
      BelowParent(t, it, p, o, rest);
      RenamedAnswer(t, Apply(t, it), a, b);
      AnswerIsNamed(t, a);
      RenamedIsSame(Answer(t, a), Answer(Apply(t, it), b), Segments(b)[|Segments(b)| - 1]);
    }
  }

  lemma AttachedIsSound(t: Tree, it: DeltaItem, p: seq<Str>)
    requires AttachesAt(t, it, p)
    ensures WellFormed(t) && WellFormed(Apply(t, it)) && Apply(t, it).root == t.root
  {
    ApplyNonRootKeeps(t, it);
  }

  /** The directory of a path below the item has a row as before. */
  lemma BelowParent(t: Tree, it: DeltaItem, p: seq<Str>, o: seq<Str>, rest: seq<Str>)
    requires AttachesAt(t, it, p) && Resolve(t, o) == Some(it.id) && rest != [] && Resolve(t, o + rest).Some?
    requires |o + rest| < WALK_LIMIT && |p + [it.name] + rest| < WALK_LIMIT
    requires it.id in t.nodes ==> t.nodes[it.id].meta.isDir == it.meta.isDir
    ensures ParentHasRow(Apply(t, it), p + [it.name] + rest) <==> ParentHasRow(t, o + rest)
  {
    hide Apply, Resolve, Down, OffCycle, HasRow, ChildList, Agree, UniqueSiblings, SoleRoot, Evicted;
    var r, up, n := Apply(t, it), rest[..|rest| - 1], p + [it.name];
    AttachedIsSound(t, it, p);
    assert (o + rest)[..|o + rest| - 1] == o + up && (n + rest)[..|n + rest| - 1] == n + up;
    BelowResolves(t, it, p, o, up);
    PrefixResolves(t, o + rest, |o + up|);
    assert (o + rest)[..|o + up|] == o + up;
    RowAt(t, o + up);
    RowAt(r, n + up);
    ApplyPlainNodes(t, it);
    if up == [] {
      assert o + up == o;
    } else {
      BelowKeeps(t, it, p, o, up);
    }
  }

  lemma AnswerIsNamed(t: Tree, q: Str)
    requires Segments(q) != []
    ensures Answer(t, q).Some? ==> Answer(t, q).value.info.name == Segments(q)[|Segments(q)| - 1]
  {
    hide Segments, HasRow, ChildList, Render, LastSegment;
    SegmentsAreGood(q);
    HelpersOnRender(Segments(q));
  }

  lemma RenamedIsSame(a: Option<Lookup>, b: Option<Lookup>, name: Str)
    requires Renamed(a, b, name) && (a.Some? ==> a.value.info.name == name)
    ensures a == b
  {
  }

  // ---------------------------------------------------------------- what requests do to lookups

  /** What a `DELETE` makes of a lookup: nothing at and below the path is found, everything else is
      found as before, but that the listing of the parent has lost the one record. */
  ghost predicate DeleteEffect(path: Str, q: Str, before: Option<Lookup>, after: Option<Lookup>) {
    var a, segs := Segments(path), Segments(q);
    && (a <= segs ==> after == None)
    && (!(a <= segs) ==> ListsWithout(before, after, segs, a))
    && (!(a <= segs) && segs != Segments(ParentPath(path)) ==> after == before)
  }

  /** What an upsert makes of a lookup in `u`: the path is found exactly when the file can show it,
      with the new metadata and the children it had; everything else is found as before, but that
      the listing of the parent has the one record with the new metadata. */
  ghost predicate UpsertEffect(u: Tree, path: Str, item: ItemMeta, q: Str, before: Option<Lookup>, after: Option<Lookup>) {
    var a, segs, id := Segments(path), Segments(q), UpsertedId(u, path);
    && (segs != a ==> ListsUpserted(before, after, segs, a, id, item))
    && (segs != a && segs != Segments(ParentPath(path)) ==> after == before)
    && (segs == a ==> (after.Some? <==> Shows(u, a, item)))
    && (segs == a && after.Some? ==> Carries(after.value.info, id, item))
    && (segs == a && after.Some? && after.value.DirHit? ==>
          after.value.children == if before.Some? && before.value.DirHit? then before.value.children else [])
  }

  /** What a move by path makes of a lookup that is not below its target: nothing is found at and
      below the source, everything else as before, but that in the listings of the two parents the
      source's record is gone and the target's is there, with the moved node's metadata. */
  ghost predicate MoveEffect(u: Tree, from: Str, to: Str, q: Str, before: Option<Lookup>, after: Option<Lookup>) {
    var f, a, segs := Segments(from), Segments(to), Segments(q);
    && (f <= segs && !(a <= segs) ==> after == None)
    && (!(f <= segs) && !(a <= segs) ==>
          ResolvePath(u, from).Some? && ResolvePath(u, from).value in u.nodes &&
          var id := ResolvePath(u, from).value; ListsPlaced(before, after, segs, {f}, a, id, u.nodes[id].meta))
    && (!(f <= segs) && !(a <= segs) && segs != Segments(ParentPath(from)) && segs != Segments(ParentPath(to)) ==> after == before)
  }

  /** And of a lookup below the target: it finds, under the new name, what was found below the
      source. */
  ghost predicate MovedEffect(u: Tree, from: Str, to: Str, rest: seq<Str>, source: Str, q: Str,
                              found: Option<Lookup>, after: Option<Lookup>) {
    Segments(q) == Segments(to) + rest && Segments(source) == Segments(from) + rest && ShownAtBothEnds(u, from, to, source, q) ==>
      Segments(q) != [] && Renamed(found, after, Segments(q)[|Segments(q)| - 1])
  }

  /** What an item attached below `dir` makes of a lookup: nothing is found where its node was,
      everything off both places as before, but that in the listings of the two parents the old
      record is gone and the new one is there; and at the new place its metadata is found, exactly
      when the file can show it, with the children its node had. */
  ghost predicate ItemEffect(u: Tree, it: DeltaItem, dir: seq<Str>, q: Str, before: Option<Lookup>, after: Option<Lookup>) {
    var a, segs := dir + [it.name], Segments(q);
    && (AttachEdits(u, it, dir, segs) && !(a <= segs) ==> after == None)
    && (!AttachEdits(u, it, dir, segs) ==> ListsPlaced(before, after, segs, PlacesOf(u, it.id), a, it.id, it.meta))
    && (!AttachEdits(u, it, dir, segs) && !ListsEdited(segs, EditedBy(u, it, dir)) ==> after == before)
    && (segs == a ==> (after.Some? <==> Shows(u, a, it.meta)))
    && (segs == a && after.Some? ==> Carries(after.value.info, it.id, it.meta))
    && (segs == a && after.Some? && after.value.DirHit? ==> after.value.children == ChildList(u, it.id))
  }

  /** And of a lookup strictly below the new place: what was found below the old one, and nothing if
      there was no old one. */
  ghost predicate ItemBelowEffect(u: Tree, it: DeltaItem, dir: seq<Str>, was: seq<Str>, rest: seq<Str>, source: Str, q: Str,
                                  found: Option<Lookup>, after: Option<Lookup>) {
    rest != [] && Segments(q) == dir + [it.name] + rest ==>
      && (PlacesOf(u, it.id) == {} ==> after == None)
      && (Resolve(u, was) == Some(it.id) && Segments(source) == was + rest && |Segments(source)| < WALK_LIMIT
          && |Segments(q)| < WALK_LIMIT && (it.id in u.nodes ==> u.nodes[it.id].meta.isDir == it.meta.isDir) ==>
            after == found)
  }

  // ---------------------------------------------------------------- through the file

  /** A tree and a file that encodes it. */
  ghost predicate Encodes(bytes: Str, t: Tree, dirs: seq<Dir>, meta: Str) {
    && WellFormed(t) && GoodNames(t) && IsDirList(t, dirs) && Known(t, dirs) && Fits(t, dirs, meta)
    && bytes == FileBytes(t, dirs, meta)
  }

  lemma ReloadFits(t: Tree, dirs: seq<Dir>, meta: Str)
    requires WellFormed(t) && GoodNames(t) && RowsBelowRows(t) && IsDirList(t, dirs) && Known(t, dirs) && Fits(t, dirs, meta)
    ensures IsDirList(Reload(t), dirs) && Known(Reload(t), dirs) && Fits(Reload(t), dirs, meta) && GoodNames(Reload(t))
    ensures FileBytes(Reload(t), dirs, meta) == FileBytes(t, dirs, meta)
  {
    hide Reload, FileBytes, HasRow, PathOf, Block, Less, WellFormed, RowsBelowRows, StringsFit, GoodNames;
    ReencodeIsSame(t, dirs, meta);
    forall d | d in dirs ensures Block(Reload(t), d.id) == Block(t, d.id) { ReloadKeepsBlock(t, d.id); }
    ReloadStringsFit(t);
  }

  lemma ReloadStringsFit(t: Tree)
    requires StringsFit(t) && GoodNames(t)
    ensures StringsFit(Reload(t)) && GoodNames(Reload(t))
  {
    hide Reload, HasRow, PathOf, Utf8;
    forall id | id in Reload(t).nodes
      ensures Recorded(t, id) && Reload(t).nodes[id] == Reread(t, id)
    {
      ReloadNodes(t, id);
    }
    Utf8Nil();
  }

  lemma ReloadKeepsBlock(t: Tree, id: Id)
    requires WellFormed(t) && RowsBelowRows(t) && HasRow(t, id)
    ensures Block(Reload(t), id) == Block(t, id)
  {
    hide ChildList, BlockBytes;
    ReloadKeepsChildren(t, id);
  }

  /** Loading a file changes no answer. */
  lemma ReloadAnswers(bytes: Str, t: Tree, dirs: seq<Dir>, meta: Str, q: Str)
    requires Encodes(bytes, t, dirs, meta) && RowsBelowRows(t)
    ensures Answer(Reload(t), q) == Answer(t, q) && Encodes(bytes, Reload(t), dirs, meta)
  {
    hide Reload, Answer, FileBytes, Fits, IsDirList, Agree, UniqueSiblings, SoleRoot, RowsBelowRows, GoodNames, LookupFile;
    ReloadFits(t, dirs, meta);
    ReloadWellFormedIff(t);
    LookupAnswers(t, dirs, meta, q);
    LookupAnswers(Reload(t), dirs, meta, q);
  }

  /** What lookups answer in a file and in the one written after a patch. */
  lemma ThroughFile(bytes: Str, t: Tree, dirs: seq<Dir>, meta: Str, bytes': Str, r: Tree, dirs': seq<Dir>, meta': Str, q: Str)
    requires Encodes(bytes, t, dirs, meta) && RowsBelowRows(t) && Encodes(bytes', r, dirs', meta')
    ensures LookupFile(Some(bytes), q) == Success(Answer(Reload(t), q)) && LookupFile(Some(bytes'), q) == Success(Answer(r, q))
    ensures WellFormed(Reload(t)) && WellFormed(r)
  {
    hide Reload, Answer, FileBytes, Fits, IsDirList, Agree, UniqueSiblings, SoleRoot, RowsBelowRows, GoodNames, LookupFile;
    ReloadAnswers(bytes, t, dirs, meta, q);
    LookupAnswers(t, dirs, meta, q);
    LookupAnswers(r, dirs', meta', q);
  }

  /** A `DELETE` written through the file. */
  lemma DeleteThroughFile(bytes: Str, t: Tree, dirs: seq<Dir>, meta: Str, path: Str,
                          bytes': Str, dirs': seq<Dir>, meta': Str, q: Str)
    requires Encodes(bytes, t, dirs, meta) && RowsBelowRows(t)
    requires Encodes(bytes', RemoveAtPath(Reload(t), path).0, dirs', meta')
    ensures var before, after := LookupFile(Some(bytes), q), LookupFile(Some(bytes'), q);
            before.Success? && after.Success? && DeleteEffect(path, q, before.value, after.value)
  {
    hide Reload, Answer, Encodes, WellFormed, RowsBelowRows, LookupFile, ListsWithout, Segments, ParentPath, RemoveAtPath;
    ThroughFile(bytes, t, dirs, meta, bytes', RemoveAtPath(Reload(t), path).0, dirs', meta', q);
    DeleteAnswers(Reload(t), path, q);
  }

  /** The upsert of a `PUT` or `MKCOL` written through the file. */
  lemma UpsertThroughFile(bytes: Str, t: Tree, dirs: seq<Dir>, meta: Str, path: Str, item: ItemMeta,
                          bytes': Str, dirs': seq<Dir>, meta': Str, q: Str)
    requires Encodes(bytes, t, dirs, meta) && RowsBelowRows(t) && KeepsKind(Reload(t), path, item)
    requires FreshIfNeeded(Reload(t), path) && UpsertAtPath(Reload(t), path, item).1
    requires Encodes(bytes', UpsertAtPath(Reload(t), path, item).0, dirs', meta')
    ensures var before, after := LookupFile(Some(bytes), q), LookupFile(Some(bytes'), q);
            before.Success? && after.Success? && UpsertEffect(Reload(t), path, item, q, before.value, after.value)
  {
    hide Reload, Answer, Encodes, WellFormed, RowsBelowRows, LookupFile, ListsUpserted, Segments, ParentPath, UpsertAtPath, Fresh,
         KeepsKind, Shows, Carries, ChildList, HasRow, Resolve;
    var u := Reload(t);
    var r := UpsertAtPath(u, path, item).0;
    ThroughFile(bytes, t, dirs, meta, bytes', r, dirs', meta', q);
    UpsertedNode(u, path, item);
    if Segments(q) != Segments(path) {
      UpsertAnswersElsewhere(u, path, item, q);
    } else {
      UpsertAnswersHere(u, path, item);
      SameSegments(u, path, q);
      SameSegments(r, path, q);
      DirHitLists(u, path);
      UpsertKeepsDirHit(u, path, item);
    }
  }

  lemma SameSegments(t: Tree, p: Str, q: Str)
    requires Segments(p) == Segments(q)
    ensures Answer(t, p) == Answer(t, q)
  {
    hide Segments, LastSegment, HasRow, ChildList;
  }

  /** A directory found after an upsert was found as one before, or was not there. */
  lemma UpsertKeepsDirHit(t: Tree, path: Str, meta: ItemMeta)
    requires WellFormed(t) && KeepsKind(t, path, meta) && FreshIfNeeded(t, path) && UpsertAtPath(t, path, meta).1
    ensures var a, b := Answer(t, path), Answer(UpsertAtPath(t, path, meta).0, path);
            && (b.Some? && b.value.DirHit? && ResolvePath(t, path).Some? ==> a.Some? && a.value.DirHit?)
            && (ResolvePath(t, path) == None ==> a == None)
  {
    hide Segments, Agree, UniqueSiblings, SoleRoot, Fresh, ChildList, LastSegment, Normalize, Resolve, HasRow, Render;
    var r, segs := UpsertAtPath(t, path, meta).0, Segments(path);
    if ResolvePath(t, path).Some? {
      UpsertedNode(t, path, meta);
      UpsertKeepsRoot(t, path, meta);
      RowAt(t, segs);
      RowAt(r, segs);
    }
  }

  /** A `MOVE` by path written through the file, to a place outside what is moved. */
  lemma MoveThroughFile(bytes: Str, t: Tree, dirs: seq<Dir>, meta: Str, from: Str, to: Str,
                        bytes': Str, dirs': seq<Dir>, meta': Str, q: Str, rest: seq<Str>, source: Str)
    requires Encodes(bytes, t, dirs, meta) && RowsBelowRows(t)
    requires [] !in Reload(t).nodes && CanMove(Reload(t), from, to)
    requires Encodes(bytes', MoveAtPath(Reload(t), from, to).0, dirs', meta')
    ensures var before, after, found := LookupFile(Some(bytes), q), LookupFile(Some(bytes'), q), LookupFile(Some(bytes), source);
            && before.Success? && after.Success? && found.Success?
            && MoveEffect(Reload(t), from, to, q, before.value, after.value)
            && MovedEffect(Reload(t), from, to, rest, source, q, found.value, after.value)
  {
    hide Reload, Answer, Encodes, WellFormed, RowsBelowRows, LookupFile, ListsPlaced, Segments, ParentPath, MoveAtPath,
         Renamed, ShownAtBothEnds, Resolve;
    var u := Reload(t);
    var r := MoveAtPath(u, from, to).0;
    ThroughFile(bytes, t, dirs, meta, bytes', r, dirs', meta', q);
    ThroughFile(bytes, t, dirs, meta, bytes', r, dirs', meta', source);
    if !(Segments(to) <= Segments(q)) { MoveAnswersElsewhere(u, from, to, q); }
    if Segments(q) == Segments(to) + rest && Segments(source) == Segments(from) + rest && ShownAtBothEnds(u, from, to, source, q) {
      MovedResolves(u, from, to, rest);
      MovedAnswers(u, from, to, rest, source, q);
    }
  }

  /** The path at which a patch with an item expects it. */
  function TargetOf(p: Patch): Str {
    match p
    case Upsert(_, path, _) => path
    case Move(_, _, to) => to
    case Delete(path) => path
  }

  /** Graph answered with an item that stands at the patch's path: the item is all that is applied. */
  lemma ItemIsEnough(t: Tree, p: Patch, dir: seq<Str>)
    requires ItemOf(p).Some? && AttachesAt(t, ItemOf(p).value, dir) && Segments(TargetOf(p)) == dir + [ItemOf(p).value.name]
    ensures Patched(t, p) == (Apply(t, ItemOf(p).value), true)
  {
    hide Segments, Answer, Apply, Resolve, AttachesAt, UpsertAtPath, MoveAtPath, Shows, Carries, ChildList;
    AttachedAnswers(t, ItemOf(p).value, dir, TargetOf(p));
  }

  /** In a loaded tree a node without a path has no children. */
  lemma LoadedIsPlaced(t: Tree, id: Id)
    requires WellFormed(t) && GoodNames(t) && RowsBelowRows(t) && PlacesOf(Reload(t), id) == {}
    ensures KidSet(Reload(t), id) == {}
  {
    hide PathOf, Reload, RowsBelowRows, Resolve, Agree, UniqueSiblings, GoodNames;
    ReloadKids(t, id);
    if HasRow(t, id) {
      ReloadKeepsRows(t, id);
      ReloadWellFormedIff(t);
      RowResolves(Reload(t), id);
    }
  }

  lemma RowResolves(t: Tree, id: Id)
    requires WellFormed(t) && HasRow(t, id)
    ensures exists q :: Resolve(t, q) == Some(id)
  {
    hide Resolve, Climb;
    var segs := Climb(t, id, WALK_LIMIT).value;
    ResolveIffClimb(t, segs, id, WALK_LIMIT);
    assert Resolve(t, segs) == Some(id);
  }

  /** A `PUT`, `MKCOL` or `MOVE` with the item Graph answered, written through the file. */
  lemma ItemThroughFile(bytes: Str, t: Tree, dirs: seq<Dir>, meta: Str, p: Patch, dir: seq<Str>,
                        bytes': Str, dirs': seq<Dir>, meta': Str, q: Str, was: seq<Str>, rest: seq<Str>, source: Str)
    requires Encodes(bytes, t, dirs, meta) && RowsBelowRows(t)
    requires ItemOf(p).Some? && AttachesAt(Reload(t), ItemOf(p).value, dir)
    requires Segments(TargetOf(p)) == dir + [ItemOf(p).value.name]
    requires Encodes(bytes', Patched(Reload(t), p).0, dirs', meta')
    ensures var before, after, found := LookupFile(Some(bytes), q), LookupFile(Some(bytes'), q), LookupFile(Some(bytes), source);
            && before.Success? && after.Success? && found.Success?
            && ItemEffect(Reload(t), ItemOf(p).value, dir, q, before.value, after.value)
            && ItemBelowEffect(Reload(t), ItemOf(p).value, dir, was, rest, source, q, found.value, after.value)
  {
    hide Reload, Answer, Encodes, WellFormed, RowsBelowRows, LookupFile, Segments, Apply, AttachesAt, Patched, ItemEffect, ItemBelowEffect;
    var u := Reload(t);
    ItemIsEnough(u, p, dir);
    ThroughFile(bytes, t, dirs, meta, bytes', Patched(u, p).0, dirs', meta', q);
    ThroughFile(bytes, t, dirs, meta, bytes', Patched(u, p).0, dirs', meta', source);
    ItemIsSeen(u, ItemOf(p).value, dir, TargetOf(p), q);
    EncodedIsSound(bytes, t, dirs, meta);
    if PlacesOf(u, ItemOf(p).value.id) == {} { LoadedIsPlaced(t, ItemOf(p).value.id); }
    ItemIsSeenBelow(u, ItemOf(p).value, dir, was, rest, source, q);
  }

  lemma EncodedIsSound(bytes: Str, t: Tree, dirs: seq<Dir>, meta: Str)
    requires Encodes(bytes, t, dirs, meta)
    ensures WellFormed(t) && GoodNames(t)
  {
  }

  lemma ItemIsSeen(u: Tree, it: DeltaItem, dir: seq<Str>, path: Str, q: Str)
    requires AttachesAt(u, it, dir) && Segments(path) == dir + [it.name]
    ensures ItemEffect(u, it, dir, q, Answer(u, q), Answer(Apply(u, it), q))
  {
    hide Answer, Segments, Apply, AttachesAt, AttachEdits, EditedBy, ListsEdited, ListsPlaced, Shows, Carries, ChildList, Resolve;
    AttachAnswers(u, it, dir, path, q);
    if Segments(q) == Segments(path) { SameSegments(Apply(u, it), path, q); }
  }

  lemma ItemIsSeenBelow(u: Tree, it: DeltaItem, dir: seq<Str>, was: seq<Str>, rest: seq<Str>, source: Str, q: Str)
    requires AttachesAt(u, it, dir) && (PlacesOf(u, it.id) == {} ==> KidSet(u, it.id) == {})
    ensures ItemBelowEffect(u, it, dir, was, rest, source, q, Answer(u, source), Answer(Apply(u, it), q))
  {
    hide Answer, Segments, Apply, AttachesAt, Resolve, KidSet;
    if rest != [] && Segments(q) == dir + [it.name] + rest {
      if PlacesOf(u, it.id) == {} {
        NothingBelow(u, it, dir, rest);
        NothingAnswers(Apply(u, it), q);
      }
      if Resolve(u, was) == Some(it.id) && Segments(source) == was + rest && |Segments(source)| < WALK_LIMIT
         && |Segments(q)| < WALK_LIMIT && (it.id in u.nodes ==> u.nodes[it.id].meta.isDir == it.meta.isDir) {
        BelowAnswers(u, it, dir, was, rest, source, q);
      }
    }
  }
}
