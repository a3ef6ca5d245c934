/** The write-through edits that address nodes by path. */
module PathEdits {
  import opened Bytes
  import opened Paths
  import opened Namespace
  import opened Agreement
  import opened Resolution
  import opened Moves

  /** `local:`, the prefix of ids made up for nodes whose Graph id is unknown. */
  const LOCAL: Str := [108, 111, 99, 97, 108, 58]

  /** The item an edit at `path` applies for node `id` below `parent`. */
  function ItemAt(id: Id, parent: Id, path: Str, meta: ItemMeta): DeltaItem {
    DeltaItem(id, Some(parent), LastSegment(path), false, false, meta)
  }

  ghost function UpsertAtPath(t: Tree, path: Str, meta: ItemMeta): (r: (Tree, bool)) {
    var here := ResolvePath(t, path);
    if here.Some? && here.value in t.nodes then
      (t.(nodes := t.nodes[here.value := t.nodes[here.value].(meta := meta)]), true)
    else
      var parent := ResolvePath(t, ParentPath(path));
      if LastSegment(path) == [] || parent == None then (t, false)
      else (Apply(t, ItemAt(LOCAL + path, parent.value, path, meta)), true)
  }

  ghost function RemoveAtPath(t: Tree, path: Str): (r: (Tree, bool)) {
    var here := ResolvePath(t, path);
    if here == None then (t, false) else (Prune(t, Down(t, here.value)), true)
  }

  ghost function MoveAtPath(t: Tree, from: Str, to: Str): (r: (Tree, bool)) {
    var here := ResolvePath(t, from);
    if here == None || here.value !in t.nodes || LastSegment(to) == [] then (t, false)
    else
      var parent := ResolvePath(t, ParentPath(to));
      if parent == None then (t, false)
      else (Apply(t, ItemAt(here.value, parent.value, to, t.nodes[here.value].meta)), true)
  }

  /** The index patches of the WebDAV handlers; `item` is what Graph answered, if it could be
      parsed. */
  datatype Patch =
    | Upsert(item: Option<DeltaItem>, path: Str, meta: ItemMeta)
    | Delete(path: Str)
    | Move(item: Option<DeltaItem>, from: Str, to: Str)

  ghost function Patched(t: Tree, p: Patch): (r: (Tree, bool)) {
    match p
    case Upsert(None, path, meta) => UpsertAtPath(t, path, meta)
    case Upsert(Some(it), path, meta) =>
      var u := Apply(t, it);
      if ResolvePath(u, path).Some? then (u, true) else UpsertAtPath(u, path, meta)
    case Delete(path) => RemoveAtPath(t, path)
    case Move(None, from, to) => MoveAtPath(t, from, to)
    case Move(Some(it), from, to) =>
      var u := Apply(t, it);
      if ResolvePath(u, to).Some? then (u, true) else MoveAtPath(u, from, to)
  }

  // ---------------------------------------------------------------- removal

  /** After a removal by path the path and everything below it is gone, and every other path
      leads where it led. A removal that does not apply changes nothing. */
  lemma RemoveAtPathResolves(t: Tree, path: Str, q: seq<Str>)
    requires WellFormed(t)
    ensures RemoveAtPath(t, path).1 <==> ResolvePath(t, path).Some?
    ensures !RemoveAtPath(t, path).1 ==> RemoveAtPath(t, path).0 == t
    ensures WellFormed(RemoveAtPath(t, path).0)
    ensures Resolve(RemoveAtPath(t, path).0, q) == if Segments(path) <= q then None else Resolve(t, q)
  {
    var here := ResolvePath(t, path);
    if here == None {
      if Segments(path) <= q { Unreachable(t, Segments(path), q); }
    } else {
      RemovalLoses(t, here.value);
      LossResolves(t, RemoveAtPath(t, path).0, here.value, q);
      Entering(t, Segments(path), q);
    }
  }

  /** Nothing resolves below a path that does not resolve. */
  lemma Unreachable(t: Tree, a: seq<Str>, q: seq<Str>)
    requires Resolve(t, a) == None && a <= q
    ensures Resolve(t, q) == None
  {
    assert q == a + q[|a|..];
    ResolveConcat(t, a, q[|a|..]);
  }

  /** Entering the subtree at `a` means extending `a`. */
  lemma Entering(t: Tree, a: seq<Str>, q: seq<Str>)
    requires WellFormed(t) && Resolve(t, a).Some?
    ensures Resolve(t, q).Some? ==> (LeadsInto(t, q, Resolve(t, a).value) <==> a <= q)
  {
    if Resolve(t, q).Some? { SubtreePaths(t, a, q); }
  }

  // ---------------------------------------------------------------- moves

  /** The destination directory exists and lies outside what is moved. */
  ghost predicate CanMove(t: Tree, from: Str, to: Str) {
    && Segments(from) != [] && Segments(to) != []
    && ResolvePath(t, from).Some?
    && ResolvePath(t, ParentPath(to)).Some?
    && !(Segments(from) <= Segments(ParentPath(to)))
  }

  /** What every path leads to after a move. */
  ghost function Moved(t: Tree, from: seq<Str>, to: seq<Str>, q: seq<Str>): Option<Id> {
    if to <= q then Resolve(t, from + q[|to|..])
    else if from <= q then None
    else Resolve(t, q)
  }

  /** A move carries the subtree at `from` to `to`, displaces whatever was at `to` - also when
      `to` is above `from` - and leaves every other path alone. */
  lemma MoveAtPathResolves(t: Tree, from: Str, to: Str, q: seq<Str>)
    requires WellFormed(t) && [] !in t.nodes && CanMove(t, from, to)
    ensures MoveAtPath(t, from, to).1 && WellFormed(MoveAtPath(t, from, to).0)
    ensures Resolve(MoveAtPath(t, from, to).0, q) == Moved(t, Segments(from), Segments(to), q)
  {
    var f, p := Segments(from), Segments(ParentPath(to));
    ResolvedIsNode(t, f);
    TargetSegments(to);
    var it := MoveItem(t, from, to);
    MoveResolves(t, f, p, it, q);
  }

  /** A move applies exactly when there is something at `from`, `to` is not `/` and its parent is
      there; otherwise it changes nothing. */
  lemma MoveAppliesIff(t: Tree, from: Str, to: Str)
    requires WellFormed(t)
    ensures var (r, ok) := MoveAtPath(t, from, to);
            && (ok <==> ResolvePath(t, from).Some? && Segments(to) != [] && ResolvePath(t, ParentPath(to)).Some?)
            && (!ok ==> r == t)
  {
    hide Segments, ParentPath, LastSegment, Agree, UniqueSiblings, Apply;
    HelpersSplitSegments(to);
    if Segments(to) != [] { TargetSegments(to); }
    if ResolvePath(t, from).Some? { ResolvedIsNode(t, Segments(from)); }
  }

  /** The item a possible move applies. */
  lemma MoveItem(t: Tree, from: Str, to: Str) returns (it: DeltaItem)
    requires ResolvePath(t, from).Some? && ResolvePath(t, from).value in t.nodes
    requires ResolvePath(t, ParentPath(to)).Some? && LastSegment(to) != []
    ensures MoveAtPath(t, from, to) == (Apply(t, it), true)
    ensures ResolvePath(t, from) == Some(it.id) && ResolvePath(t, ParentPath(to)) == it.parentId
    ensures it.name == LastSegment(to) && !it.deleted && !it.isRoot && it.meta == t.nodes[it.id].meta
  {
    var id := ResolvePath(t, from).value;
    it := ItemAt(id, ResolvePath(t, ParentPath(to)).value, to, t.nodes[id].meta);
  }

  lemma TargetSegments(to: Str)
    requires Segments(to) != []
    ensures Segments(to) == Segments(ParentPath(to)) + [LastSegment(to)] && GoodSeg(LastSegment(to))
  {
    HelpersSplitSegments(to);
    SegmentsAreGood(to);
    var segs := Segments(to);
    assert segs == segs[..|segs| - 1] + [segs[|segs| - 1]] && GoodSeg(segs[|segs| - 1]);
  }

  /** The same on segment lists, for any item that names the destination. */
  lemma MoveResolves(t: Tree, f: seq<Str>, p: seq<Str>, it: DeltaItem, q: seq<Str>)
    requires WellFormed(t) && f != [] && Resolve(t, f) == Some(it.id) && it.id != []
    requires Resolve(t, p).Some? && Resolve(t, p) == it.parentId && !it.deleted && !it.isRoot
    requires !(f <= p)
    ensures WellFormed(Apply(t, it))
    ensures Resolve(Apply(t, it), q) == Moved(t, f, p + [it.name], q)
  {
    var to := p + [it.name];
    MovedIsPlain(t, f, it);
    ApplyNonRootKeeps(t, it);
    SubtreePaths(t, f, p);
    AttachGrafts(t, it, p);
    GraftResolves(t, Apply(t, it), it.id, p, it.name, Evicted(t, it), q);
    if to <= q {
      ResolveConcat(t, f, q[|to|..]);
    } else {
      Entering(t, f, q);
      if Resolve(t, q) == None && f <= q { assert Moved(t, f, to, q) == None; }
    }
  }

  /** A destination inside what is moved: the whole subtree becomes unreachable and every
      other path is unchanged, so the move succeeds in placing the node exactly when its
      destination directory lies outside it. */
  lemma MoveInsideResolves(t: Tree, f: seq<Str>, p: seq<Str>, it: DeltaItem, q: seq<Str>)
    requires WellFormed(t) && f != [] && Resolve(t, f) == Some(it.id) && it.id != []
    requires Resolve(t, p).Some? && Resolve(t, p) == it.parentId && !it.deleted && !it.isRoot
    requires f <= p
    ensures Resolve(Apply(t, it), q) == if f <= q then None else Resolve(t, q)
  {
    MovedIsPlain(t, f, it);
    SubtreePaths(t, f, p);
    MoveInsideLoses(t, it);
    LossResolves(t, Apply(t, it), it.id, q);
    Entering(t, f, q);
  }

  /** The move puts the node at its destination exactly when that lies outside it. */
  lemma MoveLandsIffOutside(t: Tree, f: seq<Str>, p: seq<Str>, it: DeltaItem)
    requires WellFormed(t) && f != [] && Resolve(t, f) == Some(it.id) && it.id != []
    requires Resolve(t, p).Some? && Resolve(t, p) == it.parentId && !it.deleted && !it.isRoot
    ensures Resolve(Apply(t, it), p + [it.name]) == Some(it.id) <==> !(f <= p)
  {
    var to := p + [it.name];
    if f <= p {
      MoveInsideResolves(t, f, p, it, to);
      assert f <= to;
    } else {
      MoveResolves(t, f, p, it, to);
      assert f + to[|to|..] == f;
    }
  }

  /** A node a non-empty path leads to can be moved as a plain item. */
  lemma MovedIsPlain(t: Tree, f: seq<Str>, it: DeltaItem)
    requires WellFormed(t) && f != [] && Resolve(t, f) == Some(it.id)
    requires it.parentId.Some? && !it.deleted && !it.isRoot && it.id != []
    ensures Plain(t, it) && OffCycle(t, it.id)
  {
    ResolveLast(t, f, it.id);
    SubtreePaths(t, f, f[..|f| - 1]);
  }

  // ---------------------------------------------------------------- upserts

  /** An id no path leads to and nothing hangs below. */
  ghost predicate Fresh(t: Tree, id: Id) {
    KidSet(t, id) == {} && t.root != Some(id) && forall q :: Resolve(t, q) != Some(id)
  }

  /** Updating a node's metadata changes no path. */
  lemma {:induction false} MetaKeepsPaths(t: Tree, id: Id, meta: ItemMeta, x: Id, q: seq<Str>)
    requires id in t.nodes
    ensures ResolveFrom(t.(nodes := t.nodes[id := t.nodes[id].(meta := meta)]), x, q) == ResolveFrom(t, x, q)
    decreases |q|
  {
    var r := t.(nodes := t.nodes[id := t.nodes[id].(meta := meta)]);
    if q != [] {
      assert Named(r, x, q[0]) == Named(t, x, q[0]);
      if ChildNamed(t, x, q[0]).Some? { MetaKeepsPaths(t, id, meta, ChildNamed(t, x, q[0]).value, q[1..]); }
    }
  }

  lemma MetaKeepsWellFormed(t: Tree, id: Id, meta: ItemMeta)
    requires WellFormed(t) && id in t.nodes
    ensures WellFormed(t.(nodes := t.nodes[id := t.nodes[id].(meta := meta)]))
  {
    var r := t.(nodes := t.nodes[id := t.nodes[id].(meta := meta)]);
    assert forall p :: KidSet(r, p) == KidSet(t, p);
    assert forall c, p, n :: HasPlace(r, c, p, n) <==> HasPlace(t, c, p, n);
  }

  /** An upsert succeeds exactly when the path or its parent directory resolves. It then
      leaves a node with the given metadata at the path, a new one under the id `local:` and the
      path, and no other path changes, as long as that id is fresh when it is needed. */
  lemma UpsertAtPathResolves(t: Tree, path: Str, meta: ItemMeta, q: seq<Str>)
    requires WellFormed(t)
    requires ResolvePath(t, path) == None ==> Fresh(t, LOCAL + path)
    ensures var (r, ok) := UpsertAtPath(t, path, meta);
            && WellFormed(r)
            && (ok <==> ResolvePath(t, path).Some? || (Segments(path) != [] && ResolvePath(t, ParentPath(path)).Some?))
            && (!ok ==> r == t)
            && (ok ==> ResolvePath(r, path).Some? && ResolvePath(r, path).value in r.nodes
                       && r.nodes[ResolvePath(r, path).value].meta == meta)
            && (ok && ResolvePath(t, path) == None ==> ResolvePath(r, path) == Some([108, 111, 99, 97, 108, 58] + path))
            && (q != Segments(path) ==> Resolve(r, q) == Resolve(t, q))
  {
    var segs := Segments(path);
    var here := Resolve(t, segs);
    if here.Some? {
      ResolvedIsNode(t, segs);
      MetaKeepsWellFormed(t, here.value, meta);
      MetaKeepsPaths(t, here.value, meta, t.root.value, segs);
      MetaKeepsPaths(t, here.value, meta, t.root.value, q);
    } else {
      HelpersSplitSegments(path);
      if segs != [] && ResolvePath(t, ParentPath(path)).Some? {
        TargetSegments(path);
        var p := Segments(ParentPath(path));
        var it := ItemAt(LOCAL + path, Resolve(t, p).value, path, meta);
        InsertResolves(t, p, it, q);
        InsertResolves(t, p, it, segs);
      }
    }
  }

  /** Inserting a fresh id adds its path and changes no other. */
  lemma InsertResolves(t: Tree, p: seq<Str>, it: DeltaItem, q: seq<Str>)
    requires WellFormed(t) && Fresh(t, it.id) && it.id != [] && !it.deleted && !it.isRoot
    requires Resolve(t, p).Some? && Resolve(t, p) == it.parentId && Resolve(t, p + [it.name]) == None
    ensures WellFormed(Apply(t, it)) && it.id in Apply(t, it).nodes && Apply(t, it).nodes[it.id].meta == it.meta
    ensures Resolve(Apply(t, it), q) == if q == p + [it.name] then Some(it.id) else Resolve(t, q)
  {
    var to := p + [it.name];
    ApplyNonRootKeeps(t, it);
    assert Closed(t, {it.id});
    assert Down(t, it.id) == {it.id};
    FreshOffCycle(t, it.id);
    AttachGrafts(t, it, p);
    GraftResolves(t, Apply(t, it), it.id, p, it.name, Evicted(t, it), q);
    if to <= q {
      Unreachable(t, to, q);
      if q != to {
        assert Named(t, it.id, q[|to|]) == {};
        assert q[|to|..][0] == q[|to|];
      }
    }
  }

  lemma FreshOffCycle(t: Tree, id: Id)
    requires Agree(t) && KidSet(t, id) == {}
    ensures OffCycle(t, id)
  {
    assert Closed(t, {id});
    if id in t.nodes && t.nodes[id].parent.Some? {
      assert HasPlace(t, id, t.nodes[id].parent.value, t.nodes[id].name);
      assert Entry(t.nodes[id].name, id) in KidSet(t, t.nodes[id].parent.value);
    }
  }

  /** A resolved node inside a subtree is below a path to its top. */
  lemma {:induction false} EntersThroughTop(t: Tree, p: seq<Str>, id: Id)
    requires WellFormed(t) && LeadsInto(t, p, id)
    ensures exists q :: Resolve(t, q) == Some(id)
    decreases |p|
  {
    if Resolve(t, p) != Some(id) {
      if p == [] {
        RootOutside(t, id);
      } else {
        ParentInside(t, id, Resolve(t, p).value);
        ResolveLast(t, p, Resolve(t, p).value);
        EntersThroughTop(t, p[..|p| - 1], id);
      }
    }
  }

  /** An insertion leaves every other path alone exactly when its id is fresh: an id already
      somewhere in the tree moves away, and children waiting for the id appear. */
  lemma InsertAloneIffFresh(t: Tree, p: seq<Str>, it: DeltaItem)
    requires WellFormed(t) && Plain(t, it) && OffCycle(t, it.id)
    requires Resolve(t, p) == it.parentId && Resolve(t, p + [it.name]) == None
    ensures (forall q :: q != p + [it.name] ==> Resolve(Apply(t, it), q) == Resolve(t, q)) <==> Fresh(t, it.id)
  {
    var r, to := Apply(t, it), p + [it.name];
    if Fresh(t, it.id) {
      forall q | q != to ensures Resolve(r, q) == Resolve(t, q) { InsertResolves(t, p, it, q); }
    } else {
      var q := DisturbedPath(t, p, it);
      assert q != to && Resolve(r, q) != Resolve(t, q);
    }
  }

  lemma DisturbedPath(t: Tree, p: seq<Str>, it: DeltaItem) returns (q: seq<Str>)
    requires WellFormed(t) && Plain(t, it) && OffCycle(t, it.id)
    requires Resolve(t, p) == it.parentId && Resolve(t, p + [it.name]) == None && !Fresh(t, it.id)
    ensures q != p + [it.name] && Resolve(Apply(t, it), q) != Resolve(t, q)
  {
    if exists s :: Resolve(t, s) == Some(it.id) {
      q :| Resolve(t, q) == Some(it.id);
      OldPathIsLost(t, p, it, q);
    } else {
      var e :| e in KidSet(t, it.id);
      q := p + [it.name] + [e.name];
      WaitingChildAppears(t, p, it, e);
    }
  }

  lemma OldPathIsLost(t: Tree, p: seq<Str>, it: DeltaItem, q: seq<Str>)
    requires WellFormed(t) && Plain(t, it) && OffCycle(t, it.id)
    requires Resolve(t, p) == it.parentId && Resolve(t, p + [it.name]) == None
    requires Resolve(t, q) == Some(it.id)
    ensures Resolve(Apply(t, it), q) == None && q != p + [it.name]
  {
    if p + [it.name] <= q { Unreachable(t, p + [it.name], q); }
    if it.parentId.value in Down(t, it.id) {
      MoveInsideLoses(t, it);
      LossResolves(t, Apply(t, it), it.id, q);
    } else {
      AttachGrafts(t, it, p);
      GraftResolves(t, Apply(t, it), it.id, p, it.name, Evicted(t, it), q);
    }
  }

  lemma WaitingChildAppears(t: Tree, p: seq<Str>, it: DeltaItem, e: Entry)
    requires WellFormed(t) && Plain(t, it) && OffCycle(t, it.id)
    requires Resolve(t, p) == it.parentId && Resolve(t, p + [it.name]) == None
    requires e in KidSet(t, it.id) && forall s :: Resolve(t, s) != Some(it.id)
    ensures Resolve(Apply(t, it), p + [it.name] + [e.name]) == Some(e.id)
    ensures Resolve(t, p + [it.name] + [e.name]) == None
  {
    var to := p + [it.name];
    var q := to + [e.name];
    if LeadsInto(t, p, it.id) { EntersThroughTop(t, p, it.id); }
    Unreachable(t, to, q);
    AttachGrafts(t, it, p);
    GraftResolves(t, Apply(t, it), it.id, p, it.name, Evicted(t, it), q);
    assert HasPlace(t, e.id, it.id, e.name);
    ChildNamedIs(t, it.id, e.name, e.id);
    assert q[|to|..] == [] + [e.name];
    ResolveFromSnoc(t, it.id, [], e.name);
  }

  // ---------------------------------------------------------------- patches

  function ItemOf(p: Patch): Option<DeltaItem> {
    match p
    case Upsert(item, _, _) => item
    case Move(item, _, _) => item
    case Delete(_) => None
  }

  /** The tree once the item Graph answered, if any, is applied. */
  ghost function WithItem(t: Tree, p: Patch): Tree {
    if ItemOf(p).Some? then Apply(t, ItemOf(p).value) else t
  }

  /** An upsert whose item Graph answered. If the item put anything at the path that was asked for, it
      is all that happens; if not, the edit by path follows on the tree it left. So an upsert that
      applies always leaves something at the path, and no other path changes after the item. */
  lemma ItemThenUpsert(t: Tree, it: DeltaItem, path: Str, meta: ItemMeta, q: seq<Str>)
    requires WellFormed(Apply(t, it)) && (ResolvePath(Apply(t, it), path) == None ==> Fresh(Apply(t, it), LOCAL + path))
    ensures var u := Apply(t, it);
            var (r, ok) := Patched(t, Upsert(Some(it), path, meta));
            && (ok <==> ResolvePath(u, path).Some? || (Segments(path) != [] && ResolvePath(u, ParentPath(path)).Some?))
            && (ok ==> ResolvePath(r, path).Some?)
            && (!ok || ResolvePath(u, path).Some? ==> r == u)
            && (q != Segments(path) ==> Resolve(r, q) == Resolve(u, q))
  {
    hide WellFormed, Fresh, Apply, UpsertAtPath, Resolve, Segments, ParentPath;
    UpsertAtPathResolves(Apply(t, it), path, meta, q);
  }

  /** The same for a move: unless the item put something at `to`, the move by path follows. */
  lemma ItemThenMove(t: Tree, it: DeltaItem, from: Str, to: Str, q: seq<Str>)
    requires WellFormed(Apply(t, it)) && [] !in Apply(t, it).nodes
    ensures var u := Apply(t, it);
            var (r, ok) := Patched(t, Move(Some(it), from, to));
            && (ok <==> ResolvePath(u, to).Some?
                        || (ResolvePath(u, from).Some? && Segments(to) != [] && ResolvePath(u, ParentPath(to)).Some?))
            && (!ok || ResolvePath(u, to).Some? ==> r == u)
            && (ResolvePath(u, to) == None && CanMove(u, from, to) ==> Resolve(r, q) == Moved(u, Segments(from), Segments(to), q))
  {
    hide WellFormed, Apply, MoveAtPath, Resolve, Segments, ParentPath;
    var u := Apply(t, it);
    MoveAppliesIff(u, from, to);
    if CanMove(u, from, to) { MoveAtPathResolves(u, from, to, q); }
  }

  /** The patch deletes `/`, or its item deletes the root. */
  predicate DeletesRoot(t: Tree, p: Patch) {
    || (p.Delete? && Segments(p.path) == [])
    || (ItemOf(p).Some? && ItemOf(p).value.deleted && ItemOf(p).value.id != [] && t.root == Some(ItemOf(p).value.id))
  }

  /** A patch takes the root away exactly when it deletes it. */
  lemma PatchKeepsRoot(t: Tree, p: Patch)
    requires WellFormed(t) && t.root.Some? && (ItemOf(p).Some? ==> !MisusesRoot(t, ItemOf(p).value))
    ensures Patched(t, p).0.root == if DeletesRoot(t, p) then None else t.root
  {
    hide Segments, ParentPath, LastSegment, Agree, UniqueSiblings, SoleRoot, Apply, RemoveAtPath, UpsertAtPath, MoveAtPath;
    var u := WithItem(t, p);
    if ItemOf(p).Some? { ItemKeepsRoot(t, ItemOf(p).value); }
    match p {
      case Upsert(_, path, meta) => UpsertKeepsRoot(u, path, meta);
      case Move(_, from, to) => MoveKeepsRoot(u, from, to);
      case Delete(path) => DeleteKeepsRoot(t, path);
    }
  }

  lemma UpsertKeepsRoot(t: Tree, path: Str, meta: ItemMeta)
    requires WellFormed(t)
    ensures UpsertAtPath(t, path, meta).0.root == t.root
  {
    hide Segments, ParentPath, LastSegment, Apply, WellFormed;
    var parent := ResolvePath(t, ParentPath(path));
    if parent.Some? { PlacingKeepsRoot(t, LOCAL + path, parent.value, path, meta); }
  }

  lemma MoveKeepsRoot(t: Tree, from: Str, to: Str)
    requires WellFormed(t)
    ensures MoveAtPath(t, from, to).0.root == t.root
  {
    hide Segments, ParentPath, LastSegment, Apply, WellFormed;
    var here, parent := ResolvePath(t, from), ResolvePath(t, ParentPath(to));
    if here.Some? && here.value in t.nodes && parent.Some? {
      PlacingKeepsRoot(t, here.value, parent.value, to, t.nodes[here.value].meta);
    }
  }

  lemma ItemKeepsRoot(t: Tree, it: DeltaItem)
    requires WellFormed(t) && t.root.Some? && !MisusesRoot(t, it)
    ensures WellFormed(Apply(t, it))
    ensures Apply(t, it).root == if it.deleted && it.id != [] && t.root == Some(it.id) then None else t.root
  {
    ApplyKeepsWellFormed(t, it);
    if it.id != [] && it.deleted && t.root != Some(it.id) {
      RootOutside(t, it.id);
    } else if it.id != [] && !it.deleted && !it.isRoot && it.parentId.Some? {
      ApplyNonRootKeeps(t, it);
    }
  }

  /** Placing an id below a directory, even the root's own id, keeps the root. */
  lemma PlacingKeepsRoot(t: Tree, id: Id, parent: Id, path: Str, meta: ItemMeta)
    requires WellFormed(t)
    ensures Apply(t, ItemAt(id, parent, path, meta)).root == t.root
  {
    hide LastSegment, Apply;
    var it := ItemAt(id, parent, path, meta);
    if id == [] {
      ApplyNothing(t, it);
    } else if t.root == Some(id) {
      RootStays(t, it);
    } else {
      ApplyNonRootKeeps(t, it);
    }
  }

  lemma ApplyNothing(t: Tree, it: DeltaItem)
    requires it.id == []
    ensures Apply(t, it) == t
  {
  }

  lemma DeleteKeepsRoot(t: Tree, path: Str)
    requires WellFormed(t) && t.root.Some?
    ensures RemoveAtPath(t, path).0.root == if Segments(path) == [] then None else t.root
  {
    var segs := Segments(path);
    if segs != [] && Resolve(t, segs).Some? {
      ResolveLast(t, segs, Resolve(t, segs).value);
      RootNotEvicted(t, Resolve(t, segs).value);
    }
  }

  /** The patch puts no second root in place and moves the root nowhere. */
  ghost predicate RespectsRoot(t: Tree, p: Patch) {
    && (ItemOf(p).Some? ==> !MisusesRoot(t, ItemOf(p).value))
    && (p.Upsert? ==> WithItem(t, p).root != Some(LOCAL + p.path))
    && (p.Move? ==> Segments(p.from) != [])
  }

  /** Such a patch keeps the maps in agreement and the names usable. */
  lemma PatchKeepsWellFormed(t: Tree, p: Patch)
    requires WellFormed(t) && GoodNames(t) && [] !in t.nodes && RespectsRoot(t, p)
    requires ItemOf(p).Some? ==> NamesWell(ItemOf(p).value)
    ensures WellFormed(Patched(t, p).0) && GoodNames(Patched(t, p).0)
  {
    hide Segments, ParentPath, Agree, UniqueSiblings, SoleRoot, GoodNames, Apply, RemoveAtPath, UpsertAtPath, MoveAtPath;
    var u := WithItem(t, p);
    if ItemOf(p).Some? {
      ApplyKeepsWellFormed(t, ItemOf(p).value);
      ApplyKeepsNames(t, ItemOf(p).value);
    }
    match p {
      case Upsert(_, path, meta) => UpsertIsSound(u, path, meta);
      case Move(_, from, to) => MoveIsSound(u, from, to);
      case Delete(path) => DeleteIsSound(t, path);
    }
  }

  lemma PlacedIsSound(t: Tree, id: Id, parent: Id, path: Str, meta: ItemMeta)
    requires WellFormed(t) && GoodNames(t) && [] !in t.nodes && id != [] && t.root != Some(id) && LastSegment(path) != []
    ensures WellFormed(Apply(t, ItemAt(id, parent, path, meta))) && GoodNames(Apply(t, ItemAt(id, parent, path, meta)))
  {
    hide Apply, Agree, UniqueSiblings, SoleRoot, GoodNames;
    HelpersSplitSegments(path);
    TargetSegments(path);
    ApplyNonRootKeeps(t, ItemAt(id, parent, path, meta));
    ApplyKeepsNames(t, ItemAt(id, parent, path, meta));
  }

  lemma UpsertIsSound(t: Tree, path: Str, meta: ItemMeta)
    requires WellFormed(t) && GoodNames(t) && [] !in t.nodes && t.root != Some(LOCAL + path)
    ensures WellFormed(UpsertAtPath(t, path, meta).0) && GoodNames(UpsertAtPath(t, path, meta).0)
  {
    hide Segments, ParentPath, LastSegment, Apply, Agree, UniqueSiblings, SoleRoot;
    var here, parent := ResolvePath(t, path), ResolvePath(t, ParentPath(path));
    if here.Some? && here.value in t.nodes {
      MetaKeepsWellFormed(t, here.value, meta);
    } else if LastSegment(path) != [] && parent.Some? {
      PlacedIsSound(t, LOCAL + path, parent.value, path, meta);
    }
  }

  lemma MoveIsSound(t: Tree, from: Str, to: Str)
    requires WellFormed(t) && GoodNames(t) && [] !in t.nodes && Segments(from) != []
    ensures WellFormed(MoveAtPath(t, from, to).0) && GoodNames(MoveAtPath(t, from, to).0)
  {
    hide Segments, ParentPath, LastSegment, Apply, Agree, UniqueSiblings, GoodNames;
    var here, parent := ResolvePath(t, from), ResolvePath(t, ParentPath(to));
    if here.Some? && here.value in t.nodes && LastSegment(to) != [] && parent.Some? {
      ResolveLast(t, Segments(from), here.value);
      PlacedIsSound(t, here.value, parent.value, to, t.nodes[here.value].meta);
    }
  }

  lemma DeleteIsSound(t: Tree, path: Str)
    requires WellFormed(t) && GoodNames(t)
    ensures WellFormed(RemoveAtPath(t, path).0) && GoodNames(RemoveAtPath(t, path).0)
  {
    hide Segments, Agree, UniqueSiblings, SoleRoot;
    if ResolvePath(t, path).Some? { DeletionKeeps(t, ResolvePath(t, path).value); }
  }

  // ---------------------------------------------------------------- a made-up id used twice

  /** A reachable case of an id that is not fresh. `PUT a`, `MOVE a b` and `PUT a` again, all by
      path: the second `PUT` makes up the id the first one made up, which now sits at `b`, and
      takes it from there; nothing is left at `b`. */
  lemma SecondPutDropsMoved(t: Tree, a: Str, b: Str, m: ItemMeta, n: ItemMeta)
    requires WellFormed(t) && [] !in t.nodes && Fresh(t, LOCAL + a)
    requires var p, q := Segments(ParentPath(a)), Segments(ParentPath(b));
             && Segments(a) != [] && Segments(b) != [] && ResolvePath(t, a) == None
             && Resolve(t, p).Some? && Resolve(t, q).Some? && !(Segments(a) <= Segments(b)) && !(Segments(b) <= Segments(a))
    ensures var t1 := UpsertAtPath(t, a, m).0;
            var t2 := MoveAtPath(t1, a, b).0;
            var t3 := UpsertAtPath(t2, a, n).0;
            && ResolvePath(t1, a) == Some(LOCAL + a)
            && ResolvePath(t2, a) == None && ResolvePath(t2, b) == Some(LOCAL + a) && !Fresh(t2, LOCAL + a)
            && ResolvePath(t3, a) == Some(LOCAL + a) && ResolvePath(t3, b) == None
  {
    hide Segments, ParentPath, LastSegment, WellFormed, Fresh, UpsertAtPath, MoveAtPath, Resolve;
    var sa, sb := Segments(a), Segments(b);
    TargetSegments(a);
    TargetSegments(b);
    var t1 := UpsertAtPath(t, a, m).0;
    var t2 := MoveAtPath(t1, a, b).0;
    forall q ensures WellFormed(t1) && [] !in t1.nodes && Resolve(t1, q) == if q == sa then Some(LOCAL + a) else Resolve(t, q) {
      PutResolves(t, a, m, q);
    }
    PutResolves(t, a, m, sa);
    MoveAtPathResolves(t1, a, b, sa);
    MoveAtPathResolves(t1, a, b, sb);
    MoveAtPathResolves(t1, a, b, Segments(ParentPath(a)));
    assert sa + sb[|sb|..] == sa;
    SecondPutTakes(t2, a, sb, n);
  }

  lemma PutResolves(t: Tree, a: Str, m: ItemMeta, q: seq<Str>)
    requires WellFormed(t) && [] !in t.nodes && Fresh(t, LOCAL + a)
    requires Segments(a) != [] && ResolvePath(t, a) == None && ResolvePath(t, ParentPath(a)).Some?
    ensures var t1 := UpsertAtPath(t, a, m).0;
            WellFormed(t1) && [] !in t1.nodes && Resolve(t1, q) == if q == Segments(a) then Some(LOCAL + a) else Resolve(t, q)
  {
    hide Segments, ParentPath, LastSegment, Agree, UniqueSiblings, SoleRoot, Resolve;
    TargetSegments(a);
    var p := Segments(ParentPath(a));
    var it := ItemAt(LOCAL + a, Resolve(t, p).value, a, m);
    InsertResolves(t, p, it, q);
    PlacedNodes(t, it);
  }

  lemma PlacedNodes(t: Tree, it: DeltaItem)
    requires Plain(t, it) && [] !in t.nodes
    ensures [] !in Apply(t, it).nodes
  {
    ApplyPlainNodes(t, it);
  }

  /** An insertion takes its made-up id from where it is. */
  lemma SecondPutTakes(t: Tree, a: Str, b: seq<Str>, meta: ItemMeta)
    requires WellFormed(t) && ResolvePath(t, a) == None && ResolvePath(t, ParentPath(a)).Some? && Segments(a) != []
    requires b != [] && Resolve(t, b) == Some(LOCAL + a) && !(b <= Segments(a))
    ensures var r := UpsertAtPath(t, a, meta).0;
            ResolvePath(r, a) == Some(LOCAL + a) && Resolve(r, b) == None && !Fresh(t, LOCAL + a)
  {
    hide Segments, ParentPath, LastSegment, Agree, UniqueSiblings, SoleRoot;
    TargetSegments(a);
    var p, sa := Segments(ParentPath(a)), Segments(a);
    var it := ItemAt(LOCAL + a, Resolve(t, p).value, a, meta);
    MoveResolves(t, b, p, it, sa);
    MoveResolves(t, b, p, it, b);
    assert b + sa[|sa|..] == b;
    if sa <= b { Unreachable(t, sa, b); }
  }
}
