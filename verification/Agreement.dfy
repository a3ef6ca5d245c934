/** Every feed keeps the two maps in agreement, exactly as long as no item misuses the root. */
module Agreement {
  import opened Bytes
  import opened Namespace

  /** `it` neither moves nor renames a node it finds. */
  predicate InPlace(t: Tree, it: DeltaItem) {
    it.parentId.Some? && HasPlace(t, it.id, it.parentId.value, it.name)
  }

  /** `t` with `it.id` taken out of the node map and out of the child set it was in; its own
      child set stays. */
  function Uproot(t: Tree, it: DeltaItem): Tree {
    Detach(t, it).(nodes := t.nodes - {it.id})
  }

  ghost predicate NoEntryFor(t: Tree, id: Id) {
    forall p, e :: e in KidSet(t, p) ==> e.id != id
  }

  lemma DetachKidSets(t: Tree, it: DeltaItem, p: Id)
    ensures KidSet(Detach(t, it), p) <= KidSet(t, p)
    ensures forall e :: e in KidSet(t, p) && e.id != it.id ==> e in KidSet(Detach(t, it), p)
  {
  }

  lemma UprootKeepsAgree(t: Tree, it: DeltaItem)
    requires Agree(t) && !InPlace(t, it) && it.parentId.Some?
    ensures Agree(Uproot(t, it)) && NoEntryFor(Uproot(t, it), it.id)
  {
    var r := Uproot(t, it);
    forall p, e | e in KidSet(r, p) ensures HasPlace(r, e.id, p, e.name) && e.id != it.id {
      DetachKidSets(t, it, p);
      assert e in KidSet(t, p);
      assert HasPlace(t, e.id, p, e.name);
    }
    forall p, n, c | HasPlace(r, c, p, n) ensures Entry(n, c) in KidSet(r, p) {
      assert HasPlace(t, c, p, n);
      DetachKidSets(t, it, p);
    }
  }

  /** An id without an entry is reached only from itself. */
  lemma NotReached(t: Tree, id: Id, from: Id)
    requires NoEntryFor(t, id) && from != id
    ensures id !in Down(t, from)
  {
    var s := Down(t, from) - {id};
    assert Closed(t, s);
    assert Down(t, from) <= s;
  }

  /** `Down` and `Prune` look only at the child sets when the roots agree. */
  lemma DownSameKids(t: Tree, u: Tree, id: Id)
    requires t.kids == u.kids
    ensures Down(t, id) == Down(u, id)
  {
    assert forall p :: KidSet(t, p) == KidSet(u, p);
    assert Closed(u, Down(t, id));
    assert Closed(t, Down(u, id));
  }

  lemma PruneWithout(d: Tree, u: Tree, id: Id, s: set<Id>)
    requires u == d.(nodes := d.nodes - {id}) && id !in s && d.root != Some(id)
    ensures Prune(u, s) == Prune(d, s).(nodes := Prune(d, s).nodes - {id})
  {
    forall p ensures EntriesOf(d, s, p) == EntriesOf(u, s, p) {}
    assert Prune(u, s).kids == Prune(d, s).kids;
    assert Prune(u, s).nodes == Prune(d, s).nodes - {id};
  }

  lemma EvictWithout(d: Tree, u: Tree, it: DeltaItem)
    requires u == d.(nodes := d.nodes - {it.id}) && NoEntryFor(d, it.id) && it.parentId.Some?
    requires d.root != Some(it.id)
    ensures Evict(u, it) == Evict(d, it).(nodes := Evict(d, it).nodes - {it.id})
  {
    var clash := Named(d, it.parentId.value, it.name) - {it.id};
    assert clash == Named(u, it.parentId.value, it.name) - {it.id};
    if clash != {} {
      NotReached(d, it.id, Min(clash));
      DownSameKids(d, u, Min(clash));
      PruneWithout(d, u, it.id, Down(d, Min(clash)));
    }
  }

  /** A move or an insertion may start from the uprooted tree. */
  lemma ApplyViaUproot(t: Tree, it: DeltaItem)
    requires Agree(t) && !InPlace(t, it) && it.parentId.Some? && t.root != Some(it.id)
    ensures Attach(Evict(Detach(t, it), it), it) == Attach(Evict(Uproot(t, it), it), it)
  {
    hide Evict, Agree;
    var d, u := Detach(t, it), Uproot(t, it);
    UprootKeepsAgree(t, it);
    assert forall p :: KidSet(d, p) == KidSet(u, p);
    EvictWithout(d, u, it);
    var n := Node(it.parentId, it.name, it.meta);
    assert Evict(d, it).nodes[it.id := n] == Evict(u, it).nodes[it.id := n];
  }

  lemma AttachKeepsAgree(t: Tree, it: DeltaItem)
    requires Agree(t) && it.parentId.Some? && it.id !in t.nodes
    ensures Agree(Attach(t, it))
  {
    var r := Attach(t, it);
    forall p, e | e in KidSet(r, p) ensures HasPlace(r, e.id, p, e.name) {
      assert e in KidSet(t, p) ==> HasPlace(t, e.id, p, e.name);
    }
    forall p, n, c | HasPlace(r, c, p, n) ensures Entry(n, c) in KidSet(r, p) {
      assert c != it.id ==> HasPlace(t, c, p, n);
    }
  }

  lemma EvictKeeps(t: Tree, it: DeltaItem)
    requires WellFormed(t) && it.parentId.Some? && it.id !in t.nodes
    ensures WellFormed(Evict(t, it)) && it.id !in Evict(t, it).nodes
    ensures forall e :: e in KidSet(Evict(t, it), it.parentId.value) ==> e.name != it.name
    ensures Evict(t, it).root == t.root
  {
    var p := it.parentId.value;
    var clash := Named(t, p, it.name) - {it.id};
    if clash != {} {
      var c := Min(clash);
      var s := Down(t, c);
      PruneKeepsAgree(t, s);
      PruneKeepsUnique(t, s);
      PruneKeepsSoleRoot(t, s);
      var gone := Entry(it.name, c);
      assert gone in KidSet(t, p);
      assert HasPlace(t, c, p, it.name);
      assert gone in EntriesOf(t, s, p);
      forall e | e in KidSet(Evict(t, it), p) ensures e.name != it.name {
        assert e in KidSet(t, p) && e != gone;
      }
      RootNotEvicted(t, c);
    } else {
      forall e | e in KidSet(t, p) ensures e.name != it.name {
        assert HasPlace(t, e.id, p, e.name);
        assert e.name == it.name ==> e.id in clash;
      }
    }
  }

  /** A node with a parent does not reach the root. */
  lemma RootNotEvicted(t: Tree, c: Id)
    requires Agree(t) && SoleRoot(t) && c in t.nodes && t.nodes[c].parent.Some?
    ensures t.root.Some? ==> t.root.value !in Down(t, c)
  {
    if t.root.Some? {
      forall p, e | e in KidSet(t, p) ensures e.id != t.root.value {
        assert HasPlace(t, e.id, p, e.name);
      }
      NotReached(t, t.root.value, c);
    }
  }

  lemma UprootKeeps(t: Tree, it: DeltaItem)
    requires WellFormed(t) && !InPlace(t, it) && it.parentId.Some? && t.root != Some(it.id)
    ensures WellFormed(Uproot(t, it)) && it.id !in Uproot(t, it).nodes && Uproot(t, it).root == t.root
  {
    UprootKeepsAgree(t, it);
    forall p, e | e in KidSet(Uproot(t, it), p) ensures e in KidSet(t, p) { DetachKidSets(t, it, p); }
  }

  lemma AttachKeeps(t: Tree, it: DeltaItem)
    requires WellFormed(t) && it.parentId.Some? && it.id !in t.nodes && t.root != Some(it.id)
    requires forall e :: e in KidSet(t, it.parentId.value) ==> e.name != it.name
    ensures WellFormed(Attach(t, it))
  {
    AttachKeepsAgree(t, it);
    var r, q := Attach(t, it), it.parentId.value;
    forall p, e, f | e in KidSet(r, p) && f in KidSet(r, p) && e.name == f.name ensures e == f {
      assert p != q ==> e in KidSet(t, p) && f in KidSet(t, p);
      assert p == q ==> e == Entry(it.name, it.id) || e in KidSet(t, q);
      assert p == q ==> f == Entry(it.name, it.id) || f in KidSet(t, q);
    }
  }

  /** An item that finds its node in place changes the metadata and nothing else. */
  lemma InPlaceApply(t: Tree, it: DeltaItem)
    requires Agree(t) && UniqueSiblings(t) && InPlace(t, it)
    requires it.id != [] && !it.deleted && !it.isRoot
    ensures Apply(t, it) == t.(nodes := t.nodes[it.id := t.nodes[it.id].(meta := it.meta)])
  {
    var p := it.parentId.value;
    var here := Entry(it.name, it.id);
    assert here in KidSet(t, p);
    assert Named(t, p, it.name) - {it.id} == {} by {
      forall e | e in KidSet(t, p) && e.name == it.name ensures e.id == it.id { assert e == here; }
    }
    assert KidSet(t, p) + {here} == t.kids[p];
    assert t.kids[p := t.kids[p]] == t.kids;
  }

  lemma ApplyNonRootKeeps(t: Tree, it: DeltaItem)
    requires WellFormed(t) && !it.isRoot && !it.deleted && it.id != [] && it.parentId.Some?
    requires t.root != Some(it.id)
    ensures WellFormed(Apply(t, it)) && Apply(t, it).root == t.root
  {
    if InPlace(t, it) {
      InPlaceApply(t, it);
      var r := Apply(t, it);
      assert forall p :: KidSet(r, p) == KidSet(t, p);
      assert forall c, p, n :: HasPlace(r, c, p, n) <==> HasPlace(t, c, p, n);
    } else {
      ApplyViaUproot(t, it);
      var u := Uproot(t, it);
      UprootKeeps(t, it);
      EvictKeeps(u, it);
      AttachKeeps(Evict(u, it), it);
    }
  }

  lemma DeletionKeeps(t: Tree, id: Id)
    requires WellFormed(t)
    ensures WellFormed(Prune(t, Down(t, id)))
  {
    PruneKeepsAgree(t, Down(t, id));
    PruneKeepsUnique(t, Down(t, id));
    PruneKeepsSoleRoot(t, Down(t, id));
  }

  lemma TagRoot(t: Tree, it: DeltaItem)
    requires WellFormed(t) && it.isRoot && !it.deleted && it.id != []
    ensures WellFormed(Apply(t, it)) <==> !MisusesRoot(t, it)
  {
    var r := Apply(t, it);
    assert forall p :: KidSet(r, p) == KidSet(t, p);
    if MisusesRoot(t, it) {
      if it.id in t.nodes && t.nodes[it.id].parent.Some? {
        var n := t.nodes[it.id];
        assert HasPlace(t, it.id, n.parent.value, n.name);
        assert Entry(n.name, it.id) in KidSet(r, n.parent.value);
        assert !HasPlace(r, it.id, n.parent.value, n.name);
      } else {
        assert t.root.value in r.nodes && r.nodes[t.root.value].parent == None;
      }
    } else {
      assert forall c, p, n :: HasPlace(r, c, p, n) <==> HasPlace(t, c, p, n);
    }
  }

  /** One step: whatever the item, the maps stay in agreement, siblings keep distinct names
      and the root stays the one parentless node, exactly when the item does not misuse the
      root. */
  lemma ApplyKeepsWellFormed(t: Tree, it: DeltaItem)
    requires WellFormed(t)
    ensures WellFormed(Apply(t, it)) <==> !MisusesRoot(t, it)
  {
    if it.id == [] {
    } else if it.deleted {
      DeletionKeeps(t, it.id);
    } else if it.isRoot {
      TagRoot(t, it);
    } else if it.parentId.Some? {
      if t.root == Some(it.id) {
        RootStays(t, it);
        assert Apply(t, it).nodes[it.id].parent.Some?;
      } else {
        ApplyNonRootKeeps(t, it);
      }
    }
  }

  lemma RootStays(t: Tree, it: DeltaItem)
    requires WellFormed(t) && !it.isRoot && !it.deleted && it.id != [] && it.parentId.Some?
    requires t.root == Some(it.id)
    ensures Apply(t, it).root == t.root
  {
    assert Detach(t, it) == t;
    var clash := Named(t, it.parentId.value, it.name) - {it.id};
    if clash != {} {
      var c := Min(clash);
      assert Entry(it.name, c) in KidSet(t, it.parentId.value);
      assert HasPlace(t, c, it.parentId.value, it.name);
      RootNotEvicted(t, c);
    }
  }

  // ---------------------------------------------------------------- whole feeds

  /** The feed tags only `r` as root and never gives `r` a parent or another item a root tag. */
  predicate KeepsToRoot(r: Id, it: DeltaItem) {
    it.id != [] && !it.deleted ==> if it.isRoot then it.id == r else it.id == r ==> it.parentId == None
  }

  /** The invariant of a run whose feed keeps to root `r`. */
  ghost predicate RunsUnder(t: Tree, r: Id) {
    WellFormed(t) && (r in t.nodes <==> t.root == Some(r)) && (t.root.Some? ==> t.root == Some(r))
  }

  lemma StepUnderRoot(t: Tree, r: Id, it: DeltaItem)
    requires RunsUnder(t, r) && KeepsToRoot(r, it)
    ensures RunsUnder(Apply(t, it), r)
  {
    ApplyKeepsWellFormed(t, it);
    assert t.root.Some? ==> t.root.value in t.nodes;
    if it.id != [] && !it.deleted && !it.isRoot && it.parentId.Some? {
      ApplyNonRootKeeps(t, it);
      EvictShrinks(t, it);
    }
  }

  lemma EvictShrinks(t: Tree, it: DeltaItem)
    requires it.parentId.Some?
    ensures Evict(Detach(t, it), it).nodes.Keys <= t.nodes.Keys
  {
  }

  /** Over any feed that keeps to one root - out of order, repeated, with deletions, parents
      that never arrive, cycles and name clashes - the maps agree throughout. */
  lemma {:induction false} FeedKeepsAgreement(t: Tree, r: Id, items: seq<DeltaItem>)
    requires RunsUnder(t, r) && forall it :: it in items ==> KeepsToRoot(r, it)
    ensures RunsUnder(ApplyAll(t, items), r)
    decreases |items|
  {
    if items != [] {
      StepUnderRoot(t, r, items[0]);
      FeedKeepsAgreement(Apply(t, items[0]), r, items[1..]);
    }
  }

  lemma EmptyRunsUnder(r: Id)
    ensures RunsUnder(EMPTY_TREE, r)
  {
  }
}
