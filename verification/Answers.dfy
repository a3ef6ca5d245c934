/** Which lookups an edit of the tree leaves alone. */
module Answers {
  import opened Bytes
  import opened Paths
  import opened Namespace
  import opened Resolution
  import opened Records
  import opened Snapshot
  import opened SnapshotLookup
  import opened Reloading

  // ---------------------------------------------------------------- what an answer depends on

  /** A resolved node has a table row exactly above the walk limit and if it is a directory. */
  lemma RowAt(t: Tree, segs: seq<Str>)
    requires WellFormed(t) && Resolve(t, segs).Some?
    ensures Resolve(t, segs).value in t.nodes
    ensures var id := Resolve(t, segs).value;
            HasRow(t, id) <==> |segs| < WALK_LIMIT && (t.nodes[id].meta.isDir || t.root == Some(id))
  {
    hide Agree, UniqueSiblings, SoleRoot;
    var id := Resolve(t, segs).value;
    ResolvedIsNode(t, segs);
    ResolveIffClimb(t, segs, id, WALK_LIMIT);
    if PathOf(t, id).Some? {
      ResolveIffClimb(t, Climb(t, id, WALK_LIMIT).value, id, WALK_LIMIT);
      ResolveInjective(t, Climb(t, id, WALK_LIMIT).value, segs);
    }
  }

  /** The same answer, the children of a directory aside. */
  predicate SameHit(a: Option<Lookup>, b: Option<Lookup>) {
    match (a, b)
    case (None, None) => true
    case (Some(FileHit(x)), Some(FileHit(y))) => x == y
    case (Some(DirHit(x, _)), Some(DirHit(y, _))) => x == y
    case _ => false
  }

  /** The metadata of the node at `segs` is the same in both trees. */
  ghost predicate SameMetaAt(t: Tree, r: Tree, segs: seq<Str>) {
    Resolve(t, segs).Some? ==>
      var id := Resolve(t, segs).value;
      id in t.nodes && id in r.nodes ==> t.nodes[id].meta == r.nodes[id].meta
  }

  ghost predicate SameKindAt(t: Tree, r: Tree, segs: seq<Str>) {
    Resolve(t, segs).Some? ==>
      var id := Resolve(t, segs).value;
      id in t.nodes && id in r.nodes ==> t.nodes[id].meta.isDir == r.nodes[id].meta.isDir
  }

  /** Whether the parent has a row depends on what it resolves to and its kind. */
  lemma SameParentRow(t: Tree, r: Tree, segs: seq<Str>)
    requires WellFormed(t) && WellFormed(r) && r.root == t.root && segs != []
    requires var init := segs[..|segs| - 1]; Resolve(r, init) == Resolve(t, init) && SameKindAt(t, r, init)
    ensures ParentHasRow(r, segs) <==> ParentHasRow(t, segs)
  {
    hide Agree, UniqueSiblings, SoleRoot, HasRow, Resolve;
    var init := segs[..|segs| - 1];
    if Resolve(t, init).Some? {
      RowAt(t, init);
      RowAt(r, init);
    }
  }

  /** An answer depends on what the path and its parent resolve to, and their metadata. */
  lemma AnswerDepends(t: Tree, r: Tree, path: Str)
    requires WellFormed(t) && WellFormed(r) && t.root == r.root
    requires var segs := Segments(path);
             && Resolve(r, segs) == Resolve(t, segs) && SameMetaAt(t, r, segs)
             && (segs != [] ==> var init := segs[..|segs| - 1];
                                Resolve(r, init) == Resolve(t, init) && SameKindAt(t, r, init))
    ensures SameHit(Answer(t, path), Answer(r, path))
  {
    hide WellFormed, HasRow, ChildList, LastSegment, Normalize, Resolve, Segments, ParentHasRow, SameKindAt;
    var segs := Segments(path);
    if Resolve(t, segs).Some? {
      RowAt(t, segs);
      RowAt(r, segs);
      if segs != [] { SameParentRow(t, r, segs); }
    }
  }

  // ---------------------------------------------------------------- listings

  /** The children of the directory at `segs` that are not at one of the edited paths. */
  function Unedited(cs: seq<ChildInfo>, segs: seq<Str>, edited: set<seq<Str>>): seq<ChildInfo> {
    if cs == [] then []
    else (if segs + [cs[0].name] in edited then [] else [cs[0]]) + Unedited(cs[1..], segs, edited)
  }

  function UneditedEntries(es: seq<Entry>, segs: seq<Str>, edited: set<seq<Str>>): seq<Entry> {
    if es == [] then []
    else (if segs + [es[0].name] in edited then [] else [es[0]]) + UneditedEntries(es[1..], segs, edited)
  }

  /** The same answer, and for a directory the same children at unedited paths. */
  predicate SameListing(a: Option<Lookup>, b: Option<Lookup>, segs: seq<Str>, edited: set<seq<Str>>) {
    && SameHit(a, b)
    && (a.Some? && a.value.DirHit? && b.Some? && b.value.DirHit? ==>
          Unedited(a.value.children, segs, edited) == Unedited(b.value.children, segs, edited))
  }

  lemma {:induction false} UneditedMembers(es: seq<Entry>, segs: seq<Str>, edited: set<seq<Str>>)
    requires Ascending(es)
    ensures Ascending(UneditedEntries(es, segs, edited))
    ensures forall e :: e in UneditedEntries(es, segs, edited) <==> e in es && segs + [e.name] !in edited
  {
    if es != [] {
      UneditedMembers(es[1..], segs, edited);
      assert es == [es[0]] + es[1..];
      var rest := UneditedEntries(es[1..], segs, edited);
      forall j | 0 <= j < |rest| ensures EntryLess(es[0], rest[j]) {
        assert rest[j] in rest;
        assert rest[j] in es[1..];
      }
    }
  }

  lemma {:induction false} UneditedInfos(t: Tree, es: seq<Entry>, segs: seq<Str>, edited: set<seq<Str>>)
    requires forall e :: e in es ==> e.id in t.nodes
    ensures Unedited(Infos(t, es), segs, edited) == Infos(t, UneditedEntries(es, segs, edited))
    decreases |es|
  {
    if es != [] {
      assert es[0] in es && forall e :: e in es[1..] ==> e in es;
      UneditedInfos(t, es[1..], segs, edited);
      var rest := UneditedEntries(es[1..], segs, edited);
      assert Infos(t, es) == [InfoOf(t, es[0])] + Infos(t, es[1..]);
      assert ([es[0]] + rest)[1..] == rest && [] + rest == rest;
      assert [] + Unedited(Infos(t, es[1..]), segs, edited) == Unedited(Infos(t, es[1..]), segs, edited);
    }
  }

  lemma {:induction false} NothingEdited(cs: seq<ChildInfo>, segs: seq<Str>, edited: set<seq<Str>>)
    requires forall c :: c in cs ==> segs + [c.name] !in edited
    ensures Unedited(cs, segs, edited) == cs
  {
    if cs != [] {
      assert cs[0] in cs && forall c :: c in cs[1..] ==> c in cs;
      NothingEdited(cs[1..], segs, edited);
    }
  }

  /** Off the parents of edited paths the same listing means the same answer. */
  lemma SameListingIsSame(a: Option<Lookup>, b: Option<Lookup>, segs: seq<Str>, edited: set<seq<Str>>)
    requires SameListing(a, b, segs, edited) && !ListsEdited(segs, edited)
    ensures a == b
  {
    if a.Some? && a.value.DirHit? {
      forall m: Str ensures segs + [m] !in edited {
        assert (segs + [m])[..|segs + [m]| - 1] == segs;
      }
      NothingEdited(a.value.children, segs, edited);
      NothingEdited(b.value.children, segs, edited);
    }
  }

  /** One of the edited paths is a child of the directory at `segs`. */
  predicate ListsEdited(segs: seq<Str>, edited: set<seq<Str>>) {
    exists e :: e in edited && e != [] && e[..|e| - 1] == segs
  }

  /** Directories with the same children at unedited paths list them alike. */
  lemma ListedAlike(t: Tree, r: Tree, id: Id, segs: seq<Str>, edited: set<seq<Str>>)
    requires Agree(t) && Agree(r)
    requires forall c, n :: segs + [n] !in edited ==> (HasPlace(r, c, id, n) <==> HasPlace(t, c, id, n))
    requires forall c, n :: segs + [n] !in edited && HasPlace(t, c, id, n) && c in r.nodes ==> t.nodes[c].meta == r.nodes[c].meta
    ensures Unedited(ChildList(r, id), segs, edited) == Unedited(ChildList(t, id), segs, edited)
  {
    var es, fs := SortEntries(KidSet(t, id)), SortEntries(KidSet(r, id));
    forall e | e in es ensures HasPlace(t, e.id, id, e.name) {}
    forall e | e in fs ensures HasPlace(r, e.id, id, e.name) {}
    UneditedMembers(es, segs, edited);
    UneditedMembers(fs, segs, edited);
    var a, b := UneditedEntries(es, segs, edited), UneditedEntries(fs, segs, edited);
    forall e ensures e in a <==> e in b {
      assert e == Entry(e.name, e.id);
      if segs + [e.name] !in edited {
        assert HasPlace(r, e.id, id, e.name) <==> HasPlace(t, e.id, id, e.name);
      }
    }
    AscendingUnique(a, b);
    UneditedInfos(t, es, segs, edited);
    UneditedInfos(r, fs, segs, edited);
    InfosSame(t, r, a);
  }

  // ---------------------------------------------------------------- edits

  /** The trees agree on what is at `q`: the node, its metadata, its directory, and the children
      whose paths are not in `off`. */
  ghost predicate SameNode(t: Tree, r: Tree, off: iset<seq<Str>>, q: seq<Str>) {
    && Resolve(r, q) == Resolve(t, q) && SameMetaAt(t, r, q)
    && (q != [] ==> Resolve(r, q[..|q| - 1]) == Resolve(t, q[..|q| - 1]) && SameKindAt(t, r, q[..|q| - 1]))
    && (Resolve(t, q).Some? ==>
          forall c, n :: q + [n] !in off ==>
            (HasPlace(r, c, Resolve(t, q).value, n) <==> HasPlace(t, c, Resolve(t, q).value, n)))
  }

  /** `r` is `t` edited at paths in `off` only. */
  ghost predicate EditedOnly(t: Tree, r: Tree, off: iset<seq<Str>>) {
    && WellFormed(t) && WellFormed(r) && r.root == t.root
    && forall q :: q !in off ==> SameNode(t, r, off, q)
  }

  /** Among the children of `segs` only the edited paths are in `off`. */
  ghost predicate EditsChildren(off: iset<seq<Str>>, segs: seq<Str>, edited: set<seq<Str>>) {
    forall n :: segs + [n] in off ==> segs + [n] in edited
  }

  /** An edit changes no answer elsewhere, but for the records of edited children in listings. */
  lemma EditAnswers(t: Tree, r: Tree, off: iset<seq<Str>>, edited: set<seq<Str>>, path: Str)
    requires EditedOnly(t, r, off) && Segments(path) !in off && EditsChildren(off, Segments(path), edited)
    ensures SameListing(Answer(t, path), Answer(r, path), Segments(path), edited)
  {
    hide Segments, Answer, SameHit, Agree, UniqueSiblings, SoleRoot, HasRow;
    var segs := Segments(path);
    assert SameNode(t, r, off, segs);
    AnswerDepends(t, r, path);
    if Resolve(t, segs).Some? {
      ChildrenEdited(t, r, off, segs, edited);
    }
    DirHitLists(t, path);
    DirHitLists(r, path);
  }

  lemma DirHitLists(t: Tree, path: Str)
    ensures var a := Answer(t, path);
            a.Some? && a.value.DirHit? ==> ResolvePath(t, path).Some? && a.value.children == ChildList(t, ResolvePath(t, path).value)
  {
    hide HasRow, ChildList, LastSegment, Normalize, Segments;
  }

  lemma ChildrenEdited(t: Tree, r: Tree, off: iset<seq<Str>>, segs: seq<Str>, edited: set<seq<Str>>)
    requires EditedOnly(t, r, off) && segs !in off && EditsChildren(off, segs, edited) && Resolve(t, segs).Some?
    ensures var id := Resolve(t, segs).value;
            Unedited(ChildList(r, id), segs, edited) == Unedited(ChildList(t, id), segs, edited)
  {
    hide Agree, UniqueSiblings, SoleRoot, ChildList, Unedited;
    var id := Resolve(t, segs).value;
    assert SameNode(t, r, off, segs);
    forall c, n | segs + [n] !in edited && HasPlace(t, c, id, n) && c in r.nodes
      ensures t.nodes[c].meta == r.nodes[c].meta
    {
      ResolveSnoc(t, segs, n);
      ChildNamedIs(t, id, n, c);
      assert SameNode(t, r, off, segs + [n]);
    }
    ListedAlike(t, r, id, segs, edited);
  }

  /** Trees that answer nothing at a path. */
  lemma NothingAnswers(t: Tree, q: Str)
    requires Resolve(t, Segments(q)) == None
    ensures Answer(t, q) == None
  {
  }
}
