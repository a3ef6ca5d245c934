/** What a listing shows of a directory, and how many directories and files the metadata count. */
module Listings {
  import opened Bytes
  import opened Namespace
  import opened Resolution
  import opened Records
  import opened Snapshot
  import opened SnapshotLookup
  import opened SnapshotDecode

  /** The children of a directory, each once, in the order of their names, with the name, kind, size,
      time and tag of their nodes; and nothing else. */
  lemma ListingIs(t: Tree, p: Id, c: ChildInfo, i: nat, j: nat)
    requires WellFormed(t)
    ensures var cs := ChildList(t, p);
            && (i < j < |cs| ==> Less(cs[i].name, cs[j].name) && cs[i].id != cs[j].id)
            && (c in cs <==>
                  && c.id in t.nodes && t.nodes[c.id].parent == Some(p) && t.nodes[c.id].name == c.name
                  && t.nodes[c.id].meta == ItemMeta(c.isDir, c.size, c.mtime, c.etag))
  {
    var es := SortEntries(KidSet(t, p));
    forall e | e in es ensures e.id in t.nodes { assert HasPlace(t, e.id, p, e.name); }
    InfosOneByOne(t, es);
    if i < j < |es| {
      assert es[i] in es && es[j] in es;
      assert HasPlace(t, es[i].id, p, es[i].name) && HasPlace(t, es[j].id, p, es[j].name);
      assert EntryLess(es[i], es[j]);
      if es[i].name == es[j].name { LessIrreflexive(es[i].id); }
      LessIrreflexive(es[i].name);
    }
    if c in ChildList(t, p) { ChildIsPlaced(t, p, c); }
    if HasPlace(t, c.id, p, c.name) {
      assert Entry(c.name, c.id) in KidSet(t, p);
      var k :| 0 <= k < |es| && es[k] == Entry(c.name, c.id);
      assert ChildList(t, p)[k] == InfoOf(t, es[k]);
    }
  }

  lemma {:induction false} InfosOneByOne(t: Tree, es: seq<Entry>)
    requires forall e :: e in es ==> e.id in t.nodes
    ensures |Infos(t, es)| == |es| && forall i :: 0 <= i < |es| ==> Infos(t, es)[i] == InfoOf(t, es[i])
  {
    hide InfoOf;
    if es != [] {
      assert es[0] in es && forall e :: e in es[1..] ==> e in es;
      InfosOneByOne(t, es[1..]);
      assert Infos(t, es) == [InfoOf(t, es[0])] + Infos(t, es[1..]);
      forall i | 0 < i < |es| ensures Infos(t, es)[i] == InfoOf(t, es[i]) { assert es[1..][i - 1] == es[i]; }
    }
  }

  // ---------------------------------------------------------------- totals

  predicate IsFile(t: Tree, id: Id) { id in t.nodes && !t.nodes[id].meta.isDir }

  /** The files among what the entries name. */
  function FilesNamed(t: Tree, es: seq<Entry>): set<Id> {
    set e | e in es && IsFile(t, e.id) :: e.id
  }

  lemma FilesNamedCons(t: Tree, es: seq<Entry>)
    requires es != []
    ensures FilesNamed(t, es) == (if IsFile(t, es[0].id) then {es[0].id} else {}) + FilesNamed(t, es[1..])
  {
    assert forall e :: e in es <==> e == es[0] || e in es[1..];
  }

  lemma {:induction false} CountIsOfFiles(t: Tree, es: seq<Entry>)
    requires forall i, j :: 0 <= i < j < |es| ==> es[i].id != es[j].id
    ensures CountFiles(Infos(t, es)) == |FilesNamed(t, es)|
  {
    if es == [] {
      assert FilesNamed(t, es) == {};
    } else {
      CountIsOfFiles(t, es[1..]);
      FilesNamedCons(t, es);
      assert es[0].id !in FilesNamed(t, es[1..]);
      CountOneMore(t, es);
    }
  }

  lemma CountOneMore(t: Tree, es: seq<Entry>)
    requires es != []
    ensures CountFiles(Infos(t, es)) == (if IsFile(t, es[0].id) then 1 else 0) + CountFiles(Infos(t, es[1..]))
  {
    if es[0].id in t.nodes {
      assert ([InfoOf(t, es[0])] + Infos(t, es[1..]))[1..] == Infos(t, es[1..]);
    } else {
      assert [] + Infos(t, es[1..]) == Infos(t, es[1..]);
    }
  }

  /** The files right below one of the directories. */
  ghost function FilesBelow(t: Tree, dirs: seq<Dir>): set<Id> {
    set id | id in t.nodes && IsFile(t, id) && BelowAmong(t, dirs, id)
  }

  lemma {:induction false} TotalIsOfFiles(t: Tree, dirs: seq<Dir>)
    requires Agree(t) && forall i, j :: 0 <= i < j < |dirs| ==> dirs[i].id != dirs[j].id
    ensures TotalFiles(t, dirs) == |FilesBelow(t, dirs)|
  {
    hide Agree, FilesBelow, FilesNamed;
    if dirs == [] {
      NoneBelow(t);
    } else {
      TotalIsOfFiles(t, dirs[1..]);
      CountOfDirectory(t, dirs[0].id);
      FilesBelowCons(t, dirs);
    }
  }

  lemma NoneBelow(t: Tree)
    ensures FilesBelow(t, []) == {}
  {
  }

  lemma FilesBelowCons(t: Tree, dirs: seq<Dir>)
    requires Agree(t) && dirs != [] && forall i, j :: 0 <= i < j < |dirs| ==> dirs[i].id != dirs[j].id
    ensures var here, rest := FilesNamed(t, SortEntries(KidSet(t, dirs[0].id))), FilesBelow(t, dirs[1..]);
            here !! rest && FilesBelow(t, dirs) == here + rest
  {
    hide Agree, FilesNamed, Among;
    var p := dirs[0].id;
    CountOfDirectory(t, p);
    forall id ensures Among(dirs, id) <==> id == p || Among(dirs[1..], id) { AmongCons(dirs, id); }
    assert !Among(dirs[1..], p) by { FirstNotAmong(dirs); }
  }

  lemma AmongCons(dirs: seq<Dir>, id: Id)
    requires dirs != []
    ensures Among(dirs, id) <==> id == dirs[0].id || Among(dirs[1..], id)
  {
    assert forall d :: d in dirs <==> d == dirs[0] || d in dirs[1..];
  }

  lemma FirstNotAmong(dirs: seq<Dir>)
    requires dirs != [] && forall i, j :: 0 <= i < j < |dirs| ==> dirs[i].id != dirs[j].id
    ensures !Among(dirs[1..], dirs[0].id)
  {
  }

  lemma CountOfDirectory(t: Tree, p: Id)
    requires Agree(t)
    ensures var here := FilesNamed(t, SortEntries(KidSet(t, p)));
            && CountFiles(ChildList(t, p)) == |here|
            && forall id :: id in here <==> id in t.nodes && !t.nodes[id].meta.isDir && t.nodes[id].parent == Some(p)
  {
    var es := SortEntries(KidSet(t, p));
    forall e | e in es ensures HasPlace(t, e.id, p, e.name) {}
    forall i, j | 0 <= i < j < |es| ensures es[i].id != es[j].id {
      assert es[i] in es && es[j] in es;
      EntryLessAsymmetric(es[i], es[j]);
    }
    CountIsOfFiles(t, es);
    forall id | id in t.nodes && !t.nodes[id].meta.isDir && t.nodes[id].parent == Some(p) ensures id in FilesNamed(t, es) {
      assert HasPlace(t, id, p, t.nodes[id].name);
      assert Entry(t.nodes[id].name, id) in es;
    }
  }

  /** The totals in the metadata are the number of directories with a row and of files right below
      them, each counted once. */
  lemma TotalsCount(s: State, dirs: seq<Dir>, now: u64)
    requires WellFormed(s.tree) && IsDirList(s.tree, dirs)
    ensures var t, meta := s.tree, MetaOf(s, dirs, now);
            && meta.totalDirs == |set id | id in t.nodes && HasRow(t, id)|
            && meta.totalFiles == |set id | id in t.nodes && !t.nodes[id].meta.isDir && t.nodes[id].parent.Some?
                                            && HasRow(t, t.nodes[id].parent.value)|
  {
    hide HasRow, PathOf, Less, UniqueSiblings, SoleRoot, Agree;
    var t := s.tree;
    TotalIsOfFiles(t, dirs);
    forall id ensures Among(dirs, id) <==> HasRow(t, id) { AmongIffRow(t, dirs, id); }
    assert FilesBelow(t, dirs) == set id | id in t.nodes && !t.nodes[id].meta.isDir && t.nodes[id].parent.Some?
                                           && HasRow(t, t.nodes[id].parent.value);
    DirsAreCounted(dirs);
    forall id | HasRow(t, id) ensures id in t.nodes { HasRowIsNode(t, id); }
    assert DirIds(dirs) == set id | id in t.nodes && HasRow(t, id);
  }

  function DirIds(dirs: seq<Dir>): set<Id> { set d | d in dirs :: d.id }

  lemma {:induction false} DirsAreCounted(dirs: seq<Dir>)
    requires forall i, j :: 0 <= i < j < |dirs| ==> dirs[i].id != dirs[j].id
    ensures |DirIds(dirs)| == |dirs|
  {
    if dirs == [] {
      assert DirIds(dirs) == {};
    } else {
      DirsAreCounted(dirs[1..]);
      assert dirs == [dirs[0]] + dirs[1..];
      assert DirIds(dirs) == {dirs[0].id} + DirIds(dirs[1..]);
      assert dirs[0].id !in DirIds(dirs[1..]);
    }
  }
}
