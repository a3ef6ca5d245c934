/** The index object: two maps updated in place, and the methods the sync and the WebDAV
    handlers call on it. */
module IndexObject {
  import opened Bytes
  import opened Paths
  import opened Namespace
  import opened Resolution
  import opened Sweep
  import opened PathEdits

  /** The ids in `entries` under the name `n`, other than `except`. */
  function Matches(entries: set<Entry>, n: Str, except: Option<Id>): set<Id> {
    set e | e in entries && e.name == n && except != Some(e.id) :: e.id
  }

  ghost predicate IsFirst(first: Option<Id>, ids: set<Id>) {
    if first == None then ids == {} else IsLeast(first.value, ids)
  }

  lemma MatchesStep(seen: set<Entry>, e: Entry, n: Str, except: Option<Id>)
    ensures Matches(seen + {e}, n, except) ==
            Matches(seen, n, except) + if e.name == n && except != Some(e.id) then {e.id} else {}
  {
  }

  /** The first entry of that name in set order, skipping `except`. */
  method FindNamed(entries: set<Entry>, n: Str, except: Option<Id>) returns (first: Option<Id>)
    ensures first == if Matches(entries, n, except) == {} then None else Some(Min(Matches(entries, n, except)))
  {
    first := None;
    var rest := entries;
    while rest != {}
      invariant rest <= entries && IsFirst(first, Matches(entries - rest, n, except))
      decreases |rest|
    {
      var e :| e in rest;
      ghost var seen := entries - rest;
      rest := rest - {e};
      assert entries - rest == seen + {e};
      MatchesStep(seen, e, n, except);
      if e.name == n && except != Some(e.id) {
        if first.Some? { LeastOfMore(first.value, Matches(seen, n, except), e.id); }
        if first == None || Less(e.id, first.value) {
          first := Some(e.id);
        }
      }
    }
    assert entries - rest == entries;
    if first.Some? { MinIs(Matches(entries, n, except), first.value); }
  }

  /** One removal step, before the children: the node, its entry and its child set go. */
  function TakeOut(t: Tree, id: Id): Tree {
    var kids := if id in t.nodes && t.nodes[id].parent.Some? && t.nodes[id].parent.value in t.kids then
                  var p := t.nodes[id].parent.value;
                  t.kids[p := t.kids[p] - {Entry(t.nodes[id].name, id)}]
                else t.kids;
    Tree(t.nodes - {id}, kids - {id}, if id in t.nodes && t.root == Some(id) then None else t.root)
  }

  lemma TakeOutIsPrune(t: Tree, id: Id)
    ensures TakeOut(t, id) == Prune(t, {id})
  {
    var l, r := TakeOut(t, id), Prune(t, {id});
    assert l.kids.Keys == r.kids.Keys;
    forall p | p in l.kids ensures l.kids[p] == r.kids[p] {
      assert EntriesOf(t, {id}, p) ==
             if id in t.nodes && t.nodes[id].parent == Some(p) then {Entry(t.nodes[id].name, id)} else {};
    }
    assert l.kids == r.kids;
  }

  function Reversed(s: seq<Str>): seq<Str> {
    if s == [] then [] else Reversed(s[1..]) + [s[0]]
  }

  lemma {:induction false} ReversedSnoc(s: seq<Str>, n: Str)
    ensures Reversed(s + [n]) == [n] + Reversed(s)
  {
    if s == [] {
    } else {
      assert (s + [n])[1..] == s[1..] + [n];
      ReversedSnoc(s[1..], n);
    }
  }

  class Index {
    var nodes: map<Id, Node>
    var kids: map<Id, set<Entry>>
    var root: Option<Id>
    var deltaToken: Option<Str>
    var pendingNextLink: Option<Str>
    var crawlComplete: bool
    var generation: u64

    function View(): Tree
      reads this
    {
      Tree(nodes, kids, root)
    }

    constructor ()
      ensures View() == EMPTY_TREE && deltaToken == None && pendingNextLink == None
      ensures !crawlComplete && generation == 0
    {
      nodes, kids, root := map[], map[], None;
      deltaToken, pendingNextLink, crawlComplete, generation := None, None, false, 0;
    }

    /** Applies one delta item. */
    method Apply(it: DeltaItem)
      modifies this`nodes, this`kids, this`root
      ensures View() == Namespace.Apply(old(View()), it)
    {
      if it.id == [] {
        return;
      }
      if it.deleted {
        Remove(it.id);
        return;
      }
      if it.isRoot {
        root := Some(it.id);
        nodes := nodes[it.id := Node(None, it.name, it.meta)];
        return;
      }
      if it.parentId == None {
        return;
      }
      var parentId := it.parentId.value;
      if it.id in nodes {
        var was := nodes[it.id];
        var moved := was.parent != Some(parentId) || was.name != it.name;
        if moved && was.parent.Some? && was.parent.value in kids {
          var pid := was.parent.value;
          kids := kids[pid := kids[pid] - {Entry(was.name, it.id)}];
        }
      }
      assert View() == Detach(old(View()), it);
      if parentId in kids {
        var clash := FindNamed(kids[parentId], it.name, Some(it.id));
        assert Matches(kids[parentId], it.name, Some(it.id)) == Named(View(), parentId, it.name) - {it.id};
        if clash.Some? {
          Remove(clash.value);
        }
      } else {
        assert Named(View(), parentId, it.name) - {it.id} == {};
      }
      assert View() == Evict(Detach(old(View()), it), it);
      var entry := Entry(it.name, it.id);
      kids := kids[parentId := (if parentId in kids then kids[parentId] else {}) + {entry}];
      nodes := nodes[it.id := Node(Some(parentId), it.name, it.meta)];
    }

    /** Walks down from the root, one segment at a time. */
    method Resolve(path: Str) returns (id: Option<Id>)
      ensures id == ResolvePath(View(), path)
    {
      if root == None {
        return None;
      }
      var cur := root.value;
      var segs := Segments(path);
      var i := 0;
      while i < |segs|
        invariant 0 <= i <= |segs|
        invariant ResolveFrom(View(), cur, segs[i..]) == ResolvePath(View(), path)
      {
        if cur !in kids {
          return None;
        }
        assert segs[i..][0] == segs[i] && segs[i..][1..] == segs[i + 1..];
        assert Matches(kids[cur], segs[i], None) == Named(View(), cur, segs[i]);
        var child := FindNamed(kids[cur], segs[i], None);
        if child == None {
          return None;
        }
        cur := child.value;
        i := i + 1;
      }
      return Some(cur);
    }

    /** Walks up to a parentless node, collecting names, for at most 64 nodes. */
    method PathOf(id: Id) returns (path: Option<Str>)
      ensures path == Resolution.PathOf(View(), id)
    {
      var segs: seq<Str> := [];
      var cur := id;
      assert Climb(View(), id, WALK_LIMIT).Some? ==>
          Climb(View(), id, WALK_LIMIT).value + Reversed(segs) == Climb(View(), id, WALK_LIMIT).value;
      for i := 0 to WALK_LIMIT
        invariant Climb(View(), id, WALK_LIMIT) ==
                  var up := Climb(View(), cur, WALK_LIMIT - i);
                  if up == None then None else Some(up.value + Reversed(segs))
      {
        if cur !in nodes {
          return None;
        }
        var node := nodes[cur];
        if node.parent == None {
          assert [] + Reversed(segs) == Reversed(segs);
          return Some(Render(Reversed(segs)));
        }
        ghost var up := Climb(View(), node.parent.value, WALK_LIMIT - i - 1);
        ReversedSnoc(segs, node.name);
        assert up.Some? ==> up.value + [node.name] + Reversed(segs) == up.value + Reversed(segs + [node.name]);
        segs := segs + [node.name];
        cur := node.parent.value;
      }
      return None;
    }

    /** Whether the node walks to the recorded root within 64 nodes. */
    method ReachesRoot(id: Id) returns (yes: bool)
      ensures yes == WalksToRoot(View(), id, WALK_LIMIT)
    {
      var cur := id;
      for i := 0 to WALK_LIMIT
        invariant WalksToRoot(View(), id, WALK_LIMIT) == WalksToRoot(View(), cur, WALK_LIMIT - i)
      {
        if root == Some(cur) {
          return true;
        }
        if cur !in nodes || nodes[cur].parent == None {
          return false;
        }
        cur := nodes[cur].parent.value;
      }
      return false;
    }

    /** The nodes that walk to the recorded root. */
    method Reachable() returns (reachable: set<Id>)
      ensures reachable == Survivors(View())
    {
      reachable := {};
      var rest := nodes.Keys;
      while rest != {}
        invariant rest <= nodes.Keys && reachable <= nodes.Keys - rest
        invariant forall id :: id in nodes.Keys - rest ==> (id in reachable <==> WalksToRoot(View(), id, WALK_LIMIT))
        decreases |rest|
      {
        var id :| id in rest;
        rest := rest - {id};
        var yes := ReachesRoot(id);
        if yes { reachable := reachable + {id}; }
      }
    }

    /** Drops the nodes that cannot walk to the recorded root. */
    method SweepOrphans()
      modifies this`nodes, this`kids
      ensures View() == Sweep.SweepOrphans(old(View()))
    {
      if root == None {
        return;
      }
      ghost var t := View();
      var reachable := Reachable();
      DropDead(reachable);
      kids := map p | p in kids && p in reachable :: (set e | e in kids[p] && e.id in reachable);
      SweptMaps(t, View(), reachable);
    }

    method DropDead(reachable: set<Id>)
      requires reachable <= nodes.Keys
      modifies this`nodes, this`kids
      ensures nodes == old(nodes) - (old(nodes.Keys) - reachable)
      ensures kids == old(kids) - (old(nodes.Keys) - reachable)
    {
      var dead := nodes.Keys - reachable;
      ghost var all := dead;
      while dead != {}
        invariant dead <= all
        invariant nodes == old(nodes) - (all - dead) && kids == old(kids) - (all - dead)
        decreases |dead|
      {
        var id :| id in dead;
        ghost var more := all - dead;
        assert all - (dead - {id}) == more + {id};
        dead := dead - {id};
        nodes := nodes - {id};
        kids := kids - {id};
      }
      assert all - dead == all;
    }

    /** Updates the node at `path`, or inserts one under a made-up id. */
    method UpsertAtPath(path: Str, meta: ItemMeta) returns (ok: bool)
      modifies this`nodes, this`kids, this`root
      ensures (View(), ok) == PathEdits.UpsertAtPath(old(View()), path, meta)
    {
      var here := Resolve(path);
      if here.Some? && here.value in nodes {
        nodes := nodes[here.value := nodes[here.value].(meta := meta)];
        return true;
      }
      var name := LastSegment(path);
      if name == [] {
        return false;
      }
      var parent := Resolve(ParentPath(path));
      if parent == None {
        return false;
      }
      Apply(ItemAt(LOCAL + path, parent.value, path, meta));
      return true;
    }

    method RemoveAtPath(path: Str) returns (ok: bool)
      modifies this`nodes, this`kids, this`root
      ensures (View(), ok) == PathEdits.RemoveAtPath(old(View()), path)
    {
      var here := Resolve(path);
      if here == None {
        return false;
      }
      Remove(here.value);
      return true;
    }

    /** Reparents and renames the node at `from` so that it sits at `to`. */
    method MoveAtPath(from: Str, to: Str) returns (ok: bool)
      modifies this`nodes, this`kids, this`root
      ensures (View(), ok) == PathEdits.MoveAtPath(old(View()), from, to)
    {
      var here := Resolve(from);
      if here == None || here.value !in nodes {
        return false;
      }
      var node := nodes[here.value];
      if LastSegment(to) == [] {
        return false;
      }
      var parent := Resolve(ParentPath(to));
      if parent == None {
        return false;
      }
      Apply(ItemAt(here.value, parent.value, to, node.meta));
      return true;
    }

    /** Removes exactly what hangs below `id`, and `id`'s one entry in its parent's set, in any
        state of the maps; the number of child sets bounds the recursion, also on cycles. */
    method Remove(id: Id)
      modifies this`nodes, this`kids, this`root
      ensures View() == Prune(old(View()), Down(old(View()), id))
      decreases kids.Keys
    {
      ghost var t := View();
      if id in nodes {
        var node := nodes[id];
        nodes := nodes - {id};
        if root == Some(id) { root := None; }
        if node.parent.Some? && node.parent.value in kids {
          var pid := node.parent.value;
          kids := kids[pid := kids[pid] - {Entry(node.name, id)}];
        }
      }
      TakeOutIsPrune(t, id);
      if id in kids {
        var children := kids[id];
        kids := kids - {id};
        assert View() == TakeOut(t, id);
        RemoveChildren(t, id, children);
      } else {
        assert kids - {id} == kids;
        assert View() == TakeOut(t, id);
        assert Closed(t, {id});
        assert Down(t, id) == {id};
      }
    }

    /** The loop over the saved children of `id`, in any order. */
    method RemoveChildren(ghost t: Tree, id: Id, children: set<Entry>)
      requires View() == Prune(t, {id}) && id in t.kids
      requires children <= t.kids[id] && forall e :: e in t.kids[id] ==> e in children || e.id == id
      modifies this`nodes, this`kids, this`root
      ensures View() == Prune(t, Down(t, id))
      decreases t.kids.Keys, 0
    {
      var rest := children;
      ghost var gone := {id};
      while rest != {}
        invariant View() == Prune(t, gone) && id in gone && gone <= Down(t, id)
        invariant rest <= children && forall e :: e in children - rest ==> e.id in gone
        invariant forall p, e :: p in gone && p != id && e in KidSet(t, p) ==> e.id in gone
        decreases |rest|
      {
        var e :| e in rest;
        rest := rest - {e};
        ghost var u := View();
        Remove(e.id);
        RemovedChild(t, id, gone, e.id);
        PruneTwice(t, gone, Down(u, e.id));
        gone := gone + Down(u, e.id);
      }
      assert children - rest == children;
      assert Closed(t, gone);
      assert gone == Down(t, id);
    }
  }

  lemma SweptMaps(t: Tree, r: Tree, keep: set<Id>)
    requires t.root.Some? && keep == Survivors(t) && r.root == t.root
    requires r.nodes == t.nodes - (t.nodes.Keys - keep)
    requires r.kids.Keys == (t.kids.Keys - (t.nodes.Keys - keep)) * keep
    requires forall p :: p in r.kids ==> r.kids[p] == set e | e in t.kids[p] && e.id in keep
    ensures r == Sweep.SweepOrphans(t)
  {
    var s := Sweep.SweepOrphans(t);
    assert r.nodes == s.nodes;
    assert r.kids == s.kids;
  }

  /** What a removal takes from the pruned tree stays within what hangs below `id`, and closes
      the set of what is gone. */
  lemma RemovedChild(t: Tree, id: Id, gone: set<Id>, c: Id)
    requires id in gone && gone <= Down(t, id) && c in Down(t, id)
    requires forall p, e :: p in gone && p != id && e in KidSet(t, p) ==> e.id in gone
    ensures var more := Down(Prune(t, gone), c);
            && c in more && more <= Down(t, id)
            && forall p, e :: p in gone + more && p != id && e in KidSet(t, p) ==> e.id in gone + more
  {
    var u := Prune(t, gone);
    var more := Down(u, c);
    forall p, e | p in Down(t, id) && e in KidSet(u, p) ensures e.id in Down(t, id) {
      assert e in KidSet(t, p);
    }
    assert Closed(u, Down(t, id));
    forall p, e | p in gone + more && p != id && e in KidSet(t, p) ensures e.id in gone + more {
      if p !in gone && e !in KidSet(u, p) {
        assert e in EntriesOf(t, gone, p);
      }
    }
  }
}
