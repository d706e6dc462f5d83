/** The searches of main.js over a node table: `scrub_unvisited`,
    `accessible_from` and `build_tree`.  They mark nodes with `visited`,
    give them `children`, and delete the nodes no search reached. */
module Search {

  import opened Wrappers
  import opened Seqs
  import opened Graph

  /** The nodes of `ns` that carry `visited`. */
  ghost function Visited(ns: seq<Node>): set<Node>
    reads (set n | n in ns)`visited
  {
    set n | n in ns && n.visited
  }

  /** The nodes of `ns` without `visited`. */
  ghost function Unvisited(ns: seq<Node>): set<Node>
    reads (set n | n in ns)`visited
  {
    set n | n in ns && !n.visited
  }

  /** `scrub_unvisited(nodes)`: every node loses its `visited` mark, and the
      nodes that did not carry it leave the list and the table.  The list
      keeps the marked nodes, in their order. */
  method ScrubUnvisited(nodes: Nodes)
    requires nodes.Valid()
    modifies nodes, (set n | n in nodes.list)`visited
    ensures nodes.Valid()
    ensures nodes.list == KeepIn(old(nodes.list), old(Visited(nodes.list)))
    ensures forall n :: n in old(nodes.list) ==> !n.visited
  {
    ghost var marked, unmarked := Visited(nodes.list), Unvisited(nodes.list);
    var toRemove := ClearMarks(nodes);
    RemoveNodes(nodes, toRemove, marked, unmarked);
  }

  /** The first loop of `scrub_unvisited`: the unmarked nodes, in list
      order, with every mark deleted. */
  method ClearMarks(nodes: Nodes) returns (toRemove: seq<Node>)
    requires nodes.Valid()
    modifies (set n | n in nodes.list)`visited
    ensures toRemove == KeepIn(nodes.list, old(Unvisited(nodes.list)))
    ensures forall n :: n in nodes.list ==> !n.visited
  {
    ghost var L := nodes.list;
    ghost var unmarked := Unvisited(L);
    toRemove := [];
    for i := 0 to |nodes.list|
      invariant toRemove == KeepIn(L[..i], unmarked)
      invariant forall j :: 0 <= j < i ==> !L[j].visited
      invariant forall j :: i <= j < |L| ==> L[j].visited == old(L[j].visited)
    {
      var n := nodes.list[i];
      UniqueNodeAt(L, i);
      assert n in unmarked <==> !n.visited;
      KeepStep(L, i, unmarked, toRemove, !n.visited);
      if !n.visited {
        toRemove := toRemove + [n];
      }
      n.visited := false;
    }
    assert L[..|L|] == L;
  }

  /** The second loop of `scrub_unvisited`: `list.splice(list.indexOf(n),
      1)` and `delete nodes[n.name]` for each node `n` of `toRemove`, the
      listed nodes outside `marked` in list order. */
  /** One more node of `L` considered for removal. */
  lemma KeepStep<T>(L: seq<T>, i: nat, keep: set<T>, kept: seq<T>, b: bool)
    requires i < |L| && kept == KeepIn(L[..i], keep) && (L[i] in keep <==> b)
    ensures (if b then kept + [L[i]] else kept) == KeepIn(L[..i + 1], keep)
  {
    assert L[..i + 1] == L[..i] + [L[i]];
    KeepInAppend(L[..i], L[i], keep);
  }

  method RemoveNodes(nodes: Nodes, toRemove: seq<Node>, ghost marked: set<Node>, ghost unmarked: set<Node>)
    requires nodes.Valid() && toRemove == KeepIn(nodes.list, unmarked)
    requires forall n :: n in nodes.list ==> (n in marked <==> n !in unmarked)
    modifies nodes
    ensures nodes.Valid() && nodes.list == KeepIn(old(nodes.list), marked)
  {
    ghost var L := nodes.list;
    ghost var kept := set n | n in L;
    KeepInAll(L, kept);
    for t := 0 to |toRemove|
      invariant nodes.Valid() && nodes.list == KeepIn(L, kept)
      invariant KeptSplit(L, kept, marked, toRemove[t..])
    {
      var n := toRemove[t];
      var at := IndexOf(nodes.list, n);
      RemoveStep(L, unmarked, toRemove, t, kept, marked, nodes.list);
      nodes.RemoveAt(at);
      assert nodes.list == KeepIn(L, kept - {n});
      kept := kept - {n};
    }
    KeepInSame(L, kept, marked);
  }

  /** The nodes of `L` still kept are the marked ones and those left to remove. */
  ghost predicate KeptSplit(L: seq<Node>, kept: set<Node>, marked: set<Node>, rest: seq<Node>) {
    forall j :: 0 <= j < |L| ==> (L[j] in kept <==> L[j] in marked || L[j] in rest)
  }

  /** Taking `toRemove[t]` out of the list keeps it unique, indexed and
      equal to the nodes still kept. */
  lemma RemoveStep(L: seq<Node>, unmarked: set<Node>, toRemove: seq<Node>, t: nat, kept: set<Node>, marked: set<Node>, list: seq<Node>)
    requires UniqueNames(L) && toRemove == KeepIn(L, unmarked) && t < |toRemove|
    requires forall n :: n in L ==> (n in marked <==> n !in unmarked)
    requires KeptSplit(L, kept, marked, toRemove[t..])
    requires UniqueNames(list) && list == KeepIn(L, kept)
    ensures 0 <= IndexOf(list, toRemove[t])
    ensures var at := IndexOf(list, toRemove[t]);
      list[..at] + list[at + 1..] == KeepIn(L, kept - {toRemove[t]})
    ensures KeptSplit(L, kept - {toRemove[t]}, marked, toRemove[t + 1..])
  {
    var n := toRemove[t];
    assert n in toRemove[t..];
    SpliceStep(L, kept, list, n);
    Drop(L, unmarked, toRemove, t, kept, marked);
  }

  /** One splice: the kept node `n` leaves the kept list. */
  lemma SpliceStep(L: seq<Node>, kept: set<Node>, list: seq<Node>, n: Node)
    requires UniqueNames(L) && n in L && n in kept && list == KeepIn(L, kept)
    ensures 0 <= IndexOf(list, n)
    ensures list[..IndexOf(list, n)] + list[IndexOf(list, n) + 1..] == KeepIn(L, kept - {n})
  {
    UniqueNodes(L);
    RemoveFirstKeepIn(L, kept, n);
    assert n in list;
    var i := RemoveFirstAt(list, n);
    assert RemoveFirst(list, n) == KeepIn(L, kept - {n});
  }

  /** The removal list shrinks by its head. */
  lemma Drop(L: seq<Node>, unmarked: set<Node>, toRemove: seq<Node>, t: nat, kept: set<Node>, marked: set<Node>)
    requires UniqueNames(L) && toRemove == KeepIn(L, unmarked) && t < |toRemove|
    requires forall n :: n in L ==> (n in marked <==> n !in unmarked)
    requires forall j :: 0 <= j < |L| ==> (L[j] in kept <==> L[j] in marked || L[j] in toRemove[t..])
    ensures forall j :: 0 <= j < |L| ==>
      (L[j] in kept - {toRemove[t]} <==> L[j] in marked || L[j] in toRemove[t + 1..])
  {
    UniqueNodes(L);
    KeepInDistinct(L, unmarked);
    assert toRemove[t..] == [toRemove[t]] + toRemove[t + 1..];
    assert toRemove[t] in toRemove && toRemove[t] !in marked;
    assert toRemove[t] !in toRemove[t + 1..];
  }

  // ---------------------------------------------------------------------
  // Reachability

  /** A walk in a graph of names: each name's successor is in its
      adjacency list. */
  ghost predicate IsPath(adj: map<string, seq<string>>, p: seq<string>) {
    |p| > 0 &&
    (|p| == 1 || (IsPath(adj, p[..|p| - 1]) && p[|p| - 2] in adj && p[|p| - 1] in adj[p[|p| - 2]]))
  }

  /** Some walk leads from `a` to `b`. */
  ghost predicate Reachable(adj: map<string, seq<string>>, a: string, b: string) {
    exists p :: IsPath(adj, p) && p[0] == a && p[|p| - 1] == b
  }

  /** The nodes of `ns` whose names are reachable from `root`. */
  ghost function ReachableIn(ns: seq<Node>, adj: map<string, seq<string>>, root: string): set<Node> {
    set n | n in ns && Reachable(adj, root, n.name)
  }

  lemma ReachRefl(adj: map<string, seq<string>>, a: string)
    ensures Reachable(adj, a, a)
  {
    assert IsPath(adj, [a]);
  }

  /** A successor of a reachable name is reachable. */
  lemma ReachStep(adj: map<string, seq<string>>, a: string, v: string, o: string)
    requires Reachable(adj, a, v) && v in adj && o in adj[v]
    ensures Reachable(adj, a, o)
  {
    var p :| IsPath(adj, p) && p[0] == a && p[|p| - 1] == v;
    var q := p + [o];
    assert q[..|q| - 1] == p && q[|q| - 2] == v;
    assert IsPath(adj, q);
    assert q[0] == a && q[|q| - 1] == o;
  }

  /** A walk from `root` in a set holding the successors of its members
      stays in it. */
  lemma {:induction false} PathStays(adj: map<string, seq<string>>, seen: set<string>, p: seq<string>)
    requires IsPath(adj, p) && p[0] in seen
    requires forall v :: v in seen ==> Done(adj, seen, v)
    ensures p[|p| - 1] in seen
  {
    if |p| > 1 {
      var q := p[..|p| - 1];
      PathStays(adj, seen, q);
      assert p[|p| - 2] == q[|q| - 1];
      assert Done(adj, seen, p[|p| - 2]);
    }
  }

  /** `seen` holds the root and only names reachable from it. */
  ghost predicate Sound(adj: map<string, seq<string>>, root: string, seen: set<string>) {
    seen <= adj.Keys && root in seen && forall v :: v in seen ==> Reachable(adj, root, v)
  }

  /** Adding successors of a seen name keeps `Sound`. */
  lemma SoundGrow(adj: map<string, seq<string>>, root: string, s: set<string>, seen: set<string>, v: string)
    requires Sound(adj, root, s) && v in s && s <= seen <= adj.Keys
    requires forall w :: w in seen ==> w in s || w in adj[v]
    ensures Sound(adj, root, seen)
  {
    forall w | w in seen ensures Reachable(adj, root, w) {
      if w !in s {
        ReachStep(adj, root, v, w);
      }
    }
  }

  /** All successors of `v` are seen. */
  ghost predicate Done(adj: map<string, seq<string>>, seen: set<string>, v: string) {
    v in adj && forall w :: w in adj[v] ==> w in seen
  }

  /** A search that has seen the successors of all it has seen has seen
      exactly the names reachable from the root. */
  lemma Finished(adj: map<string, seq<string>>, root: string, seen: set<string>)
    requires Sound(adj, root, seen)
    requires forall v :: v in seen ==> Done(adj, seen, v)
    ensures forall v :: v in seen <==> v in adj && Reachable(adj, root, v)
  {
    forall v | v in adj && Reachable(adj, root, v) ensures v in seen {
      var p :| IsPath(adj, p) && p[0] == root && p[|p| - 1] == v;
      PathStays(adj, seen, p);
    }
  }

  // ---------------------------------------------------------------------
  // The node table as the searches see it

  /** The neighbours of the nodes `ns` are nodes of `ns`, and the names of
      each node's neighbours are its adjacency list in `g`.  Marks do not
      change this. */
  ghost predicate Spelled(ns: seq<Node>, g: map<string, seq<string>>)
    reads (set n | n in ns)`neighbours
  {
    && (forall n, o {:trigger o in n.neighbours, n in ns} :: n in ns && o in n.neighbours ==> o in ns)
    && (forall n :: n in ns ==> n.name in g && g[n.name] == Names(n.neighbours))
  }

  /** The nodes whose `visited` mark is set are exactly those whose names
      are in `seen`. */
  ghost predicate Marks(ns: seq<Node>, seen: set<string>)
    reads (set n | n in ns)`visited
  {
    forall n :: n in ns ==> (n.visited <==> n.name in seen)
  }

  /** A table standing for `g` is spelled by `g.adj` and unmarked. */
  lemma SpelledOf(nodes: Nodes, g: Graph)
    requires nodes.Represents(g)
    ensures Spelled(nodes.list, g.adj) && Marks(nodes.list, {})
  {
    nodes.RepresentsMeans(g);
  }

  /** `idx` finds each node of `L` under its name. */
  ghost predicate Named(L: seq<Node>, idx: map<string, Node>) {
    forall m :: m in L ==> m.name in idx && idx[m.name] == m
  }

  /** A valid table's index finds each listed node under its name. */
  lemma NamedOf(nodes: Nodes)
    requires nodes.Valid()
    ensures Named(nodes.list, nodes.byName)
  {
    forall m | m in nodes.list ensures m.name in nodes.byName && nodes.byName[m.name] == m {
      var i :| 0 <= i < |nodes.list| && nodes.list[i] == m;
      IndexAt(nodes.list, i);
    }
  }

  /** With unique names, only `o` is named `o.name`. */
  lemma NameOf(ns: seq<Node>, o: Node)
    requires UniqueNames(ns) && o in ns
    ensures forall n :: n in ns && n != o ==> n.name != o.name
  {
    forall n | n in ns && n != o ensures n.name != o.name {
      var i :| 0 <= i < |ns| && ns[i] == n;
      var j :| 0 <= j < |ns| && ns[j] == o;
      IndexAt(ns, i);
      IndexAt(ns, j);
    }
  }

  /** The neighbours of a node of `ns` are nodes of `ns`, named by the
      node's adjacency list. */
  lemma Successors(ns: seq<Node>, g: map<string, seq<string>>, n: Node)
    requires Spelled(ns, g) && n in ns
    ensures n.name in g && |g[n.name]| == |n.neighbours|
    ensures forall k :: 0 <= k < |n.neighbours| ==> n.neighbours[k] in ns && g[n.name][k] == n.neighbours[k].name && g[n.name][k] in g
  {
    forall k | 0 <= k < |n.neighbours| ensures n.neighbours[k] in ns && g[n.name][k] == n.neighbours[k].name && g[n.name][k] in g {
      assert n.neighbours[k] in n.neighbours;
      assert Names(n.neighbours)[k] == n.neighbours[k].name;
    }
  }

  lemma PushAppend<T>(a: seq<T>, b: seq<T>, x: T)
    ensures (a + b) + [x] == a + (b + [x])
  {
  }

  lemma Assoc<T>(a: seq<T>, b: seq<T>, c: seq<T>)
    ensures (a + b) + c == a + (b + c)
  {
  }

  /** The names of the nodes of `ns`. */
  function NameSet(ns: seq<Node>): set<string> {
    if ns == [] then {} else {ns[0].name} + NameSet(ns[1..])
  }

  lemma NameSetOne(o: Node)
    ensures NameSet([o]) == {o.name}
  {
    assert [o][1..] == [];
  }

  /** Every node's name is among the names. */
  lemma {:induction false} NameSetHas(ns: seq<Node>)
    ensures forall k :: 0 <= k < |ns| ==> ns[k].name in NameSet(ns)
  {
    if ns != [] {
      NameSetHas(ns[1..]);
      forall k | 0 < k < |ns| ensures ns[k].name in NameSet(ns) {
        assert ns[1..][k - 1] == ns[k];
      }
    }
  }

  /** The name set is the set of the names in order. */
  lemma NameSetNames(ns: seq<Node>)
    ensures NameSet(ns) == set v | v in Names(ns)
  {
    NameSetWithin(ns, set v | v in Names(ns));
    NameSetHas(ns);
  }

  /** The names lie in any set that holds each node's name. */
  lemma {:induction false} NameSetWithin(ns: seq<Node>, t: set<string>)
    requires forall k :: 0 <= k < |ns| ==> ns[k].name in t
    ensures NameSet(ns) <= t
  {
    if ns != [] {
      forall k | 0 <= k < |ns[1..]| ensures ns[1..][k].name in t {
        assert ns[1..][k] == ns[k + 1];
      }
      NameSetWithin(ns[1..], t);
    }
  }

  lemma NameSetAt(ns: seq<Node>, a: nat)
    requires a < |ns|
    ensures NameSet(ns[a..]) == {ns[a].name} + NameSet(ns[a + 1..])
  {
    assert ns[a..][1..] == ns[a + 1..];
  }

  lemma {:induction false} NameSetAppend(a: seq<Node>, b: seq<Node>)
    ensures NameSet(a + b) == NameSet(a) + NameSet(b)
  {
    if a == [] {
      assert a + b == b;
    } else {
      assert (a + b)[0] == a[0] && (a + b)[1..] == a[1..] + b;
      NameSetAppend(a[1..], b);
      assert NameSet(a + b) == {a[0].name} + NameSet(a[1..] + b);
    }
  }

  /** The nodes a pass over `ns` sees for the first time when `seen`
      names the nodes seen before it: a node whose name is not yet seen,
      and then becomes seen.  Both searches push exactly these. */
  function Fresh(ns: seq<Node>, seen: set<string>): seq<Node> {
    if ns == [] then []
    else if ns[0].name in seen then Fresh(ns[1..], seen)
    else [ns[0]] + Fresh(ns[1..], seen + {ns[0].name})
  }

  /** The first-seen nodes are nodes of `ns` with unseen, pairwise
      different names, and after the pass every name of `ns` is seen. */
  lemma {:induction false} FreshFacts(ns: seq<Node>, seen: set<string>)
    ensures forall k :: 0 <= k < |Fresh(ns, seen)| ==> Fresh(ns, seen)[k] in ns && Fresh(ns, seen)[k].name !in seen
    ensures forall i, j :: 0 <= i < j < |Fresh(ns, seen)| ==> Fresh(ns, seen)[i].name != Fresh(ns, seen)[j].name
    ensures NameSet(ns) <= seen + NameSet(Fresh(ns, seen))
  {
    if ns != [] {
      var o, rest := ns[0], ns[1..];
      if o.name in seen {
        FreshFacts(rest, seen);
        assert forall k :: 0 <= k < |rest| ==> rest[k] in ns by {
          forall k | 0 <= k < |rest| ensures rest[k] in ns { assert rest[k] == ns[k + 1]; }
        }
      } else {
        var s := seen + {o.name};
        FreshFacts(rest, s);
        var r := Fresh(rest, s);
        assert Fresh(ns, seen) == [o] + r;
        forall k | 0 <= k < |[o] + r| ensures ([o] + r)[k] in ns && ([o] + r)[k].name !in seen {
          if k > 0 {
            assert ([o] + r)[k] == r[k - 1];
            var i :| 0 <= i < |rest| && rest[i] == r[k - 1];
            assert rest[i] == ns[i + 1];
          }
        }
        forall i, j | 0 <= i < j < |[o] + r| ensures ([o] + r)[i].name != ([o] + r)[j].name {
          assert ([o] + r)[j] == r[j - 1];
          if i > 0 {
            assert ([o] + r)[i] == r[i - 1];
          }
        }
        NameSetAppend([o], r);
      }
      assert ns == [o] + rest;
      NameSetAppend([o], rest);
    }
  }

  /** One step of the pass: the first node is either already seen or seen
      for the first time. */
  lemma FreshAt(ns: seq<Node>, b: nat, seen: set<string>)
    requires b < |ns|
    ensures Fresh(ns[b..], seen) ==
      if ns[b].name in seen then Fresh(ns[b + 1..], seen) else [ns[b]] + Fresh(ns[b + 1..], seen + {ns[b].name})
  {
    assert ns[b..][0] == ns[b] && ns[b..][1..] == ns[b + 1..];
  }

  // ---------------------------------------------------------------------
  // accessible_from

  /** `accessible_from(nodes, root_node)` on a table standing for `g`:
      breadth-first from the root, marking each node as it is first seen,
      then `scrub_unvisited`.  The list keeps, in order, exactly the nodes
      whose names are reachable from the root's in `g`, and no node keeps a
      mark. */
  method AccessibleFrom(nodes: Nodes, root: Node, ghost g: Graph)
    requires nodes.Represents(g) && root in nodes.list
    modifies nodes, (set n | n in nodes.list)`visited
    ensures nodes.Valid()
    ensures nodes.list == KeepIn(old(nodes.list), ReachableIn(old(nodes.list), g.adj, root.name))
    ensures forall n :: n in old(nodes.list) ==> !n.visited
  {
    ghost var L := nodes.list;
    SpelledOf(nodes, g);
    NamedOf(nodes);
    ghost var seen := MarkReachable(L, nodes.byName, root, g.adj);
    assert Visited(L) == ReachableIn(L, g.adj, root.name);
    ScrubUnvisited(nodes);
  }

  /** The search of `accessible_from` before the scrub: breadth-first from
      `root`, level by level, marking each node as it is first seen.  The
      marked nodes are those whose names are reachable from the root's. */
  method MarkReachable(ghost L: seq<Node>, ghost idx: map<string, Node>, root: Node, ghost g: map<string, seq<string>>)
    returns (ghost seen: set<string>)
    requires Named(L, idx) && Spelled(L, g) && Marks(L, {}) && root in L
    modifies (set n | n in L)`visited
    ensures Marks(L, seen)
    ensures forall v :: v in seen <==> v in g && Reachable(g, root.name, v)
  {
    Mark(L, idx, root, {});
    seen := {root.name};
    ReachRefl(g, root.name);
    var next := [root];
    while next != []
      invariant Marks(L, seen) && Sound(g, root.name, seen)
      invariant forall k :: 0 <= k < |next| ==> next[k] in L && next[k].name in seen
      invariant AllDone(g, seen, NameSet(next))
      decreases g.Keys - seen, |next|
    {
      ghost var before := seen;
      var cur := next;
      next, seen := VisitLevel(L, idx, cur, g, root.name, seen);
      if next != [] {
        assert g.Keys - seen < g.Keys - before by {
          assert next[0].name in g.Keys - before;
        }
      } else {
        assert seen == before;
      }
    }
    Finished(g, root.name, seen);
  }

  /** One level of the search: `cur.forEach(n => n.neighbours.forEach(...))`.
      `next` gets the nodes first seen here, and every node of `cur` is
      done.  `L` is the node list and `idx` the table's name index. */
  method VisitLevel(ghost L: seq<Node>, ghost idx: map<string, Node>, cur: seq<Node>, ghost g: map<string, seq<string>>, ghost root: string, ghost seen0: set<string>)
    returns (next: seq<Node>, ghost seen: set<string>)
    requires Named(L, idx) && Spelled(L, g)
    requires Marks(L, seen0) && Sound(g, root, seen0)
    requires forall k :: 0 <= k < |cur| ==> cur[k] in L && cur[k].name in seen0
    requires AllDone(g, seen0, NameSet(cur))
    modifies (set n | n in L)`visited
    ensures Marks(L, seen) && Sound(g, root, seen) && seen0 <= seen
    ensures Waiting(L, next, seen, seen0)
    ensures AllDone(g, seen, NameSet(next))
    ensures next == [] ==> seen == seen0
  {
    next := [];
    seen := seen0;
    assert cur[0..] == cur && NameSet(next) == {};
    for a := 0 to |cur|
      invariant Marks(L, seen) && Sound(g, root, seen) && seen0 <= seen
      invariant Waiting(L, next, seen, seen0)
      invariant AllDone(g, seen, NameSet(next) + NameSet(cur[a..]))
      invariant next == [] ==> seen == seen0
    {
      ghost var s, before := seen, next;
      var n := cur[a];
      ghost var added;
      next, seen, added := VisitNode(L, idx, n, next, g, root, seen);
      LevelStep(g, s, seen, before, added, cur, a);
      WaitingStep(L, before, added, s, seen, seen0);
    }
  }

  /** The nodes of `next` are listed, seen, and were not seen before the
      level began. */
  ghost predicate Waiting(L: seq<Node>, next: seq<Node>, seen: set<string>, seen0: set<string>) {
    forall k :: 0 <= k < |next| ==> next[k] in L && next[k].name in seen && next[k].name !in seen0
  }

  /** A visit keeps the waiting nodes waiting and adds the nodes it saw
      first; a visit that adds nothing to an empty `next` sees nothing
      new. */
  lemma WaitingStep(L: seq<Node>, before: seq<Node>, added: seq<Node>, s: set<string>, seen: set<string>, seen0: set<string>)
    requires Waiting(L, before, s, seen0) && s <= seen
    requires seen0 <= s && forall k :: 0 <= k < |added| ==> added[k] in L && added[k].name in seen && added[k].name !in s
    requires seen <= s + NameSet(added)
    ensures Waiting(L, before + added, seen, seen0)
    ensures before + added == [] && (before == [] ==> s == seen0) ==> seen == seen0
  {
    if added == [] {
      assert NameSet(added) == {};
    }
  }

  /** Every seen name outside `waiting` has all its successors seen. */
  ghost predicate AllDone(g: map<string, seq<string>>, seen: set<string>, waiting: set<string>) {
    forall v :: v in seen && v !in waiting ==> Done(g, seen, v)
  }

  /** After visiting `cur[a]`, the seen names not waiting in `next` or in
      the rest of `cur` are done. */
  lemma LevelStep(g: map<string, seq<string>>, s: set<string>, seen: set<string>, before: seq<Node>, added: seq<Node>, cur: seq<Node>, a: nat)
    requires a < |cur| && s <= seen <= s + NameSet(added) && Done(g, seen, cur[a].name)
    requires AllDone(g, s, NameSet(before) + NameSet(cur[a..]))
    ensures AllDone(g, seen, NameSet(before + added) + NameSet(cur[a + 1..]))
  {
    NameSetAt(cur, a);
    NameSetAppend(before, added);
    forall v | v in seen && v !in NameSet(before + added) && v !in NameSet(cur[a + 1..]) ensures Done(g, seen, v) {
      if v != cur[a].name {
        assert v in s && v !in NameSet(before);
        assert Done(g, s, v);
      }
    }
  }

  /** The search at one seen node `n`: its successors become seen, and
      `next` gains the nodes first seen here. */
  method VisitNode(ghost L: seq<Node>, ghost idx: map<string, Node>, n: Node, next0: seq<Node>, ghost g: map<string, seq<string>>, ghost root: string, ghost seen0: set<string>)
    returns (next: seq<Node>, ghost seen: set<string>, ghost added: seq<Node>)
    requires Named(L, idx) && Spelled(L, g) && n in L
    requires Marks(L, seen0) && Sound(g, root, seen0) && n.name in seen0
    modifies (set n | n in L)`visited
    ensures Marks(L, seen) && Sound(g, root, seen) && seen0 <= seen
    ensures Done(g, seen, n.name) && next == next0 + added
    ensures forall k :: 0 <= k < |added| ==> added[k] in L && added[k].name in seen && added[k].name !in seen0
    ensures seen <= seen0 + NameSet(added)
  {
    Successors(L, g, n);
    next, seen, added := VisitNeighbours(L, idx, n.neighbours, g[n.name], next0, g, seen0);
    SoundGrow(g, root, seen0, seen, n.name);
  }

  /** `n.neighbours.forEach(o => { if (!o.visited) next.push(o);
      o.visited = true; })`: afterwards all of `n`'s successors are seen,
      the names seen here are successors of `n`, and `next` gained the
      nodes first seen here. */
  method VisitNeighbours(ghost L: seq<Node>, ghost idx: map<string, Node>, ns: seq<Node>, ghost succ: seq<string>, next0: seq<Node>, ghost g: map<string, seq<string>>, ghost seen0: set<string>)
    returns (next: seq<Node>, ghost seen: set<string>, ghost added: seq<Node>)
    requires Named(L, idx) && |succ| == |ns|
    requires forall k :: 0 <= k < |ns| ==> ns[k] in L && succ[k] == ns[k].name && succ[k] in g
    requires Marks(L, seen0) && seen0 <= g.Keys
    modifies (set n | n in L)`visited
    ensures Marks(L, seen) && seen0 <= seen <= g.Keys
    ensures (forall w :: w in succ ==> w in seen) && next == next0 + added
    ensures forall k :: 0 <= k < |added| ==> added[k] in L && added[k].name in seen && added[k].name !in seen0
    ensures seen <= seen0 + NameSet(added)
    ensures forall v :: v in seen ==> v in seen0 || v in succ
  {
    next, seen, added := next0, seen0, [];
    for b := 0 to |ns|
      invariant Marks(L, seen) && seen0 <= seen <= g.Keys
      invariant next == next0 + added
      invariant forall k :: 0 <= k < |added| ==> added[k] in L && added[k].name in seen && added[k].name !in seen0
      invariant seen <= seen0 + NameSet(added)
      invariant forall v :: v in seen ==> v in seen0 || v in succ
      invariant forall k :: 0 <= k < b ==> succ[k] in seen
    {
      var o := ns[b];
      if !o.visited {
        PushAppend(next0, added, o);
        NameSetAppend(added, [o]);
        next, added := next + [o], added + [o];
      }
      Mark(L, idx, o, seen);
      seen := seen + {o.name};
    }
  }

  /** `o.visited = true` marks exactly the nodes named `o.name`. */
  method Mark(ghost L: seq<Node>, ghost idx: map<string, Node>, o: Node, ghost seen: set<string>)
    requires Named(L, idx) && o in L && Marks(L, seen)
    modifies o`visited
    ensures o.visited && Marks(L, seen + {o.name})
  {
    o.visited := true;
  }
}
