/** `build_tree` of main.js: a breadth-first search from the root subject
    that records, for each node, the neighbours it discovered first
    (`children`), then drops the nodes it did not reach and replaces every
    node's neighbours by its children.  The result is a spanning tree of
    the subjects reachable from the root.

    The search is specified on names first (`Visit`, `Round`), where the
    tree and reachability facts are proved; the methods on nodes are then
    proved to follow that specification. */
module Tree {

  import opened Wrappers
  import opened Seqs
  import opened Graph
  import opened Search

  // ---------------------------------------------------------------------
  // Trees over names

  /** The children recorded under `m`, none when nothing is recorded. */
  function Kid(K: map<string, seq<string>>, m: string): seq<string> {
    if m in K then K[m] else []
  }

  /** The successors of `n` in `g`, none when `n` is not a vertex. */
  function Succ(g: map<string, seq<string>>, n: string): seq<string> {
    if n in g then g[n] else []
  }

  /** Every successor of a vertex is a vertex. */
  ghost predicate EdgesClosed(g: map<string, seq<string>>) {
    forall u, v :: u in g && v in g[u] ==> v in g
  }

  /** `K` and `parent` form a tree rooted at `root` over the names `seen`:
      only seen names have children; every child recorded in `K` has its
      recorder as parent, over an edge of `g`; every seen name but the
      root has a parent, under which it is recorded once; the root has
      none. */
  ghost predicate Spans(K: map<string, seq<string>>, g: map<string, seq<string>>, parent: map<string, string>, seen: set<string>, root: string) {
    && root in seen && root !in parent
    && (forall m :: m in K ==> m in seen && Distinct(K[m]))
    && (forall v :: v in seen ==> v == root || v in parent)
    && (forall v :: v in parent ==> v in seen && parent[v] in K && v in K[parent[v]])
    && (forall m, c {:trigger c in K[m]} :: m in K && c in K[m] ==> c in parent && parent[c] == m && m in g && c in g[m])
  }

  /** Giving the seen name `n` an entry, empty if it had none, keeps the
      tree. */
  lemma SpansEntry(K: map<string, seq<string>>, g: map<string, seq<string>>, parent: map<string, string>, seen: set<string>, root: string, n: string)
    requires Spans(K, g, parent, seen, root) && n in seen
    ensures Spans(K[n := Kid(K, n)], g, parent, seen, root)
  {
    if n in K {
      UpdateSame(K, n);
    } else {
      SpansEmpty(K, K[n := []], g, parent, seen, root, n);
    }
  }

  /** Giving the seen name `n`, which has no entry, an empty one keeps the
      tree. */
  lemma SpansEmpty(K: map<string, seq<string>>, K': map<string, seq<string>>, g: map<string, seq<string>>, parent: map<string, string>, seen: set<string>, root: string, n: string)
    requires Spans(K, g, parent, seen, root) && n in seen && n !in K
    requires K' == K[n := []]
    ensures Spans(K', g, parent, seen, root)
  {
    forall m, c | m in K' && c in K'[m] ensures c in K[m] {
    }
  }

  /** Recording the unseen successor `o` as the last child of the seen
      name `n` keeps the tree, with `n` as `o`'s parent. */
  lemma AdoptStep(K: map<string, seq<string>>, g: map<string, seq<string>>, n: string, o: string, seen: set<string>, parent: map<string, string>, root: string)
    requires n in K && n in seen && o !in seen && n in g && o in g[n]
    requires Spans(K, g, parent, seen, root)
    ensures Spans(K[n := K[n] + [o]], g, parent[o := n], seen + {o}, root)
  {
    assert o !in K[n];
    DistinctSnoc(K[n], o);
    Adopt(K, K[n := K[n] + [o]], g, n, o, seen, seen + {o}, parent, parent[o := n], root);
  }

  /** `AdoptStep` on the new tree given by name. */
  lemma Adopt(K: map<string, seq<string>>, K': map<string, seq<string>>, g: map<string, seq<string>>, n: string, o: string, seen: set<string>, seen': set<string>, parent: map<string, string>, parent': map<string, string>, root: string)
    requires n in K && n in seen && o !in seen && n in g && o in g[n]
    requires Spans(K, g, parent, seen, root) && Distinct(K[n] + [o])
    requires K' == K[n := K[n] + [o]] && parent' == parent[o := n] && seen' == seen + {o}
    ensures Spans(K', g, parent', seen', root)
  {
    forall m, c | m in K' && c in K'[m] ensures c in parent' && parent'[c] == m && m in g && c in g[m] {
      if m != n || c != o {
        assert c in K[m];
      }
    }
    forall v | v in parent' ensures v in seen' && parent'[v] in K' && v in K'[parent'[v]] {
      if v != o {
        assert v in K[parent[v]];
      }
    }
  }

  /** `parent` with `p` recorded as the parent of each of `added`. */
  function Adopted(parent: map<string, string>, added: seq<string>, p: string): map<string, string>
    decreases |added|
  {
    if added == [] then parent else Adopted(parent[added[0] := p], added[1..], p)
  }

  /** Recording unseen, pairwise different successors of `n` as its last
      children keeps the tree. */
  lemma {:induction false} AdoptAll(K: map<string, seq<string>>, g: map<string, seq<string>>, n: string, added: seq<string>, seen: set<string>, parent: map<string, string>, root: string)
    requires n in K && n in seen && n in g
    requires forall k :: 0 <= k < |added| ==> added[k] !in seen && added[k] in g[n]
    requires Distinct(added)
    requires Spans(K, g, parent, seen, root)
    ensures Spans(K[n := K[n] + added], g, Adopted(parent, added, n), seen + Elems(added), root)
    decreases |added|
  {
    if added == [] {
      assert K[n] + added == K[n];
      assert K[n := K[n] + added] == K;
      assert seen + Elems(added) == seen;
    } else {
      var o := added[0];
      AdoptStep(K, g, n, o, seen, parent, root);
      AdoptRest(g, n, added, seen);
      AdoptAll(K[n := K[n] + [o]], g, n, added[1..], seen + {o}, parent[o := n], root);
      AdoptJoin(K, n, added, seen);
    }
  }

  /** The successors after the first one meet `AdoptAll`'s demands once the
      first is seen. */
  lemma AdoptRest(g: map<string, seq<string>>, n: string, added: seq<string>, seen: set<string>)
    requires added != [] && n in g
    requires forall k :: 0 <= k < |added| ==> added[k] !in seen && added[k] in g[n]
    requires Distinct(added)
    ensures forall k :: 0 <= k < |added[1..]| ==> added[1..][k] !in seen + {added[0]} && added[1..][k] in g[n]
    ensures Distinct(added[1..])
  {
    var rest := added[1..];
    forall k | 0 <= k < |rest| ensures rest[k] !in seen + {added[0]} && rest[k] in g[n] {
      assert rest[k] == added[k + 1];
    }
    forall i, j | 0 <= i < j < |rest| ensures rest[i] != rest[j] {
      assert rest[i] == added[i + 1] && rest[j] == added[j + 1];
    }
  }

  /** Adopting the first successor and then the rest is adopting all. */
  lemma AdoptJoin(K: map<string, seq<string>>, n: string, added: seq<string>, seen: set<string>)
    requires added != [] && n in K
    ensures K[n := K[n] + [added[0]]][n := (K[n] + [added[0]]) + added[1..]] == K[n := K[n] + added]
    ensures (seen + {added[0]}) + Elems(added[1..]) == seen + Elems(added)
  {
    assert added == [added[0]] + added[1..];
    assert (K[n] + [added[0]]) + added[1..] == K[n] + added;
    UpdateTwice(K, n, K[n] + [added[0]], K[n] + added);
  }

  // ---------------------------------------------------------------------
  // The search of build_tree on names

  /** The names of `ws` a pass sees for the first time, when `seen` holds
      the names seen before it. */
  function FreshNames(ws: seq<string>, seen: set<string>): seq<string> {
    if ws == [] then []
    else if ws[0] in seen then FreshNames(ws[1..], seen)
    else [ws[0]] + FreshNames(ws[1..], seen + {ws[0]})
  }

  /** The first-seen names are unseen names of `ws`, each once, and after
      the pass every name of `ws` is seen. */
  lemma {:induction false} FreshNamesFacts(ws: seq<string>, seen: set<string>)
    ensures forall k :: 0 <= k < |FreshNames(ws, seen)| ==> FreshNames(ws, seen)[k] in ws && FreshNames(ws, seen)[k] !in seen
    ensures Distinct(FreshNames(ws, seen))
    ensures forall v :: v in ws ==> v in seen || v in FreshNames(ws, seen)
  {
    if ws != [] {
      var w, rest := ws[0], ws[1..];
      if w in seen {
        FreshNamesFacts(rest, seen);
      } else {
        var r := FreshNames(rest, seen + {w});
        FreshNamesFacts(rest, seen + {w});
        assert FreshNames(ws, seen) == [w] + r;
        forall i, j | 0 <= i < j < |[w] + r| ensures ([w] + r)[i] != ([w] + r)[j] {
          assert ([w] + r)[j] == r[j - 1];
          if i > 0 {
            assert ([w] + r)[i] == r[i - 1];
          }
        }
        forall k | 0 <= k < |[w] + r| ensures ([w] + r)[k] in ws && ([w] + r)[k] !in seen {
          if k > 0 {
            assert ([w] + r)[k] == r[k - 1];
          }
        }
      }
      assert ws == [w] + rest;
    }
  }

  /** Where the search stands: the names seen, the parent of each seen name
      but the root, the children recorded so far, and the names waiting to
      be visited. */
  datatype Walk = Walk(seen: set<string>, parent: map<string, string>, kids: map<string, seq<string>>, next: seq<string>)

  /** The search before its first round: only the root is seen, and it
      waits. */
  function Start(root: string): Walk {
    Walk({root}, map[], map[], [root])
  }

  /** The search visits `n`: each successor not yet seen becomes seen, a
      child of `n`, and waits for the next round. */
  function Visit(g: map<string, seq<string>>, w: Walk, n: string): Walk {
    var add := FreshNames(Succ(g, n), w.seen);
    Walk(w.seen + Elems(add), Adopted(w.parent, add, n), w.kids[n := Kid(w.kids, n) + add], w.next + add)
  }

  /** `Adopted` records `p` for the names of `added` and leaves every
      other entry as it was. */
  lemma {:induction false} AdoptedAt(parent: map<string, string>, added: seq<string>, p: string, v: string)
    ensures v in added ==> v in Adopted(parent, added, p) && Adopted(parent, added, p)[v] == p
    ensures v !in added ==> (v in Adopted(parent, added, p) <==> v in parent)
    ensures v !in added && v in parent ==> Adopted(parent, added, p)[v] == parent[v]
    decreases |added|
  {
    if added != [] {
      AdoptedAt(parent[added[0] := p], added[1..], p, v);
      assert added == [added[0]] + added[1..];
    }
  }

  /** Visiting `n` gives a parent only to the successors of `n` not seen
      before, and that parent is `n`; a name already seen keeps its parent
      or its lack of one.  So each name's parent is the name whose visit
      first saw it. */
  lemma FirstDiscoverer(g: map<string, seq<string>>, w: Walk, n: string, v: string)
    requires forall u :: u in w.parent ==> u in w.seen
    ensures var w' := Visit(g, w, n);
      && (v in w.seen ==> v in w'.seen && (v in w'.parent <==> v in w.parent) && (v in w.parent ==> w'.parent[v] == w.parent[v]))
      && (v !in w.seen ==> (v in w'.seen <==> v in Succ(g, n)) && (v in w'.parent <==> v in Succ(g, n)))
      && (v !in w.seen && v in Succ(g, n) ==> w'.parent[v] == n)
  {
    var add := FreshNames(Succ(g, n), w.seen);
    FreshNamesFacts(Succ(g, n), w.seen);
    AdoptedAt(w.parent, add, n, v);
    assert v in add ==> v !in w.seen;
    assert v in Elems(add) <==> v in add;
  }

  /** The search visits the names of `cur` in order. */
  function VisitAll(g: map<string, seq<string>>, w: Walk, cur: seq<string>): Walk {
    if cur == [] then w else Visit(g, VisitAll(g, w, cur[..|cur| - 1]), cur[|cur| - 1])
  }

  /** Visiting one more name of `s` after its first `a`. */
  lemma VisitAllSnoc(g: map<string, seq<string>>, w: Walk, s: seq<string>, a: nat)
    requires a < |s|
    ensures VisitAll(g, w, s[..a + 1]) == Visit(g, VisitAll(g, w, s[..a]), s[a])
  {
    assert s[..a + 1][..a] == s[..a];
  }

  /** One round of the `while (next.length)` loop: the waiting names are
      visited and the names first seen meanwhile wait for the next. */
  function Round(g: map<string, seq<string>>, w: Walk): Walk {
    VisitAll(g, w.(next := []), w.next)
  }

  /** Between rounds: the seen names are reachable from the root, the
      recorded children form a tree over them, the waiting names are seen,
      and every other seen name has all its successors seen. */
  ghost predicate Settled(g: map<string, seq<string>>, root: string, w: Walk) {
    && Sound(g, root, w.seen)
    && Spans(w.kids, g, w.parent, w.seen, root)
    && (forall v :: v in w.next ==> v in w.seen)
    && (forall v :: v in w.seen && v !in w.next ==> Done(g, w.seen, v))
  }

  /** Within a round that started at `w0` and has the names `rest` still
      to visit: as `Settled`, where the names waiting for the next round
      are those first seen in this one, and a seen name may still have
      unseen successors only if it waits or is still to be visited. */
  ghost predicate Midway(g: map<string, seq<string>>, root: string, w0: Walk, rest: seq<string>, w: Walk) {
    && Sound(g, root, w.seen) && w0.seen <= w.seen
    && Spans(w.kids, g, w.parent, w.seen, root)
    && (forall v :: v in w.next ==> v in w.seen && v !in w0.seen)
    && (forall v :: v in w.seen && v !in w.next && v !in rest ==> Done(g, w.seen, v))
    && (w.next == [] ==> w.seen == w0.seen)
  }

  /** The search starts settled. */
  lemma StartSettled(g: map<string, seq<string>>, root: string, w: Walk)
    requires root in g && w == Start(root)
    ensures Settled(g, root, w)
  {
    ReachRefl(g, root);
  }

  /** Visiting a seen name keeps the round on track. */
  lemma VisitStep(g: map<string, seq<string>>, root: string, w0: Walk, n: string, rest: seq<string>, w: Walk, w': Walk)
    requires EdgesClosed(g) && Midway(g, root, w0, [n] + rest, w) && n in w0.seen
    requires w' == Visit(g, w, n)
    ensures Midway(g, root, w0, rest, w')
  {
    var succ := Succ(g, n);
    assert n in g;
    var add := FreshNames(succ, w.seen);
    var seen := w.seen + Elems(add);
    FreshNamesFacts(succ, w.seen);
    assert Elems(add) <= g.Keys by {
      forall v | v in add ensures v in g {
        var k :| 0 <= k < |add| && add[k] == v;
      }
    }
    SpansEntry(w.kids, g, w.parent, w.seen, root, n);
    var K := w.kids[n := Kid(w.kids, n)];
    AdoptAll(K, g, n, add, w.seen, w.parent, root);
    UpdateTwice(w.kids, n, Kid(w.kids, n), Kid(w.kids, n) + add);
    SoundGrow(g, root, w.seen, seen, n);
    DoneGrow(g, w.seen, seen, w.next, w'.next, n, rest);
  }

  /** After a visit of `n` that saw all its successors, every seen name
      that neither waits nor is still to be visited has all its successors
      seen. */
  lemma DoneGrow(g: map<string, seq<string>>, seen: set<string>, seen': set<string>, next: seq<string>, next': seq<string>, n: string, rest: seq<string>)
    requires forall v :: v in seen && v !in next && v !in [n] + rest ==> Done(g, seen, v)
    requires seen <= seen' && n in g && forall x :: x in g[n] ==> x in seen'
    requires forall v :: v in seen' && v !in seen ==> v in next'
    requires forall v :: v in next ==> v in next'
    ensures forall v :: v in seen' && v !in next' && v !in rest ==> Done(g, seen', v)
  {
    forall v | v in seen' && v !in next' && v !in rest ensures Done(g, seen', v) {
      if v != n {
        assert v in seen && v !in next && v !in [n] + rest;
      }
    }
  }

  /** Visiting the waiting names `done`, with the names `rest` still to
      visit, keeps the round on track. */
  lemma {:induction false} VisitAllStep(g: map<string, seq<string>>, root: string, w0: Walk, done: seq<string>, rest: seq<string>, w: Walk)
    requires EdgesClosed(g) && Settled(g, root, w0) && w0.next == done + rest
    requires w == VisitAll(g, w0.(next := []), done)
    ensures Midway(g, root, w0, rest, w)
    decreases |done|
  {
    if done == [] {
      RoundStart(g, root, w0, rest, w);
    } else {
      var pre, n := done[..|done| - 1], done[|done| - 1];
      var v := VisitAll(g, w0.(next := []), pre);
      LastMoved(done, rest);
      VisitAllStep(g, root, w0, pre, [n] + rest, v);
      VisitNextWaiting(g, root, w0, n, rest, v, w);
    }
  }

  /** Moving the last visited name back to the names still to visit. */
  lemma LastMoved(done: seq<string>, rest: seq<string>)
    requires done != []
    ensures done + rest == done[..|done| - 1] + ([done[|done| - 1]] + rest)
    ensures done[|done| - 1] in done + rest
  {
    assert done == done[..|done| - 1] + [done[|done| - 1]];
  }

  /** Visiting a name that waited at the start of the round moves the
      round one name on. */
  lemma VisitNextWaiting(g: map<string, seq<string>>, root: string, w0: Walk, n: string, rest: seq<string>, v: Walk, w: Walk)
    requires EdgesClosed(g) && Settled(g, root, w0) && n in w0.next
    requires Midway(g, root, w0, [n] + rest, v) && w == Visit(g, v, n)
    ensures Midway(g, root, w0, rest, w)
  {
    VisitStep(g, root, w0, n, rest, v, w);
  }

  /** A round starts on track: every name that waited is still to be
      visited. */
  lemma RoundStart(g: map<string, seq<string>>, root: string, w0: Walk, rest: seq<string>, w: Walk)
    requires Settled(g, root, w0) && w0.next == [] + rest && w == VisitAll(g, w0.(next := []), [])
    ensures Midway(g, root, w0, rest, w)
  {
    assert [] + rest == rest;
  }

  /** A round keeps the search settled. */
  lemma RoundSettled(g: map<string, seq<string>>, root: string, w: Walk, w': Walk)
    requires EdgesClosed(g) && Settled(g, root, w) && w' == Round(g, w)
    ensures Settled(g, root, w')
  {
    assert w.next == w.next + [];
    VisitAllStep(g, root, w, w.next, [], w');
  }

  /** A round after which names still wait has seen a vertex not seen
      before; one after which nothing waits has seen nothing new. */
  lemma RoundProgress(g: map<string, seq<string>>, root: string, w: Walk, w': Walk)
    requires EdgesClosed(g) && Settled(g, root, w) && w' == Round(g, w)
    ensures w'.next == [] ==> w'.seen == w.seen
    ensures w'.next != [] ==> g.Keys - w'.seen < g.Keys - w.seen
  {
    assert w.next == w.next + [];
    VisitAllStep(g, root, w, w.next, [], w');
    if w'.next != [] {
      assert w'.next[0] in g.Keys - w.seen;
      assert w'.next[0] !in g.Keys - w'.seen;
    }
  }

  /** A settled search with nothing waiting has seen exactly the names
      reachable from the root. */
  lemma SettledFinished(g: map<string, seq<string>>, root: string, w: Walk)
    requires Settled(g, root, w) && w.next == []
    ensures forall v :: v in w.seen <==> v in g && Reachable(g, root, v)
  {
    Finished(g, root, w.seen);
  }

  /** The search after `k` rounds. */
  function Rounds(g: map<string, seq<string>>, root: string, k: nat): Walk {
    if k == 0 then Start(root) else Round(g, Rounds(g, root, k - 1))
  }

  /** Every round leaves the search settled. */
  lemma {:induction false} RoundsSettled(g: map<string, seq<string>>, root: string, k: nat, w: Walk)
    requires EdgesClosed(g) && root in g && w == Rounds(g, root, k)
    ensures Settled(g, root, w)
  {
    if k == 0 {
      StartSettled(g, root, w);
    } else {
      RoundsSettled(g, root, k - 1, Rounds(g, root, k - 1));
      RoundSettled(g, root, Rounds(g, root, k - 1), w);
    }
  }

  /** `RoundProgress` for the round after the first `k`. */
  lemma RoundsProgress(g: map<string, seq<string>>, root: string, k: nat)
    requires EdgesClosed(g) && root in g
    ensures Rounds(g, root, k + 1).next != [] ==> g.Keys - Rounds(g, root, k + 1).seen < g.Keys - Rounds(g, root, k).seen
    ensures Rounds(g, root, k + 1).next == [] ==> Rounds(g, root, k + 1).seen == Rounds(g, root, k).seen
  {
    RoundsSettled(g, root, k, Rounds(g, root, k));
    RoundProgress(g, root, Rounds(g, root, k), Rounds(g, root, k + 1));
  }

  /** When nothing waits after `k` rounds, the seen names are exactly the
      names reachable from the root, and the recorded children form a tree
      over them. */
  lemma RoundsFinished(g: map<string, seq<string>>, root: string, k: nat)
    requires EdgesClosed(g) && root in g && Rounds(g, root, k).next == []
    ensures forall v :: v in Rounds(g, root, k).seen <==> v in g && Reachable(g, root, v)
    ensures Spans(Rounds(g, root, k).kids, g, Rounds(g, root, k).parent, Rounds(g, root, k).seen, root)
  {
    RoundsSettled(g, root, k, Rounds(g, root, k));
    SettledFinished(g, root, Rounds(g, root, k));
  }

  // ---------------------------------------------------------------------
  // Counting the edges of a tree

  /** The number of children recorded under the names of `order`. */
  function KidCount(K: map<string, seq<string>>, order: seq<string>): nat {
    if order == [] then 0 else KidCount(K, order[..|order| - 1]) + |Kid(K, order[|order| - 1])|
  }

  /** The children recorded under the names of `order`. */
  ghost function KidSet(K: map<string, seq<string>>, order: seq<string>): set<string> {
    if order == [] then {} else KidSet(K, order[..|order| - 1]) + Elems(Kid(K, order[|order| - 1]))
  }

  /** Dropping the last element of a duplicate-free sequence leaves one
      without that element. */
  lemma DistinctInit<T>(s: seq<T>)
    requires s != [] && Distinct(s)
    ensures Distinct(s[..|s| - 1]) && s[|s| - 1] !in s[..|s| - 1]
  {
    var init := s[..|s| - 1];
    forall i, j | 0 <= i < j < |init| ensures init[i] != init[j] {
      assert init[i] == s[i] && init[j] == s[j];
    }
    forall i | 0 <= i < |init| ensures init[i] != s[|s| - 1] {
      assert init[i] == s[i];
    }
  }

  /** A duplicate-free sequence has as many elements as its set. */
  lemma {:induction false} DistinctCard<T>(s: seq<T>)
    requires Distinct(s)
    ensures |Elems(s)| == |s|
  {
    if s != [] {
      var init := s[..|s| - 1];
      DistinctInit(s);
      DistinctCard(init);
      assert s == init + [s[|s| - 1]];
      assert Elems(s) == Elems(init) + {s[|s| - 1]};
    }
  }

  /** What counting the edges of a tree needs of it: each name's children
      are recorded once and have it as parent, and every name with a parent
      is recorded under it. */
  ghost predicate Parented(K: map<string, seq<string>>, parent: map<string, string>) {
    && (forall m :: m in K ==> Distinct(K[m]))
    && (forall v :: v in parent ==> parent[v] in K && v in K[parent[v]])
    && (forall m, c {:trigger c in K[m]} :: m in K && c in K[m] ==> c in parent && parent[c] == m)
  }

  /** The children recorded under the names of `order` are the names whose
      parent is in `order`. */
  lemma {:induction false} KidSetMeans(K: map<string, seq<string>>, parent: map<string, string>, order: seq<string>)
    requires Parented(K, parent)
    ensures forall c :: c in KidSet(K, order) <==> c in parent && parent[c] in order
  {
    if order != [] {
      var init, m := order[..|order| - 1], order[|order| - 1];
      KidSetMeans(K, parent, init);
      assert order == init + [m];
      forall c | c in parent && parent[c] == m ensures c in Elems(Kid(K, m)) {
        assert c in K[m];
      }
    }
  }

  /** In a tree the children of different names are different, so the
      recorded children are as many as the names they make up. */
  lemma {:induction false} KidCountCard(K: map<string, seq<string>>, parent: map<string, string>, order: seq<string>)
    requires Parented(K, parent) && Distinct(order)
    ensures KidCount(K, order) == |KidSet(K, order)|
  {
    if order != [] {
      var init, m := order[..|order| - 1], order[|order| - 1];
      DistinctInit(order);
      KidCountCard(K, parent, init);
      KidSetMeans(K, parent, init);
      var mine := Elems(Kid(K, m));
      if m in K {
        DistinctCard(K[m]);
      }
      assert KidSet(K, init) !! mine by {
        forall c | c in mine ensures c !in KidSet(K, init) {
          assert c in K[m];
        }
      }
    }
  }

  /** A spanning tree has what counting its edges needs, and the names
      with a parent are the seen names but the root. */
  lemma SpansParented(K: map<string, seq<string>>, g: map<string, seq<string>>, parent: map<string, string>, seen: set<string>, root: string)
    requires Spans(K, g, parent, seen, root)
    ensures Parented(K, parent)
    ensures forall v :: v in parent <==> v in seen && v != root
    ensures forall v :: v in parent ==> parent[v] in seen
  {
  }

  /** Counting the edges of a tree from the facts `SpansParented` gives. */
  lemma EdgeCount(K: map<string, seq<string>>, parent: map<string, string>, seen: set<string>, root: string, order: seq<string>)
    requires Parented(K, parent) && root in seen
    requires forall v :: v in parent <==> v in seen && v != root
    requires forall v :: v in parent ==> parent[v] in seen
    requires Distinct(order) && forall v :: v in seen <==> v in order
    ensures KidCount(K, order) == |order| - 1
  {
    KidCountCard(K, parent, order);
    KidSetMeans(K, parent, order);
    assert KidSet(K, order) == seen - {root} by {
      forall c ensures c in KidSet(K, order) <==> c in seen - {root} {
      }
    }
    assert Elems(order) == seen by {
      forall v ensures v in Elems(order) <==> v in seen {
      }
    }
    DistinctCard(order);
  }

  /** A tree over the names of `order` has one edge fewer than names. */
  lemma TreeEdges(K: map<string, seq<string>>, g: map<string, seq<string>>, parent: map<string, string>, seen: set<string>, root: string, order: seq<string>)
    requires Spans(K, g, parent, seen, root) && Distinct(order)
    requires forall v :: v in seen <==> v in order
    ensures KidCount(K, order) == |order| - 1
  {
    SpansParented(K, g, parent, seen, root);
    EdgeCount(K, parent, seen, root, order);
  }

  // ---------------------------------------------------------------------
  // The search on nodes

  /** `p.children`, read as `ensure_children` leaves it: absent means no
      children yet. */
  ghost function Children(m: Node): seq<Node>
    reads m`children
  {
    if m.children.Some? then m.children.value else []
  }

  /** Every node of `ns` is a node of `L`. */
  ghost predicate AllIn(ns: seq<Node>, L: seq<Node>) {
    forall k :: 0 <= k < |ns| ==> ns[k] in L
  }

  /** `idx` finds each node of `L` under its name, and only nodes of `L`. */
  ghost predicate Indexed(L: seq<Node>, idx: map<string, Node>) {
    && Named(L, idx)
    && (forall k :: k in idx ==> idx[k] in L && idx[k].name == k)
  }

  /** The nodes `idx` finds under the names of `s`, in order; a name it
      does not know is skipped. */
  ghost function Lookup(idx: map<string, Node>, s: seq<string>): seq<Node> {
    if s == [] then []
    else Lookup(idx, s[..|s| - 1]) + (if s[|s| - 1] in idx then [idx[s[|s| - 1]]] else [])
  }

  /** Looking up two name sequences joined. */
  lemma {:induction false} LookupAppend(idx: map<string, Node>, a: seq<string>, b: seq<string>)
    ensures Lookup(idx, a + b) == Lookup(idx, a) + Lookup(idx, b)
  {
    if b != [] {
      var init := b[..|b| - 1];
      LookupAppend(idx, a, init);
      assert (a + b)[..|a + b| - 1] == a + init;
    } else {
      assert a + b == a;
    }
  }

  /** Looking up the names of nodes of `L` gives back those nodes. */
  lemma {:induction false} LookupNames(L: seq<Node>, idx: map<string, Node>, s: seq<Node>)
    requires Named(L, idx) && AllIn(s, L)
    ensures Lookup(idx, Names(s)) == s
  {
    if s != [] {
      var init := s[..|s| - 1];
      assert AllIn(init, L) by {
        forall k | 0 <= k < |init| ensures init[k] in L {
          assert init[k] == s[k];
        }
      }
      LookupNames(L, idx, init);
      var last := s[|s| - 1];
      assert last in L;
      assert Names(s) == Names(init) + [last.name];
      assert Lookup(idx, Names(s)) == init + [last];
      assert s == init + [last];
    }
  }

  /** Looking up names `idx` knows gives nodes of `L` with those names. */
  lemma {:induction false} NamesLookup(L: seq<Node>, idx: map<string, Node>, s: seq<string>)
    requires Indexed(L, idx) && forall k :: 0 <= k < |s| ==> s[k] in idx
    ensures Names(Lookup(idx, s)) == s && AllIn(Lookup(idx, s), L)
  {
    if s != [] {
      var init := s[..|s| - 1];
      NamesLookup(L, idx, init);
      NamesAppend(Lookup(idx, init), [idx[s[|s| - 1]]]);
      assert s == init + [s[|s| - 1]];
      var r := Lookup(idx, s);
      forall k | 0 <= k < |r| ensures r[k] in L {
        if k < |Lookup(idx, init)| {
          assert r[k] == Lookup(idx, init)[k];
        }
      }
    }
  }

  /** `K` records the names of each node's children: the children are the
      nodes `idx` finds under the recorded names. */
  ghost predicate KidsAre(L: seq<Node>, idx: map<string, Node>, K: map<string, seq<string>>)
    reads (set m | m in L)`children
  {
    forall m :: m in L ==> Children(m) == Lookup(idx, Kid(K, m.name))
  }

  /** `nb` holds the neighbours of every node of `L`; the search does not
      change them. */
  ghost predicate Snapshot(L: seq<Node>, nb: map<Node, seq<Node>>)
    reads (set m | m in L)`neighbours
  {
    forall m :: m in L ==> m in nb && m.neighbours == nb[m]
  }

  /** What the search relies on and does not change: `idx` indexes `L`,
      every name of `g` is indexed, successors are vertices, and the
      neighbours `nb` holds for each node are the nodes found under its
      adjacency list in `g`. */
  ghost predicate Adjacent(L: seq<Node>, idx: map<string, Node>, nb: map<Node, seq<Node>>, g: map<string, seq<string>>) {
    && Indexed(L, idx) && g.Keys <= idx.Keys && EdgesClosed(g)
    && (forall m :: m in L ==> m in nb && m.name in g && nb[m] == Lookup(idx, g[m.name]))
  }

  /** A spelled table's neighbours, taken at one point, are a snapshot of
      adjacent nodes. */
  lemma SnapshotOf(L: seq<Node>, idx: map<string, Node>, g: map<string, seq<string>>)
    requires Spelled(L, g) && Indexed(L, idx) && g.Keys <= idx.Keys && EdgesClosed(g)
    ensures Snapshot(L, map m | m in L :: m.neighbours)
    ensures Adjacent(L, idx, map m | m in L :: m.neighbours, g)
  {
    var nb := map m | m in L :: m.neighbours;
    forall m | m in L ensures m in nb && m.name in g && nb[m] == Lookup(idx, g[m.name]) {
      Successors(L, g, m);
      LookupNames(L, idx, m.neighbours);
    }
  }

  /** Before the search, with only the root marked and no node holding
      children, the table is where `Start` puts the search. */
  lemma StartTracks(L: seq<Node>, idx: map<string, Node>, root: Node)
    requires root in L && Marks(L, {root.name})
    requires forall m :: m in L ==> m.children.None?
    ensures Tracks(L, idx, Start(root.name), [root])
  {
    assert Names([root]) == [root.name];
  }

  /** The neighbours of a node of `L` are nodes of `L` named by its
      adjacency list. */
  lemma NeighboursOf(L: seq<Node>, idx: map<string, Node>, nb: map<Node, seq<Node>>, g: map<string, seq<string>>, n: Node)
    requires Adjacent(L, idx, nb, g) && n in L
    ensures n in nb && n.name in g && Names(nb[n]) == g[n.name] && AllIn(nb[n], L)
  {
    forall k | 0 <= k < |g[n.name]| ensures g[n.name][k] in idx {
      assert g[n.name][k] in g[n.name];
    }
    NamesLookup(L, idx, g[n.name]);
  }

  /** The marks, children and waiting nodes in the heap follow the walk. */
  ghost predicate Tracks(L: seq<Node>, idx: map<string, Node>, w: Walk, next: seq<Node>)
    reads L
  {
    Marks(L, w.seen) && KidsAre(L, idx, w.kids) && Names(next) == w.next && AllIn(next, L)
  }

  /** `ensure_children(p)` */
  method EnsureChildren(p: Node)
    modifies p`children
    ensures p.children == Some(old(Children(p)))
  {
    if p.children.None? {
      p.children := Some([]);
    }
  }

  /** `add_child(p, c)` */
  method AddChild(p: Node, c: Node)
    modifies p`children
    ensures p.children == Some(old(Children(p)) + [c])
  {
    EnsureChildren(p);
    p.children := Some(p.children.value + [c]);
  }

  /** The names of two node sequences joined. */
  lemma NamesAppend(a: seq<Node>, b: seq<Node>)
    ensures Names(a + b) == Names(a) + Names(b)
  {
  }

  /** The names a pass over nodes sees first are the names its pass over
      their names sees first. */
  lemma {:induction false} NamesFresh(ns: seq<Node>, seen: set<string>)
    ensures Names(Fresh(ns, seen)) == FreshNames(Names(ns), seen)
  {
    if ns != [] {
      assert Names(ns)[0] == ns[0].name && Names(ns)[1..] == Names(ns[1..]);
      if ns[0].name in seen {
        NamesFresh(ns[1..], seen);
      } else {
        NamesFresh(ns[1..], seen + {ns[0].name});
        NamesAppend([ns[0]], Fresh(ns[1..], seen + {ns[0].name}));
      }
    }
  }

  /** `n.neighbours.forEach(o => { if (!o.visited) { o.visited = true;
      next.push(o); add_child(n, o); } })` over `ns`: `next` and `n`'s
      children gain exactly the nodes of `ns` first seen here, in order,
      and those become seen. */
  method BuildNeighbours(ghost L: seq<Node>, ghost idx: map<string, Node>, n: Node, ns: seq<Node>, next0: seq<Node>, ghost seen0: set<string>)
    returns (next: seq<Node>, ghost added: seq<Node>)
    requires Named(L, idx) && Marks(L, seen0)
    requires forall k :: 0 <= k < |ns| ==> ns[k] in L
    modifies (set m | m in L)`visited, n`children
    ensures added == Fresh(ns, seen0) && next == next0 + added
    ensures Marks(L, seen0 + NameSet(added))
    ensures Children(n) == old(Children(n)) + added
  {
    next, added := next0, [];
    ghost var seen := seen0;
    assert ns[0..] == ns;
    for b := 0 to |ns|
      invariant seen == seen0 + NameSet(added)
      invariant Marks(L, seen)
      invariant Children(n) == old(Children(n)) + added
      invariant next == next0 + added
      invariant added + Fresh(ns[b..], seen) == Fresh(ns, seen0)
    {
      var o := ns[b];
      assert o in L && (o.visited <==> o.name in seen);
      FreshAt(ns, b, seen);
      if !o.visited {
        TakeFresh(ns, b, seen, seen0, added);
        PushAppend(next0, added, o);
        PushAppend(old(Children(n)), added, o);
        Mark(L, idx, o, seen);
        AddChild(n, o);
        next, added, seen := next + [o], added + [o], seen + {o.name};
      }
    }
  }

  /** Taking a node first seen at position `b` keeps the pass on track. */
  lemma TakeFresh(ns: seq<Node>, b: nat, seen: set<string>, seen0: set<string>, added: seq<Node>)
    requires b < |ns| && ns[b].name !in seen && seen == seen0 + NameSet(added)
    requires added + Fresh(ns[b..], seen) == Fresh(ns, seen0)
    ensures (added + [ns[b]]) + Fresh(ns[b + 1..], seen + {ns[b].name}) == Fresh(ns, seen0)
    ensures seen + {ns[b].name} == seen0 + NameSet(added + [ns[b]])
  {
    var o := ns[b];
    FreshAt(ns, b, seen);
    Assoc(added, [o], Fresh(ns[b + 1..], seen + {o.name}));
    NameSetAppend(added, [o]);
    NameSetOne(o);
  }

  /** When no node of `L` has its children changed, `K` still records
      them. */
  twostate lemma KidsKept(new L: seq<Node>, new idx: map<string, Node>, K: map<string, seq<string>>)
    requires old(allocated(L)) && old(allocated(idx))
    requires old(KidsAre(L, idx, K))
    requires forall m :: m in L ==> m.children == old(m.children)
    ensures KidsAre(L, idx, K)
  {
  }

  /** After `n` gains the children `added`, nodes of `L`, and no other
      node's children changed, `K` records the new children under `n`'s
      name. */
  twostate lemma KidsStep(new L: seq<Node>, new idx: map<string, Node>, new n: Node, new added: seq<Node>, K0: map<string, seq<string>>)
    requires old(allocated(L)) && old(allocated(idx)) && old(allocated(n))
    requires Named(L, idx) && n in L && AllIn(added, L) && old(KidsAre(L, idx, K0))
    requires forall m :: m in L && m != n ==> m.children == old(m.children)
    requires Children(n) == old(Children(n)) + added
    ensures KidsAre(L, idx, K0[n.name := Kid(K0, n.name) + Names(added)])
  {
    LookupNames(L, idx, added);
    LookupAppend(idx, Kid(K0, n.name), Names(added));
    var K := K0[n.name := Kid(K0, n.name) + Names(added)];
    forall m | m in L ensures Children(m) == Lookup(idx, Kid(K, m.name)) {
      if m != n {
        assert m.name != n.name by {
          assert idx[m.name] == m && idx[n.name] == n;
        }
        assert Children(m) == old(Children(m));
      }
    }
  }

  /** `build_tree`'s search at one seen node `n` is `Visit` of its name:
      its successors become seen, the ones first seen here become its last
      children, and `next` gains them too. */
  method BuildNode(ghost L: seq<Node>, ghost idx: map<string, Node>, ghost nb: map<Node, seq<Node>>, n: Node, next0: seq<Node>, ghost g: map<string, seq<string>>, ghost w: Walk)
    returns (next: seq<Node>, ghost w': Walk)
    requires Adjacent(L, idx, nb, g) && Snapshot(L, nb) && n in L
    requires Tracks(L, idx, w, next0)
    modifies (set m | m in L)`visited, n`children
    ensures w' == Visit(g, w, n.name)
    ensures Tracks(L, idx, w', next) && Snapshot(L, nb)
  {
    ghost var ns := n.neighbours;
    NeighboursOf(L, idx, nb, g, n);
    ghost var added;
    next, added := BuildNeighbours(L, idx, n, n.neighbours, next0, w.seen);
    w' := Visit(g, w, n.name);
    VisitFresh(L, g, w, n.name, ns, next0, added);
    KidsStep(L, idx, n, added, w.kids);
  }

  /** The names first seen from `ns`, the successors of `n`, are the ones
      `Visit` adds: to the seen set, the queue and `n`'s children. */
  lemma VisitFresh(L: seq<Node>, g: map<string, seq<string>>, w: Walk, n: string, ns: seq<Node>, next0: seq<Node>, added: seq<Node>)
    requires n in g && Names(ns) == g[n] && AllIn(ns, L)
    requires Names(next0) == w.next && AllIn(next0, L)
    requires added == Fresh(ns, w.seen)
    ensures Visit(g, w, n).seen == w.seen + NameSet(added)
    ensures Visit(g, w, n).next == Names(next0 + added) && AllIn(next0 + added, L)
    ensures Visit(g, w, n).kids == w.kids[n := Kid(w.kids, n) + Names(added)]
    ensures AllIn(added, L)
  {
    FreshFacts(ns, w.seen);
    NamesFresh(ns, w.seen);
    NameSetNames(added);
    NamesAppend(next0, added);
    assert AllIn(added, L) by {
      forall k | 0 <= k < |added| ensures added[k] in L {
        assert added[k] in ns;
      }
    }
    var all := next0 + added;
    forall k | 0 <= k < |all| ensures all[k] in L {
      if k >= |next0| {
        assert all[k] == added[k - |next0|];
      }
    }
  }

  /** One level of `build_tree`'s search, `cur.forEach(n =>
      n.neighbours.forEach(...))`, is a `Round`. */
  method BuildLevel(ghost L: seq<Node>, ghost idx: map<string, Node>, ghost nb: map<Node, seq<Node>>, cur: seq<Node>, ghost g: map<string, seq<string>>, ghost root: string, ghost k: nat)
    returns (next: seq<Node>, ghost w: Walk)
    requires Adjacent(L, idx, nb, g) && Snapshot(L, nb)
    requires Tracks(L, idx, Rounds(g, root, k), cur)
    modifies (set m | m in L)`visited, (set m | m in L)`children
    ensures w == Rounds(g, root, k + 1)
    ensures Tracks(L, idx, w, next) && Snapshot(L, nb)
  {
    ghost var w0 := Rounds(g, root, k);
    next := [];
    w := w0.(next := []);
    assert w0.next[..0] == [];
    for a := 0 to |cur|
      invariant w == VisitAll(g, w0.(next := []), w0.next[..a])
      invariant Tracks(L, idx, w, next) && Snapshot(L, nb)
    {
      VisitAllSnoc(g, w0.(next := []), w0.next, a);
      next, w := BuildNode(L, idx, nb, cur[a], next, g, w);
    }
    assert w0.next[..|cur|] == w0.next;
    assert w == Round(g, w0);
  }

  /** The `while (next.length)` loop of `build_tree`: rounds until
      nothing waits. */
  method BuildLevels(ghost L: seq<Node>, ghost idx: map<string, Node>, ghost nb: map<Node, seq<Node>>, next0: seq<Node>, ghost g: map<string, seq<string>>, ghost root: string)
    returns (ghost k: nat)
    requires Adjacent(L, idx, nb, g) && Snapshot(L, nb) && root in g
    requires Tracks(L, idx, Start(root), next0)
    modifies (set m | m in L)`visited, (set m | m in L)`children
    ensures Rounds(g, root, k).next == []
    ensures Tracks(L, idx, Rounds(g, root, k), [])
  {
    k := 0;
    var next := next0;
    while next != []
      invariant Tracks(L, idx, Rounds(g, root, k), next)
      invariant Snapshot(L, nb)
      decreases g.Keys - Rounds(g, root, k).seen, |next|
    {
      RoundsProgress(g, root, k);
      ghost var w;
      next, w := BuildLevel(L, idx, nb, next, g, root, k);
      k := k + 1;
    }
  }

  /** The search of `build_tree` before the scrub: rounds from the root
      until nothing waits.  The marked nodes are those whose names are
      reachable from the root's, and the children of each node are the
      nodes found under the names the tree records for it. */
  method MarkTree(ghost L: seq<Node>, ghost idx: map<string, Node>, root: Node, ghost g: map<string, seq<string>>)
    returns (ghost w: Walk)
    requires Spelled(L, g) && Indexed(L, idx) && g.Keys <= idx.Keys && EdgesClosed(g)
    requires Marks(L, {}) && root in L
    requires forall m :: m in L ==> m.children.None?
    modifies (set m | m in L)`visited, (set m | m in L)`children
    ensures Marks(L, w.seen) && KidsAre(L, idx, w.kids)
    ensures w.next == [] && exists k :: w == Rounds(g, root.name, k)
    ensures forall v :: v in w.seen <==> v in g && Reachable(g, root.name, v)
    ensures Spans(w.kids, g, w.parent, w.seen, root.name)
  {
    SnapshotOf(L, idx, g);
    ghost var nb := map m | m in L :: m.neighbours;
    Mark(L, idx, root, {});
    StartTracks(L, idx, root);
    ghost var k := BuildLevels(L, idx, nb, [root], g, root.name);
    w := Rounds(g, root.name, k);
    RoundsFinished(g, root.name, k);
  }

  // ---------------------------------------------------------------------
  // build_tree

  /** `build_tree(nodes, root)`: the root is interned with `nodes.get`
      (a name the table lacks becomes a new node without neighbours), the
      search records each node's first-seen neighbours as its children,
      the unreached nodes are scrubbed, and every remaining node's
      neighbours become its children.

      `L` is the list after `nodes.get`, standing for `Intern(gr, root)`.
      The table keeps, in their order, exactly the nodes whose names are
      reachable from the root, no node keeps a mark, and the table is
      closed under neighbours.  Each node's new neighbours spell the
      children of its name in `w.kids`, which form a spanning tree of the
      reachable names rooted at the root; the table therefore holds one
      neighbour entry fewer than nodes. */
  method BuildTree(nodes: Nodes, root: string, ghost gr: Graph) returns (ghost L: seq<Node>, ghost w: Walk)
    requires nodes.Represents(gr)
    modifies nodes, (set n | n in nodes.list)`visited, (set n | n in nodes.list)`children
    modifies (set n | n in nodes.list)`neighbours
    ensures old(nodes.list) <= L && Names(L) == Intern(gr, root).order
    ensures nodes.Valid() && nodes.Closed()
    ensures nodes.list == KeepIn(L, ReachableIn(L, Intern(gr, root).adj, root))
    ensures forall n :: n in L ==> !n.visited
    ensures forall n :: n in nodes.list ==> n.children.None? && Names(n.neighbours) == Kid(w.kids, n.name)
    ensures w.next == [] && exists k :: w == Rounds(Intern(gr, root).adj, root, k)
    ensures forall v :: v in w.seen <==> v in Intern(gr, root).adj && Reachable(Intern(gr, root).adj, root, v)
    ensures Spans(w.kids, Intern(gr, root).adj, w.parent, w.seen, root)
    ensures NeighbourCount(nodes.list) == |nodes.list| - 1
  {
    var r := nodes.Get(root, gr);
    L := nodes.list;
    w := TreeFrom(nodes, r, Intern(gr, root));
  }

  /** `build_tree` once the root node `r` is in the table standing for
      `h`. */
  method TreeFrom(nodes: Nodes, r: Node, ghost h: Graph) returns (ghost w: Walk)
    requires nodes.Represents(h) && r in nodes.list
    modifies nodes, (set n | n in nodes.list)`visited, (set n | n in nodes.list)`children
    modifies (set n | n in nodes.list)`neighbours
    ensures nodes.Valid() && nodes.Closed()
    ensures nodes.list == KeepIn(old(nodes.list), ReachableIn(old(nodes.list), h.adj, r.name))
    ensures forall n :: n in old(nodes.list) ==> !n.visited
    ensures forall n :: n in nodes.list ==> n.children.None? && Names(n.neighbours) == Kid(w.kids, n.name)
    ensures w.next == [] && exists k :: w == Rounds(h.adj, r.name, k)
    ensures forall v :: v in w.seen <==> v in h.adj && Reachable(h.adj, r.name, v)
    ensures Spans(w.kids, h.adj, w.parent, w.seen, r.name)
    ensures NeighbourCount(nodes.list) == |nodes.list| - 1
  {
    ghost var L, idx, g := nodes.list, nodes.byName, h.adj;
    Interned(nodes, h);
    w := MarkTree(L, idx, r, g);
    Prune(nodes, L, idx, w, g, r.name);
    ReachedNames(L, g, w.seen, r.name);
  }

  /** The nodes of `L` whose names are in `seen`. */
  ghost function Kept(L: seq<Node>, seen: set<string>): set<Node> {
    set n | n in L && n.name in seen
  }

  /** When the seen names are the vertices reachable from the root, the
      nodes kept are those whose names are reachable. */
  lemma ReachedNames(L: seq<Node>, g: map<string, seq<string>>, seen: set<string>, root: string)
    requires forall n :: n in L ==> n.name in g
    requires forall v :: v in seen <==> v in g && Reachable(g, root, v)
    ensures Kept(L, seen) == ReachableIn(L, g, root)
  {
  }

  /** `build_tree` after the search: the scrub, then the last loop.  The
      table keeps the nodes the search reached, and their neighbours
      become the children the search recorded. */
  method Prune(nodes: Nodes, ghost L: seq<Node>, ghost idx: map<string, Node>, ghost w: Walk, ghost g: map<string, seq<string>>, ghost root: string)
    requires nodes.Valid() && nodes.list == L && Indexed(L, idx) && g.Keys <= idx.Keys && EdgesClosed(g)
    requires Marks(L, w.seen) && KidsAre(L, idx, w.kids)
    requires forall v :: v in w.seen ==> v in g
    requires Spans(w.kids, g, w.parent, w.seen, root)
    modifies nodes, (set n | n in L)`visited, (set n | n in L)`children, (set n | n in L)`neighbours
    ensures nodes.Valid() && nodes.Closed()
    ensures nodes.list == KeepIn(L, Kept(L, w.seen))
    ensures forall n :: n in L ==> !n.visited
    ensures forall n :: n in nodes.list ==> n.children.None? && Names(n.neighbours) == Kid(w.kids, n.name)
    ensures NeighbourCount(nodes.list) == |nodes.list| - 1
  {
    ghost var kept := Kept(L, w.seen);
    MarkedKept(L, w.seen, kept);
    ScrubAndAdopt(nodes, L, idx, w.kids, kept);
    Settle(nodes, L, idx, w, g, root, kept);
  }

  /** The marked nodes are those kept. */
  lemma MarkedKept(L: seq<Node>, seen: set<string>, kept: set<Node>)
    requires Marks(L, seen) && kept == Kept(L, seen)
    ensures Visited(L) == kept
  {
  }

  /** The scrub and the last loop of `build_tree`: the table keeps the
      marked nodes, and each of them takes as neighbours the children `K`
      records for it. */
  method ScrubAndAdopt(nodes: Nodes, ghost L: seq<Node>, ghost idx: map<string, Node>, ghost K: map<string, seq<string>>, ghost kept: set<Node>)
    requires nodes.Valid() && nodes.list == L && KidsAre(L, idx, K) && Visited(L) == kept
    modifies nodes, (set n | n in L)`visited, (set n | n in L)`children, (set n | n in L)`neighbours
    ensures nodes.Valid() && nodes.list == KeepIn(L, kept)
    ensures forall n :: n in L ==> !n.visited
    ensures forall n :: n in nodes.list ==> n.children.None? && n.neighbours == Lookup(idx, Kid(K, n.name))
  {
    label searched:
    ScrubUnvisited(nodes);
    KidsKept@searched(L, idx, K);
    AdoptKids(nodes, L, idx, K);
  }

  /** The last loop of `build_tree` when `K` records the children of the
      nodes of `L`, which the table lists. */
  method AdoptKids(nodes: Nodes, ghost L: seq<Node>, ghost idx: map<string, Node>, ghost K: map<string, seq<string>>)
    requires nodes.Valid() && KidsAre(L, idx, K) && forall n :: n in nodes.list ==> n in L
    modifies (set n | n in L)`neighbours, (set n | n in L)`children
    ensures forall n :: n in nodes.list ==> n.children.None? && n.neighbours == Lookup(idx, Kid(K, n.name))
  {
    AdoptChildren(nodes);
  }

  /** What a table standing for `h` offers the search: its nodes spell
      `h`'s adjacency, the index finds every vertex's node, no node is
      marked. */
  lemma Interned(nodes: Nodes, h: Graph)
    requires nodes.Represents(h)
    ensures Spelled(nodes.list, h.adj) && Marks(nodes.list, {})
    ensures Indexed(nodes.list, nodes.byName) && h.adj.Keys <= nodes.byName.Keys && EdgesClosed(h.adj)
    ensures forall m :: m in nodes.list ==> m.children.None?
  {
    nodes.RepresentsMeans(h);
    SpelledOf(nodes, h);
    NamedOf(nodes);
    forall k | k in nodes.byName ensures nodes.byName[k] in nodes.list && nodes.byName[k].name == k {
      IndexIn(nodes.list, k);
    }
  }

  /** After the search, the children each node of `L` holds spell its
      recorded children, and are nodes of `L` the search reached. */
  lemma KeptChildren(L: seq<Node>, idx: map<string, Node>, K: map<string, seq<string>>, g: map<string, seq<string>>, parent: map<string, string>, seen: set<string>, root: string, kept: set<Node>)
    requires Indexed(L, idx) && g.Keys <= idx.Keys && EdgesClosed(g)
    requires Spans(K, g, parent, seen, root)
    requires kept == Kept(L, seen)
    ensures forall m :: m in L ==> Names(Lookup(idx, Kid(K, m.name))) == Kid(K, m.name)
    ensures forall m, o :: m in L && o in Lookup(idx, Kid(K, m.name)) ==> o in L && o in kept
  {
    forall m | m in L ensures Names(Lookup(idx, Kid(K, m.name))) == Kid(K, m.name) && forall o :: o in Lookup(idx, Kid(K, m.name)) ==> o in L && o in kept {
      var s := Kid(K, m.name);
      forall k | 0 <= k < |s| ensures s[k] in idx {
        assert s[k] in K[m.name];
      }
      NamesLookup(L, idx, s);
      var c := Lookup(idx, s);
      forall o | o in c ensures o in L && o in kept {
        var k :| 0 <= k < |c| && c[k] == o;
        assert Names(c)[k] == o.name;
        assert o.name in K[m.name];
      }
    }
  }

  /** The last loop of `build_tree`: every listed node takes its children,
      an empty list when it has none, as its neighbours and loses them. */
  method AdoptChildren(nodes: Nodes)
    requires nodes.Valid()
    modifies (set n | n in nodes.list)`neighbours, (set n | n in nodes.list)`children
    ensures forall n :: n in nodes.list ==> n.neighbours == old(Children(n)) && n.children.None?
  {
    var list := nodes.list;
    UniqueNodes(list);
    for i := 0 to |list|
      invariant forall k :: 0 <= k < i ==> list[k].neighbours == old(Children(list[k])) && list[k].children.None?
      invariant forall k :: i <= k < |list| ==> list[k].children == old(list[k].children)
    {
      var n := list[i];
      if n.children.None? {
        n.children := Some([]);
      }
      n.neighbours := n.children.value;
      n.children := None;
    }
  }

  /** The table `build_tree` returns: closed, spelling the tree, with one
      neighbour entry fewer than nodes. */
  lemma Settle(nodes: Nodes, L: seq<Node>, idx: map<string, Node>, w: Walk, g: map<string, seq<string>>, root: string, kept: set<Node>)
    requires nodes.Valid() && Indexed(L, idx) && g.Keys <= idx.Keys && EdgesClosed(g)
    requires kept == Kept(L, w.seen) && nodes.list == KeepIn(L, kept)
    requires forall v :: v in w.seen ==> v in g
    requires Spans(w.kids, g, w.parent, w.seen, root)
    requires forall n :: n in nodes.list ==> n.neighbours == Lookup(idx, Kid(w.kids, n.name))
    ensures nodes.Closed()
    ensures forall n :: n in nodes.list ==> Names(n.neighbours) == Kid(w.kids, n.name)
    ensures NeighbourCount(nodes.list) == |nodes.list| - 1
  {
    KeptChildren(L, idx, w.kids, g, w.parent, w.seen, root, kept);
    var list := nodes.list;
    forall n, o | n in list && o in n.neighbours ensures o in list {
      assert n in L;
      var c := Lookup(idx, Kid(w.kids, n.name));
      assert o in c;
      assert o in L && o in kept;
    }
    UniqueNamesDistinct(list);
    SeenListed(L, idx, w.seen, kept, list);
    TreeEdges(w.kids, g, w.parent, w.seen, root, Names(list));
    CountNeighbours(list, w.kids);
  }

  /** The seen names are the names of the kept nodes. */
  lemma SeenListed(L: seq<Node>, idx: map<string, Node>, seen: set<string>, kept: set<Node>, list: seq<Node>)
    requires Indexed(L, idx) && seen <= idx.Keys
    requires forall m :: m in L ==> (m in kept <==> m.name in seen)
    requires list == KeepIn(L, kept)
    ensures forall v :: v in seen <==> v in Names(list)
  {
    forall v ensures v in seen <==> v in Names(list) {
      if v in seen {
        var k := IndexOf(list, idx[v]);
        assert Names(list)[k] == v;
      }
      if v in Names(list) {
        var k :| 0 <= k < |list| && Names(list)[k] == v;
        assert list[k] in list;
      }
    }
  }

  /** When each node has as many neighbours as its name has children, the
      neighbour entries number the children. */
  lemma {:induction false} CountNeighbours(ns: seq<Node>, K: map<string, seq<string>>)
    requires forall n :: n in ns ==> |n.neighbours| == |Kid(K, n.name)|
    ensures NeighbourCount(ns) == KidCount(K, Names(ns))
  {
    if ns != [] {
      var init := ns[..|ns| - 1];
      assert forall m :: m in init ==> m in ns;
      CountNeighbours(init, K);
      assert Names(ns)[..|ns| - 1] == Names(init);
    }
  }
}
