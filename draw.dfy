/** `nodes_to_d3_graph` of main.js: the node list, together with one link
    per (node, neighbour) pair, the link naming both ends by their
    positions in the list. */
module Draw {

  import opened Seqs
  import opened Graph

  /** `{source: nodes.list.indexOf(n), target: nodes.list.indexOf(o)}` */
  datatype Link = Link(source: int, target: int)

  /** The links of node `n`, one per entry of its neighbour list `os`, in
      that order. */
  function Row(all: seq<Node>, n: Node, os: seq<Node>): (r: seq<Link>)
    ensures |r| == |os|
    ensures forall k :: 0 <= k < |os| ==> r[k] == Link(IndexOf(all, n), IndexOf(all, os[k]))
  {
    if os == [] then [] else Row(all, n, os[..|os| - 1]) + [Link(IndexOf(all, n), IndexOf(all, os[|os| - 1]))]
  }

  /** The links of the nodes `ns`, node after node. */
  ghost function LinksOf(all: seq<Node>, ns: seq<Node>): seq<Link>
    reads set n | n in ns
  {
    if ns == [] then [] else LinksOf(all, ns[..|ns| - 1]) + Row(all, ns[|ns| - 1], ns[|ns| - 1].neighbours)
  }

  /** `nodes_to_d3_graph(nodes)`: the list itself and its links, listed
      node by node and, for each node, neighbour by neighbour. */
  method ToD3Graph(nodes: Nodes) returns (list: seq<Node>, links: seq<Link>)
    ensures list == nodes.list
    ensures links == LinksOf(nodes.list, nodes.list)
  {
    list := nodes.list;
    links := [];
    for i := 0 to |list|
      invariant links == LinksOf(list, list[..i])
    {
      links := PushRow(list, list[i], links);
      LinksSnoc(list, list, i);
    }
    assert list[..|list|] == list;
  }

  /** The inner `forEach` of `nodes_to_d3_graph`: one link pushed per
      neighbour of `n`. */
  method PushRow(list: seq<Node>, n: Node, links0: seq<Link>) returns (links: seq<Link>)
    ensures links == links0 + Row(list, n, n.neighbours)
  {
    var os := n.neighbours;
    links := links0;
    for j := 0 to |os|
      invariant links == links0 + Row(list, n, os[..j])
    {
      links := links + [Link(IndexOf(list, n), IndexOf(list, os[j]))];
      RowSnoc(list, n, os, j);
    }
    assert os[..|os|] == os;
  }

  /** One more neighbour adds its link at the end of the row. */
  lemma RowSnoc(all: seq<Node>, n: Node, os: seq<Node>, j: nat)
    requires j < |os|
    ensures Row(all, n, os[..j + 1]) == Row(all, n, os[..j]) + [Link(IndexOf(all, n), IndexOf(all, os[j]))]
  {
    assert os[..j + 1][..j] == os[..j];
  }

  /** One more node adds its row at the end of the links. */
  lemma LinksSnoc(all: seq<Node>, ns: seq<Node>, i: nat)
    requires i < |ns|
    ensures LinksOf(all, ns[..i + 1]) == LinksOf(all, ns[..i]) + Row(all, ns[i], ns[i].neighbours)
  {
    assert ns[..i + 1][..i] == ns[..i];
  }

  /** There is one link per neighbour entry. */
  lemma {:induction false} LinkCount(all: seq<Node>, ns: seq<Node>)
    ensures |LinksOf(all, ns)| == NeighbourCount(ns)
    decreases |ns|
  {
    if ns != [] {
      var init := ns[..|ns| - 1];
      assert forall m :: m in init ==> m in ns;
      LinkCount(all, init);
    }
  }

  /** When `ns` and their neighbours are all listed in `all`, each link
      joins a node of `ns` to one of its neighbours. */
  lemma {:induction false} LinksSound(all: seq<Node>, ns: seq<Node>)
    requires forall n :: n in ns ==> n in all && forall o :: o in n.neighbours ==> o in all
    ensures forall l :: l in LinksOf(all, ns) ==> Joins(all, ns, l)
    decreases |ns|
  {
    if ns != [] {
      var init, n := ns[..|ns| - 1], ns[|ns| - 1];
      assert forall m :: m in init ==> m in ns;
      LinksSound(all, init);
      RowSound(all, ns, n);
      forall l | l in LinksOf(all, init) ensures Joins(all, ns, l) {
      }
    }
  }

  /** Link `l` joins a node of `ns` to one of its neighbours, both named by
      their positions in `all`. */
  ghost predicate Joins(all: seq<Node>, ns: seq<Node>, l: Link)
    reads set n | n in all
  {
    0 <= l.source < |all| && 0 <= l.target < |all| && all[l.source] in ns && all[l.target] in all[l.source].neighbours
  }

  /** The links of a listed node with listed neighbours join it to them. */
  lemma RowSound(all: seq<Node>, ns: seq<Node>, n: Node)
    requires n in ns && n in all && forall o :: o in n.neighbours ==> o in all
    ensures forall l :: l in Row(all, n, n.neighbours) ==> Joins(all, ns, l)
  {
    var row := Row(all, n, n.neighbours);
    forall l | l in row ensures Joins(all, ns, l) {
      var k :| 0 <= k < |row| && row[k] == l;
      assert n.neighbours[k] in n.neighbours;
    }
  }

  /** Each neighbour entry of a node of `ns` has its link. */
  lemma {:induction false} LinksComplete(all: seq<Node>, ns: seq<Node>)
    ensures forall n, o :: n in ns && o in n.neighbours ==> Link(IndexOf(all, n), IndexOf(all, o)) in LinksOf(all, ns)
    decreases |ns|
  {
    if ns != [] {
      var init, n := ns[..|ns| - 1], ns[|ns| - 1];
      assert forall m :: m in init ==> m in ns;
      LinksComplete(all, init);
      var row := Row(all, n, n.neighbours);
      forall m, o | m in ns && o in m.neighbours ensures Link(IndexOf(all, m), IndexOf(all, o)) in LinksOf(all, ns) {
        if m == n {
          var k :| 0 <= k < |n.neighbours| && n.neighbours[k] == o;
          assert row[k] == Link(IndexOf(all, m), IndexOf(all, o));
        } else {
          assert m in init;
        }
      }
    }
  }
}
