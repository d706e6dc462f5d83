/** The prerequisite graph of main.js: `clamp`, `build_nodes` with its
    interning `nodes.get`, `scrub_unvisited`, `accessible_from`,
    `build_tree` and `nodes_to_d3_graph`.

    A node is an object with a name, a list of neighbours (the subjects it
    requires), and the `visited` and `children` properties the searches
    add and delete.  The node table is an object holding the list of nodes
    and one property per name. */
module Graph {

  import opened Wrappers
  import opened Seqs
  import PM = ParseMatch

  // ---------------------------------------------------------------------
  // clamp

  /** `clamp(x, lo, hi)` */
  function Clamp(x: real, lo: real, hi: real): (r: real)
    ensures lo <= hi ==> lo <= r <= hi
    ensures lo <= x <= hi ==> r == x
    ensures x < lo ==> r == lo
    ensures lo <= x && hi < x ==> r == hi
  {
    if x < lo then lo else if x > hi then hi else x
  }

  /** Clamping a clamped value changes nothing. */
  lemma ClampIdempotent(x: real, lo: real, hi: real)
    requires lo <= hi
    ensures Clamp(Clamp(x, lo, hi), lo, hi) == Clamp(x, lo, hi)
  {
  }

  // ---------------------------------------------------------------------
  // The graph build_nodes makes, as a value

  /** A subject record of the data file: its code and its constraints. */
  datatype Record = Record(code: string, constraints: seq<PM.Constraint>)

  /** The subjects a constraint links to: the options of a `SUBJECTS`
      constraint whose quantity is not negative (anti-requisites carry -1). */
  function Opts(c: PM.Constraint): (r: seq<string>)
    ensures r != [] ==> c.Subjects? && c.qty >= 0 && r == c.codes
  {
    if c.Subjects? && c.qty >= 0 then c.codes else []
  }

  /** The vertices in the order their nodes were made, and each vertex's
      neighbours by name. */
  datatype Graph = Graph(order: seq<string>, adj: map<string, seq<string>>)

  const Empty := Graph([], map[])

  /** Each vertex is listed once, and every neighbour is a vertex. */
  ghost predicate WellFormed(g: Graph) {
    && Distinct(g.order)
    && (forall n :: n in g.adj <==> n in g.order)
    && (forall u, v :: u in g.adj && v in g.adj[u] ==> v in g.adj)
  }

  /** `nodes.get(n)` on the graph: a new vertex with no neighbours. */
  function Intern(g: Graph, n: string): (r: Graph)
    ensures n in r.adj && g.adj.Keys <= r.adj.Keys
  {
    if n in g.adj then g else Graph(g.order + [n], g.adj[n := []])
  }

  /** `node.neighbours.push(nodes.get(v))` on the graph. */
  function AddEdge(g: Graph, u: string, v: string): (r: Graph)
    requires u in g.adj
    ensures v in r.adj && g.adj.Keys <= r.adj.Keys
  {
    var h := Intern(g, v);
    Graph(h.order, h.adj[u := h.adj[u] + [v]])
  }

  /** `opts.forEach(o => node.neighbours.push(nodes.get(o)))` */
  function AddEdges(g: Graph, u: string, opts: seq<string>): (r: Graph)
    requires u in g.adj
    ensures g.adj.Keys <= r.adj.Keys
  {
    if opts == [] then g
    else AddEdge(AddEdges(g, u, opts[..|opts| - 1]), u, opts[|opts| - 1])
  }

  /** One constraint of the subject `code`: its node is asked for, then
      linked to the constraint's options. */
  function AddConstraint(g: Graph, code: string, c: PM.Constraint): Graph {
    AddEdges(Intern(g, code), code, Opts(c))
  }

  /** `s.constraints.forEach(...)` */
  function AddConstraints(g: Graph, code: string, cs: seq<PM.Constraint>): Graph {
    if cs == [] then g
    else AddConstraint(AddConstraints(g, code, cs[..|cs| - 1]), code, cs[|cs| - 1])
  }

  /** `build_nodes(json)` on the graph. */
  function GraphOf(json: seq<Record>): Graph {
    if json == [] then Empty
    else
      var s := json[|json| - 1];
      AddConstraints(GraphOf(json[..|json| - 1]), s.code, s.constraints)
  }

  // What the graph holds, record by record

  /** The adjacency list of `w`, empty when `w` is not a vertex. */
  function Adj(g: Graph, w: string): seq<string> {
    if w in g.adj then g.adj[w] else []
  }

  /** The options a record's constraints link its subject to, in order. */
  function RecordEdges(cs: seq<PM.Constraint>): seq<string> {
    if cs == [] then [] else RecordEdges(cs[..|cs| - 1]) + Opts(cs[|cs| - 1])
  }

  /** Every subject the records of `json` link `u` to, in the order the
      links are made. */
  function EdgesOf(json: seq<Record>, u: string): seq<string> {
    if json == [] then []
    else
      var s := json[|json| - 1];
      EdgesOf(json[..|json| - 1], u) + (if s.code == u then RecordEdges(s.constraints) else [])
  }

  /** The subjects a record's constraints link to. */
  function RecordTargets(cs: seq<PM.Constraint>): set<string> {
    if cs == [] then {}
    else
      var opts := Opts(cs[|cs| - 1]);
      RecordTargets(cs[..|cs| - 1]) + set o | o in opts
  }

  /** The subjects that get a node: every record with at least one
      constraint, and every subject a constraint links to. */
  function Vertices(json: seq<Record>): set<string> {
    if json == [] then {}
    else
      var s := json[|json| - 1];
      Vertices(json[..|json| - 1]) + (if s.constraints != [] then {s.code} else {}) + RecordTargets(s.constraints)
  }

  lemma AdjIntern(g: Graph, n: string, w: string)
    ensures Adj(Intern(g, n), w) == Adj(g, w)
    ensures Intern(g, n).adj.Keys == g.adj.Keys + {n}
  {
  }

  lemma AdjAddEdge(g: Graph, u: string, v: string, w: string)
    requires u in g.adj
    ensures Adj(AddEdge(g, u, v), w) == Adj(g, w) + (if w == u then [v] else [])
    ensures AddEdge(g, u, v).adj.Keys == g.adj.Keys + {v}
  {
    AdjIntern(g, v, w);
    AdjIntern(g, v, u);
  }

  /** `opts.forEach(o => node.neighbours.push(nodes.get(o)))` appends the
      options to `u`'s list and nothing else... */
  lemma {:induction false} AdjAddEdges(g: Graph, u: string, opts: seq<string>, w: string)
    requires u in g.adj
    ensures Adj(AddEdges(g, u, opts), w) == Adj(g, w) + (if w == u then opts else [])
  {
    if opts != [] {
      var init, last := opts[..|opts| - 1], opts[|opts| - 1];
      AdjAddEdges(g, u, init, w);
      AdjAddEdge(AddEdges(g, u, init), u, last, w);
      assert opts == init + [last];
    }
  }

  /** ... and makes a vertex of each option. */
  lemma {:induction false} KeysAddEdges(g: Graph, u: string, opts: seq<string>)
    requires u in g.adj
    ensures AddEdges(g, u, opts).adj.Keys == g.adj.Keys + set o | o in opts
  {
    if opts != [] {
      var init, last := opts[..|opts| - 1], opts[|opts| - 1];
      KeysAddEdges(g, u, init);
      AdjAddEdge(AddEdges(g, u, init), u, last, u);
      assert opts == init + [last];
      assert (set o | o in opts) == (set o | o in init) + {last};
    }
  }

  lemma AdjAddConstraint(g: Graph, code: string, c: PM.Constraint, w: string)
    ensures Adj(AddConstraint(g, code, c), w) == Adj(g, w) + (if w == code then Opts(c) else [])
    ensures AddConstraint(g, code, c).adj.Keys == g.adj.Keys + {code} + set o | o in Opts(c)
  {
    AdjIntern(g, code, w);
    AdjAddEdges(Intern(g, code), code, Opts(c), w);
    KeysAddEdges(Intern(g, code), code, Opts(c));
  }

  lemma {:induction false} AdjAddConstraints(g: Graph, code: string, cs: seq<PM.Constraint>, w: string)
    ensures Adj(AddConstraints(g, code, cs), w) == Adj(g, w) + (if w == code then RecordEdges(cs) else [])
    ensures AddConstraints(g, code, cs).adj.Keys
         == g.adj.Keys + (if cs != [] then {code} else {}) + RecordTargets(cs)
  {
    if cs != [] {
      var init := cs[..|cs| - 1];
      AdjAddConstraints(g, code, init, w);
      AdjAddConstraint(AddConstraints(g, code, init), code, cs[|cs| - 1], w);
    }
  }

  /** `build_nodes(json)` makes a node for exactly the subjects in
      `Vertices(json)`, and links each to the subjects of `EdgesOf`. */
  lemma {:induction false} GraphOfSpec(json: seq<Record>, w: string)
    ensures GraphOf(json).adj.Keys == Vertices(json)
    ensures Adj(GraphOf(json), w) == EdgesOf(json, w)
  {
    if json != [] {
      var init, s := json[..|json| - 1], json[|json| - 1];
      GraphOfSpec(init, w);
      AdjAddConstraints(GraphOf(init), s.code, s.constraints, w);
    }
  }

  /** Making a vertex and an edge keep the graph well formed. */
  lemma InternWellFormed(g: Graph, n: string)
    requires WellFormed(g)
    ensures WellFormed(Intern(g, n))
  {
    if n !in g.adj {
      var r := Intern(g, n);
      forall i, j | 0 <= i < j < |r.order| ensures r.order[i] != r.order[j] {
        if j == |g.order| {
          assert r.order[i] == g.order[i];
        }
      }
    }
  }

  lemma AddEdgeWellFormed(g: Graph, u: string, v: string)
    requires WellFormed(g) && u in g.adj
    ensures WellFormed(AddEdge(g, u, v))
  {
    InternWellFormed(g, v);
  }

  lemma {:induction false} AddEdgesWellFormed(g: Graph, u: string, opts: seq<string>)
    requires WellFormed(g) && u in g.adj
    ensures WellFormed(AddEdges(g, u, opts))
  {
    if opts != [] {
      AddEdgesWellFormed(g, u, opts[..|opts| - 1]);
      AddEdgeWellFormed(AddEdges(g, u, opts[..|opts| - 1]), u, opts[|opts| - 1]);
    }
  }

  lemma {:induction false} AddConstraintsWellFormed(g: Graph, code: string, cs: seq<PM.Constraint>)
    requires WellFormed(g)
    ensures WellFormed(AddConstraints(g, code, cs))
  {
    if cs != [] {
      var init := cs[..|cs| - 1];
      AddConstraintsWellFormed(g, code, init);
      InternWellFormed(AddConstraints(g, code, init), code);
      AddEdgesWellFormed(Intern(AddConstraints(g, code, init), code), code, Opts(cs[|cs| - 1]));
    }
  }

  /** The graph `build_nodes` makes lists each node once and links only to
      nodes it made. */
  lemma {:induction false} GraphOfWellFormed(json: seq<Record>)
    ensures WellFormed(GraphOf(json))
  {
    if json != [] {
      var init, s := json[..|json| - 1], json[|json| - 1];
      GraphOfWellFormed(init);
      AddConstraintsWellFormed(GraphOf(init), s.code, s.constraints);
    }
  }

  // ---------------------------------------------------------------------
  // Nodes

  /** A node: `{neighbours: [], name: n}`, with the `visited` flag (absent
      means false) and the `children` list (absent is `None`). */
  class Node {
    const name: string
    var neighbours: seq<Node>
    var visited: bool
    var children: Option<seq<Node>>

    constructor (name: string)
      ensures this.name == name && neighbours == [] && !visited && children == None
    {
      this.name := name;
      neighbours := [];
      visited := false;
      children := None;
    }
  }

  /** The names of a sequence of nodes. */
  function Names(ns: seq<Node>): (r: seq<string>)
    ensures |r| == |ns|
    ensures forall i :: 0 <= i < |ns| ==> r[i] == ns[i].name
  {
    if ns == [] then [] else Names(ns[..|ns| - 1]) + [ns[|ns| - 1].name]
  }

  /** The number of neighbour entries over the nodes `ns`: the edges of
      the graph they draw. */
  ghost function NeighbourCount(ns: seq<Node>): nat
    reads set n | n in ns
  {
    if ns == [] then 0 else NeighbourCount(ns[..|ns| - 1]) + |ns[|ns| - 1].neighbours|
  }

  /** Each node's name mapped to the names of its neighbours (a later node
      wins a shared name). */
  ghost function Spell(ns: seq<Node>): map<string, seq<string>>
    reads ns
  {
    if ns == [] then map[]
    else Spell(ns[..|ns| - 1])[ns[|ns| - 1].name := Names(ns[|ns| - 1].neighbours)]
  }

  /** No node of `ns` carries search marks: `visited` and `children` are
      both absent. */
  ghost predicate Unmarked(ns: seq<Node>)
    reads ns
  {
    ns == [] || (Unmarked(ns[..|ns| - 1]) && !ns[|ns| - 1].visited && ns[|ns| - 1].children.None?)
  }

  /** The names spelled by `Spell` are those of the nodes. */
  lemma {:induction false} SpellKeys(ns: seq<Node>)
    ensures forall k :: k in Spell(ns) <==> k in Names(ns)
  {
    if ns != [] {
      SpellKeys(ns[..|ns| - 1]);
      assert Names(ns) == Names(ns[..|ns| - 1]) + [ns[|ns| - 1].name];
    }
  }

  /** With unique names, `Spell` holds each node's own neighbours. */
  lemma {:induction false} SpellAt(ns: seq<Node>, i: nat)
    requires i < |ns| && UniqueNames(ns)
    ensures ns[i].name in Spell(ns) && Spell(ns)[ns[i].name] == Names(ns[i].neighbours)
  {
    var init := ns[..|ns| - 1];
    if i < |ns| - 1 {
      assert init[i] == ns[i];
      SpellAt(init, i);
      assert Names(init)[i] == ns[i].name;
    }
  }

  /** Unmarked nodes, one by one. */
  lemma {:induction false} UnmarkedAt(ns: seq<Node>, i: nat)
    requires Unmarked(ns) && i < |ns|
    ensures !ns[i].visited && ns[i].children.None?
  {
    if i < |ns| - 1 {
      assert ns[..|ns| - 1][i] == ns[i];
      UnmarkedAt(ns[..|ns| - 1], i);
    }
  }

  /** No two nodes of `ns` share a name. */
  predicate UniqueNames(ns: seq<Node>) {
    ns == [] || (UniqueNames(ns[..|ns| - 1]) && ns[|ns| - 1].name !in Names(ns[..|ns| - 1]))
  }

  /** Each node's name mapped to the node. */
  function Index(ns: seq<Node>): (r: map<string, Node>)
    ensures forall k :: k in r <==> k in Names(ns)
  {
    if ns == [] then map[] else Index(ns[..|ns| - 1])[ns[|ns| - 1].name := ns[|ns| - 1]]
  }

  /** The named nodes are nodes of the sequence, under their names. */
  lemma {:induction false} IndexIn(ns: seq<Node>, k: string)
    requires k in Index(ns)
    ensures Index(ns)[k] in ns && Index(ns)[k].name == k
  {
    var init := ns[..|ns| - 1];
    if k != ns[|ns| - 1].name {
      IndexIn(init, k);
      assert Index(init)[k] in init;
    }
  }

  /** With unique names, each node is indexed under its own name. */
  lemma {:induction false} IndexAt(ns: seq<Node>, i: nat)
    requires UniqueNames(ns) && i < |ns|
    ensures ns[i].name in Index(ns) && Index(ns)[ns[i].name] == ns[i]
  {
    var init := ns[..|ns| - 1];
    if i < |ns| - 1 {
      assert init[i] == ns[i];
      IndexAt(init, i);
      assert Names(init)[i] == ns[i].name;
    }
  }

  /** Unique names are distinct names. */
  lemma {:induction false} UniqueNamesDistinct(ns: seq<Node>)
    requires UniqueNames(ns)
    ensures Distinct(Names(ns))
  {
    if ns != [] {
      var init := ns[..|ns| - 1];
      UniqueNamesDistinct(init);
      forall i, j | 0 <= i < j < |ns| ensures Names(ns)[i] != Names(ns)[j] {
        if j < |ns| - 1 {
          assert Names(ns)[i] == Names(init)[i] && Names(ns)[j] == Names(init)[j];
        } else {
          assert Names(init)[i] == Names(ns)[i];
        }
      }
    }
  }

  /** Nodes with unique names are distinct nodes. */
  lemma UniqueNodes(ns: seq<Node>)
    requires UniqueNames(ns)
    ensures Distinct(ns)
  {
    UniqueNamesDistinct(ns);
    forall i, j | 0 <= i < j < |ns| ensures ns[i] != ns[j] {
      assert Names(ns)[i] != Names(ns)[j];
    }
  }

  /** With unique names, no other node is the `i`th one. */
  lemma UniqueNodeAt(ns: seq<Node>, i: nat)
    requires UniqueNames(ns) && i < |ns|
    ensures forall j :: 0 <= j < |ns| && j != i ==> ns[j] != ns[i]
  {
    UniqueNodes(ns);
  }

  /** Deleting the node at `i` (`list.splice(i, 1)` with `delete
      nodes[name]`) keeps the names unique and the index exact. */
  lemma {:induction false} RemoveAtIndex(ns: seq<Node>, i: nat)
    requires UniqueNames(ns) && i < |ns|
    ensures UniqueNames(ns[..i] + ns[i + 1..])
    ensures Index(ns[..i] + ns[i + 1..]) == Index(ns) - {ns[i].name}
  {
    var init, last := ns[..|ns| - 1], ns[|ns| - 1];
    var r := ns[..i] + ns[i + 1..];
    if i == |ns| - 1 {
      assert r == init;
      RemoveUpdate(Index(init), last.name, last);
    } else {
      var r0 := init[..i] + init[i + 1..];
      assert r[..|r| - 1] == r0 && r[|r| - 1] == last by {
        assert init[..i] == ns[..i];
        assert init[i + 1..] + [last] == ns[i + 1..];
      }
      assert init[i] == ns[i];
      RemoveAtIndex(init, i);
      assert Names(init)[i] == ns[i].name;
      UpdateRemove(Index(init), last.name, last, ns[i].name);
    }
  }

  lemma RemoveUpdate<K, V>(m: map<K, V>, k: K, v: V)
    requires k !in m
    ensures m[k := v] - {k} == m
  {
  }

  lemma UpdateRemove<K, V>(m: map<K, V>, k: K, v: V, x: K)
    requires k != x
    ensures (m - {x})[k := v] == m[k := v] - {x}
  {
  }

  /** After the neighbours of `ns[i]` change, `Spell` changes at that
      node's name only. */
  twostate lemma {:induction false} SpellPush(ns: seq<Node>, new i: nat)
    requires i < |ns| && UniqueNames(ns)
    requires forall m :: m in ns && m != ns[i] ==> unchanged(m)
    ensures ns[i].name in old(Spell(ns)) && old(Spell(ns))[ns[i].name] == Names(old(ns[i].neighbours))
    ensures Spell(ns) == old(Spell(ns))[ns[i].name := Names(ns[i].neighbours)]
  {
    var u := ns[i];
    var init := ns[..|ns| - 1];
    var last := ns[|ns| - 1];
    var n, n0 := Names(u.neighbours), Names(old(u.neighbours));
    assert Spell(ns) == Spell(init)[last.name := Names(last.neighbours)];
    assert old(Spell(ns)) == old(Spell(init))[last.name := Names(old(last.neighbours))];
    if i == |ns| - 1 {
      forall m | m in init ensures unchanged(m) {
        var j :| 0 <= j < |init| && init[j] == m;
        assert Names(init)[j] == m.name;
        assert m in ns;
      }
      SpellFrame(init);
      UpdateTwice(old(Spell(init)), u.name, n0, n);
    } else {
      assert init[i] == u && Names(init)[i] == u.name;
      assert last in ns && unchanged(last);
      forall m | m in init && m != init[i] ensures unchanged(m) {
        assert m in ns;
      }
      SpellPush(init, i);
      UpdateSwap(old(Spell(init)), u.name, n, last.name, Names(last.neighbours));
    }
  }

  lemma UpdateSame<K, V>(m: map<K, V>, k: K)
    requires k in m
    ensures m[k := m[k]] == m
  {
  }

  lemma UpdateTwice<K, V>(m: map<K, V>, k: K, a: V, b: V)
    ensures m[k := a][k := b] == m[k := b]
  {
  }

  lemma UpdateSwap<K, V>(m: map<K, V>, k1: K, a: V, k2: K, b: V)
    requires k1 != k2
    ensures m[k1 := a][k2 := b] == m[k2 := b][k1 := a]
  {
  }

  /** `Spell` of nodes none of which changed. */
  twostate lemma {:induction false} SpellFrame(ns: seq<Node>)
    requires forall m :: m in ns ==> unchanged(m)
    ensures Spell(ns) == old(Spell(ns))
  {
    if ns != [] {
      var init := ns[..|ns| - 1];
      var last: Node := ns[|ns| - 1];
      forall m: Node | m in init ensures unchanged(m) {
        assert m in ns;
      }
      SpellFrame(init);
      assert last in ns && unchanged(last);
      assert old(Spell(ns)) == old(Spell(init))[last.name := Names(old(last.neighbours))];
    }
  }

  /** Search marks of nodes whose marks did not change. */
  twostate lemma {:induction false} UnmarkedFrame(ns: seq<Node>)
    requires forall m :: m in ns ==> unchanged(m`visited, m`children)
    ensures Unmarked(ns) == old(Unmarked(ns))
  {
    if ns != [] {
      var init := ns[..|ns| - 1];
      var last: Node := ns[|ns| - 1];
      forall m: Node | m in init ensures unchanged(m`visited, m`children) {
        assert m in ns;
      }
      UnmarkedFrame(init);
      assert last in ns && unchanged(last`visited, last`children);
      assert old(Unmarked(ns)) == (old(Unmarked(init)) && !old(last.visited) && old(last.children).None?);
    }
  }

  /** The node table: `nodes.list` and the properties `nodes[name]`. */
  class Nodes {
    var list: seq<Node>
    var byName: map<string, Node>

    /** No two listed nodes share a name, and `nodes[name]` is the listed
        node of that name. */
    ghost predicate Valid()
      reads this
    {
      UniqueNames(list) && byName == Index(list)
    }

    /** Every neighbour of a listed node is listed. */
    ghost predicate Closed()
      reads this, list
    {
      forall n, o {:trigger o in n.neighbours, n in list} :: n in list && o in n.neighbours ==> o in list
    }

    /** `{list: []}` */
    constructor ()
      ensures Valid() && list == [] && byName == map[]
    {
      list := [];
      byName := map[];
    }

    /** The table stands for the graph `g`, as `build_nodes` leaves it: its
        list spells `g`'s order, its nodes' neighbours spell `g`'s
        adjacency lists, and no node carries search marks
        (`RepresentsMeans` states it node by node). */
    ghost predicate Represents(g: Graph)
      reads this, list
    {
      && Valid()
      && Closed()
      && Names(list) == g.order
      && Spell(list) == g.adj
      && Unmarked(list)
    }

    /** A table standing for `g` has one node per vertex of `g`, each
        node's neighbours are the vertex's adjacency list, no node is
        marked, and `g` is well formed. */
    lemma RepresentsMeans(g: Graph)
      requires Represents(g)
      ensures WellFormed(g)
      ensures forall k :: k in byName <==> k in g.adj
      ensures forall n :: n in list ==>
        n.name in g.adj && g.adj[n.name] == Names(n.neighbours) && !n.visited && n.children.None?
    {
      UniqueNamesDistinct(list);
      SpellKeys(list);
      forall n | n in list
        ensures n.name in g.adj && g.adj[n.name] == Names(n.neighbours) && !n.visited && n.children.None?
      {
        var i :| 0 <= i < |list| && list[i] == n;
        SpellAt(list, i);
        UnmarkedAt(list, i);
      }
      forall k | k in g.adj ensures k in byName {
        var i :| 0 <= i < |list| && Names(list)[i] == k;
        assert list[i] in list;
      }
      forall u, v | u in g.adj && v in g.adj[u] ensures v in g.adj {
        var i :| 0 <= i < |list| && Names(list)[i] == u;
        var n := list[i];
        assert n in list;
        var j :| 0 <= j < |n.neighbours| && Names(n.neighbours)[j] == v;
        assert n.neighbours[j] in n.neighbours;
      }
    }

    /** `nodes.get(n)`: the node named `n`, made and appended the first
        time the name is asked for.  A table standing for `g` then stands
        for `Intern(g, n)`. */
    method Get(n: string, ghost g: Graph) returns (node: Node)
      requires Valid()
      modifies this
      ensures Valid() && node.name == n && node in list && n in byName && byName[n] == node
      ensures n in old(byName) ==> node == old(byName[n]) && list == old(list) && byName == old(byName)
      ensures n !in old(byName) ==> fresh(node) && list == old(list) + [node] && byName == old(byName)[n := node]
      ensures n !in old(byName) ==> node.neighbours == [] && !node.visited && node.children == None
      ensures old(Represents(g)) ==> Represents(Intern(g, n))
    {
      if n in byName {
        IndexIn(list, n);
        node := byName[n];
      } else {
        node := new Node(n);
        ghost var ns := list;
        byName := byName[n := node];
        list := list + [node];
        assert list[..|list| - 1] == ns;
      }
      GetStep(this, n, node, g);
    }

    /** The name of a listed node is a vertex of the graph the table
        stands for. */
    lemma Listed(g: Graph, u: Node)
      requires Represents(g) && u in list
      ensures u.name in g.adj
    {
      var i :| 0 <= i < |list| && list[i] == u;
      assert Names(list)[i] == u.name;
      SpellKeys(list);
    }

    /** `nodes.list.splice(i, 1)` with `delete nodes[name]` for the node
        at `i`: the others stay, in order, and the index stays exact. */
    method RemoveAt(i: nat)
      requires Valid() && i < |list|
      modifies this
      ensures Valid() && list == old(list[..i] + list[i + 1..])
    {
      RemoveAtIndex(list, i);
      byName := byName - {list[i].name};
      list := list[..i] + list[i + 1..];
    }

    /** `node.neighbours.push(o)` for listed nodes `u` and `o`: the table
        then stands for `h` with `o`'s name appended to `u`'s list. */
    method Push(u: Node, o: Node, ghost h: Graph)
      requires Represents(h) && u in list && o in list
      modifies u
      ensures u.name in h.adj && Represents(Graph(h.order, h.adj[u.name := h.adj[u.name] + [o.name]]))
      ensures u.neighbours == old(u.neighbours) + [o]
    {
      ghost var i :| 0 <= i < |list| && list[i] == u;
      ghost var j :| 0 <= j < |list| && list[j] == o;
      label pushed:
      u.neighbours := u.neighbours + [o];
      PushStep@pushed(this, i, j, h);
    }

    /** `node.neighbours.push(nodes.get(v))`: a table standing for `g`
        then stands for `AddEdge(g, u.name, v)`. */
    method Link(u: Node, v: string, ghost g: Graph)
      requires Represents(g) && u in list
      modifies this, u
      ensures u.name in g.adj && Represents(AddEdge(g, u.name, v)) && u in list
      ensures forall n :: n in list ==> n in old(list) || fresh(n)
    {
      Listed(g, u);
      var o := Get(v, g);
      ghost var h := Intern(g, v);
      assert AddEdge(g, u.name, v) == Graph(h.order, h.adj[u.name := h.adj[u.name] + [o.name]]);
      Push(u, o, h);
    }

    /** `opts.forEach(o => node.neighbours.push(nodes.get(o)))` */
    method LinkAll(u: Node, opts: seq<string>, ghost g: Graph)
      requires Represents(g) && u in list
      modifies this, u
      ensures u.name in g.adj && Represents(AddEdges(g, u.name, opts))
      ensures forall n :: n in list ==> n in old(list) || fresh(n)
    {
      Listed(g, u);
      assert opts[..0] == [];
      ghost var cur := g;
      for q := 0 to |opts|
        invariant u.name in g.adj && cur == AddEdges(g, u.name, opts[..q])
        invariant Represents(cur) && u in list
        invariant forall n :: n in list ==> n in old(list) || fresh(n)
      {
        assert opts[..q + 1][..q] == opts[..q];
        Link(u, opts[q], cur);
        cur := AddEdge(cur, u.name, opts[q]);
      }
      assert opts[..|opts|] == opts;
    }

    /** One constraint `c` of the subject `code`: `nodes.get(code)`, then,
        for a `SUBJECTS` constraint with a quantity that is not negative,
        a link to each option. */
    method Constrain(code: string, c: PM.Constraint, ghost g: Graph)
      requires Represents(g)
      modifies this, set n | n in list
      ensures Represents(AddConstraint(g, code, c))
      ensures forall n :: n in list ==> n in old(list) || fresh(n)
    {
      var node := Get(code, g);
      ghost var h := Intern(g, code);
      assert forall n :: n in list ==> n in old(list) || fresh(n);
      if c.Subjects? && c.qty >= 0 {
        LinkAll(node, c.codes, h);
      } else {
        assert AddConstraint(g, code, c) == h;
      }
    }

    /** `s.constraints.forEach(...)` for the record `s`. */
    method AddRecord(s: Record, ghost g: Graph)
      requires Represents(g)
      modifies this, set n | n in list
      ensures Represents(AddConstraints(g, s.code, s.constraints))
      ensures forall n :: n in list ==> n in old(list) || fresh(n)
    {
      ghost var cur := g;
      for m := 0 to |s.constraints|
        invariant cur == AddConstraints(g, s.code, s.constraints[..m]) && Represents(cur)
        invariant forall n :: n in list ==> n in old(list) || fresh(n)
      {
        assert s.constraints[..m + 1][..m] == s.constraints[..m];
        Constrain(s.code, s.constraints[m], cur);
        cur := AddConstraint(cur, s.code, s.constraints[m]);
      }
      assert s.constraints[..|s.constraints|] == s.constraints;
    }
  }

  /** What `nodes.get(n)` did, seen from before and after the call. */
  twostate predicate Got(nodes: Nodes, n: string, new node: Node)
    reads nodes, node
  {
    && nodes.Valid() && node.name == n && node in nodes.list
    && (n in old(nodes.byName) ==> node == old(nodes.byName[n]) && nodes.list == old(nodes.list))
    && (n !in old(nodes.byName) ==>
          nodes.list == old(nodes.list) + [node] && node !in old(nodes.list)
          && node.neighbours == [] && !node.visited && node.children.None?)
  }

  /** After `nodes.get(n)` a table that stood for `g` stands for
      `Intern(g, n)`. */
  twostate lemma GetStep(nodes: Nodes, new n: string, new node: Node, new g: Graph)
    requires Got(nodes, n, node)
    requires forall m :: m in old(nodes.list) ==> unchanged(m)
    ensures old(nodes.Represents(g)) ==> nodes.Represents(Intern(g, n))
  {
    if old(nodes.Represents(g)) {
      var ns := old(nodes.list);
      SpellFrame(ns);
      UnmarkedFrame(ns);
      SpellKeys(ns);
      if n in old(nodes.byName) {
        assert n in g.adj by {
          assert n in Names(ns);
        }
        assert nodes.Closed() by {
          forall m, o | m in nodes.list && o in m.neighbours
            ensures o in nodes.list
          {
            assert o in old(m.neighbours);
          }
        }
      } else {
        assert nodes.list[..|nodes.list| - 1] == ns;
        assert n !in g.adj by {
          assert n !in Names(ns);
        }
        assert Names(nodes.list) == Names(ns) + [n];
        assert nodes.Closed() by {
          forall m, o | m in nodes.list && o in m.neighbours
            ensures o in nodes.list
          {
            assert m in ns;
          }
        }
      }
    }
  }

  /** After `u.neighbours.push(o)`, for `u` and `o` the `i`th and `j`th
      listed nodes, a table that stood for `h` stands for `h` with `o`'s
      name appended to `u`'s adjacency list. */
  twostate lemma PushStep(nodes: Nodes, new i: nat, new j: nat, new h: Graph)
    requires old(nodes.Represents(h)) && unchanged(nodes)
    requires i < |nodes.list| && j < |nodes.list|
    requires nodes.list[i].neighbours == old(nodes.list[i].neighbours) + [nodes.list[j]]
    requires forall m: Node :: m in nodes.list ==> unchanged(m`visited, m`children)
    requires forall m :: m in nodes.list && m != nodes.list[i] ==> unchanged(m)
    ensures nodes.list[i].name in h.adj
    ensures nodes.Represents(Graph(h.order, h.adj[nodes.list[i].name := h.adj[nodes.list[i].name] + [nodes.list[j].name]]))
  {
    var ns := nodes.list;
    var u, o := ns[i], ns[j];
    assert u in ns;
    SpellPush(ns, i);
    UnmarkedFrame(ns);
    assert Names(u.neighbours) == Names(old(u.neighbours)) + [o.name];
    assert nodes.Closed() by {
      forall m, x | m in ns && x in m.neighbours
        ensures x in ns
      {
        if m != u {
          assert x in old(m.neighbours);
        } else if x != o {
          assert x in old(u.neighbours);
        }
      }
    }
  }

  /** `build_nodes(json)`: the table it returns stands for `GraphOf(json)`. */
  method BuildNodes(json: seq<Record>) returns (nodes: Nodes)
    ensures fresh(nodes) && nodes.Represents(GraphOf(json))
    ensures forall n :: n in nodes.list ==> fresh(n)
  {
    nodes := new Nodes();
    ghost var cur := Empty;
    for k := 0 to |json|
      invariant cur == GraphOf(json[..k])
      invariant fresh(nodes) && nodes.Represents(cur)
      invariant forall n :: n in nodes.list ==> fresh(n)
    {
      assert json[..k + 1][..k] == json[..k];
      nodes.AddRecord(json[k], cur);
      cur := AddConstraints(cur, json[k].code, json[k].constraints);
    }
    assert json[..|json|] == json;
  }
}
