/**
 * Topology analysis for the visualisation export: directed peer edges, the
 * symmetric adjacency built from them, connected components by depth-first
 * search, the cluster of a node, per-cluster metadata, and the integer grid
 * that places the islands (every component but the largest).
 *
 * Go's map iteration order is unspecified; loops over map keys pick the next
 * key with an arbitrary choice, so every property proved here holds for any
 * iteration order.
 */
module Topology {
  import opened Wrappers
  import opened Transport
  import Gossip

  datatype Edge = Edge(from: int, to: int)

  datatype ClusterInfo = ClusterInfo(id: int, nodeIds: seq<int>, size: int, isIsolated: bool)

  datatype NodeInfo = NodeInfo(id: int, addr: string, clusterId: int)

  datatype NetworkTopology = NetworkTopology(nodes: seq<NodeInfo>, edges: seq<Edge>, clusters: seq<ClusterInfo>)

  /** A map lookup that yields the empty list for a missing key, as Go's does. */
  function Get(m: map<int, seq<int>>, k: int): seq<int>
  {
    if k in m then m[k] else []
  }

  ghost predicate NoDup(s: seq<int>)
  {
    forall i, j :: 0 <= i < j < |s| ==> s[i] != s[j]
  }

  lemma NoDupAppend(a: seq<int>, b: seq<int>)
    requires NoDup(a) && NoDup(b)
    requires forall x :: x in a ==> x !in b
    ensures NoDup(a + b)
  {
    var s := a + b;
    forall i, j | 0 <= i < j < |s|
      ensures s[i] != s[j]
    {
      if j >= |a| && i < |a| {
        assert s[i] in a && s[j] == b[j - |a|];
      } else if i >= |a| {
        assert s[i] == b[i - |a|] && s[j] == b[j - |a|];
      }
    }
  }

  lemma NonEmptyHasElement(s: set<int>)
    requires s != {}
    ensures exists x :: x in s
  {
    if forall x :: x !in s {
      assert false;
    }
  }

  // ---------------------------------------------------------------------------
  // Edges and the connection lists

  /**
   * The edges from the first j peer ports of node id: one per port that maps
   * to a node index in [0, n), in peer order.
   */
  function NodeEdges(id: int, ports: seq<int>, j: nat, n: int): seq<Edge>
    requires j <= |ports|
  {
    if j == 0 then []
    else
      var peerID := ports[j - 1] - Gossip.BASE_PORT;
      NodeEdges(id, ports, j - 1, n) + (if 0 <= peerID < n then [Edge(id, peerID)] else [])
  }

  /** The edges of the first k nodes, node by node; ids[a] is the ID and ports[a] the peer ports of node a. */
  function AllEdges(ids: seq<int>, ports: seq<seq<int>>, k: nat, n: int): seq<Edge>
    requires |ids| == |ports| && k <= |ids|
  {
    if k == 0 then []
    else AllEdges(ids, ports, k - 1, n) + NodeEdges(ids[k - 1], ports[k - 1], |ports[k - 1]|, n)
  }

  /** An edge of node id exists exactly for a peer port that maps into [0, n). */
  lemma {:induction false} NodeEdgesExact(id: int, ports: seq<int>, j: nat, n: int, e: Edge)
    requires j <= |ports|
    ensures e in NodeEdges(id, ports, j, n) <==>
      e.from == id && 0 <= e.to < n && exists b :: 0 <= b < j && ports[b] - Gossip.BASE_PORT == e.to
  {
    if j > 0 {
      NodeEdgesExact(id, ports, j - 1, n, e);
    }
  }

  /**
   * The edge list holds Edge(u, v) exactly when some node with ID u has a
   * peer whose port maps to the node index v in [0, n).
   */
  lemma {:induction false} AllEdgesExact(ids: seq<int>, ports: seq<seq<int>>, k: nat, n: int, e: Edge)
    requires |ids| == |ports| && k <= |ids|
    ensures e in AllEdges(ids, ports, k, n) <==>
      0 <= e.to < n && exists a, b :: 0 <= a < k && 0 <= b < |ports[a]| && ids[a] == e.from && ports[a][b] - Gossip.BASE_PORT == e.to
  {
    if k > 0 {
      AllEdgesExact(ids, ports, k - 1, n, e);
      NodeEdgesExact(ids[k - 1], ports[k - 1], |ports[k - 1]|, n, e);
    }
  }

  /**
   * conns lists, for every node, the nodes it has an edge to or from; the
   * keys are the node indices 0..n-1 and node IDs.
   */
  ghost predicate ConnectionsOf(conns: map<int, seq<int>>, edges: seq<Edge>, n: int, ids: seq<int>)
  {
    && (forall k :: 0 <= k < n ==> k in conns)
    && (forall u :: u in conns ==> 0 <= u < n || u in ids)
    && (forall u, v :: v in Get(conns, u) ==> Edge(u, v) in edges || Edge(v, u) in edges)
    && (forall e :: e in edges ==> e.to in Get(conns, e.from) && e.from in Get(conns, e.to))
  }

  /** Records u -> v at both ends. */
  function Connect(conns: map<int, seq<int>>, u: int, v: int): map<int, seq<int>>
  {
    var c := conns[u := Get(conns, u) + [v]];
    c[v := Get(c, v) + [u]]
  }

  lemma ConnectStep(conns: map<int, seq<int>>, edges: seq<Edge>, n: int, ids: seq<int>, u: int, v: int)
    requires ConnectionsOf(conns, edges, n, ids)
    requires u in ids && 0 <= v < n
    ensures ConnectionsOf(Connect(conns, u, v), edges + [Edge(u, v)], n, ids)
  {
    ConnectSound(conns, edges, u, v);
    ConnectComplete(conns, edges, u, v);
  }

  /** Every listed neighbour after Connect comes from an edge, old or new. */
  lemma ConnectSound(conns: map<int, seq<int>>, edges: seq<Edge>, u: int, v: int)
    requires forall a, b :: b in Get(conns, a) ==> Edge(a, b) in edges || Edge(b, a) in edges
    ensures forall a, b :: b in Get(Connect(conns, u, v), a) ==>
      Edge(a, b) in edges + [Edge(u, v)] || Edge(b, a) in edges + [Edge(u, v)]
  {
    var c := Connect(conns, u, v);
    var es := edges + [Edge(u, v)];
    forall a, b | b in Get(c, a)
      ensures Edge(a, b) in es || Edge(b, a) in es
    {
      assert b in Get(conns, a) || (a == u && b == v) || (a == v && b == u);
    }
  }

  /** Every edge, old or new, is listed at both ends after Connect. */
  lemma ConnectComplete(conns: map<int, seq<int>>, edges: seq<Edge>, u: int, v: int)
    requires forall e :: e in edges ==> e.to in Get(conns, e.from) && e.from in Get(conns, e.to)
    ensures forall e :: e in edges + [Edge(u, v)] ==>
      e.to in Get(Connect(conns, u, v), e.from) && e.from in Get(Connect(conns, u, v), e.to)
  {
    assert forall e :: e in edges + [Edge(u, v)] <==> e in edges || e == Edge(u, v);
  }

  /** base with every edge of edges recorded at both ends, in edge order. */
  function ConnectAll(base: map<int, seq<int>>, edges: seq<Edge>): map<int, seq<int>>
    decreases |edges|
  {
    if edges == [] then base
    else
      var last := edges[|edges| - 1];
      Connect(ConnectAll(base, edges[..|edges| - 1]), last.from, last.to)
  }

  lemma ConnectAllAppend(base: map<int, seq<int>>, edges: seq<Edge>, conns: map<int, seq<int>>, u: int, v: int)
    requires conns == ConnectAll(base, edges)
    ensures Connect(conns, u, v) == ConnectAll(base, edges + [Edge(u, v)])
  {
    assert (edges + [Edge(u, v)])[..|edges|] == edges;
  }

  /**
   * Starting from an empty list for every node index, recording edges that
   * run from a node ID to a node index yields exactly the connection lists
   * of those edges.
   */
  lemma {:induction false} ConnectAllSpec(base: map<int, seq<int>>, edges: seq<Edge>, n: int, ids: seq<int>)
    requires ConnectionsOf(base, [], n, ids)
    requires forall e :: e in edges ==> e.from in ids && 0 <= e.to < n
    ensures ConnectionsOf(ConnectAll(base, edges), edges, n, ids)
    decreases |edges|
  {
    if edges != [] {
      var init, last := edges[..|edges| - 1], edges[|edges| - 1];
      assert edges == init + [last];
      assert last in edges;
      ConnectAllSpec(base, init, n, ids);
      ConnectStep(ConnectAll(base, init), init, n, ids, last.from, last.to);
    }
  }

  /** The in-range peers of one node, recorded as edges and in both connection lists. */
  method ConnectPeers(id: int, peers: seq<int>, n: int, edges: seq<Edge>, conns: map<int, seq<int>>,
                      ghost base: map<int, seq<int>>)
    returns (edges': seq<Edge>, conns': map<int, seq<int>>)
    requires conns == ConnectAll(base, edges)
    ensures edges' == edges + NodeEdges(id, peers, |peers|, n)
    ensures conns' == ConnectAll(base, edges')
  {
    edges', conns' := edges, conns;
    var j := 0;
    while j < |peers|
      invariant 0 <= j <= |peers|
      invariant edges' == edges + NodeEdges(id, peers, j, n)
      invariant conns' == ConnectAll(base, edges')
    {
      edges', conns' := ConnectPeer(id, peers, j, n, edges, edges', conns', base);
      j := j + 1;
    }
  }

  /** One peer port: an edge and both connection entries when it names a node in range. */
  method ConnectPeer(id: int, peers: seq<int>, j: nat, n: int, ghost edges: seq<Edge>, sofar: seq<Edge>,
                     conns: map<int, seq<int>>, ghost base: map<int, seq<int>>)
    returns (sofar': seq<Edge>, conns': map<int, seq<int>>)
    requires j < |peers| && sofar == edges + NodeEdges(id, peers, j, n)
    requires conns == ConnectAll(base, sofar)
    ensures sofar' == edges + NodeEdges(id, peers, j + 1, n)
    ensures conns' == ConnectAll(base, sofar')
  {
    var peerID := peers[j] - Gossip.BASE_PORT;
    NodeEdgesStep(id, peers, j, n, edges, sofar, peerID);
    sofar', conns' := sofar, conns;
    if 0 <= peerID < n {
      ConnectAllAppend(base, sofar, conns, id, peerID);
      sofar' := sofar + [Edge(id, peerID)];
      conns' := Connect(conns, id, peerID);
    }
  }

  lemma NodeEdgesStep(id: int, peers: seq<int>, j: nat, n: int, edges: seq<Edge>, sofar: seq<Edge>, peerID: int)
    requires j < |peers| && sofar == edges + NodeEdges(id, peers, j, n)
    requires peerID == peers[j] - Gossip.BASE_PORT
    ensures 0 <= peerID < n ==> sofar + [Edge(id, peerID)] == edges + NodeEdges(id, peers, j + 1, n)
    ensures !(0 <= peerID < n) ==> sofar == edges + NodeEdges(id, peers, j + 1, n)
  {
  }

  /** Every node index with an empty list, and nothing else. */
  method EmptyConnections(n: int, ghost ids: seq<int>) returns (conns: map<int, seq<int>>)
    ensures ConnectionsOf(conns, [], n, ids)
  {
    conns := map[];
    var i := 0;
    while i < n
      invariant 0 <= i && (i <= n || i == 0)
      invariant forall k :: k in conns <==> 0 <= k < i
      invariant forall k :: k in conns ==> conns[k] == []
    {
      conns := conns[i := []];
      i := i + 1;
    }
  }

  /**
   * The edge list and the connection lists of generateTopology: an edge for
   * every peer that maps to a node index, recorded in both directions.
   */
  method BuildConnections(ids: seq<int>, ports: seq<seq<int>>) returns (edges: seq<Edge>, conns: map<int, seq<int>>)
    requires |ids| == |ports|
    ensures edges == AllEdges(ids, ports, |ids|, |ids|)
    ensures ConnectionsOf(conns, edges, |ids|, ids)
  {
    var n := |ids|;
    conns := EmptyConnections(n, ids);
    ghost var base := conns;
    edges := [];
    var k := 0;
    while k < n
      invariant 0 <= k <= n
      invariant edges == AllEdges(ids, ports, k, n)
      invariant conns == ConnectAll(base, edges)
    {
      edges, conns := ConnectPeers(ids[k], ports[k], n, edges, conns, base);
      assert edges == AllEdges(ids, ports, k + 1, n);
      k := k + 1;
    }
    forall e | e in edges
      ensures e.from in ids && 0 <= e.to < n
    {
      AllEdgesExact(ids, ports, n, n, e);
    }
    ConnectAllSpec(base, edges, n, ids);
  }

  /**
   * When node k has ID k, as the builder assigns them, every key and every
   * listed neighbour of the connection lists is a node ID.
   */
  lemma ConnectionsWithinIds(ids: seq<int>, ports: seq<seq<int>>, conns: map<int, seq<int>>)
    requires |ids| == |ports|
    requires forall k :: 0 <= k < |ids| ==> ids[k] == k
    requires ConnectionsOf(conns, AllEdges(ids, ports, |ids|, |ids|), |ids|, ids)
    ensures forall u :: u in conns ==> u in ids
    ensures forall u, v :: u in conns && v in conns[u] ==> v in ids
  {
    var n := |ids|;
    var edges := AllEdges(ids, ports, n, n);
    forall u | u in conns
      ensures u in ids
    {
      if 0 <= u < n {
        assert ids[u] == u;
      }
    }
    forall u, v | u in conns && v in conns[u]
      ensures v in ids
    {
      assert v in Get(conns, u);
      if Edge(u, v) in edges {
        AllEdgesExact(ids, ports, n, n, Edge(u, v));
        assert ids[v] == v;
      } else {
        AllEdgesExact(ids, ports, n, n, Edge(v, u));
      }
    }
  }

  // ---------------------------------------------------------------------------
  // Duplicate removal

  /** The list without repeats, each element kept at its first occurrence. */
  function Dedupe(s: seq<int>): (r: seq<int>)
    ensures NoDup(r)
    ensures forall x :: x in r <==> x in s
    decreases |s|
  {
    if s == [] then []
    else
      var p := Dedupe(s[..|s| - 1]);
      var x := s[|s| - 1];
      if x in p then p
      else
        NoDupAppend(p, [x]);
        p + [x]
  }

  /** The index of the first occurrence of x in s. */
  function FirstIndex(s: seq<int>, x: int): (i: nat)
    requires x in s
    ensures i < |s| && s[i] == x && forall j :: 0 <= j < i ==> s[j] != x
  {
    if s[0] == x then 0 else 1 + FirstIndex(s[1..], x)
  }

  lemma FirstIndexPrefix(s: seq<int>, t: seq<int>, x: int)
    requires x in s
    ensures x in s + t && FirstIndex(s + t, x) == FirstIndex(s, x)
  {
    var st := s + t;
    assert forall j :: 0 <= j < |s| ==> st[j] == s[j];
    assert st[FirstIndex(s, x)] == x;
  }

  /** Dedupe keeps the order of first occurrences. */
  lemma {:induction false} DedupeOrder(s: seq<int>)
    ensures forall i, j :: 0 <= i < j < |Dedupe(s)| ==>
      FirstIndex(s, Dedupe(s)[i]) < FirstIndex(s, Dedupe(s)[j])
    decreases |s|
  {
    if s != [] {
      var init := s[..|s| - 1];
      var x := s[|s| - 1];
      var p := Dedupe(init);
      DedupeOrder(init);
      assert s == init + [x];
      forall y | y in init
        ensures FirstIndex(s, y) == FirstIndex(init, y)
      {
        FirstIndexPrefix(init, [x], y);
      }
      var r := Dedupe(s);
      forall i, j | 0 <= i < j < |r|
        ensures FirstIndex(s, r[i]) < FirstIndex(s, r[j])
      {
        assert r[i] in init;
        if x !in p && j == |p| {
          assert r[j] == x && x !in init;
          assert FirstIndex(s, x) == |init|;
        } else {
          assert r[j] == p[j] && r[i] == p[i];
        }
      }
    }
  }

  method Dedup(s: seq<int>) returns (unique: seq<int>)
    ensures unique == Dedupe(s)
    ensures NoDup(unique) && forall x :: x in unique <==> x in s
  {
    var seen: set<int> := {};
    unique := [];
    var i := 0;
    while i < |s|
      invariant 0 <= i <= |s|
      invariant unique == Dedupe(s[..i])
      invariant forall x :: x in seen <==> x in unique
    {
      assert s[..i + 1][..i] == s[..i];
      if s[i] !in seen {
        seen := seen + {s[i]};
        unique := unique + [s[i]];
      }
      i := i + 1;
    }
    assert s[..i] == s;
  }

  /** Every connection list without repeats; the keys and the neighbour sets stay the same. */
  method DedupAll(conns: map<int, seq<int>>) returns (r: map<int, seq<int>>)
    ensures r.Keys == conns.Keys
    ensures forall u :: u in r ==> r[u] == Dedupe(conns[u])
    ensures forall u, v :: v in Get(r, u) <==> v in Get(conns, u)
  {
    r := conns;
    var todo := conns.Keys;
    while todo != {}
      invariant todo <= conns.Keys && r.Keys == conns.Keys
      invariant forall u :: u in r && u !in todo ==> r[u] == Dedupe(conns[u])
      invariant forall u :: u in todo ==> r[u] == conns[u]
      decreases |todo|
    {
      NonEmptyHasElement(todo);
      var nodeID :| nodeID in todo;
      var unique := Dedup(r[nodeID]);
      r := r[nodeID := unique];
      todo := todo - {nodeID};
    }
  }

  // ---------------------------------------------------------------------------
  // Connectivity

  /** u and v are joined by a connection recorded at either end. */
  ghost predicate Linked(conns: map<int, seq<int>>, u: int, v: int)
  {
    v in Get(conns, u) || u in Get(conns, v)
  }

  ghost predicate IsWalk(conns: map<int, seq<int>>, p: seq<int>)
  {
    |p| > 0 && forall i :: 0 <= i < |p| - 1 ==> Linked(conns, p[i], p[i + 1])
  }

  ghost predicate Connected(conns: map<int, seq<int>>, a: int, b: int)
  {
    exists p :: IsWalk(conns, p) && p[0] == a && p[|p| - 1] == b
  }

  lemma ConnectedRefl(conns: map<int, seq<int>>, a: int)
    ensures Connected(conns, a, a)
  {
    assert IsWalk(conns, [a]);
  }

  lemma ConnectedStep(conns: map<int, seq<int>>, a: int, w: int, x: int)
    requires Linked(conns, a, w) && Connected(conns, w, x)
    ensures Connected(conns, a, x)
  {
    var p :| IsWalk(conns, p) && p[0] == w && p[|p| - 1] == x;
    var q := [a] + p;
    assert forall i :: 1 <= i < |q| ==> q[i] == p[i - 1];
    assert IsWalk(conns, q);
  }

  /** A set closed under links that contains a contains everything connected to a. */
  lemma ClosedContainsConnected(conns: map<int, seq<int>>, s: set<int>, a: int, x: int)
    requires a in s
    requires forall u, v :: u in s && Linked(conns, u, v) ==> v in s
    requires Connected(conns, a, x)
    ensures x in s
  {
    var p :| IsWalk(conns, p) && p[0] == a && p[|p| - 1] == x;
    var i := 0;
    while i < |p| - 1
      invariant 0 <= i <= |p| - 1
      invariant p[i] in s
    {
      assert Linked(conns, p[i], p[i + 1]);
      i := i + 1;
    }
  }

  /** A connected component, listed from its first node, without repeats. */
  ghost predicate IsComponent(conns: map<int, seq<int>>, c: seq<int>)
  {
    && |c| > 0
    && NoDup(c)
    && forall x :: x in c <==> Connected(conns, c[0], x)
  }

  ghost predicate Covered(clusters: seq<seq<int>>, x: int)
  {
    exists k :: 0 <= k < |clusters| && x in clusters[k]
  }

  ghost predicate PairwiseDisjoint(clusters: seq<seq<int>>)
  {
    forall k1, k2, x :: 0 <= k1 < k2 < |clusters| && x in clusters[k1] ==> x !in clusters[k2]
  }

  /**
   * Cluster k starts at nodeIds[roots[k]]: the first node ID that no earlier
   * cluster covers.
   */
  ghost predicate RootOrder(clusters: seq<seq<int>>, nodeIds: seq<int>, roots: seq<int>)
  {
    && |roots| == |clusters|
    && (forall k :: 0 <= k < |roots| ==> 0 <= roots[k] < |nodeIds|)
    && (forall k1, k2 :: 0 <= k1 < k2 < |roots| ==> roots[k1] < roots[k2])
    && (forall k :: 0 <= k < |clusters| ==> |clusters[k]| > 0 && clusters[k][0] == nodeIds[roots[k]])
    && (forall k :: 0 <= k < |clusters| ==> !Covered(clusters[..k], nodeIds[roots[k]]))
    && (forall k, j :: 0 <= k < |clusters| && 0 <= j < roots[k] ==> Covered(clusters[..k], nodeIds[j]))
  }

  lemma WalkStart(conns: map<int, seq<int>>, p: seq<int>)
    requires IsWalk(conns, p) && |p| > 1
    ensures Linked(conns, p[0], p[1])
  {
  }

  lemma SecondElement(c: seq<int>)
    requires |c| > 1
    ensures c[1] in c
  {
  }

  /** A node without any link is a component on its own. */
  lemma IsolatedSingleton(conns: map<int, seq<int>>, c: seq<int>)
    requires IsComponent(conns, c)
    requires forall v :: !Linked(conns, c[0], v)
    ensures c == [c[0]]
  {
    forall x | x in c
      ensures x == c[0]
    {
      var p :| IsWalk(conns, p) && p[0] == c[0] && p[|p| - 1] == x;
      if |p| > 1 {
        WalkStart(conns, p);
        assert false;
      }
    }
    if |c| > 1 {
      SecondElement(c);
      assert false;
    }
  }

  /** Every node connected to a vertex of the graph is a key or a listed neighbour of it. */
  lemma ConnectedStaysInGraph(conns: map<int, seq<int>>, vertices: set<int>, a: int, x: int)
    requires a in vertices
    requires forall u :: u in conns ==> u in vertices
    requires forall u, v :: u in conns && v in conns[u] ==> v in vertices
    requires Connected(conns, a, x)
    ensures x in vertices
  {
    forall u, v | u in vertices && Linked(conns, u, v)
      ensures v in vertices
    {
      if v in Get(conns, u) {
        assert u in conns;
      } else {
        assert v in conns;
      }
    }
    ClosedContainsConnected(conns, vertices, a, x);
  }

  // ---------------------------------------------------------------------------
  // Depth-first search

  ghost predicate NeighborsIn(adj: map<int, seq<int>>, x: int, s: set<int>)
  {
    forall v :: v in Get(adj, x) ==> v in s
  }

  /** Every node of s outside excl has all its neighbours in s. */
  ghost predicate ClosedOutside(adj: map<int, seq<int>>, s: set<int>, excl: set<int>)
  {
    forall x :: x in s && x !in excl ==> NeighborsIn(adj, x, s)
  }

  /** Every listed neighbour is itself a key. */
  ghost predicate ClosedAdjacency(adj: map<int, seq<int>>)
  {
    forall u, v :: u in adj && v in adj[u] ==> v in adj
  }

  /** adj lists exactly the links of conns. */
  ghost predicate SameLinks(adj: map<int, seq<int>>, conns: map<int, seq<int>>)
  {
    forall u, v :: v in Get(adj, u) <==> Linked(conns, u, v)
  }

  /** added lists, once each, the nodes of after that are not in before. */
  ghost predicate Discovered(added: seq<int>, before: set<int>, after: set<int>)
  {
    NoDup(added) && forall x :: x in added <==> x in after && x !in before
  }

  /** Everything in after but not in before is connected to a. */
  ghost predicate ReachedFrom(conns: map<int, seq<int>>, a: int, before: set<int>, after: set<int>)
  {
    forall x :: x in after && x !in before ==> Connected(conns, a, x)
  }

  lemma ProperSubsetSmaller(a: set<int>, b: set<int>, x: int)
    requires a <= b && x in b && x !in a
    ensures |a| < |b|
  {
    var rest := b - a - {x};
    assert b == a + rest + {x};
    assert a * rest == {} && (a + rest) * {x} == {};
  }

  lemma DiscoveredAppend(n: nat, mid: seq<int>, full: seq<int>, a: set<int>, b: set<int>, c: set<int>)
    requires n < |mid| <= |full| && full[..|mid|] == mid
    requires a <= b <= c
    requires Discovered(mid[n..], a, b) && Discovered(full[|mid|..], b, c)
    ensures full[..n] == mid[..n] && full[n] == mid[n]
    ensures Discovered(full[n..], a, c)
  {
    assert full[..n] == full[..|mid|][..n];
    assert full[n] == full[..|mid|][n];
    assert full[n..] == mid[n..] + full[|mid|..];
    NoDupAppend(mid[n..], full[|mid|..]);
  }

  lemma ReachedStep(conns: map<int, seq<int>>, a: int, w: int, s0: set<int>, s1: set<int>, s2: set<int>)
    requires s0 <= s1 <= s2
    requires Linked(conns, a, w)
    requires ReachedFrom(conns, a, s0, s1) && ReachedFrom(conns, w, s1, s2)
    ensures ReachedFrom(conns, a, s0, s2)
  {
    forall x | x in s2 && x !in s0
      ensures Connected(conns, a, x)
    {
      if x !in s1 {
        ConnectedStep(conns, a, w, x);
      }
    }
  }

  lemma NeighborsVisited(neighbors: seq<int>, i: int, before: set<int>, after: set<int>)
    requires 0 <= i < |neighbors| && before <= after && neighbors[i] in after
    requires forall j :: 0 <= j < i ==> neighbors[j] in before
    ensures forall j :: 0 <= j < i + 1 ==> neighbors[j] in after
  {
  }

  /**
   * The recursive visit: marks nodeID and, through its neighbours, every
   * node reachable without passing a visited one; appends them to component
   * in visiting order. open holds the nodes whose visits are still running.
   */
  method Dfs(adj: map<int, seq<int>>, nodeID: int, visited: set<int>, component: seq<int>,
             ghost conns: map<int, seq<int>>, ghost open: set<int>)
    returns (visited': set<int>, component': seq<int>)
    requires ClosedAdjacency(adj) && SameLinks(adj, conns)
    requires nodeID in adj && visited <= adj.Keys && open <= visited
    requires ClosedOutside(adj, visited, open)
    ensures visited <= visited' <= adj.Keys && nodeID in visited'
    ensures ClosedOutside(adj, visited', open)
    ensures |component| <= |component'| && component'[..|component|] == component
    ensures Discovered(component'[|component|..], visited, visited')
    ensures nodeID in visited ==> visited' == visited && component' == component
    ensures nodeID !in visited ==> |component'| > |component| && component'[|component|] == nodeID
    ensures ReachedFrom(conns, nodeID, visited, visited')
    decreases |adj.Keys - visited|
  {
    if nodeID in visited {
      return visited, component;
    }
    visited' := visited + {nodeID};
    component' := component + [nodeID];
    ConnectedRefl(conns, nodeID);
    assert component'[|component|..] == [nodeID];
    var neighbors := Get(adj, nodeID);
    var i := 0;
    while i < |neighbors|
      invariant 0 <= i <= |neighbors|
      invariant visited + {nodeID} <= visited' <= adj.Keys
      invariant ClosedOutside(adj, visited', open + {nodeID})
      invariant forall j :: 0 <= j < i ==> neighbors[j] in visited'
      invariant |component| < |component'| && component'[..|component|] == component
      invariant component'[|component|] == nodeID
      invariant Discovered(component'[|component|..], visited, visited')
      invariant ReachedFrom(conns, nodeID, visited, visited')
    {
      ghost var visBefore := visited';
      ghost var compBefore := component';
      var neighbor := neighbors[i];
      ProperSubsetSmaller(adj.Keys - visited', adj.Keys - visited, nodeID);
      visited', component' := Dfs(adj, neighbor, visited', component', conns, open + {nodeID});
      NeighborsVisited(neighbors, i, visBefore, visited');
      DiscoveredAppend(|component|, compBefore, component', visited, visBefore, visited');
      ReachedStep(conns, nodeID, neighbor, visited, visBefore, visited');
      i := i + 1;
    }
  }

  /** A link recorded from a processed key. */
  ghost predicate DoneLink(conns: map<int, seq<int>>, done: set<int>, u: int, v: int)
  {
    (u in done && u in conns && v in conns[u]) || (v in done && v in conns && u in conns[v])
  }

  /** adj holds the links of the processed keys and those of node to the peers in p. */
  ghost predicate LinksSoFar(adj: map<int, seq<int>>, conns: map<int, seq<int>>, done: set<int>, node: int, p: seq<int>)
  {
    forall u, v :: v in Get(adj, u) <==> DoneLink(conns, done, u, v) || (u == node && v in p) || (v == node && u in p)
  }

  lemma ConnectLinks(adj: map<int, seq<int>>, conns: map<int, seq<int>>, done: set<int>, node: int, peers: seq<int>, j: int)
    requires 0 <= j < |peers|
    requires node in adj && ClosedAdjacency(adj)
    requires LinksSoFar(adj, conns, done, node, peers[..j])
    ensures ClosedAdjacency(Connect(adj, node, peers[j]))
    ensures LinksSoFar(Connect(adj, node, peers[j]), conns, done, node, peers[..j + 1])
  {
    var c := Connect(adj, node, peers[j]);
    assert peers[..j + 1] == peers[..j] + [peers[j]];
    forall u, v
      ensures v in Get(c, u) <==> v in Get(adj, u) || (u == node && v == peers[j]) || (u == peers[j] && v == node)
    {
    }
    assert forall v :: v in peers[..j + 1] <==> v in peers[..j] || v == peers[j];
  }

  lemma KeyDone(adj: map<int, seq<int>>, conns: map<int, seq<int>>, done: set<int>, node: int)
    requires node in conns && LinksSoFar(adj, conns, done, node, conns[node])
    ensures forall u, v :: v in Get(adj, u) <==> DoneLink(conns, done + {node}, u, v)
  {
    forall u, v
      ensures v in Get(adj, u) <==> DoneLink(conns, done + {node}, u, v)
    {
      assert DoneLink(conns, done + {node}, u, v) <==>
        DoneLink(conns, done, u, v) || (u == node && v in conns[node]) || (v == node && u in conns[node]);
    }
  }

  /** Both directions of every connection, in whatever order the keys come. */
  method BuildAdjacency(connections: map<int, seq<int>>) returns (adjacency: map<int, seq<int>>)
    ensures ClosedAdjacency(adjacency)
    ensures SameLinks(adjacency, connections)
  {
    adjacency := map[];
    var remaining := connections.Keys;
    while remaining != {}
      invariant remaining <= connections.Keys
      invariant ClosedAdjacency(adjacency)
      invariant forall u, v :: v in Get(adjacency, u) <==> DoneLink(connections, connections.Keys - remaining, u, v)
      decreases |remaining|
    {
      NonEmptyHasElement(remaining);
      var nodeID :| nodeID in remaining;
      ghost var done := connections.Keys - remaining;
      var peers := connections[nodeID];
      if nodeID !in adjacency {
        adjacency := adjacency[nodeID := []];
      }
      var j := 0;
      while j < |peers|
        invariant 0 <= j <= |peers|
        invariant ClosedAdjacency(adjacency) && nodeID in adjacency
        invariant LinksSoFar(adjacency, connections, done, nodeID, peers[..j])
      {
        ConnectLinks(adjacency, connections, done, nodeID, peers, j);
        // Append the peer to the node's list and the node to the peer's list.
        adjacency := Connect(adjacency, nodeID, peers[j]);
        j := j + 1;
      }
      assert peers[..j] == peers;
      remaining := remaining - {nodeID};
      assert connections.Keys - remaining == done + {nodeID};
      KeyDone(adjacency, connections, done, nodeID);
    }
  }

  /** Adds an empty list for every node ID that has no connections. */
  method AddIsolatedNodes(adjacency: map<int, seq<int>>, nodeIds: seq<int>, ghost connections: map<int, seq<int>>)
    returns (adj: map<int, seq<int>>)
    requires ClosedAdjacency(adjacency) && SameLinks(adjacency, connections)
    ensures ClosedAdjacency(adj) && SameLinks(adj, connections)
    ensures forall j :: 0 <= j < |nodeIds| ==> nodeIds[j] in adj
  {
    adj := adjacency;
    var i := 0;
    while i < |nodeIds|
      invariant 0 <= i <= |nodeIds|
      invariant ClosedAdjacency(adj)
      invariant SameLinks(adj, connections)
      invariant forall j :: 0 <= j < i ==> nodeIds[j] in adj
    {
      if nodeIds[i] !in adj {
        adj := adj[nodeIds[i] := []];
      }
      i := i + 1;
    }
  }

  /**
   * The components of the graph, found by a depth-first search from every
   * node ID in order that no earlier search reached. Every node ID lies in
   * exactly one component; each component is exactly the set of nodes
   * connected to its first node; roots witnesses the order.
   */
  method FindConnectedComponents(connections: map<int, seq<int>>, nodeIds: seq<int>)
    returns (clusters: seq<seq<int>>, ghost roots: seq<int>)
    ensures forall k :: 0 <= k < |clusters| ==> IsComponent(connections, clusters[k])
    ensures PairwiseDisjoint(clusters)
    ensures forall j :: 0 <= j < |nodeIds| ==> Covered(clusters, nodeIds[j])
    ensures RootOrder(clusters, nodeIds, roots)
  {
    var adjacency := BuildAdjacency(connections);
    adjacency := AddIsolatedNodes(adjacency, nodeIds, connections);
    clusters, roots := SearchFromEachNode(adjacency, nodeIds, connections);
  }

  /** The outer loop of findConnectedComponents: a search from every node ID not yet visited. */
  method SearchFromEachNode(adjacency: map<int, seq<int>>, nodeIds: seq<int>, ghost connections: map<int, seq<int>>)
    returns (clusters: seq<seq<int>>, ghost roots: seq<int>)
    requires ClosedAdjacency(adjacency) && SameLinks(adjacency, connections)
    requires forall j :: 0 <= j < |nodeIds| ==> nodeIds[j] in adjacency
    ensures forall k :: 0 <= k < |clusters| ==> IsComponent(connections, clusters[k])
    ensures PairwiseDisjoint(clusters)
    ensures forall j :: 0 <= j < |nodeIds| ==> Covered(clusters, nodeIds[j])
    ensures RootOrder(clusters, nodeIds, roots)
  {
    var visited: set<int> := {};
    clusters := [];
    roots := [];
    var i := 0;
    while i < |nodeIds|
      invariant SearchFrame(adjacency, nodeIds, i, visited)
      invariant Partitioned(connections, visited, clusters)
      invariant Ordered(clusters, nodeIds, roots, i)
      decreases |nodeIds| - i
    {
      var nodeID := nodeIds[i];
      if nodeID !in visited {
        var newVisited, component := Dfs(adjacency, nodeID, visited, [], connections, {});
        assert component[0..] == component;
        FrameFound(adjacency, nodeIds, i, visited, newVisited, component);
        PartitionFound(adjacency, connections, visited, newVisited, clusters, component);
        OrderedFound(clusters, roots, nodeIds, i, visited, component);
        clusters := clusters + [component];
        roots := roots + [i];
        visited := newVisited;
      } else {
        SearchSkip(adjacency, nodeIds, i, visited, clusters, roots);
      }
      i := i + 1;
    }
    SearchDone(connections, nodeIds, visited, clusters, roots);
  }

  /** The searches from nodeIds[..i] visited those nodes and left visited closed under adjacency. */
  ghost predicate SearchFrame(adj: map<int, seq<int>>, nodeIds: seq<int>, i: int, visited: set<int>)
  {
    && 0 <= i <= |nodeIds|
    && visited <= adj.Keys
    && ClosedOutside(adj, visited, {})
    && (forall j :: 0 <= j < i ==> nodeIds[j] in visited)
  }

  /** The clusters are disjoint components that cover exactly the visited nodes. */
  ghost predicate Partitioned(conns: map<int, seq<int>>, visited: set<int>, clusters: seq<seq<int>>)
  {
    && (forall x :: x in visited <==> Covered(clusters, x))
    && (forall k :: 0 <= k < |clusters| ==> IsComponent(conns, clusters[k]))
    && PairwiseDisjoint(clusters)
  }

  /** The clusters found so far come in root order, from roots below i. */
  ghost predicate Ordered(clusters: seq<seq<int>>, nodeIds: seq<int>, roots: seq<int>, i: int)
  {
    && RootOrder(clusters, nodeIds, roots)
    && (forall k :: 0 <= k < |roots| ==> roots[k] < i)
  }

  lemma SearchSkip(adj: map<int, seq<int>>, nodeIds: seq<int>, i: int,
                   visited: set<int>, clusters: seq<seq<int>>, roots: seq<int>)
    requires SearchFrame(adj, nodeIds, i, visited) && Ordered(clusters, nodeIds, roots, i)
    requires i < |nodeIds| && nodeIds[i] in visited
    ensures SearchFrame(adj, nodeIds, i + 1, visited) && Ordered(clusters, nodeIds, roots, i + 1)
  {
  }

  lemma SearchDone(conns: map<int, seq<int>>, nodeIds: seq<int>,
                   visited: set<int>, clusters: seq<seq<int>>, roots: seq<int>)
    requires forall j :: 0 <= j < |nodeIds| ==> nodeIds[j] in visited
    requires Partitioned(conns, visited, clusters) && Ordered(clusters, nodeIds, roots, |nodeIds|)
    ensures forall k :: 0 <= k < |clusters| ==> IsComponent(conns, clusters[k])
    ensures PairwiseDisjoint(clusters)
    ensures forall j :: 0 <= j < |nodeIds| ==> Covered(clusters, nodeIds[j])
    ensures RootOrder(clusters, nodeIds, roots)
  {
  }

  lemma FrameFound(adj: map<int, seq<int>>, nodeIds: seq<int>, i: int,
                   visited: set<int>, visited': set<int>, component: seq<int>)
    requires SearchFrame(adj, nodeIds, i, visited) && i < |nodeIds|
    requires visited <= visited' <= adj.Keys && ClosedOutside(adj, visited', {})
    requires Discovered(component, visited, visited')
    requires |component| > 0 && component[0] == nodeIds[i] && nodeIds[i] !in visited
    ensures SearchFrame(adj, nodeIds, i + 1, visited')
  {
    assert component[0] in component;
  }

  /** A search from an unvisited node adds the whole component of that node as a new cluster. */
  lemma PartitionFound(adj: map<int, seq<int>>, conns: map<int, seq<int>>,
                       visited: set<int>, visited': set<int>, clusters: seq<seq<int>>, component: seq<int>)
    requires SameLinks(adj, conns)
    requires Partitioned(conns, visited, clusters)
    requires ClosedOutside(adj, visited, {}) && ClosedOutside(adj, visited', {})
    requires visited <= visited'
    requires |component| > 0 && component[0] !in visited
    requires Discovered(component, visited, visited')
    requires ReachedFrom(conns, component[0], visited, visited')
    ensures Partitioned(conns, visited', clusters + [component])
  {
    ComponentIsComplete(adj, conns, visited, visited', component);
    CoverAppend(clusters, visited, visited', component);
    DisjointAppend(clusters, visited, component);
    ComponentsAppend(conns, clusters, component);
  }

  lemma OrderedFound(clusters: seq<seq<int>>, roots: seq<int>, nodeIds: seq<int>, i: int,
                     visited: set<int>, component: seq<int>)
    requires 0 <= i < |nodeIds|
    requires |component| > 0 && component[0] == nodeIds[i] && nodeIds[i] !in visited
    requires forall x :: x in visited <==> Covered(clusters, x)
    requires forall j :: 0 <= j < i ==> nodeIds[j] in visited
    requires Ordered(clusters, nodeIds, roots, i)
    ensures Ordered(clusters + [component], nodeIds, roots + [i], i + 1)
  {
    RootOrderAppend(clusters, roots, nodeIds, i, visited, component);
  }

  lemma ComponentsAppend(conns: map<int, seq<int>>, clusters: seq<seq<int>>, component: seq<int>)
    requires forall k :: 0 <= k < |clusters| ==> IsComponent(conns, clusters[k])
    requires IsComponent(conns, component)
    ensures forall k :: 0 <= k < |clusters| + 1 ==> IsComponent(conns, (clusters + [component])[k])
  {
    var cs := clusters + [component];
    forall k | 0 <= k < |cs|
      ensures IsComponent(conns, cs[k])
    {
      if k < |clusters| {
        assert cs[k] == clusters[k];
      }
    }
  }

  /**
   * What one top-level search adds is closed under links and connected to
   * its start: it is the whole component of its start.
   */
  lemma ComponentIsComplete(adj: map<int, seq<int>>, conns: map<int, seq<int>>,
                            visited: set<int>, visited': set<int>, component: seq<int>)
    requires SameLinks(adj, conns)
    requires ClosedOutside(adj, visited, {}) && ClosedOutside(adj, visited', {})
    requires visited <= visited'
    requires |component| > 0 && component[0] !in visited
    requires Discovered(component, visited, visited')
    requires ReachedFrom(conns, component[0], visited, visited')
    ensures IsComponent(conns, component)
  {
    var s := set x | x in component;
    forall u, v | u in s && Linked(conns, u, v)
      ensures v in s
    {
      assert v in Get(adj, u) && u in Get(adj, v);
    }
    forall x | Connected(conns, component[0], x)
      ensures x in component
    {
      ClosedContainsConnected(conns, s, component[0], x);
    }
  }

  lemma CoverAppend(clusters: seq<seq<int>>, visited: set<int>, visited': set<int>, component: seq<int>)
    requires visited <= visited'
    requires forall x :: x in component <==> x in visited' && x !in visited
    requires forall x :: x in visited <==> Covered(clusters, x)
    ensures forall x :: x in visited' <==> Covered(clusters + [component], x)
  {
    var cs := clusters + [component];
    forall x
      ensures x in visited' <==> Covered(cs, x)
    {
      if x in visited' && x !in visited {
        assert x in cs[|clusters|];
      }
      if x in visited {
        var k :| 0 <= k < |clusters| && x in clusters[k];
        assert cs[k] == clusters[k];
      }
      if Covered(cs, x) {
        var k :| 0 <= k < |cs| && x in cs[k];
        if k < |clusters| {
          assert cs[k] == clusters[k];
          assert Covered(clusters, x);
        }
      }
    }
  }

  lemma DisjointAppend(clusters: seq<seq<int>>, visited: set<int>, component: seq<int>)
    requires forall x :: x in component ==> x !in visited
    requires forall x :: x in visited <==> Covered(clusters, x)
    requires PairwiseDisjoint(clusters)
    ensures PairwiseDisjoint(clusters + [component])
  {
    var cs := clusters + [component];
    forall k1, k2, x | 0 <= k1 < k2 < |cs| && x in cs[k1]
      ensures x !in cs[k2]
    {
      assert cs[k1] == clusters[k1];
      if k2 == |clusters| {
        assert Covered(clusters, x);
      } else {
        assert cs[k2] == clusters[k2];
      }
    }
  }

  lemma RootOrderAppend(clusters: seq<seq<int>>, roots: seq<int>, nodeIds: seq<int>, i: int,
                        visited: set<int>, component: seq<int>)
    requires 0 <= i < |nodeIds|
    requires |component| > 0 && component[0] == nodeIds[i] && nodeIds[i] !in visited
    requires forall x :: x in visited <==> Covered(clusters, x)
    requires forall j :: 0 <= j < i ==> nodeIds[j] in visited
    requires RootOrder(clusters, nodeIds, roots)
    requires forall k :: 0 <= k < |roots| ==> roots[k] < i
    ensures RootOrder(clusters + [component], nodeIds, roots + [i])
  {
    RootsAppendStart(clusters, roots, nodeIds, i, visited, component);
    RootsAppendIncreasing(roots, i);
    RootsAppendBefore(clusters, roots, nodeIds, i, visited, component);
  }

  lemma RootsAppendStart(clusters: seq<seq<int>>, roots: seq<int>, nodeIds: seq<int>, i: int,
                         visited: set<int>, component: seq<int>)
    requires 0 <= i < |nodeIds|
    requires |component| > 0 && component[0] == nodeIds[i] && nodeIds[i] !in visited
    requires forall x :: x in visited <==> Covered(clusters, x)
    requires RootOrder(clusters, nodeIds, roots)
    ensures forall k :: 0 <= k < |roots| + 1 ==>
      0 <= (roots + [i])[k] < |nodeIds| && |(clusters + [component])[k]| > 0
      && (clusters + [component])[k][0] == nodeIds[(roots + [i])[k]]
      && !Covered((clusters + [component])[..k], nodeIds[(roots + [i])[k]])
  {
    var cs, rs := clusters + [component], roots + [i];
    var n := |clusters|;
    assert cs[..n] == clusters;
    forall k | 0 <= k < |rs|
      ensures 0 <= rs[k] < |nodeIds| && |cs[k]| > 0 && cs[k][0] == nodeIds[rs[k]]
      ensures !Covered(cs[..k], nodeIds[rs[k]])
    {
      if k < n {
        assert cs[..k] == clusters[..k] && cs[k] == clusters[k] && rs[k] == roots[k];
      }
    }
  }

  lemma RootsAppendIncreasing(roots: seq<int>, i: int)
    requires forall k1, k2 :: 0 <= k1 < k2 < |roots| ==> roots[k1] < roots[k2]
    requires forall k :: 0 <= k < |roots| ==> roots[k] < i
    ensures forall k1, k2 :: 0 <= k1 < k2 < |roots| + 1 ==> (roots + [i])[k1] < (roots + [i])[k2]
  {
    var rs := roots + [i];
    forall k1, k2 | 0 <= k1 < k2 < |rs|
      ensures rs[k1] < rs[k2]
    {
      assert rs[k1] == roots[k1];
    }
  }

  lemma RootsAppendBefore(clusters: seq<seq<int>>, roots: seq<int>, nodeIds: seq<int>, i: int,
                          visited: set<int>, component: seq<int>)
    requires 0 <= i < |nodeIds|
    requires forall x :: x in visited <==> Covered(clusters, x)
    requires forall j :: 0 <= j < i ==> nodeIds[j] in visited
    requires RootOrder(clusters, nodeIds, roots)
    ensures forall k, j :: 0 <= k < |clusters| + 1 && 0 <= j < (roots + [i])[k] ==>
      Covered((clusters + [component])[..k], nodeIds[j])
  {
    var cs, rs := clusters + [component], roots + [i];
    var n := |clusters|;
    assert cs[..n] == clusters;
    forall k, j | 0 <= k < |cs| && 0 <= j < rs[k]
      ensures Covered(cs[..k], nodeIds[j])
    {
      if k < n {
        assert cs[..k] == clusters[..k] && rs[k] == roots[k];
      } else {
        assert nodeIds[j] in visited;
      }
    }
  }

  // ---------------------------------------------------------------------------
  // Cluster lookup and metadata

  /** The index of the first cluster that contains nodeID, or -1. */
  method FindNodeCluster(nodeID: int, clusters: seq<seq<int>>) returns (r: int)
    ensures -1 <= r < |clusters|
    ensures r == -1 <==> !Covered(clusters, nodeID)
    ensures r >= 0 ==> nodeID in clusters[r] && !Covered(clusters[..r], nodeID)
  {
    var clusterID := 0;
    while clusterID < |clusters|
      invariant 0 <= clusterID <= |clusters|
      invariant !Covered(clusters[..clusterID], nodeID)
    {
      var cluster := clusters[clusterID];
      var j := 0;
      while j < |cluster|
        invariant 0 <= j <= |cluster|
        invariant nodeID !in cluster[..j]
      {
        assert cluster[..j + 1] == cluster[..j] + [cluster[j]];
        if cluster[j] == nodeID {
          return clusterID;
        }
        j := j + 1;
      }
      assert cluster[..j] == cluster;
      assert forall k :: 0 <= k < clusterID ==> clusters[..clusterID + 1][k] == clusters[..clusterID][k];
      clusterID := clusterID + 1;
    }
    assert clusters[..clusterID] == clusters;
    return -1;
  }

  /** i is the first cluster of maximal size. */
  ghost predicate IsFirstLargest(clusters: seq<seq<int>>, i: int)
  {
    && 0 <= i < |clusters|
    && (forall k :: 0 <= k < |clusters| ==> |clusters[k]| <= |clusters[i]|)
    && (forall k :: 0 <= k < i ==> |clusters[k]| < |clusters[i]|)
  }

  lemma FirstLargestUnique(clusters: seq<seq<int>>, i: int, j: int)
    requires IsFirstLargest(clusters, i) && IsFirstLargest(clusters, j)
    ensures i == j
  {
    LargestBound(clusters, i, j);
    LargestBound(clusters, j, i);
  }

  lemma LargestBound(clusters: seq<seq<int>>, i: int, k: int)
    requires IsFirstLargest(clusters, i) && 0 <= k < |clusters|
    ensures |clusters[k]| <= |clusters[i]| && (k < i ==> |clusters[k]| < |clusters[i]|)
  {
  }

  /** The first cluster of maximal size; 0 for an empty list. */
  method LargestCluster(clusters: seq<seq<int>>) returns (largest: int)
    ensures |clusters| == 0 ==> largest == 0
    ensures |clusters| > 0 ==> IsFirstLargest(clusters, largest)
  {
    largest := 0;
    var largestSize := 0;
    var i := 0;
    while i < |clusters|
      invariant 0 <= i <= |clusters|
      invariant i == 0 ==> largest == 0 && largestSize == 0
      invariant i > 0 ==> 0 <= largest < i && largestSize == |clusters[largest]|
      invariant forall k :: 0 <= k < i ==> |clusters[k]| <= largestSize
      invariant forall k :: 0 <= k < largest ==> |clusters[k]| < largestSize
    {
      if |clusters[i]| > largestSize {
        largestSize := |clusters[i]|;
        largest := i;
      }
      i := i + 1;
    }
  }

  /**
   * One entry per cluster with its index, members and size; only the first
   * cluster of maximal size is not isolated.
   */
  method GenerateClusterInfo(clusters: seq<seq<int>>) returns (infos: seq<ClusterInfo>)
    ensures |infos| == |clusters|
    ensures forall i :: 0 <= i < |infos| ==>
      infos[i].id == i && infos[i].nodeIds == clusters[i] && infos[i].size == |clusters[i]|
    ensures forall i :: 0 <= i < |infos| ==> (!infos[i].isIsolated <==> IsFirstLargest(clusters, i))
    ensures |clusters| > 0 ==> exists i :: 0 <= i < |infos| && !infos[i].isIsolated
    ensures forall i, j :: 0 <= i < j < |infos| ==> infos[i].isIsolated || infos[j].isIsolated
  {
    var largest := LargestCluster(clusters);
    infos := [];
    var i := 0;
    while i < |clusters|
      invariant 0 <= i <= |clusters|
      invariant |infos| == i
      invariant forall k :: 0 <= k < i ==> infos[k] == ClusterInfo(k, clusters[k], |clusters[k]|, k != largest)
    {
      infos := infos + [ClusterInfo(i, clusters[i], |clusters[i]|, i != largest)];
      i := i + 1;
    }
    forall k | 0 <= k < |infos|
      ensures !infos[k].isIsolated <==> IsFirstLargest(clusters, k)
    {
      if IsFirstLargest(clusters, k) {
        FirstLargestUnique(clusters, k, largest);
      }
    }
  }

  // ---------------------------------------------------------------------------
  // The island grid

  const CANVAS_WIDTH := 1200
  const CANVAS_HEIGHT := 800
  /** The main component's share of the canvas width: 60% of 1200. */
  const MAIN_WIDTH := 720
  const MAIN_START_X := CANVAS_WIDTH - MAIN_WIDTH
  const ISOLATED_WIDTH := CANVAS_WIDTH - MAIN_WIDTH - 50
  const GRID_COLUMNS := 4
  const CELL_PADDING := 25

  datatype Cell = Cell(x: int, y: int, w: int, h: int)

  datatype Point = Point(x: int, y: int)

  /** Integer division that truncates toward zero, as Go's does. */
  function GoDiv(a: int, b: int): (q: int)
    requires b > 0
    ensures a >= 0 ==> 0 <= a - q * b < b
    ensures a < 0 ==> -b < a - q * b <= 0
  {
    if a >= 0 then a / b else -((-a) / b)
  }

  function GridRows(count: nat): int
  {
    (count + GRID_COLUMNS - 1) / GRID_COLUMNS
  }

  /** The area of the k-th of count islands: column k % 4, row k / 4, 25 pixels of padding. */
  function IslandCell(k: nat, count: nat): Cell
    requires k < count
  {
    var rows := GridRows(count);
    var clusterWidth := ISOLATED_WIDTH / GRID_COLUMNS;
    var clusterHeight := CANVAS_HEIGHT / rows;
    var col := k % GRID_COLUMNS;
    var row := k / GRID_COLUMNS;
    Cell(col * clusterWidth + CELL_PADDING, row * clusterHeight + CELL_PADDING,
         clusterWidth - 2 * CELL_PADDING, clusterHeight - 2 * CELL_PADDING)
  }

  /** Where a single-node island is drawn: the middle of its cell. */
  function CellCenter(c: Cell): Point
  {
    Point(c.x + GoDiv(c.w, 2), c.y + GoDiv(c.h, 2))
  }

  /** ceil(count / 4) rows hold every island, and no row is empty. */
  lemma GridRowsFit(count: nat)
    requires count > 0
    ensures GRID_COLUMNS * (GridRows(count) - 1) < count <= GRID_COLUMNS * GridRows(count)
  {
  }

  /** Islands occupy distinct cells as long as a row is at least one pixel high (at most 3200 islands). */
  lemma IslandCellsDistinct(k1: nat, k2: nat, count: nat)
    requires k1 < count && k2 < count && k1 != k2
    requires count <= GRID_COLUMNS * CANVAS_HEIGHT
    ensures IslandCell(k1, count) != IslandCell(k2, count)
  {
    var rows := GridRows(count);
    RowsAtMostHeight(count);
    var h := CANVAS_HEIGHT / rows;
    var c1, c2 := k1 % GRID_COLUMNS, k2 % GRID_COLUMNS;
    var r1, r2 := k1 / GRID_COLUMNS, k2 / GRID_COLUMNS;
    assert k1 == GRID_COLUMNS * r1 + c1 && k2 == GRID_COLUMNS * r2 + c2;
    if c1 == c2 {
      if r1 < r2 {
        MulStrict(r1, r2, h);
      } else {
        MulStrict(r2, r1, h);
      }
    }
  }

  /** Up to 3200 islands need at most 800 rows, so each row is at least one pixel high. */
  lemma RowsAtMostHeight(count: nat)
    requires 0 < count <= GRID_COLUMNS * CANVAS_HEIGHT
    ensures 1 <= GridRows(count) <= CANVAS_HEIGHT && CANVAS_HEIGHT / GridRows(count) >= 1
  {
  }

  lemma MulStrict(a: int, b: int, h: int)
    requires a < b && h >= 1
    ensures a * h < b * h
  {
  }

  /** Beyond 3200 islands rows are zero pixels high, and islands 0 and 4 share a cell. */
  lemma IslandCellsCollide(count: nat)
    requires count > GRID_COLUMNS * CANVAS_HEIGHT
    ensures IslandCell(0, count) == IslandCell(4, count)
  {
    assert GridRows(count) > CANVAS_HEIGHT;
    assert CANVAS_HEIGHT / GridRows(count) == 0;
  }

  /** Every island cell lies left of the main component's region. */
  lemma IslandCellLeftOfMain(k: nat, count: nat)
    requires k < count
    ensures var c := IslandCell(k, count);
      CELL_PADDING <= c.x && c.x + c.w < MAIN_START_X
  {
  }

  /**
   * A single-node island is drawn inside the canvas and left of the main
   * region, provided rows are at least 50 pixels high (at most 64 islands).
   */
  lemma SingletonInsideCanvas(k: nat, count: nat)
    requires k < count <= 64
    ensures var p := CellCenter(IslandCell(k, count));
      0 <= p.x < MAIN_START_X && 0 <= p.y <= CANVAS_HEIGHT
  {
    SingletonColumn(k, count);
    SingletonRow(k, count);
  }

  lemma SingletonColumn(k: nat, count: nat)
    requires k < count
    ensures 0 <= CellCenter(IslandCell(k, count)).x < MAIN_START_X
  {
    var col := k % GRID_COLUMNS;
    assert ISOLATED_WIDTH / GRID_COLUMNS == 107;
    assert IslandCell(k, count).x == col * 107 + CELL_PADDING && IslandCell(k, count).w == 57;
  }

  lemma SingletonRow(k: nat, count: nat)
    requires k < count <= 64
    ensures 0 <= CellCenter(IslandCell(k, count)).y <= CANVAS_HEIGHT
  {
    var rows := GridRows(count);
    var h := CANVAS_HEIGHT / rows;
    var row := k / GRID_COLUMNS;
    assert 1 <= rows <= 16 && row < rows;
    RowHeight(rows);
    RowBottom(row, rows, h);
    var top := row * h;
    assert IslandCell(k, count).y == top + CELL_PADDING && IslandCell(k, count).h == h - 2 * CELL_PADDING;
  }

  /** With at most 16 rows each row is at least 50 pixels high and all rows fit the canvas. */
  lemma RowHeight(rows: int)
    requires 1 <= rows <= 16
    ensures 50 <= CANVAS_HEIGHT / rows && rows * (CANVAS_HEIGHT / rows) <= CANVAS_HEIGHT
  {
    var h := CANVAS_HEIGHT / rows;
    assert rows * h + CANVAS_HEIGHT % rows == CANVAS_HEIGHT;
    if h < 50 {
      MulMono(rows, h, 16, 49);
    }
  }

  lemma MulMono(a: int, b: int, c: int, d: int)
    requires 0 <= a <= c && 0 <= b <= d
    ensures a * b <= c * d
  {
    assert a * b <= c * b;
    assert c * b <= c * d;
  }

  /** The bottom of row `row` is within the rows' total height. */
  lemma RowBottom(row: int, rows: int, h: int)
    requires 0 <= row < rows && h >= 0
    ensures row * h + h <= rows * h
  {
    MulMono(row + 1, h, rows, h);
  }

  /**
   * The integer part of layoutWithIslands: every component but the first
   * largest becomes an island, in order, and each single-node island is
   * placed at the centre of its grid cell. The force-directed placement of
   * the other components is not part of this model.
   */
  method LayoutIslandGrid(clusters: seq<seq<int>>) returns (islands: seq<seq<int>>, positions: map<int, Point>)
    requires |clusters| > 0
    ensures exists l :: IsFirstLargest(clusters, l) && islands == clusters[..l] + clusters[l + 1..]
    ensures forall x :: x in positions <==> exists k :: 0 <= k < |islands| && IsSingleton(islands[k], x)
    ensures PlacedAtLastSingleton(islands, positions, |islands|)
  {
    var largest := LargestCluster(clusters);
    islands := SplitIslands(clusters, largest);
    positions := PlaceSingletons(islands);
  }

  /** All clusters except the one at index largest, in order. */
  method SplitIslands(clusters: seq<seq<int>>, largest: int) returns (islands: seq<seq<int>>)
    requires 0 <= largest < |clusters|
    ensures islands == clusters[..largest] + clusters[largest + 1..]
  {
    islands := [];
    var i := 0;
    while i < |clusters|
      invariant 0 <= i <= |clusters|
      invariant islands == if i <= largest then clusters[..i] else clusters[..largest] + clusters[largest + 1..i]
    {
      if i != largest {
        if i < largest {
          assert clusters[..i + 1] == clusters[..i] + [clusters[i]];
        } else {
          assert clusters[largest + 1..i + 1] == clusters[largest + 1..i] + [clusters[i]];
        }
        islands := islands + [clusters[i]];
      }
      i := i + 1;
    }
  }

  /** The island consists of node x alone. */
  predicate IsSingleton(island: seq<int>, x: int)
  {
    |island| == 1 && island[0] == x
  }

  /**
   * Every placed node x sits at the centre of the cell of the last of the
   * first n islands that consists of x alone.
   */
  ghost predicate PlacedAtLastSingleton(islands: seq<seq<int>>, positions: map<int, Point>, n: int)
    requires 0 <= n <= |islands|
  {
    forall x :: x in positions ==> PlacedAt(islands, positions, n, x)
  }

  ghost predicate PlacedAt(islands: seq<seq<int>>, positions: map<int, Point>, n: int, x: int)
    requires 0 <= n <= |islands| && x in positions
  {
    exists k :: LastSingletonAt(islands, n, x, k) && positions[x] == CellCenter(IslandCell(k, |islands|))
  }

  /** Island k is the last of the first n islands that consists of x alone. */
  ghost predicate LastSingletonAt(islands: seq<seq<int>>, n: int, x: int, k: int)
    requires 0 <= n <= |islands|
  {
    0 <= k < n && IsSingleton(islands[k], x) && forall j :: k < j < n ==> !IsSingleton(islands[j], x)
  }

  /** Each single-node island at the centre of its cell; a node listed twice keeps its last cell. */
  method PlaceSingletons(islands: seq<seq<int>>) returns (positions: map<int, Point>)
    ensures forall x :: x in positions <==> exists k :: 0 <= k < |islands| && IsSingleton(islands[k], x)
    ensures PlacedAtLastSingleton(islands, positions, |islands|)
  {
    positions := map[];
    var k := 0;
    while k < |islands|
      invariant 0 <= k <= |islands|
      invariant SingletonKeys(islands, positions, k)
      invariant PlacedAtLastSingleton(islands, positions, k)
    {
      if |islands[k]| == 1 {
        var x := islands[k][0];
        var center := CellCenter(IslandCell(k, |islands|));
        PlaceSingletonStep(islands, positions, k, x, center);
        positions := positions[x := center];
      } else {
        SkipIslandStep(islands, positions, k);
      }
      k := k + 1;
    }
  }

  /** The placed nodes are exactly those that form one of the first n islands alone. */
  ghost predicate SingletonKeys(islands: seq<seq<int>>, positions: map<int, Point>, n: int)
    requires 0 <= n <= |islands|
  {
    forall x :: x in positions <==> exists j :: 0 <= j < n && IsSingleton(islands[j], x)
  }

  lemma PlaceSingletonStep(islands: seq<seq<int>>, positions: map<int, Point>, k: int, x: int, center: Point)
    requires 0 <= k < |islands| && IsSingleton(islands[k], x)
    requires center == CellCenter(IslandCell(k, |islands|))
    requires SingletonKeys(islands, positions, k) && PlacedAtLastSingleton(islands, positions, k)
    ensures SingletonKeys(islands, positions[x := center], k + 1)
    ensures PlacedAtLastSingleton(islands, positions[x := center], k + 1)
  {
    var next := positions[x := center];
    forall y
      ensures y in next <==> exists j :: 0 <= j < k + 1 && IsSingleton(islands[j], y)
    {
      if y in next && y != x {
        var j :| 0 <= j < k && IsSingleton(islands[j], y);
      }
    }
    forall y | y in next
      ensures PlacedAt(islands, next, k + 1, y)
    {
      if y != x {
        assert PlacedAt(islands, positions, k, y);
        var k' :| LastSingletonAt(islands, k, y, k') && positions[y] == CellCenter(IslandCell(k', |islands|));
        assert LastSingletonAt(islands, k + 1, y, k');
      } else {
        assert LastSingletonAt(islands, k + 1, y, k);
      }
    }
  }

  lemma SkipIslandStep(islands: seq<seq<int>>, positions: map<int, Point>, k: int)
    requires 0 <= k < |islands| && |islands[k]| != 1
    requires SingletonKeys(islands, positions, k) && PlacedAtLastSingleton(islands, positions, k)
    ensures SingletonKeys(islands, positions, k + 1) && PlacedAtLastSingleton(islands, positions, k + 1)
  {
    forall y | y in positions
      ensures PlacedAt(islands, positions, k + 1, y)
    {
      assert PlacedAt(islands, positions, k, y);
      var k' :| LastSingletonAt(islands, k, y, k') && positions[y] == CellCenter(IslandCell(k', |islands|));
      assert LastSingletonAt(islands, k + 1, y, k');
    }
  }

  /** When no node forms two islands, each single-node island is drawn at the centre of its own cell. */
  lemma SingletonPlacedInOwnCell(islands: seq<seq<int>>, positions: map<int, Point>, k: int)
    requires 0 <= k < |islands| && |islands[k]| == 1
    requires forall j :: 0 <= j < |islands| && j != k ==> islands[k][0] !in islands[j]
    requires forall x :: x in positions <==> exists k :: 0 <= k < |islands| && IsSingleton(islands[k], x)
    requires PlacedAtLastSingleton(islands, positions, |islands|)
    ensures islands[k][0] in positions
    ensures positions[islands[k][0]] == CellCenter(IslandCell(k, |islands|))
  {
    var x := islands[k][0];
    assert IsSingleton(islands[k], x);
    assert PlacedAt(islands, positions, |islands|, x);
    var k' :| LastSingletonAt(islands, |islands|, x, k') && positions[x] == CellCenter(IslandCell(k', |islands|));
    assert x in islands[k'];
  }

  // ---------------------------------------------------------------------------
  // The whole snapshot

  /** The ports of a peer list, in order. */
  function PeerPorts(peers: seq<Address>): (ports: seq<int>)
    ensures |ports| == |peers| && forall j :: 0 <= j < |peers| ==> ports[j] == peers[j].port
  {
    seq(|peers|, j requires 0 <= j < |peers| => peers[j].port)
  }

  /** The node IDs and the peer ports of every node, read in node order. */
  method SnapshotPeers(nb: Gossip.NetworkBuilder) returns (ids: seq<int>, ports: seq<seq<int>>)
    ensures |ids| == |nb.nodes| && |ports| == |nb.nodes|
    ensures forall k :: 0 <= k < |nb.nodes| ==> ids[k] == nb.nodes[k].id
    ensures forall k :: 0 <= k < |nb.nodes| ==> ports[k] == PeerPorts(nb.nodes[k].peers)
  {
    ids, ports := [], [];
    var k := 0;
    while k < |nb.nodes|
      invariant 0 <= k <= |nb.nodes|
      invariant |ids| == k && |ports| == k
      invariant forall m :: 0 <= m < k ==> ids[m] == nb.nodes[m].id
      invariant forall m :: 0 <= m < k ==> ports[m] == PeerPorts(nb.nodes[m].peers)
    {
      var node := nb.nodes[k];
      var nodePorts := [];
      var j := 0;
      while j < |node.peers|
        invariant 0 <= j <= |node.peers|
        invariant nodePorts == PeerPorts(node.peers[..j])
      {
        assert node.peers[..j + 1][..j] == node.peers[..j];
        nodePorts := nodePorts + [node.peers[j].port];
        j := j + 1;
      }
      assert node.peers[..j] == node.peers;
      ids := ids + [node.id];
      ports := ports + [nodePorts];
      k := k + 1;
    }
  }

  /** info describes node: its ID, its address rendering and the first cluster that holds it. */
  ghost predicate InfoOf(info: NodeInfo, node: Gossip.GossipNode, clusters: seq<seq<int>>)
  {
    && info.id == node.id
    && info.addr == node.addr.String()
    && 0 <= info.clusterId < |clusters|
    && node.id in clusters[info.clusterId]
    && !Covered(clusters[..info.clusterId], node.id)
  }

  /** The node entries: ID, address rendering and the index of the node's cluster. */
  method NodeInfos(nodes: seq<Gossip.GossipNode>, clusters: seq<seq<int>>) returns (infos: seq<NodeInfo>)
    requires forall i :: 0 <= i < |nodes| ==> Covered(clusters, nodes[i].id)
    ensures |infos| == |nodes|
    ensures forall i :: 0 <= i < |nodes| ==> InfoOf(infos[i], nodes[i], clusters)
  {
    infos := [];
    var i := 0;
    while i < |nodes|
      invariant 0 <= i <= |nodes|
      invariant |infos| == i
      invariant forall m :: 0 <= m < i ==> InfoOf(infos[m], nodes[m], clusters)
    {
      var info := NodeInfoOf(nodes[i], clusters);
      InfosAppend(infos, info, nodes, clusters);
      infos := infos + [info];
      i := i + 1;
    }
  }

  lemma InfosAppend(infos: seq<NodeInfo>, info: NodeInfo, nodes: seq<Gossip.GossipNode>, clusters: seq<seq<int>>)
    requires |infos| < |nodes|
    requires forall m :: 0 <= m < |infos| ==> InfoOf(infos[m], nodes[m], clusters)
    requires InfoOf(info, nodes[|infos|], clusters)
    ensures forall m :: 0 <= m <= |infos| ==> InfoOf((infos + [info])[m], nodes[m], clusters)
  {
    var r := infos + [info];
    forall m | 0 <= m <= |infos|
      ensures InfoOf(r[m], nodes[m], clusters)
    {
      if m < |infos| {
        assert r[m] == infos[m];
      }
    }
  }

  method NodeInfoOf(node: Gossip.GossipNode, clusters: seq<seq<int>>) returns (info: NodeInfo)
    requires Covered(clusters, node.id)
    ensures InfoOf(info, node, clusters)
  {
    var clusterID := FindNodeCluster(node.id, clusters);
    info := NodeInfo(node.id, node.addr.String(), clusterID);
  }

  /** A node lies in no cluster other than the first one that contains it. */
  lemma FirstClusterIsOnly(clusters: seq<seq<int>>, x: int, c: int, j: int)
    requires PairwiseDisjoint(clusters)
    requires 0 <= c < |clusters| && x in clusters[c] && !Covered(clusters[..c], x)
    requires 0 <= j < |clusters| && x in clusters[j]
    ensures j == c
  {
    if j < c {
      CoveredInPrefix(clusters, c, j, x);
      assert false;
    }
  }

  lemma CoveredInPrefix(clusters: seq<seq<int>>, c: int, j: int, x: int)
    requires 0 <= j < c <= |clusters| && x in clusters[j]
    ensures Covered(clusters[..c], x)
  {
    assert clusters[..c][j] == clusters[j];
  }

  /**
   * generateTopology without coordinates: node entries with their address
   * rendering and cluster, the edges, and the cluster metadata. The source
   * indexes the largest cluster during layout, which fails when there are
   * no nodes, so an empty network is not accepted.
   */
  method GenerateTopology(nb: Gossip.NetworkBuilder) returns (t: NetworkTopology, ghost ids: seq<int>, ghost roots: seq<int>)
    requires |nb.nodes| > 0
    ensures |t.nodes| == |nb.nodes|
    ensures forall i :: 0 <= i < |t.nodes| ==>
      && t.nodes[i].id == nb.nodes[i].id
      && t.nodes[i].addr == nb.nodes[i].addr.String()
      && 0 <= t.nodes[i].clusterId < |t.clusters|
      && nb.nodes[i].id in t.clusters[t.nodes[i].clusterId].nodeIds
    ensures forall i, j :: 0 <= i < |t.nodes| && 0 <= j < |t.clusters| && nb.nodes[i].id in t.clusters[j].nodeIds ==>
      j == t.nodes[i].clusterId
    ensures exists i :: 0 <= i < |t.clusters| && !t.clusters[i].isIsolated
    ensures forall i, j :: 0 <= i < j < |t.clusters| ==> t.clusters[i].isIsolated || t.clusters[j].isIsolated
    ensures forall e :: e in t.edges <==> PeerEdge(nb.nodes, e)
    ensures EdgeComponents(t.edges, t.clusters)
    ensures |ids| == |nb.nodes| && forall i :: 0 <= i < |nb.nodes| ==> ids[i] == nb.nodes[i].id
    ensures ClusterMetadata(t.clusters, ids, roots)
  {
    var edges, clusters;
    edges, clusters, ids, roots := SnapshotGraph(nb);
    assert Covered(clusters, nb.nodes[0].id);
    var nodes := NodeInfos(nb.nodes, clusters);
    var infos := DescribeClusters(clusters, ids, roots);
    t := NetworkTopology(nodes, edges, infos);
    NodesMatchClusters(nb.nodes, nodes, clusters, infos);
    ClustersAreComponents(edges, clusters, infos);
  }

  /** The metadata of root-ordered components, with exactly one non-isolated entry. */
  method DescribeClusters(clusters: seq<seq<int>>, ghost ids: seq<int>, ghost roots: seq<int>) returns (infos: seq<ClusterInfo>)
    requires RootOrder(clusters, ids, roots)
    ensures |infos| == |clusters|
    ensures forall i :: 0 <= i < |infos| ==> infos[i].nodeIds == clusters[i]
    ensures ClusterMetadata(infos, ids, roots)
    ensures |clusters| > 0 ==> exists i :: 0 <= i < |infos| && !infos[i].isIsolated
    ensures forall i, j :: 0 <= i < j < |infos| ==> infos[i].isIsolated || infos[j].isIsolated
  {
    infos := GenerateClusterInfo(clusters);
    MetadataOfClusters(clusters, infos, ids, roots);
  }

  /**
   * Cluster metadata as the snapshot lays it out: entry i has ID i and its
   * size is its member count, only the first largest cluster is not
   * isolated, and the clusters come in the order of their first nodes.
   */
  ghost predicate ClusterMetadata(infos: seq<ClusterInfo>, ids: seq<int>, roots: seq<int>)
  {
    && (forall i :: 0 <= i < |infos| ==> infos[i].id == i && infos[i].size == |infos[i].nodeIds|)
    && (forall i :: 0 <= i < |infos| ==> (!infos[i].isIsolated <==> IsFirstLargest(ClusterNodeIds(infos), i)))
    && RootOrder(ClusterNodeIds(infos), ids, roots)
  }

  /** The metadata of root-ordered clusters keeps their root order and marks the first largest. */
  lemma MetadataOfClusters(clusters: seq<seq<int>>, infos: seq<ClusterInfo>, ids: seq<int>, roots: seq<int>)
    requires |infos| == |clusters|
    requires forall i :: 0 <= i < |infos| ==>
      infos[i].id == i && infos[i].nodeIds == clusters[i] && infos[i].size == |clusters[i]|
    requires forall i :: 0 <= i < |infos| ==> (!infos[i].isIsolated <==> IsFirstLargest(clusters, i))
    requires RootOrder(clusters, ids, roots)
    ensures ClusterMetadata(infos, ids, roots)
  {
    assert ClusterNodeIds(infos) == clusters;
  }

  /** The member lists of the cluster metadata, in order. */
  function ClusterNodeIds(infos: seq<ClusterInfo>): seq<seq<int>>
  {
    seq(|infos|, k requires 0 <= k < |infos| => infos[k].nodeIds)
  }

  /** The peer edges of the builder's nodes and the connected components they form. */
  method SnapshotGraph(nb: Gossip.NetworkBuilder) returns (edges: seq<Edge>, clusters: seq<seq<int>>, ghost ids: seq<int>, ghost roots: seq<int>)
    ensures forall e :: e in edges <==> PeerEdge(nb.nodes, e)
    ensures PairwiseDisjoint(clusters)
    ensures forall i :: 0 <= i < |nb.nodes| ==> Covered(clusters, nb.nodes[i].id)
    ensures exists conns :: LinksOfEdges(conns, edges) && forall k :: 0 <= k < |clusters| ==> IsComponent(conns, clusters[k])
    ensures |ids| == |nb.nodes| && forall i :: 0 <= i < |nb.nodes| ==> ids[i] == nb.nodes[i].id
    ensures RootOrder(clusters, ids, roots)
  {
    var nodeIds, ports := SnapshotPeers(nb);
    edges, clusters, roots := EdgesAndClusters(nodeIds, ports);
    EdgesOfNodes(nb.nodes, nodeIds, ports);
    ids := nodeIds;
  }

  /**
   * The edges of the snapshot and its connected components, for the nodes
   * with the given IDs and peer ports.
   */
  method EdgesAndClusters(ids: seq<int>, ports: seq<seq<int>>) returns (edges: seq<Edge>, clusters: seq<seq<int>>, ghost roots: seq<int>)
    requires |ids| == |ports|
    ensures edges == AllEdges(ids, ports, |ids|, |ids|)
    ensures PairwiseDisjoint(clusters)
    ensures forall j :: 0 <= j < |ids| ==> Covered(clusters, ids[j])
    ensures exists conns :: LinksOfEdges(conns, edges) && forall k :: 0 <= k < |clusters| ==> IsComponent(conns, clusters[k])
    ensures RootOrder(clusters, ids, roots)
  {
    var conns;
    edges, conns := BuildConnections(ids, ports);
    ConnectionsLinkEdges(conns, edges, |ids|, ids);
    conns := DedupAll(conns);
    clusters, roots := FindConnectedComponents(conns, ids);
  }

  /** Every node entry names the one cluster whose metadata lists the node. */
  lemma NodesMatchClusters(ns: seq<Gossip.GossipNode>, nodes: seq<NodeInfo>, clusters: seq<seq<int>>,
                           infos: seq<ClusterInfo>)
    requires |nodes| == |ns| && |infos| == |clusters|
    requires forall i :: 0 <= i < |ns| ==> InfoOf(nodes[i], ns[i], clusters)
    requires forall i :: 0 <= i < |infos| ==> infos[i].nodeIds == clusters[i]
    requires PairwiseDisjoint(clusters)
    ensures forall i :: 0 <= i < |nodes| ==>
      && nodes[i].id == ns[i].id
      && nodes[i].addr == ns[i].addr.String()
      && 0 <= nodes[i].clusterId < |infos|
      && ns[i].id in infos[nodes[i].clusterId].nodeIds
    ensures forall i, j :: 0 <= i < |nodes| && 0 <= j < |infos| && ns[i].id in infos[j].nodeIds ==>
      j == nodes[i].clusterId
  {
    forall i, j | 0 <= i < |nodes| && 0 <= j < |infos| && ns[i].id in infos[j].nodeIds
      ensures j == nodes[i].clusterId
    {
      assert InfoOf(nodes[i], ns[i], clusters);
      FirstClusterIsOnly(clusters, ns[i].id, nodes[i].clusterId, j);
    }
  }

  /** An edge joins u and v, in either direction. */
  ghost predicate EdgeLinked(edges: seq<Edge>, u: int, v: int)
  {
    Edge(u, v) in edges || Edge(v, u) in edges
  }

  /** conns links exactly the nodes that an edge joins. */
  ghost predicate LinksOfEdges(conns: map<int, seq<int>>, edges: seq<Edge>)
  {
    forall u, v :: Linked(conns, u, v) <==> EdgeLinked(edges, u, v)
  }

  /** Node n, with ID e.from, has a peer whose port maps to node index e.to. */
  ghost predicate PeerOf(n: Gossip.GossipNode, e: Edge)
    reads n
  {
    n.id == e.from && exists b :: 0 <= b < |n.peers| && n.peers[b].port - Gossip.BASE_PORT == e.to
  }

  /** Edge e leads from a node of ns to a peer that is the node at index e.to. */
  ghost predicate PeerEdge(ns: seq<Gossip.GossipNode>, e: Edge)
    reads ns
  {
    0 <= e.to < |ns| && exists a :: 0 <= a < |ns| && PeerOf(ns[a], e)
  }

  /** Every cluster is a connected component of the undirected graph the edges span. */
  ghost predicate EdgeComponents(edges: seq<Edge>, infos: seq<ClusterInfo>)
  {
    exists conns :: LinksOfEdges(conns, edges) && forall k :: 0 <= k < |infos| ==> IsComponent(conns, infos[k].nodeIds)
  }

  lemma ConnectionsLinkEdges(conns: map<int, seq<int>>, edges: seq<Edge>, n: int, ids: seq<int>)
    requires ConnectionsOf(conns, edges, n, ids)
    ensures LinksOfEdges(conns, edges)
  {
    forall u, v | EdgeLinked(edges, u, v)
      ensures Linked(conns, u, v)
    {
      if Edge(u, v) in edges {
        assert Edge(u, v).to in Get(conns, Edge(u, v).from);
      } else {
        assert Edge(v, u).to in Get(conns, Edge(v, u).from);
      }
    }
  }

  /** The edges of the snapshot, stated over the nodes themselves. */
  lemma EdgesOfNodes(ns: seq<Gossip.GossipNode>, ids: seq<int>, ports: seq<seq<int>>)
    requires |ids| == |ns| && |ports| == |ns|
    requires forall k :: 0 <= k < |ns| ==> ids[k] == ns[k].id
    requires forall k :: 0 <= k < |ns| ==> ports[k] == PeerPorts(ns[k].peers)
    ensures forall e :: e in AllEdges(ids, ports, |ids|, |ids|) <==> PeerEdge(ns, e)
  {
    forall e
      ensures e in AllEdges(ids, ports, |ids|, |ids|) <==> PeerEdge(ns, e)
    {
      EdgeOfNodes(ns, ids, ports, e);
    }
  }

  lemma EdgeOfNodes(ns: seq<Gossip.GossipNode>, ids: seq<int>, ports: seq<seq<int>>, e: Edge)
    requires |ids| == |ns| && |ports| == |ns|
    requires forall k :: 0 <= k < |ns| ==> ids[k] == ns[k].id
    requires forall k :: 0 <= k < |ns| ==> ports[k] == PeerPorts(ns[k].peers)
    ensures e in AllEdges(ids, ports, |ids|, |ids|) <==> PeerEdge(ns, e)
  {
    if e in AllEdges(ids, ports, |ids|, |ids|) {
      SnapshotEdgeIsPeerEdge(ns, ids, ports, e);
    }
    if PeerEdge(ns, e) {
      PeerEdgeIsSnapshotEdge(ns, ids, ports, e);
    }
  }

  lemma SnapshotEdgeIsPeerEdge(ns: seq<Gossip.GossipNode>, ids: seq<int>, ports: seq<seq<int>>, e: Edge)
    requires |ids| == |ns| && |ports| == |ns|
    requires forall k :: 0 <= k < |ns| ==> ids[k] == ns[k].id
    requires forall k :: 0 <= k < |ns| ==> ports[k] == PeerPorts(ns[k].peers)
    requires e in AllEdges(ids, ports, |ids|, |ids|)
    ensures PeerEdge(ns, e)
  {
    AllEdgesExact(ids, ports, |ids|, |ids|, e);
    var a, b :| 0 <= a < |ids| && 0 <= b < |ports[a]| && ids[a] == e.from && ports[a][b] - Gossip.BASE_PORT == e.to;
    SnapshotPeerIsPeer(ns[a], ids[a], ports[a], b, e);
  }

  lemma PeerEdgeIsSnapshotEdge(ns: seq<Gossip.GossipNode>, ids: seq<int>, ports: seq<seq<int>>, e: Edge)
    requires |ids| == |ns| && |ports| == |ns|
    requires forall k :: 0 <= k < |ns| ==> ids[k] == ns[k].id
    requires forall k :: 0 <= k < |ns| ==> ports[k] == PeerPorts(ns[k].peers)
    requires PeerEdge(ns, e)
    ensures e in AllEdges(ids, ports, |ids|, |ids|)
  {
    var a :| 0 <= a < |ns| && PeerOf(ns[a], e);
    var b := PeerIsSnapshotPeer(ns[a], ids[a], ports[a], e);
    AllEdgesExact(ids, ports, |ids|, |ids|, e);
  }

  lemma PeerIsSnapshotPeer(n: Gossip.GossipNode, id: int, ports: seq<int>, e: Edge) returns (b: int)
    requires id == n.id && ports == PeerPorts(n.peers)
    requires PeerOf(n, e)
    ensures 0 <= b < |ports| && id == e.from && ports[b] - Gossip.BASE_PORT == e.to
  {
    b :| 0 <= b < |n.peers| && n.peers[b].port - Gossip.BASE_PORT == e.to;
  }

  lemma SnapshotPeerIsPeer(n: Gossip.GossipNode, id: int, ports: seq<int>, b: int, e: Edge)
    requires id == n.id && ports == PeerPorts(n.peers)
    requires 0 <= b < |ports| && id == e.from && ports[b] - Gossip.BASE_PORT == e.to
    ensures PeerOf(n, e)
  {
    assert n.peers[b].port == ports[b];
  }

  lemma ClustersAreComponents(edges: seq<Edge>, clusters: seq<seq<int>>, infos: seq<ClusterInfo>)
    requires exists conns :: LinksOfEdges(conns, edges) && forall k :: 0 <= k < |clusters| ==> IsComponent(conns, clusters[k])
    requires |infos| == |clusters|
    requires forall i :: 0 <= i < |infos| ==> infos[i].nodeIds == clusters[i]
    ensures EdgeComponents(edges, infos)
  {
    var conns :| LinksOfEdges(conns, edges) && forall k :: 0 <= k < |clusters| ==> IsComponent(conns, clusters[k]);
    assert forall k :: 0 <= k < |infos| ==> IsComponent(conns, infos[k].nodeIds);
  }
}
