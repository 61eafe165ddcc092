/**
 * The graph helpers every graph simulator uses: snapshot copies, and the
 * generator of the ring-plus-chords graph the simulators run on.
 *
 * Node `node-i` is index i of the node list and an edge names its endpoints
 * by index, so `nodes.find(n => n.id === id)` is indexing. The generator's
 * `Math.random()` calls are an explicit sequence of draws in [0, 1), used up
 * in the order the source makes the calls.
 */
module GraphHelpers {
  import opened Types

  /** `cloneGraph(nodes, edges)`: a snapshot with field-equal nodes and edges. */
  function CloneGraph(nodes: seq<GraphNode>, edges: seq<GraphEdge>): (g: Graph)
    ensures |g.nodes| == |nodes| && |g.edges| == |edges|
    ensures forall i | 0 <= i < |nodes| :: g.nodes[i] == nodes[i]
    ensures forall i | 0 <= i < |edges| :: g.edges[i] == edges[i]
  {
    Graph(nodes, edges)
  }

  /** `Math.max(3, Math.min(10, initialArray.length))`: every graph simulator's node count. */
  function NodeCount(len: nat): (n: nat)
    ensures 3 <= n <= 10
    ensures 3 <= len <= 10 ==> n == len
  {
    if len < 3 then 3 else if len > 10 then 10 else len
  }

  /** `Math.max(2, Math.floor(nodeCount / 1.5))`: how many chords are attempted. */
  function ChordTries(n: nat): (k: nat)
    ensures k >= 2 && 3 * k <= 2 * n + 6
  {
    if (2 * n) / 3 < 2 then 2 else (2 * n) / 3
  }

  /** The most draws one generation can use: a weight per ring edge, then per chord two endpoints, ten retries and a weight. */
  function DrawsNeeded(n: nat): nat
  {
    n + 13 * ChordTries(n)
  }

  /** For r in [0, 1) and k >= 0: 0 <= r * k <= k, strictly below k when k > 0. */
  lemma Scale(r: real, k: real)
    requires 0.0 <= r < 1.0 && 0.0 <= k
    ensures 0.0 <= r * k <= k && (0.0 < k ==> r * k < k)
  {
    assert k - r * k == (1.0 - r) * k;
    if 0.0 < k {
      assert 0.0 < (1.0 - r) * k;
    }
  }

  /** `r * k` for a draw r in [0, 1): in [0, k], and below k when k > 0. */
  function Scaled(r: real, k: nat): (x: real)
    requires 0.0 <= r < 1.0
    ensures 0.0 <= x <= k as real && (0.0 < k as real ==> x < k as real)
  {
    Scale(r, k as real);
    r * (k as real)
  }

  /** The floor of a number in [0, k], below k when k > 0, is a valid index below k (0 when k is 0). */
  lemma FloorBelow(x: real, k: nat)
    requires 0.0 <= x <= k as real && (0.0 < k as real ==> x < k as real)
    ensures 0 <= x.Floor && (k > 0 ==> x.Floor < k) && (k == 0 ==> x.Floor == 0)
  {
    assert x.Floor as real <= x < x.Floor as real + 1.0;
  }

  /** `Math.floor(r * k)` for a draw r in [0, 1). */
  function Pick(r: real, k: nat): (i: nat)
    requires 0.0 <= r < 1.0
    ensures k > 0 ==> i < k
    ensures k == 0 ==> i == 0
  {
    FloorBelow(Scaled(r, k), k);
    Scaled(r, k).Floor as nat
  }

  /** `Math.floor(Math.random() * 9) + 1`: an edge weight. */
  function Weight(r: real): (w: nat)
    requires 0.0 <= r < 1.0
    ensures 1 <= w <= 9
  {
    Pick(r, 9) + 1
  }

  /** `String.fromCharCode(65 + i)`: 'A', 'B', ... (codes a `char` cannot hold are not modelled). */
  function Label(i: nat): (s: string)
    ensures i < 26 ==> |s| == 1 && 'A' <= s[0] <= 'Z'
  {
    if 65 + i < 0xD800 then [(65 + i) as char] else ""
  }

  /** Node i as generated: no distance yet, DEFAULT. */
  function FreshNode(i: nat): GraphNode
  {
    GraphNode(i, Label(i), Inf, Default)
  }

  /** The distances (or keys) held on the nodes. */
  ghost function Keys(nodes: seq<GraphNode>): (keys: seq<Dist>)
    ensures |keys| == |nodes| && forall i | 0 <= i < |nodes| :: keys[i] == nodes[i].distance
  {
    seq(|nodes|, i requires 0 <= i < |nodes| => nodes[i].distance)
  }

  /** Repainting a node leaves every distance as it was. */
  lemma KeysRepaint(nodes: seq<GraphNode>, i: nat, s: Status)
    requires i < |nodes|
    ensures Keys(nodes[i := nodes[i].(status := s)]) == Keys(nodes)
  {
    assert forall k | 0 <= k < |nodes| :: Keys(nodes[i := nodes[i].(status := s)])[k] == Keys(nodes)[k];
  }

  /** `a < b` on distances, where Infinity is below nothing and above every number. */
  predicate Less(a: Dist, b: Dist)
  {
    a.Fin? && (b.Inf? || a.d < b.d)
  }

  /** No two edges of the list join the same pair of nodes. */
  ghost predicate Simple(edges: seq<GraphEdge>)
  {
    forall i, j | 0 <= i < j < |edges| :: !Joins(edges[i], edges[j].source, edges[j].target)
  }

  /** The edge joins a and b, in either direction. */
  predicate Joins(e: GraphEdge, a: nat, b: nat)
  {
    (e.source == a && e.target == b) || (e.source == b && e.target == a)
  }

  /** e has u as an end. */
  predicate Touches(e: GraphEdge, u: nat)
  {
    e.source == u || e.target == u
  }

  /** The far end of e seen from u (`edge.source === u ? edge.target : edge.source`). */
  function Other(e: GraphEdge, u: nat): (v: nat)
    ensures Touches(e, u) ==> Joins(e, u, v)
  {
    if e.source == u then e.target else e.source
  }

  /** `edges.find(e => e joins a and b)`: the first such edge, or none. */
  function FindEdge(edges: seq<GraphEdge>, a: nat, b: nat): (r: Option<nat>)
    ensures r.None? <==> forall j | 0 <= j < |edges| :: !Joins(edges[j], a, b)
    ensures r.Some? ==>
      && r.value < |edges| && Joins(edges[r.value], a, b)
      && forall j | 0 <= j < r.value :: !Joins(edges[j], a, b)
  {
    if |edges| == 0 then None
    else if Joins(edges[0], a, b) then Some(0)
    else
      var r := FindEdge(edges[1..], a, b);
      assert forall j | 1 <= j < |edges| :: edges[j] == edges[1..][j - 1];
      if r.None? then None else Some(r.value + 1)
  }

  /** `edges.filter(e => e.source === u || e.target === u)`, as edge indices in list order. */
  function Incident(edges: seq<GraphEdge>, u: nat): (r: seq<nat>)
    ensures forall k | 0 <= k < |r| :: r[k] < |edges| && Touches(edges[r[k]], u)
    ensures forall j {:trigger j in r} | 0 <= j < |edges| && Touches(edges[j], u) :: j in r
    ensures forall k, m | 0 <= k < m < |r| :: r[k] < r[m]
    decreases |edges|
  {
    if |edges| == 0 then []
    else
      var n := |edges| - 1;
      var r := Incident(edges[..n], u);
      assert forall j | 0 <= j < n :: edges[..n][j] == edges[j];
      if Touches(edges[n], u) then r + [n] else r
  }

  /** Node i has id i. */
  ghost predicate Numbered(nodes: seq<GraphNode>)
  {
    forall i | 0 <= i < |nodes| :: nodes[i].id == i
  }

  /** Every edge names two of the nodes 0 .. n-1. */
  ghost predicate EndsBelow(edges: seq<GraphEdge>, n: nat)
  {
    forall i | 0 <= i < |edges| :: edges[i].source < n && edges[i].target < n
  }

  /** `filter` on the ends only: two edge lists that differ only in statuses have the same incident edges. */
  lemma {:induction false} IncidentSameEnds(a: seq<GraphEdge>, b: seq<GraphEdge>, u: nat)
    requires |a| == |b| && forall j | 0 <= j < |a| :: a[j].source == b[j].source && a[j].target == b[j].target
    ensures Incident(a, u) == Incident(b, u)
    decreases |a|
  {
    if |a| > 0 {
      IncidentSameEnds(a[..|a| - 1], b[..|b| - 1], u);
    }
  }

  /** How many steps of the trace point at code line `line`. */
  function CountLine(steps: seq<Step>, line: nat): (c: nat)
    ensures c <= |steps|
  {
    if steps == [] then 0
    else CountLine(steps[..|steps| - 1], line) + (if steps[|steps| - 1].codeLine == Some(line) then 1 else 0)
  }

  lemma CountAppend(steps: seq<Step>, s: Step, line: nat)
    ensures CountLine(steps + [s], line) == CountLine(steps, line) + (if s.codeLine == Some(line) then 1 else 0)
  {
    assert (steps + [s])[..|steps|] == steps;
  }

  /** Each edge of the list has both ends in s or neither. */
  ghost predicate Closed(edges: seq<GraphEdge>, s: set<nat>)
  {
    forall e | e in edges :: (e.source in s <==> e.target in s)
  }

  /**
   * What `generateRandomGraph(n)` returns: nodes `node-0` .. `node-(n-1)`;
   * first the ring edges i -> (i+1) mod n, then the chords, each joining
   * two different nodes that no earlier edge joins; weights 1..9; every
   * edge DEFAULT; between n and n + ChordTries(n) edges.
   */
  ghost predicate Generated(n: nat, g: Graph)
  {
    && |g.nodes| == n
    && (forall i | 0 <= i < n :: g.nodes[i] == FreshNode(i))
    && n <= |g.edges| <= n + ChordTries(n)
    && EdgesOk(n, g.edges)
  }

  /** The edge list so far: the ring, then chords, every edge well formed. */
  ghost predicate EdgesOk(n: nat, edges: seq<GraphEdge>)
  {
    && Ring(n, edges)
    && (forall i | n <= i < |edges| :: Chord(edges, i))
    && (forall e | e in edges :: e.source < n && e.target < n && 1 <= e.weight <= 9 && e.status == Default)
  }

  /** The first n edges are the ring i -> (i+1) mod n. */
  ghost predicate Ring(n: nat, edges: seq<GraphEdge>)
  {
    n <= |edges| && forall i | 0 <= i < n :: edges[i].source == i && edges[i].target == (i + 1) % n
  }

  /** Edge i joins two different nodes that no earlier edge joins. */
  ghost predicate Chord(edges: seq<GraphEdge>, i: nat)
    requires i < |edges|
  {
    edges[i].source != edges[i].target && forall j | 0 <= j < i :: !Joins(edges[j], edges[i].source, edges[i].target)
  }

  /** `generateRandomGraph(nodeCount)`, drawing from `draws`; `used` is how many draws it took. */
  method GenerateRandomGraph(nodeCount: nat, draws: seq<real>) returns (g: Graph, used: nat)
    requires forall k | 0 <= k < |draws| :: 0.0 <= draws[k] < 1.0
    requires |draws| >= DrawsNeeded(nodeCount)
    ensures Generated(nodeCount, g) && used <= |draws|
  {
    var n := nodeCount;
    var nodes := MakeNodes(n);
    var edges := MakeRing(n, draws);
    used := n;
    // 3. add random cross edges
    var tries := ChordTries(n);
    var k := 0;
    while k < tries
      invariant k <= tries && used <= n + 13 * k
      invariant n <= |edges| <= n + k && EdgesOk(n, edges)
    {
      edges, used := TryChord(n, edges, draws, used);
      k := k + 1;
    }
    g := CloneGraph(nodes, edges);
  }

  /** 1. The nodes, `node-0` to `node-(n-1)`. */
  method MakeNodes(n: nat) returns (nodes: seq<GraphNode>)
    ensures |nodes| == n && forall k | 0 <= k < n :: nodes[k] == FreshNode(k)
  {
    nodes := [];
    var i := 0;
    while i < n
      invariant i <= n && |nodes| == i
      invariant forall k | 0 <= k < i :: nodes[k] == FreshNode(k)
    {
      nodes := nodes + [FreshNode(i)];
      i := i + 1;
    }
  }

  /** 2. The ring, one draw per edge for its weight. */
  method MakeRing(n: nat, draws: seq<real>) returns (edges: seq<GraphEdge>)
    requires forall k | 0 <= k < |draws| :: 0.0 <= draws[k] < 1.0
    requires n <= |draws|
    ensures |edges| == n && EdgesOk(n, edges)
  {
    edges := [];
    var i := 0;
    while i < n
      invariant i <= n && |edges| == i
      invariant forall k | 0 <= k < i :: edges[k].source == k && edges[k].target == (k + 1) % n
      invariant forall e | e in edges :: e.source < n && e.target < n && 1 <= e.weight <= 9 && e.status == Default
    {
      edges := edges + [GraphEdge(i, (i + 1) % n, Weight(draws[i]), Default)];
      i := i + 1;
    }
  }

  /**
   * One chord attempt: draw u and v, redraw v up to ten times while it is u
   * or a ring neighbour of u, and add edge u -> v (drawing its weight) when
   * u differs from v and no edge joins them yet.
   */
  method TryChord(n: nat, edges: seq<GraphEdge>, draws: seq<real>, used: nat) returns (edges': seq<GraphEdge>, used': nat)
    requires forall k | 0 <= k < |draws| :: 0.0 <= draws[k] < 1.0
    requires used + 13 <= |draws| && EdgesOk(n, edges)
    ensures EdgesOk(n, edges') && used < used' <= used + 13
    ensures edges' == edges || (|edges'| == |edges| + 1 && edges'[..|edges|] == edges)
  {
    var u := Pick(draws[used], n);
    var v := Pick(draws[used + 1], n);
    v, used' := Redraw(n, u, v, draws, used + 2);
    var existing := FindEdge(edges, u, v);
    edges' := edges;
    if existing.None? && u != v {
      var w := Weight(draws[used']);
      used' := used' + 1;
      edges' := edges + [GraphEdge(u, v, w, Default)];
      AddChord(n, edges, edges'[|edges|]);
    }
  }

  /** The retry loop: up to ten fresh draws of v while v is u or next to u on the ring. */
  method Redraw(n: nat, u: nat, v: nat, draws: seq<real>, used: nat) returns (v': nat, used': nat)
    requires forall k | 0 <= k < |draws| :: 0.0 <= draws[k] < 1.0
    requires used + 10 <= |draws| && (v < n || v == n == 0)
    ensures used <= used' <= used + 10 && (v' < n || v' == n == 0)
  {
    v', used' := v, used;
    var retries := 0;
    while retries < 10 && (v' == u || u - v' == 1 || v' - u == 1 || (u == 0 && v' == n - 1) || (u == n - 1 && v' == 0))
      invariant retries <= 10 && used' == used + retries
      invariant v' < n || v' == n == 0
    {
      v' := Pick(draws[used'], n);
      used' := used' + 1;
      retries := retries + 1;
    }
  }

  /** Appending a chord between two different nodes that no edge joins yet keeps the edge list well formed. */
  lemma AddChord(n: nat, edges: seq<GraphEdge>, e: GraphEdge)
    requires EdgesOk(n, edges) && e.source != e.target && e.source < n && e.target < n
    requires 1 <= e.weight <= 9 && e.status == Default
    requires forall j | 0 <= j < |edges| :: !Joins(edges[j], e.source, e.target)
    ensures EdgesOk(n, edges + [e])
  {
    var edges' := edges + [e];
    forall i | n <= i < |edges'| ensures Chord(edges', i) {
      if i < |edges| {
        assert Chord(edges, i);
        assert forall j | 0 <= j <= i :: edges'[j] == edges[j];
      }
    }
  }

  /** In a generated graph `nodes.find(n => n.id === id)` is indexing, and every edge names two of its nodes. */
  lemma GeneratedShape(n: nat, g: Graph)
    requires Generated(n, g)
    ensures Numbered(g.nodes) && EndsBelow(g.edges, n)
  {
    forall i | 0 <= i < |g.nodes| ensures g.nodes[i].id == i {
      assert g.nodes[i] == FreshNode(i);
    }
    forall i | 0 <= i < |g.edges| ensures g.edges[i].source < n && g.edges[i].target < n {
      assert g.edges[i] in g.edges;
    }
  }

  /** With at least three nodes the generated graph has no self-loop and no two edges joining the same pair. */
  lemma GeneratedSimple(n: nat, g: Graph)
    requires n >= 3 && Generated(n, g)
    ensures forall i | 0 <= i < |g.edges| :: g.edges[i].source != g.edges[i].target
    ensures forall i, j | 0 <= i < j < |g.edges| :: !Joins(g.edges[i], g.edges[j].source, g.edges[j].target)
  {
    forall i, j | 0 <= i < j < |g.edges| ensures !Joins(g.edges[i], g.edges[j].source, g.edges[j].target) {
      if j < n {
        RingDistinct(n, i, j);
      } else {
        assert Chord(g.edges, j);
      }
    }
    forall i | 0 <= i < |g.edges| ensures g.edges[i].source != g.edges[i].target {
      if i >= n {
        assert Chord(g.edges, i);
      }
    }
  }

  /** Two different ring edges of a ring of at least three nodes join different pairs. */
  lemma RingDistinct(n: nat, i: nat, j: nat)
    requires 3 <= n && i < j < n
    ensures !(i == (j + 1) % n && (i + 1) % n == j)
  {
    if j + 1 < n {
      assert (j + 1) % n == j + 1;
    } else {
      assert (j + 1) % n == 0;
      if i == 0 {
        assert (i + 1) % n == 1;
      }
    }
  }

  /**
   * The ring reaches every node: a node set that holds `node-0` and that no
   * edge leaves holds every node.
   */
  lemma RingCovers(n: nat, g: Graph, s: set<nat>)
    requires Generated(n, g) && n > 0 && 0 in s && Closed(g.edges, s)
    ensures forall i | 0 <= i < n :: i in s
  {
    forall i | 0 <= i < n ensures i in s {
      RingPrefix(n, g.edges, s, i);
    }
  }

  lemma {:induction false} RingPrefix(n: nat, edges: seq<GraphEdge>, s: set<nat>, i: nat)
    requires Ring(n, edges) && 0 in s && Closed(edges, s) && i < n
    ensures i in s
  {
    if i > 0 {
      RingPrefix(n, edges, s, i - 1);
      var e := edges[i - 1];
      assert i % n == i;
      assert e in edges && e.source == i - 1 && e.target == i;
    }
  }
}
