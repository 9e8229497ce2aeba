/**
 * The city graph: areas and hospitals are the nodes of one dense matrix of
 * route lengths, areas first (nodes 0..numAreas-1), then hospitals (node
 * numAreas + h for hospital h).  An entry of INF or more is "no recorded
 * route".  Shortest distances from one area are computed by the quadratic
 * form of Dijkstra's algorithm.
 */
module CityGraph {

  /** The "no route" sentinel; every entry at or above it is not an edge. */
  const INF: int := 1000000000

  /** The entry the loader stores at (r, c) for an area-by-hospital distance table `d`. */
  function AdjacencyEntry(numAreas: nat, numHospitals: nat, d: seq<seq<int>>, r: nat, c: nat): int
    requires |d| == numAreas && forall i :: 0 <= i < numAreas ==> |d[i]| == numHospitals
    requires r < numAreas + numHospitals && c < numAreas + numHospitals
  {
    if r < numAreas <= c then d[r][c - numAreas]
    else if c < numAreas <= r then d[c][r - numAreas]
    else INF
  }

  /** The entry at (r, c) once the pairs before area i, hospital j (in row order) are written. */
  ghost function PartialEntry(numAreas: nat, numHospitals: nat, d: seq<seq<int>>, r: nat, c: nat, i: int, j: int): int
    requires |d| == numAreas && forall a :: 0 <= a < numAreas ==> |d[a]| == numHospitals
    requires r < numAreas + numHospitals && c < numAreas + numHospitals
  {
    if r < numAreas <= c && (r < i || (r == i && c - numAreas < j)) then d[r][c - numAreas]
    else if c < numAreas <= r && (c < i || (c == i && r - numAreas < j)) then d[c][r - numAreas]
    else INF
  }

  ghost predicate Symmetric(adj: array2<int>)
    reads adj
  {
    adj.Length0 == adj.Length1 &&
    forall r, c :: 0 <= r < adj.Length0 && 0 <= c < adj.Length0 ==> adj[r, c] == adj[c, r]
  }

  ghost predicate NonNegative(adj: array2<int>)
    reads adj
  {
    forall r, c :: 0 <= r < adj.Length0 && 0 <= c < adj.Length1 ==> adj[r, c] >= 0
  }

  /**
   * The in-memory half of loading the distance table: an (A+H)x(A+H) matrix,
   * INF everywhere except that area i and hospital node A+j both hold
   * d[i][j].  A number missing from the file leaves INF at both places,
   * exactly as if INF had been given for it.
   */
  method BuildAdjacency(numAreas: nat, numHospitals: nat, d: seq<seq<int>>) returns (adj: array2<int>)
    requires |d| == numAreas && forall i :: 0 <= i < numAreas ==> |d[i]| == numHospitals
    ensures fresh(adj)
    ensures adj.Length0 == adj.Length1 == numAreas + numHospitals
    ensures forall r, c :: 0 <= r < adj.Length0 && 0 <= c < adj.Length1 ==>
      adj[r, c] == AdjacencyEntry(numAreas, numHospitals, d, r, c)
    ensures forall i, j :: 0 <= i < numAreas && 0 <= j < numHospitals ==>
      adj[i, numAreas + j] == d[i][j] == adj[numAreas + j, i]
    ensures Symmetric(adj)
    ensures forall r, c :: 0 <= r < adj.Length0 && 0 <= c < adj.Length1 && adj[r, c] < INF ==>
      (r < numAreas <= c) || (c < numAreas <= r)
  {
    var n := numAreas + numHospitals;
    adj := new int[n, n];
    var r := 0;
    while r < n
      invariant 0 <= r <= n
      invariant forall r', c :: 0 <= r' < r && 0 <= c < n ==> adj[r', c] == INF
    {
      var c := 0;
      while c < n
        invariant 0 <= c <= n
        invariant forall r', c' :: 0 <= r' < r && 0 <= c' < n ==> adj[r', c'] == INF
        invariant forall c' :: 0 <= c' < c ==> adj[r, c'] == INF
      {
        adj[r, c] := INF;
        c := c + 1;
      }
      r := r + 1;
    }

    var i := 0;
    while i < numAreas
      invariant 0 <= i <= numAreas
      invariant forall r', c' :: 0 <= r' < n && 0 <= c' < n ==>
        adj[r', c'] == PartialEntry(numAreas, numHospitals, d, r', c', i, 0)
    {
      var j := 0;
      while j < numHospitals
        invariant 0 <= j <= numHospitals
        invariant forall r', c' :: 0 <= r' < n && 0 <= c' < n ==>
          adj[r', c'] == PartialEntry(numAreas, numHospitals, d, r', c', i, j)
      {
        var areaNode := i;
        var hospNode := numAreas + j;
        adj[areaNode, hospNode] := d[i][j];
        adj[hospNode, areaNode] := d[i][j];
        j := j + 1;
      }
      i := i + 1;
    }
  }

  // ---------------------------------------------------------------------------
  // Paths and their weights

  /** x names a row and a column of the matrix. */
  ghost predicate IsNode(adj: array2<int>, x: int) {
    0 <= x < adj.Length0 && x < adj.Length1
  }

  ghost predicate AllNodes(adj: array2<int>, p: seq<int>) {
    forall k :: 0 <= k < |p| ==> IsNode(adj, p[k])
  }

  /** p is a walk from s to t whose every step is a recorded route (an entry below INF). */
  ghost predicate IsPath(adj: array2<int>, p: seq<int>, s: int, t: int)
    reads adj
  {
    |p| >= 1 && p[0] == s && p[|p| - 1] == t && AllNodes(adj, p) &&
    forall k :: 0 <= k < |p| - 1 ==> adj[p[k], p[k + 1]] < INF
  }

  /** The total length of the routes along p. */
  ghost function Weight(adj: array2<int>, p: seq<int>): int
    reads adj
    requires AllNodes(adj, p)
    decreases |p|
  {
    if |p| <= 1 then 0 else Weight(adj, p[..|p| - 1]) + adj[p[|p| - 2], p[|p| - 1]]
  }

  /** No path from src to v is shorter than d[v]. */
  ghost predicate Settled(adj: array2<int>, src: int, d: seq<int>, v: int)
    reads adj
    requires 0 <= v < |d|
  {
    forall p {:trigger IsPath(adj, p, src, v)} :: IsPath(adj, p, src, v) ==> d[v] <= Weight(adj, p)
  }

  /** Some path from src to v is exactly d[v] long. */
  ghost predicate Reached(adj: array2<int>, src: int, d: seq<int>, v: int)
    reads adj
    requires 0 <= v < |d|
  {
    exists p {:trigger IsPath(adj, p, src, v)} :: IsPath(adj, p, src, v) && Weight(adj, p) == d[v]
  }

  /**
   * d holds the shortest distances from src, capped at INF: every entry lies
   * in [0, INF], is a lower bound on every path, and when finite is the
   * length of some path.  An entry of INF means no path shorter than INF.
   */
  ghost predicate IsShortestDistances(adj: array2<int>, src: int, d: seq<int>)
    reads adj
  {
    |d| == adj.Length0 &&
    forall v :: 0 <= v < |d| ==>
      0 <= d[v] <= INF && Settled(adj, src, d, v) && (d[v] < INF ==> Reached(adj, src, d, v))
  }

  lemma {:induction false} WeightNonNegative(adj: array2<int>, p: seq<int>)
    requires NonNegative(adj) && AllNodes(adj, p)
    ensures Weight(adj, p) >= 0
    decreases |p|
  {
    if |p| > 1 {
      WeightNonNegative(adj, p[..|p| - 1]);
    }
  }

  /** A path extended by one recorded route is a path, longer by that route. */
  lemma ExtendPath(adj: array2<int>, p: seq<int>, s: int, t: int, v: int)
    requires IsPath(adj, p, s, t) && IsNode(adj, v) && adj[t, v] < INF
    ensures IsPath(adj, p + [v], s, v)
    ensures Weight(adj, p + [v]) == Weight(adj, p) + adj[t, v]
  {
    assert (p + [v])[..|p|] == p;
  }

  /** The distances are unique: two tables that both satisfy the specification are equal. */
  lemma ShortestDistancesUnique(adj: array2<int>, src: int, d1: seq<int>, d2: seq<int>)
    requires IsShortestDistances(adj, src, d1) && IsShortestDistances(adj, src, d2)
    ensures d1 == d2
  {
    forall v | 0 <= v < |d1|
      ensures d1[v] == d2[v]
    {
      if d1[v] < INF {
        var p :| IsPath(adj, p, src, v) && Weight(adj, p) == d1[v];
        assert d2[v] <= d1[v];
      }
      if d2[v] < INF {
        var p :| IsPath(adj, p, src, v) && Weight(adj, p) == d2[v];
        assert d1[v] <= d2[v];
      }
    }
  }

  /** The source is at distance 0 from itself. */
  lemma SourceAtZero(adj: array2<int>, src: int, d: seq<int>)
    requires IsShortestDistances(adj, src, d) && 0 <= src < |d| && src < adj.Length1
    ensures d[src] == 0
  {
    assert IsPath(adj, [src], src, src);
  }

  /** A node with a recorded route from the source is no farther than that route. */
  lemma DirectRouteBound(adj: array2<int>, src: int, d: seq<int>, v: int)
    requires IsShortestDistances(adj, src, d) && 0 <= src < |d| && src < adj.Length1
    requires 0 <= v < |d| && v < adj.Length1 && adj[src, v] < INF
    ensures d[v] <= adj[src, v]
  {
    assert IsPath(adj, [src], src, src);
    ExtendPath(adj, [src], src, src, v);
  }

  // ---------------------------------------------------------------------------
  // Dijkstra's algorithm

  /** Every recorded route out of x has been relaxed into d. */
  ghost predicate RelaxedFrom(adj: array2<int>, d: seq<int>, x: int)
    reads adj
    requires adj.Length0 == adj.Length1 == |d| && 0 <= x < |d|
  {
    forall y :: 0 <= y < |d| && adj[x, y] < INF ==> d[y] <= d[x] + adj[x, y]
  }

  /**
   * The state kept by the main loop: tentative distances d, the visited
   * flags, and a ghost witness path for every finite distance.  Visited
   * nodes are final and have had their routes relaxed.
   */
  ghost predicate LoopInvariant(adj: array2<int>, src: int, d: seq<int>, visited: seq<bool>, paths: seq<seq<int>>)
    reads adj
  {
    adj.Length0 == adj.Length1 == |d| == |visited| == |paths| && 0 <= src < |d| &&
    d[src] == 0 &&
    (forall v :: 0 <= v < |d| ==> 0 <= d[v] <= INF) &&
    Witnessed(adj, src, d, paths) &&
    (forall x :: 0 <= x < |d| && visited[x] ==> Settled(adj, src, d, x) && RelaxedFrom(adj, d, x))
  }

  /** Every finite tentative distance is the weight of its witness path. */
  ghost predicate Witnessed(adj: array2<int>, src: int, d: seq<int>, paths: seq<seq<int>>)
    reads adj
    requires |paths| == |d|
  {
    forall v :: 0 <= v < |d| && d[v] < INF ==> IsPath(adj, paths[v], src, v) && Weight(adj, paths[v]) == d[v]
  }

  /**
   * On a path from a visited source to an unvisited node, the first
   * unvisited node y already has a tentative distance no larger than the
   * path.
   */
  lemma {:induction false} FirstUnvisitedBound(adj: array2<int>, src: int, d: seq<int>, visited: seq<bool>,
                                                paths: seq<seq<int>>, p: seq<int>, t: int) returns (y: int)
    requires NonNegative(adj) && LoopInvariant(adj, src, d, visited, paths)
    requires IsPath(adj, p, src, t) && visited[src] && !visited[t]
    ensures 0 <= y < |d| && !visited[y] && d[y] <= Weight(adj, p)
    decreases |p|
  {
    var q := p[..|p| - 1];
    var x := q[|q| - 1];
    assert IsPath(adj, q, src, x);
    if visited[x] {
      y := t;
    } else {
      y := FirstUnvisitedBound(adj, src, d, visited, paths, q, x);
    }
  }

  /** The nearest unvisited node is final: no path to it is shorter than its tentative distance. */
  lemma SelectedIsSettled(adj: array2<int>, src: int, d: seq<int>, visited: seq<bool>, paths: seq<seq<int>>, u: int)
    requires NonNegative(adj) && LoopInvariant(adj, src, d, visited, paths)
    requires 0 <= u < |d| && !visited[u]
    requires forall i :: 0 <= i < |d| && !visited[i] ==> d[u] <= d[i]
    ensures Settled(adj, src, d, u)
  {
    forall p | IsPath(adj, p, src, u)
      ensures d[u] <= Weight(adj, p)
    {
      if visited[src] {
        var y := FirstUnvisitedBound(adj, src, d, visited, paths, p, u);
      } else {
        WeightNonNegative(adj, p);
      }
    }
  }

  /** d' is d after relaxing every recorded route out of u. */
  ghost predicate RelaxStep(adj: array2<int>, d: seq<int>, u: int, d': seq<int>)
    reads adj
    requires adj.Length0 == adj.Length1 == |d| && 0 <= u < |d|
  {
    |d'| == |d| &&
    forall v :: 0 <= v < |d| ==>
      d'[v] == if adj[u, v] < INF && d[u] + adj[u, v] < d[v] then d[u] + adj[u, v] else d[v]
  }

  /** Relaxing the routes out of a reached node u changes no settled node. */
  lemma RelaxKeepsSettled(adj: array2<int>, src: int, d: seq<int>, paths: seq<seq<int>>, u: int, d': seq<int>, x: int)
    requires NonNegative(adj) && adj.Length0 == adj.Length1 == |d| == |paths|
    requires 0 <= u < |d| && d[u] < INF && IsPath(adj, paths[u], src, u) && Weight(adj, paths[u]) == d[u]
    requires RelaxStep(adj, d, u, d')
    requires 0 <= x < |d| && Settled(adj, src, d, x)
    ensures d'[x] == d[x] && Settled(adj, src, d', x)
  {
    if adj[u, x] < INF {
      ExtendPath(adj, paths[u], src, u, x);
    }
  }

  /**
   * After relaxing from u, node v's finite distance is witnessed by u's path
   * extended to v when the distance dropped, and by v's old path otherwise.
   */
  lemma RelaxedWitness(adj: array2<int>, src: int, d: seq<int>, paths: seq<seq<int>>, u: int, d': seq<int>, v: int)
    requires adj.Length0 == adj.Length1 == |d| == |paths| && Witnessed(adj, src, d, paths)
    requires 0 <= u < |d| && 0 <= v < |d| && d[u] < INF
    requires RelaxStep(adj, d, u, d') && d'[v] < INF
    ensures var p := if d'[v] < d[v] then paths[u] + [v] else paths[v];
      IsPath(adj, p, src, v) && Weight(adj, p) == d'[v]
  {
    if d'[v] < d[v] {
      ExtendPath(adj, paths[u], src, u, v);
    }
  }

  /** After relaxing from u, every finite distance still has a witness path. */
  lemma RelaxKeepsWitnesses(adj: array2<int>, src: int, d: seq<int>, paths: seq<seq<int>>,
                            u: int, d': seq<int>) returns (paths': seq<seq<int>>)
    requires adj.Length0 == adj.Length1 == |d| == |paths| && Witnessed(adj, src, d, paths)
    requires 0 <= u < |d| && d[u] < INF && RelaxStep(adj, d, u, d')
    ensures |paths'| == |d| && Witnessed(adj, src, d', paths')
  {
    var n := |d|;
    paths' := seq(n, v requires 0 <= v < n => if d'[v] < d[v] then paths[u] + [v] else paths[v]);
    forall v | 0 <= v < n && d'[v] < INF
      ensures IsPath(adj, paths'[v], src, v) && Weight(adj, paths'[v]) == d'[v]
    {
      RelaxedWitness(adj, src, d, paths, u, d', v);
    }
  }

  /** After visiting u, every visited node is final and has its routes relaxed. */
  lemma RelaxKeepsVisited(adj: array2<int>, src: int, d: seq<int>, visited: seq<bool>, paths: seq<seq<int>>,
                          u: int, d': seq<int>)
    requires NonNegative(adj) && LoopInvariant(adj, src, d, visited, paths)
    requires 0 <= u < |d| && d[u] < INF && Settled(adj, src, d, u) && RelaxStep(adj, d, u, d')
    ensures forall x :: 0 <= x < |d| && visited[u := true][x] ==> Settled(adj, src, d', x) && d'[x] == d[x]
    ensures forall x :: 0 <= x < |d| && visited[u := true][x] ==> RelaxedFrom(adj, d', x)
  {
    var n := |d|;
    forall x | 0 <= x < n && visited[u := true][x]
      ensures Settled(adj, src, d', x) && d'[x] == d[x]
    {
      RelaxKeepsSettled(adj, src, d, paths, u, d', x);
    }
    forall x | 0 <= x < n && visited[u := true][x]
      ensures RelaxedFrom(adj, d', x)
    {
      if x != u {
        assert RelaxedFrom(adj, d, x);
      }
    }
  }

  /**
   * One round of the main loop keeps the invariant: u is the unvisited node
   * of least finite tentative distance, it becomes visited, and its routes
   * are relaxed from d into d'.
   */
  lemma VisitPreserves(adj: array2<int>, src: int, d: seq<int>, visited: seq<bool>, paths: seq<seq<int>>,
                       u: int, d': seq<int>) returns (paths': seq<seq<int>>)
    requires NonNegative(adj) && LoopInvariant(adj, src, d, visited, paths)
    requires 0 <= u < |d| && !visited[u] && d[u] < INF
    requires forall i :: 0 <= i < |d| && !visited[i] ==> d[u] <= d[i]
    requires RelaxStep(adj, d, u, d')
    ensures LoopInvariant(adj, src, d', visited[u := true], paths')
  {
    SelectedIsSettled(adj, src, d, visited, paths, u);
    paths' := RelaxKeepsWitnesses(adj, src, d, paths, u, d');
    RelaxKeepsVisited(adj, src, d, visited, paths, u, d');
    assert d'[src] == 0;
  }

  /** When every unvisited node is at INF, the tentative distances are the shortest ones. */
  lemma Finish(adj: array2<int>, src: int, d: seq<int>, visited: seq<bool>, paths: seq<seq<int>>)
    requires NonNegative(adj) && LoopInvariant(adj, src, d, visited, paths)
    requires forall v :: 0 <= v < |d| && !visited[v] ==> d[v] >= INF
    ensures IsShortestDistances(adj, src, d)
  {
    forall v | 0 <= v < |d|
      ensures Settled(adj, src, d, v) && (d[v] < INF ==> Reached(adj, src, d, v))
    {
      if !visited[v] {
        forall p | IsPath(adj, p, src, v)
          ensures d[v] <= Weight(adj, p)
        {
          var y := FirstUnvisitedBound(adj, src, d, visited, paths, p, v);
        }
      }
      if d[v] < INF {
        assert IsPath(adj, paths[v], src, v) && Weight(adj, paths[v]) == d[v];
      }
    }
  }

  /** Before the first round only the source has a finite distance, 0, witnessed by the one-node path. */
  lemma InitialInvariant(adj: array2<int>, src: int, d: seq<int>, visited: seq<bool>, paths: seq<seq<int>>)
    requires adj.Length0 == adj.Length1 == |d| == |visited| == |paths| && 0 <= src < |d|
    requires forall v :: 0 <= v < |d| ==> d[v] == (if v == src then 0 else INF) && !visited[v] && paths[v] == [src]
    ensures LoopInvariant(adj, src, d, visited, paths)
  {
    assert IsPath(adj, [src], src, src);
  }

  /** When every node has been visited, the tentative distances are the shortest ones. */
  lemma FinishAllVisited(adj: array2<int>, src: int, d: seq<int>, visited: seq<bool>, paths: seq<seq<int>>, vis: set<int>)
    requires NonNegative(adj) && LoopInvariant(adj, src, d, visited, paths)
    requires Tracks(visited, vis) && |vis| == |d|
    ensures IsShortestDistances(adj, src, d)
  {
    FullNodeSet(vis, |d|);
    assert forall v :: 0 <= v < |d| ==> visited[v] by {
      forall v | 0 <= v < |d|
        ensures visited[v]
      {
        assert v in vis;
      }
    }
    Finish(adj, src, d, visited, paths);
  }

  /** vis is exactly the set of visited nodes. */
  ghost predicate Tracks(visited: seq<bool>, vis: set<int>) {
    forall x :: x in vis <==> 0 <= x < |visited| && visited[x]
  }

  /** Visiting one more node adds it to the set, which stays within the node count. */
  lemma TrackVisit(visited: seq<bool>, vis: set<int>, u: int)
    requires Tracks(visited, vis) && 0 <= u < |visited| && !visited[u]
    ensures Tracks(visited[u := true], vis + {u})
    ensures |vis + {u}| == |vis| + 1 <= |visited|
  {
    BoundedSetSize(vis + {u}, |visited|);
  }

  /** A set of nodes below n with n members holds every node below n. */
  lemma {:induction false} FullNodeSet(s: set<int>, n: nat)
    requires forall x :: x in s ==> 0 <= x < n
    requires |s| == n
    ensures forall x :: 0 <= x < n ==> x in s
  {
    forall x | 0 <= x < n
      ensures x in s
    {
      if x !in s {
        BoundedSetSize(s + {x}, n);
      }
    }
  }

  lemma {:induction false} BoundedSetSize(s: set<int>, n: nat)
    requires forall x :: x in s ==> 0 <= x < n
    ensures |s| <= n
  {
    if n > 0 {
      BoundedSetSize(s - {n - 1}, n - 1);
    } else {
      assert forall x :: x !in s;
    }
  }

  /**
   * Picks the unvisited node of least tentative distance below INF; among
   * equal distances the lowest index wins.  -1 when every unvisited node is
   * at INF.
   */
  method SelectMin(dist: array<int>, visited: array<bool>) returns (u: int)
    requires visited.Length == dist.Length
    ensures -1 <= u < dist.Length
    ensures u == -1 <==> forall i :: 0 <= i < dist.Length && !visited[i] ==> dist[i] >= INF
    ensures u >= 0 ==> !visited[u] && dist[u] < INF
    ensures u >= 0 ==> forall i :: 0 <= i < dist.Length && !visited[i] ==> dist[u] <= dist[i]
    ensures u >= 0 ==> forall i :: 0 <= i < u && !visited[i] ==> dist[u] < dist[i]
  {
    u := -1;
    var mind := INF;
    for i := 0 to dist.Length
      invariant -1 <= u < i
      invariant u == -1 ==> mind == INF
      invariant forall k :: 0 <= k < i && !visited[k] ==> mind <= dist[k]
      invariant u >= 0 ==> !visited[u] && mind == dist[u] < INF
      invariant u >= 0 ==> forall k :: 0 <= k < u && !visited[k] ==> mind < dist[k]
    {
      if !visited[i] && dist[i] < mind {
        mind := dist[i];
        u := i;
      }
    }
  }

  /**
   * Relaxes every recorded route out of u.  The sums cannot overflow a
   * 32-bit int, because dist[u] and the route are each below INF.
   */
  method Relax(adj: array2<int>, dist: array<int>, u: int)
    requires adj.Length0 == adj.Length1 == dist.Length
    requires 0 <= u < dist.Length && 0 <= dist[u] < INF
    requires NonNegative(adj)
    modifies dist
    ensures RelaxStep(adj, old(dist[..]), u, dist[..])
  {
    var v := 0;
    while v < dist.Length
      invariant 0 <= v <= dist.Length
      invariant dist[u] == old(dist[u])
      invariant forall x :: 0 <= x < v ==>
        dist[x] == if adj[u, x] < INF && old(dist[u]) + adj[u, x] < old(dist[x])
                   then old(dist[u]) + adj[u, x] else old(dist[x])
      invariant forall x :: v <= x < dist.Length ==> dist[x] == old(dist[x])
    {
      var w := adj[u, v];
      if w < INF {
        assert 0 <= dist[u] + w < 0x8000_0000;
      }
      if w < INF && dist[u] + w < dist[v] {
        dist[v] := dist[u] + w;
      }
      v := v + 1;
    }
  }

  /** Settles the selected node u: marks it visited and relaxes its routes. */
  method Visit(adj: array2<int>, d: array<int>, visited: array<bool>, u: int, ghost src: int, ghost paths: seq<seq<int>>)
    returns (ghost paths': seq<seq<int>>)
    requires NonNegative(adj) && LoopInvariant(adj, src, d[..], visited[..], paths)
    requires 0 <= u < d.Length && !visited[u] && d[u] < INF
    requires forall i :: 0 <= i < d.Length && !visited[i] ==> d[u] <= d[i]
    modifies d, visited
    ensures LoopInvariant(adj, src, d[..], visited[..], paths')
    ensures visited[..] == old(visited[..])[u := true]
    ensures RelaxStep(adj, old(d[..]), u, d[..])
  {
    ghost var before := d[..];
    ghost var visitedBefore := visited[..];
    visited[u] := true;
    Relax(adj, d, u);
    paths' := VisitPreserves(adj, src, before, visitedBefore, paths, u, d[..]);
  }

  /** The starting table: 0 at the source, INF everywhere else. */
  method InitialDistances(n: nat, src: int) returns (d: array<int>)
    requires 0 <= src < n
    ensures fresh(d) && d.Length == n
    ensures forall v :: 0 <= v < n ==> d[v] == if v == src then 0 else INF
  {
    d := new int[n];
    for i := 0 to n
      invariant forall k :: 0 <= k < i ==> d[k] == INF
    {
      d[i] := INF;
    }
    d[src] := 0;
  }

  /**
   * Single-source shortest distances from src over the recorded routes:
   * repeatedly settle the nearest unvisited node and relax its routes, until
   * every node is visited or every unvisited node is at INF.
   */
  method ShortestDistances(adj: array2<int>, src: int) returns (dist: seq<int>)
    requires adj.Length0 == adj.Length1
    requires 0 <= src < adj.Length0
    requires NonNegative(adj)
    ensures IsShortestDistances(adj, src, dist)
  {
    var n := adj.Length0;
    var d := InitialDistances(n, src);
    var visited := new bool[n](_ => false);

    ghost var paths: seq<seq<int>> := seq(n, _ => [src]);
    ghost var vis: set<int> := {};
    InitialInvariant(adj, src, d[..], visited[..], paths);
    var count := 0;
    while count < n
      invariant 0 <= count <= n
      invariant LoopInvariant(adj, src, d[..], visited[..], paths)
      invariant Tracks(visited[..], vis) && |vis| == count
    {
      var u := SelectMin(d, visited);
      if u == -1 {
        Finish(adj, src, d[..], visited[..], paths);
        break;
      }
      TrackVisit(visited[..], vis, u);
      paths := Visit(adj, d, visited, u, src, paths);
      vis := vis + {u};
      count := count + 1;
    }
    if count == n {
      FinishAllVisited(adj, src, d[..], visited[..], paths, vis);
    }
    dist := d[..];
  }
}
