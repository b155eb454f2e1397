/**
 * Breadth-first search, depth-first search and Dijkstra's algorithm over an adjacency map
 * (GraphAlgorithms.java:45-193).  The Graph, Vertex and VertexDistance classes are replaced by
 * a map from each vertex to its ordered list of (neighbour, weight) pairs; Java's priority queue
 * becomes a multiset from which an entry of least distance is taken.
 */
module GraphAlgorithms {
  import opened Wrappers

  /** Java's Integer.MAX_VALUE, which Dijkstra's algorithm uses for "no path". */
  const IntMax: int := 2147483647

  /** The adjacency list: every vertex maps to its outgoing (neighbour, weight) pairs, in order. */
  type Graph<V> = map<V, seq<(V, nat)>>

  /** Every edge ends at a vertex of the graph, as the Graph class builds its adjacency map. */
  ghost predicate ValidGraph<V(!new)>(g: Graph<V>)
  {
    forall u, k :: u in g && 0 <= k < |g[u]| ==> g[u][k].0 in g
  }

  function Elems<V(==)>(s: seq<V>): set<V>
  {
    set x | x in s
  }

  predicate Distinct<V(==)>(s: seq<V>)
  {
    forall i, j :: 0 <= i < j < |s| ==> s[i] != s[j]
  }

  /** The neighbours of an adjacency list, in their order. */
  function Targets<V>(adj: seq<(V, nat)>): (t: seq<V>)
    ensures |t| == |adj| && forall k :: 0 <= k < |adj| ==> t[k] == adj[k].0
  {
    seq(|adj|, k requires 0 <= k < |adj| => adj[k].0)
  }

  // ---------------------------------------------------------------------------------------
  // Reachability

  /** `u -> w` is an edge of `g`. */
  ghost predicate Edge<V(!new)>(g: Graph<V>, u: V, w: V)
  {
    u in g && w in Targets(g[u])
  }

  /** `p` is a walk along edges of `g`. */
  ghost predicate Path<V(!new)>(g: Graph<V>, p: seq<V>)
  {
    |p| > 0 && forall i :: 0 <= i < |p| - 1 ==> Edge(g, p[i], p[i + 1])
  }

  /** Some walk leads from `s` to `v`. */
  ghost predicate Reachable<V(!new)>(g: Graph<V>, s: V, v: V)
  {
    exists p :: Path(g, p) && p[0] == s && p[|p| - 1] == v
  }

  /** Every edge leaving a vertex of `a` ends in `b`. */
  ghost predicate Closed<V(!new)>(g: Graph<V>, a: set<V>, b: set<V>)
  {
    forall u, k :: u in a && u in g && 0 <= k < |g[u]| ==> g[u][k].0 in b
  }

  /** A traversal from `s`: it starts at `s`, repeats no vertex and holds exactly the vertices reachable from `s`. */
  ghost predicate Traversal<V(!new)>(g: Graph<V>, s: V, out: seq<V>)
  {
    |out| > 0 && out[0] == s && Distinct(out) &&
    forall v :: v in Elems(out) <==> Reachable(g, s, v)
  }

  lemma ReachableSelf<V(!new)>(g: Graph<V>, s: V)
    ensures Reachable(g, s, s)
  {
    assert Path(g, [s]);
  }

  /** An edge `v -> w` followed by a walk from `w` is a walk from `v`. */
  lemma ReachableVia<V(!new)>(g: Graph<V>, v: V, w: V, u: V)
    requires Edge(g, v, w) && Reachable(g, w, u)
    ensures Reachable(g, v, u)
  {
    var p :| Path(g, p) && p[0] == w && p[|p| - 1] == u;
    var q := [v] + p;
    assert forall i :: 1 <= i < |q| - 1 ==> q[i] == p[i - 1] && q[i + 1] == p[i];
    assert Path(g, q);
  }

  /** A walk from `s` followed by an edge `v -> w` is a walk from `s`. */
  lemma ReachableThen<V(!new)>(g: Graph<V>, s: V, v: V, w: V)
    requires Reachable(g, s, v) && Edge(g, v, w)
    ensures Reachable(g, s, w)
  {
    var p :| Path(g, p) && p[0] == s && p[|p| - 1] == v;
    var q := p + [w];
    assert forall i :: 0 <= i < |p| ==> q[i] == p[i];
    assert Path(g, q);
  }

  /** A set that holds `s` and is closed under edges holds everything reachable from `s`. */
  lemma {:induction false} ClosedHoldsWalk<V(!new)>(g: Graph<V>, a: set<V>, p: seq<V>)
    requires Closed(g, a, a) && Path(g, p) && p[0] in a
    ensures p[|p| - 1] in a
    decreases |p|
  {
    if |p| > 1 {
      var q := p[..|p| - 1];
      assert Path(g, q) by {
        assert forall i :: 0 <= i < |q| ==> q[i] == p[i];
      }
      ClosedHoldsWalk(g, a, q);
      var u, w := p[|p| - 2], p[|p| - 1];
      assert Edge(g, u, w);
      var k :| 0 <= k < |Targets(g[u])| && Targets(g[u])[k] == w;
      assert g[u][k].0 == w;
    }
  }

  /**
   * The closing argument of both searches: a set of vertices reachable from `s` that holds `s`
   * and is closed under edges is exactly the set of vertices reachable from `s`.
   */
  lemma ClosedIsReachable<V(!new)>(g: Graph<V>, s: V, a: set<V>)
    requires s in a && Closed(g, a, a)
    requires forall v :: v in a ==> Reachable(g, s, v)
    ensures forall v :: v in a <==> Reachable(g, s, v)
  {
    forall v | Reachable(g, s, v)
      ensures v in a
    {
      var p :| Path(g, p) && p[0] == s && p[|p| - 1] == v;
      ClosedHoldsWalk(g, a, p);
    }
  }

  // ---------------------------------------------------------------------------------------
  // Breadth-first search

  /**
   * The vertices of `t` that are not in `seen`, each once, in the order of their first
   * occurrence: what bfs enqueues while it scans an adjacency list.
   */
  function Unseen<V(==)>(t: seq<V>, seen: set<V>): seq<V>
  {
    if t == [] then []
    else
      var init, last := t[..|t| - 1], t[|t| - 1];
      if last in seen || last in init then Unseen(init, seen) else Unseen(init, seen) + [last]
  }

  /** `Unseen` lists each vertex of `t` outside `seen` exactly once and nothing else. */
  lemma {:induction false} UnseenIs<V(!new)>(t: seq<V>, seen: set<V>)
    ensures Distinct(Unseen(t, seen))
    ensures Elems(Unseen(t, seen)) == Elems(t) - seen
  {
    if t != [] {
      var init, last := t[..|t| - 1], t[|t| - 1];
      UnseenIs(init, seen);
      assert t == init + [last];
      assert Elems(t) == Elems(init) + {last};
      if !(last in seen || last in init) {
        var u := Unseen(init, seen);
        assert last !in Elems(u);
        assert Elems(u + [last]) == Elems(u) + {last};
        forall i, j | 0 <= i < j < |u| + 1
          ensures (u + [last])[i] != (u + [last])[j]
        {
          if j == |u| {
            assert (u + [last])[i] in Elems(u);
          }
        }
      }
    }
  }

  /**
   * The inner loop of bfs (GraphAlgorithms.java:60-65): every neighbour of `u` that is not yet
   * visited is marked visited and enqueued, in adjacency order.
   */
  method EnqueueNeighbours<V(==, !new)>(g: Graph<V>, u: V, queue: seq<V>, visited: set<V>)
    returns (queue': seq<V>, visited': set<V>)
    requires u in g
    ensures queue' == queue + Unseen(Targets(g[u]), visited)
    ensures visited' == visited + Elems(Targets(g[u]))
  {
    var adj := g[u];
    var t := Targets(adj);
    queue', visited' := queue, visited;
    var i := 0;
    while i < |adj|
      invariant 0 <= i <= |adj|
      invariant queue' == queue + Unseen(t[..i], visited)
      invariant visited' == visited + Elems(t[..i])
    {
      var w := adj[i].0;
      assert t[..i + 1] == t[..i] + [w];
      assert t[..i + 1][..i] == t[..i];
      if w !in visited' {
        queue' := queue' + [w];
        visited' := visited' + {w};
      }
      i := i + 1;
    }
    assert t[..|adj|] == t;
  }

  /** The state of bfs's outer loop. */
  ghost predicate BfsState<V(!new)>(g: Graph<V>, s: V, queue: seq<V>, visited: set<V>, result: seq<V>)
  {
    visited <= g.Keys &&
    visited == Elems(result + queue) && Distinct(result + queue) &&
    |result + queue| > 0 && (result + queue)[0] == s &&
    (forall v :: v in visited ==> Reachable(g, s, v)) &&
    Closed(g, Elems(result), visited)
  }

  /** One round of bfs keeps its loop state. */
  lemma BfsStep<V(!new)>(g: Graph<V>, s: V, queue: seq<V>, visited: set<V>, result: seq<V>,
                   queue': seq<V>, visited': set<V>, result': seq<V>)
    requires ValidGraph(g) && BfsState(g, s, queue, visited, result) && queue != []
    requires result' == result + [queue[0]]
    requires queue' == queue[1..] + Unseen(Targets(g[queue[0]]), visited)
    requires visited' == visited + Elems(Targets(g[queue[0]]))
    ensures BfsState(g, s, queue', visited', result')
    ensures queue[0] !in Elems(result) && Elems(result') == Elems(result) + {queue[0]}
  {
    var u := queue[0];
    var t := Targets(g[u]);
    var added := Unseen(t, visited);
    UnseenIs(t, visited);
    assert result + queue == result' + queue[1..];
    assert result' + queue' == (result + queue) + added;
    var old_all, all := result + queue, result' + queue';
    assert |result| < |old_all| && old_all[|result|] == u;
    forall i, j | 0 <= i < j < |all|
      ensures all[i] != all[j]
    {
      if j >= |old_all| {
        assert all[j] in Elems(added);
        if i < |old_all| {
          assert all[i] in Elems(old_all);
        } else {
          assert all[i] == added[i - |old_all|] && all[j] == added[j - |old_all|];
        }
      }
    }
    assert Elems(all) == Elems(old_all) + Elems(added);
    forall v | v in visited'
      ensures Reachable(g, s, v)
    {
      if v !in visited {
        assert Edge(g, u, v);
        ReachableThen(g, s, u, v);
      }
    }
    forall x | x in result
      ensures x in Elems(old_all)
    {
      var i :| 0 <= i < |result| && result[i] == x;
      assert old_all[i] == x;
    }
    assert u in Elems(old_all);
    forall i | 0 <= i < |result|
      ensures result[i] != u
    {
      assert result[i] == old_all[i];
    }
    assert Elems(result') == Elems(result) + {u};
  }

  /**
   * GraphAlgorithms.java:45-68: breadth-first search.  A start vertex outside the graph is an
   * IllegalArgumentException; otherwise the output begins at `start`, repeats no vertex and
   * holds exactly the vertices reachable from it.
   */
  method Bfs<V(==, !new)>(start: V, g: Graph<V>) returns (r: Result<seq<V>>)
    requires ValidGraph(g)
    ensures r.Err? <==> start !in g
    ensures r.Err? ==> r.error == IllegalArgument
    ensures r.Ok? ==> Traversal(g, start, r.value)
  {
    if start !in g {
      return Err(IllegalArgument);
    }
    var queue := [start];
    var visited := {start};
    var result := [];
    ReachableSelf(g, start);
    assert result + queue == [start];
    while queue != []
      invariant BfsState(g, start, queue, visited, result)
      decreases g.Keys - Elems(result)
    {
      var tmp := queue[0];
      ghost var queue0, visited0, result0 := queue, visited, result;
      queue := queue[1..];
      result := result + [tmp];
      queue, visited := EnqueueNeighbours(g, tmp, queue, visited);
      BfsStep(g, start, queue0, visited0, result0, queue, visited, result);
    }
    assert result + queue == result;
    ClosedIsReachable(g, start, visited);
    return Ok(result);
  }

  // ---------------------------------------------------------------------------------------
  // Depth-first search

  /**
   * The state the recursive helper of GraphAlgorithms.java:119-129 leaves when it is entered
   * at `v` with visited set `vis` and output `out`: `v` is appended and marked, then the
   * neighbours of `v` are walked in adjacency order.
   */
  ghost function DfsFrom<V(!new)>(g: Graph<V>, v: V, vis: set<V>, out: seq<V>): (r: (set<V>, seq<V>))
    requires ValidGraph(g) && v in g && v !in vis
    ensures vis + {v} <= r.0
    decreases g.Keys - vis, 0, 0
  {
    DfsEach(g, v, 0, vis + {v}, out + [v])
  }

  /**
   * The for-each loop of the helper from the `i`-th neighbour of `v` on: a neighbour already
   * visited is skipped, an unvisited one is explored to the end before the next is looked at.
   */
  ghost function DfsEach<V(!new)>(g: Graph<V>, v: V, i: nat, vis: set<V>, out: seq<V>): (r: (set<V>, seq<V>))
    requires ValidGraph(g) && v in g && i <= |g[v]|
    ensures vis <= r.0
    decreases g.Keys - vis, 1, |g[v]| - i
  {
    if i == |g[v]| then (vis, out)
    else
      var w := g[v][i].0;
      if w in vis then DfsEach(g, v, i + 1, vis, out)
      else
        var next := DfsFrom(g, w, vis, out);
        assert w in g.Keys - vis && w !in g.Keys - next.0;
        DfsEach(g, v, i + 1, next.0, next.1)
  }

  /**
   * GraphAlgorithms.java:119-129: the recursive helper.  It appends `v` to the result, marks it
   * visited and explores each unvisited neighbour in adjacency order, leaving exactly the state
   * `DfsFrom` describes.  Every vertex it adds is reachable from `v` and, once it returns, has
   * all its neighbours visited.
   */
  method DfsVisit<V(==, !new)>(v: V, g: Graph<V>, visited: set<V>, result: seq<V>)
    returns (visited': set<V>, result': seq<V>)
    requires ValidGraph(g) && v in g && v !in visited && visited <= g.Keys
    requires Elems(result) == visited && Distinct(result)
    ensures (visited', result') == DfsFrom(g, v, visited, result)
    ensures visited + {v} <= visited' <= g.Keys
    ensures Elems(result') == visited' && Distinct(result')
    ensures |result'| > |result| && result'[..|result|] == result && result'[|result|] == v
    ensures forall u :: u in visited' - visited ==> Reachable(g, v, u)
    ensures Closed(g, visited' - visited, visited')
    decreases g.Keys - visited
  {
    result' := result + [v];
    visited' := visited + {v};
    ReachableSelf(g, v);
    forall i, j | 0 <= i < j < |result'|
      ensures result'[i] != result'[j]
    {
      if j == |result| {
        assert result'[i] in Elems(result);
      }
    }
    var adj := g[v];
    var i := 0;
    while i < |adj|
      invariant DfsLoop(g, v, visited, result, i, visited', result')
      invariant DfsEach(g, v, i, visited', result') == DfsFrom(g, v, visited, result)
    {
      var w := adj[i].0;
      if w in visited' {
        assert DfsEach(g, v, i + 1, visited', result') == DfsFrom(g, v, visited, result);
      } else {
        ghost var visited1, result1 := visited', result';
        visited', result' := DfsVisit(w, g, visited', result');
        assert DfsEach(g, v, i + 1, visited', result') == DfsFrom(g, v, visited, result) by {
          assert DfsEach(g, v, i, visited1, result1) == DfsEach(g, v, i + 1, visited', result');
        }
        DfsChildDone(g, v, visited, result, i, visited1, result1, visited', result');
      }
      i := i + 1;
    }
    assert DfsEach(g, v, i, visited', result') == (visited', result');
  }

  /**
   * The state of the helper's for-each loop once the first `i` neighbours of `v` have been
   * looked at: `v` and all vertices added since are distinct, reachable from `v`, and every
   * one of them but `v` has all its neighbours visited, as have the first `i` of `v`.
   */
  ghost predicate DfsLoop<V(!new)>(g: Graph<V>, v: V, visited: set<V>, result: seq<V>, i: int,
                                   vis: set<V>, out: seq<V>)
  {
    ValidGraph(g) && v in g && 0 <= i <= |g[v]| &&
    visited + {v} <= vis <= g.Keys && Elems(out) == vis && Distinct(out) &&
    |out| > |result| && out[..|result|] == result && out[|result|] == v &&
    (forall u :: u in vis - visited ==> Reachable(g, v, u)) &&
    Closed(g, vis - visited - {v}, vis) &&
    (forall k :: 0 <= k < i ==> g[v][k].0 in vis)
  }

  /** Exploring the unvisited `i`-th neighbour of `v` to the end keeps the loop's state. */
  lemma DfsChildDone<V(!new)>(g: Graph<V>, v: V, visited: set<V>, result: seq<V>, i: int,
                              vis: set<V>, out: seq<V>, vis': set<V>, out': seq<V>)
    requires DfsLoop(g, v, visited, result, i, vis, out) && i < |g[v]| && g[v][i].0 !in vis
    requires vis + {g[v][i].0} <= vis' <= g.Keys && Elems(out') == vis' && Distinct(out')
    requires |out'| > |out| && out'[..|out|] == out
    requires forall u :: u in vis' - vis ==> Reachable(g, g[v][i].0, u)
    requires Closed(g, vis' - vis, vis')
    ensures DfsLoop(g, v, visited, result, i + 1, vis', out')
  {
    var w := g[v][i].0;
    assert out'[..|result|] == out[..|result|];
    assert Edge(g, v, w) by {
      assert Targets(g[v])[i] == w;
    }
    forall u | u in vis' - visited
      ensures Reachable(g, v, u)
    {
      if u !in vis {
        ReachableVia(g, v, w, u);
      }
    }
  }

  /**
   * The search from `start` on a graph with vertices 0, 1, 2 and 3, where 0 lists 2 before 1,
   * 2 leads to 3 and 1 leads back to 0: neighbours are explored in the order they are listed
   * and each branch to its end, giving 0, 2, 3, 1.
   */
  lemma DfsFollowsAdjacency()
    ensures var g := map[0 := [(2, 1), (1, 1)], 1 := [(0, 1)], 2 := [(3, 1)], 3 := []];
            ValidGraph(g) && DfsFrom(g, 0, {}, []).1 == [0, 2, 3, 1]
  {
    var g: Graph<int> := map[0 := [(2, 1), (1, 1)], 1 := [(0, 1)], 2 := [(3, 1)], 3 := []];
    assert ValidGraph(g) by {
      forall u, k | u in g && 0 <= k < |g[u]|
        ensures g[u][k].0 in g
      {
      }
    }
    assert g[3] == [] && g[2] == [(3, 1)] && g[1] == [(0, 1)] && g[0] == [(2, 1), (1, 1)];
    assert DfsEach(g, 3, 0, {0, 2, 3}, [0, 2, 3]) == ({0, 2, 3}, [0, 2, 3]);
    assert {0, 2} + {3} == {0, 2, 3} && [0, 2] + [3] == [0, 2, 3];
    assert DfsFrom(g, 3, {0, 2}, [0, 2]) == ({0, 2, 3}, [0, 2, 3]);
    assert DfsEach(g, 2, 1, {0, 2, 3}, [0, 2, 3]) == ({0, 2, 3}, [0, 2, 3]);
    assert DfsEach(g, 2, 0, {0, 2}, [0, 2]) == ({0, 2, 3}, [0, 2, 3]);
    assert {0} + {2} == {0, 2} && [0] + [2] == [0, 2];
    assert DfsFrom(g, 2, {0}, [0]) == ({0, 2, 3}, [0, 2, 3]);
    assert DfsEach(g, 1, 1, {0, 1, 2, 3}, [0, 2, 3, 1]) == ({0, 1, 2, 3}, [0, 2, 3, 1]);
    assert DfsEach(g, 1, 0, {0, 1, 2, 3}, [0, 2, 3, 1]) == ({0, 1, 2, 3}, [0, 2, 3, 1]);
    assert {0, 2, 3} + {1} == {0, 1, 2, 3} && [0, 2, 3] + [1] == [0, 2, 3, 1];
    assert DfsFrom(g, 1, {0, 2, 3}, [0, 2, 3]) == ({0, 1, 2, 3}, [0, 2, 3, 1]);
    assert DfsEach(g, 0, 2, {0, 1, 2, 3}, [0, 2, 3, 1]) == ({0, 1, 2, 3}, [0, 2, 3, 1]);
    assert DfsEach(g, 0, 1, {0, 2, 3}, [0, 2, 3]) == ({0, 1, 2, 3}, [0, 2, 3, 1]);
    assert {} + {0} == {0} && [] + [0] == [0];
    assert DfsEach(g, 0, 0, {0}, [0]) == ({0, 1, 2, 3}, [0, 2, 3, 1]);
  }


  /**
   * GraphAlgorithms.java:98-108: depth-first search.  A start vertex outside the graph is an
   * IllegalArgumentException; otherwise the output begins at `start`, repeats no vertex,
   * holds exactly the vertices reachable from it and lists them in the order `DfsFrom` gives.
   */
  method Dfs<V(==, !new)>(start: V, g: Graph<V>) returns (r: Result<seq<V>>)
    requires ValidGraph(g)
    ensures r.Err? <==> start !in g
    ensures r.Err? ==> r.error == IllegalArgument
    ensures r.Ok? ==> Traversal(g, start, r.value)
    ensures r.Ok? ==> r.value == DfsFrom(g, start, {}, []).1
  {
    if start !in g {
      return Err(IllegalArgument);
    }
    var visited, result := DfsVisit(start, g, {}, []);
    assert visited - {} == visited;
    ClosedIsReachable(g, start, visited);
    return Ok(result);
  }

  // ---------------------------------------------------------------------------------------
  // Dijkstra's algorithm

  /** The total weight of a list of edge weights. */
  function Weight(ws: seq<nat>): nat
  {
    if ws == [] then 0 else Weight(ws[..|ws| - 1]) + ws[|ws| - 1]
  }

  /** `p` is a walk of `g` whose i-th step uses an edge of weight `ws[i]`. */
  ghost predicate WeightedPath<V(!new)>(g: Graph<V>, p: seq<V>, ws: seq<nat>)
  {
    |p| == |ws| + 1 &&
    forall i :: 0 <= i < |ws| ==> p[i] in g && (p[i + 1], ws[i]) in g[p[i]]
  }

  /** Some walk from `s` to `v` weighs exactly `d`. */
  ghost predicate PathOfWeight<V(!new)>(g: Graph<V>, s: V, v: V, d: int)
  {
    exists p, ws :: WeightedPath(g, p, ws) && p[0] == s && p[|p| - 1] == v && Weight(ws) == d
  }

  /**
   * What dijkstras promises: every vertex has an entry; a finite entry is the weight of a walk
   * from `s`, and no walk lighter than Integer.MAX_VALUE is lighter than the entry.  So a
   * vertex within reach ends at its shortest distance and any other stays at MAX_VALUE.
   */
  ghost predicate ShortestDistances<V(!new)>(g: Graph<V>, s: V, d: map<V, int>)
  {
    d.Keys == g.Keys && s in d && d[s] == 0 &&
    (forall v :: v in d ==> 0 <= d[v] <= IntMax && (d[v] < IntMax ==> PathOfWeight(g, s, v, d[v]))) &&
    (forall p, ws :: WeightedPath(g, p, ws) && p[0] == s && p[|p| - 1] in d && Weight(ws) < IntMax ==>
       d[p[|p| - 1]] <= Weight(ws))
  }

  /** The labels: every vertex has one, the start's is 0, and a finite one is a walk's weight. */
  ghost predicate Labels<V(!new)>(g: Graph<V>, s: V, dist: map<V, int>)
  {
    dist.Keys == g.Keys && s in dist && dist[s] == 0 &&
    forall v :: v in dist ==> 0 <= dist[v] <= IntMax && (dist[v] < IntMax ==> PathOfWeight(g, s, v, dist[v]))
  }

  /** Every queued entry names a vertex, is no smaller than its label and is a walk's weight. */
  ghost predicate Entries<V(!new)>(g: Graph<V>, s: V, dist: map<V, int>, queue: multiset<(V, int)>)
  {
    forall e :: e in queue ==> e.0 in dist && dist[e.0] <= e.1 < IntMax && PathOfWeight(g, s, e.0, e.1)
  }

  /** No edge leaving `u` can lower its target's label. */
  ghost predicate Relaxed<V(!new)>(g: Graph<V>, dist: map<V, int>, u: V)
    requires dist.Keys == g.Keys && ValidGraph(g) && u in g
  {
    forall k :: 0 <= k < |g[u]| ==> dist[g[u][k].0] <= dist[u] + g[u][k].1
  }

  /** A vertex with a finite label either still waits in the queue with that label or is relaxed. */
  ghost predicate Settled<V(!new)>(g: Graph<V>, dist: map<V, int>, queue: multiset<(V, int)>, u: V)
    requires dist.Keys == g.Keys && ValidGraph(g)
  {
    u in g && dist[u] < IntMax && (u, dist[u]) !in queue ==> Relaxed(g, dist, u)
  }

  /** The state of dijkstras's outer loop. */
  ghost predicate Searching<V(!new)>(g: Graph<V>, s: V, dist: map<V, int>, queue: multiset<(V, int)>)
  {
    ValidGraph(g) && Labels(g, s, dist) && Entries(g, s, dist, queue) &&
    forall u :: Settled(g, dist, queue, u)
  }

  /** The labels still to be given up: each label counts as that many pending units. */
  ghost function Pending<V(!new)>(dist: map<V, int>): set<(V, int)>
  {
    set v, k | v in dist && 0 <= k < dist[v] :: (v, k)
  }

  /** Lowering one label loses pending units. */
  lemma PendingShrinks<V(!new)>(dist: map<V, int>, w: V, x: int)
    requires w in dist && 0 <= x < dist[w]
    ensures Pending(dist[w := x]) < Pending(dist)
  {
    assert (w, x) in Pending(dist);
    assert (w, x) !in Pending(dist[w := x]);
  }

  /** A non-empty priority queue has an entry of least distance. */
  lemma {:induction false} MinExists<V(!new)>(q: multiset<(V, int)>)
    requires q != multiset{}
    ensures exists e :: e in q && forall x :: x in q ==> e.1 <= x.1
    decreases |q|
  {
    var y :| y in q;
    var rest := q - multiset{y};
    forall x | x in q && x != y
      ensures x in rest
    {
      assert rest[x] == q[x];
    }
    if rest == multiset{} {
      assert forall x :: x in q ==> y.1 <= x.1;
    } else {
      MinExists(rest);
      var m :| m in rest && forall x :: x in rest ==> m.1 <= x.1;
      var e := if y.1 <= m.1 then y else m;
      assert e in q && forall x :: x in q ==> e.1 <= x.1;
    }
  }

  /** A walk from `s` to `u` followed by an edge out of `u` is a walk from `s`. */
  lemma PathExtend<V(!new)>(g: Graph<V>, s: V, u: V, d: int, k: int)
    requires PathOfWeight(g, s, u, d) && u in g && 0 <= k < |g[u]|
    ensures PathOfWeight(g, s, g[u][k].0, d + g[u][k].1)
  {
    var p, ws :| WeightedPath(g, p, ws) && p[0] == s && p[|p| - 1] == u && Weight(ws) == d;
    var p', ws' := p + [g[u][k].0], ws + [g[u][k].1];
    assert ws'[..|ws'| - 1] == ws;
    assert g[u][k] in g[u];
    forall i | 0 <= i < |ws'|
      ensures p'[i] in g && (p'[i + 1], ws'[i]) in g[p'[i]]
    {
      if i < |ws| {
        assert p'[i] == p[i] && p'[i + 1] == p[i + 1] && ws'[i] == ws[i];
      }
    }
    assert WeightedPath(g, p', ws');
  }

  /**
   * GraphAlgorithms.java:172-178: the result map gives the start 0 and every other vertex
   * Integer.MAX_VALUE.
   */
  method InitialDistances<V(==, !new)>(start: V, g: Graph<V>) returns (dist: map<V, int>)
    ensures dist.Keys == g.Keys
    ensures forall v :: v in dist ==> dist[v] == if v == start then 0 else IntMax
  {
    dist := map[];
    var rest := g.Keys;
    while rest != {}
      invariant rest <= g.Keys && dist.Keys == g.Keys - rest
      invariant forall v :: v in dist ==> dist[v] == if v == start then 0 else IntMax
      decreases rest
    {
      var v :| v in rest;
      if v == start {
        dist := dist[v := 0];
      } else {
        dist := dist[v := IntMax];
      }
      rest := rest - {v};
    }
  }

  /** The state of the relaxation loop while the edges of `u`, taken with distance `d`, are scanned. */
  ghost predicate Relaxing<V(!new)>(g: Graph<V>, s: V, dist: map<V, int>, queue: multiset<(V, int)>,
                              u: V, d: int, i: int)
  {
    ValidGraph(g) && Labels(g, s, dist) && Entries(g, s, dist, queue) &&
    u in g && 0 <= i <= |g[u]| && dist[u] <= d < IntMax && PathOfWeight(g, s, u, d) &&
    OthersSettled(g, dist, queue, u) && Scanned(g, dist, queue, u, d, i)
  }

  /** Every vertex but `u` is settled. */
  ghost predicate OthersSettled<V(!new)>(g: Graph<V>, dist: map<V, int>, queue: multiset<(V, int)>, u: V)
    requires dist.Keys == g.Keys && ValidGraph(g)
  {
    forall v :: v != u ==> Settled(g, dist, queue, v)
  }

  /**
   * The scan of `u`'s edges so far: when `d` is still `u`'s label, its first `i` edges are
   * relaxed; otherwise `u` has been given a lower label and is settled on its own.
   */
  ghost predicate Scanned<V(!new)>(g: Graph<V>, dist: map<V, int>, queue: multiset<(V, int)>, u: V, d: int, i: int)
    requires dist.Keys == g.Keys && ValidGraph(g) && u in g && 0 <= i <= |g[u]|
  {
    if d == dist[u] then forall k :: 0 <= k < i ==> dist[g[u][k].0] <= d + g[u][k].1
    else Settled(g, dist, queue, u)
  }

  /** Lowering the label of `w` to the weight `x` of a walk keeps the labels. */
  lemma LowerLabels<V(!new)>(g: Graph<V>, s: V, dist: map<V, int>, w: V, x: int)
    requires Labels(g, s, dist) && w in dist && 0 <= x < dist[w] && PathOfWeight(g, s, w, x)
    ensures Labels(g, s, dist[w := x])
  {
  }

  /** Queueing `w` with its new label `x` keeps the entries. */
  lemma LowerEntries<V(!new)>(g: Graph<V>, s: V, dist: map<V, int>, queue: multiset<(V, int)>, w: V, x: int)
    requires Entries(g, s, dist, queue) && w in dist && 0 <= x < dist[w] <= IntMax && PathOfWeight(g, s, w, x)
    ensures Entries(g, s, dist[w := x], queue + multiset{(w, x)})
  {
    var dist', queue' := dist[w := x], queue + multiset{(w, x)};
    forall e | e in queue'
      ensures e.0 in dist' && dist'[e.0] <= e.1 < IntMax && PathOfWeight(g, s, e.0, e.1)
    {
      if e != (w, x) {
        assert e in queue;
      }
    }
  }

  /** Lowering the label of `w` and queueing it keeps every vertex settled. */
  lemma LowerSettled<V(!new)>(g: Graph<V>, dist: map<V, int>, queue: multiset<(V, int)>, w: V, x: int, v: V)
    requires dist.Keys == g.Keys && ValidGraph(g) && w in dist && x < dist[w]
    requires Settled(g, dist, queue, v)
    ensures Settled(g, dist[w := x], queue + multiset{(w, x)}, v)
  {
    var dist', queue' := dist[w := x], queue + multiset{(w, x)};
    if v in g && v != w && dist'[v] < IntMax && (v, dist'[v]) !in queue' {
      assert (v, dist[v]) !in queue;
      assert Relaxed(g, dist, v);
      forall k | 0 <= k < |g[v]|
        ensures dist'[g[v][k].0] <= dist'[v] + g[v][k].1
      {
        assert dist'[g[v][k].0] <= dist[g[v][k].0];
      }
    }
  }

  /** Relaxing one edge that lowers a label keeps the relaxation loop's state. */
  lemma RelaxLowers<V(!new)>(g: Graph<V>, s: V, dist: map<V, int>, queue: multiset<(V, int)>,
                             u: V, d: int, i: int)
    requires Relaxing(g, s, dist, queue, u, d, i) && i < |g[u]|
    requires dist[g[u][i].0] > d + g[u][i].1
    ensures Relaxing(g, s, dist[g[u][i].0 := d + g[u][i].1],
                     queue + multiset{(g[u][i].0, d + g[u][i].1)}, u, d, i + 1)
    ensures dist[g[u][i].0 := d + g[u][i].1][u] == dist[u]
    ensures Pending(dist[g[u][i].0 := d + g[u][i].1]) < Pending(dist)
  {
    var w, x := g[u][i].0, d + g[u][i].1;
    PathExtend(g, s, u, d, i);
    PendingShrinks(dist, w, x);
    LowerLabels(g, s, dist, w, x);
    LowerEntries(g, s, dist, queue, w, x);
    LowerOthers(g, dist, queue, w, x, u);
    ScanLowers(g, dist, queue, u, d, i);
  }

  /** Lowering the label of `w` and queueing it keeps every vertex but `u` settled. */
  lemma LowerOthers<V(!new)>(g: Graph<V>, dist: map<V, int>, queue: multiset<(V, int)>, w: V, x: int, u: V)
    requires dist.Keys == g.Keys && ValidGraph(g) && w in dist && x < dist[w]
    requires OthersSettled(g, dist, queue, u)
    ensures OthersSettled(g, dist[w := x], queue + multiset{(w, x)}, u)
  {
    var dist', queue' := dist[w := x], queue + multiset{(w, x)};
    forall v | v != u
      ensures Settled(g, dist', queue', v)
    {
      LowerSettled(g, dist, queue, w, x, v);
    }
  }

  /** Lowering the label at the `i`-th edge of `u` to `d` plus its weight extends the scan. */
  lemma ScanLowers<V(!new)>(g: Graph<V>, dist: map<V, int>, queue: multiset<(V, int)>, u: V, d: int, i: int)
    requires ValidGraph(g) && dist.Keys == g.Keys && u in g && 0 <= i < |g[u]| && dist[u] <= d
    requires Scanned(g, dist, queue, u, d, i)
    requires dist[g[u][i].0] > d + g[u][i].1
    ensures Scanned(g, dist[g[u][i].0 := d + g[u][i].1], queue + multiset{(g[u][i].0, d + g[u][i].1)}, u, d, i + 1)
  {
    var w, x := g[u][i].0, d + g[u][i].1;
    var dist' := dist[w := x];
    if d == dist[u] {
      forall k | 0 <= k < i + 1
        ensures dist'[g[u][k].0] <= d + g[u][k].1
      {
        if k < i {
          assert dist'[g[u][k].0] <= dist[g[u][k].0];
        }
      }
    } else {
      LowerSettled(g, dist, queue, w, x, u);
    }
  }

  /** Relaxing one edge that lowers nothing keeps the relaxation loop's state. */
  lemma RelaxKeeps<V(!new)>(g: Graph<V>, s: V, dist: map<V, int>, queue: multiset<(V, int)>,
                            u: V, d: int, i: int)
    requires Relaxing(g, s, dist, queue, u, d, i) && i < |g[u]|
    requires dist[g[u][i].0] <= d + g[u][i].1
    ensures Relaxing(g, s, dist, queue, u, d, i + 1)
  {
  }

  /** Since the scan began, labels have been given up, or nothing has changed at all. */
  ghost predicate Progress<V(!new)>(dist': map<V, int>, queue': multiset<(V, int)>,
                                    dist: map<V, int>, queue: multiset<(V, int)>)
  {
    Pending(dist') < Pending(dist) || (dist' == dist && queue' == queue)
  }

  /** One turn of the relaxation loop keeps its invariant. */
  lemma RelaxStep<V(!new)>(g: Graph<V>, s: V, dist: map<V, int>, queue: multiset<(V, int)>, u: V, d: int,
                           dist0: map<V, int>, queue0: multiset<(V, int)>, i0: int,
                           dist1: map<V, int>, queue1: multiset<(V, int)>, i1: int)
    requires Relaxing(g, s, dist0, queue0, u, d, i0) && i0 < |g[u]| && i1 == i0 + 1
    requires u in dist && dist0[u] == dist[u] && Progress(dist0, queue0, dist, queue)
    requires var w, x := g[u][i0].0, d + g[u][i0].1;
      if dist0[w] > x then dist1 == dist0[w := x] && queue1 == queue0 + multiset{(w, x)}
      else dist1 == dist0 && queue1 == queue0
    ensures Relaxing(g, s, dist1, queue1, u, d, i1) && dist1[u] == dist[u]
    ensures Progress(dist1, queue1, dist, queue)
  {
    if dist0[g[u][i0].0] > d + g[u][i0].1 {
      RelaxLowers(g, s, dist0, queue0, u, d, i0);
    } else {
      RelaxKeeps(g, s, dist0, queue0, u, d, i0);
    }
  }

  /**
   * GraphAlgorithms.java:183-190: the edges of `u`, taken with the queued distance `d`, are
   * relaxed in adjacency order; each lowered label is queued with its new value.
   */
  method RelaxEdges<V(==, !new)>(g: Graph<V>, ghost s: V, dist: map<V, int>, queue: multiset<(V, int)>, u: V, d: int)
    returns (dist': map<V, int>, queue': multiset<(V, int)>)
    requires Relaxing(g, s, dist, queue, u, d, 0)
    ensures u in g && Relaxing(g, s, dist', queue', u, d, |g[u]|) && dist'[u] == dist[u]
    ensures Progress(dist', queue', dist, queue)
  {
    var adj := g[u];
    dist', queue' := dist, queue;
    var i := 0;
    while i < |adj|
      invariant Relaxing(g, s, dist', queue', u, d, i) && dist'[u] == dist[u]
      invariant Progress(dist', queue', dist, queue)
    {
      var w := adj[i].0;
      var distance := d + adj[i].1;
      ghost var dist0, queue0, i0 := dist', queue', i;
      if dist'[w] > distance {
        dist' := dist'[w := distance];
        queue' := queue' + multiset{(w, distance)};
      }
      i := i + 1;
      RelaxStep(g, s, dist, queue, u, d, dist0, queue0, i0, dist', queue', i);
    }
  }

  /** After the scan the popped entry's vertex is settled again. */
  lemma RelaxDone<V(!new)>(g: Graph<V>, s: V, dist: map<V, int>, queue: multiset<(V, int)>, u: V, d: int)
    requires u in g && Relaxing(g, s, dist, queue, u, d, |g[u]|)
    ensures Searching(g, s, dist, queue)
  {
    forall v
      ensures Settled(g, dist, queue, v)
    {
      if v == u && d == dist[u] {
        assert Relaxed(g, dist, u);
      }
    }
  }

  /** Taking an entry other than `(v, dist[v])` off the queue keeps `v` settled. */
  lemma PopKeepsSettled<V(!new)>(g: Graph<V>, dist: map<V, int>, queue: multiset<(V, int)>, e: (V, int), v: V)
    requires dist.Keys == g.Keys && ValidGraph(g) && Settled(g, dist, queue, v)
    requires v in g ==> (v, dist[v]) != e
    ensures Settled(g, dist, queue - multiset{e}, v)
  {
    if v in g && (v, dist[v]) in queue {
      assert (v, dist[v]) in queue - multiset{e};
    }
  }

  /** Taking an entry off the queue starts the relaxation loop. */
  lemma PopStarts<V(!new)>(g: Graph<V>, s: V, dist: map<V, int>, queue: multiset<(V, int)>, e: (V, int))
    requires Searching(g, s, dist, queue) && e in queue
    ensures Relaxing(g, s, dist, queue - multiset{e}, e.0, e.1, 0)
  {
    var rest := queue - multiset{e};
    forall v | v != e.0
      ensures Settled(g, dist, rest, v)
    {
      PopKeepsSettled(g, dist, queue, e, v);
    }
    if e.1 != dist[e.0] {
      PopKeepsSettled(g, dist, queue, e, e.0);
    }
  }

  /**
   * When the queue is empty every finite label is relaxed, so no walk from the start that is
   * lighter than Integer.MAX_VALUE ends at a heavier label.
   */
  lemma {:induction false} Complete<V(!new)>(g: Graph<V>, s: V, dist: map<V, int>, p: seq<V>, ws: seq<nat>)
    requires Searching(g, s, dist, multiset{})
    requires WeightedPath(g, p, ws) && p[0] == s && Weight(ws) < IntMax
    ensures p[|p| - 1] in dist && dist[p[|p| - 1]] <= Weight(ws)
    decreases |ws|
  {
    if ws != [] {
      var n := |ws|;
      var p', ws' := p[..n], ws[..n - 1];
      assert WeightedPath(g, p', ws') by {
        forall i | 0 <= i < |ws'|
          ensures p'[i] in g && (p'[i + 1], ws'[i]) in g[p'[i]]
        {
          assert p'[i] == p[i] && p'[i + 1] == p[i + 1] && ws'[i] == ws[i];
        }
      }
      Complete(g, s, dist, p', ws');
      var u := p[n - 1];
      assert p'[|p'| - 1] == u;
      assert Settled(g, dist, multiset{}, u);
      assert Relaxed(g, dist, u);
      var k :| 0 <= k < |g[u]| && g[u][k] == (p[n], ws[n - 1]);
    }
  }

  /**
   * GraphAlgorithms.java:163-193: Dijkstra's algorithm with a priority queue and lazy deletion.
   * A start vertex outside the graph is an IllegalArgumentException; otherwise every vertex
   * gets its shortest distance from `start`, or Integer.MAX_VALUE when none is shorter than
   * that.
   */
  method Dijkstras<V(==, !new)>(start: V, g: Graph<V>) returns (r: Result<map<V, int>>)
    requires ValidGraph(g)
    ensures r.Err? <==> start !in g
    ensures r.Err? ==> r.error == IllegalArgument
    ensures r.Ok? ==> ShortestDistances(g, start, r.value)
  {
    if start !in g {
      return Err(IllegalArgument);
    }
    var dist := InitialDistances(start, g);
    var queue := multiset{(start, 0)};
    assert WeightedPath(g, [start], []);
    assert PathOfWeight(g, start, start, 0);
    while queue != multiset{}
      invariant Searching(g, start, dist, queue)
      decreases Pending(dist), |queue|
    {
      MinExists(queue);
      var tmp :| tmp in queue && forall e :: e in queue ==> tmp.1 <= e.1;
      PopStarts(g, start, dist, queue, tmp);
      queue := queue - multiset{tmp};
      dist, queue := RelaxEdges(g, start, dist, queue, tmp.0, tmp.1);
      RelaxDone(g, start, dist, queue, tmp.0, tmp.1);
    }
    forall p, ws | WeightedPath(g, p, ws) && p[0] == start && p[|p| - 1] in dist && Weight(ws) < IntMax
      ensures dist[p[|p| - 1]] <= Weight(ws)
    {
      Complete(g, start, dist, p, ws);
    }
    return Ok(dist);
  }

  /**
   * With a shortest-distance map, a vertex that no walk reaches keeps Integer.MAX_VALUE, and a
   * finite entry is the least weight of all walks to it.
   */
  lemma DistanceMeaning<V(!new)>(g: Graph<V>, s: V, d: map<V, int>, v: V)
    requires ShortestDistances(g, s, d) && v in d
    ensures (forall p, ws :: !(WeightedPath(g, p, ws) && p[0] == s && p[|p| - 1] == v)) ==> d[v] == IntMax
    ensures d[v] < IntMax ==>
              PathOfWeight(g, s, v, d[v]) &&
              forall p, ws :: WeightedPath(g, p, ws) && p[0] == s && p[|p| - 1] == v ==> d[v] <= Weight(ws)
  {
  }
}
