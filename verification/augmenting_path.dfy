/** Breadth-first search for a shortest augmenting path (`augmenting_path` in tiling.cpp).

The search crosses an edge only when its weight is nonzero, records for every
newly discovered vertex the vertex it was discovered from, and finally rebuilds
the path by following those links back from the sink and reversing.
The order in which a vertex's neighbours are visited is hash order in
tiling.cpp; here it is an arbitrary choice, so only properties shared by every
order are stated.
 */
module AugmentingPaths {
  import opened Graphs

  /** Every id mentioned by `g`, as a key or as a neighbour. */
  ghost function Vertices(g: Graph): set<Vertex> {
    g.Keys + set u, v | u in g && v in g[u] :: v
  }

  /** The discovery links form a tree rooted at `s` in which every link is a
      crossable edge and the layer (`dist`) grows by one along each link. */
  ghost predicate SearchTree(g: Graph, s: Vertex, R: set<Vertex>, prev: map<Vertex, Vertex>, dist: map<Vertex, nat>) {
    && s in R
    && dist.Keys == R
    && dist[s] == 0
    && prev.Keys == R - {s}
    && forall v :: v in prev ==> prev[v] in R && Edge(g, prev[v], v) && dist[v] == dist[prev[v]] + 1
  }

  /** Every crossable edge out of an explored vertex leads to a discovered vertex
      at most one layer further out. */
  ghost predicate ExploredClosed(g: Graph, done: set<Vertex>, dist: map<Vertex, nat>) {
    forall p, w :: p in done && p in dist && Edge(g, p, w) ==> w in dist && dist[w] <= dist[p] + 1
  }

  /** The elements of the queue, as a set. */
  ghost function Elems(Q: seq<Vertex>): set<Vertex> {
    set x | x in Q
  }

  /** Along a path from `s` through a region closed under crossable edges, the
      i-th vertex lies in that region no more than i layers from `s`. */
  lemma {:induction false} WithinLayers(g: Graph, s: Vertex, dist: map<Vertex, nat>, q: seq<Vertex>, i: nat)
    requires s in dist && dist[s] == 0
    requires ExploredClosed(g, dist.Keys, dist)
    requires IsPath(g, q) && q[0] == s
    requires i < |q|
    ensures q[i] in dist && dist[q[i]] <= i
  {
    if i > 0 {
      WithinLayers(g, s, dist, q, i - 1);
      assert Edge(g, q[i - 1], q[i]);
    }
  }

  /** The sequence `B` read backwards. */
  function Reverse(B: seq<Vertex>): (P: seq<Vertex>)
    ensures |P| == |B|
    ensures forall i :: 0 <= i < |B| ==> P[i] == B[|B| - 1 - i]
  {
    if B == [] then [] else Reverse(B[1..]) + [B[0]]
  }

  /** The queue holds vertices in non-decreasing layer order, spanning at most two layers. */
  ghost predicate LayeredQueue(Q: seq<Vertex>, dist: map<Vertex, nat>)
    requires Elems(Q) <= dist.Keys
  {
    && (forall i, j :: 0 <= i < j < |Q| ==> dist[Q[i]] <= dist[Q[j]])
    && (forall i :: 0 <= i < |Q| ==> dist[Q[i]] <= dist[Q[0]] + 1)
  }

  /** The state of the search at the head of its main loop. */
  ghost predicate SearchState(g: Graph, s: Vertex, Q: seq<Vertex>, R: set<Vertex>, prev: map<Vertex, Vertex>,
                              dist: map<Vertex, nat>, done: set<Vertex>)
  {
    && SearchTree(g, s, R, prev, dist)
    && R == done + Elems(Q) && done !! Elems(Q) && Distinct(Q)
    && LayeredQueue(Q, dist)
    && (forall p :: p in done && Q != [] ==> dist[p] <= dist[Q[0]])
    && ExploredClosed(g, done, dist)
  }

  /** The state while the neighbours of `cur` are examined: `cur` has left the
      queue but is not yet explored, and every crossable edge out of `cur`
      outside `todo` has been handled. */
  ghost predicate ExploreState(g: Graph, s: Vertex, cur: Vertex, todo: set<Vertex>, Q: seq<Vertex>, R: set<Vertex>,
                               prev: map<Vertex, Vertex>, dist: map<Vertex, nat>, done: set<Vertex>)
  {
    && SearchTree(g, s, R, prev, dist)
    && R == done + Elems(Q) + {cur} && cur !in done && cur !in Elems(Q)
    && done !! Elems(Q) && Distinct(Q)
    && todo <= Succ(g, cur)
    && (forall i, j :: 0 <= i < j < |Q| ==> dist[Q[i]] <= dist[Q[j]])
    && (forall i :: 0 <= i < |Q| ==> dist[cur] <= dist[Q[i]] <= dist[cur] + 1)
    && (forall p :: p in done ==> dist[p] <= dist[cur])
    && ExploredClosed(g, done, dist)
    && (forall w :: w !in todo && Edge(g, cur, w) ==> w in dist && dist[w] <= dist[cur] + 1)
  }

  /** Examines one neighbour `nei` of `cur`: when the edge is crossable and `nei`
      is undiscovered, `nei` joins the queue one layer beyond `cur`. */
  method Discover(g: Graph, ghost s: Vertex, cur: Vertex, nei: Vertex, ghost todo: set<Vertex>, Q0: seq<Vertex>,
                  R0: set<Vertex>, prev0: map<Vertex, Vertex>, ghost dist0: map<Vertex, nat>, ghost done: set<Vertex>)
    returns (Q: seq<Vertex>, R: set<Vertex>, prev: map<Vertex, Vertex>, ghost dist: map<Vertex, nat>)
    requires nei in todo
    requires ExploreState(g, s, cur, todo, Q0, R0, prev0, dist0, done)
    ensures ExploreState(g, s, cur, todo - {nei}, Q, R, prev, dist, done)
    ensures R0 <= R <= R0 + {nei}
  {
    Q, R, prev, dist := Q0, R0, prev0, dist0;
    if g[cur][nei] != 0 && nei !in R {
      DiscoverNew(g, s, cur, nei, todo, Q, R, prev, dist, done);
      Q := Q + [nei];
      R := R + {nei};
      prev := prev[nei := cur];
      dist := dist[nei := dist[cur] + 1];
    } else {
      DiscoverSkip(g, s, cur, nei, todo, Q, R, prev, dist, done);
    }
  }

  /** A neighbour that is already discovered, or behind a zero-weight edge,
      needs nothing more. */
  lemma DiscoverSkip(g: Graph, s: Vertex, cur: Vertex, nei: Vertex, todo: set<Vertex>, Q: seq<Vertex>,
                     R: set<Vertex>, prev: map<Vertex, Vertex>, dist: map<Vertex, nat>, done: set<Vertex>)
    requires nei in todo && ExploreState(g, s, cur, todo, Q, R, prev, dist, done)
    requires g[cur][nei] == 0 || nei in R
    ensures ExploreState(g, s, cur, todo - {nei}, Q, R, prev, dist, done)
  {
    if Edge(g, cur, nei) {
      if nei in Elems(Q) {
        var i :| 0 <= i < |Q| && Q[i] == nei;
      }
    }
  }

  /** An undiscovered neighbour across a nonzero edge joins the back of the
      queue one layer beyond `cur`. */
  lemma DiscoverNew(g: Graph, s: Vertex, cur: Vertex, nei: Vertex, todo: set<Vertex>, Q: seq<Vertex>,
                    R: set<Vertex>, prev: map<Vertex, Vertex>, dist: map<Vertex, nat>, done: set<Vertex>)
    requires nei in todo && ExploreState(g, s, cur, todo, Q, R, prev, dist, done)
    requires g[cur][nei] != 0 && nei !in R
    ensures ExploreState(g, s, cur, todo - {nei}, Q + [nei], R + {nei}, prev[nei := cur], dist[nei := dist[cur] + 1], done)
  {
    assert Elems(Q + [nei]) == Elems(Q) + {nei};
  }

  /** One round of the main loop: takes the head of the queue and discovers its
      undiscovered neighbours across nonzero-weight edges. */
  method Explore(g: Graph, ghost s: Vertex, Q0: seq<Vertex>, R0: set<Vertex>, prev0: map<Vertex, Vertex>,
                 ghost dist0: map<Vertex, nat>, ghost done0: set<Vertex>)
    returns (Q: seq<Vertex>, R: set<Vertex>, prev: map<Vertex, Vertex>, ghost dist: map<Vertex, nat>, ghost done: set<Vertex>)
    requires Q0 != []
    requires SearchState(g, s, Q0, R0, prev0, dist0, done0)
    ensures SearchState(g, s, Q, R, prev, dist, done)
    ensures done == done0 + {Q0[0]} && Q0[0] !in done0
    ensures R0 <= R <= R0 + Succ(g, Q0[0])
  {
    var cur := Q0[0];
    Q, R, prev, dist, done := Q0[1..], R0, prev0, dist0, done0;
    var todo := Succ(g, cur);
    StartExplore(g, s, Q0, R0, prev0, dist0, done0);
    while todo != {}
      invariant ExploreState(g, s, cur, todo, Q, R, prev, dist, done)
      invariant R0 <= R <= R0 + Succ(g, cur)
      decreases todo
    {
      NonEmptyHasMember(todo);
      var nei :| nei in todo;
      Q, R, prev, dist := Discover(g, s, cur, nei, todo, Q, R, prev, dist, done);
      todo := todo - {nei};
    }
    FinishExplore(g, s, cur, Q, R, prev, dist, done);
    done := done + {cur};
  }

  /** Taking the head of the queue starts the examination of its neighbours. */
  lemma StartExplore(g: Graph, s: Vertex, Q: seq<Vertex>, R: set<Vertex>, prev: map<Vertex, Vertex>,
                     dist: map<Vertex, nat>, done: set<Vertex>)
    requires Q != [] && SearchState(g, s, Q, R, prev, dist, done)
    ensures Q[0] !in done
    ensures ExploreState(g, s, Q[0], Succ(g, Q[0]), Q[1..], R, prev, dist, done)
  {
    assert Elems(Q) == {Q[0]} + Elems(Q[1..]);
  }

  /** Once every neighbour of `cur` is examined, `cur` counts as explored. */
  lemma FinishExplore(g: Graph, s: Vertex, cur: Vertex, Q: seq<Vertex>, R: set<Vertex>, prev: map<Vertex, Vertex>,
                      dist: map<Vertex, nat>, done: set<Vertex>)
    requires ExploreState(g, s, cur, {}, Q, R, prev, dist, done)
    ensures SearchState(g, s, Q, R, prev, dist, done + {cur})
  {
  }

  /** The main loop of the search: runs until the queue is empty. */
  method Search(g: Graph, s: Vertex) returns (R: set<Vertex>, prev: map<Vertex, Vertex>, ghost dist: map<Vertex, nat>)
    requires s in g
    ensures SearchTree(g, s, R, prev, dist)
    ensures ExploredClosed(g, R, dist)
    ensures s in R && prev.Keys == R - {s}
    ensures forall v :: v in prev ==> prev[v] in R && Edge(g, prev[v], v)
    ensures forall p, w :: p in R && Edge(g, p, w) ==> w in R
  {
    var Q := [s];
    R := {s};
    prev := map[];
    dist := map[s := 0];
    ghost var done: set<Vertex> := {};
    ghost var U := Vertices(g);
    assert Elems(Q) == {s};
    while Q != []
      invariant SearchState(g, s, Q, R, prev, dist, done)
      invariant R <= U
      decreases U - done
    {
      ghost var done0 := done;
      forall v | v in Succ(g, Q[0]) ensures v in U {
        assert Q[0] in g && v in g[Q[0]];
      }
      Q, R, prev, dist, done := Explore(g, s, Q, R, prev, dist, done);
    }
    assert Elems(Q) == {};
  }

  /** Follows the discovery links back from `t` to `s` and reverses the result. */
  method TracePath(g: Graph, s: Vertex, t: Vertex, R: set<Vertex>, prev: map<Vertex, Vertex>, ghost dist: map<Vertex, nat>)
    returns (P: seq<Vertex>)
    requires SearchTree(g, s, R, prev, dist) && t in R && t in g
    ensures IsPathFromTo(g, P, s, t) && Distinct(P)
    ensures |P| == dist[t] + 1
  {
    var B := [t];
    while B[|B| - 1] != s
      invariant |B| >= 1 && B[0] == t
      invariant forall i :: 0 <= i < |B| ==> B[i] in R && dist[B[i]] + i == dist[t]
      invariant forall i :: 0 <= i < |B| - 1 ==> B[i] in prev && B[i + 1] == prev[B[i]]
      decreases dist[B[|B| - 1]]
    {
      B := B + [prev[B[|B| - 1]]];
    }
    P := Reverse(B);
    assert forall i :: 0 <= i < |P| ==> dist[P[i]] == i;
    forall i | 0 <= i < |P| - 1
      ensures Edge(g, P[i], P[i + 1])
    {
      assert P[i + 1] == B[|B| - 2 - i] && P[i] == prev[B[|B| - 2 - i]];
    }
  }

  /** Returns whether `t` can be reached from `s` over nonzero-weight edges and,
      when it can, a path with the fewest edges. */
  method AugmentingPath(g: Graph, s: Vertex, t: Vertex) returns (found: bool, P: seq<Vertex>)
    requires s in g && t in g
    ensures found <==> Reachable(g, s, t)
    ensures found ==> IsPathFromTo(g, P, s, t) && Distinct(P)
    ensures found ==> forall q :: IsPathFromTo(g, q, s, t) ==> |P| <= |q|
  {
    var R, prev, dist := Search(g, s);
    if t !in R {
      forall q | IsPathFromTo(g, q, s, t)
        ensures false
      {
        WithinLayers(g, s, dist, q, |q| - 1);
      }
      return false, [];
    }
    P := TracePath(g, s, t, R, prev, dist);
    forall q | IsPathFromTo(g, q, s, t)
      ensures |P| <= |q|
    {
      WithinLayers(g, s, dist, q, |q| - 1);
    }
    found := true;
  }
}
