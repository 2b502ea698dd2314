/** Value model of the flow graphs used by the tiling solver.

A vertex is an integer id. A graph maps every vertex id of the vertex set to the
weights of its outgoing edges: the neighbour set of a vertex is exactly the key
set of its weight map, so "every neighbour has a weight" holds by construction.
An id that occurs only as a neighbour, and not as a key, has no outgoing edges.
 */
module Graphs {

  type Vertex = int

  type Graph = map<Vertex, map<Vertex, int>>

  /** The neighbours of `u` (none when `u` is not a vertex of `g`). */
  function Succ(g: Graph, u: Vertex): set<Vertex> {
    if u in g then g[u].Keys else {}
  }

  /** An edge that a search may cross: present and of nonzero weight. */
  predicate Edge(g: Graph, u: Vertex, v: Vertex) {
    u in g && v in g[u] && g[u][v] != 0
  }

  /** A non-empty vertex sequence whose consecutive pairs are all crossable edges
      and which ends at a vertex of `g`. */
  ghost predicate IsPath(g: Graph, p: seq<Vertex>) {
    && |p| > 0
    && p[|p| - 1] in g
    && forall i :: 0 <= i < |p| - 1 ==> Edge(g, p[i], p[i + 1])
  }

  ghost predicate IsPathFromTo(g: Graph, p: seq<Vertex>, s: Vertex, t: Vertex) {
    IsPath(g, p) && p[0] == s && p[|p| - 1] == t
  }

  ghost predicate Reachable(g: Graph, s: Vertex, t: Vertex) {
    exists p :: IsPathFromTo(g, p, s, t)
  }

  predicate Distinct(p: seq<Vertex>) {
    forall i, j :: 0 <= i < j < |p| ==> p[i] != p[j]
  }

  /** Every neighbour is itself a vertex of the graph. */
  ghost predicate Closed(g: Graph) {
    forall u, v :: u in g && v in g[u] ==> v in g
  }

  /** Every edge has its reverse edge. */
  ghost predicate Symmetric(g: Graph) {
    forall u, v :: u in g && v in g[u] ==> v in g && u in g[v]
  }

  ghost predicate NonNegative(g: Graph) {
    forall u, v :: u in g && v in g[u] ==> g[u][v] >= 0
  }

  /** Same vertices and same neighbour sets; only weights may differ. */
  ghost predicate SameShape(g: Graph, h: Graph) {
    g.Keys == h.Keys && forall u :: u in g ==> g[u].Keys == h[u].Keys
  }

  lemma SameShapeSymmetric(g: Graph, h: Graph)
    requires SameShape(g, h) && Symmetric(g)
    ensures Symmetric(h)
  {
    forall u, v | u in h && v in h[u]
      ensures v in h && u in h[v]
    {
      assert v in g[u];
    }
  }

  /** A non-empty set of ids has a member to pick. */
  lemma NonEmptyHasMember(K: set<Vertex>)
    requires K != {}
    ensures exists x :: x in K
  {
    if forall x :: x !in K {
      assert false;
    }
  }

  /** Sum of the weights `m[k]` over the keys `K`. */
  ghost function Sum(m: map<Vertex, int>, K: set<Vertex>): int
    requires K <= m.Keys
    decreases K
  {
    if K == {} then 0 else NonEmptyHasMember(K); var x :| x in K; m[x] + Sum(m, K - {x})
  }

  /** Any key may be taken out of a sum first. */
  lemma {:induction false} SumRemove(m: map<Vertex, int>, K: set<Vertex>, k: Vertex)
    requires K <= m.Keys && k in K
    ensures Sum(m, K) == m[k] + Sum(m, K - {k})
    decreases K
  {
    NonEmptyHasMember(K);
    var j :| j in K && Sum(m, K) == m[j] + Sum(m, K - {j});
    if j != k {
      SumRemove(m, K - {j}, k);
      SumRemove(m, K - {k}, j);
      assert K - {j} - {k} == K - {k} - {j};
    }
  }

  /** The sum only depends on the weights of the summed keys. */
  lemma {:induction false} SumAgree(m: map<Vertex, int>, m': map<Vertex, int>, K: set<Vertex>)
    requires K <= m.Keys && K <= m'.Keys
    requires forall k :: k in K ==> m[k] == m'[k]
    ensures Sum(m, K) == Sum(m', K)
    decreases K
  {
    if K != {} {
      NonEmptyHasMember(K);
      var k :| k in K;
      SumRemove(m, K, k);
      SumRemove(m', K, k);
      SumAgree(m, m', K - {k});
    }
  }

  /** Changing one weight changes the sum by the difference. */
  lemma SumUpdate(m: map<Vertex, int>, K: set<Vertex>, k: Vertex, w: int)
    requires K <= m.Keys && k in K
    ensures Sum(m[k := w], K) == Sum(m, K) - m[k] + w
  {
    SumRemove(m, K, k);
    SumRemove(m[k := w], K, k);
    SumAgree(m, m[k := w], K - {k});
  }

  /** The total weight out of `x` in `g`. */
  ghost function RowSum(g: Graph, x: Vertex): int
    requires x in g
  {
    Sum(g[x], g[x].Keys)
  }

  /** Adding keys of weight zero leaves a sum unchanged. */
  lemma {:induction false} SumZeros(m: map<Vertex, int>, K: set<Vertex>, Z: set<Vertex>)
    requires K <= m.Keys && Z <= m.Keys && K !! Z
    requires forall z :: z in Z ==> m[z] == 0
    ensures Sum(m, K + Z) == Sum(m, K)
    decreases Z
  {
    if Z != {} {
      NonEmptyHasMember(Z);
      var z :| z in Z;
      var Z' := Z - {z};
      assert K + Z - {z} == K + Z';
      SumRemove(m, K + Z, z);
      SumZeros(m, K, Z');
    } else {
      assert K + Z == K;
    }
  }

  /** The keys of `K` whose weight is zero. */
  ghost function ZeroKeys(m: map<Vertex, int>, K: set<Vertex>): set<Vertex>
    requires K <= m.Keys
  {
    set k | k in K && m[k] == 0
  }

  /** Over 0/1 weights, the number of keys minus the sum counts the zero weights. */
  lemma {:induction false} SumCountsZeros(m: map<Vertex, int>, K: set<Vertex>)
    requires K <= m.Keys
    requires forall k :: k in K ==> 0 <= m[k] <= 1
    ensures |K| - Sum(m, K) == |ZeroKeys(m, K)|
    ensures 0 <= Sum(m, K) <= |K|
    decreases K
  {
    if K == {} {
      assert ZeroKeys(m, K) == {};
    } else {
      NonEmptyHasMember(K);
      var k :| k in K;
      SumRemove(m, K, k);
      SumCountsZeros(m, K - {k});
      var Z, Z' := ZeroKeys(m, K), ZeroKeys(m, K - {k});
      if m[k] == 0 {
        assert Z == Z' + {k};
      } else {
        assert Z == Z';
      }
    }
  }

  /** A sum of non-negative weights is non-negative. */
  lemma {:induction false} SumNonNegative(m: map<Vertex, int>, K: set<Vertex>)
    requires K <= m.Keys
    requires forall k :: k in K ==> m[k] >= 0
    ensures Sum(m, K) >= 0
    decreases K
  {
    if K != {} {
      NonEmptyHasMember(K);
      var k :| k in K;
      SumRemove(m, K, k);
      SumNonNegative(m, K - {k});
    }
  }

  /** All the weights over `K` are zero exactly when every key of `K` counts
      as a zero key. */
  lemma ZeroKeysAll(m: map<Vertex, int>, K: set<Vertex>)
    requires K <= m.Keys
    ensures |ZeroKeys(m, K)| == |K| <==> forall k :: k in K ==> m[k] == 0
  {
    var Z := ZeroKeys(m, K);
    if forall k :: k in K ==> m[k] == 0 {
      assert Z == K;
    } else {
      var k :| k in K && m[k] != 0;
      SubsetCard(Z, K - {k});
    }
  }

  /** A subset is no larger than its superset. */
  lemma {:induction false} SubsetCard(A: set<Vertex>, B: set<Vertex>)
    requires A <= B
    ensures |A| <= |B|
    decreases B
  {
    if A != {} {
      NonEmptyHasMember(A);
      var x :| x in A;
      SubsetCard(A - {x}, B - {x});
    }
  }
}
