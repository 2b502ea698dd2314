/** Edmonds–Karp with unit augmentation (`max_flow` in tiling.cpp).

The caller's graph is a value, so the deep copy made by tiling.cpp is the residual
map itself and the caller's graph can never be changed. Every augmenting path
moves exactly one unit, whatever the smallest residual weight on it; this is a
maximum flow only when every capacity is 0 or 1.
 */
module MaxFlows {
  import opened Graphs
  import opened AugmentingPaths

  /** `r` is `g` with some reverse edges of weight 0 added, and every edge out of
      a vertex of `handled` already has its reverse. */
  ghost predicate PartialResidual(g: Graph, r: Graph, handled: set<Vertex>) {
    && r.Keys == g.Keys
    && (forall u, v :: u in g && v in g[u] ==> v in r[u] && r[u][v] == g[u][v])
    && (forall u, v :: u in r && v in r[u] ==> v in g[u] || (v in g && u in g[v] && r[u][v] == 0))
    && (forall u, v :: u in handled && u in g && v in g[u] ==> v in r && u in r[v])
  }

  /** Adds the missing reverse edges of the edges out of `u`. */
  method AddReverseEdges(g: Graph, r0: Graph, u: Vertex, ghost handled: set<Vertex>) returns (r: Graph)
    requires Closed(g) && u in g
    requires PartialResidual(g, r0, handled)
    ensures PartialResidual(g, r, handled + {u})
  {
    r := r0;
    var vs := g[u].Keys;
    while vs != {}
      invariant PartialResidual(g, r, handled)
      invariant vs <= g[u].Keys
      invariant forall v :: v in g[u] && v !in vs ==> u in r[v]
      decreases vs
    {
      NonEmptyHasMember(vs);
      var v :| v in vs;
      vs := vs - {v};
      if u !in r[v] {
        AddReverseEdge(g, r, u, v, handled);
        r := r[v := r[v][u := 0]];
      }
    }
  }

  /** Adding the missing reverse of the edge `u`→`v` at weight 0 keeps the
      partial residual and touches no other row. */
  lemma AddReverseEdge(g: Graph, r: Graph, u: Vertex, v: Vertex, handled: set<Vertex>)
    requires Closed(g) && u in g && v in g[u]
    requires PartialResidual(g, r, handled) && u !in r[v]
    ensures PartialResidual(g, r[v := r[v][u := 0]], handled)
    ensures forall w :: w in r && w != v ==> r[v := r[v][u := 0]][w] == r[w]
  {
    var r' := r[v := r[v][u := 0]];
    assert r'.Keys == g.Keys;
    forall x, y | x in g && y in g[x]
      ensures y in r'[x] && r'[x][y] == g[x][y]
    {
      if x == v {
        assert y != u;
      }
    }
    forall x, y | x in r' && y in r'[x]
      ensures y in g[x] || (y in g && x in g[y] && r'[x][y] == 0)
    {
      if x != v || y != u {
        assert y in r[x];
      }
    }
    forall x, y | x in handled && x in g && y in g[x]
      ensures y in r' && x in r'[y]
    {
      assert y in r && x in r[y];
    }
  }

  /** `r` is the residual graph `max_flow` starts from: the weights of `g` on the
      edges of `g`, and weight 0 on each added reverse edge, with no edge
      lacking its reverse. */
  ghost predicate InitialResidualOf(g: Graph, r: Graph) {
    && r.Keys == g.Keys
    && (forall u, v :: u in g && v in g[u] ==> v in r[u] && r[u][v] == g[u][v])
    && (forall u, v :: u in r && v in r[u] ==> v in g[u] || (v in g && u in g[v] && r[u][v] == 0))
    && Symmetric(r)
  }

  /** Copies `g` and adds a reverse edge of weight 0 for each edge whose reverse
      is missing; an existing reverse edge keeps its weight. */
  method BuildResidual(g: Graph) returns (r: Graph)
    requires Closed(g)
    ensures InitialResidualOf(g, r)
  {
    r := g;
    var us := g.Keys;
    ghost var handled: set<Vertex> := {};
    while us != {}
      invariant us <= g.Keys && handled == g.Keys - us
      invariant PartialResidual(g, r, handled)
      decreases us
    {
      NonEmptyHasMember(us);
      var u :| u in us;
      r := AddReverseEdges(g, r, u, handled);
      handled, us := handled + {u}, us - {u};
    }
    ResidualComplete(g, r);
  }

  /** Once every vertex is handled, the partial residual is the full one. */
  lemma ResidualComplete(g: Graph, r: Graph)
    requires Closed(g) && PartialResidual(g, r, g.Keys)
    ensures InitialResidualOf(g, r)
  {
    forall u, v | u in r && v in r[u] ensures v in r && u in r[v] {
      if v !in g[u] {
        assert v in g && u in g[v];
      }
    }
  }

  /** Moves one unit across the edge `u`→`v`: its weight drops by one and the
      weight of the reverse edge rises by one. */
  function Push(r: Graph, u: Vertex, v: Vertex): (r': Graph)
    requires Symmetric(r) && u in r && v in r[u]
    ensures SameShape(r, r')
    ensures u != v ==> r'[u] == r[u][v := r[u][v] - 1] && r'[v] == r[v][u := r[v][u] + 1]
    ensures forall x :: x in r && x != u && x != v ==> r'[x] == r[x]
    ensures forall x, y :: x in r && y in r[x] && (x, y) != (u, v) && (x, y) != (v, u) ==> r'[x][y] == r[x][y]
    ensures forall x, y :: x in r && y in r[x] ==> r'[x][y] + r'[y][x] == r[x][y] + r[y][x]
  {
    var r' := PushRaw(r, u, v);
    PushRows(r, u, v, r');
    PushFrame(r, u, v, r');
    PushPairSums(r, u, v, r');
    r'
  }

  /** The two weight updates of a push: `u`→`v` drops by one, then `v`→`u`
      rises by one. */
  function PushRaw(r: Graph, u: Vertex, v: Vertex): Graph
    requires Symmetric(r) && u in r && v in r[u]
  {
    var r1 := r[u := r[u][v := r[u][v] - 1]];
    r1[v := r1[v][u := r1[v][u] + 1]]
  }

  /** The two weight updates of a push change no key set and no row other
      than those of `u` and `v`. */
  lemma PushRows(r: Graph, u: Vertex, v: Vertex, r': Graph)
    requires Symmetric(r) && u in r && v in r[u]
    requires r' == PushRaw(r, u, v)
    ensures SameShape(r, r')
    ensures forall x :: x in r && x != u && x != v ==> r'[x] == r[x]
  {
    assert r'.Keys == r.Keys;
    forall x | x in r ensures r'[x].Keys == r[x].Keys {
      if x == v {
        assert u in r[v];
      }
    }
  }

  /** The two weight updates of a push leave every other pair's weights alone. */
  lemma PushFrame(r: Graph, u: Vertex, v: Vertex, r': Graph)
    requires Symmetric(r) && u in r && v in r[u]
    requires r' == PushRaw(r, u, v)
    ensures forall x, y :: x in r && y in r[x] && (x, y) != (u, v) && (x, y) != (v, u) ==> y in r'[x] && r'[x][y] == r[x][y]
  {
  }

  /** The two weight updates of a push keep every pair's two-way total. */
  lemma PushPairSums(r: Graph, u: Vertex, v: Vertex, r': Graph)
    requires Symmetric(r) && u in r && v in r[u]
    requires r' == PushRaw(r, u, v)
    ensures forall x, y :: x in r && y in r[x] ==> y in r' && x in r'[y] && y in r'[x] && r'[x][y] + r'[y][x] == r[x][y] + r[y][x]
  {
  }

  /** Every consecutive pair of `P` is an edge of `r`, whatever its weight. */
  ghost predicate Along(r: Graph, P: seq<Vertex>) {
    forall i :: 0 <= i < |P| - 1 ==> P[i] in r && P[i + 1] in r[P[i]]
  }

  /** The residual update along a path: one unit pushed across each consecutive pair. */
  function Augment(r: Graph, P: seq<Vertex>): (r': Graph)
    requires Symmetric(r) && Along(r, P)
    ensures SameShape(r, r')
    decreases |P|
  {
    if |P| < 2 then r
    else
      var r1 := Push(r, P[0], P[1]);
      SameShapeSymmetric(r, r1);
      Augment(r1, P[1..])
  }

  /** Augmenting keeps the two-way total r(u,v) + r(v,u) of every pair. */
  lemma {:induction false} AugmentKeepsPairSums(r: Graph, P: seq<Vertex>)
    requires Symmetric(r) && Along(r, P)
    ensures forall u, v :: u in r && v in r[u] ==>
      Augment(r, P)[u][v] + Augment(r, P)[v][u] == r[u][v] + r[v][u]
    decreases |P|
  {
    if |P| >= 2 {
      var r1 := Push(r, P[0], P[1]);
      SameShapeSymmetric(r, r1);
      AugmentKeepsPairSums(r1, P[1..]);
    }
  }

  /** A vertex off the path keeps all its outgoing weights. */
  lemma {:induction false} AugmentOffPath(r: Graph, P: seq<Vertex>, x: Vertex)
    requires Symmetric(r) && Along(r, P)
    requires x in r && x !in P
    ensures Augment(r, P)[x] == r[x]
    decreases |P|
  {
    if |P| >= 2 {
      var r1 := Push(r, P[0], P[1]);
      SameShapeSymmetric(r, r1);
      AugmentOffPath(r1, P[1..], x);
      assert r1[x] == r[x] by {
        forall y | y in r[x] ensures r1[x][y] == r[x][y] {}
      }
    }
  }

  /** The first vertex of a path without repeats loses exactly one unit on its
      first edge and nothing else. */
  lemma AugmentFirstRow(r: Graph, P: seq<Vertex>)
    requires Symmetric(r) && Along(r, P)
    requires |P| >= 2 && Distinct(P)
    ensures Augment(r, P)[P[0]] == r[P[0]][P[1] := r[P[0]][P[1]] - 1]
  {
    HeadNotInTail(P);
    PushAlongTail(r, P);
    var r1 := Push(r, P[0], P[1]);
    assert r1[P[0]] == r[P[0]][P[1] := r[P[0]][P[1]] - 1];
    AugmentOffPath(r1, P[1..], P[0]);
    assert Augment(r, P) == Augment(r1, P[1..]);
  }

  /** The tail of a path without repeats has no repeats. */
  lemma TailDistinct(P: seq<Vertex>)
    requires |P| >= 1 && Distinct(P)
    ensures Distinct(P[1..])
  {
    forall i, j | 0 <= i < j < |P| - 1 ensures P[1..][i] != P[1..][j] {
      assert P[1..][i] == P[i + 1] && P[1..][j] == P[j + 1];
    }
  }

  /** The first vertex of a path without repeats does not occur again. */
  lemma HeadNotInTail(P: seq<Vertex>)
    requires |P| >= 2 && Distinct(P)
    ensures P[0] !in P[1..] && P[0] != P[1]
  {
    forall i | 0 <= i < |P| - 1 ensures P[1..][i] != P[0] {
      assert P[1..][i] == P[i + 1];
    }
  }

  /** Along a crossable path without repeats, augmenting keeps every weight non-negative. */
  lemma {:induction false} AugmentNonNegative(r: Graph, P: seq<Vertex>)
    requires Symmetric(r) && NonNegative(r) && Distinct(P)
    requires forall i :: 0 <= i < |P| - 1 ==> Edge(r, P[i], P[i + 1])
    ensures Along(r, P)
    ensures NonNegative(Augment(r, P))
    decreases |P|
  {
    assert Along(r, P) by {
      forall i | 0 <= i < |P| - 1 ensures P[i] in r && P[i + 1] in r[P[i]] {
        assert Edge(r, P[i], P[i + 1]);
      }
    }
    if |P| >= 2 {
      assert Edge(r, P[0], P[1]);
      TailDistinct(P);
      PushNonNegative(r, P[0], P[1]);
      PushKeepsTailEdges(r, P);
      AugmentStep(r, P);
      AugmentNonNegative(Push(r, P[0], P[1]), P[1..]);
    }
  }

  /** Pushing across a crossable edge keeps every weight non-negative. */
  lemma PushNonNegative(r: Graph, u: Vertex, v: Vertex)
    requires Symmetric(r) && NonNegative(r) && Edge(r, u, v)
    ensures NonNegative(Push(r, u, v))
  {
    var r1 := Push(r, u, v);
    forall x, y | x in r1 && y in r1[x] ensures r1[x][y] >= 0 {
      assert y in r[x];
    }
  }

  /** Pushing across the first edge of a path without repeats leaves the
      edges of the rest of the path crossable. */
  lemma PushKeepsTailEdges(r: Graph, P: seq<Vertex>)
    requires Symmetric(r) && |P| >= 2 && Distinct(P) && Edge(r, P[0], P[1])
    requires forall i :: 0 <= i < |P| - 1 ==> Edge(r, P[i], P[i + 1])
    ensures forall i :: 0 <= i < |P| - 2 ==> Edge(Push(r, P[0], P[1]), P[1..][i], P[1..][i + 1])
  {
    var r1 := Push(r, P[0], P[1]);
    forall i | 0 <= i < |P| - 2
      ensures Edge(r1, P[1..][i], P[1..][i + 1])
    {
      assert P[1..][i] == P[i + 1] && P[1..][i + 1] == P[i + 2];
      assert Edge(r, P[i + 1], P[i + 2]);
      assert P[i + 2] != P[0];
    }
  }

  /** The capacity of `u`→`v` in `g`; 0 when there is no such edge. */
  function Capacity(g: Graph, u: Vertex, v: Vertex): int {
    if u in g && v in g[u] then g[u][v] else 0
  }

  /** `r` is a residual graph of `g`: the edges of `g` and their reverses, with
      non-negative weights, where each pair's two-way total equals its two-way
      capacity in `g`. */
  ghost predicate ResidualOf(g: Graph, r: Graph) {
    && r.Keys == g.Keys
    && Symmetric(r)
    && NonNegative(r)
    && (forall u, v :: u in g && v in g[u] ==> v in r[u])
    && (forall u, v :: u in r && v in r[u] ==> v in g[u] || (v in g && u in g[v]))
    && (forall u, v :: u in r && v in r[u] ==> r[u][v] + r[v][u] == Capacity(g, u, v) + Capacity(g, v, u))
  }

  /** Flow conservation, stated on row totals: every vertex other than `s` and
      `t` keeps the total weight out of it that it has in `g` (what flows in
      flows out again), and whatever total `s` loses, `t` gains. */
  ghost predicate Conserving(g: Graph, r: Graph, s: Vertex, t: Vertex) {
    && r.Keys == g.Keys && s in g && t in g
    && RowSum(r, s) + RowSum(r, t) == RowSum(g, s) + RowSum(g, t)
    && forall v :: v in g && v != s && v != t ==> RowSum(r, v) == RowSum(g, v)
  }

  /** Every edge out of `s` has capacity 1 and no edge enters `s`: the shape of
      the source vertex in the tiling network. */
  ghost predicate UnitSource(g: Graph, s: Vertex) {
    && s in g
    && (forall n :: n in g[s] ==> g[s][n] == 1)
    && (forall u :: u in g ==> s !in g[u])
  }

  /** Σ (1 − weight) over the neighbours of a vertex, as tiling.cpp computes the flow value. */
  method FlowOut(m: map<Vertex, int>) returns (flow: int)
    ensures flow == |m.Keys| - Sum(m, m.Keys)
  {
    flow := 0;
    var rest := m.Keys;
    ghost var seen: set<Vertex> := {};
    while rest != {}
      invariant seen <= m.Keys && seen !! rest && seen + rest == m.Keys
      invariant flow == |seen| - Sum(m, seen)
      decreases rest
    {
      NonEmptyHasMember(rest);
      var n :| n in rest;
      flow := flow + 1 - m[n];
      CountOneMore(m, seen, n);
      seen, rest := seen + {n}, rest - {n};
    }
  }

  /** Counting one more key `n` adds 1 − m[n] to key count minus sum. */
  lemma CountOneMore(m: map<Vertex, int>, seen: set<Vertex>, n: Vertex)
    requires seen <= m.Keys && n in m && n !in seen
    ensures |seen + {n}| - Sum(m, seen + {n}) == |seen| - Sum(m, seen) + 1 - m[n]
  {
    SumRemove(m, seen + {n}, n);
    assert seen + {n} - {n} == seen;
  }

  /** The change augmenting along `P` makes to the row total of `x`. */
  function RowShift(P: seq<Vertex>, x: Vertex): int
    requires |P| >= 1
  {
    (if x == P[|P| - 1] then 1 else 0) - (if x == P[0] then 1 else 0)
  }

  /** Pushing a unit across `u`→`v` moves one unit of row total from `u` to
      `v` and leaves every other row alone. */
  lemma PushRowSums(r: Graph, u: Vertex, v: Vertex, x: Vertex)
    requires Symmetric(r) && u in r && v in r[u] && u != v && x in r
    ensures RowSum(Push(r, u, v), x) == RowSum(r, x) + RowShift([u, v], x)
  {
    if x == u {
      SumUpdate(r[u], r[u].Keys, v, r[u][v] - 1);
    } else if x == v {
      SumUpdate(r[v], r[v].Keys, u, r[v][u] + 1);
    }
  }

  /** Augmenting along a path without repeats moves one unit of row total from
      its first vertex to its last; every other row keeps its total. */
  lemma {:induction false} AugmentRowSums(r: Graph, P: seq<Vertex>, x: Vertex)
    requires Symmetric(r) && Along(r, P) && Distinct(P) && |P| >= 2 && x in r
    ensures RowSum(Augment(r, P), x) == RowSum(r, x) + RowShift(P, x)
    decreases |P|
  {
    var r1 := Push(r, P[0], P[1]);
    PushRowSums(r, P[0], P[1], x);
    AugmentStep(r, P);
    ShiftCompose(P, x);
    if |P| > 2 {
      AugmentRowSums(r1, P[1..], x);
    }
  }

  /** The shift of a path is the shift of its first edge plus the shift of
      the rest; a path without repeats keeps none in its tail. */
  lemma ShiftCompose(P: seq<Vertex>, x: Vertex)
    requires Distinct(P) && |P| >= 2
    ensures Distinct(P[1..])
    ensures |P| == 2 ==> RowShift([P[0], P[1]], x) == RowShift(P, x)
    ensures |P| > 2 ==> RowShift([P[0], P[1]], x) + RowShift(P[1..], x) == RowShift(P, x)
  {
    assert P[0] != P[1];
    if |P| > 2 {
      assert P[0] != P[|P| - 1] && P[1] != P[|P| - 1];
    }
  }

  /** Augmenting along `P` is pushing across its first edge, then augmenting
      along the rest. */
  lemma AugmentStep(r: Graph, P: seq<Vertex>)
    requires Symmetric(r) && Along(r, P) && |P| >= 2
    ensures Symmetric(Push(r, P[0], P[1])) && Along(Push(r, P[0], P[1]), P[1..])
    ensures Augment(r, P) == Augment(Push(r, P[0], P[1]), P[1..])
    ensures |P| == 2 ==> Augment(r, P) == Push(r, P[0], P[1])
  {
    PushAlongTail(r, P);
  }

  /** After pushing across the first edge of `P`, the rest of `P` still runs
      along edges of the (still symmetric) graph. */
  lemma PushAlongTail(r: Graph, P: seq<Vertex>)
    requires Symmetric(r) && Along(r, P) && |P| >= 2
    ensures Symmetric(Push(r, P[0], P[1])) && Along(Push(r, P[0], P[1]), P[1..])
  {
    var r1 := Push(r, P[0], P[1]);
    SameShapeSymmetric(r, r1);
    var Q := P[1..];
    assert Along(r1, Q) by {
      forall i | 0 <= i < |Q| - 1 ensures Q[i] in r1 && Q[i + 1] in r1[Q[i]] {
        assert P[i + 1] in r && P[i + 2] in r[P[i + 1]];
      }
    }
  }

  /** One round of Edmonds–Karp on a path without repeats from `s`: the round
      keeps the residual invariants and lowers the total weight out of `s` by one. */
  lemma AugmentRound(r: Graph, s: Vertex, P: seq<Vertex>)
    requires Symmetric(r) && NonNegative(r)
    requires |P| >= 2 && P[0] == s && Distinct(P)
    requires forall i :: 0 <= i < |P| - 1 ==> Edge(r, P[i], P[i + 1])
    ensures Along(r, P)
    ensures SameShape(r, Augment(r, P)) && Symmetric(Augment(r, P)) && NonNegative(Augment(r, P))
    ensures forall u, v :: u in r && v in r[u] ==>
      Augment(r, P)[u][v] + Augment(r, P)[v][u] == r[u][v] + r[v][u]
    ensures Sum(Augment(r, P)[s], r[s].Keys) == Sum(r[s], r[s].Keys) - 1
  {
    AugmentNonNegative(r, P);
    SameShapeSymmetric(r, Augment(r, P));
    AugmentKeepsPairSums(r, P);
    AugmentFirstRow(r, P);
    assert Edge(r, P[0], P[1]);
    SumUpdate(r[s], r[s].Keys, P[1], r[s][P[1]] - 1);
  }

  /** One round from `s` to `t` moves one unit of row total from `s` to `t`
      and leaves the row total of every other vertex unchanged. */
  lemma RoundRowSums(r: Graph, s: Vertex, t: Vertex, P: seq<Vertex>)
    requires Symmetric(r) && Along(r, P) && Distinct(P)
    requires |P| >= 2 && P[0] == s && P[|P| - 1] == t && t in r
    ensures forall v :: v in r && v != s && v != t ==> RowSum(Augment(r, P), v) == RowSum(r, v)
    ensures RowSum(Augment(r, P), t) == RowSum(r, t) + 1
  {
    forall v | v in r && v != s && v != t
      ensures RowSum(Augment(r, P), v) == RowSum(r, v)
    {
      AugmentRowSums(r, P, v);
    }
    assert s != t;
    AugmentRowSums(r, P, t);
  }

  /** The initial residual graph is a residual graph of `g` when weights are non-negative. */
  lemma InitialResidual(g: Graph, r: Graph)
    requires NonNegative(g) && InitialResidualOf(g, r)
    ensures ResidualOf(g, r)
    ensures forall u, v :: u in r && v in r[u] ==> r[u][v] == Capacity(g, u, v)
  {
    forall u, v | u in r && v in r[u]
      ensures r[u][v] == Capacity(g, u, v) && r[u][v] >= 0
    {
      if v in g[u] {
        assert g[u][v] >= 0;
      } else {
        assert InitialResidualOf(g, r);
        assert v in g[u] || (v in g && u in g[v] && r[u][v] == 0);
      }
    }
  }

  /** The initial residual graph has the row totals of `g`: the reverse
      edges it adds all weigh zero. */
  lemma InitialRowSums(g: Graph, r: Graph, v: Vertex)
    requires ResidualOf(g, r) && v in g
    requires forall u, w :: u in r && w in r[u] ==> r[u][w] == Capacity(g, u, w)
    ensures RowSum(r, v) == RowSum(g, v)
  {
    var K := g[v].Keys;
    var Z := r[v].Keys - K;
    forall w | w in K ensures w in r[v] {
      assert v in g && w in g[v];
    }
    assert r[v].Keys == K + Z;
    SumZeros(r[v], K, Z);
    SumAgree(r[v], g[v], K);
  }

  /** Pushing flow keeps a residual graph of `g` a residual graph of `g`. */
  lemma ResidualPreserved(g: Graph, r0: Graph, r: Graph)
    requires ResidualOf(g, r0)
    requires SameShape(r0, r) && Symmetric(r) && NonNegative(r)
    requires forall u, v :: u in r0 && v in r0[u] ==> r[u][v] + r[v][u] == r0[u][v] + r0[v][u]
    ensures ResidualOf(g, r)
  {
    forall u, v | u in g && v in g[u]
      ensures v in r[u]
    {
      assert v in r0[u];
    }
    forall u, v | u in r && v in r[u]
      ensures v in g[u] || (v in g && u in g[v])
    {
      assert v in r0[u];
    }
  }

  /** With a unit source the weights out of `s` in any residual graph are 0 or 1,
      and out of the initial residual graph they are all 1. */
  lemma UnitSourceWeights(g: Graph, s: Vertex, r: Graph)
    requires UnitSource(g, s) && ResidualOf(g, r)
    ensures r[s].Keys == g[s].Keys
    ensures forall n :: n in r[s] ==> 0 <= r[s][n] <= 1
  {
    forall n | n in g[s]
      ensures n in r[s]
    {
    }
    forall n | n in r[s]
      ensures n in g[s] && 0 <= r[s][n] <= 1
    {
      assert s !in g[n];
      assert r[s][n] + r[n][s] == 1;
    }
  }

  /** The Edmonds–Karp loop: while an augmenting path from `s` to `t` exists,
      push one unit along a shortest one. Each round lowers the total weight
      out of `s` by exactly one, which bounds the number of rounds. */
  method EdmondsKarp(r0: Graph, s: Vertex, t: Vertex) returns (r: Graph, rounds: nat)
    requires s in r0 && t in r0 && s != t
    requires Symmetric(r0) && NonNegative(r0)
    ensures SameShape(r0, r) && Symmetric(r) && NonNegative(r)
    ensures forall u, v :: u in r0 && v in r0[u] ==> r[u][v] + r[v][u] == r0[u][v] + r0[v][u]
    ensures RowSum(r, s) + rounds == RowSum(r0, s)
    ensures RowSum(r, t) == RowSum(r0, t) + rounds
    ensures forall v :: v in r0 && v != s && v != t ==> RowSum(r, v) == RowSum(r0, v)
    ensures !Reachable(r, s, t)
  {
    r := r0;
    rounds := 0;
    SumNonNegative(r[s], r[s].Keys);
    while true
      invariant SameShape(r0, r) && Symmetric(r) && NonNegative(r)
      invariant forall u, v :: u in r0 && v in r0[u] ==> r[u][v] + r[v][u] == r0[u][v] + r0[v][u]
      invariant RowSum(r, s) + rounds == RowSum(r0, s)
      invariant RowSum(r, t) == RowSum(r0, t) + rounds
      invariant forall v :: v in r0 && v != s && v != t ==> RowSum(r, v) == RowSum(r0, v)
      invariant Sum(r[s], r[s].Keys) >= 0
      decreases Sum(r[s], r[s].Keys)
    {
      var found, P := AugmentingPath(r, s, t);
      if !found {
        break;
      }
      AugmentRound(r, s, P);
      RoundRowSums(r, s, t, P);
      r := Augment(r, P);
      rounds := rounds + 1;
      SumNonNegative(r[s], r[s].Keys);
    }
  }

  /** The maximum-flow computation: Edmonds–Karp on a residual copy of `g`, then
      Σ (1 − residual weight) over the neighbours of `s`. Also returns the
      final residual graph, which tiling.cpp discards, and the number of
      augmenting rounds. */
  method MaxFlow(g: Graph, s: Vertex, t: Vertex) returns (flow: int, residual: Graph, rounds: nat)
    requires s in g && t in g && s != t
    requires Closed(g) && NonNegative(g)
    ensures ResidualOf(g, residual)
    ensures !Reachable(residual, s, t)
    ensures Conserving(g, residual, s, t) && RowSum(residual, s) + rounds == RowSum(g, s)
    ensures flow == |residual[s].Keys| - Sum(residual[s], residual[s].Keys)
    ensures UnitSource(g, s) ==> residual[s].Keys == g[s].Keys
    ensures UnitSource(g, s) ==> flow == rounds
    ensures UnitSource(g, s) ==> 0 <= flow <= |g[s]| && flow == |ZeroKeys(residual[s], residual[s].Keys)|
  {
    var r0 := BuildResidual(g);
    InitialResidual(g, r0);
    var r;
    r, rounds := EdmondsKarp(r0, s, t);
    residual := r;
    ResidualPreserved(g, r0, r);
    forall v | v in g
      ensures RowSum(r0, v) == RowSum(g, v)
    {
      InitialRowSums(g, r0, v);
    }
    flow := FlowOut(r[s]);
    if UnitSource(g, s) {
      UnitSourceWeights(g, s, r0);
      UnitSourceWeights(g, s, r);
      SumCountsZeros(r0[s], r0[s].Keys);
      forall n | n in r0[s] ensures r0[s][n] == 1 {
        assert r0[s][n] == Capacity(g, s, n);
      }
      assert ZeroKeys(r0[s], r0[s].Keys) == {};
      SumCountsZeros(r[s], r[s].Keys);
    }
  }
}
