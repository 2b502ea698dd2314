/** A floor on which the right-edge wrap of the wiring step decides the answer.

    ###
    ## .
    .##

(with `.` standing for the open cell ` `). Its two open cells have grid
indices 5 (last column of the middle row) and 6 (first column of the bottom
row). They are not grid neighbours, so no domino covers both; but the
right-hand probe of cell 5 lands on index 6, so the network has the path
source → 5 → 6 → sink and `has_tiling` accepts the floor.
 */
module WrapExample {
  import opened Graphs
  import opened MaxFlows
  import opened Tiling

  const FLOOR: string := "###\n## \n ##"

  /** The open cells of the floor, by grid index, with their scan colour. */
  const CELLS: map<Vertex, bool> := map[5 := false, 6 := true]

  /** No open cell among the first six characters. */
  lemma FirstRowsBlocked()
    ensures CellsBefore(FLOOR, 6) == map[]
  {
    var f := FLOOR;
    assert CellsBefore(f, 1) == map[];
    assert CellsBefore(f, 2) == map[];
    assert CellsBefore(f, 3) == map[];
    assert CellsBefore(f, 4) == map[];
    assert CellsBefore(f, 5) == map[];
  }

  /** The open cell at offset 6: grid index 5, column 2 of row 1, scan-white. */
  lemma MiddleCell()
    ensures GridIndex(FLOOR, 6) == 5 && !IsBlackAt(FLOOR, 6)
  {
    var f := FLOOR;
    assert f[..6] == "###\n##";
    assert multiset(f[..6])['\n'] == 1;
    assert Col(f, 4) == 0;
    assert Col(f, 6) == 2;
  }

  /** The open cell at offset 8: grid index 6, column 0 of row 2, scan-black. */
  lemma BottomCell()
    ensures GridIndex(FLOOR, 8) == 6 && IsBlackAt(FLOOR, 8)
  {
    var f := FLOOR;
    assert f[..8] == "###\n## \n";
    assert multiset(f[..8])['\n'] == 2;
    assert Col(f, 8) == 0;
  }

  /** The scan of the floor finds a scan-white cell 5 and a scan-black cell 6,
      with rows three characters long. */
  lemma FloorCells()
    ensures RowLength(FLOOR) == 3
    ensures CellsOf(FLOOR) == CELLS
  {
    var f := FLOOR;
    assert RowLength(f[3..]) == 0;
    MiddleRowCells();
    BottomCell();
    assert CellsBefore(f, 9) == map[5 := false, 6 := true];
    assert CellsBefore(f, 10) == map[5 := false, 6 := true];
  }

  /** The first two rows hold one open cell: scan-white cell 5. */
  lemma MiddleRowCells()
    ensures CellsBefore(FLOOR, 8) == map[5 := false]
  {
    var f := FLOOR;
    FirstRowsBlocked();
    MiddleCell();
    assert CellsBefore(f, 7) == map[5 := false];
  }

  /** The network of the floor: source → 5 → 6 → sink, each of capacity 1,
      and nothing else. The edge 5 → 6 comes from the right-hand probe of
      cell 5, which sits in the last column. */
  const NETWORK: Graph := map[SOURCE := map[5 := 1], 5 := map[6 := 1], 6 := map[SINK := 1], SINK := map[]]

  /** `Network` builds exactly that graph from the floor's cells. */
  lemma FloorNetwork()
    ensures Network(CELLS, 3) == NETWORK
  {
    SourceEdges();
    WhiteEdges();
    BlackEdges();
  }

  /** The network has the two cells, the source and the sink as vertices,
      and the source feeds the one scan-white cell, 5. */
  lemma SourceEdges()
    ensures Network(CELLS, 3).Keys == {SOURCE, SINK, 5, 6}
    ensures Network(CELLS, 3)[SOURCE] == map[5 := 1]
  {
    NetworkVertices();
    SourceFeedsWhite(Network(CELLS, 3));
  }

  /** The network's vertices are the two cells, the source and the sink. */
  lemma NetworkVertices()
    ensures Network(CELLS, 3).Keys == {SOURCE, SINK, 5, 6}
  {
    assert CELLS.Keys == {5, 6};
  }

  /** A graph whose source row has the floor's scan-white cells as keys, all
      of capacity 1, feeds exactly cell 5. */
  lemma SourceFeedsWhite(g: Graph)
    requires SOURCE in g && g[SOURCE].Keys == WhiteCells(CELLS)
    requires forall w :: w in g[SOURCE] ==> g[SOURCE][w] == 1
    ensures g[SOURCE] == map[5 := 1]
  {
    FloorColours();
  }

  /** Cell 5 feeds cell 6 and nothing else. */
  lemma WhiteEdges()
    ensures Network(CELLS, 3)[5] == map[6 := 1]
  {
    WhiteTargets();
    NetworkRow(CELLS, 3, 5);
  }

  /** Cell 6 drains into the sink and feeds nothing else. */
  lemma BlackEdges()
    ensures Network(CELLS, 3)[6] == map[SINK := 1]
  {
    BlackTargets();
    NetworkRow(CELLS, 3, 6);
  }

  /** Cell 5 is wiring-white; of its four probes only the right-hand one,
      past the end of its row, finds an open cell: index 6. */
  lemma WhiteTargets()
    ensures !WiringBlack(3, 5)
    ensures WireTargets(CELLS, 3, 5) == {6}
  {
    assert Probe(CELLS, 3, 3, 1) == {6};
    assert Probe(CELLS, 3, 1, 1) == {};
    assert Probe(CELLS, 3, 2, 2) == {};
    assert Probe(CELLS, 3, 2, 0) == {};
  }

  /** Cell 6 is wiring-black and so has no wire targets. */
  lemma BlackTargets()
    ensures WiringBlack(3, 6)
    ensures WireTargets(CELLS, 3, 6) == {}
  {
  }

  /** The two open cells are not grid neighbours, so no domino covers them both. */
  lemma CellsApart()
    ensures CELLS.Keys == {5, 6}
    ensures !GridAdjacent(3, 5, 6) && !GridAdjacent(3, 6, 5)
  {
  }

  /** The total of a row with exactly two entries. */
  lemma PairSum(m: map<Vertex, int>, a: Vertex, b: Vertex)
    requires m.Keys == {a, b} && a != b
    ensures Sum(m, m.Keys) == m[a] + m[b]
  {
    SumRemove(m, {a, b}, a);
    assert {a, b} - {a} == {b};
    SumRemove(m, {b}, b);
    assert {b} - {b} == {};
  }

  /** The total of a row with exactly one entry. */
  lemma SingleSum(m: map<Vertex, int>, a: Vertex)
    requires m.Keys == {a}
    ensures Sum(m, m.Keys) == m[a]
  {
    SumRemove(m, {a}, a);
    assert {a} - {a} == {};
  }

  /** A row of a residual network of the floor holds exactly the forward and
      the reverse edges of the vertex. */
  lemma RowKeys(r: Graph, u: Vertex, K: set<Vertex>)
    requires ResidualOf(NETWORK, r) && u in NETWORK
    requires K == NETWORK[u].Keys + set v | v in NETWORK && u in NETWORK[v]
    ensures r[u].Keys == K
  {
    forall v
      ensures v in r[u] <==> v in K
    {
      if v in NETWORK[u] {
        assert v in r[u];
      }
    }
  }

  /** If the flow leaves the source's edge to cell 5 unused, conservation
      forces the residual path source → 5 → 6 → sink to be open. */
  lemma LeakReaches(r: Graph)
    requires ResidualOf(NETWORK, r) && Conserving(NETWORK, r, SOURCE, SINK)
    requires SOURCE in r && 5 in r[SOURCE] && r[SOURCE][5] != 0
    ensures IsPathFromTo(r, [SOURCE, 5, 6, SINK], SOURCE, SINK)
  {
    MiddleEdgeOpen(r);
    LastEdgeOpen(r);
  }

  /** With the source's edge to cell 5 unused, conservation at 5 leaves its
      edge to 6 unused too. */
  lemma MiddleEdgeOpen(r: Graph)
    requires ResidualOf(NETWORK, r) && Conserving(NETWORK, r, SOURCE, SINK)
    requires SOURCE in r && 5 in r[SOURCE] && r[SOURCE][5] != 0
    ensures 5 in r && 6 in r[5] && r[5][6] == 1
  {
    var g := NETWORK;
    RowKeys(r, 5, {SOURCE, 6});
    assert r[SOURCE][5] + r[5][SOURCE] == Capacity(g, SOURCE, 5) + Capacity(g, 5, SOURCE) == 1;
    PairSum(r[5], SOURCE, 6);
    SingleSum(g[5], 6);
  }

  /** With the edge 5 → 6 unused, conservation at 6 leaves its edge to the
      sink unused too. */
  lemma LastEdgeOpen(r: Graph)
    requires ResidualOf(NETWORK, r) && Conserving(NETWORK, r, SOURCE, SINK)
    requires 5 in r && 6 in r[5] && r[5][6] == 1
    ensures 6 in r && SINK in r[6] && r[6][SINK] == 1
  {
    var g := NETWORK;
    RowKeys(r, 6, {5, SINK});
    assert r[5][6] + r[6][5] == Capacity(g, 5, 6) + Capacity(g, 6, 5) == 1;
    PairSum(r[6], 5, SINK);
    SingleSum(g[6], SINK);
  }

  /** Every residual network of the floor that conserves flow and has no
      augmenting path leaves no capacity out of the source. */
  lemma FloorSaturated(r: Graph)
    requires ResidualOf(NETWORK, r) && Conserving(NETWORK, r, SOURCE, SINK)
    requires !Reachable(r, SOURCE, SINK)
    ensures Saturated(r, SOURCE)
  {
    RowKeys(r, SOURCE, {5});
    if r[SOURCE][5] != 0 {
      LeakReaches(r);
    }
  }

  /** The floor has as many scan-black as scan-white cells. */
  lemma FloorBalanced()
    ensures Balanced(FLOOR)
  {
    FloorCells();
    FloorColours();
  }

  /** Cell 5 is the one scan-white cell and cell 6 the one scan-black cell. */
  lemma FloorColours()
    ensures WhiteCells(CELLS) == {5} && BlackCells(CELLS) == {6}
  {
    forall i ensures i in WhiteCells(CELLS) <==> i == 5 { }
    forall i ensures i in BlackCells(CELLS) <==> i == 6 { }
  }

  /** `has_tiling` accepts the floor, although its two open cells are not
      grid neighbours and so admit no domino tiling. */
  method AcceptsFloor() returns (tileable: bool)
    ensures tileable
    ensures CellsOf(FLOOR).Keys == {5, 6} && !GridAdjacent(RowLength(FLOOR), 5, 6)
  {
    var residual;
    FloorCells();
    FloorBalanced();
    FloorNetwork();
    CellsApart();
    tileable, residual := HasTiling(FLOOR);
    assert TilingNetwork(FLOOR) == NETWORK;
    FloorSaturated(residual);
  }
}
