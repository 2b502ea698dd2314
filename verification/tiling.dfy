/** The reduction from a floor plan to a flow network (`has_tiling` in tiling.cpp).

The floor is text: `' '` is an open cell, a line break ends a row, anything
else is blocked. Each open cell becomes a vertex named by its grid index (its
offset with line breaks skipped); the source and sink get the ids -1 and -2.
A cell is black when its column plus row is even. Cells are coloured twice in
tiling.cpp, and both are kept here: while scanning, with the running column and
row; while wiring, with `index % rowLength` and `index / rowLength`.
 */
module Tiling {
  import opened Graphs
  import opened MaxFlows

  const SOURCE: Vertex := -1
  const SINK: Vertex := -2

  /** The offset of the first line break, or the whole length when there is none. */
  function RowLength(floor: string): (n: nat)
    ensures n <= |floor|
    ensures forall k :: 0 <= k < n ==> floor[k] != '\n'
    ensures n < |floor| ==> floor[n] == '\n'
  {
    if floor == [] || floor[0] == '\n' then 0 else 1 + RowLength(floor[1..])
  }

  /** The row of offset `k`: the number of line breaks before it. */
  function Row(floor: string, k: nat): nat
    requires k <= |floor|
  {
    multiset(floor[..k])['\n']
  }

  /** The grid index of offset `k`: the number of characters before it that are
      not line breaks. */
  function GridIndex(floor: string, k: nat): int
    requires k <= |floor|
  {
    k - Row(floor, k)
  }

  /** The column of offset `k`: its distance from the line break before it, or
      from the start when there is none. */
  function Col(floor: string, k: nat): (c: nat)
    requires k <= |floor|
    ensures c <= k
    ensures forall j :: k - c <= j < k ==> floor[j] != '\n'
    ensures c < k ==> floor[k - c - 1] == '\n'
  {
    if k == 0 || floor[k - 1] == '\n' then 0 else Col(floor, k - 1) + 1
  }

  /** The colour given to an open cell while scanning. */
  predicate IsBlackAt(floor: string, k: nat)
    requires k <= |floor|
  {
    (Col(floor, k) + Row(floor, k)) % 2 == 0
  }

  lemma RowStep(floor: string, k: nat)
    requires k < |floor|
    ensures Row(floor, k + 1) == Row(floor, k) + (if floor[k] == '\n' then 1 else 0)
  {
    assert floor[..k + 1] == floor[..k] + [floor[k]];
  }

  /** Grid indices are non-negative and grow by one exactly past each
      character that is not a line break. */
  lemma {:induction false} GridIndexBounds(floor: string, j: nat, k: nat)
    requires j <= k <= |floor|
    ensures 0 <= GridIndex(floor, j) <= GridIndex(floor, k)
    ensures j < k && floor[j] != '\n' ==> GridIndex(floor, j) < GridIndex(floor, k)
    decreases k
  {
    if k == 0 {
    } else if j == k {
      GridIndexBounds(floor, 0, k - 1);
      RowStep(floor, k - 1);
    } else {
      GridIndexBounds(floor, j, k - 1);
      RowStep(floor, k - 1);
    }
  }

  /** Distinct open cells have distinct grid indices. */
  lemma GridIndexInjective(floor: string)
    ensures forall j, k :: 0 <= j < k < |floor| && floor[j] != '\n' ==> GridIndex(floor, j) < GridIndex(floor, k)
  {
    forall j, k | 0 <= j < k < |floor| && floor[j] != '\n'
      ensures GridIndex(floor, j) < GridIndex(floor, k)
    {
      GridIndexBounds(floor, j, k);
    }
  }

  /** The open cells among the first `n` characters, by grid index, mapped to
      their scan-time colour (true for black). */
  ghost function CellsBefore(floor: string, n: nat): map<Vertex, bool>
    requires n <= |floor|
  {
    if n == 0 then map[]
    else if floor[n - 1] == ' ' then CellsBefore(floor, n - 1)[GridIndex(floor, n - 1) := IsBlackAt(floor, n - 1)]
    else CellsBefore(floor, n - 1)
  }

  ghost function CellsOf(floor: string): map<Vertex, bool> {
    CellsBefore(floor, |floor|)
  }

  function BlackCells(cells: map<Vertex, bool>): set<Vertex> {
    set i | i in cells && cells[i]
  }

  function WhiteCells(cells: map<Vertex, bool>): set<Vertex> {
    set i | i in cells && cells[i] == false
  }

  /** The scan after `counter` characters: the running column, row and grid
      index, the cells found so far and their counts by colour. */
  ghost predicate ScanState(floor: string, counter: nat, x: int, y: int, gridIndex: int,
                            cells: map<Vertex, bool>, blackCount: nat, whiteCount: nat)
  {
    && counter <= |floor|
    && x == Col(floor, counter) && y == Row(floor, counter) && gridIndex == GridIndex(floor, counter)
    && cells == CellsBefore(floor, counter)
    && blackCount == |BlackCells(cells)| && whiteCount == |WhiteCells(cells)|
  }

  /** The scan of one character: a line break starts a new row, an open cell
      is recorded under the grid index with its colour, and everything but a
      line break advances the column and the grid index. */
  method ScanStep(floor: string, counter: nat, x0: int, y0: int, gridIndex0: int,
                  cells0: map<Vertex, bool>, blackCount0: nat, whiteCount0: nat)
    returns (x: int, y: int, gridIndex: int, cells: map<Vertex, bool>, blackCount: nat, whiteCount: nat)
    requires counter < |floor|
    requires ScanState(floor, counter, x0, y0, gridIndex0, cells0, blackCount0, whiteCount0)
    ensures ScanState(floor, counter + 1, x, y, gridIndex, cells, blackCount, whiteCount)
  {
    x, y, gridIndex, cells, blackCount, whiteCount := x0, y0, gridIndex0, cells0, blackCount0, whiteCount0;
    RowStep(floor, counter);
    if floor[counter] == '\n' {
      y := y + 1;
      x := 0;
      return;
    }
    if floor[counter] == ' ' {
      FreshIndex(floor, counter);
      AddBlackCell(cells, gridIndex, (x + y) % 2 == 0);
      AddWhiteCell(cells, gridIndex, (x + y) % 2 == 0);
      if (x + y) % 2 == 0 {
        blackCount := blackCount + 1;
        cells := cells[gridIndex := true];
      } else {
        whiteCount := whiteCount + 1;
        cells := cells[gridIndex := false];
      }
    }
    x := x + 1;
    gridIndex := gridIndex + 1;
  }

  /** The scan of the floor text: one cell per `' '`, coloured by the running
      column and row, with the black and white counts. */
  method ParseFloor(floor: string) returns (cells: map<Vertex, bool>, blackCount: nat, whiteCount: nat)
    ensures cells == CellsOf(floor)
    ensures blackCount == |BlackCells(cells)| && whiteCount == |WhiteCells(cells)|
  {
    var x, y, counter, gridIndex := 0, 0, 0, 0;
    cells, blackCount, whiteCount := map[], 0, 0;
    while counter < |floor|
      invariant ScanState(floor, counter, x, y, gridIndex, cells, blackCount, whiteCount)
    {
      x, y, gridIndex, cells, blackCount, whiteCount := ScanStep(floor, counter, x, y, gridIndex, cells, blackCount, whiteCount);
      counter := counter + 1;
    }
  }

  /** The grid index reached after `n` characters is not yet taken. */
  lemma FreshIndex(floor: string, n: nat)
    requires n <= |floor|
    ensures GridIndex(floor, n) !in CellsBefore(floor, n)
  {
    CellsBeforeMembers(floor, n);
  }

  /** Each open cell among the first `n` characters is in `CellsBefore` under its
      grid index, with its colour; every entry comes from such a cell; and every
      entry lies below the grid index reached after `n` characters. */
  lemma CellsBeforeMembers(floor: string, n: nat)
    requires n <= |floor|
    ensures forall k: nat :: k < n && floor[k] == ' ' ==>
      GridIndex(floor, k) in CellsBefore(floor, n) && CellsBefore(floor, n)[GridIndex(floor, k)] == IsBlackAt(floor, k)
    ensures forall i :: i in CellsBefore(floor, n) ==> exists k: nat :: k < n && floor[k] == ' ' && GridIndex(floor, k) == i
    ensures forall i :: i in CellsBefore(floor, n) ==> 0 <= i < GridIndex(floor, n)
  {
    CellsBeforeColours(floor, n);
    CellsBeforeOrigins(floor, n);
    CellsBeforeBound(floor, n);
  }

  /** Each open cell among the first `n` characters is in `CellsBefore` under
      its grid index, with its colour. */
  lemma {:induction false} CellsBeforeColours(floor: string, n: nat)
    requires n <= |floor|
    ensures forall k: nat :: k < n && floor[k] == ' ' ==>
      GridIndex(floor, k) in CellsBefore(floor, n) && CellsBefore(floor, n)[GridIndex(floor, k)] == IsBlackAt(floor, k)
  {
    if n > 0 {
      CellsBeforeColours(floor, n - 1);
      var C' := CellsBefore(floor, n);
      forall k: nat | k < n && floor[k] == ' '
        ensures GridIndex(floor, k) in C' && C'[GridIndex(floor, k)] == IsBlackAt(floor, k)
      {
        if k < n - 1 {
          GridIndexBounds(floor, k, n - 1);
        }
      }
    }
  }

  /** Every entry of `CellsBefore` is the grid index of an open cell among the
      first `n` characters. */
  lemma {:induction false} CellsBeforeOrigins(floor: string, n: nat)
    requires n <= |floor|
    ensures forall i :: i in CellsBefore(floor, n) ==> exists k: nat :: k < n && floor[k] == ' ' && GridIndex(floor, k) == i
  {
    if n > 0 {
      CellsBeforeOrigins(floor, n - 1);
      var C, C' := CellsBefore(floor, n - 1), CellsBefore(floor, n);
      forall i | i in C'
        ensures exists k: nat :: k < n && floor[k] == ' ' && GridIndex(floor, k) == i
      {
        if i !in C {
          assert GridIndex(floor, n - 1) == i;
        }
      }
    }
  }

  /** Every entry of `CellsBefore` lies below the grid index reached after `n`
      characters. */
  lemma {:induction false} CellsBeforeBound(floor: string, n: nat)
    requires n <= |floor|
    ensures forall i :: i in CellsBefore(floor, n) ==> 0 <= i < GridIndex(floor, n)
  {
    if n > 0 {
      CellsBeforeBound(floor, n - 1);
      GridIndexBounds(floor, n - 1, n);
    }
  }

  /** Adding a fresh cell adds one to the black count exactly when it is black. */
  lemma AddBlackCell(cells: map<Vertex, bool>, i: Vertex, black: bool)
    requires i !in cells
    ensures |BlackCells(cells[i := black])| == |BlackCells(cells)| + (if black then 1 else 0)
  {
    var B, B' := BlackCells(cells), BlackCells(cells[i := black]);
    if black {
      assert B' == B + {i} by {
        forall j ensures j in B' <==> j in B + {i} { }
      }
    } else {
      assert B' == B by {
        forall j ensures j in B' <==> j in B { }
      }
    }
  }

  /** Adding a fresh cell adds one to the white count exactly when it is white. */
  lemma AddWhiteCell(cells: map<Vertex, bool>, i: Vertex, black: bool)
    requires i !in cells
    ensures |WhiteCells(cells[i := black])| == |WhiteCells(cells)| + (if black then 0 else 1)
  {
    var W, W' := WhiteCells(cells), WhiteCells(cells[i := black]);
    if black {
      assert W' == W by {
        forall j ensures j in W' <==> j in W { }
      }
    } else {
      assert W' == W + {i} by {
        forall j ensures j in W' <==> j in W + {i} { }
      }
    }
  }

  /** The open cells a scan-time black/white split leaves on each side add up
      to all open cells. */
  lemma CellsSplit(cells: map<Vertex, bool>)
    ensures |cells| == |BlackCells(cells)| + |WhiteCells(cells)|
    ensures BlackCells(cells) !! WhiteCells(cells)
  {
    assert cells.Keys == BlackCells(cells) + WhiteCells(cells) by {
      forall i ensures i in cells.Keys <==> i in BlackCells(cells) + WhiteCells(cells) { }
    }
  }

  /** The colour the wiring step gives grid index `i`: black when column plus
      row, recomputed from the index and the row length, is even. */
  predicate WiringBlack(L: nat, i: Vertex)
    requires L > 0 && i >= 0
  {
    (i % L + i / L) % 2 == 0
  }

  /** The cell probed at grid position (`gx`, `gy`): its index `gy * L + gx`
      when the column and row are non-negative (the column is not checked
      against the row length), that index is an open cell, and `gx + gy` is
      even; nothing otherwise. */
  function Probe(cells: map<Vertex, bool>, L: nat, gx: int, gy: int): (P: set<Vertex>)
    ensures P <= cells.Keys
    ensures forall n :: n in P ==> n == gy * L + gx && gx >= 0 && gy >= 0 && (gx + gy) % 2 == 0
    ensures gx >= 0 && gy >= 0 && gy * L + gx in cells && (gx + gy) % 2 == 0 ==> gy * L + gx in P
  {
    if gx < 0 || gy < 0 then {}
    else
      var n := gy * L + gx;
      if n in cells && (gx + gy) % 2 == 0 then {n} else {}
  }

  /** The cells a wiring-white cell `i` is joined to: the probes right, left,
      below and above it. A wiring-black cell is joined to none. */
  function WireTargets(cells: map<Vertex, bool>, L: nat, i: Vertex): (T: set<Vertex>)
    requires L > 0 && i >= 0
    ensures T <= cells.Keys
  {
    var x, y := i % L, i / L;
    if (x + y) % 2 == 0 then {}
    else Probe(cells, L, x + 1, y) + Probe(cells, L, x - 1, y) + Probe(cells, L, x, y + 1) + Probe(cells, L, x, y - 1)
  }

  /** The out-edges of cell `i`: one to the sink when the scan coloured it black,
      one to each wire target; all of capacity 1. */
  function CellEdges(cells: map<Vertex, bool>, L: nat, i: Vertex): (e: map<Vertex, int>)
    requires i in cells && L > 0 && i >= 0
    ensures e.Keys == WireTargets(cells, L, i) + (if cells[i] then {SINK} else {})
    ensures forall n :: n in e ==> e[n] == 1
  {
    var T := WireTargets(cells, L, i) + (if cells[i] then {SINK} else {});
    map n | n in T :: 1
  }

  /** The flow network built from the open cells: the source feeds every
      scan-white cell, every scan-black cell drains into the sink, and each
      wiring-white cell feeds its wire targets; every capacity is 1. */
  function Network(cells: map<Vertex, bool>, L: nat): (g: Graph)
    requires forall i :: i in cells ==> i >= 0
    requires L > 0 || cells == map[]
    ensures g.Keys == cells.Keys + {SOURCE, SINK}
    ensures Closed(g)
    ensures forall u, v :: u in g && v in g[u] ==> g[u][v] == 1
    ensures g[SOURCE].Keys == WhiteCells(cells) && g[SINK] == map[]
    ensures UnitSource(g, SOURCE)
    ensures forall u :: u in cells ==> (SINK in g[u] <==> cells[u])
  {
    var V := cells.Keys + {SOURCE, SINK};
    var g := map u | u in V :: OutEdges(cells, L, u);
    assert forall u :: u in g ==> g[u] == OutEdges(cells, L, u);
    g
  }

  /** The out-edges of vertex `u` of the network. */
  function OutEdges(cells: map<Vertex, bool>, L: nat, u: Vertex): (m: map<Vertex, int>)
    requires u in cells || u == SOURCE || u == SINK
    requires forall i :: i in cells ==> i >= 0
    requires L > 0 || cells == map[]
    ensures forall v :: v in m ==> m[v] == 1
    ensures u == SOURCE ==> m.Keys == WhiteCells(cells)
    ensures u == SINK ==> m == map[]
    ensures u in cells ==> m.Keys <= cells.Keys + {SINK} && (SINK in m <==> cells[u])
    ensures m.Keys <= cells.Keys + {SINK} && SOURCE !in m
  {
    if u == SOURCE then SourceRow(cells)
    else if u == SINK then map[]
    else CellEdges(cells, L, u)
  }

  /** The row of the source: capacity 1 to every scan-white cell. */
  function SourceRow(cells: map<Vertex, bool>): (m: map<Vertex, int>)
    ensures m.Keys == WhiteCells(cells)
    ensures forall w :: w in m ==> m[w] == 1
  {
    map w | w in WhiteCells(cells) :: 1
  }

  /** A nonzero multiple of `L` is at least `L` away from zero. */
  lemma MulBound(d: int, L: nat)
    requires L > 0
    ensures d >= 1 ==> d * L >= L
    ensures d <= -1 ==> d * L + L <= 0
  {
    if d >= 1 {
      var e: nat := d - 1;
      assert e * L >= 0;
      assert d * L == e * L + L;
    } else if d <= -1 {
      var e: nat := -d - 1;
      assert e * L >= 0;
      assert d * L + L == -(e * L);
    }
  }

  /** Division of `q * L + r` by `L` for a remainder `r` in range. */
  lemma DivMod(q: int, r: int, L: nat)
    requires L > 0 && 0 <= r < L
    ensures (q * L + r) / L == q && (q * L + r) % L == r
  {
    var a := q * L + r;
    var d := a / L - q;
    assert a == (a / L) * L + a % L;
    assert d * L == r - a % L;
    MulBound(d, L);
  }

  /** `v` is a grid neighbour of `u` for row length `L`: next to it in the same
      row, or directly below or above it. */
  predicate GridAdjacent(L: nat, u: Vertex, v: Vertex)
    requires L > 0
  {
    && u >= 0 && v >= 0
    && ((u / L == v / L && (v == u + 1 || v == u - 1)) || v == u + L || v == u - L)
  }

  /** The row of cell `u` in the network: its wire targets, and the sink when
      the scan coloured it black. */
  lemma NetworkRow(cells: map<Vertex, bool>, L: nat, u: Vertex)
    requires forall i :: i in cells ==> i >= 0
    requires L > 0 && u in cells
    ensures Network(cells, L)[u].Keys == WireTargets(cells, L, u) + (if cells[u] then {SINK} else {})
  {
    assert Network(cells, L)[u] == OutEdges(cells, L, u);
  }

  /** An open cell at an on-grid position with an even coordinate sum is what
      the probe there finds. */
  lemma InProbe(cells: map<Vertex, bool>, L: nat, gx: int, gy: int, n: Vertex)
    requires gx >= 0 && gy >= 0 && n == gy * L + gx && n in cells && (gx + gy) % 2 == 0
    ensures n in Probe(cells, L, gx, gy)
  {
  }

  /** A wiring-white cell's wire targets include the open cell below it. */
  lemma BelowIsTarget(cells: map<Vertex, bool>, L: nat, u: Vertex)
    requires L > 0 && u >= 0 && !WiringBlack(L, u) && u + L in cells
    ensures u + L in WireTargets(cells, L, u)
  {
    var x, y := u % L, u / L;
    DivMod(y, x, L);
    assert (y + 1) * L + x == u + L;
    InProbe(cells, L, x, y + 1, u + L);
  }

  /** A wiring-white cell's wire targets include the open cell above it. */
  lemma AboveIsTarget(cells: map<Vertex, bool>, L: nat, u: Vertex)
    requires L > 0 && u - L >= 0 && !WiringBlack(L, u) && u - L in cells
    ensures u - L in WireTargets(cells, L, u)
  {
    var x, y := u % L, u / L;
    DivMod(y, x, L);
    if y == 0 {
      assert false;
    }
    assert (y - 1) * L + x == u - L;
    InProbe(cells, L, x, y - 1, u - L);
  }

  /** A wiring-white cell's wire targets include the open cell to its right in
      the same row. */
  lemma RightIsTarget(cells: map<Vertex, bool>, L: nat, u: Vertex)
    requires L > 0 && u >= 0 && !WiringBlack(L, u) && u + 1 in cells && (u + 1) / L == u / L
    ensures u + 1 in WireTargets(cells, L, u)
  {
    var x, y := u % L, u / L;
    DivMod(y, x, L);
    assert x + 1 < L;
    InProbe(cells, L, x + 1, y, u + 1);
  }

  /** A wiring-white cell's wire targets include the open cell to its left in
      the same row. */
  lemma LeftIsTarget(cells: map<Vertex, bool>, L: nat, u: Vertex)
    requires L > 0 && u - 1 >= 0 && !WiringBlack(L, u) && u - 1 in cells && (u - 1) / L == u / L
    ensures u - 1 in WireTargets(cells, L, u)
  {
    var x, y := u % L, u / L;
    DivMod(y, x, L);
    if x == 0 {
      assert false;
    }
    assert y * L + (x - 1) == u - 1;
    InProbe(cells, L, x - 1, y, u - 1);
  }

  /** Between grid neighbours, a cell's wire targets hold the second exactly
      when the first is wiring-white and the second is an open cell. */
  lemma WireTargetsAdjacent(cells: map<Vertex, bool>, L: nat, u: Vertex, v: Vertex)
    requires L > 0 && GridAdjacent(L, u, v)
    ensures v in WireTargets(cells, L, u) <==> !WiringBlack(L, u) && v in cells
  {
    if !WiringBlack(L, u) && v in cells {
      if v == u + L {
        BelowIsTarget(cells, L, u);
      } else if v == u - L {
        AboveIsTarget(cells, L, u);
      } else if v == u + 1 {
        RightIsTarget(cells, L, u);
      } else {
        LeftIsTarget(cells, L, u);
      }
    }
  }

  /** What the right-hand probe of `u` can find: the next index, in the same
      row unless `u` is in the last column. */
  lemma RightProbe(cells: map<Vertex, bool>, L: nat, u: Vertex, v: Vertex)
    requires L > 0 && u >= 0 && v in Probe(cells, L, u % L + 1, u / L)
    ensures v == u + 1 && (u % L < L - 1 ==> v / L == u / L)
  {
    var x, y := u % L, u / L;
    DivMod(y, x, L);
    if x + 1 < L {
      DivMod(y, x + 1, L);
    }
  }

  /** What the left-hand probe of `u` can find: the previous index, in the same row. */
  lemma LeftProbe(cells: map<Vertex, bool>, L: nat, u: Vertex, v: Vertex)
    requires L > 0 && u >= 0 && v in Probe(cells, L, u % L - 1, u / L)
    ensures v == u - 1 && v / L == u / L
  {
    var x, y := u % L, u / L;
    DivMod(y, x, L);
    DivMod(y, x - 1, L);
  }

  /** What the probe below `u` can find: the index one row further on. */
  lemma BelowProbe(cells: map<Vertex, bool>, L: nat, u: Vertex, v: Vertex)
    requires L > 0 && u >= 0 && v in Probe(cells, L, u % L, u / L + 1)
    ensures v == u + L
  {
    var x, y := u % L, u / L;
    DivMod(y, x, L);
    assert (y + 1) * L + x == u + L;
  }

  /** What the probe above `u` can find: the index one row back. */
  lemma AboveProbe(cells: map<Vertex, bool>, L: nat, u: Vertex, v: Vertex)
    requires L > 0 && u >= 0 && v in Probe(cells, L, u % L, u / L - 1)
    ensures v == u - L
  {
    var x, y := u % L, u / L;
    DivMod(y, x, L);
    assert (y - 1) * L + x == u - L;
  }

  /** Every wire target of `u` is an open cell; `u` is wiring-white; and the
      target is a grid neighbour of `u` or the cell just past the end of its row. */
  lemma WireTargetsLocal(cells: map<Vertex, bool>, L: nat, u: Vertex, v: Vertex)
    requires forall i :: i in cells ==> i >= 0
    requires L > 0 && u >= 0 && v in WireTargets(cells, L, u)
    ensures v in cells && !WiringBlack(L, u)
    ensures GridAdjacent(L, u, v) || (u % L == L - 1 && v == u + 1)
  {
    var x, y := u % L, u / L;
    if v in Probe(cells, L, x + 1, y) {
      RightProbe(cells, L, u, v);
    } else if v in Probe(cells, L, x - 1, y) {
      LeftProbe(cells, L, u, v);
    } else if v in Probe(cells, L, x, y + 1) {
      BelowProbe(cells, L, u, v);
    } else {
      AboveProbe(cells, L, u, v);
    }
  }

  /** Between grid neighbours the network has an edge exactly when the first
      is wiring-white and the second is an open cell. */
  lemma NetworkAdjacent(cells: map<Vertex, bool>, L: nat, u: Vertex, v: Vertex)
    requires forall i :: i in cells ==> i >= 0
    requires L > 0 && u in cells && GridAdjacent(L, u, v)
    ensures v in Network(cells, L)[u] <==> !WiringBlack(L, u) && v in cells
  {
    NetworkRow(cells, L, u);
    WireTargetsAdjacent(cells, L, u, v);
  }

  /** Every edge between cells joins a wiring-white cell to an open cell that
      is its grid neighbour, or to the cell just past the end of its row. */
  lemma NetworkLocal(cells: map<Vertex, bool>, L: nat, u: Vertex, v: Vertex)
    requires forall i :: i in cells ==> i >= 0
    requires L > 0 && u in cells && v in Network(cells, L)[u] && v != SINK
    ensures v in cells && !WiringBlack(L, u)
    ensures GridAdjacent(L, u, v) || (u % L == L - 1 && v == u + 1)
  {
    NetworkRow(cells, L, u);
    WireTargetsLocal(cells, L, u, v);
  }

  /** A cell in the last column has the next index among its wire targets
      exactly when it is wiring-white and that index is an open cell. */
  lemma WrapTarget(cells: map<Vertex, bool>, L: nat, u: Vertex)
    requires L > 0 && u >= 0 && u % L == L - 1
    ensures u + 1 in WireTargets(cells, L, u) <==> !WiringBlack(L, u) && u + 1 in cells
  {
    var y := u / L;
    DivMod(y, L - 1, L);
    if !WiringBlack(L, u) && u + 1 in cells {
      assert u + 1 == y * L + L;
      InProbe(cells, L, L, y, u + 1);
    }
  }

  /** The first cell of the next row has the colour of a wiring-white cell in
      the last column when the row length is even, and the other colour when
      it is odd. */
  lemma WrapColour(L: nat, u: Vertex)
    requires L > 0 && u >= 0 && u % L == L - 1 && !WiringBlack(L, u)
    ensures WiringBlack(L, u + 1) <==> L % 2 == 1
  {
    var y := u / L;
    DivMod(y, L - 1, L);
    assert u + 1 == (y + 1) * L + 0;
    DivMod(y + 1, 0, L);
    assert (L - 1 + y) % 2 == 1;
    ParityShift(L - 1 + y, L);
  }

  /** Moving an odd number by `L` back and two forward keeps it odd exactly
      when `L` is even. */
  lemma ParityShift(a: int, L: int)
    requires a % 2 == 1
    ensures (a - L + 2) % 2 == 0 <==> L % 2 == 1
  {
  }

  /** The right-hand probe of a cell in the last column lands on the first
      cell of the next row: the network joins the two whenever the first is
      wiring-white, and the second is then wiring-black exactly when the row
      length is odd. */
  lemma RightEdgeWraps(cells: map<Vertex, bool>, L: nat, u: Vertex)
    requires forall i :: i in cells ==> i >= 0
    requires L > 0 && u in cells && u % L == L - 1 && u + 1 in cells
    ensures u + 1 in Network(cells, L)[u] <==> !WiringBlack(L, u)
    ensures !WiringBlack(L, u) ==> (WiringBlack(L, u + 1) <==> L % 2 == 1)
  {
    NetworkRow(cells, L, u);
    WrapTarget(cells, L, u);
    if !WiringBlack(L, u) {
      WrapColour(L, u);
    }
  }

  /** As many open cells of each scan colour; this forces an even count. */
  ghost predicate Balanced(floor: string) {
    |BlackCells(CellsOf(floor))| == |WhiteCells(CellsOf(floor))|
  }

  /** The network built for a floor. */
  ghost function TilingNetwork(floor: string): Graph
    requires RowLength(floor) > 0 || CellsOf(floor) == map[]
  {
    CellsBeforeMembers(floor, |floor|);
    Network(CellsOf(floor), RowLength(floor))
  }

  /** Every edge out of `s` is used up: no unit the source can send is left. */
  ghost predicate Saturated(r: Graph, s: Vertex) {
    s in r && forall w :: w in r[s] ==> r[s][w] == 0
  }

  /** Only grid indices, which are non-negative, name cells. */
  lemma CellsNonNegative(floor: string)
    ensures forall i :: i in CellsOf(floor) ==> i >= 0
  {
    CellsBeforeMembers(floor, |floor|);
  }

  /** Two equal counts add up to an even number. */
  lemma OddUnequal(b: nat, w: nat)
    requires (b + w) % 2 != 0
    ensures b != w
  {
  }

  /** The decision on the scanned cells: reject an odd number of open cells or
      unequal colour counts outright; otherwise build the network, compute its
      maximum flow, and accept when the flow equals the number of scan-white
      cells, that is, when the final residual network leaves no edge out of
      the source unused. */
  method Decide(cells: map<Vertex, bool>, L: nat, blackCount: nat, whiteCount: nat)
    returns (tileable: bool, residual: Graph)
    requires forall i :: i in cells ==> i >= 0
    requires blackCount == |BlackCells(cells)| && whiteCount == |WhiteCells(cells)|
    requires L > 0 || cells == map[] || blackCount != whiteCount
    ensures (blackCount + whiteCount) % 2 != 0 ==> !tileable
    ensures blackCount != whiteCount ==> !tileable
    ensures blackCount == whiteCount ==> ResidualOf(Network(cells, L), residual) && !Reachable(residual, SOURCE, SINK)
    ensures blackCount == whiteCount ==> Conserving(Network(cells, L), residual, SOURCE, SINK)
    ensures tileable <==> blackCount == whiteCount && Saturated(residual, SOURCE)
  {
    var emptyCount := blackCount + whiteCount;
    if emptyCount % 2 != 0 {
      OddUnequal(blackCount, whiteCount);
      tileable, residual := false, map[];
    } else if blackCount != whiteCount {
      tileable, residual := false, map[];
    } else {
      tileable, residual := FlowVerdict(cells, L, whiteCount);
    }
  }

  /** The flow stage: build the network, compute its maximum flow, and accept
      when the flow equals the number of scan-white cells. */
  method FlowVerdict(cells: map<Vertex, bool>, L: nat, whiteCount: nat) returns (tileable: bool, residual: Graph)
    requires forall i :: i in cells ==> i >= 0
    requires L > 0 || cells == map[]
    requires whiteCount == |WhiteCells(cells)|
    ensures ResidualOf(Network(cells, L), residual) && !Reachable(residual, SOURCE, SINK)
    ensures Conserving(Network(cells, L), residual, SOURCE, SINK)
    ensures tileable <==> Saturated(residual, SOURCE)
  {
    var g := Network(cells, L);
    var flow, rounds;
    flow, residual, rounds := MaxFlow(g, SOURCE, SINK);
    tileable := flow == whiteCount;
    ZeroKeysAll(residual[SOURCE], residual[SOURCE].Keys);
  }

  /** `has_tiling` on the floor text. */
  method HasTiling(floor: string) returns (tileable: bool, residual: Graph)
    requires RowLength(floor) == 0 && Balanced(floor) ==> CellsOf(floor) == map[]
    ensures |CellsOf(floor)| % 2 != 0 ==> !tileable
    ensures !Balanced(floor) ==> !tileable
    ensures Balanced(floor) ==> ResidualOf(TilingNetwork(floor), residual) && !Reachable(residual, SOURCE, SINK)
    ensures Balanced(floor) ==> Conserving(TilingNetwork(floor), residual, SOURCE, SINK)
    ensures tileable <==> Balanced(floor) && Saturated(residual, SOURCE)
  {
    var cells, blackCount, whiteCount := ParseFloor(floor);
    CellsSplit(cells);
    CellsNonNegative(floor);
    tileable, residual := Decide(cells, RowLength(floor), blackCount, whiteCount);
  }
}
