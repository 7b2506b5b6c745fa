/** `generateGrid` (generateGrid.py:7-32): the two coordinate axes of a
    bounding box and the column-major list of grid cells built from them,
    with the column and row index of each cell. Coordinates are exact reals. */
module Grid {
  import opened Outcome
  import opened Geometry

  datatype Corner = Corner(x: real, y: real)

  /** A grid cell: the four corners handed to `Polygon`, in that order. */
  datatype Cell = Cell(c0: Corner, c1: Corner, c2: Corner, c3: Corner)

  /** `np.ceil`, the smallest integer at or above `r`. */
  function Ceil(r: real): (c: int)
    ensures r <= c as real < r + 1.0
  {
    -((-r).Floor)
  }

  /** `int(np.ceil((hi - lo) / cell_m))`, the `num` given to `linspace`. */
  function PointCount(lo: real, hi: real, cell: real): (r: Result<int>)
    ensures r.Err? <==> cell == 0.0
    ensures r.Err? ==> r.error == ZeroCellSize
    ensures r.Ok? ==> (hi - lo) / cell <= r.value as real < (hi - lo) / cell + 1.0
  {
    if cell == 0.0 then Err(ZeroCellSize) else Ok(Ceil((hi - lo) / cell))
  }

  /** `np.linspace(lo, hi, num)`: `num` evenly spaced values from `lo` to `hi`,
      both included; a single value is `lo`. */
  function Linspace(lo: real, hi: real, num: nat): (r: seq<real>)
    ensures |r| == num
  {
    if num == 1 then [lo]
    else seq(num, i requires 0 <= i < num => lo + i as real * ((hi - lo) / (num - 1) as real))
  }

  /** The axis of generateGrid.py:14-17: as many points as cells were
      asked for. */
  function AxisAsWritten(lo: real, hi: real, cell: real): (r: Result<seq<real>>)
    ensures r.Err? ==> r.error == ZeroCellSize || r.error == NegativeSampleCount
  {
    var num :- PointCount(lo, hi, cell);
    if num < 0 then Err(NegativeSampleCount) else Ok(Linspace(lo, hi, num))
  }

  /** With two or more points the axis starts at `lo`, ends at `hi`, and
      its points are `(hi - lo) / (num - 1)` apart. */
  lemma LinspaceSpacing(lo: real, hi: real, num: nat)
    requires num >= 2
    ensures var r := Linspace(lo, hi, num);
      r[0] == lo && r[num - 1] == hi
      && forall i :: 0 <= i < num - 1 ==> r[i + 1] - r[i] == (hi - lo) / (num - 1) as real
  {
    var r := Linspace(lo, hi, num);
    var step := (hi - lo) / (num - 1) as real;
    assert (num - 1) as real * step == hi - lo;
    forall i | 0 <= i < num - 1
      ensures r[i + 1] - r[i] == step
    {
      assert (i + 1) as real * step == i as real * step + step;
    }
  }

  /** As written, a span that needs `num >= 2` cells of size `cell` gets
      `num - 1` cells, each strictly wider than `cell`. */
  lemma AxisCellsTooWide(lo: real, hi: real, cell: real)
    requires cell > 0.0 && lo < hi
    requires AxisAsWritten(lo, hi, cell).Ok? && |AxisAsWritten(lo, hi, cell).value| >= 2
    ensures var x := AxisAsWritten(lo, hi, cell).value;
      var num := |x|;
      && (num - 1) as real < (hi - lo) / cell
      && (forall i :: 0 <= i < num - 1 ==> x[i + 1] - x[i] == (hi - lo) / (num - 1) as real)
      && (hi - lo) / (num - 1) as real > cell
  {
    var num := |AxisAsWritten(lo, hi, cell).value|;
    LinspaceSpacing(lo, hi, num);
    var q := (hi - lo) / cell;
    assert (num - 1) as real < q;
    ScaleLt((num - 1) as real, q, cell);
    assert q * cell == hi - lo;
    BelowQuotient(cell, hi - lo, (num - 1) as real);
  }

  lemma BelowQuotient(a: real, b: real, d: real)
    requires d > 0.0 && d * a < b
    ensures a < b / d
  {
    var q := b / d;
    assert q * d == b;
    CancelLt(a, q, d);
  }

  lemma CancelLt(a: real, q: real, d: real)
    requires d > 0.0 && a * d < q * d
    ensures a < q
  {
  }

  /** A 20 m span with 10 m cells yields one cell 20 m wide. */
  lemma TwentyMetresOneCell()
    ensures AxisAsWritten(0.0, 20.0, 10.0) == Ok([0.0, 20.0])
  {
    assert Ceil(2.0) == 2;
    assert Linspace(0.0, 20.0, 2) == [0.0, 20.0];
  }

  /** The axis the documentation describes: points `cell` apart from `lo`,
      enough of them for the cells to cover `hi`. */
  function IntendedAxis(lo: real, hi: real, cell: real): (r: Result<seq<real>>)
    ensures r.Err? ==> r.error == ZeroCellSize || r.error == NegativeSampleCount
  {
    var cells :- PointCount(lo, hi, cell);
    if cells < 0 then Err(NegativeSampleCount)
    else Ok(seq(cells + 1, i requires 0 <= i <= cells => lo + i as real * cell))
  }

  /** The intended axis has one cell per `cell_m`: neighbouring points are
      `cell` apart, the first is `lo`, the last reaches `hi`, and the last
      cell starts before `hi`. */
  lemma IntendedAxisCovers(lo: real, hi: real, cell: real)
    requires cell > 0.0 && lo < hi
    ensures IntendedAxis(lo, hi, cell).Ok?
    ensures var x := IntendedAxis(lo, hi, cell).value;
      && |x| >= 2 && |x| - 1 == PointCount(lo, hi, cell).value
      && x[0] == lo && x[|x| - 1] >= hi && x[|x| - 2] < hi
      && forall i :: 0 <= i < |x| - 1 ==> x[i + 1] - x[i] == cell
  {
    var n := CellCountBrackets(lo, hi, cell);
    var x := IntendedAxis(lo, hi, cell).value;
    assert x[n] == lo + n as real * cell;
    assert x[n - 1] == lo + (n - 1) as real * cell;
    forall i | 0 <= i < |x| - 1
      ensures x[i + 1] - x[i] == cell
    {
      assert (i + 1) as real * cell == i as real * cell + cell;
    }
  }

  /** The rounded-up cell count `n` is at least one; `n` cells reach past
      the span and `n - 1` cells fall short of it. */
  lemma CellCountBrackets(lo: real, hi: real, cell: real) returns (n: int)
    requires cell > 0.0 && lo < hi
    ensures n == Ceil((hi - lo) / cell) && n >= 1
    ensures n as real * cell >= hi - lo && (n - 1) as real * cell < hi - lo
  {
    var q := (hi - lo) / cell;
    n := Ceil(q);
    assert q * cell == hi - lo;
    assert q > 0.0 by {
      if q <= 0.0 {
        ScaleLe(q, 0.0, cell);
      }
    }
    CeilBracket(n, q, cell, hi - lo);
  }

  lemma CeilBracket(k: int, q: real, c: real, d: real)
    requires (k - 1) as real < q <= k as real && c > 0.0 && q * c == d
    ensures (k - 1) as real * c < d <= k as real * c
  {
    ScaleLt((k - 1) as real, q, c);
    ScaleLe(q, k as real, c);
  }

  /** The number of cells along an axis: `range(len(axis) - 1)`. */
  function Spans(points: nat): nat
  {
    if points >= 1 then points - 1 else 0
  }

  /** Cell (i, j) of generateGrid.py:26. */
  function CellAt(x: seq<real>, y: seq<real>, i: nat, j: nat): Cell
    requires i + 1 < |x| && j + 1 < |y|
  {
    Cell(Corner(x[i], y[j]), Corner(x[i + 1], y[j]), Corner(x[i + 1], y[j + 1]), Corner(x[i], y[j + 1]))
  }

  /** Entry k of the grid is cell (k div ny, k mod ny), with ny the number
      of rows: columns outermost. */
  function GridCols(x: seq<real>, y: seq<real>): (r: seq<nat>)
    ensures |r| == Spans(|x|) * Spans(|y|)
  {
    var nx, ny := Spans(|x|), Spans(|y|);
    seq(nx * ny, k requires 0 <= k < nx * ny => ColumnOf(k, nx, ny))
  }

  /** The column of entry k: k div ny. */
  function ColumnOf(k: int, nx: nat, ny: nat): (c: nat)
    requires 0 <= k < nx * ny
    ensures c < nx
  {
    RowsPositive(k, nx, ny);
    ColumnBound(k, nx, ny);
    k / ny
  }

  function GridRows(x: seq<real>, y: seq<real>): (r: seq<nat>)
    ensures |r| == Spans(|x|) * Spans(|y|)
  {
    var nx, ny := Spans(|x|), Spans(|y|);
    seq(nx * ny, k requires 0 <= k < nx * ny =>
      RowsPositive(k, nx, ny);
      k % ny)
  }

  function GridCells(x: seq<real>, y: seq<real>): (r: seq<Cell>)
    ensures |r| == Spans(|x|) * Spans(|y|)
  {
    var nx, ny := Spans(|x|), Spans(|y|);
    seq(nx * ny, k requires 0 <= k < nx * ny =>
      ColumnBound(k, nx, ny);
      CellAt(x, y, k / ny, k % ny))
  }

  /** The nested loops of generateGrid.py:20-29, appending one cell, its
      column and its row per step. */
  method GenerateGrid(x: seq<real>, y: seq<real>) returns (polygons: seq<Cell>, cols: seq<nat>, rows: seq<nat>)
    ensures polygons == GridCells(x, y) && cols == GridCols(x, y) && rows == GridRows(x, y)
  {
    var nx, ny := Spans(|x|), Spans(|y|);
    polygons, cols, rows := [], [], [];
    for i := 0 to nx
      invariant |polygons| == |cols| == |rows| == i * ny
      invariant forall k :: 0 <= k < |polygons| ==>
        cols[k] < nx && rows[k] < ny && k == cols[k] * ny + rows[k]
        && polygons[k] == CellAt(x, y, cols[k], rows[k])
    {
      for j := 0 to ny
        invariant |polygons| == |cols| == |rows| == i * ny + j
        invariant forall k :: 0 <= k < |polygons| ==>
          cols[k] < nx && rows[k] < ny && k == cols[k] * ny + rows[k]
          && polygons[k] == CellAt(x, y, cols[k], rows[k])
      {
        polygons := polygons + [CellAt(x, y, i, j)];
        cols := cols + [i];
        rows := rows + [j];
      }
      assert i * ny + ny == (i + 1) * ny;
    }
    forall k | 0 <= k < |polygons|
      ensures cols[k] == k / ny && rows[k] == k % ny
    {
      ColumnMajor(cols[k], rows[k], ny);
    }
  }

  /** Entry i * ny + j holds cell (i, j), so every cell of the grid is
      listed. */
  lemma GridListsEveryCell(x: seq<real>, y: seq<real>, i: nat, j: nat)
    requires i < Spans(|x|) && j < Spans(|y|)
    ensures var k := i * Spans(|y|) + j;
      && k < |GridCells(x, y)|
      && GridCols(x, y)[k] == i && GridRows(x, y)[k] == j
      && GridCells(x, y)[k] == CellAt(x, y, i, j)
  {
    var nx, ny := Spans(|x|), Spans(|y|);
    ColumnMajor(i, j, ny);
    assert i * ny + j < nx * ny by {
      MultipleAtLeast(nx - i, ny);
      assert (nx - i) * ny == nx * ny - i * ny;
    }
  }

  /** No cell is listed twice, and every entry lies inside the grid. */
  lemma GridEntriesDistinct(x: seq<real>, y: seq<real>, k1: nat, k2: nat)
    requires k1 < |GridCells(x, y)| && k2 < |GridCells(x, y)|
    ensures GridCols(x, y)[k1] < Spans(|x|) && GridRows(x, y)[k1] < Spans(|y|)
    ensures GridCols(x, y)[k1] == GridCols(x, y)[k2] && GridRows(x, y)[k1] == GridRows(x, y)[k2] ==> k1 == k2
  {
    var nx, ny := Spans(|x|), Spans(|y|);
    ColumnBound(k1, nx, ny);
    assert k1 == k1 / ny * ny + k1 % ny;
    assert k2 == k2 / ny * ny + k2 % ny;
  }

  /** A cell shares its right edge with the next column's cell. */
  lemma RightNeighbourSharesEdge(x: seq<real>, y: seq<real>, i: nat, j: nat)
    requires i + 2 < |x| && j + 1 < |y|
    ensures CellAt(x, y, i, j).c1 == CellAt(x, y, i + 1, j).c0
    ensures CellAt(x, y, i, j).c2 == CellAt(x, y, i + 1, j).c3
  {
  }

  /** A cell shares its top edge with the next row's cell. */
  lemma UpperNeighbourSharesEdge(x: seq<real>, y: seq<real>, i: nat, j: nat)
    requires i + 1 < |x| && j + 2 < |y|
    ensures CellAt(x, y, i, j).c3 == CellAt(x, y, i, j + 1).c0
    ensures CellAt(x, y, i, j).c2 == CellAt(x, y, i, j + 1).c1
  {
  }

  lemma ColumnMajor(i: int, j: int, ny: int)
    requires 0 <= i && 0 <= j < ny
    ensures (i * ny + j) / ny == i && (i * ny + j) % ny == j
  {
    var k := i * ny + j;
    var q, r := k / ny, k % ny;
    assert k == q * ny + r && 0 <= r < ny;
    assert (q - i) * ny == j - r by {
      assert q * ny - i * ny == (q - i) * ny;
    }
    if q - i >= 1 {
      MultipleAtLeast(q - i, ny);
    } else if q - i <= -1 {
      MultipleAtLeast(i - q, ny);
    }
  }

  lemma MultipleAtLeast(a: int, b: int)
    requires a >= 1 && b > 0
    ensures a * b >= b
  {
  }

  lemma RowsPositive(k: int, nx: nat, ny: nat)
    requires 0 <= k < nx * ny
    ensures ny > 0
  {
  }

  lemma ColumnBound(k: int, nx: int, ny: int)
    requires 0 <= k < nx * ny && ny > 0
    ensures 0 <= k / ny < nx
  {
  }
}
