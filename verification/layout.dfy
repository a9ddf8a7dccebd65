/**
 * The mosaic grid-layout search of mriqc's `volumes.py` (`_calc_rows_columns`).
 *
 * Given an aspect ratio and a slice count the search walks the row counts
 * 1, 2, 3, ... and, for each, tries the column count `floor(ratio * rows)` and
 * then `ceil(ratio * rows)`; it stops at the first candidate whose cell count is
 * STRICTLY greater than the slice count. The walk is capped at 100 rows; when
 * the cap is reached the result is one row past the last row tried, paired with
 * that row's ceiling candidate, and nothing guarantees that it covers anything.
 *
 * The ratio is an exact `real`: Python's float rounding is not modelled.
 */
module GridLayout {

  /** Number of iterations of the search loop. */
  const MaxIterations: nat := 100

  /** A mosaic layout: `rows` by `columns` subplots. */
  datatype Grid = Grid(rows: int, columns: int)

  /** `math.floor` on an exact real. */
  function Floor(x: real): (f: int)
    ensures f as real <= x < f as real + 1.0
  {
    x.Floor
  }

  /** `math.ceil` on an exact real. */
  function Ceil(x: real): (c: int)
    ensures c as real - 1.0 < x <= c as real
  {
    -((-x).Floor)
  }

  /** The first column candidate tried for a row count. */
  function FloorColumns(ratio: real, rows: int): int {
    Floor(ratio * rows as real)
  }

  /** The second column candidate tried for a row count. */
  function CeilColumns(ratio: real, rows: int): int {
    Ceil(ratio * rows as real)
  }

  /** The search stops at `rows`: one of its candidates gives more cells than images. */
  predicate Stops(ratio: real, n: int, rows: int) {
    rows * FloorColumns(ratio, rows) > n || rows * CeilColumns(ratio, rows) > n
  }

  /** The column count returned at a stopping row: the floor wins whenever it suffices. */
  function Chosen(ratio: real, n: int, rows: int): int {
    if rows * FloorColumns(ratio, rows) > n then FloorColumns(ratio, rows) else CeilColumns(ratio, rows)
  }

  /**
   * The loop from row count `rows` with `fuel` iterations still to run. It
   * returns the first stopping row in `rows .. rows + fuel - 1` with its chosen
   * column count, or, when there is none, `rows + fuel` with the ceiling
   * candidate of the last row tried.
   */
  function Search(ratio: real, n: int, rows: int, fuel: nat): (g: Grid)
    requires fuel >= 1
    ensures rows <= g.rows <= rows + fuel
    ensures forall r :: rows <= r < g.rows ==> !Stops(ratio, n, r)
    ensures g.rows < rows + fuel ==> Stops(ratio, n, g.rows) && g.columns == Chosen(ratio, n, g.rows)
    ensures g.rows == rows + fuel ==> g.columns == CeilColumns(ratio, rows + fuel - 1)
    decreases fuel
  {
    var f := FloorColumns(ratio, rows);
    if rows * f > n then Grid(rows, f)
    else
      var c := CeilColumns(ratio, rows);
      if rows * c > n then Grid(rows, c)
      else if fuel == 1 then Grid(rows + 1, c)
      else Search(ratio, n, rows + 1, fuel - 1)
  }

  /**
   * `_calc_rows_columns(ratio, n_images)`. No input is rejected: a
   * non-positive ratio with a non-negative slice count simply runs the loop
   * to its cap.
   */
  function Layout(ratio: real, n: int): (g: Grid)
    ensures 1 <= g.rows <= MaxIterations + 1
    ensures forall r :: 1 <= r < g.rows ==> !Stops(ratio, n, r)
    ensures g.rows <= MaxIterations ==> Stops(ratio, n, g.rows) && g.columns == Chosen(ratio, n, g.rows)
    ensures g.rows <= MaxIterations ==> g.rows * g.columns > n
    ensures g.rows == MaxIterations + 1 ==> g.columns == CeilColumns(ratio, MaxIterations)
  {
    Search(ratio, n, 1, MaxIterations)
  }

  /** The `for _ in range(100)` loop of `_calc_rows_columns`, statement by statement. */
  method CalcRowsColumns(ratio: real, n: int) returns (rows: int, columns: int)
    ensures Grid(rows, columns) == Layout(ratio, n)
    ensures 1 <= rows <= MaxIterations + 1
    ensures forall r :: 1 <= r < rows ==> !Stops(ratio, n, r)
    ensures rows <= MaxIterations ==> rows * columns > n && columns == Chosen(ratio, n, rows)
  {
    rows := 1;
    columns := 0;  // always overwritten: the loop body runs at least once
    var i := 0;
    while i < MaxIterations
      invariant 0 <= i <= MaxIterations
      invariant rows == i + 1
      invariant i < MaxIterations ==> Search(ratio, n, rows, MaxIterations - i) == Layout(ratio, n)
      invariant i == MaxIterations ==> Grid(rows, columns) == Layout(ratio, n)
    {
      columns := FloorColumns(ratio, rows);
      var total := rows * columns;
      if total > n {
        assert Search(ratio, n, rows, MaxIterations - i) == Grid(rows, columns);
        break;
      }
      columns := CeilColumns(ratio, rows);
      total := rows * columns;
      if total > n {
        assert Search(ratio, n, rows, MaxIterations - i) == Grid(rows, columns);
        break;
      }
      rows := rows + 1;
      i := i + 1;
    }
  }

  /** The search result is the first stopping row, whatever row that is. */
  lemma LayoutIsFirstStop(ratio: real, n: int, r: int)
    requires 1 <= r <= MaxIterations
    requires Stops(ratio, n, r)
    requires forall r' :: 1 <= r' < r ==> !Stops(ratio, n, r')
    ensures Layout(ratio, n) == Grid(r, Chosen(ratio, n, r))
  {
    var g := Layout(ratio, n);
    assert g.rows <= r;
  }

  /** The cap is reached exactly when no row count up to 100 stops the search. */
  lemma ExhaustedIff(ratio: real, n: int)
    ensures Layout(ratio, n).rows == MaxIterations + 1
        <==> forall r :: 1 <= r <= MaxIterations ==> !Stops(ratio, n, r)
  {
    var g := Layout(ratio, n);
    if g.rows <= MaxIterations {
      assert Stops(ratio, n, g.rows);
    }
  }

  /** The source's figure: an A4 landscape page (11.7 by 8.3) holding 30 slices. */
  lemma A4LandscapeThirtySlices()
    ensures Layout(11.7 / 8.3, 30) == Grid(5, 7)
  {
    var ratio := 11.7 / 8.3;
    assert FloorColumns(ratio, 1) == 1 && CeilColumns(ratio, 1) == 2;
    assert FloorColumns(ratio, 2) == 2 && CeilColumns(ratio, 2) == 3;
    assert FloorColumns(ratio, 3) == 4 && CeilColumns(ratio, 3) == 5;
    assert FloorColumns(ratio, 4) == 5 && CeilColumns(ratio, 4) == 6;
    assert FloorColumns(ratio, 5) == 7;
  }

  /** The test is strict: one slice with a ratio strictly between 1 and 2 gets two columns. */
  lemma SingleSliceNarrowRatio(ratio: real)
    requires 1.0 < ratio < 2.0
    ensures Layout(ratio, 1) == Grid(1, 2)
  {
    assert FloorColumns(ratio, 1) == 1;
    assert CeilColumns(ratio, 1) == 2;
  }

  /** One slice is never laid out on a single cell. */
  lemma SingleSliceNeverOneByOne(ratio: real)
    ensures Layout(ratio, 1) != Grid(1, 1)
  {
  }

  /** With no slices and a ratio of at least one, the first floor candidate already wins. */
  lemma NoSlicesWideRatio(ratio: real)
    requires ratio >= 1.0
    ensures Layout(ratio, 0) == Grid(1, Floor(ratio))
  {
    assert FloorColumns(ratio, 1) == Floor(ratio);
  }

  /** Multiplying by a positive factor keeps the other factor's sign, and at least its size. */
  lemma ProductBounds(a: int, c: int)
    requires c >= 1
    ensures a >= 1 ==> a * c >= c
    ensures a <= -1 ==> a * c <= -c
    ensures a == 0 ==> a * c == 0
  {
  }

  /** A positive ratio with no slices (or a negative count) stops at the first row. */
  lemma PositiveRatioNoSlicesStopsAtOne(ratio: real, n: int)
    requires ratio > 0.0 && n <= 0
    ensures Layout(ratio, n) == Grid(1, Chosen(ratio, n, 1))
    ensures Layout(ratio, n).columns >= 0
  {
    assert CeilColumns(ratio, 1) >= 1;
    LayoutIsFirstStop(ratio, n, 1);
  }

  /** A non-positive ratio never stops the search: the cap is hit and nothing is covered. */
  lemma NonPositiveRatioExhausts(ratio: real, n: int)
    requires ratio <= 0.0 && n >= 0
    ensures Layout(ratio, n) == Grid(MaxIterations + 1, CeilColumns(ratio, MaxIterations))
  {
    forall r | 1 <= r <= MaxIterations
      ensures !Stops(ratio, n, r)
    {
      assert ratio * r as real <= 0.0;
      ProductBounds(FloorColumns(ratio, r), r);
      ProductBounds(CeilColumns(ratio, r), r);
    }
    ExhaustedIff(ratio, n);
  }

  /** If the last row count covers the slices, the search stops within the cap and covers them. */
  lemma CoversWhenLastRowFits(ratio: real, n: int)
    requires n < MaxIterations * CeilColumns(ratio, MaxIterations)
    ensures Layout(ratio, n).rows <= MaxIterations
    ensures Layout(ratio, n).rows * Layout(ratio, n).columns > n
  {
    assert Stops(ratio, n, MaxIterations);
    ExhaustedIff(ratio, n);
  }

  /** A covering layout of a non-negative slice count has at least one column. */
  lemma CoveringLayoutHasColumns(ratio: real, n: int)
    requires n >= 0
    requires Layout(ratio, n).rows <= MaxIterations
    ensures Layout(ratio, n).columns >= 1
  {
    var g := Layout(ratio, n);
    if g.columns <= 0 {
      ProductBounds(g.columns, g.rows);
    }
  }

  /** Fewer than 100 slices with a positive ratio are always covered within the cap. */
  lemma PositiveRatioFewSlicesCovered(ratio: real, n: int)
    requires ratio > 0.0 && n < MaxIterations
    ensures Layout(ratio, n).rows <= MaxIterations
    ensures Layout(ratio, n).rows * Layout(ratio, n).columns > n
  {
    assert CeilColumns(ratio, MaxIterations) >= 1;
    CoversWhenLastRowFits(ratio, n);
  }

  /** Ratio 0.01 never stops the search for 100 slices or more: the cap is hit with one column. */
  lemma TinyRatioExhausts(n: int)
    requires n >= MaxIterations
    ensures Layout(0.01, n) == Grid(MaxIterations + 1, 1)
  {
    var ratio := 0.01;
    forall r | 1 <= r <= MaxIterations
      ensures !Stops(ratio, n, r)
    {
      assert 0.0 < ratio * r as real <= 1.0;
      assert FloorColumns(ratio, r) <= 1 && CeilColumns(ratio, r) == 1;
    }
    ExhaustedIff(ratio, n);
    assert CeilColumns(ratio, MaxIterations) == 1;
  }

  /** A tiny ratio exhausts the cap and leaves slices without a cell: 101 cells for 200 slices. */
  lemma TinyRatioLeavesSlicesUncovered()
    ensures Layout(0.01, 200) == Grid(MaxIterations + 1, 1)
    ensures Layout(0.01, 200).rows * Layout(0.01, 200).columns < 200
  {
    TinyRatioExhausts(200);
  }
}
