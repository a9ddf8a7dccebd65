/**
 * How `plot_mosaic` places the slices of a volume on the grid computed by the
 * layout search: the aspect ratio is the figure's width over its height, and
 * slice `image` (counted from zero along the third axis) goes into subplot
 * `image + 1` of a rows-by-columns grid. The plotting backend numbers subplots
 * from 1, row-major from the top-left, and refuses an index outside
 * `1 .. rows * columns` or a grid with a non-positive dimension; that refusal
 * is the error this model reports. Loading the volume, intensity windowing,
 * overlays and drawing are not modelled.
 */
module Mosaic {
  import opened Outcomes
  import opened GridLayout

  /** A figure size in inches: width, then height. */
  datatype FigSize = FigSize(width: real, height: real)

  /** The default figure size of `plot_mosaic`, an A4 landscape page. */
  const DefaultFigSize: FigSize := FigSize(11.7, 8.3)

  /** A subplot position, both coordinates counted from zero. */
  datatype Cell = Cell(row: int, column: int)

  datatype MosaicError =
    | ZeroFigureHeight          // `figsize[0] / figsize[1]` divides by zero
    | InvalidSubplot(index: int)  // the backend refuses `add_subplot(rows, columns, index)`

  /** The mosaic a volume gets: its grid and the cell of every slice, in slice order. */
  datatype MosaicLayout = MosaicLayout(grid: Grid, cells: seq<Cell>)

  /** `figsize[0] / figsize[1]`. */
  function AspectRatio(fig: FigSize): (r: Result<real, MosaicError>)
    ensures r.Failure? <==> fig.height == 0.0
    ensures r.Failure? ==> r.error == ZeroFigureHeight
    ensures r.Success? ==> r.value * fig.height == fig.width
  {
    if fig.height == 0.0 then Failure(ZeroFigureHeight) else Success(fig.width / fig.height)
  }

  /** The backend accepts subplot `index` of grid `g`. */
  predicate ValidSubplot(g: Grid, index: int) {
    g.rows >= 1 && g.columns >= 1 && 1 <= index <= g.rows * g.columns
  }

  /** The backend accepts every subplot index `1 .. n` of grid `g`. */
  predicate Placeable(g: Grid, n: int) {
    forall k :: 1 <= k <= n ==> ValidSubplot(g, k)
  }

  /** The cell that subplot `index` occupies: row-major from the top-left. */
  function SubplotCell(g: Grid, index: int): (c: Cell)
    requires ValidSubplot(g, index)
    ensures 0 <= c.row < g.rows && 0 <= c.column < g.columns
    ensures c.row * g.columns + c.column == index - 1
  {
    var c := Cell((index - 1) / g.columns, (index - 1) % g.columns);
    assert c.row < g.rows by {
      assert (g.rows - c.row) * g.columns == g.rows * g.columns - c.row * g.columns;
      ProductBounds(g.rows - c.row, g.columns);
    }
    c
  }

  /** Euclidean division by a positive divisor is determined by quotient and remainder. */
  lemma DivModUnique(x: int, c: int, q: int, m: int)
    requires c >= 1 && 0 <= m < c && x == q * c + m
    ensures x / c == q && x % c == m
  {
    var q', m' := x / c, x % c;
    assert (q - q') * c == m' - m;
    ProductBounds(q - q', c);
  }

  /** The subplot index of a cell: the inverse of `SubplotCell`. */
  function CellIndex(g: Grid, c: Cell): int {
    c.row * g.columns + c.column + 1
  }

  /** Every in-bounds cell is the cell of exactly the subplot index `CellIndex` gives it. */
  lemma CellIndexRoundTrip(g: Grid, c: Cell)
    requires g.rows >= 1 && g.columns >= 1
    requires 0 <= c.row < g.rows && 0 <= c.column < g.columns
    ensures ValidSubplot(g, CellIndex(g, c))
    ensures SubplotCell(g, CellIndex(g, c)) == c
  {
    ProductBounds(g.rows - 1 - c.row, g.columns);
    DivModUnique(CellIndex(g, c) - 1, g.columns, c.row, c.column);
  }

  /**
   * The loop `for image in range(n_images): fig.add_subplot(row, col, image + 1)`:
   * the cells of slices `0 .. n - 1`, or the first index the backend refuses.
   */
  function PlaceSlices(g: Grid, n: nat): (r: Result<seq<Cell>, MosaicError>)
    ensures r.Success? <==> Placeable(g, n)
    ensures r.Success? ==> |r.value| == n
    ensures r.Success? ==> forall image :: 0 <= image < n ==> r.value[image] == SubplotCell(g, image + 1)
    ensures r.Failure? ==> r.error.InvalidSubplot? && 1 <= r.error.index <= n
    ensures r.Failure? ==> !ValidSubplot(g, r.error.index)
    ensures r.Failure? ==> Placeable(g, r.error.index - 1)
  {
    if n == 0 then Success([])
    else
      match PlaceSlices(g, n - 1)
      case Failure(e) => Failure(e)
      case Success(cells) =>
        if ValidSubplot(g, n) then Success(cells + [SubplotCell(g, n)])
        else Failure(InvalidSubplot(n))
  }

  /** The part of `plot_mosaic` that decides where each slice is drawn. */
  function PlotMosaic(fig: FigSize, n: nat): (r: Result<MosaicLayout, MosaicError>)
    ensures fig.height == 0.0 ==> r == Failure(ZeroFigureHeight)
    ensures fig.height != 0.0 ==>
      (r.Success? <==> Placeable(Layout(fig.width / fig.height, n), n))
    ensures r.Success? ==> r.value.grid == Layout(fig.width / fig.height, n)
    ensures r.Success? ==> |r.value.cells| == n
    ensures r.Success? ==> forall image :: 0 <= image < n ==>
      r.value.cells[image] == SubplotCell(r.value.grid, image + 1)
    ensures r.Success? ==> forall image :: 0 <= image < n ==>
      0 <= r.value.cells[image].row < r.value.grid.rows && 0 <= r.value.cells[image].column < r.value.grid.columns
    ensures r.Failure? && fig.height != 0.0 ==> r.error.InvalidSubplot? && 1 <= r.error.index <= n
    ensures r.Failure? && fig.height != 0.0 ==>
      !ValidSubplot(Layout(fig.width / fig.height, n), r.error.index)
      && Placeable(Layout(fig.width / fig.height, n), r.error.index - 1)
  {
    match AspectRatio(fig)
    case Failure(e) => Failure(e)
    case Success(ratio) =>
      var g := Layout(ratio, n);
      match PlaceSlices(g, n)
      case Failure(e) => Failure(e)
      case Success(cells) => Success(MosaicLayout(g, cells))
  }

  /** Distinct slices are drawn in distinct cells, and slice `image` fills the `image`-th cell row-major. */
  lemma SlicesOccupyDistinctCells(fig: FigSize, n: nat, i: int, j: int)
    requires PlotMosaic(fig, n).Success?
    requires 0 <= i < n && 0 <= j < n
    ensures CellIndex(PlotMosaic(fig, n).value.grid, PlotMosaic(fig, n).value.cells[i]) == i + 1
    ensures i != j ==> PlotMosaic(fig, n).value.cells[i] != PlotMosaic(fig, n).value.cells[j]
  {
    var m := PlotMosaic(fig, n).value;
    var ratio := fig.width / fig.height;
    assert PlaceSlices(m.grid, n).Success?;
    assert m.cells[i] == SubplotCell(m.grid, i + 1);
    assert m.cells[j] == SubplotCell(m.grid, j + 1);
  }

  /** Whenever the search stops within its cap, every slice gets a subplot. */
  lemma MosaicFitsWhenSearchStops(fig: FigSize, n: nat)
    requires fig.height != 0.0
    requires Layout(fig.width / fig.height, n).rows <= MaxIterations
    ensures PlotMosaic(fig, n).Success?
  {
    var ratio := fig.width / fig.height;
    var g := Layout(ratio, n);
    CoveringLayoutHasColumns(ratio, n);
    assert forall k :: 1 <= k <= n ==> ValidSubplot(g, k);
  }

  /** On the default page the search stops, and so every slice is placed, for up to 14099 slices. */
  lemma DefaultFigureHoldsSlices(n: nat)
    requires n < MaxIterations * 141
    ensures PlotMosaic(DefaultFigSize, n).Success?
  {
    var ratio := DefaultFigSize.width / DefaultFigSize.height;
    assert CeilColumns(ratio, MaxIterations) == 141;
    CoversWhenLastRowFits(ratio, n);
    MosaicFitsWhenSearchStops(DefaultFigSize, n);
  }

  /** A page 100 times taller than wide cannot hold 200 slices: subplot 102 is refused. */
  lemma TallFigureRefusesSlices()
    ensures PlotMosaic(FigSize(1.0, 100.0), 200) == Failure(InvalidSubplot(102))
  {
    assert 1.0 / 100.0 == 0.01;
    TinyRatioLeavesSlicesUncovered();
    var g := Layout(0.01, 200);
    assert ValidSubplot(g, 101) && !ValidSubplot(g, 102);
    var r := PlaceSlices(g, 200);
    assert r.Failure?;
    assert forall k :: 1 <= k <= 101 ==> ValidSubplot(g, k);
    assert r.error.index <= 102;
    assert r.error.index >= 102;
  }

  /** An exhausted search can still place every slice: 100 slices on a 1 by 100 figure fill a 101-by-1 grid. */
  lemma ExhaustedGridStillPlaces()
    ensures PlotMosaic(FigSize(1.0, 100.0), 100).Success?
    ensures PlotMosaic(FigSize(1.0, 100.0), 100).value.grid == Grid(MaxIterations + 1, 1)
  {
    assert 1.0 / 100.0 == 0.01;
    TinyRatioExhausts(100);
    var g := Layout(0.01, 100);
    assert forall k :: 1 <= k <= 100 ==> ValidSubplot(g, k);
  }
}
