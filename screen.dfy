/**
 * The fixed screen layout of src/main.rs: its constants and the free
 * pixel/grid conversions written against them.
 */
module ScreenConstants {
  import opened Wrappers
  import opened Grid
  import MainStateGeometry

  const FPS: nat := 60
  const WINDOW_WIDTH: nat := 1280
  const WINDOW_HEIGHT: nat := 800
  const VERTICAL_PADDING: nat := 30
  const HORIZONTAL_PADDING: nat := 270
  /** Should be even. */
  const GRID_LINE_WIDTH: nat := 2
  const GRID_N_CELL_WIDTH: nat := 10
  const GRID_N_CELL_HEIGHT: nat := 10
  const GRID_CELL_DIM: nat := (WINDOW_HEIGHT - 2 * VERTICAL_PADDING) / GRID_N_CELL_HEIGHT

  /** The cell size is 74 pixels, and ten cells exactly fill the padded width and height. */
  lemma CellDimIs74()
    ensures GRID_CELL_DIM == 74
    ensures GRID_CELL_DIM == MainStateGeometry.GridCellDim(WINDOW_HEIGHT, VERTICAL_PADDING, GRID_N_CELL_HEIGHT)
    ensures HORIZONTAL_PADDING + GRID_N_CELL_WIDTH * GRID_CELL_DIM == WINDOW_WIDTH - HORIZONTAL_PADDING
    ensures VERTICAL_PADDING + GRID_N_CELL_HEIGHT * GRID_CELL_DIM == WINDOW_HEIGHT - VERTICAL_PADDING
  {
  }

  /** The same layout as a main state created for this window, with its path line width. */
  const Screen: MainStateGeometry.Layout :=
    MainStateGeometry.Layout(WINDOW_WIDTH, WINDOW_HEIGHT, HORIZONTAL_PADDING, VERTICAL_PADDING,
                             GRID_LINE_WIDTH, GRID_CELL_DIM, 10)

  /**
   * screen_to_grid_coord as written: no cell outside the padded area, the
   * far grid lines (x = 1010, y = 770) included, otherwise the cell whose
   * span holds the pixel.
   */
  function ScreenToGridCoord(sx: nat, sy: nat): (r: Option<Coord>)
    ensures r.None? <==> sx < 270 || sx > 1010 || sy < 30 || sy > 770
    ensures r.Some? ==> 270 + 74 * r.value.x <= sx < 270 + 74 * r.value.x + 74
    ensures r.Some? ==> 30 + 74 * r.value.y <= sy < 30 + 74 * r.value.y + 74
  {
    if sx < HORIZONTAL_PADDING || sx > WINDOW_WIDTH - HORIZONTAL_PADDING
       || sy < VERTICAL_PADDING || sy > WINDOW_HEIGHT - VERTICAL_PADDING then None
    else Some(Coord((sx - HORIZONTAL_PADDING) / GRID_CELL_DIM, (sy - VERTICAL_PADDING) / GRID_CELL_DIM))
  }

  /** grid_to_screen_coord: the top left pixel of a cell inside the grid lines. */
  function GridToScreenCoord(g: Coord): (r: (nat, nat))
    ensures 270 + 74 * g.x < r.0 < 270 + 74 * (g.x + 1)
    ensures 30 + 74 * g.y < r.1 < 30 + 74 * (g.y + 1)
  {
    (HORIZONTAL_PADDING + g.x * GRID_CELL_DIM + GRID_LINE_WIDTH / 2,
     VERTICAL_PADDING + g.y * GRID_CELL_DIM + GRID_LINE_WIDTH / 2)
  }

  /** `Screen` is the layout a main state creates for the 1280 by 800 window. */
  lemma ScreenIsNewLayout()
    ensures Screen == MainStateGeometry.NewLayout(WINDOW_WIDTH, WINDOW_HEIGHT)
  {
    MainStateGeometry.NewLayoutCellDim();
  }

  /** The free functions agree with the main state's methods for this window. */
  lemma AgreesWithLayout(sx: nat, sy: nat, g: Coord)
    ensures MainStateGeometry.Sane(Screen)
    ensures ScreenToGridCoord(sx, sy) == MainStateGeometry.ScreenToGrid(Screen, sx, sy)
    ensures GridToScreenCoord(g) == MainStateGeometry.GridToScreen(Screen, g)
  {
  }

  /** The corner pixel of every cell of the 10 by 10 grid selects that cell. */
  lemma {:induction false} GridRoundTrip(g: Coord)
    requires IsPointValid(g, GRID_N_CELL_WIDTH, GRID_N_CELL_HEIGHT)
    ensures ScreenToGridCoord(GridToScreenCoord(g).0, GridToScreenCoord(g).1) == Some(g)
  {
    var (sx, sy) := GridToScreenCoord(g);
    AgreesWithLayout(sx, sy, g);
    MainStateGeometry.ScreenRoundTrip(Screen, g);
  }

  /**
   * The far grid lines are accepted and mapped one past the last cell: the
   * pixel (1010, 770) gives cell (10, 10), which is not in the grid, and the
   * highlight drawn for it lies outside the grid.
   */
  lemma FarEdgeLeavesGrid()
    ensures GridToScreenCoord(Coord(9, 9)) == (937, 697)
    ensures ScreenToGridCoord(1010, 770) == Some(Coord(10, 10))
    ensures !IsPointValid(Coord(10, 10), GRID_N_CELL_WIDTH, GRID_N_CELL_HEIGHT)
    ensures GridToScreenCoord(Coord(10, 10)).0 > WINDOW_WIDTH - HORIZONTAL_PADDING
  {
  }

  /**
   * The conversion with the far grid lines excluded: a pixel selects a cell
   * exactly when it lies in the half-open padded area, and the cell is then
   * always inside the grid.
   */
  function ScreenToGridCell(sx: nat, sy: nat): (r: Option<Coord>)
    ensures r.None? <==> sx < 270 || sx >= 1010 || sy < 30 || sy >= 770
    ensures r.Some? ==> IsPointValid(r.value, GRID_N_CELL_WIDTH, GRID_N_CELL_HEIGHT)
    ensures r.Some? ==> r == ScreenToGridCoord(sx, sy)
  {
    if sx < HORIZONTAL_PADDING || sx >= WINDOW_WIDTH - HORIZONTAL_PADDING
       || sy < VERTICAL_PADDING || sy >= WINDOW_HEIGHT - VERTICAL_PADDING then None
    else Some(Coord((sx - HORIZONTAL_PADDING) / GRID_CELL_DIM, (sy - VERTICAL_PADDING) / GRID_CELL_DIM))
  }

  /** The corrected conversion still selects every cell from its corner pixel. */
  lemma {:induction false} GridCellRoundTrip(g: Coord)
    requires IsPointValid(g, GRID_N_CELL_WIDTH, GRID_N_CELL_HEIGHT)
    ensures ScreenToGridCell(GridToScreenCoord(g).0, GridToScreenCoord(g).1) == Some(g)
  {
    GridRoundTrip(g);
  }
}
