/**
 * The screen geometry of src/mainstate.rs: converting between pixels and
 * grid cells, and turning a consolidated path into the end points of the
 * line segments that draw it. Pixel values are the integers computed before
 * the final conversion to floating point.
 */
module MainStateGeometry {
  import opened Wrappers
  import opened Grid
  import Consolidation

  /** The numeric fields of the main state that fix the layout of the grid on screen. */
  datatype Layout = Layout(windowWidth: nat, windowHeight: nat, hpad: nat, vpad: nat,
                           lineWidth: nat, cellDim: nat, pathLineWidth: nat)

  /** The conversions need the paddings to fit in the window and a non-empty cell. */
  predicate Sane(l: Layout) {
    l.hpad <= l.windowWidth && l.vpad <= l.windowHeight && l.cellDim > 0
  }

  /** The size of a grid cell: the largest size at which `nCells` cells fit between the vertical paddings. */
  function GridCellDim(windowHeight: nat, vpad: nat, nCells: nat): (d: nat)
    requires 2 * vpad <= windowHeight && nCells > 0
    ensures d * nCells <= windowHeight - 2 * vpad < (d + 1) * nCells
  {
    (windowHeight - 2 * vpad) / nCells
  }

  /** The layout the main state is created with, for a window of the given size. */
  function NewLayout(windowWidth: nat, windowHeight: nat): (l: Layout)
    requires 60 <= windowHeight
    ensures l.windowWidth == windowWidth && l.windowHeight == windowHeight
    ensures l.cellDim * 10 <= windowHeight - 2 * l.vpad < (l.cellDim + 1) * 10
    ensures Sane(l) <==> 270 <= windowWidth && 70 <= windowHeight
  {
    Layout(windowWidth, windowHeight, 270, 30, 2, GridCellDim(windowHeight, 30, 10), 10)
  }

  /** In the 1280 by 800 window the cells are 74 pixels wide. */
  lemma NewLayoutCellDim()
    ensures NewLayout(1280, 800).cellDim == 74
  {
  }

  /** Multiplying by a positive `d` keeps strict order, up to one block of `d`. */
  lemma MulCancel(a: int, b: int, d: int)
    requires d > 0 && a * d < b * d + d
    ensures a <= b
  {
    assert a * d - b * d == (a - b) * d;
    MulAtLeast(a - b, d);
  }

  lemma MulAtLeast(x: int, d: int)
    requires d > 0
    ensures x >= 1 ==> x * d >= d
  {
  }

  /** `n / d` is `q` exactly when `n` lies in the `q`-th block of `d` values. */
  lemma DivBlock(n: nat, d: nat, q: nat)
    requires d > 0 && q * d <= n < q * d + d
    ensures n / d == q
  {
    var k := n / d;
    assert k * d <= n < k * d + d;
    MulCancel(k, q, d);
    MulCancel(q, k, d);
  }

  /**
   * screen_to_grid_coord: no cell outside the padded area (its far edges
   * included), otherwise the cell whose span of pixels holds the point.
   */
  function ScreenToGrid(l: Layout, sx: nat, sy: nat): (r: Option<Coord>)
    requires Sane(l)
    ensures r.None? <==> sx < l.hpad || sx > l.windowWidth - l.hpad || sy < l.vpad || sy > l.windowHeight - l.vpad
    ensures r.Some? ==> l.hpad + r.value.x * l.cellDim <= sx < l.hpad + r.value.x * l.cellDim + l.cellDim
    ensures r.Some? ==> l.vpad + r.value.y * l.cellDim <= sy < l.vpad + r.value.y * l.cellDim + l.cellDim
  {
    if sx < l.hpad || sx > l.windowWidth - l.hpad || sy < l.vpad || sy > l.windowHeight - l.vpad then None
    else Some(Coord((sx - l.hpad) / l.cellDim, (sy - l.vpad) / l.cellDim))
  }

  /** grid_to_screen_coord: the top left pixel of a cell inside the grid lines. */
  function GridToScreen(l: Layout, g: Coord): (r: (nat, nat))
    ensures l.hpad + g.x * l.cellDim <= r.0 && l.vpad + g.y * l.cellDim <= r.1
    ensures l.lineWidth / 2 < l.cellDim ==>
              r.0 < l.hpad + g.x * l.cellDim + l.cellDim && r.1 < l.vpad + g.y * l.cellDim + l.cellDim
  {
    (l.hpad + g.x * l.cellDim + l.lineWidth / 2, l.vpad + g.y * l.cellDim + l.lineWidth / 2)
  }

  /** grid_to_screen_coord_center: the centre pixel of a cell. */
  function GridToScreenCenter(l: Layout, g: Coord): (r: (nat, nat))
    requires l.lineWidth <= l.cellDim
    ensures GridToScreen(l, g).0 <= r.0 && GridToScreen(l, g).1 <= r.1
    ensures l.cellDim > 0 ==>
              r.0 < l.hpad + g.x * l.cellDim + l.cellDim && r.1 < l.vpad + g.y * l.cellDim + l.cellDim
  {
    var (x, y) := GridToScreen(l, g);
    (x + (l.cellDim - l.lineWidth) / 2, y + (l.cellDim - l.lineWidth) / 2)
  }

  /**
   * Clicking the corner or the centre of a cell whose centre is inside the
   * padded area selects that cell.
   */
  lemma ScreenRoundTrip(l: Layout, g: Coord)
    requires Sane(l) && l.lineWidth <= l.cellDim
    requires GridToScreenCenter(l, g).0 <= l.windowWidth - l.hpad
    requires GridToScreenCenter(l, g).1 <= l.windowHeight - l.vpad
    ensures ScreenToGrid(l, GridToScreen(l, g).0, GridToScreen(l, g).1) == Some(g)
    ensures ScreenToGrid(l, GridToScreenCenter(l, g).0, GridToScreenCenter(l, g).1) == Some(g)
  {
    var (cx, cy) := GridToScreen(l, g);
    var (mx, my) := GridToScreenCenter(l, g);
    DivBlock(cx - l.hpad, l.cellDim, g.x);
    DivBlock(cy - l.vpad, l.cellDim, g.y);
    DivBlock(mx - l.hpad, l.cellDim, g.x);
    DivBlock(my - l.vpad, l.cellDim, g.y);
  }

  // ---------------------------------------------------------------------------
  // cpath_to_segments

  /**
   * The point pushed just before the centre of `cur` when arriving from
   * `prev`: the centre moved half a path-line width further along the
   * direction of travel, so that consecutive segments overlap at the corner.
   */
  function Approach(l: Layout, prev: Coord, cur: Coord): (int, int)
    requires l.lineWidth <= l.cellDim
  {
    var (x, y) := GridToScreenCenter(l, cur);
    var half := l.pathLineWidth / 2;
    if cur.y == prev.y then
      (if cur.x < prev.x then (x - half, y) else (x + half, y))
    else
      (if cur.y < prev.y then (x, y - half) else (x, y + half))
  }

  function Center(l: Layout, g: Coord): (int, int)
    requires l.lineWidth <= l.cellDim
  {
    var (x, y) := GridToScreenCenter(l, g);
    (x, y)
  }

  /**
   * The points pushed for the windows `(cpath[i - 1], cpath[i])`, `1 <= i < k`:
   * the approach point of `cpath[i]`, then its centre.
   */
  function Legs(l: Layout, cpath: seq<Coord>, k: nat): seq<(int, int)>
    requires l.lineWidth <= l.cellDim && 1 <= k <= |cpath|
    ensures |Legs(l, cpath, k)| == 2 * k - 2
  {
    if k == 1 then []
    else Legs(l, cpath, k - 1) + [Approach(l, cpath[k - 2], cpath[k - 1]), Center(l, cpath[k - 1])]
  }

  /**
   * The points of a consolidated path, to be drawn pairwise: the centres of
   * its points when it has fewer than two, otherwise the centre of the first
   * point, the approach point and centre of every interior point, and the
   * centre of the last point.
   */
  function Segments(l: Layout, cpath: seq<Coord>): seq<(int, int)>
    requires l.lineWidth <= l.cellDim
  {
    if |cpath| < 2 then seq(|cpath|, i requires 0 <= i < |cpath| => Center(l, cpath[i]))
    else [Center(l, cpath[0])] + Legs(l, cpath, |cpath| - 1) + [Center(l, cpath[|cpath| - 1])]
  }

  /** Where the points of each window sit among the legs. */
  lemma {:induction false} LegsAt(l: Layout, cpath: seq<Coord>, k: nat, j: nat)
    requires l.lineWidth <= l.cellDim && 1 <= k <= |cpath|
    ensures 1 <= j < k ==> Legs(l, cpath, k)[2 * j - 2] == Approach(l, cpath[j - 1], cpath[j])
    ensures 1 <= j < k ==> Legs(l, cpath, k)[2 * j - 1] == Center(l, cpath[j])
  {
    if k > 1 {
      LegsAt(l, cpath, k - 1, j);
    }
  }

  /**
   * cpath_to_segments. For at least two points there are `2n - 2` of them,
   * beginning at the centre of the first point and ending at the centre of
   * the last; interior point `cpath[j]` contributes its approach point at
   * `2j - 1` and its centre at `2j`.
   */
  method CpathToSegments(l: Layout, cpath: seq<Coord>) returns (segments: seq<(int, int)>)
    requires l.lineWidth <= l.cellDim
    ensures segments == Segments(l, cpath)
    ensures |cpath| < 2 ==> |segments| == |cpath| && forall i :: 0 <= i < |cpath| ==> segments[i] == Center(l, cpath[i])
    ensures |cpath| >= 2 ==> |segments| == 2 * |cpath| - 2
    ensures |cpath| >= 2 ==> segments[0] == Center(l, cpath[0]) && segments[|segments| - 1] == Center(l, cpath[|cpath| - 1])
    ensures forall j :: 1 <= j < |cpath| - 1 ==> segments[2 * j - 1] == Approach(l, cpath[j - 1], cpath[j]) && segments[2 * j] == Center(l, cpath[j])
  {
    if |cpath| < 2 {
      segments := [];
      for i := 0 to |cpath|
        invariant |segments| == i && forall j :: 0 <= j < i ==> segments[j] == Center(l, cpath[j])
      {
        segments := segments + [Center(l, cpath[i])];
      }
      return;
    }
    segments := [Center(l, cpath[0])];
    for k := 1 to |cpath| - 1
      invariant segments == [Center(l, cpath[0])] + Legs(l, cpath, k)
    {
      var prev, cur := cpath[k - 1], cpath[k];
      var (x, y) := GridToScreenCenter(l, cur);
      if cur.y == prev.y {
        if cur.x < prev.x {
          segments := segments + [(x - l.pathLineWidth / 2, y)];
        } else {
          segments := segments + [(x + l.pathLineWidth / 2, y)];
        }
        segments := segments + [(x, y)];
      } else {
        if cur.y < prev.y {
          segments := segments + [(x, y - l.pathLineWidth / 2)];
        } else {
          segments := segments + [(x, y + l.pathLineWidth / 2)];
        }
        segments := segments + [(x, y)];
      }
    }
    ghost var legs := Legs(l, cpath, |cpath| - 1);
    segments := segments + [Center(l, cpath[|cpath| - 1])];
    forall j | 1 <= j < |cpath| - 1
      ensures segments[2 * j - 1] == Approach(l, cpath[j - 1], cpath[j]) && segments[2 * j] == Center(l, cpath[j])
    {
      LegsAt(l, cpath, |cpath| - 1, j);
      assert segments[2 * j - 1] == legs[2 * j - 2];
      assert segments[2 * j] == legs[2 * j - 1];
    }
  }

  /**
   * The approach point of `cur` lies beyond its centre, seen from the
   * centre of `prev`, on their common row or column.
   */
  lemma ApproachBeyond(l: Layout, prev: Coord, cur: Coord)
    requires Sane(l) && l.lineWidth <= l.cellDim
    requires prev.x == cur.x || prev.y == cur.y
    ensures var (a, b, m) := (Center(l, prev), Approach(l, prev, cur), Center(l, cur));
            (a.0 == b.0 == m.0 && Between(a.1, m.1, b.1)) || (a.1 == b.1 == m.1 && Between(a.0, m.0, b.0))
  {
    CenterMonotone(l, prev, cur);
    CenterMonotone(l, cur, prev);
  }

  /**
   * Drawn in pairs, the segment points give one straight segment per leg of
   * a consolidated path: leg `j` starts at the centre of `cpath[j]`, runs
   * along its row or column, and reaches at least the centre of `cpath[j + 1]`.
   */
  lemma SegmentsDrawLegs(l: Layout, cpath: seq<Coord>, j: nat)
    requires Sane(l) && l.lineWidth <= l.cellDim
    requires |cpath| >= 2 && j < |cpath| - 1 && Consolidation.Aligned(cpath)
    ensures var s := Segments(l, cpath);
            var (a, b, m) := (s[2 * j], s[2 * j + 1], Center(l, cpath[j + 1]));
            && a == Center(l, cpath[j])
            && ((a.0 == b.0 == m.0 && Between(a.1, m.1, b.1)) || (a.1 == b.1 == m.1 && Between(a.0, m.0, b.0)))
  {
    SegmentsAt(l, cpath, j);
    assert Consolidation.InLine(cpath, j);
    if j + 2 < |cpath| {
      ApproachBeyond(l, cpath[j], cpath[j + 1]);
    } else {
      CenterMonotone(l, cpath[j], cpath[j + 1]);
    }
  }

  /** The two points drawn for leg `j`: the centre of `cpath[j]`, then the approach point or, for the last leg, the last centre. */
  lemma SegmentsAt(l: Layout, cpath: seq<Coord>, j: nat)
    requires l.lineWidth <= l.cellDim && |cpath| >= 2 && j < |cpath| - 1
    ensures 2 * j + 1 < |Segments(l, cpath)|
    ensures Segments(l, cpath)[2 * j] == Center(l, cpath[j])
    ensures Segments(l, cpath)[2 * j + 1] ==
              if j + 2 < |cpath| then Approach(l, cpath[j], cpath[j + 1]) else Center(l, cpath[j + 1])
  {
    var n := |cpath|;
    var s, legs := Segments(l, cpath), Legs(l, cpath, n - 1);
    assert s == [Center(l, cpath[0])] + legs + [Center(l, cpath[n - 1])];
    if j > 0 {
      LegsAt(l, cpath, n - 1, j);
      assert s[2 * j] == legs[2 * j - 1];
    }
    if j + 2 < n {
      LegsAt(l, cpath, n - 1, j + 1);
      assert s[2 * j + 1] == legs[2 * j];
    }
  }

  /** `m` lies on the closed interval between `a` and `b`. */
  predicate Between(a: int, m: int, b: int) {
    (a <= m <= b) || (b <= m <= a)
  }

  /** Centres keep the order of the cells. */
  lemma CenterMonotone(l: Layout, c: Coord, d: Coord)
    requires Sane(l) && l.lineWidth <= l.cellDim
    ensures c.x < d.x ==> Center(l, c).0 < Center(l, d).0
    ensures c.x == d.x ==> Center(l, c).0 == Center(l, d).0
    ensures c.y < d.y ==> Center(l, c).1 < Center(l, d).1
    ensures c.y == d.y ==> Center(l, c).1 == Center(l, d).1
  {
    var k := l.lineWidth / 2 + (l.cellDim - l.lineWidth) / 2;
    assert Center(l, c) == (l.hpad + c.x * l.cellDim + k, l.vpad + c.y * l.cellDim + k);
    assert Center(l, d) == (l.hpad + d.x * l.cellDim + k, l.vpad + d.y * l.cellDim + k);
    MulStrict(c.x, d.x, l.cellDim);
    MulStrict(c.y, d.y, l.cellDim);
  }

  lemma MulStrict(a: int, b: int, d: int)
    requires d > 0
    ensures a < b ==> a * d < b * d
  {
    assert b * d - a * d == (b - a) * d;
    MulAtLeast(b - a, d);
  }
}
