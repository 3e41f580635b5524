/**
 * consolidate_path of src/pathfinding.rs: a path of unit steps is reduced to
 * its first cell, its turn points and its last cell, the endpoints of the
 * straight segments that are drawn on screen.
 */
module Consolidation {
  import opened Grid

  /**
   * Interior index `i` is a turn: whether the step into `path[i]` keeps the x
   * coordinate differs from whether the step out of it does.
   */
  predicate IsTurn(path: seq<Coord>, i: nat)
    requires 1 <= i < |path| - 1
  {
    (path[i - 1].x == path[i].x) != (path[i].x == path[i + 1].x)
  }

  /** The turn points among the interior indices `1 .. k - 1`, in index order. */
  function Corners(path: seq<Coord>, k: nat): (r: seq<Coord>)
    requires k < |path|
    ensures |r| < k || k == 0
  {
    if k <= 1 then []
    else Corners(path, k - 1) + (if IsTurn(path, k - 1) then [path[k - 1]] else [])
  }

  /** The indices of those turn points. */
  function TurnIndices(path: seq<Coord>, k: nat): (r: seq<nat>)
    requires k < |path|
    ensures forall j :: 0 <= j < |r| ==> 1 <= r[j] < k && IsTurn(path, r[j])
    ensures forall i :: 1 <= i < k && IsTurn(path, i) ==> i in r
    ensures forall i, j :: 0 <= i < j < |r| ==> r[i] < r[j]
  {
    if k <= 1 then []
    else TurnIndices(path, k - 1) + (if IsTurn(path, k - 1) then [k - 1] else [])
  }

  /** The consolidated path: the first cell, the turn points, and the last cell unless it is already there. */
  function Consolidated(path: seq<Coord>): (r: seq<Coord>)
    ensures |r| <= |path|
    ensures |path| >= 1 ==> |r| >= 1 && r[0] == path[0] && r[|r| - 1] == path[|path| - 1]
  {
    if |path| <= 1 then path
    else
      var c := [path[0]] + Corners(path, |path| - 1);
      if c[|c| - 1] != path[|path| - 1] then c + [path[|path| - 1]] else c
  }

  /** consolidate_path. */
  method ConsolidatePath(path: seq<Coord>) returns (cpath: seq<Coord>)
    ensures cpath == Consolidated(path)
  {
    if |path| <= 1 {
      return path;
    }
    cpath := [path[0]];
    var prevHorizontal := path[0].x == path[1].x;
    for i := 1 to |path| - 1
      invariant cpath == [path[0]] + Corners(path, i)
      invariant prevHorizontal == (path[i - 1].x == path[i].x)
    {
      var prev, step := path[i], path[i + 1];
      var curHorizontal := step.x == prev.x;
      if curHorizontal != prevHorizontal {
        cpath := cpath + [prev];
      }
      prevHorizontal := curHorizontal;
    }
    if cpath[|cpath| - 1] != path[|path| - 1] {
      cpath := cpath + [path[|path| - 1]];
    }
  }

  /** The corners kept are exactly the cells at the turn indices, in order. */
  lemma {:induction false} CornersAtTurns(path: seq<Coord>, k: nat)
    requires k < |path|
    ensures |Corners(path, k)| == |TurnIndices(path, k)|
    ensures forall j :: 0 <= j < |Corners(path, k)| ==> Corners(path, k)[j] == path[TurnIndices(path, k)[j]]
  {
    if k > 1 {
      CornersAtTurns(path, k - 1);
    }
  }

  // ---------------------------------------------------------------------------
  // Drawing a consolidated path back out into unit steps

  /** One unit step from `a` towards `b`, along x first. */
  function Toward(a: Coord, b: Coord): Coord
    requires a != b
  {
    if a.x < b.x then Coord(a.x + 1, a.y)
    else if a.x > b.x then Coord(a.x - 1, a.y)
    else if a.y < b.y then Coord(a.x, a.y + 1)
    else Coord(a.x, a.y - 1)
  }

  function Dist(a: Coord, b: Coord): nat {
    (if a.x < b.x then b.x - a.x else a.x - b.x) + (if a.y < b.y then b.y - a.y else a.y - b.y)
  }

  /** The cells after `a` up to and including `b`, one unit step at a time. */
  function Segment(a: Coord, b: Coord): seq<Coord>
    decreases Dist(a, b)
  {
    if a == b then [] else [Toward(a, b)] + Segment(Toward(a, b), b)
  }

  /** The unit-step path that draws the segments between the endpoints `c[..k + 1]`. */
  function DrawTo(c: seq<Coord>, k: nat): seq<Coord>
    requires k < |c|
  {
    if k == 0 then [c[0]] else DrawTo(c, k - 1) + Segment(c[k - 1], c[k])
  }

  /** The unit-step path that draws the segments between consecutive endpoints. */
  function Expand(c: seq<Coord>): seq<Coord> {
    if c == [] then [] else DrawTo(c, |c| - 1)
  }

  /** Endpoints `i` and `i + 1` share a row or a column. */
  predicate InLine(c: seq<Coord>, i: nat)
    requires i + 1 < |c|
  {
    c[i].x == c[i + 1].x || c[i].y == c[i + 1].y
  }

  /** Consecutive endpoints share a row or a column, so each segment is straight. */
  predicate Aligned(c: seq<Coord>) {
    forall i :: 0 <= i < |c| - 1 ==> InLine(c, i)
  }

  predicate UnitStep(p: seq<Coord>, i: nat)
    requires i + 1 < |p|
  {
    Adjacent(p[i], p[i + 1])
  }

  predicate UnitSteps(p: seq<Coord>) {
    forall i :: 0 <= i < |p| - 1 ==> UnitStep(p, i)
  }

  predicate NoBacktrack(p: seq<Coord>, i: nat)
    requires i + 2 < |p|
  {
    p[i] != p[i + 2]
  }

  /** The path never steps straight back onto the cell it came from. */
  predicate NoReversal(p: seq<Coord>) {
    forall i :: 0 <= i < |p| - 2 ==> NoBacktrack(p, i)
  }

  function Delta(p: seq<Coord>, j: nat): (int, int)
    requires j + 1 < |p|
  {
    (p[j + 1].x - p[j].x, p[j + 1].y - p[j].y)
  }

  /** All steps from index `a` to index `b` go the same way. */
  predicate Straight(p: seq<Coord>, a: nat, b: nat)
    requires a <= b < |p|
  {
    forall j :: a <= j < b ==> Delta(p, j) == Delta(p, a)
  }

  function Sign(n: int): int {
    if n > 0 then 1 else if n < 0 then -1 else 0
  }

  /** `b` lies strictly ahead of `a` in the unit direction `d`. */
  predicate Ahead(a: Coord, b: Coord, d: (int, int)) {
    Sign(b.x - a.x) == d.0 && Sign(b.y - a.y) == d.1
  }

  predicate IsUnit(d: (int, int)) {
    d == (1, 0) || d == (-1, 0) || d == (0, 1) || d == (0, -1)
  }

  /** A straight run of unit steps is exactly the segment between its ends. */
  lemma {:induction false} RunSegment(p: seq<Coord>, a: nat, b: nat)
    requires UnitSteps(p) && a < b < |p| && Straight(p, a, b)
    ensures Ahead(p[a], p[b], Delta(p, a))
    ensures p[a] != p[b] && (p[a].x == p[b].x || p[a].y == p[b].y)
    ensures Segment(p[a], p[b]) == p[a + 1..b + 1]
    decreases b - a
  {
    assert UnitStep(p, a);
    var d := Delta(p, a);
    assert IsUnit(d);
    if a + 1 < b {
      RunSegment(p, a + 1, b);
      assert Delta(p, a + 1) == d;
    }
    assert Toward(p[a], p[b]) == p[a + 1];
  }

  /** Two consecutive steps along the same axis that do not reverse go the same way. */
  lemma SameAxisSameDelta(p: seq<Coord>, k: nat)
    requires UnitSteps(p) && NoReversal(p) && 1 <= k < |p| - 1 && !IsTurn(p, k)
    ensures Delta(p, k) == Delta(p, k - 1)
  {
    assert UnitStep(p, k - 1) && UnitStep(p, k) && NoBacktrack(p, k - 1);
  }

  /** The index of the last turn among `1 .. k - 1`, or 0 when there is none. */
  function LastCorner(p: seq<Coord>, k: nat): (r: nat)
    requires 1 <= k < |p|
    ensures r < k
  {
    if k == 1 then 0 else if IsTurn(p, k - 1) then k - 1 else LastCorner(p, k - 1)
  }

  /** Drawing depends only on the endpoints drawn so far. */
  lemma {:induction false} DrawToPrefix(c: seq<Coord>, d: seq<Coord>, k: nat)
    requires k < |c| && k < |d| && c[..k + 1] == d[..k + 1]
    ensures DrawTo(c, k) == DrawTo(d, k)
  {
    assert c[k] == c[..k + 1][k] == d[k];
    if k > 0 {
      assert c[..k] == c[..k + 1][..k];
      assert d[..k] == d[..k + 1][..k];
      assert c[k - 1] == d[k - 1];
      DrawToPrefix(c, d, k - 1);
    }
  }

  /** Appending one endpoint adds the segment from the previous one. */
  lemma ExpandSnoc(c: seq<Coord>, x: Coord)
    requires |c| >= 1
    ensures Expand(c + [x]) == Expand(c) + Segment(c[|c| - 1], x)
  {
    var r := c + [x];
    assert r[..|c|] == c[..|c|];
    DrawToPrefix(r, c, |c| - 1);
  }

  lemma SliceJoin(p: seq<Coord>, i: nat, j: nat)
    requires i <= j <= |p|
    ensures p[..i] + p[i..j] == p[..j]
  {
  }

  /** Appending an endpoint in line with the last one keeps the endpoints aligned. */
  lemma AlignedSnoc(c: seq<Coord>, x: Coord)
    requires Aligned(c) && |c| >= 1
    requires c[|c| - 1].x == x.x || c[|c| - 1].y == x.y
    ensures Aligned(c + [x])
  {
    var r := c + [x];
    forall i | 0 <= i < |r| - 1 ensures InLine(r, i) {
      if i < |c| - 1 {
        assert InLine(c, i) && r[i] == c[i] && r[i + 1] == c[i + 1];
      }
    }
  }

  /** Appending the far end of a straight run extends the expansion by that run. */
  lemma ExtendRun(p: seq<Coord>, c: seq<Coord>, a: nat, b: nat)
    requires UnitSteps(p) && a < b < |p| && Straight(p, a, b)
    requires |c| >= 1 && c[|c| - 1] == p[a] && Expand(c) == p[..a + 1] && Aligned(c)
    ensures p[a] != p[b]
    ensures Expand(c + [p[b]]) == p[..b + 1]
    ensures Aligned(c + [p[b]])
  {
    RunSegment(p, a, b);
    ExpandSnoc(c, p[b]);
    SliceJoin(p, a + 1, b + 1);
    AlignedSnoc(c, p[b]);
  }

  /** The endpoints kept after scanning the interior indices `1 .. k - 1`. */
  function Endpoints(p: seq<Coord>, k: nat): seq<Coord>
    requires k < |p| && |p| >= 1
  {
    [p[0]] + Corners(p, k)
  }

  lemma EndpointsStep(p: seq<Coord>, k: nat)
    requires 1 < k < |p|
    ensures IsTurn(p, k - 1) ==> Endpoints(p, k) == Endpoints(p, k - 1) + [p[k - 1]]
    ensures !IsTurn(p, k - 1) ==> Endpoints(p, k) == Endpoints(p, k - 1)
  {
    assert Corners(p, k) == Corners(p, k - 1) + (if IsTurn(p, k - 1) then [p[k - 1]] else []);
    if IsTurn(p, k - 1) {
      assert [p[0]] + (Corners(p, k - 1) + [p[k - 1]]) == ([p[0]] + Corners(p, k - 1)) + [p[k - 1]];
    } else {
      assert Corners(p, k - 1) + [] == Corners(p, k - 1);
    }
  }

  /** What has been drawn once the interior indices `1 .. k - 1` are scanned. */
  ghost predicate DrawnUpTo(p: seq<Coord>, k: nat)
    requires 1 <= k < |p|
  {
    var c := Endpoints(p, k);
    var lc := LastCorner(p, k);
    && c[|c| - 1] == p[lc]
    && Expand(c) == p[..lc + 1]
    && Aligned(c)
    && Straight(p, lc, k)
  }

  /** The loop invariant of the round trip: the endpoints so far expand to the path up to the last turn. */
  lemma {:induction false} ExpandPrefix(p: seq<Coord>, k: nat)
    requires UnitSteps(p) && NoReversal(p) && 1 <= k < |p|
    ensures DrawnUpTo(p, k)
  {
    if k > 1 {
      ExpandPrefix(p, k - 1);
      EndpointsStep(p, k);
      if IsTurn(p, k - 1) {
        ExtendRun(p, Endpoints(p, k - 1), LastCorner(p, k - 1), k - 1);
      } else {
        SameAxisSameDelta(p, k - 1);
      }
    }
  }

  /** Step `j` keeps the x coordinate, that is, it moves vertically. */
  predicate KeepsX(p: seq<Coord>, j: nat)
    requires j + 1 < |p|
  {
    p[j].x == p[j + 1].x
  }

  /** The steps from index `a` up to index `b` all keep, or all change, the x coordinate. */
  predicate AxisRun(p: seq<Coord>, a: nat, b: nat)
    requires a < b < |p|
  {
    forall j :: a <= j < b ==> KeepsX(p, j) == KeepsX(p, a)
  }

  /** A run of unit steps along one axis ends on the row or column where it started. */
  lemma {:induction false} AxisRunInLine(p: seq<Coord>, a: nat, b: nat)
    requires UnitSteps(p) && a < b < |p| && AxisRun(p, a, b)
    ensures KeepsX(p, a) ==> p[a].x == p[b].x
    ensures !KeepsX(p, a) ==> p[a].y == p[b].y
    decreases b - a
  {
    assert UnitStep(p, b - 1);
    if a + 1 < b {
      AxisRunInLine(p, a, b - 1);
      assert KeepsX(p, b - 1) == KeepsX(p, a);
    }
  }

  /**
   * After scanning the interior indices `1 .. k - 1` of a unit-step path, the
   * endpoints kept so far are aligned, and the path runs along one axis from
   * the last of them up to index `k`.
   */
  lemma {:induction false} AlignedPrefix(p: seq<Coord>, k: nat)
    requires UnitSteps(p) && 1 <= k < |p|
    ensures var c := Endpoints(p, k);
            c[|c| - 1] == p[LastCorner(p, k)] && Aligned(c) && AxisRun(p, LastCorner(p, k), k)
  {
    if k > 1 {
      AlignedPrefix(p, k - 1);
      EndpointsStep(p, k);
      var lc := LastCorner(p, k - 1);
      if IsTurn(p, k - 1) {
        AxisRunInLine(p, lc, k - 1);
        AlignedSnoc(Endpoints(p, k - 1), p[k - 1]);
      } else {
        assert KeepsX(p, k - 2) == KeepsX(p, lc);
        assert KeepsX(p, k - 1) == KeepsX(p, k - 2);
      }
    }
  }

  /**
   * For any path of unit steps, consecutive points of the consolidated path
   * share a row or a column.
   */
  lemma ConsolidatedAligned(p: seq<Coord>)
    requires UnitSteps(p)
    ensures Aligned(Consolidated(p))
  {
    var n := |p|;
    if n > 1 {
      AlignedPrefix(p, n - 1);
      var c := Endpoints(p, n - 1);
      AxisRunInLine(p, LastCorner(p, n - 1), n - 1);
      if c[|c| - 1] != p[n - 1] {
        AlignedSnoc(c, p[n - 1]);
      }
    }
  }

  /**
   * Drawing the consolidated path segment by segment gives back the original
   * path, for any path of unit steps that never reverses on itself (which
   * the backpointer chains of the movement engine never do).
   */
  lemma ConsolidatedRoundTrip(p: seq<Coord>)
    requires UnitSteps(p) && NoReversal(p)
    ensures Aligned(Consolidated(p))
    ensures Expand(Consolidated(p)) == p
  {
    var n := |p|;
    if n > 1 {
      ExpandPrefix(p, n - 1);
      var c := Endpoints(p, n - 1);
      ExtendRun(p, c, LastCorner(p, n - 1), n - 1);
      assert Consolidated(p) == c + [p[n - 1]];
      assert p[..n] == p;
    }
  }

  /** The straight-line scenarios of the unit tests of consolidate_path. */
  lemma ConsolidatedStraightScenarios()
    ensures Consolidated([]) == []
    ensures Consolidated([Coord(0, 0)]) == [Coord(0, 0)]
    ensures Consolidated([Coord(0, 0), Coord(1, 0)]) == [Coord(0, 0), Coord(1, 0)]
    ensures Consolidated([Coord(0, 0), Coord(1, 0), Coord(2, 0)]) == [Coord(0, 0), Coord(2, 0)]
  {
  }

  /** The scenario with one turn of the unit tests of consolidate_path. */
  lemma ConsolidatedOneTurnScenario()
    ensures Consolidated([Coord(0, 0), Coord(1, 0), Coord(2, 0), Coord(2, 1)])
            == [Coord(0, 0), Coord(2, 0), Coord(2, 1)]
  {
  }

  /** The path of the unit test of consolidate_path with two turns. */
  const TwoTurns: seq<Coord> :=
    [Coord(1, 0), Coord(2, 0), Coord(3, 0), Coord(4, 0), Coord(5, 0),
     Coord(6, 0), Coord(6, 1), Coord(6, 2), Coord(5, 2), Coord(4, 2)]

  lemma TwoTurnsCorners()
    ensures Corners(TwoTurns, 9) == [Coord(6, 0), Coord(6, 2)]
  {
    var p := TwoTurns;
    assert !IsTurn(p, 1) && !IsTurn(p, 2) && !IsTurn(p, 3) && !IsTurn(p, 4);
    assert IsTurn(p, 5) && !IsTurn(p, 6) && IsTurn(p, 7) && !IsTurn(p, 8);
    assert Corners(p, 5) == [] by {
      assert Corners(p, 2) == [] && Corners(p, 3) == [] && Corners(p, 4) == [];
    }
    assert Corners(p, 7) == [Coord(6, 0)] by {
      assert Corners(p, 6) == [Coord(6, 0)];
    }
    assert Corners(p, 8) == [Coord(6, 0), Coord(6, 2)];
  }

  /** The scenario with two turns of the unit tests of consolidate_path. */
  lemma ConsolidatedTwoTurnsScenario()
    ensures Consolidated(TwoTurns) == [Coord(1, 0), Coord(6, 0), Coord(6, 2), Coord(4, 2)]
  {
    TwoTurnsCorners();
  }
}
