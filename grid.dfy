/**
 * Cells, directions and the neighbour functions of the movement engine
 * (src/pathfinding.rs). The terrain matrix is column-major: `terrain[x][y]`.
 */
module Grid {
  import opened Wrappers
  import Terrains

  /** A grid cell address `(x, y)`; `y` grows downward. */
  datatype Coord = Coord(x: nat, y: nat)

  /** The four cardinal directions, in the order the source declares them. */
  datatype Direction = N | S | E | W

  /** A cell is inside a `maxW` by `maxH` grid. */
  predicate IsPointValid(p: Coord, maxW: nat, maxH: nat) {
    p.x < maxW && p.y < maxH
  }

  /** The terrain matrix has a column of at least `maxH` cells for each of the `maxW` columns. */
  predicate Covers(terrain: seq<seq<Terrains.Terrain>>, maxW: nat, maxH: nat) {
    maxW <= |terrain| && forall x :: 0 <= x < maxW ==> maxH <= |terrain[x]|
  }

  /** On a terrain matrix that covers the grid, every valid point can be looked up. */
  lemma ValidPointInTerrain(terrain: seq<seq<Terrains.Terrain>>, maxW: nat, maxH: nat, p: Coord)
    requires Covers(terrain, maxW, maxH) && IsPointValid(p, maxW, maxH)
    ensures p.x < |terrain| && p.y < |terrain[p.x]|
  {
  }

  /** The cell one step from `p` in direction `d`; absent when a coordinate would become negative. */
  function Neighbor(p: Coord, d: Direction): Option<Coord> {
    match d
    case N => if p.y >= 1 then Some(Coord(p.x, p.y - 1)) else None
    case S => Some(Coord(p.x, p.y + 1))
    case E => Some(Coord(p.x + 1, p.y))
    case W => if p.x >= 1 then Some(Coord(p.x - 1, p.y)) else None
  }

  /** `a` and `b` are 4-adjacent: they differ by one in exactly one coordinate. */
  predicate Adjacent(a: Coord, b: Coord) {
    || (a.x == b.x && (a.y + 1 == b.y || b.y + 1 == a.y))
    || (a.y == b.y && (a.x + 1 == b.x || b.x + 1 == a.x))
  }

  /** Moving from `from` into `to` is a legal move: adjacent, inside the grid, not a wall. */
  predicate IsStep(terrain: seq<seq<Terrains.Terrain>>, maxW: nat, maxH: nat, from: Coord, to: Coord)
    requires Covers(terrain, maxW, maxH)
  {
    Adjacent(from, to) && IsPointValid(to, maxW, maxH) && terrain[to.x][to.y] != Terrains.Wall
  }

  /** What it costs to enter cell `c`. */
  function EnterCost(terrain: seq<seq<Terrains.Terrain>>, cost: Terrains.Terrain -> nat, c: Coord): nat
    requires c.x < |terrain| && c.y < |terrain[c.x]|
  {
    cost(terrain[c.x][c.y])
  }

  /** The order in which the neighbour functions scan directions: W, E, N, S. */
  function ScanRank(d: Direction): nat {
    match d
    case W => 0
    case E => 1
    case N => 2
    case S => 3
  }

  /** The order of the initial list of a boundary cell's sides: N, S, E, W. */
  function SideRank(d: Direction): nat {
    match d
    case N => 0
    case S => 1
    case E => 2
    case W => 3
  }

  /**
   * The direction in which `to` lies as seen from `from` (relative_adj_dir).
   * The source panics on non-adjacent cells, so adjacency is required.
   */
  function RelativeAdjDir(from: Coord, to: Coord): (d: Direction)
    requires Adjacent(from, to)
    ensures Neighbor(from, d) == Some(to)
  {
    if from.x == to.x then
      if from.y as int - to.y as int == 1 then N else S
    else
      if from.x as int - to.x as int == 1 then W else E
  }

  /** Stepping in direction `d` and asking for the direction back gives `d`. */
  lemma RelativeAdjDirInverse(from: Coord, d: Direction)
    requires Neighbor(from, d).Some?
    ensures Adjacent(from, Neighbor(from, d).value)
    ensures RelativeAdjDir(from, Neighbor(from, d).value) == d
  {
  }

  /**
   * The in-grid 4-neighbours of `p`, in scan order W, E, N, S, without
   * looking at the terrain (valid_neighbor_coords).
   */
  method ValidNeighborCoords(p: Coord, maxW: nat, maxH: nat) returns (ns: seq<Coord>)
    ensures forall k :: 0 <= k < |ns| ==> Adjacent(p, ns[k]) && IsPointValid(ns[k], maxW, maxH)
    ensures forall q :: Adjacent(p, q) && IsPointValid(q, maxW, maxH) ==> q in ns
    ensures forall i, j :: 0 <= i < j < |ns| ==>
              ScanRank(RelativeAdjDir(p, ns[i])) < ScanRank(RelativeAdjDir(p, ns[j]))
  {
    ns := [];
    if p.x >= 1 && IsPointValid(Coord(p.x - 1, p.y), maxW, maxH) {
      ns := ns + [Coord(p.x - 1, p.y)];
    }
    assert ns == InGridTo(p, W, maxW, maxH);
    if IsPointValid(Coord(p.x + 1, p.y), maxW, maxH) {
      ns := ns + [Coord(p.x + 1, p.y)];
    }
    assert ns == InGridTo(p, W, maxW, maxH) + InGridTo(p, E, maxW, maxH);
    if p.y >= 1 && IsPointValid(Coord(p.x, p.y - 1), maxW, maxH) {
      ns := ns + [Coord(p.x, p.y - 1)];
    }
    assert ns == InGridTo(p, W, maxW, maxH) + InGridTo(p, E, maxW, maxH) + InGridTo(p, N, maxW, maxH);
    if IsPointValid(Coord(p.x, p.y + 1), maxW, maxH) {
      ns := ns + [Coord(p.x, p.y + 1)];
    }
    assert ns == InGridTo(p, W, maxW, maxH) + InGridTo(p, E, maxW, maxH)
               + InGridTo(p, N, maxW, maxH) + InGridTo(p, S, maxW, maxH);
    InGridInScanOrder(p, maxW, maxH);
  }

  /** The one-element list holding the neighbour of `p` in direction `d`, or nothing when it is off the grid. */
  function InGridTo(p: Coord, d: Direction, maxW: nat, maxH: nat): seq<Coord> {
    var q := Neighbor(p, d);
    if q.Some? && IsPointValid(q.value, maxW, maxH) then [q.value] else []
  }

  /** The four candidate neighbours, concatenated in scan order, are exactly the in-grid neighbours, each once. */
  lemma InGridInScanOrder(p: Coord, maxW: nat, maxH: nat)
    ensures var ns := InGridTo(p, W, maxW, maxH) + InGridTo(p, E, maxW, maxH)
                      + InGridTo(p, N, maxW, maxH) + InGridTo(p, S, maxW, maxH);
      && (forall k :: 0 <= k < |ns| ==> Adjacent(p, ns[k]) && IsPointValid(ns[k], maxW, maxH))
      && (forall q :: Adjacent(p, q) && IsPointValid(q, maxW, maxH) ==> q in ns)
      && (forall i, j :: 0 <= i < j < |ns| ==>
            ScanRank(RelativeAdjDir(p, ns[i])) < ScanRank(RelativeAdjDir(p, ns[j])))
  {
    var ns := InGridTo(p, W, maxW, maxH);
    AppendInGrid(p, maxW, maxH, [], W);
    AppendInGrid(p, maxW, maxH, ns, E);
    ns := ns + InGridTo(p, E, maxW, maxH);
    AppendInGrid(p, maxW, maxH, ns, N);
    ns := ns + InGridTo(p, N, maxW, maxH);
    AppendInGrid(p, maxW, maxH, ns, S);
    ns := ns + InGridTo(p, S, maxW, maxH);
    forall q | Adjacent(p, q) && IsPointValid(q, maxW, maxH) ensures q in ns {
      assert ScanRank(RelativeAdjDir(p, q)) < 4;
    }
  }

  /**
   * The neighbours found after scanning the directions of scan rank below
   * `r`: in-grid neighbours, in scan order, covering every in-grid neighbour
   * in those directions.
   */
  ghost predicate InGridBelow(p: Coord, maxW: nat, maxH: nat, ns: seq<Coord>, r: nat) {
    && (forall k :: 0 <= k < |ns| ==>
          Adjacent(p, ns[k]) && IsPointValid(ns[k], maxW, maxH) && ScanRank(RelativeAdjDir(p, ns[k])) < r)
    && (forall q :: Adjacent(p, q) && IsPointValid(q, maxW, maxH) && ScanRank(RelativeAdjDir(p, q)) < r ==> q in ns)
    && (forall i, j :: 0 <= i < j < |ns| ==>
          ScanRank(RelativeAdjDir(p, ns[i])) < ScanRank(RelativeAdjDir(p, ns[j])))
  }

  /** Scanning one more direction, in scan order, extends the neighbours found so far. */
  lemma AppendInGrid(p: Coord, maxW: nat, maxH: nat, ns: seq<Coord>, d: Direction)
    requires InGridBelow(p, maxW, maxH, ns, ScanRank(d))
    ensures InGridBelow(p, maxW, maxH, ns + InGridTo(p, d, maxW, maxH), ScanRank(d) + 1)
  {
    var ns' := ns + InGridTo(p, d, maxW, maxH);
    if InGridTo(p, d, maxW, maxH) != [] {
      RelativeAdjDirInverse(p, d);
      assert ns'[|ns|] == Neighbor(p, d).value;
    }
    forall q | Adjacent(p, q) && IsPointValid(q, maxW, maxH) && ScanRank(RelativeAdjDir(p, q)) < ScanRank(d) + 1
      ensures q in ns'
    {
      if RelativeAdjDir(p, q) == d {
        assert ns'[|ns|] == q;
      }
    }
  }

  /**
   * `ns` lists the legal moves from `p`: every entry is a legal move paired
   * with the cost of the cell it enters, every legal move is listed, and the
   * entries follow scan order W, E, N, S (so none is listed twice).
   */
  ghost predicate MovesFrom(terrain: seq<seq<Terrains.Terrain>>, maxW: nat, maxH: nat, cost: Terrains.Terrain -> nat,
                      p: Coord, ns: seq<(Coord, nat)>)
    requires Covers(terrain, maxW, maxH)
  {
    && (forall k :: 0 <= k < |ns| ==>
          Adjacent(p, ns[k].0) && IsStep(terrain, maxW, maxH, p, ns[k].0)
          && ns[k].1 == EnterCost(terrain, cost, ns[k].0))
    && (forall q :: IsStep(terrain, maxW, maxH, p, q) ==> q in Coords(ns))
    && (forall i, j :: 0 <= i < j < |ns| ==>
          ScanRank(RelativeAdjDir(p, ns[i].0)) < ScanRank(RelativeAdjDir(p, ns[j].0)))
  }

  /**
   * The cells a unit standing on `p` may move into, in scan order W, E, N, S,
   * each paired with the cost of entering it (neighbor_costs).
   */
  method NeighborCosts(p: Coord, terrain: seq<seq<Terrains.Terrain>>, maxW: nat, maxH: nat,
                       cost: Terrains.Terrain -> nat)
    returns (ns: seq<(Coord, nat)>)
    requires Covers(terrain, maxW, maxH)
    ensures MovesFrom(terrain, maxW, maxH, cost, p, ns)
  {
    ghost var sw, se := StepTo(terrain, maxW, maxH, cost, p, W), StepTo(terrain, maxW, maxH, cost, p, E);
    ghost var sn, ss := StepTo(terrain, maxW, maxH, cost, p, N), StepTo(terrain, maxW, maxH, cost, p, S);
    ns := [];
    if p.x >= 1 && IsPointValid(Coord(p.x - 1, p.y), maxW, maxH)
       && terrain[p.x - 1][p.y] != Terrains.Wall
    {
      ns := ns + [(Coord(p.x - 1, p.y), cost(terrain[p.x - 1][p.y]))];
    }
    assert ns == sw;
    ghost var ns1 := ns;
    if IsPointValid(Coord(p.x + 1, p.y), maxW, maxH) && terrain[p.x + 1][p.y] != Terrains.Wall {
      ns := ns + [(Coord(p.x + 1, p.y), cost(terrain[p.x + 1][p.y]))];
    }
    assert ns == ns1 + se;
    ghost var ns2 := ns;
    if p.y >= 1 && IsPointValid(Coord(p.x, p.y - 1), maxW, maxH)
       && terrain[p.x][p.y - 1] != Terrains.Wall
    {
      ns := ns + [(Coord(p.x, p.y - 1), cost(terrain[p.x][p.y - 1]))];
    }
    assert ns == ns2 + sn;
    ghost var ns3 := ns;
    if IsPointValid(Coord(p.x, p.y + 1), maxW, maxH) && terrain[p.x][p.y + 1] != Terrains.Wall {
      ns := ns + [(Coord(p.x, p.y + 1), cost(terrain[p.x][p.y + 1]))];
    }
    assert ns == ns3 + ss;
    assert ns == sw + se + sn + ss;
    StepsInScanOrder(terrain, maxW, maxH, cost, p);
  }

  /** The one-element list for the move from `p` in direction `d`, or nothing when that move is illegal. */
  function StepTo(terrain: seq<seq<Terrains.Terrain>>, maxW: nat, maxH: nat, cost: Terrains.Terrain -> nat,
                  p: Coord, d: Direction): seq<(Coord, nat)>
    requires Covers(terrain, maxW, maxH)
  {
    var q := Neighbor(p, d);
    if q.Some? && IsPointValid(q.value, maxW, maxH) && terrain[q.value.x][q.value.y] != Terrains.Wall
    then [(q.value, cost(terrain[q.value.x][q.value.y]))]
    else []
  }

  /** The four candidate moves, concatenated in scan order, are exactly the legal moves, each once. */
  lemma StepsInScanOrder(terrain: seq<seq<Terrains.Terrain>>, maxW: nat, maxH: nat,
                         cost: Terrains.Terrain -> nat, p: Coord)
    requires Covers(terrain, maxW, maxH)
    ensures MovesFrom(terrain, maxW, maxH, cost, p,
                      StepTo(terrain, maxW, maxH, cost, p, W) + StepTo(terrain, maxW, maxH, cost, p, E)
                      + StepTo(terrain, maxW, maxH, cost, p, N) + StepTo(terrain, maxW, maxH, cost, p, S))
  {
    var ns := StepTo(terrain, maxW, maxH, cost, p, W);
    AppendStep(terrain, maxW, maxH, cost, p, [], W);
    AppendStep(terrain, maxW, maxH, cost, p, ns, E);
    ns := ns + StepTo(terrain, maxW, maxH, cost, p, E);
    AppendStep(terrain, maxW, maxH, cost, p, ns, N);
    ns := ns + StepTo(terrain, maxW, maxH, cost, p, N);
    AppendStep(terrain, maxW, maxH, cost, p, ns, S);
    ns := ns + StepTo(terrain, maxW, maxH, cost, p, S);
    forall q | IsStep(terrain, maxW, maxH, p, q) ensures q in Coords(ns) {
      var d := RelativeAdjDir(p, q);
      assert ScanRank(d) < 4;
    }
  }

  /**
   * The moves found after scanning the directions of scan rank below `r`:
   * legal moves with their entry costs, in scan order, covering every legal
   * move in those directions.
   */
  ghost predicate MovesBelow(terrain: seq<seq<Terrains.Terrain>>, maxW: nat, maxH: nat, cost: Terrains.Terrain -> nat,
                             p: Coord, ns: seq<(Coord, nat)>, r: nat)
    requires Covers(terrain, maxW, maxH)
  {
    && (forall k :: 0 <= k < |ns| ==>
          Adjacent(p, ns[k].0) && IsStep(terrain, maxW, maxH, p, ns[k].0)
          && ns[k].1 == EnterCost(terrain, cost, ns[k].0)
          && ScanRank(RelativeAdjDir(p, ns[k].0)) < r)
    && (forall q :: IsStep(terrain, maxW, maxH, p, q) && ScanRank(RelativeAdjDir(p, q)) < r ==> q in Coords(ns))
    && (forall i, j :: 0 <= i < j < |ns| ==>
          ScanRank(RelativeAdjDir(p, ns[i].0)) < ScanRank(RelativeAdjDir(p, ns[j].0)))
  }

  /** Scanning one more direction, in scan order, extends the moves found so far. */
  lemma AppendStep(terrain: seq<seq<Terrains.Terrain>>, maxW: nat, maxH: nat, cost: Terrains.Terrain -> nat,
                   p: Coord, ns: seq<(Coord, nat)>, d: Direction)
    requires Covers(terrain, maxW, maxH)
    requires MovesBelow(terrain, maxW, maxH, cost, p, ns, ScanRank(d))
    ensures MovesBelow(terrain, maxW, maxH, cost, p, ns + StepTo(terrain, maxW, maxH, cost, p, d), ScanRank(d) + 1)
  {
    var step := StepTo(terrain, maxW, maxH, cost, p, d);
    var ns' := ns + step;
    if step != [] {
      var q := step[0].0;
      RelativeAdjDirInverse(p, d);
      assert ns'[|ns|] == step[0];
    }
    forall q | IsStep(terrain, maxW, maxH, p, q) && ScanRank(RelativeAdjDir(p, q)) < ScanRank(d) + 1
      ensures q in Coords(ns')
    {
      if RelativeAdjDir(p, q) == d {
        assert ns'[|ns|].0 == q;
      } else {
        var k :| 0 <= k < |ns| && ns[k].0 == q;
        assert ns'[k].0 == q;
      }
    }
  }

  /** The cells of a list of (cell, cost) pairs. */
  function Coords(ns: seq<(Coord, nat)>): set<Coord> {
    set k | 0 <= k < |ns| :: ns[k].0
  }
}
