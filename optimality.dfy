/**
 * What the results of compute_path_costs mean for walks over the grid: no
 * walk from the source within the budget is cheaper than the recorded cost of
 * its end, and the backpointer chain that get_path reads out is such a walk
 * with exactly the recorded cost.
 */
module Optimality {
  import opened Grid
  import opened Engine
  import opened PathServices
  import Consolidation
  import Terrains

  /** Step `i` of `w` is a legal move. */
  ghost predicate MoveAt(b: Board, w: seq<Coord>, i: nat)
    requires b.Valid() && 0 < i < |w|
  {
    b.Step(w[i - 1], w[i])
  }

  /** `w` is a sequence of legal moves. */
  ghost predicate IsWalk(b: Board, w: seq<Coord>)
    requires b.Valid()
  {
    forall i :: 0 < i < |w| ==> MoveAt(b, w, i)
  }

  /** The cost of the first `k` moves of walk `w`: the cost of entering `w[1]`, ..., `w[k]`. */
  ghost function CostTo(b: Board, w: seq<Coord>, k: nat): nat
    requires b.Valid() && IsWalk(b, w) && k < |w|
  {
    if k == 0 then 0
    else
      assert MoveAt(b, w, k);
      CostTo(b, w, k - 1) + b.Enter(w[k])
  }

  /** The cost of a whole walk. */
  ghost function WalkCost(b: Board, w: seq<Coord>): nat
    requires b.Valid() && IsWalk(b, w) && |w| >= 1
  {
    CostTo(b, w, |w| - 1)
  }

  /**
   * Optimality of compute_path_costs: every cell that a walk from the source
   * reaches within the budget is recorded, at a cost no higher than the walk's.
   */
  lemma {:induction false} NoCheaperWalk(b: Board, src: Coord, maxDist: nat,
                                         cameFrom: map<Coord, Coord>, costs: map<Coord, nat>,
                                         boundary: set<Coord>, reachable: set<Coord>,
                                         w: seq<Coord>, k: nat)
    requires b.Valid() && Explored(b, src, maxDist, cameFrom, costs, boundary, reachable)
    requires IsWalk(b, w) && k < |w| && w[0] == src
    requires CostTo(b, w, k) <= maxDist
    ensures w[k] in reachable && costs[w[k]] <= CostTo(b, w, k)
  {
    if k > 0 {
      NoCheaperWalk(b, src, maxDist, cameFrom, costs, boundary, reachable, w, k - 1);
      assert MoveAt(b, w, k);
      assert Relaxed(b, maxDist, costs, w[k - 1]);
      assert RelaxedEdge(b, maxDist, costs, w[k - 1], w[k]);
    }
  }

  /** The prefix `path[..i + 1]` of a backpointer chain of the search is a walk costing exactly the cost recorded for `path[i]`. */
  lemma {:induction false} ChainCost(b: Board, src: Coord, maxDist: nat,
                                     cameFrom: map<Coord, Coord>, costs: map<Coord, nat>,
                                     boundary: set<Coord>, reachable: set<Coord>,
                                     path: seq<Coord>, i: nat)
    requires b.Valid() && Explored(b, src, maxDist, cameFrom, costs, boundary, reachable)
    requires BackChain(cameFrom, path) && i < |path|
    ensures path[0] == src
    ensures IsWalk(b, path)
    ensures path[i] in costs && CostTo(b, path, i) == costs[path[i]]
  {
    ChainStart(b, src, maxDist, cameFrom, costs, boundary, reachable, path);
    ChainIsWalk(b, src, maxDist, cameFrom, costs, boundary, reachable, path);
    if i > 0 {
      ChainCost(b, src, maxDist, cameFrom, costs, boundary, reachable, path, i - 1);
      assert path[i] in cameFrom && cameFrom[path[i]] == path[i - 1] && path[i] != path[i - 1];
      assert path[i] != src;
      assert ParentExact(b, cameFrom, costs, path[i]);
    }
  }

  /** Every backpointer of a chain of the search is a legal move. */
  lemma ChainIsWalk(b: Board, src: Coord, maxDist: nat,
                    cameFrom: map<Coord, Coord>, costs: map<Coord, nat>,
                    boundary: set<Coord>, reachable: set<Coord>, path: seq<Coord>)
    requires b.Valid() && Explored(b, src, maxDist, cameFrom, costs, boundary, reachable)
    requires BackChain(cameFrom, path)
    ensures IsWalk(b, path)
  {
    forall i | 0 < i < |path| ensures MoveAt(b, path, i) {
      assert path[i] in cameFrom && cameFrom[path[i]] == path[i - 1] && path[i] != path[i - 1];
      assert path[i] != src;
      assert ParentBound(b, cameFrom, costs, path[i]);
    }
  }

  /** A backpointer chain of the search starts at the source. */
  lemma ChainStart(b: Board, src: Coord, maxDist: nat,
                   cameFrom: map<Coord, Coord>, costs: map<Coord, nat>,
                   boundary: set<Coord>, reachable: set<Coord>, path: seq<Coord>)
    requires b.Valid() && Explored(b, src, maxDist, cameFrom, costs, boundary, reachable)
    requires BackChain(cameFrom, path)
    ensures path[0] == src
  {
    assert path[1] in cameFrom && cameFrom[path[1]] == path[0];
    forall n | n in cameFrom && n != src ensures cameFrom[n] != n {
      assert ParentBound(b, cameFrom, costs, n);
    }
  }

  /**
   * get_path on the results of the search: the chain it returns for a
   * recorded cell other than the source is a walk from the source whose cost
   * is the recorded cost, and so, by `NoCheaperWalk`, a cheapest one.
   */
  lemma ChainIsShortestWalk(b: Board, src: Coord, maxDist: nat,
                            cameFrom: map<Coord, Coord>, costs: map<Coord, nat>,
                            boundary: set<Coord>, reachable: set<Coord>, path: seq<Coord>)
    requires b.Valid() && Explored(b, src, maxDist, cameFrom, costs, boundary, reachable)
    requires BackChain(cameFrom, path)
    ensures path[0] == src && IsWalk(b, path)
    ensures WalkCost(b, path) == costs[path[|path| - 1]] <= maxDist
    ensures forall w ::
              (IsWalk(b, w) && |w| >= 1 && w[0] == src && w[|w| - 1] == path[|path| - 1] && WalkCost(b, w) <= maxDist)
              ==> WalkCost(b, path) <= WalkCost(b, w)
  {
    ChainCost(b, src, maxDist, cameFrom, costs, boundary, reachable, path, |path| - 1);
    forall w | IsWalk(b, w) && |w| >= 1 && w[0] == src && w[|w| - 1] == path[|path| - 1]
                && WalkCost(b, w) <= maxDist
      ensures WalkCost(b, path) <= WalkCost(b, w)
    {
      NoCheaperWalk(b, src, maxDist, cameFrom, costs, boundary, reachable, w, |w| - 1);
    }
  }

  /**
   * With positive tile costs, recorded costs strictly increase along every
   * backpointer, so they rank the backpointer map as get_path needs.
   */
  lemma CostsRankBackpointers(b: Board, src: Coord, maxDist: nat,
                              cameFrom: map<Coord, Coord>, costs: map<Coord, nat>,
                              boundary: set<Coord>, reachable: set<Coord>)
    requires b.Valid() && Explored(b, src, maxDist, cameFrom, costs, boundary, reachable)
    requires forall t :: b.cost(t) >= 1
    ensures RankedBy(cameFrom, costs)
  {
    forall n | n in cameFrom && cameFrom[n] != n && cameFrom[n] in cameFrom
      ensures costs[cameFrom[n]] < costs[n]
    {
      assert ParentExact(b, cameFrom, costs, n);
      assert b.cost(b.terrain[n.x][n.y]) >= 1;
    }
  }

  /**
   * With positive tile costs, a chain read out by get_path moves one cell at a
   * time and never doubles back, so drawing its consolidated form gives it back.
   */
  lemma ChainDrawsBack(b: Board, src: Coord, maxDist: nat,
                       cameFrom: map<Coord, Coord>, costs: map<Coord, nat>,
                       boundary: set<Coord>, reachable: set<Coord>, path: seq<Coord>)
    requires b.Valid() && Explored(b, src, maxDist, cameFrom, costs, boundary, reachable)
    requires forall t :: b.cost(t) >= 1
    requires BackChain(cameFrom, path)
    ensures Consolidation.UnitSteps(path) && Consolidation.NoReversal(path)
    ensures Consolidation.Aligned(Consolidation.Consolidated(path))
    ensures Consolidation.Expand(Consolidation.Consolidated(path)) == path
  {
    ChainIsWalk(b, src, maxDist, cameFrom, costs, boundary, reachable, path);
    CostsRankBackpointers(b, src, maxDist, cameFrom, costs, boundary, reachable);
    forall i | 0 <= i < |path| - 1 ensures Consolidation.UnitStep(path, i) {
      assert MoveAt(b, path, i + 1);
    }
    forall i | 0 <= i < |path| - 2 ensures Consolidation.NoBacktrack(path, i) {
      assert cameFrom[path[i + 1]] == path[i] && cameFrom[path[i + 2]] == path[i + 1];
      assert costs[path[i]] < costs[path[i + 1]] < costs[path[i + 2]];
    }
    Consolidation.ConsolidatedRoundTrip(path);
  }

  /**
   * The pathfinding pipeline with the game's tile costs (Terrain::cost):
   * compute_path_costs from `src`, get_path to `dest`, then consolidate_path.
   * A cell outside the movement range gets no path, the source itself the
   * one-cell path, and every other reached cell a cheapest walk from the
   * source within the budget, whose consolidated form draws it back exactly.
   */
  method RouteTo(src: Coord, terrain: seq<seq<Terrains.Terrain>>, maxW: nat, maxH: nat, maxDist: nat,
                 dest: Coord)
    returns (costs: map<Coord, nat>, path: seq<Coord>, cpath: seq<Coord>)
    requires Covers(terrain, maxW, maxH)
    ensures dest !in costs ==> path == [] && cpath == []
    ensures dest == src ==> path == [src] && cpath == [src]
    ensures var b := Board(terrain, maxW, maxH, Terrains.Cost);
            dest in costs && dest != src ==>
              && |path| >= 2 && path[0] == src && path[|path| - 1] == dest
              && IsWalk(b, path) && WalkCost(b, path) == costs[dest] <= maxDist
              && (forall w :: (IsWalk(b, w) && |w| >= 1 && w[0] == src && w[|w| - 1] == dest
                                && WalkCost(b, w) <= maxDist) ==> WalkCost(b, path) <= WalkCost(b, w))
              && Consolidation.Aligned(cpath) && Consolidation.Expand(cpath) == path
  {
    ghost var b := Board(terrain, maxW, maxH, Terrains.Cost);
    var cameFrom, boundary, reachable;
    cameFrom, costs, boundary, reachable := ComputePathCosts(src, terrain, maxW, maxH, maxDist, Terrains.Cost);
    CostsRankBackpointers(b, src, maxDist, cameFrom, costs, boundary, reachable);
    path := GetPath(dest, cameFrom, costs);
    cpath := Consolidation.ConsolidatePath(path);
    if dest in cameFrom && dest != src {
      assert ParentExact(b, cameFrom, costs, dest);
      ChainIsShortestWalk(b, src, maxDist, cameFrom, costs, boundary, reachable, path);
      ChainDrawsBack(b, src, maxDist, cameFrom, costs, boundary, reachable, path);
    }
  }
}
