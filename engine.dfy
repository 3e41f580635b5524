/**
 * The bounded best-first search of src/pathfinding.rs (compute_path_costs):
 * from a source cell, with a movement budget, it records for every cell it
 * reaches a backpointer and an accumulated cost, the set of reached cells and
 * a boundary set.
 */
module Engine {
  import opened Grid
  import opened Frontier
  import Terrains

  /** The fixed inputs of a search: the terrain, the grid size and the cost of entering a tile. */
  datatype Board = Board(terrain: seq<seq<Terrains.Terrain>>, maxW: nat, maxH: nat,
                         cost: Terrains.Terrain -> nat)
  {
    ghost predicate Valid() {
      Covers(terrain, maxW, maxH)
    }

    /** Moving from `p` into `q` is legal. */
    ghost predicate Step(p: Coord, q: Coord)
      requires Valid()
    {
      IsStep(terrain, maxW, maxH, p, q)
    }

    /** The cost of entering grid cell `q`. */
    ghost function Enter(q: Coord): nat
      requires Valid() && IsPointValid(q, maxW, maxH)
    {
      EnterCost(terrain, cost, q)
    }
  }

  /** The source points to itself and costs nothing. */
  ghost predicate Rooted(src: Coord, cameFrom: map<Coord, Coord>, costs: map<Coord, nat>) {
    src in cameFrom && cameFrom[src] == src && src in costs && costs[src] == 0
  }

  /** No recorded cost exceeds the budget. */
  ghost predicate WithinBudget(costs: map<Coord, nat>, maxDist: nat) {
    forall c :: c in costs ==> costs[c] <= maxDist
  }

  /**
   * The backpointer of `n` is a recorded cell from which `n` is one legal move
   * away, and the cost through it is at most the cost recorded for `n`.
   */
  ghost predicate ParentBound(b: Board, cameFrom: map<Coord, Coord>, costs: map<Coord, nat>, n: Coord)
    requires b.Valid()
  {
    && n in cameFrom && n in costs && cameFrom[n] in costs
    && b.Step(cameFrom[n], n)
    && costs[cameFrom[n]] + b.Enter(n) <= costs[n]
  }

  /** As `ParentBound`, with the cost of `n` exactly the cost through its backpointer. */
  ghost predicate ParentExact(b: Board, cameFrom: map<Coord, Coord>, costs: map<Coord, nat>, n: Coord)
    requires b.Valid()
  {
    ParentBound(b, cameFrom, costs, n) && costs[cameFrom[n]] + b.Enter(n) == costs[n]
  }

  /** The move from `p` into grid cell `q`, if it fits the budget, cannot lower the cost recorded for `q`. */
  ghost predicate RelaxedEdge(b: Board, maxDist: nat, costs: map<Coord, nat>, p: Coord, q: Coord)
    requires b.Valid() && p in costs && IsPointValid(q, b.maxW, b.maxH)
  {
    var through := costs[p] + b.Enter(q);
    through <= maxDist ==> q in costs && costs[q] <= through
  }

  /** Every legal move out of `p` is relaxed. */
  ghost predicate Relaxed(b: Board, maxDist: nat, costs: map<Coord, nat>, p: Coord)
    requires b.Valid() && p in costs
  {
    forall q :: b.Step(p, q) ==> RelaxedEdge(b, maxDist, costs, p, q)
  }

  /** Every recorded cell is relaxed: no legal move within the budget can lower a recorded cost. */
  ghost predicate Closed(b: Board, maxDist: nat, costs: map<Coord, nat>)
    requires b.Valid()
  {
    forall p :: p in costs ==> Relaxed(b, maxDist, costs, p)
  }

  /** What `compute_path_costs` guarantees about its four results. */
  ghost predicate Explored(b: Board, src: Coord, maxDist: nat,
                           cameFrom: map<Coord, Coord>, costs: map<Coord, nat>,
                           boundary: set<Coord>, reachable: set<Coord>)
    requires b.Valid()
  {
    && Rooted(src, cameFrom, costs)
    && cameFrom.Keys == costs.Keys == reachable
    && boundary <= reachable
    && WithinBudget(costs, maxDist)
    && (forall n :: n in cameFrom && n != src ==> ParentExact(b, cameFrom, costs, n))
    && Closed(b, maxDist, costs)
    && Leaves(src, cameFrom, boundary, reachable)
  }

  /** Some cell of `within` other than the source has its backpointer at `c`. */
  ghost predicate HasChild(src: Coord, cameFrom: map<Coord, Coord>, within: set<Coord>, c: Coord) {
    exists p :: p in within && p in cameFrom && p != src && cameFrom[p] == c
  }

  // ---------------------------------------------------------------------------
  // Loop invariants of the search and the lemmas that carry them across one step.

  /** The parts of the search state that hold after every step. */
  ghost predicate Consistent(b: Board, src: Coord, maxDist: nat, frontier: seq<DaState>,
                             cameFrom: map<Coord, Coord>, costs: map<Coord, nat>,
                             boundary: set<Coord>, reachable: set<Coord>)
    requires b.Valid()
  {
    && Rooted(src, cameFrom, costs)
    && cameFrom.Keys == costs.Keys
    && reachable <= costs.Keys && boundary <= reachable
    && WithinBudget(costs, maxDist)
    && (forall e :: e in frontier ==> e.pos in costs)
    && (forall n :: n in cameFrom && n != src ==> ParentBound(b, cameFrom, costs, n))
  }

  /**
   * Every recorded cell outside `skip` either still has an entry with its
   * current cost on the frontier, or has been expanded and is relaxed.
   */
  ghost predicate Settled(b: Board, maxDist: nat, frontier: seq<DaState>, costs: map<Coord, nat>,
                          reachable: set<Coord>, skip: set<Coord>)
    requires b.Valid()
  {
    forall p :: p in costs && p !in skip ==>
      DaState(costs[p], p) in frontier || (p in reachable && Relaxed(b, maxDist, costs, p))
  }

  /** Every frontier entry carries the current cost of a cell not yet reached, and occurs once. */
  ghost predicate FreshFrontier(frontier: seq<DaState>, costs: map<Coord, nat>, reachable: set<Coord>) {
    forall e :: e in frontier ==>
      e.pos in costs && e.pos !in reachable && e.dist == costs[e.pos] && multiset(frontier)[e] == 1
  }

  /** No reached cell costs more than a frontier entry. */
  ghost predicate CheapestFirst(frontier: seq<DaState>, costs: map<Coord, nat>, reachable: set<Coord>) {
    && reachable <= costs.Keys
    && forall r, e :: r in reachable && e in frontier ==> costs[r] <= e.dist
  }

  /** Every backpointer other than the source's leads to a reached cell, through which the cost is exact. */
  ghost predicate ParentsReached(b: Board, src: Coord, cameFrom: map<Coord, Coord>, costs: map<Coord, nat>,
                                 reachable: set<Coord>)
    requires b.Valid()
  {
    forall n {:trigger cameFrom[n]} :: n in cameFrom && n != src ==>
      cameFrom[n] in reachable && ParentExact(b, cameFrom, costs, n)
  }

  /** A reached cell is on the boundary exactly when no reached cell has its backpointer there. */
  ghost predicate Leaves(src: Coord, cameFrom: map<Coord, Coord>, boundary: set<Coord>, reachable: set<Coord>) {
    forall c {:trigger HasChild(src, cameFrom, reachable, c)} ::
      c in reachable ==> (c in boundary <==> !HasChild(src, cameFrom, reachable, c))
  }

  /** `cur` is a reached cell that costs at least as much as every other reached cell. */
  ghost predicate LatestReached(costs: map<Coord, nat>, reachable: set<Coord>, cur: Coord) {
    && cur in reachable && reachable <= costs.Keys
    && forall r :: r in reachable ==> costs[r] <= costs[cur]
  }

  /**
   * The search takes cells off the frontier in order of cost: each cell is
   * pushed once, popped once, and only after the cell its backpointer names.
   */
  ghost predicate Ordered(b: Board, src: Coord, frontier: seq<DaState>,
                          cameFrom: map<Coord, Coord>, costs: map<Coord, nat>,
                          boundary: set<Coord>, reachable: set<Coord>)
    requires b.Valid()
  {
    && FreshFrontier(frontier, costs, reachable)
    && CheapestFirst(frontier, costs, reachable)
    && ParentsReached(b, src, cameFrom, costs, reachable)
    && Leaves(src, cameFrom, boundary, reachable)
  }

  /**
   * The termination measure of the search: a cell contributes one more than its
   * recorded cost, or two more than the budget while it has none.
   */
  ghost function Potential(costs: map<Coord, nat>, c: Coord, maxDist: nat): nat {
    if c in costs then costs[c] + 1 else maxDist + 2
  }

  /** One token `(c, k)` for each grid cell `c` and each `k` below its potential. */
  ghost function Tokens(costs: map<Coord, nat>, maxW: nat, maxH: nat, maxDist: nat): set<(Coord, nat)> {
    set x: nat, y: nat, k: nat | x < maxW && y < maxH && k < Potential(costs, Coord(x, y), maxDist)
      :: (Coord(x, y), k)
  }

  /** Lowering the potential of one grid cell removes tokens. */
  lemma TokensShrink(costs: map<Coord, nat>, n: Coord, v: nat, maxW: nat, maxH: nat, maxDist: nat)
    requires IsPointValid(n, maxW, maxH)
    requires v + 1 < Potential(costs, n, maxDist)
    ensures Tokens(costs[n := v], maxW, maxH, maxDist) < Tokens(costs, maxW, maxH, maxDist)
  {
    var before, after := Tokens(costs, maxW, maxH, maxDist), Tokens(costs[n := v], maxW, maxH, maxDist);
    forall t | t in after ensures t in before {
      var c, k := t.0, t.1;
      assert c == Coord(c.x, c.y);
      assert k < Potential(costs, c, maxDist);
    }
    assert n == Coord(n.x, n.y);
    assert (n, v + 1) in before;
    assert (n, v + 1) !in after;
  }

  /** Lowering the cost of one cell keeps every other relaxed cell relaxed. */
  lemma RelaxedAfterUpdate(b: Board, maxDist: nat, costs: map<Coord, nat>, n: Coord, v: nat, p: Coord)
    requires b.Valid()
    requires n !in costs || v < costs[n]
    requires p in costs && p != n
    requires Relaxed(b, maxDist, costs, p)
    ensures Relaxed(b, maxDist, costs[n := v], p)
  {
    forall q | b.Step(p, q) ensures RelaxedEdge(b, maxDist, costs[n := v], p, q) {
      assert RelaxedEdge(b, maxDist, costs, p, q);
    }
  }

  /** Popping one entry leaves every other entry on the heap. */
  lemma PopKeepsOthers(h: seq<DaState>, top: DaState, rest: seq<DaState>)
    requires multiset(rest) == multiset(h) - multiset{top}
    ensures forall e :: e in h && e != top ==> e in rest
  {
    forall e | e in h && e != top ensures e in rest {
      assert e in multiset(h);
      assert e in multiset(rest);
    }
  }

  /** The state right after popping `top` and recording `top.pos` as reached and on the boundary. */
  lemma PopStep(b: Board, src: Coord, maxDist: nat, frontier: seq<DaState>,
                cameFrom: map<Coord, Coord>, costs: map<Coord, nat>,
                boundary: set<Coord>, reachable: set<Coord>, top: DaState, rest: seq<DaState>)
    requires b.Valid()
    requires Consistent(b, src, maxDist, frontier, cameFrom, costs, boundary, reachable)
    requires Settled(b, maxDist, frontier, costs, reachable, {})
    requires top in frontier && multiset(rest) == multiset(frontier) - multiset{top}
    ensures top.pos in cameFrom
    ensures var boundary' := boundary - {cameFrom[top.pos]} + {top.pos};
            var reachable' := reachable + {top.pos};
            && Consistent(b, src, maxDist, rest, cameFrom, costs, boundary', reachable')
            && Settled(b, maxDist, rest, costs, reachable', {top.pos})
  {
    PopKeepsOthers(frontier, top, rest);
    forall e | e in rest ensures e in frontier {
      assert e in multiset(rest);
    }
  }

  /** Adding the cell `t` to the cells looked at adds the cell `t` points back to. */
  lemma HasChildGrow(src: Coord, cameFrom: map<Coord, Coord>, within: set<Coord>, t: Coord, c: Coord)
    ensures HasChild(src, cameFrom, within + {t}, c) <==>
            HasChild(src, cameFrom, within, c) || (t != src && t in cameFrom && cameFrom[t] == c)
  {
    if HasChild(src, cameFrom, within + {t}, c) {
      var p :| p in within + {t} && p in cameFrom && p != src && cameFrom[p] == c;
      if p != t {
        assert p in within;
      }
    }
    if HasChild(src, cameFrom, within, c) {
      var p :| p in within && p in cameFrom && p != src && cameFrom[p] == c;
      assert p in within + {t};
    }
    if t != src && t in cameFrom && cameFrom[t] == c {
      assert t in within + {t};
    }
  }

  /** A backpointer recorded for a cell outside `within` does not change which cells of `within` are parents. */
  lemma HasChildOutside(src: Coord, cameFrom: map<Coord, Coord>, within: set<Coord>, n: Coord, v: Coord, c: Coord)
    requires n !in within
    ensures HasChild(src, cameFrom[n := v], within, c) == HasChild(src, cameFrom, within, c)
  {
    if HasChild(src, cameFrom, within, c) {
      var p :| p in within && p in cameFrom && p != src && cameFrom[p] == c;
      assert p in cameFrom[n := v] && cameFrom[n := v][p] == c;
    }
    if HasChild(src, cameFrom[n := v], within, c) {
      var p :| p in within && p in cameFrom[n := v] && p != src && cameFrom[n := v][p] == c;
      assert p in cameFrom && cameFrom[p] == c;
    }
  }

  /** Popping an entry leaves the other entries fresh, with its cell now reached. */
  lemma PopFresh(frontier: seq<DaState>, costs: map<Coord, nat>, reachable: set<Coord>,
                 top: DaState, rest: seq<DaState>)
    requires FreshFrontier(frontier, costs, reachable)
    requires top in frontier && multiset(rest) == multiset(frontier) - multiset{top}
    ensures top.pos in costs && top.pos !in reachable && top.dist == costs[top.pos]
    ensures FreshFrontier(rest, costs, reachable + {top.pos})
  {
    assert multiset(rest)[top] == 0;
    forall e | e in rest
      ensures e in frontier && e.pos != top.pos && multiset(rest)[e] == 1
    {
      assert e in multiset(rest);
    }
  }

  /** Popping the cheapest entry reaches a cell that costs at least as much as every reached cell. */
  lemma PopCheapest(frontier: seq<DaState>, costs: map<Coord, nat>, reachable: set<Coord>,
                    top: DaState, rest: seq<DaState>)
    requires CheapestFirst(frontier, costs, reachable)
    requires top in frontier && top.pos in costs && top.dist == costs[top.pos]
    requires multiset(rest) == multiset(frontier) - multiset{top}
    requires forall e :: e in frontier ==> top.dist <= e.dist
    ensures CheapestFirst(rest, costs, reachable + {top.pos})
    ensures LatestReached(costs, reachable + {top.pos}, top.pos)
  {
    forall e | e in rest ensures e in frontier {
      assert e in multiset(rest);
    }
  }

  /** Reaching `t` puts it on the boundary and takes the cell its backpointer names off. */
  lemma PopLeaves(src: Coord, cameFrom: map<Coord, Coord>, boundary: set<Coord>, reachable: set<Coord>, t: Coord)
    requires Leaves(src, cameFrom, boundary, reachable)
    requires t in cameFrom && t !in reachable && (t == src ==> cameFrom[t] == t)
    requires forall n :: n in cameFrom && n != src ==> cameFrom[n] in reachable
    ensures Leaves(src, cameFrom, boundary - {cameFrom[t]} + {t}, reachable + {t})
  {
    var boundary', reachable' := boundary - {cameFrom[t]} + {t}, reachable + {t};
    forall c | c in reachable'
      ensures c in boundary' <==> !HasChild(src, cameFrom, reachable', c)
    {
      HasChildGrow(src, cameFrom, reachable, t, c);
      if c == t {
        forall p | p in reachable && p in cameFrom && p != src ensures cameFrom[p] != t {
          assert cameFrom[p] in reachable;
        }
        assert t != src ==> cameFrom[t] in reachable;
      }
    }
  }

  /** Popping the cheapest entry keeps the search ordered. */
  lemma PopOrdered(b: Board, src: Coord, frontier: seq<DaState>,
                   cameFrom: map<Coord, Coord>, costs: map<Coord, nat>,
                   boundary: set<Coord>, reachable: set<Coord>, top: DaState, rest: seq<DaState>)
    requires b.Valid() && Rooted(src, cameFrom, costs) && cameFrom.Keys == costs.Keys
    requires Ordered(b, src, frontier, cameFrom, costs, boundary, reachable)
    requires top in frontier && multiset(rest) == multiset(frontier) - multiset{top}
    requires forall e :: e in frontier ==> top.dist <= e.dist
    ensures top.pos in cameFrom && top.pos !in reachable
    ensures var boundary' := boundary - {cameFrom[top.pos]} + {top.pos};
            var reachable' := reachable + {top.pos};
            && Ordered(b, src, rest, cameFrom, costs, boundary', reachable')
            && LatestReached(costs, reachable', top.pos)
  {
    PopFresh(frontier, costs, reachable, top, rest);
    PopCheapest(frontier, costs, reachable, top, rest);
    PopLeaves(src, cameFrom, boundary, reachable, top.pos);
  }

  /** Pushing an entry for a cell not yet recorded keeps the frontier fresh. */
  lemma RelaxFresh(frontier: seq<DaState>, costs: map<Coord, nat>, reachable: set<Coord>, n: Coord, v: nat)
    requires FreshFrontier(frontier, costs, reachable)
    requires n !in costs && reachable <= costs.Keys
    ensures FreshFrontier(frontier + [DaState(v, n)], costs[n := v], reachable)
  {
    var frontier' := frontier + [DaState(v, n)];
    forall e | e in frontier'
      ensures e.pos in costs[n := v] && e.pos !in reachable && e.dist == costs[n := v][e.pos]
      ensures multiset(frontier')[e] == 1
    {
      if e != DaState(v, n) {
        assert e in frontier;
      }
    }
  }

  /** Recording through the most recently reached cell keeps every reached cell cheapest. */
  lemma RelaxCheapest(frontier: seq<DaState>, costs: map<Coord, nat>, reachable: set<Coord>,
                      cur: Coord, n: Coord, v: nat)
    requires CheapestFirst(frontier, costs, reachable)
    requires n !in costs && LatestReached(costs, reachable, cur) && costs[cur] <= v
    ensures CheapestFirst(frontier + [DaState(v, n)], costs[n := v], reachable)
  {
  }

  /** Recording `n` through the reached cell `cur` gives it an exact backpointer. */
  lemma RelaxParents(b: Board, src: Coord, cameFrom: map<Coord, Coord>, costs: map<Coord, nat>,
                     reachable: set<Coord>, cur: Coord, n: Coord, v: nat)
    requires b.Valid() && cameFrom.Keys == costs.Keys && reachable <= costs.Keys
    requires ParentsReached(b, src, cameFrom, costs, reachable)
    requires cur in reachable && b.Step(cur, n) && v == costs[cur] + b.Enter(n) && n !in costs
    ensures ParentsReached(b, src, cameFrom[n := cur], costs[n := v], reachable)
  {
    var cameFrom', costs' := cameFrom[n := cur], costs[n := v];
    forall m | m in cameFrom' && m != src
      ensures cameFrom'[m] in reachable && ParentExact(b, cameFrom', costs', m)
    {
      if m != n {
        assert ParentExact(b, cameFrom, costs, m);
      }
    }
  }

  /** Recording a backpointer for a cell not yet reached leaves the boundary as it is. */
  lemma RelaxLeaves(src: Coord, cameFrom: map<Coord, Coord>, boundary: set<Coord>, reachable: set<Coord>,
                    n: Coord, cur: Coord)
    requires Leaves(src, cameFrom, boundary, reachable) && n !in reachable
    ensures Leaves(src, cameFrom[n := cur], boundary, reachable)
  {
    forall c | c in reachable
      ensures c in boundary <==> !HasChild(src, cameFrom[n := cur], reachable, c)
    {
      HasChildOutside(src, cameFrom, reachable, n, cur, c);
    }
  }

  /** A cell the search has not recorded yet is recorded through `cur` without disturbing the order. */
  lemma RelaxOrdered(b: Board, src: Coord, frontier: seq<DaState>,
                     cameFrom: map<Coord, Coord>, costs: map<Coord, nat>,
                     boundary: set<Coord>, reachable: set<Coord>, cur: Coord, n: Coord, v: nat)
    requires b.Valid() && cameFrom.Keys == costs.Keys
    requires Ordered(b, src, frontier, cameFrom, costs, boundary, reachable)
    requires LatestReached(costs, reachable, cur)
    requires b.Step(cur, n) && v == costs[cur] + b.Enter(n) && n !in costs
    ensures Ordered(b, src, frontier + [DaState(v, n)], cameFrom[n := cur], costs[n := v], boundary, reachable)
    ensures LatestReached(costs[n := v], reachable, cur)
  {
    RelaxFresh(frontier, costs, reachable, n, v);
    RelaxCheapest(frontier, costs, reachable, cur, n, v);
    RelaxParents(b, src, cameFrom, costs, reachable, cur, n, v);
    RelaxLeaves(src, cameFrom, boundary, reachable, n, cur);
  }

  /** In an ordered search, a move out of the most recently reached cell never lowers a recorded cost. */
  lemma NoLowering(b: Board, src: Coord, frontier: seq<DaState>,
                   cameFrom: map<Coord, Coord>, costs: map<Coord, nat>,
                   boundary: set<Coord>, reachable: set<Coord>, cur: Coord, n: Coord)
    requires b.Valid() && Rooted(src, cameFrom, costs)
    requires Ordered(b, src, frontier, cameFrom, costs, boundary, reachable)
    requires LatestReached(costs, reachable, cur)
    requires b.Step(cur, n) && n in cameFrom
    ensures n in costs && costs[n] <= costs[cur] + b.Enter(n)
  {
    if n != src {
      assert ParentExact(b, cameFrom, costs, n);
      assert cameFrom[n] in reachable;
    }
  }

  /** One iteration of the inner loop: the move from `cur` into `n` lowers the cost of `n` to `v`. */
  lemma RelaxStep(b: Board, src: Coord, maxDist: nat, frontier: seq<DaState>,
                  cameFrom: map<Coord, Coord>, costs: map<Coord, nat>,
                  boundary: set<Coord>, reachable: set<Coord>, cur: Coord, n: Coord, v: nat)
    requires b.Valid()
    requires Consistent(b, src, maxDist, frontier, cameFrom, costs, boundary, reachable)
    requires Settled(b, maxDist, frontier, costs, reachable, {cur})
    requires cur in costs && b.Step(cur, n) && v == costs[cur] + b.Enter(n)
    requires v <= maxDist && (n !in costs || v < costs[n])
    ensures Consistent(b, src, maxDist, frontier + [DaState(v, n)], cameFrom[n := cur], costs[n := v],
                       boundary, reachable)
    ensures Settled(b, maxDist, frontier + [DaState(v, n)], costs[n := v], reachable, {cur})
  {
    var costs', cameFrom', frontier' := costs[n := v], cameFrom[n := cur], frontier + [DaState(v, n)];
    forall p | p in costs' && p != cur
      ensures DaState(costs'[p], p) in frontier' || (p in reachable && Relaxed(b, maxDist, costs', p))
    {
      if p != n && DaState(costs[p], p) !in frontier {
        RelaxedAfterUpdate(b, maxDist, costs, n, v, p);
      }
    }
    forall m | m in cameFrom' && m != src ensures ParentBound(b, cameFrom', costs', m) {
      if m != n {
        assert ParentBound(b, cameFrom, costs, m);
      }
    }
  }

  /** The moves into the cells listed in `moves` are all relaxed. */
  ghost predicate EdgesRelaxed(b: Board, maxDist: nat, costs: map<Coord, nat>, cur: Coord,
                               moves: seq<(Coord, nat)>)
    requires b.Valid() && cur in costs
  {
    forall k :: 0 <= k < |moves| ==>
      IsPointValid(moves[k].0, b.maxW, b.maxH) && RelaxedEdge(b, maxDist, costs, cur, moves[k].0)
  }

  /** The same iteration seen from `cur`: the moves it has already relaxed stay relaxed, and so is this one. */
  lemma RelaxStepEdges(b: Board, maxDist: nat, costs: map<Coord, nat>, cur: Coord, n: Coord, v: nat,
                       moves: seq<(Coord, nat)>, j: nat)
    requires b.Valid()
    requires cur in costs && b.Step(cur, n) && v == costs[cur] + b.Enter(n)
    requires n !in costs || v < costs[n]
    requires j < |moves| && moves[j].0 == n
    requires EdgesRelaxed(b, maxDist, costs, cur, moves[..j])
    ensures n != cur && cur in costs[n := v] && costs[n := v][cur] == costs[cur]
    ensures EdgesRelaxed(b, maxDist, costs[n := v], cur, moves[..j + 1])
  {
    var done, done' := moves[..j], moves[..j + 1];
    forall k | 0 <= k < |done'|
      ensures IsPointValid(done'[k].0, b.maxW, b.maxH) && RelaxedEdge(b, maxDist, costs[n := v], cur, done'[k].0)
    {
      if k < |done| {
        assert done'[k] == done[k];
        assert RelaxedEdge(b, maxDist, costs, cur, done[k].0);
      }
    }
  }

  /** An iteration that changes nothing: the move from `cur` into `n` is over budget or no improvement. */
  lemma SkipStepEdges(b: Board, maxDist: nat, costs: map<Coord, nat>, cur: Coord, n: Coord, c: nat,
                      moves: seq<(Coord, nat)>, j: nat)
    requires b.Valid()
    requires cur in costs && b.Step(cur, n) && c == b.Enter(n)
    requires !(costs[cur] + c <= maxDist && (n !in costs || costs[cur] + c < costs[n]))
    requires j < |moves| && moves[j].0 == n
    requires EdgesRelaxed(b, maxDist, costs, cur, moves[..j])
    ensures EdgesRelaxed(b, maxDist, costs, cur, moves[..j + 1])
  {
    var done, done' := moves[..j], moves[..j + 1];
    forall k | 0 <= k < |done'|
      ensures IsPointValid(done'[k].0, b.maxW, b.maxH) && RelaxedEdge(b, maxDist, costs, cur, done'[k].0)
    {
      if k < |done| {
        assert done'[k] == done[k];
      }
    }
  }

  /** After the inner loop has relaxed every legal move out of `cur`, all recorded cells are settled. */
  lemma FinishExpansion(b: Board, maxDist: nat, frontier: seq<DaState>, costs: map<Coord, nat>,
                        reachable: set<Coord>, cur: Coord, moves: seq<(Coord, nat)>)
    requires b.Valid()
    requires Settled(b, maxDist, frontier, costs, reachable, {cur})
    requires cur in costs && cur in reachable
    requires forall q :: b.Step(cur, q) ==> q in Coords(moves)
    requires forall k :: 0 <= k < |moves| ==> IsPointValid(moves[k].0, b.maxW, b.maxH)
    requires EdgesRelaxed(b, maxDist, costs, cur, moves)
    ensures Settled(b, maxDist, frontier, costs, reachable, {})
  {
    forall q | b.Step(cur, q) ensures RelaxedEdge(b, maxDist, costs, cur, q) {
      var k :| 0 <= k < |moves| && moves[k].0 == q;
      assert RelaxedEdge(b, maxDist, costs, cur, moves[k].0);
    }
  }

  /** When the frontier is empty, the invariants give the results' guarantees. */
  lemma Finish(b: Board, src: Coord, maxDist: nat,
               cameFrom: map<Coord, Coord>, costs: map<Coord, nat>,
               boundary: set<Coord>, reachable: set<Coord>)
    requires b.Valid()
    requires Consistent(b, src, maxDist, [], cameFrom, costs, boundary, reachable)
    requires Settled(b, maxDist, [], costs, reachable, {})
    requires Ordered(b, src, [], cameFrom, costs, boundary, reachable)
    ensures Explored(b, src, maxDist, cameFrom, costs, boundary, reachable)
  {
    forall n | n in cameFrom && n != src ensures ParentExact(b, cameFrom, costs, n) {
      assert ParentBound(b, cameFrom, costs, n);
      assert Relaxed(b, maxDist, costs, cameFrom[n]);
      assert RelaxedEdge(b, maxDist, costs, cameFrom[n], n);
    }
  }

  /**
   * The inner loop of compute_path_costs: every legal move out of the popped
   * cell `cur` that fits the budget and lowers (or first sets) the cost of its
   * target records the new cost and backpointer and pushes a frontier entry.
   */
  method RelaxMoves(ghost b: Board, ghost src: Coord, maxDist: nat, cur: Coord, neighbors: seq<(Coord, nat)>,
                    frontier: seq<DaState>, cameFrom: map<Coord, Coord>, costs: map<Coord, nat>,
                    ghost boundary: set<Coord>, ghost reachable: set<Coord>)
    returns (frontier': seq<DaState>, cameFrom': map<Coord, Coord>, costs': map<Coord, nat>)
    requires b.Valid()
    requires Consistent(b, src, maxDist, frontier, cameFrom, costs, boundary, reachable)
    requires Settled(b, maxDist, frontier, costs, reachable, {cur})
    requires Ordered(b, src, frontier, cameFrom, costs, boundary, reachable)
    requires cur in costs && LatestReached(costs, reachable, cur)
    requires forall k :: 0 <= k < |neighbors| ==>
               b.Step(cur, neighbors[k].0) && neighbors[k].1 == b.Enter(neighbors[k].0)
    requires forall q :: b.Step(cur, q) ==> q in Coords(neighbors)
    ensures Consistent(b, src, maxDist, frontier', cameFrom', costs', boundary, reachable)
    ensures Settled(b, maxDist, frontier', costs', reachable, {})
    ensures Ordered(b, src, frontier', cameFrom', costs', boundary, reachable)
    ensures Tokens(costs', b.maxW, b.maxH, maxDist) < Tokens(costs, b.maxW, b.maxH, maxDist)
            || (Tokens(costs', b.maxW, b.maxH, maxDist) == Tokens(costs, b.maxW, b.maxH, maxDist)
                && frontier' == frontier)
  {
    frontier', cameFrom', costs' := frontier, cameFrom, costs;
    for j := 0 to |neighbors|
      invariant cur in costs' && costs'[cur] == costs[cur]
      invariant EdgesRelaxed(b, maxDist, costs', cur, neighbors[..j])
      invariant Consistent(b, src, maxDist, frontier', cameFrom', costs', boundary, reachable)
      invariant Settled(b, maxDist, frontier', costs', reachable, {cur})
      invariant Ordered(b, src, frontier', cameFrom', costs', boundary, reachable)
      invariant LatestReached(costs', reachable, cur)
      invariant Tokens(costs', b.maxW, b.maxH, maxDist) < Tokens(costs, b.maxW, b.maxH, maxDist)
                || (Tokens(costs', b.maxW, b.maxH, maxDist) == Tokens(costs, b.maxW, b.maxH, maxDist)
                    && frontier' == frontier)
    {
      var (neighbor, stepCost) := neighbors[j];
      var newCost := costs'[cur] + stepCost;
      if neighbor in cameFrom' {
        NoLowering(b, src, frontier', cameFrom', costs', boundary, reachable, cur, neighbor);
      }
      if newCost <= maxDist && (neighbor !in costs' || newCost < costs'[neighbor]) {
        RelaxStep(b, src, maxDist, frontier', cameFrom', costs', boundary, reachable, cur, neighbor, newCost);
        RelaxOrdered(b, src, frontier', cameFrom', costs', boundary, reachable, cur, neighbor, newCost);
        RelaxStepEdges(b, maxDist, costs', cur, neighbor, newCost, neighbors, j);
        TokensShrink(costs', neighbor, newCost, b.maxW, b.maxH, maxDist);
        costs' := costs'[neighbor := newCost];
        frontier' := frontier' + [DaState(newCost, neighbor)];
        cameFrom' := cameFrom'[neighbor := cur];
      } else {
        SkipStepEdges(b, maxDist, costs', cur, neighbor, stepCost, neighbors, j);
      }
    }
    assert neighbors[..|neighbors|] == neighbors;
    FinishExpansion(b, maxDist, frontier', costs', reachable, cur, neighbors);
  }

  /**
   * compute_path_costs. The frontier is not filtered for stale entries: a cell
   * is expanded, with its currently recorded cost, every time one of its
   * entries is popped. Because the cost of a move depends only on the cell
   * entered, `Ordered` shows that no stale entry ever arises: each cell is
   * pushed once, popped once, and only after its backpointer.
   */
  method ComputePathCosts(src: Coord, terrain: seq<seq<Terrains.Terrain>>, maxW: nat, maxH: nat,
                          maxDist: nat, cost: Terrains.Terrain -> nat)
    returns (cameFrom: map<Coord, Coord>, costs: map<Coord, nat>,
             boundary: set<Coord>, reachable: set<Coord>)
    requires Covers(terrain, maxW, maxH)
    ensures Explored(Board(terrain, maxW, maxH, cost), src, maxDist, cameFrom, costs, boundary, reachable)
  {
    ghost var b := Board(terrain, maxW, maxH, cost);
    var frontier := [DaState(0, src)];
    cameFrom := map[src := src];
    costs := map[src := 0];
    boundary, reachable := {}, {};

    while frontier != []
      invariant Consistent(b, src, maxDist, frontier, cameFrom, costs, boundary, reachable)
      invariant Settled(b, maxDist, frontier, costs, reachable, {})
      invariant Ordered(b, src, frontier, cameFrom, costs, boundary, reachable)
      decreases Tokens(costs, maxW, maxH, maxDist), |frontier|
    {
      var (current, rest) := Pop(frontier);
      PopStep(b, src, maxDist, frontier, cameFrom, costs, boundary, reachable, current, rest);
      PopOrdered(b, src, frontier, cameFrom, costs, boundary, reachable, current, rest);
      frontier := rest;
      var cur := current.pos;
      boundary := boundary - {cameFrom[cur]};
      boundary := boundary + {cur};
      reachable := reachable + {cur};
      var neighbors := NeighborCosts(cur, terrain, maxW, maxH, cost);
      frontier, cameFrom, costs :=
        RelaxMoves(b, src, maxDist, cur, neighbors, frontier, cameFrom, costs, boundary, reachable);
    }
    Finish(b, src, maxDist, cameFrom, costs, boundary, reachable);
  }
}
