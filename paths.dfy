/**
 * Path services of src/pathfinding.rs: reading a path out of the backpointer
 * map (get_path) and tagging the outward sides of boundary cells
 * (find_boundary_neighbor_directions).
 */
module PathServices {
  import opened Grid

  // ---------------------------------------------------------------------------
  // get_path

  /** The walk along backpointers stops at `c`: it is not a key, or it points to itself. */
  predicate Stopped(paths: map<Coord, Coord>, c: Coord) {
    c !in paths || paths[c] == c
  }

  /**
   * `rank` strictly decreases along every backpointer that leads from a key to
   * a different key; this is what makes the walk in `GetPath` finite.
   */
  ghost predicate RankedBy(paths: map<Coord, Coord>, rank: map<Coord, nat>) {
    && paths.Keys <= rank.Keys
    && forall n :: n in paths && paths[n] != n && paths[n] in paths ==> rank[paths[n]] < rank[n]
  }

  /**
   * `path` is a backpointer chain read forwards: it starts where the walk
   * stops, and every later cell is a key whose backpointer is its predecessor.
   */
  ghost predicate BackChain(paths: map<Coord, Coord>, path: seq<Coord>) {
    && |path| >= 2
    && Stopped(paths, path[0])
    && forall i :: 1 <= i < |path| ==> path[i] in paths && paths[path[i]] == path[i - 1] && path[i] != path[i - 1]
  }

  /** The sequence in reverse order (Vec::reverse). */
  function Reversed(s: seq<Coord>): (r: seq<Coord>)
    ensures |r| == |s|
    ensures forall i :: 0 <= i < |s| ==> r[i] == s[|s| - 1 - i]
  {
    if s == [] then [] else Reversed(s[1..]) + [s[0]]
  }

  /**
   * get_path: the cells from where the backpointer walk from `dest` stops up to
   * `dest`; `[dest]` when `dest` points to itself; empty when `dest` is no key.
   */
  method GetPath(dest: Coord, paths: map<Coord, Coord>, ghost rank: map<Coord, nat>) returns (path: seq<Coord>)
    requires RankedBy(paths, rank)
    ensures dest !in paths ==> path == []
    ensures dest in paths && paths[dest] == dest ==> path == [dest]
    ensures dest in paths && paths[dest] != dest ==> BackChain(paths, path) && path[|path| - 1] == dest
  {
    if dest in paths && paths[dest] == dest {
      return [dest];
    }
    var walked: seq<Coord> := [];
    var cur := dest;
    while cur in paths && paths[cur] != cur
      invariant forall k :: 0 <= k < |walked| ==> walked[k] in paths && paths[walked[k]] != walked[k]
      invariant walked == [] ==> cur == dest
      invariant walked != [] ==> walked[0] == dest && cur == paths[walked[|walked| - 1]]
      invariant forall k :: 0 <= k < |walked| - 1 ==> walked[k + 1] == paths[walked[k]]
      decreases if cur in paths then rank[cur] + 1 else 0
    {
      walked := walked + [cur];
      cur := paths[cur];
    }
    if |walked| > 0 {
      walked := walked + [cur];
    }
    path := Reversed(walked);
  }

  /** A backpointer chain is determined by its last cell. */
  lemma {:induction false} BackChainUnique(paths: map<Coord, Coord>, p1: seq<Coord>, p2: seq<Coord>)
    requires BackChain(paths, p1) && BackChain(paths, p2)
    requires p1[|p1| - 1] == p2[|p2| - 1]
    ensures p1 == p2
    decreases |p1|
  {
    var n1, n2 := |p1|, |p2|;
    assert p1[n1 - 2] == paths[p1[n1 - 1]] == p2[n2 - 2];
    // A stopped cell cannot be followed by further backpointers.
    if n1 > 2 {
      assert p1[n1 - 2] in paths && paths[p1[n1 - 2]] == p1[n1 - 3] != p1[n1 - 2];
    }
    if n2 > 2 {
      assert p2[n2 - 2] in paths && paths[p2[n2 - 2]] == p2[n2 - 3] != p2[n2 - 2];
    }
    if n1 == 2 || n2 == 2 {
      assert n1 == n2;
      assert p1[0] == p2[0];
    } else {
      BackChainUnique(paths, p1[..n1 - 1], p2[..n2 - 1]);
      assert p1 == p1[..n1 - 1] + [p1[n1 - 1]];
      assert p2 == p2[..n2 - 1] + [p2[n2 - 1]];
    }
  }

  /**
   * The scenarios of the unit tests of get_path, on the backpointer map
   * (2, 1) -> (1, 1) -> (0, 0) -> (0, 0): the contract alone determines each result.
   */
  method GetPathScenarios() returns (p0: seq<Coord>, p1: seq<Coord>, p2: seq<Coord>)
    ensures p0 == [Coord(0, 0)]
    ensures p1 == [Coord(0, 0), Coord(1, 1)]
    ensures p2 == [Coord(0, 0), Coord(1, 1), Coord(2, 1)]
  {
    var paths := map[Coord(2, 1) := Coord(1, 1), Coord(1, 1) := Coord(0, 0), Coord(0, 0) := Coord(0, 0)];
    ghost var rank := map[Coord(2, 1) := 2, Coord(1, 1) := 1, Coord(0, 0) := 0];
    p0 := GetPath(Coord(0, 0), paths, rank);
    p1 := GetPath(Coord(1, 1), paths, rank);
    assert BackChain(paths, [Coord(0, 0), Coord(1, 1)]);
    BackChainUnique(paths, p1, [Coord(0, 0), Coord(1, 1)]);
    p2 := GetPath(Coord(2, 1), paths, rank);
    assert BackChain(paths, [Coord(0, 0), Coord(1, 1), Coord(2, 1)]);
    BackChainUnique(paths, p2, [Coord(0, 0), Coord(1, 1), Coord(2, 1)]);
  }

  // ---------------------------------------------------------------------------
  // find_boundary_neighbor_directions

  /** The neighbour of `c` on side `d` is inside the grid and reachable. */
  predicate FacesReachable(c: Coord, d: Direction, reachable: set<Coord>, maxW: nat, maxH: nat) {
    var q := Neighbor(c, d);
    q.Some? && IsPointValid(q.value, maxW, maxH) && q.value in reachable
  }

  /** Directions listed in N, S, E, W order, each at most once. */
  predicate InSideOrder(dirs: seq<Direction>) {
    forall i, j :: 0 <= i < j < |dirs| ==> SideRank(dirs[i]) < SideRank(dirs[j])
  }

  /** `dirs` lists, in N, S, E, W order, exactly the sides of `c` that do not face a reachable cell. */
  predicate IsOpenSides(c: Coord, dirs: seq<Direction>, reachable: set<Coord>, maxW: nat, maxH: nat) {
    && InSideOrder(dirs)
    && forall d :: d in dirs <==> !FacesReachable(c, d, reachable, maxW, maxH)
  }

  /** Vec::remove_item: drops the first occurrence of `d`, if any. */
  function RemoveItem(dirs: seq<Direction>, d: Direction): (r: seq<Direction>)
    ensures multiset(r) == multiset(dirs) - multiset{d}
  {
    if dirs == [] then []
    else
      assert dirs == [dirs[0]] + dirs[1..];
      if dirs[0] == d then dirs[1..]
      else
        var tail := RemoveItem(dirs[1..], d);
        [dirs[0]] + tail
  }

  /** On a list without repetitions, RemoveItem removes `d` entirely and keeps the order of the rest. */
  lemma {:induction false} RemoveItemInOrder(dirs: seq<Direction>, d: Direction)
    requires InSideOrder(dirs)
    ensures InSideOrder(RemoveItem(dirs, d))
    ensures forall x :: x in RemoveItem(dirs, d) <==> x in dirs && x != d
  {
    if dirs != [] {
      InOrderSplit(dirs);
      if dirs[0] != d {
        RemoveItemInOrder(dirs[1..], d);
        InOrderCons(dirs[0], RemoveItem(dirs[1..], d));
      }
    }
  }

  /** Splitting an ordered list into its head and tail. */
  lemma InOrderSplit(dirs: seq<Direction>)
    requires InSideOrder(dirs) && dirs != []
    ensures dirs == [dirs[0]] + dirs[1..]
    ensures InSideOrder(dirs[1..])
    ensures forall x :: x in dirs[1..] ==> SideRank(dirs[0]) < SideRank(x)
  {
    assert dirs == [dirs[0]] + dirs[1..];
    forall x | x in dirs[1..] ensures SideRank(dirs[0]) < SideRank(x) {
      var k :| 0 <= k < |dirs[1..]| && dirs[1..][k] == x;
      assert dirs[k + 1] == x;
    }
  }

  /** Putting a head of lower rank in front of an ordered list. */
  lemma InOrderCons(h: Direction, tail: seq<Direction>)
    requires InSideOrder(tail)
    requires forall x :: x in tail ==> SideRank(h) < SideRank(x)
    ensures InSideOrder([h] + tail)
  {
    var r := [h] + tail;
    forall i, j | 0 <= i < j < |r| ensures SideRank(r[i]) < SideRank(r[j]) {
      assert r[j] == tail[j - 1];
      assert r[j] in tail;
      if i > 0 {
        assert r[i] == tail[i - 1];
      }
    }
  }

  /** The body of the closure in find_boundary_neighbor_directions, for one boundary cell. */
  method OpenSides(c: Coord, reachable: set<Coord>, maxW: nat, maxH: nat) returns (dirs: seq<Direction>)
    ensures IsOpenSides(c, dirs, reachable, maxW, maxH)
  {
    dirs := [N, S, E, W];
    assert forall d :: d in dirs by {
      forall d ensures d in dirs {
        match d
        case N => assert dirs[0] == N;
        case S => assert dirs[1] == S;
        case E => assert dirs[2] == E;
        case W => assert dirs[3] == W;
      }
    }
    var neighbors := ValidNeighborCoords(c, maxW, maxH);
    for k := 0 to |neighbors|
      invariant InSideOrder(dirs)
      invariant forall d :: d in dirs <==>
                  forall j :: 0 <= j < k && neighbors[j] in reachable ==> RelativeAdjDir(c, neighbors[j]) != d
    {
      if neighbors[k] in reachable {
        RemoveItemInOrder(dirs, RelativeAdjDir(c, neighbors[k]));
        dirs := RemoveItem(dirs, RelativeAdjDir(c, neighbors[k]));
      }
    }
    forall d ensures d in dirs <==> !FacesReachable(c, d, reachable, maxW, maxH) {
      if FacesReachable(c, d, reachable, maxW, maxH) {
        var q := Neighbor(c, d).value;
        RelativeAdjDirInverse(c, d);
        var j :| 0 <= j < |neighbors| && neighbors[j] == q;
      }
    }
  }

  /**
   * find_boundary_neighbor_directions: one entry per boundary cell, pairing it
   * with its open sides. The cells are visited in an unspecified order, as a
   * hash set is.
   */
  method FindBoundaryNeighborDirections(boundary: set<Coord>, reachable: set<Coord>, maxW: nat, maxH: nat)
    returns (r: seq<(Coord, seq<Direction>)>)
    ensures |r| == |boundary|
    ensures forall k :: 0 <= k < |r| ==> r[k].0 in boundary && IsOpenSides(r[k].0, r[k].1, reachable, maxW, maxH)
    ensures forall c :: c in boundary ==> exists k :: 0 <= k < |r| && r[k].0 == c
    ensures forall i, j :: 0 <= i < j < |r| ==> r[i].0 != r[j].0
  {
    r := [];
    var remaining := boundary;
    while remaining != {}
      invariant remaining <= boundary
      invariant |r| + |remaining| == |boundary|
      invariant forall k :: 0 <= k < |r| ==> r[k].0 in boundary - remaining
                                              && IsOpenSides(r[k].0, r[k].1, reachable, maxW, maxH)
      invariant forall c :: c in boundary - remaining ==> exists k :: 0 <= k < |r| && r[k].0 == c
      invariant forall i, j :: 0 <= i < j < |r| ==> r[i].0 != r[j].0
      decreases remaining
    {
      var c :| c in remaining;
      var dirs := OpenSides(c, reachable, maxW, maxH);
      ghost var r0, rem0 := r, remaining;
      r := r + [(c, dirs)];
      remaining := remaining - {c};
      forall c' | c' in boundary - remaining ensures exists k :: 0 <= k < |r| && r[k].0 == c' {
        if c' == c {
          assert r[|r| - 1].0 == c';
        } else {
          assert c' in boundary - rem0;
          var k :| 0 <= k < |r0| && r0[k].0 == c';
          assert r[k].0 == c';
        }
      }
    }
    assert boundary - remaining == boundary;
  }
}
