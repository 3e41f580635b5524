/**
 * The search frontier of the engine (src/pathfinding.rs): entries `DaState`
 * ordered so that a max-heap yields the cheapest entry first, and the heap
 * itself, modelled as the sequence of its entries.
 */
module Frontier {
  import opened Grid

  /** The result of a three-way comparison (Rust's `Ordering`). */
  datatype Ordering = Less | Equal | Greater

  /** The comparison seen from the other side. */
  function Flip(o: Ordering): Ordering {
    match o
    case Less => Greater
    case Equal => Equal
    case Greater => Less
  }

  /** A frontier entry: an accumulated cost and the cell it reaches. */
  datatype DaState = DaState(dist: nat, pos: Coord)

  /** Three-way comparison of integers. */
  function CmpInt(a: int, b: int): Ordering {
    if a < b then Less else if a == b then Equal else Greater
  }

  /** Lexicographic comparison of cells on `(x, y)`, as for Rust tuples. */
  function CmpCoord(a: Coord, b: Coord): Ordering {
    if a.x != b.x then CmpInt(a.x, b.x) else CmpInt(a.y, b.y)
  }

  /**
   * `DaState::cmp`: the comparison of the costs is reversed, so that a smaller
   * cost compares greater; equal costs fall back to comparing the cells.
   */
  function Cmp(self: DaState, other: DaState): (o: Ordering)
    ensures self.dist < other.dist ==> o == Greater
    ensures self.dist > other.dist ==> o == Less
    ensures self.dist == other.dist ==> o == CmpCoord(self.pos, other.pos)
  {
    var byDist := CmpInt(other.dist, self.dist);
    if byDist != Equal then byDist else CmpCoord(self.pos, other.pos)
  }

  /** The comparison is antisymmetric. */
  lemma CmpFlip(a: DaState, b: DaState)
    ensures Cmp(a, b) == Flip(Cmp(b, a))
  {
  }

  /** Only identical entries compare equal, so the order is total on entries. */
  lemma CmpEqualIff(a: DaState, b: DaState)
    ensures Cmp(a, b) == Equal <==> a == b
  {
  }

  /** The comparison is transitive. */
  lemma CmpTransitive(a: DaState, b: DaState, c: DaState)
    requires Cmp(a, b) == Greater && Cmp(b, c) == Greater
    ensures Cmp(a, c) == Greater
  {
  }

  /** The index of the greatest entry of a non-empty heap. */
  function MaxIndex(h: seq<DaState>): (i: nat)
    requires |h| > 0
    ensures i < |h|
    ensures forall j :: 0 <= j < |h| ==> Cmp(h[j], h[i]) != Greater
  {
    if |h| == 1 then 0
    else
      var k := MaxIndex(h[1..]) + 1;
      assert forall j :: 1 <= j < |h| ==> h[j] == h[1..][j - 1];
      if Cmp(h[0], h[k]) == Greater then
        assert forall j :: 0 <= j < |h| ==> Cmp(h[j], h[0]) != Greater by {
          forall j | 0 <= j < |h| && Cmp(h[j], h[0]) == Greater ensures false {
            CmpTransitive(h[j], h[0], h[k]);
          }
        }
        0
      else
        k
  }

  /**
   * `BinaryHeap::pop` on a non-empty heap: the greatest entry under `Cmp`, that
   * is the one with the least cost (the greatest cell among equal costs), and
   * the heap without it.
   */
  function Pop(h: seq<DaState>): (r: (DaState, seq<DaState>))
    requires |h| > 0
    ensures r.0 in h
    ensures forall e :: e in h ==> Cmp(e, r.0) != Greater
    ensures forall e :: e in h ==> r.0.dist <= e.dist
    ensures multiset(r.1) == multiset(h) - multiset{r.0}
    ensures |r.1| == |h| - 1
  {
    var i := MaxIndex(h);
    assert h == h[..i] + [h[i]] + h[i + 1..];
    (h[i], h[..i] + h[i + 1..])
  }
}
