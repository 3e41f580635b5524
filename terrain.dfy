/** The tile kinds of the map and what it costs to enter one (src/terrain.rs). */
module Terrains {

  /** One tile kind per grid cell. `None` is plain ground without a feature. */
  datatype Terrain = Wall | Sand | None

  /**
   * The movement cost of entering a tile. Every kind currently costs one
   * unit; what the engine relies on is only that the cost is positive.
   */
  function Cost(t: Terrain): (c: nat)
    ensures c >= 1
  {
    1
  }
}
