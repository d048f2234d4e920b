/**
 * The tile domain of the terrain generator: the closed set of tile kinds and
 * the fixed table saying which kinds may sit next to which.
 */
module Tiles {

  datatype Tile = River | Wasteland | Farmland

  /**
   * The kinds allowed next to a cell of kind `t`, in the order the table lists
   * them. Every kind tolerates itself and Wasteland; River and Farmland never
   * tolerate each other; Wasteland tolerates every kind.
   */
  function ValidNeighbours(t: Tile): (r: seq<Tile>)
    ensures t in r && Wasteland in r
    ensures t == River ==> Farmland !in r
    ensures t == Farmland ==> River !in r
    ensures t == Wasteland ==> River in r && Farmland in r
  {
    match t
    case River => [River, Wasteland]
    case Wasteland => [River, Wasteland, Farmland]
    case Farmland => [Farmland, Wasteland]
  }

  /** `b` may be placed next to `a`. */
  predicate Compatible(a: Tile, b: Tile) {
    b in ValidNeighbours(a)
  }

  /** The table is symmetric: `a` tolerates `b` exactly when `b` tolerates `a`. */
  lemma CompatibleSymmetric(a: Tile, b: Tile)
    ensures Compatible(a, b) <==> Compatible(b, a)
  {
    match a
    case River =>
    case Wasteland =>
    case Farmland =>
  }

  /** Exactly one pair of distinct kinds is forbidden: River next to Farmland. */
  lemma IncompatibleIffRiverFarmland(a: Tile, b: Tile)
    ensures !Compatible(a, b) <==> (a == River && b == Farmland) || (a == Farmland && b == River)
  {
    match a
    case River =>
    case Wasteland =>
    case Farmland =>
  }
}
