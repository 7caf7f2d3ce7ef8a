/**
 * The grid geometry of `wgen::Dimension`: an 800 x 800 row-major grid whose
 * generation work is split into an 8 x 8 arrangement of equal tiles.
 */
module Tiling {

  const GridWidth: nat := 800
  const GridHeight: nat := 800

  /** Number of tiles along each axis. */
  const TilesPerAxis: nat := 8
  const TileCount: nat := 64

  /** Tile extent: `dx = width / 8`, `dy = height / 8` (see TileSize). */
  const Dx: nat := 100
  const Dy: nat := 100

  /** The tile extents divide the grid exactly: 800 is a multiple of 8. */
  lemma TileSize()
    ensures GridWidth % TilesPerAxis == 0 && GridHeight % TilesPerAxis == 0
    ensures Dx == GridWidth / TilesPerAxis && Dy == GridHeight / TilesPerAxis
    ensures TileCount == TilesPerAxis * TilesPerAxis
    ensures Dx * TilesPerAxis == GridWidth && Dy * TilesPerAxis == GridHeight
  {
  }

  /** Storage slot of an in-range cell, row-major: `x + y * width`. */
  function Idx(x: nat, y: nat): nat
  {
    x + y * GridWidth
  }

  /**
   * Origin of the k-th tile the generation loops launch: the outer loop steps
   * `y` by `dy`, the inner loop steps `x` by `dx`.
   */
  function Origin(k: nat): (nat, nat)
    requires k < TileCount
  {
    ((k % TilesPerAxis) * Dx, (k / TilesPerAxis) * Dy)
  }

  /** All tile origins, in launch order. */
  function Origins(): (o: seq<(nat, nat)>)
    ensures |o| == TileCount
    ensures forall i, j :: 0 <= i < j < |o| ==> o[i] != o[j]
  {
    seq(TileCount, k requires 0 <= k < TileCount => Origin(k))
  }

  /** Cell (n, m) lies in the rectangle [ox, ox+dx) x [oy, oy+dy). */
  predicate InTile(o: (nat, nat), n: int, m: int)
  {
    o.0 <= n < o.0 + Dx && o.1 <= m < o.1 + Dy
  }

  /** The tile a cell belongs to, by its position in launch order. */
  function TileOf(n: nat, m: nat): nat
  {
    (m / Dy) * TilesPerAxis + n / Dx
  }

  /**
   * The launch loops produce exactly 64 tiles; every origin is a multiple of
   * dx and dy and its whole rectangle fits inside the grid.
   */
  lemma OriginsShape()
    ensures |Origins()| == 64
    ensures forall k :: 0 <= k < |Origins()| ==>
      Origins()[k].0 % Dx == 0 && Origins()[k].1 % Dy == 0 &&
      Origins()[k].0 + Dx <= GridWidth && Origins()[k].1 + Dy <= GridHeight
  {
  }

  /** Every in-range cell lies in its own tile (the tiles cover the grid). */
  lemma Cover(n: nat, m: nat)
    requires n < GridWidth && m < GridHeight
    ensures TileOf(n, m) < TileCount && InTile(Origin(TileOf(n, m)), n, m)
  {
  }

  /** A cell lies in no tile but its own (no two tiles overlap). */
  lemma Unique(k: nat, n: nat, m: nat)
    requires k < TileCount && InTile(Origin(k), n, m)
    ensures k == TileOf(n, m)
  {
  }

  /** Distinct tiles are disjoint rectangles. */
  lemma Disjoint(k1: nat, k2: nat, n: nat, m: nat)
    requires k1 < TileCount && k2 < TileCount && k1 != k2
    ensures !(InTile(Origin(k1), n, m) && InTile(Origin(k2), n, m))
  {
    if InTile(Origin(k1), n, m) && InTile(Origin(k2), n, m) {
      Unique(k1, n, m);
      Unique(k2, n, m);
    }
  }

  /**
   * Every write a tile makes, at `m * width + n`, stays below width * height,
   * and distinct cells of the grid are written at distinct slots.
   */
  lemma WritesInBounds(k: nat, n: nat, m: nat)
    requires k < TileCount && InTile(Origin(k), n, m)
    ensures n < GridWidth && m < GridHeight && Idx(n, m) < GridWidth * GridHeight
  {
  }

  /** Row-major storage is a bijection between in-range cells and slots. */
  lemma IdxBijective(i: nat, n: nat, m: nat, n': nat, m': nat)
    requires n < GridWidth && m < GridHeight && n' < GridWidth && m' < GridHeight
    ensures Idx(n, m) < GridWidth * GridHeight
    ensures Idx(n, m) == Idx(n', m') <==> n == n' && m == m'
    ensures i < GridWidth * GridHeight ==> i % GridWidth < GridWidth && i / GridWidth < GridHeight && Idx(i % GridWidth, i / GridWidth) == i
  {
  }
}
