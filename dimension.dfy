/**
 * `wgen::Cell`, `wgen::Mode` and the grid container `wgen::Dimension<T>`:
 * a fixed 800 x 800 row-major array that is filled tile by tile and
 * rasterised into an RGBA byte buffer.
 */
module Wgen {
  import opened Tiling
  import Pixels

  /** One grid point: two independent scalar attributes. */
  datatype Cell = Cell(height: real, humidity: real)

  /** The display modes the shell cycles through. */
  datatype Mode = Height | Round | Humidity | All

  /** Position of a mode in the declaration of `enum class Mode`. */
  function ModeIndex(m: Mode): (i: nat)
    ensures i < 4
  {
    match m
    case Height => 0
    case Round => 1
    case Humidity => 2
    case All => 3
  }

  /** `std::size_t` arithmetic is modulo 2^64 (a 64-bit `std::size_t`). */
  const SizeMod: int := 0x1_0000_0000_0000_0000

  type Size = n: int | 0 <= n < SizeMod

  /** The outcome of `std::array::at`: the element, or `std::out_of_range`. */
  datatype Access<T> = Ok(value: T) | OutOfRange

  /**
   * The slot `operator[]` hands to `std::array::at` for the pair (x, y):
   * `x + y * width`, computed in `std::size_t`.
   */
  function FlatIndex(x: Size, y: Size): (i: Size)
    ensures x + y * GridWidth < SizeMod ==> i == x + y * GridWidth
    ensures (x + y * GridWidth - i) % SizeMod == 0
  {
    (x + y * GridWidth) % SizeMod
  }

  /** For in-range coordinates no wrap-around happens: the slot is `Idx(x, y)`. */
  lemma FlatIndexInRange(x: Size, y: Size)
    requires x < GridWidth && y < GridHeight
    ensures FlatIndex(x, y) == Idx(x, y) < GridWidth * GridHeight
  {
  }

  /**
   * Only the flat slot is checked, so the column just past the right edge is
   * the first column of the next row: `(800, y)` reads `(0, y + 1)`.
   */
  lemma RightEdgeAliasesNextRow(y: Size)
    requires y + 1 < GridHeight
    ensures FlatIndex(GridWidth, y) == FlatIndex(0, y + 1) == Idx(0, y + 1) < GridWidth * GridHeight
  {
  }

  /** Row 2^59 wraps around in `std::size_t` arithmetic onto row 0. */
  lemma HugeRowWrapsToFirstRow(x: Size)
    requires x < GridWidth
    ensures FlatIndex(x, 0x800_0000_0000_0000) == FlatIndex(x, 0) == Idx(x, 0)
  {
    assert 0x800_0000_0000_0000 * GridWidth == 25 * SizeMod;
  }

  /**
   * A row-major grid that holds g(x, y) at every in-range cell holds
   * g(i % width, i / width) at every slot i: no slot is left out.
   */
  lemma EveryCellEveryIndex<T>(cells: seq<T>, g: (nat, nat) -> T)
    requires |cells| == GridWidth * GridHeight
    requires forall x, y :: 0 <= x < GridWidth && 0 <= y < GridHeight ==> cells[Idx(x, y)] == g(x, y)
    ensures forall i :: 0 <= i < |cells| ==> cells[i] == g(i % GridWidth, i / GridWidth)
  {
    forall i | 0 <= i < |cells|
      ensures cells[i] == g(i % GridWidth, i / GridWidth)
    {
      var n, m := i % GridWidth, i / GridWidth;
      IdxBijective(i, n, m, n, m);
    }
  }

  class Dimension<T> {
    /** `std::array<T, width * height> data`, row-major. */
    var data: array<T>

    ghost predicate Valid()
      reads this
    {
      data.Length == GridWidth * GridHeight
    }

    /** The stored cells, in storage order. */
    ghost function Cells(): seq<T>
      reads this, data
    {
      data[..]
    }

    /** A grid whose every cell holds `init` (C++ value-initialisation gives zero cells). */
    constructor (init: T)
      ensures Valid() && fresh(data)
      ensures forall i :: 0 <= i < data.Length ==> data[i] == init
    {
      data := new T[GridWidth * GridHeight](_ => init);
    }

    /**
     * `operator[]` read: `data.at(x + y * width)`. It fails exactly when the
     * flat slot is past the end; there is no check per axis.
     */
    method Get(x: Size, y: Size) returns (r: Access<T>)
      requires Valid()
      ensures r.OutOfRange? <==> FlatIndex(x, y) >= GridWidth * GridHeight
      ensures r.Ok? ==> r.value == data[FlatIndex(x, y)]
    {
      var i := (x + y * GridWidth) % SizeMod;
      if i < data.Length {
        r := Ok(data[i]);
      } else {
        r := OutOfRange;
      }
    }

    /** `operator[]` write: assigns through the reference `data.at(x + y * width)`. */
    method Set(x: Size, y: Size, v: T) returns (ok: bool)
      requires Valid()
      modifies data
      ensures ok <==> FlatIndex(x, y) < GridWidth * GridHeight
      ensures ok ==> data[..] == old(data[..])[FlatIndex(x, y) := v]
      ensures !ok ==> data[..] == old(data[..])
    {
      var i := (x + y * GridWidth) % SizeMod;
      if i < data.Length {
        data[i] := v;
        ok := true;
      } else {
        ok := false;
      }
    }

    /**
     * The work of one generation thread: the tile with origin (x, y) is filled
     * row by row with `f(n, m)`; no cell outside the tile is touched.
     */
    method FillTile(f: (nat, nat) -> T, x: nat, y: nat)
      requires Valid()
      requires x + Dx <= GridWidth && y + Dy <= GridHeight
      modifies data
      ensures forall n, m :: 0 <= n < GridWidth && 0 <= m < GridHeight ==>
        data[Idx(n, m)] == if InTile((x, y), n, m) then f(n, m) else old(data[Idx(n, m)])
    {
      var m := y;
      while m < y + Dy
        invariant y <= m <= y + Dy
        invariant forall n', m' :: 0 <= n' < GridWidth && 0 <= m' < GridHeight ==>
          data[Idx(n', m')] ==
            if x <= n' < x + Dx && y <= m' < m then f(n', m') else old(data[Idx(n', m')])
      {
        var n := x;
        while n < x + Dx
          invariant x <= n <= x + Dx
          invariant forall n', m' :: 0 <= n' < GridWidth && 0 <= m' < GridHeight ==>
            data[Idx(n', m')] ==
              if x <= n' < x + Dx && (y <= m' < m || (m' == m && n' < n)) then f(n', m')
              else old(data[Idx(n', m')])
        {
          data[m * GridWidth + n] := f(n, m);
          n := n + 1;
        }
        m := m + 1;
      }
    }

    /**
     * Running the worker of the k-th tile, when tiles 0 .. k-1 are done, leaves
     * tiles 0 .. k done: the tile covers its own cells and no earlier tile's.
     */
    method FillNextTile(f: (nat, nat) -> T, x: nat, y: nat, ghost k: nat)
      requires Valid()
      requires k < TileCount && (x, y) == Origin(k)
      requires forall n, m :: 0 <= n < GridWidth && 0 <= m < GridHeight && TileOf(n, m) < k ==>
        data[Idx(n, m)] == f(n, m)
      modifies data
      ensures forall n, m :: 0 <= n < GridWidth && 0 <= m < GridHeight && TileOf(n, m) <= k ==>
        data[Idx(n, m)] == f(n, m)
      ensures forall n, m :: 0 <= n < GridWidth && 0 <= m < GridHeight && TileOf(n, m) > k ==>
        data[Idx(n, m)] == old(data[Idx(n, m)])
    {
      FillTile(f, x, y);
      forall n, m | 0 <= n < GridWidth && 0 <= m < GridHeight && TileOf(n, m) > k
        ensures data[Idx(n, m)] == old(data[Idx(n, m)])
      {
        if InTile((x, y), n, m) {
          Unique(k, n, m);
        }
      }
      forall n, m | 0 <= n < GridWidth && 0 <= m < GridHeight && TileOf(n, m) <= k
        ensures data[Idx(n, m)] == f(n, m)
      {
        if TileOf(n, m) == k {
          Cover(n, m);
        } else if InTile((x, y), n, m) {
          Unique(k, n, m);
        }
      }
    }

    /**
     * The inner launch loop of `generate`: with the rows of tiles above `y`
     * done, launches the eight workers of the row at `y`, left to right, and
     * leaves that row done as well; `tiles` records the origins launched.
     */
    method FillRow(f: (nat, nat) -> T, y: nat, ghost done: seq<(nat, nat)>) returns (ghost tiles: seq<(nat, nat)>)
      requires Valid()
      requires y < GridHeight && y % Dy == 0
      requires |done| == (y / Dy) * TilesPerAxis && done == Origins()[..|done|]
      requires forall n, m :: 0 <= n < GridWidth && 0 <= m < GridHeight && TileOf(n, m) < |done| ==>
        data[Idx(n, m)] == f(n, m)
      modifies data
      ensures |tiles| == |done| + TilesPerAxis && tiles == Origins()[..|tiles|]
      ensures forall n, m :: 0 <= n < GridWidth && 0 <= m < GridHeight && TileOf(n, m) < |tiles| ==>
        data[Idx(n, m)] == f(n, m)
      ensures forall n, m :: 0 <= n < GridWidth && 0 <= m < GridHeight && TileOf(n, m) >= |tiles| ==>
        data[Idx(n, m)] == old(data[Idx(n, m)])
    {
      tiles := done;
      ghost var before := data[..];
      var x := 0;
      while x < GridWidth
        invariant 0 <= x <= GridWidth && x % Dx == 0
        invariant |tiles| == (y / Dy) * TilesPerAxis + x / Dx
        invariant tiles == Origins()[..|tiles|]
        invariant forall n, m :: 0 <= n < GridWidth && 0 <= m < GridHeight && TileOf(n, m) < |tiles| ==>
          data[Idx(n, m)] == f(n, m)
        invariant forall n, m :: 0 <= n < GridWidth && 0 <= m < GridHeight && TileOf(n, m) >= |tiles| ==>
          data[Idx(n, m)] == before[Idx(n, m)]
      {
        assert (x, y) == Origin(|tiles|);
        FillNextTile(f, x, y, |tiles|);
        tiles := tiles + [(x, y)];
        x := x + Dx;
      }
    }

    /**
     * `generate(f)`: launches one worker per tile, origins stepping by dx and dy,
     * and afterwards every cell (x, y) holds `f(x, y)`. The workers run here one
     * after another, in launch order; `tiles` records the origins launched.
     */
    method Generate(f: (nat, nat) -> T) returns (ghost tiles: seq<(nat, nat)>)
      requires Valid()
      modifies data
      ensures Valid()
      ensures tiles == Origins()
      ensures forall x, y :: 0 <= x < GridWidth && 0 <= y < GridHeight ==> data[Idx(x, y)] == f(x, y)
      ensures forall i :: 0 <= i < data.Length ==> data[i] == f(i % GridWidth, i / GridWidth)
    {
      tiles := [];
      var y := 0;
      while y < GridHeight
        invariant 0 <= y <= GridHeight && y % Dy == 0
        invariant |tiles| == (y / Dy) * TilesPerAxis
        invariant tiles == Origins()[..|tiles|]
        invariant forall n, m :: 0 <= n < GridWidth && 0 <= m < GridHeight && TileOf(n, m) < |tiles| ==>
          data[Idx(n, m)] == f(n, m)
      {
        tiles := FillRow(f, y, tiles);
        y := y + Dy;
      }
      forall n, m | 0 <= n < GridWidth && 0 <= m < GridHeight
        ensures data[Idx(n, m)] == f(n, m)
      {
        Cover(n, m);
      }
      EveryCellEveryIndex(data[..], f);
    }

    /**
     * `generate_from_filter(f)`: every cell (x, y) ends up as
     * `f(Cell{0, 0}, x, y)`; the filter starts from a zero cell, never from the
     * grid's previous contents.
     */
    method GenerateFromFilter(f: (Cell, int, int) -> T)
      requires Valid()
      modifies data
      ensures Valid()
      ensures forall x, y :: 0 <= x < GridWidth && 0 <= y < GridHeight ==>
        data[Idx(x, y)] == f(Cell(0.0, 0.0), x, y)
      ensures forall i :: 0 <= i < data.Length ==> data[i] == f(Cell(0.0, 0.0), i % GridWidth, i / GridWidth)
    {
      ghost var tiles := Generate((n: nat, m: nat) => f(Cell(0.0, 0.0), n, m));
    }

    /**
     * `update_texture`: walks the grid row-major through `operator[]` and
     * writes r, g, b, a of `colorOf(cell)` for each cell through a running
     * counter. The grid is not changed; the buffer is returned rather than
     * uploaded.
     */
    method UpdateTexture(colorOf: T -> Pixels.Color) returns (pixels: seq<Pixels.byte>)
      requires Valid()
      ensures pixels == Pixels.Rasterize(Cells(), colorOf)
      ensures |pixels| == GridWidth * GridHeight * 4
      ensures forall x, y, k :: 0 <= x < GridWidth && 0 <= y < GridHeight && 0 <= k < 4 ==>
        pixels[4 * Idx(x, y) + k] == Pixels.Channel(colorOf(data[Idx(x, y)]), k)
    {
      var buffer := new Pixels.byte[GridWidth * GridHeight * 4];
      var p := 0;
      var y := 0;
      while y < GridHeight
        invariant 0 <= y <= GridHeight
        invariant p == 4 * Idx(0, y)
        invariant forall i :: 0 <= i < p ==> buffer[i] == Pixels.Channel(colorOf(data[i / 4]), i % 4)
      {
        var x := 0;
        while x < GridWidth
          invariant 0 <= x <= GridWidth
          invariant p == 4 * Idx(x, y)
          invariant forall i :: 0 <= i < p ==> buffer[i] == Pixels.Channel(colorOf(data[i / 4]), i % 4)
        {
          FlatIndexInRange(x, y);
          var cell := Get(x, y);
          var color := colorOf(cell.value);
          buffer[p] := color.r;
          buffer[p + 1] := color.g;
          buffer[p + 2] := color.b;
          buffer[p + 3] := color.a;
          forall i | p <= i < p + 4
            ensures buffer[i] == Pixels.Channel(colorOf(data[i / 4]), i % 4)
          {
            assert i / 4 == Idx(x, y) && i % 4 == i - p;
          }
          p := p + 4;
          x := x + 1;
        }
        y := y + 1;
      }
      pixels := buffer[..];
      Pixels.RasterizeUnique(Cells(), colorOf, pixels);
      Pixels.RasterizeLayout(Cells(), colorOf);
    }
  }
}
