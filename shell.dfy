/**
 * The pure helpers of the world generator's front end: filter composition,
 * `clamp`, the biome colour map and the mode cycle bound to the M key.
 */
module Shell {
  import opened Wgen
  import opened Pixels
  import opened Tiling

  /** `Filter`: a cell transformer that also sees the cell's coordinates. */
  type Filter = (Cell, int, int) -> Cell

  // ---------------------------------------------------------------- compose

  /**
   * `compose(t, ts...)`: the first filter runs first, its output is fed to the
   * composition of the rest, and x, y are passed unchanged to every stage.
   * A single filter is returned as it is.
   */
  function Compose(fs: seq<Filter>): (g: Filter)
    requires |fs| > 0
    ensures forall cell, x, y :: g(cell, x, y) == RunChain(fs, cell, x, y)
  {
    if |fs| == 1 then
      assert fs[..0] == [];
      fs[0]
    else
      var rest := Compose(fs[1..]);
      assert forall cell, x, y :: RunChain(fs, cell, x, y) == RunChain(fs[1..], fs[0](cell, x, y), x, y) by {
        forall cell, x, y
          ensures RunChain(fs, cell, x, y) == RunChain(fs[1..], fs[0](cell, x, y), x, y)
        {
          RunChainHead(fs, cell, x, y);
        }
      }
      (cell: Cell, x: int, y: int) => rest(fs[0](cell, x, y), x, y)
  }

  /**
   * Runs the stages one after another, left to right, peeling the last stage
   * off the end: an independent reading of a chain.
   */
  function RunChain(fs: seq<Filter>, cell: Cell, x: int, y: int): Cell
  {
    if fs == [] then cell
    else fs[|fs| - 1](RunChain(fs[..|fs| - 1], cell, x, y), x, y)
  }

  /** Running a chain is running its head first, then the rest. */
  lemma {:induction false} RunChainHead(fs: seq<Filter>, cell: Cell, x: int, y: int)
    requires |fs| > 0
    ensures RunChain(fs, cell, x, y) == RunChain(fs[1..], fs[0](cell, x, y), x, y)
  {
    var n := |fs|;
    if n == 1 {
      assert fs[..0] == [] && fs[1..] == [];
    } else {
      var init := fs[..n - 1];
      RunChainHead(init, cell, x, y);
      assert init[1..] == fs[1..][..n - 2];
      assert fs[1..][n - 2] == fs[n - 1];
    }
  }

  /** A one-element composition is that filter itself. */
  lemma ComposeSingle(f: Filter)
    ensures Compose([f]) == f
  {
  }

  /** One unfolding of `compose`: the head runs first, with the same x and y. */
  lemma ComposeStep(fs: seq<Filter>, cell: Cell, x: int, y: int)
    requires |fs| >= 2
    ensures Compose(fs)(cell, x, y) == Compose(fs[1..])(fs[0](cell, x, y), x, y)
  {
  }

  /** Appending a filter to a chain runs it after everything else. */
  lemma {:induction false} ComposeSnoc(fs: seq<Filter>, h: Filter, cell: Cell, x: int, y: int)
    requires |fs| > 0
    ensures Compose(fs + [h])(cell, x, y) == h(Compose(fs)(cell, x, y), x, y)
  {
    if |fs| == 1 {
      assert fs + [h] == [fs[0], h];
      assert (fs + [h])[1..] == [h];
    } else {
      assert (fs + [h])[1..] == fs[1..] + [h];
      ComposeSnoc(fs[1..], h, fs[0](cell, x, y), x, y);
    }
  }

  /** Composing two chains runs the first chain, then the second, on the same x and y. */
  lemma {:induction false} ComposeAppend(fs: seq<Filter>, gs: seq<Filter>, cell: Cell, x: int, y: int)
    requires |fs| > 0 && |gs| > 0
    ensures Compose(fs + gs)(cell, x, y) == Compose(gs)(Compose(fs)(cell, x, y), x, y)
  {
    if |fs| == 1 {
      assert (fs + gs)[1..] == gs;
    } else {
      assert (fs + gs)[1..] == fs[1..] + gs;
      ComposeAppend(fs[1..], gs, fs[0](cell, x, y), x, y);
    }
  }

  /** A three-stage chain such as `round_perlin`: `c(b(a(cell, x, y), x, y), x, y)`. */
  lemma ComposeThree(a: Filter, b: Filter, c: Filter, cell: Cell, x: int, y: int)
    ensures Compose([a, b, c])(cell, x, y) == c(b(a(cell, x, y), x, y), x, y)
  {
    ComposeStep([a, b, c], cell, x, y);
    assert [a, b, c][1..] == [b, c];
    ComposeStep([b, c], a(cell, x, y), x, y);
    assert [b, c][1..] == [c];
  }

  // ------------------------------------------------------------------ clamp

  /** `clamp(v, a, b)`: `a` below the range, `b` above it, `v` otherwise. */
  function Clamp(v: real, a: real, b: real): (r: real)
    ensures a <= b ==> a <= r <= b
    ensures a <= v <= b ==> r == v
    ensures v < a ==> r == a
    ensures a <= v && b < v ==> r == b
  {
    if v < a then a
    else if v > b then b
    else v
  }

  /** Clamping twice is clamping once. */
  lemma ClampIdempotent(v: real, a: real, b: real)
    requires a <= b
    ensures Clamp(Clamp(v, a, b), a, b) == Clamp(v, a, b)
  {
  }

  // -------------------------------------------------------- biome colour map

  /**
   * `biome_color_map`: height bands first, refined by humidity in the middle
   * bands. The colour returned is a biome's exactly when the cell lies in that
   * biome's region.
   */
  function BiomeColorMap(cell: Cell): (c: Color)
    ensures forall b :: c == Palette(b) <==> InRegion(b, cell.height, cell.humidity)
  {
    var h, u := cell.height, cell.humidity;
    if h < 0.3 then Rgb(0, 51, 153)             // deep water
    else if h < 0.4 then Rgb(0, 153, 255)       // shallow water
    else if h > 0.9 then Rgb(240, 240, 240)     // polar
    else if h > 0.8 then Rgb(0, 51, 0)          // polar
    else if h > 0.7 then
      (if u > 0.4 then Rgb(0, 102, 102) else Rgb(116, 139, 123))
    else if h > 0.5 then
      (if u > 0.5 then Rgb(0, 153, 153)
       else if u > 0.3 then Rgb(51, 153, 102)
       else Rgb(190, 194, 131))
    else if u < 0.3 then Rgb(227, 231, 107)
    else if u < 0.7 then Rgb(0, 179, 63)
    else Rgb(0, 153, 0)
  }

  /** The colour the unreachable last `return` would give. */
  const Magenta: Color := Rgb(255, 0, 255)

  /** The twelve regions of the (height, humidity) plane the classifier tells apart. */
  datatype Biome =
    | DeepWater | ShallowWater | Polar | SubPolar
    | HighWet | HighDry
    | MidWet | MidTemperate | MidDry
    | LowDry | LowTemperate | LowWet

  /** Each biome's region, written as a box of height and humidity intervals. */
  predicate InRegion(b: Biome, h: real, u: real)
  {
    match b
    case DeepWater => h < 0.3
    case ShallowWater => 0.3 <= h < 0.4
    case Polar => 0.9 < h
    case SubPolar => 0.8 < h <= 0.9
    case HighWet => 0.7 < h <= 0.8 && 0.4 < u
    case HighDry => 0.7 < h <= 0.8 && u <= 0.4
    case MidWet => 0.5 < h <= 0.7 && 0.5 < u
    case MidTemperate => 0.5 < h <= 0.7 && 0.3 < u <= 0.5
    case MidDry => 0.5 < h <= 0.7 && u <= 0.3
    case LowDry => 0.4 <= h <= 0.5 && u < 0.3
    case LowTemperate => 0.4 <= h <= 0.5 && 0.3 <= u < 0.7
    case LowWet => 0.4 <= h <= 0.5 && 0.7 <= u
  }

  /** The colour of each biome. */
  function Palette(b: Biome): Color
  {
    match b
    case DeepWater => Rgb(0, 51, 153)
    case ShallowWater => Rgb(0, 153, 255)
    case Polar => Rgb(240, 240, 240)
    case SubPolar => Rgb(0, 51, 0)
    case HighWet => Rgb(0, 102, 102)
    case HighDry => Rgb(116, 139, 123)
    case MidWet => Rgb(0, 153, 153)
    case MidTemperate => Rgb(51, 153, 102)
    case MidDry => Rgb(190, 194, 131)
    case LowDry => Rgb(227, 231, 107)
    case LowTemperate => Rgb(0, 179, 63)
    case LowWet => Rgb(0, 153, 0)
  }

  /** No two biomes share a colour. */
  lemma PaletteInjective(b1: Biome, b2: Biome)
    ensures Palette(b1) == Palette(b2) <==> b1 == b2
  {
  }

  /** No cell lies in two regions. */
  lemma RegionsDisjoint(b1: Biome, b2: Biome, cell: Cell)
    requires InRegion(b1, cell.height, cell.humidity) && InRegion(b2, cell.height, cell.humidity)
    ensures b1 == b2
  {
    var c := BiomeColorMap(cell);
    assert c == Palette(b1) && c == Palette(b2);
    PaletteInjective(b1, b2);
  }

  /** Every cell lies in some region. */
  lemma RegionsCover(cell: Cell) returns (b: Biome)
    ensures InRegion(b, cell.height, cell.humidity)
    ensures BiomeColorMap(cell) == Palette(b)
  {
    var h, u := cell.height, cell.humidity;
    b := if h < 0.3 then DeepWater
      else if h < 0.4 then ShallowWater
      else if h > 0.9 then Polar
      else if h > 0.8 then SubPolar
      else if h > 0.7 then (if u > 0.4 then HighWet else HighDry)
      else if h > 0.5 then (if u > 0.5 then MidWet else if u > 0.3 then MidTemperate else MidDry)
      else if u < 0.3 then LowDry
      else if u < 0.7 then LowTemperate
      else LowWet;
  }

  /** The magenta fallback after the last branch is never reached. */
  lemma MagentaUnreachable(cell: Cell)
    ensures BiomeColorMap(cell) != Magenta
  {
    var b := RegionsCover(cell);
  }

  /** Outside 0.4 <= height <= 0.8 the colour depends on height alone. */
  lemma HumidityIgnoredOutsideMiddleBand(h: real, u1: real, u2: real)
    requires h < 0.4 || h > 0.8
    ensures BiomeColorMap(Cell(h, u1)) == BiomeColorMap(Cell(h, u2))
    ensures h < 0.3 ==> BiomeColorMap(Cell(h, u1)) == Rgb(0, 51, 153)
    ensures 0.3 <= h < 0.4 ==> BiomeColorMap(Cell(h, u1)) == Rgb(0, 153, 255)
    ensures h > 0.9 ==> BiomeColorMap(Cell(h, u1)) == Rgb(240, 240, 240)
    ensures 0.8 < h <= 0.9 ==> BiomeColorMap(Cell(h, u1)) == Rgb(0, 51, 0)
  {
  }

  /** Inside the middle band humidity does matter: two humidities give two colours. */
  lemma HumidityMattersInMiddleBand(h: real)
    requires 0.4 <= h <= 0.8
    ensures BiomeColorMap(Cell(h, 0.0)) != BiomeColorMap(Cell(h, 1.0))
  {
  }

  // ------------------------------------------------------------ the M key

  /** Which colour map function pointer is selected. */
  datatype ColorMap = HeightColorMap | HumidityColorMap | BiomeColorMapSelected

  /** The shell's display state: the `mode` and `color_map` variables. */
  datatype View = View(mode: Mode, colorMap: ColorMap)

  /** The start-up state: mode `All` with the biome map. */
  const InitialView: View := View(All, BiomeColorMapSelected)

  /** The map each mode is shown with. */
  function MapFor(m: Mode): ColorMap
  {
    match m
    case Height => HeightColorMap
    case Round => HeightColorMap
    case Humidity => HumidityColorMap
    case All => BiomeColorMapSelected
  }

  /** A view whose colour map is the one its mode is shown with. */
  predicate Consistent(v: View)
  {
    v.colorMap == MapFor(v.mode)
  }

  /**
   * The switch run when M is pressed: Height -> Round -> Humidity -> All ->
   * Height, selecting the height, humidity, biome and height map respectively.
   * The old colour map is overwritten whatever it was.
   */
  function OnKeyM(v: View): (w: View)
    ensures ModeIndex(w.mode) == (ModeIndex(v.mode) + 1) % 4
    ensures w.mode != v.mode
    ensures Consistent(w)
  {
    match v.mode
    case Height => View(Round, HeightColorMap)
    case Round => View(Humidity, HumidityColorMap)
    case Humidity => View(All, BiomeColorMapSelected)
    case All => View(Height, HeightColorMap)
  }

  /** The view after `k` presses of M. */
  function PressM(v: View, k: nat): View
    decreases k
  {
    if k == 0 then v else PressM(OnKeyM(v), k - 1)
  }

  /** Any number of presses from a consistent view, such as the start-up view, keeps it consistent. */
  lemma {:induction false} PressesKeepConsistent(v: View, k: nat)
    requires Consistent(v)
    ensures Consistent(PressM(v, k))
    decreases k
  {
    if k > 0 {
      PressesKeepConsistent(OnKeyM(v), k - 1);
    }
  }

  lemma InitialViewConsistent()
    ensures Consistent(InitialView)
  {
  }

  /** Four presses bring a consistent view back to itself; fewer change the mode. */
  lemma CycleOfFour(v: View)
    ensures PressM(v, 4).mode == v.mode
    ensures Consistent(v) ==> PressM(v, 4) == v
    ensures forall k :: 0 < k < 4 ==> PressM(v, k).mode != v.mode
  {
  }

  /** The function a `ColorMap` selection points to; the height and humidity maps are parameters. */
  function Render(m: ColorMap, heightMap: Cell -> Color, humidityMap: Cell -> Color): Cell -> Color
  {
    match m
    case HeightColorMap => heightMap
    case HumidityColorMap => humidityMap
    case BiomeColorMapSelected => BiomeColorMap
  }

  /**
   * The M key handler: advance the view, regenerate the grid from the filter
   * chain, and rasterise it with the newly selected colour map.
   */
  method HandleKeyM(dim: Dimension<Cell>, v: View, filter: Filter,
                    heightMap: Cell -> Color, humidityMap: Cell -> Color)
    returns (w: View, pixels: seq<byte>)
    requires dim.Valid()
    modifies dim.data
    ensures w == OnKeyM(v) && dim.Valid()
    ensures forall x, y :: 0 <= x < GridWidth && 0 <= y < GridHeight ==>
      dim.data[Idx(x, y)] == filter(Cell(0.0, 0.0), x, y)
    ensures pixels == Rasterize(dim.Cells(), Render(w.colorMap, heightMap, humidityMap))
  {
    w := OnKeyM(v);
    dim.GenerateFromFilter(filter);
    pixels := dim.UpdateTexture(Render(w.colorMap, heightMap, humidityMap));
  }
}
