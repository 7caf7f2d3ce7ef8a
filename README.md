# worldgen: the grid engine and its helpers, in Dafny

This project models the core of a procedural world generator. The generator fills a fixed
800 x 800 grid of cells (height, humidity) from a chain of filters, then turns the grid into an
RGBA pixel buffer through a colour map. It has four modules:

- `Pixels` (pixels.dfy): `sf::Color` as four bytes, and the buffer layout `update_texture`
  writes (r, g, b, a per cell, row-major), with its decoder and the round trip between them.
- `Tiling` (tiling.dfy): the grid constants and the 8 x 8 tile partition the generation loops use.
- `Wgen` (dimension.dfy): `Cell`, `Mode` and the class `Dimension<T>`. Indexed access
  (`operator[]`) is modelled with `std::size_t` arithmetic and `std::array::at` failing with
  `OutOfRange`. `generate` and `generate_from_filter` fill the array in place, tile by tile.
  `update_texture` fills a pixel array through a running counter.
- `Shell` (shell.dfy): `compose`, `clamp`, `biome_color_map`, and the mode switch run when M is
  pressed, together with the handler that then regenerates and rasterises the grid.

The generation threads are modelled as a sequential loop over the 64 tiles, in the order they are
launched. Each worker is the method `FillTile`, and its contract says it touches no cell outside
its own tile. The `Tiling` lemmas say that the tiles are pairwise disjoint and cover the grid.
So the workers' writes to the grid never overlap, provided the cell function `f` is pure. The
model takes `f` as a pure function (see "Left out").

`operator[]` checks only the flat slot `x + y * 800`, which is computed in `std::size_t`; there is
no check per axis. So `(800, y)` reads `(0, y + 1)`, and a row number of 2^59 wraps around onto
row 0. The tile loops have no remainder handling; they rely on 800 being a multiple of 8
(`Tiling.TileSize`).

## Model

| member | source | states |
|---|---|---|
| `Wgen.Dimension.constructor` | src/main.cpp:91 | a new grid has 800 x 800 cells, every one holding the initial value |
| `Wgen.Dimension.Get` | include/wgen/Dimension.hpp:36-38 | reading (x, y) fails exactly when the flat slot `(x + y*800) mod 2^64` is at or past 640000; otherwise it returns the cell stored in that slot |
| `Wgen.Dimension.Set` | include/wgen/Dimension.hpp:32-34 | writing (x, y) fails exactly when the flat slot is past the end and then changes nothing; otherwise only that slot changes, to the new value |
| `Wgen.FlatIndex` | include/wgen/Dimension.hpp:33 | the slot is a `std::size_t` congruent to `x + y*800` modulo 2^64, so it is exactly `x + y*800` when that fits and wraps around otherwise |
| `Wgen.FlatIndexInRange` | include/wgen/Dimension.hpp:32-34 | for x < 800 and y < 800 no wrap-around happens: the slot is `x + y*800` and is in range |
| `Wgen.RightEdgeAliasesNextRow` | include/wgen/Dimension.hpp:32-38 | for y < 799, `(800, y)` is not rejected: it addresses the same in-range slot as `(0, y+1)` |
| `Wgen.HugeRowWrapsToFirstRow` | include/wgen/Dimension.hpp:32-34 | the row number 2^59 wraps around in `std::size_t` onto row 0, for every in-range column |
| `Tiling.TileSize` | include/wgen/Dimension.hpp:44-45 | 800 is divisible by 8; the tile extents are dx = dy = 800 / 8 = 100; there are 8 * 8 tiles |
| `Tiling.Origins` | include/wgen/Dimension.hpp:47-48 | the tile origins in launch order: 64 of them, no origin launched twice |
| `Tiling.OriginsShape` | include/wgen/Dimension.hpp:47-48 | the launch loops produce exactly 64 tile origins; each is a multiple of dx and dy, and its whole rectangle lies inside the grid |
| `Tiling.Cover` | include/wgen/Dimension.hpp:47-57 | every in-range cell lies in one of the 64 tiles |
| `Tiling.Unique` | include/wgen/Dimension.hpp:47-57 | a cell lies in no tile other than that one |
| `Tiling.Disjoint` | include/wgen/Dimension.hpp:47-57 | two distinct tiles share no cell |
| `Tiling.WritesInBounds` | include/wgen/Dimension.hpp:51-53 | every write index `m*800 + n` made by a tile is below 800 * 800 |
| `Tiling.IdxBijective` | include/wgen/Dimension.hpp:110 | row-major storage maps in-range cells one-to-one onto the 640000 slots, and each slot comes from the cell `(i % 800, i / 800)` |
| `Wgen.EveryCellEveryIndex` | include/wgen/Dimension.hpp:47-57 | a grid that holds g(x, y) at every in-range cell holds g at every storage slot, so no slot is left out |
| `Wgen.Dimension.FillTile` | include/wgen/Dimension.hpp:50-56 | one worker writes f(n, m) into every cell of its own tile and leaves every other cell as it was |
| `Wgen.Dimension.FillNextTile` | include/wgen/Dimension.hpp:47-57 | when tiles 0 .. k-1 hold f, running the k-th worker leaves tiles 0 .. k holding f and every cell of a later tile as it was: the tile covers its own cells and overwrites no other tile |
| `Wgen.Dimension.FillRow` | include/wgen/Dimension.hpp:48-57 | with the tile rows above y done, the inner launch loop runs the eight workers of row y left to right, at the next eight origins, and leaves that row done too and every cell of a later tile row as it was |
| `Wgen.Dimension.Generate` | include/wgen/Dimension.hpp:40-63 | the workers are launched at exactly the 64 origins, in loop order; afterwards cell (x, y) equals f(x, y) for every in-range x, y, and so does every slot |
| `Wgen.Dimension.GenerateFromFilter` | include/wgen/Dimension.hpp:65-88 | afterwards cell (x, y) equals f(Cell{0,0}, x, y), whatever the grid held before |
| `Wgen.Dimension.UpdateTexture` | include/wgen/Dimension.hpp:90-106 | the buffer has exactly 800*800*4 bytes; bytes 4*(x + y*800) .. +3 are r, g, b, a of color_of(cell(x, y)); the method has no write frame, so the grid is unchanged |
| `Pixels.Encode` | include/wgen/Dimension.hpp:98-101 | each colour becomes exactly four bytes, so n colours give 4n bytes (byte by byte: `Pixels.EncodeAt`) |
| `Pixels.Decode` | include/wgen/Dimension.hpp:98-101 | a buffer of 4n bytes reads back as n colours, four bytes each |
| `Pixels.Rasterize` | include/wgen/Dimension.hpp:92-103 | the buffer for n cells has exactly 4n bytes (layout and round trip: `Pixels.RasterizeLayout`) |
| `Pixels.EncodeAt` | include/wgen/Dimension.hpp:93-101 | byte i of the buffer is channel i % 4 of colour i / 4 |
| `Pixels.RasterizeAt` | include/wgen/Dimension.hpp:93-101 | byte i of the buffer is channel i % 4 of the colour of cell i / 4 |
| `Pixels.RasterizeUnique` | include/wgen/Dimension.hpp:92-103 | any buffer of four bytes per cell with that byte-by-byte layout is the rasterised buffer, so the layout determines it completely |
| `Pixels.RasterizeLayout` | include/wgen/Dimension.hpp:92-103 | a buffer for n cells has 4n bytes, laid out r, g, b, a per cell, and decoding it gives back every cell's colour |
| `Pixels.DecodeEncode` | include/wgen/Dimension.hpp:98-101 | decoding the bytes written for a colour sequence gives that sequence back |
| `Pixels.EncodeDecode` | include/wgen/Dimension.hpp:98-101 | every buffer whose length is a multiple of 4 is the encoding of its decoding |
| `Shell.Compose` | src/main.cpp:15-24 | the composed filter equals running the stages one after another, left to right, each on the previous stage's output and the same x, y |
| `Shell.RunChainHead` | src/main.cpp:20-22 | running a chain is running its head first, then the rest on its output |
| `Shell.ComposeSingle` | src/main.cpp:17-18 | composing a single filter returns that filter unchanged |
| `Shell.ComposeStep` | src/main.cpp:20-22 | compose(t, ts...)(cell, x, y) = compose(ts...)(t(cell, x, y), x, y): the head runs first, with x and y unchanged |
| `Shell.ComposeSnoc` | src/main.cpp:15-24 | a filter appended to a chain runs after all the others, on the same x and y |
| `Shell.ComposeAppend` | src/main.cpp:15-24 | composing two chains runs the first chain, then the second |
| `Shell.ComposeThree` | src/main.cpp:176 | a three-stage chain such as `round_perlin` computes c(b(a(cell, x, y), x, y), x, y) |
| `Shell.Clamp` | src/main.cpp:26-30 | values below a give a; values above b (and not below a) give b; values in [a, b] are returned unchanged; for a <= b the result lies in [a, b] |
| `Shell.ClampIdempotent` | src/main.cpp:26-30 | for a <= b, clamping twice gives the same as clamping once |
| `Shell.HumidityIgnoredOutsideMiddleBand` | src/main.cpp:41-55 | for height < 0.4 or > 0.8 the colour ignores humidity: (0,51,153) below 0.3, (0,153,255) in [0.3, 0.4), (240,240,240) above 0.9, (0,51,0) in (0.8, 0.9] |
| `Shell.HumidityMattersInMiddleBand` | src/main.cpp:57-81 | for 0.4 <= height <= 0.8 humidity changes the colour |
| `Shell.BiomeColorMap` | src/main.cpp:40-81 | the classifier returns a biome's colour exactly when the cell lies in that biome's height/humidity box |
| `Shell.PaletteInjective` | src/main.cpp:40-81 | the twelve returned colours are pairwise distinct |
| `Shell.RegionsDisjoint` | src/main.cpp:40-81 | no cell lies in two biome boxes |
| `Shell.RegionsCover` | src/main.cpp:40-81 | every cell lies in some biome box, and the classifier returns that box's colour |
| `Shell.MagentaUnreachable` | src/main.cpp:82 | the magenta fallback is never returned |
| `Shell.OnKeyM` | src/main.cpp:232-253 | pressing M moves to the next mode in declaration order, Height -> Round -> Humidity -> All -> Height, and selects the colour map of the new mode (Round: height, Humidity: humidity, All: biome, Height: height) |
| `Shell.InitialViewConsistent` | src/main.cpp:110-112 | the start-up state, mode All with the biome map, pairs the mode with its map |
| `Shell.PressesKeepConsistent` | src/main.cpp:232-253 | any number of presses from a state that pairs a mode with its map keeps that pairing |
| `Shell.CycleOfFour` | src/main.cpp:232-253 | four presses return to the starting mode (and to the same state when mode and map are paired); one to three presses do not |
| `Shell.HandleKeyM` | src/main.cpp:231-256 | the M handler advances the state, regenerates every cell from the filter chain starting from a zero cell, and returns the buffer rasterised with the newly selected map |

## Left out

- SFML: the texture, window, sprite and event loop are I/O. `update_texture` returns the byte
  buffer instead of calling `texture.update`, and `HandleKeyM` takes the pressed key as given.
- Threads: `std::thread` creation and joining are not modelled. The 64 workers run one after
  another in launch order, and the partition lemmas give the disjointness that parallel
  execution needs.
- Shared filter state: the model takes the filter as a pure function. In the program,
  `init_filter_perlin` keeps function-local statics (`last_seed` and the noise generator) and
  reseeds them from inside the 64 workers after a seed change. Races on that state are not
  captured; the disjointness proved here covers only the grid writes.
- The mode names the M handler prints to `std::cout` are output and are not modelled.
- `std::size_t` is taken to be 64 bits wide. The wrap-around of the flat slot (row 2^59 landing
  on row 0) holds only on such targets.
- Perlin noise, `init_filter_perlin`, the `perlin` and `generate` lambdas, and reseeding on a
  seed change: these are an external library and floating-point numerics. The filter chain is
  a parameter of the model.
- The round and square island filters: their falloff uses `sqrt` and double arithmetic.
- `height_color_map` and `humidity_color_map`: they narrow doubles to `Uint8`. They are
  parameters of `HandleKeyM`.
- The Space key handler and the `srand`/`rand` seed selection: these are randomness.
- Doubles are modelled as exact reals. The classifier thresholds are the exact reals 0.3, 0.4,
  and so on, not the nearest doubles. NaN is not modelled.
- Initial contents: C++ value-initialisation gives zero cells. The constructor takes the
  initial value as a parameter.
- The commented-out specialisations at the end of Dimension.hpp are dead code.
