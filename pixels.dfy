/**
 * RGBA colours and the pixel buffer layout that `update_texture` produces:
 * four bytes per cell, in the order r, g, b, a, cells in row-major order.
 */
module Pixels {

  /** An unsigned 8-bit value (`sf::Uint8`). */
  type byte = b: int | 0 <= b < 256

  /** `sf::Color`: four 8-bit channels. */
  datatype Color = Color(r: byte, g: byte, b: byte, a: byte)

  /** `sf::Color{ r, g, b }`: the three-argument constructor leaves alpha opaque. */
  function Rgb(r: byte, g: byte, b: byte): Color
  {
    Color(r, g, b, 255)
  }

  /** Channel `k` of a colour, in buffer order. */
  function Channel(c: Color, k: nat): byte
    requires k < 4
  {
    if k == 0 then c.r else if k == 1 then c.g else if k == 2 then c.b else c.a
  }

  /** The four bytes written for one colour. */
  function Bytes(c: Color): (s: seq<byte>)
    ensures |s| == 4 && forall k :: 0 <= k < 4 ==> s[k] == Channel(c, k)
  {
    [c.r, c.g, c.b, c.a]
  }

  /** Lays colours out one after the other, four bytes each. */
  function Encode(cs: seq<Color>): (bytes: seq<byte>)
    ensures |bytes| == 4 * |cs|
  {
    if cs == [] then [] else Bytes(cs[0]) + Encode(cs[1..])
  }

  /** Reads a buffer back as colours, four bytes at a time. */
  function Decode(bytes: seq<byte>): (cs: seq<Color>)
    requires |bytes| % 4 == 0
    ensures 4 * |cs| == |bytes|
  {
    if bytes == [] then []
    else [Color(bytes[0], bytes[1], bytes[2], bytes[3])] + Decode(bytes[4..])
  }

  /** Byte `i` of an encoded buffer is channel `i % 4` of colour `i / 4`. */
  lemma {:induction false} EncodeAt(cs: seq<Color>, i: nat)
    requires i < 4 * |cs|
    ensures Encode(cs)[i] == Channel(cs[i / 4], i % 4)
  {
    if i >= 4 {
      EncodeAt(cs[1..], i - 4);
    }
  }

  lemma {:induction false} DecodeEncode(cs: seq<Color>)
    ensures Decode(Encode(cs)) == cs
  {
    if cs != [] {
      var bytes := Encode(cs);
      assert bytes[4..] == Encode(cs[1..]);
      DecodeEncode(cs[1..]);
    }
  }

  lemma {:induction false} EncodeDecode(bytes: seq<byte>)
    requires |bytes| % 4 == 0
    ensures Encode(Decode(bytes)) == bytes
  {
    if bytes != [] {
      var cs := Decode(bytes);
      assert cs[1..] == Decode(bytes[4..]);
      EncodeDecode(bytes[4..]);
      assert bytes == bytes[..4] + bytes[4..];
    }
  }

  /** The colours of a sequence of cells, one per cell. */
  function Colors<T>(cells: seq<T>, colorOf: T -> Color): seq<Color>
  {
    seq(|cells|, i requires 0 <= i < |cells| => colorOf(cells[i]))
  }

  /** The buffer `update_texture` fills for the cells `cells`, in storage order. */
  function Rasterize<T>(cells: seq<T>, colorOf: T -> Color): (bytes: seq<byte>)
    ensures |bytes| == 4 * |cells|
  {
    Encode(Colors(cells, colorOf))
  }

  /** Byte `i` of the buffer is channel `i % 4` of the colour of cell `i / 4`. */
  lemma RasterizeAt<T>(cells: seq<T>, colorOf: T -> Color, i: nat)
    requires i < 4 * |cells|
    ensures Rasterize(cells, colorOf)[i] == Channel(colorOf(cells[i / 4]), i % 4)
  {
    EncodeAt(Colors(cells, colorOf), i);
  }

  /**
   * A buffer of four bytes per cell whose byte `i` is channel `i % 4` of the
   * colour of cell `i / 4` is the rasterised buffer.
   */
  lemma RasterizeUnique<T>(cells: seq<T>, colorOf: T -> Color, bytes: seq<byte>)
    requires |bytes| == 4 * |cells|
    requires forall i :: 0 <= i < |bytes| ==> bytes[i] == Channel(colorOf(cells[i / 4]), i % 4)
    ensures bytes == Rasterize(cells, colorOf)
  {
    forall i | 0 <= i < |bytes|
      ensures bytes[i] == Rasterize(cells, colorOf)[i]
    {
      RasterizeAt(cells, colorOf, i);
    }
  }

  /**
   * The buffer holds exactly four bytes per cell, bytes 4*i .. 4*i+3 are the
   * r, g, b, a of cell i, and decoding it gives back every cell's colour.
   */
  lemma RasterizeLayout<T>(cells: seq<T>, colorOf: T -> Color)
    ensures |Rasterize(cells, colorOf)| == 4 * |cells|
    ensures forall i, k :: 0 <= i < |cells| && 0 <= k < 4 ==>
      Rasterize(cells, colorOf)[4 * i + k] == Channel(colorOf(cells[i]), k)
    ensures Decode(Rasterize(cells, colorOf)) == Colors(cells, colorOf)
  {
    var cs := Colors(cells, colorOf);
    forall i, k | 0 <= i < |cells| && 0 <= k < 4
      ensures Rasterize(cells, colorOf)[4 * i + k] == Channel(colorOf(cells[i]), k)
    {
      RasterizeAt(cells, colorOf, 4 * i + k);
    }
    DecodeEncode(cs);
  }
}
