/** The destination raster: `height` rows of `pitch` bytes in one buffer, a pixel
    format and, for indexed formats, a palette. */
module Surfaces {
  import opened Bytes
  import opened Formats
  import opened Arith

  /** The decoded image as a value: the rows hold the bytes the loader writes, the
      pixel buffer lays them out `pitch` bytes apart. */
  datatype Image = Image(
    width: nat,
    height: nat,
    format: PixelFormat,
    pitch: nat,
    palette: seq<Color>,
    rows: seq<seq<byte>>)
  {
    /** Bytes of one row that hold pixel data. */
    function RowLength(): nat {
      RowBytes(width, format)
    }

    ghost predicate Valid() {
      0 < width && 0 < height && RowLength() <= pitch &&
      |rows| == height && forall y :: 0 <= y < |rows| ==> |rows[y]| == RowLength()
    }
  }

  function Zeros(n: nat): (z: seq<byte>)
    ensures |z| == n && forall k :: 0 <= k < n ==> z[k] == 0
  {
    seq(n, _ => 0)
  }

  /** One row in the buffer: its bytes, then the padding up to the pitch. */
  function Pad(row: seq<byte>, pitch: nat): (r: seq<byte>)
    requires |row| <= pitch
    ensures |r| == pitch && r[..|row|] == row
  {
    row + Zeros(pitch - |row|)
  }

  /** The pixel buffer holding `rows`, each starting `pitch` bytes after the one before. */
  function Layout(rows: seq<seq<byte>>, pitch: nat): seq<byte>
    requires forall y :: 0 <= y < |rows| ==> |rows[y]| <= pitch
  {
    if rows == [] then []
    else
      var n := |rows| - 1;
      Layout(rows[..n], pitch) + Pad(rows[n], pitch)
  }

  /** The buffer is exactly `pitch` bytes per row. */
  lemma {:induction false} LayoutLength(rows: seq<seq<byte>>, pitch: nat)
    requires forall y :: 0 <= y < |rows| ==> |rows[y]| <= pitch
    ensures |Layout(rows, pitch)| == |rows| * pitch
  {
    if rows != [] {
      var n := |rows| - 1;
      LayoutLength(rows[..n], pitch);
      assert n * pitch + pitch == |rows| * pitch;
    }
  }

  /** Laying out one more row appends it, padded, to the buffer. */
  lemma LayoutSnoc(rows: seq<seq<byte>>, r: seq<byte>, pitch: nat)
    requires forall y :: 0 <= y < |rows| ==> |rows[y]| <= pitch
    requires |r| <= pitch
    ensures Layout(rows + [r], pitch) == Layout(rows, pitch) + Pad(r, pitch)
  {
    assert (rows + [r])[..|rows|] == rows;
  }

  /** Row `y` of a buffer of `height` rows fits in it, and the next row starts one
      pitch later. */
  lemma RowInBuffer(y: nat, height: nat, pitch: nat)
    requires y < height
    ensures (y + 1) * pitch == y * pitch + pitch
    ensures y * pitch + pitch <= height * pitch
  {
    MulMono(y + 1, height, pitch);
  }

  /** Byte `i` of row `y` sits at offset `y * pitch + i`; bytes of a row past its
      data are zero padding. */
  lemma {:induction false} LayoutAt(rows: seq<seq<byte>>, pitch: nat, y: nat, i: nat)
    requires forall y :: 0 <= y < |rows| ==> |rows[y]| <= pitch
    requires y < |rows| && i < pitch
    ensures y * pitch + i < |Layout(rows, pitch)|
    ensures Layout(rows, pitch)[y * pitch + i] == if i < |rows[y]| then rows[y][i] else 0
  {
    var n := |rows| - 1;
    var init := rows[..n];
    var before := Layout(init, pitch);
    var last := Pad(rows[n], pitch);
    assert Layout(rows, pitch) == before + last;
    LayoutLength(init, pitch);
    LayoutLength(rows, pitch);
    RowInBuffer(y, |rows|, pitch);
    if y < n {
      RowInBuffer(y, n, pitch);
      LayoutAt(init, pitch, y, i);
      assert init[y] == rows[y];
    } else {
      assert |before| == y * pitch;
    }
  }

  /** An SDL surface as the loader sees it. The buffer is a fresh, zero-filled array
      of `height * pitch` bytes; only the palette and the pixels change afterwards. */
  class Surface {
    const width: nat
    const height: nat
    const format: PixelFormat
    const pitch: nat
    const pixels: array<byte>
    var palette: seq<Color>

    ghost predicate Valid()
      reads this
    {
      0 < width && 0 < height &&
      RowBytes(width, format) <= pitch &&
      pixels.Length == height * pitch
    }

    /** `SDL_CreateSurface(width, height, format)`, with the pitch SDL chooses given as
        the data bytes of a row plus `padding`. */
    constructor (width: nat, height: nat, format: PixelFormat, padding: nat)
      requires 0 < width && 0 < height
      ensures Valid() && fresh(pixels)
      ensures this.width == width && this.height == height && this.format == format
      ensures pitch == RowBytes(width, format) + padding
      ensures palette == []
      ensures forall k :: 0 <= k < pixels.Length ==> pixels[k] == 0
    {
      this.width := width;
      this.height := height;
      this.format := format;
      var pitch := RowBytes(width, format) + padding;
      this.pitch := pitch;
      pixels := new byte[height * pitch](_ => 0);
      palette := [];
    }

    /** The surface is the image `img`. */
    ghost predicate Holds(img: Image)
      reads this, pixels
    {
      img.Valid() &&
      width == img.width && height == img.height && format == img.format &&
      pitch == img.pitch && palette == img.palette &&
      pixels[..] == Layout(img.rows, pitch)
    }
  }
}
