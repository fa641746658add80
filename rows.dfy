/** The pixel decoder's row loop: four ways of producing one row (ASCII bitmap, ASCII
    samples, packed binary bitmap, binary copy), the rescale pass, and the loop over
    all rows that lays them out `pitch` bytes apart. */
module RowDecoder {
  import opened Wrappers
  import opened Bytes
  import opened IOStream
  import opened Tokenizer
  import opened Formats
  import opened Bitmap
  import opened Scaling
  import opened Surfaces
  import opened Arith

  /** What the row loop works from: the variant, the width in pixels, `bpl` (bytes
      read per binary row, or numbers read per ASCII row) and the maximum sample. */
  datatype RowFormat = RowFormat(variant: Variant, width: nat, bpl: nat, maxval: int)
  {
    /** Bytes written into each surface row. */
    function RowLength(): nat {
      RowBytes(width, FormatOf(variant.kind))
    }

    ghost predicate Valid() {
      0 < width && 1 <= maxval <= 255 &&
      (variant.kind == PBM ==> maxval == 255 && bpl == PackedLength(width)) &&
      (variant.kind != PBM ==> bpl == RowLength())
    }
  }

  /** One ASCII bitmap pixel and the cursor after it. */
  datatype Sample = Sample(value: byte, next: nat)

  /** One decoded row and the cursor after it. */
  datatype Decoded = Decoded(bytes: seq<byte>, next: nat)

  /** The decoded rows and the cursor after the last of them. */
  datatype Raster = Raster(rows: seq<seq<byte>>, next: nat)

  predicate IsBitChar(c: byte) {
    c == ZERO || c == ONE
  }

  // ---------------------------------------------------------------------------
  // Specification of one row.

  /** The ASCII bitmap pixel loop: read a byte and subtract `'0'` in eight bits,
      again and again until the result is 0 or 1. It therefore stores the next `'0'`
      or `'1'` as 0 or 1 and skips every other byte. */
  function NextBit(data: seq<byte>, p: nat): (r: Option<Sample>)
    requires p <= |data|
    ensures r.Some? ==> p < r.value.next <= |data| && IsBitChar(data[r.value.next - 1])
    ensures r.Some? ==> r.value.value == data[r.value.next - 1] - ZERO
    ensures r.Some? ==> forall k :: p <= k < r.value.next - 1 ==> !IsBitChar(data[k])
    ensures r.None? ==> forall k :: p <= k < |data| ==> !IsBitChar(data[k])
    decreases |data| - p
  {
    if p == |data| then None
    else
      var ch := (data[p] - ZERO) % 256;
      if ch <= 1 then Some(Sample(ch, p + 1)) else NextBit(data, p + 1)
  }

  /** `n` ASCII bitmap pixels. */
  function AsciiBitmapRow(data: seq<byte>, p: nat, n: nat): (r: Option<Decoded>)
    requires p <= |data|
    ensures r.Some? ==> |r.value.bytes| == n && p <= r.value.next <= |data|
    ensures r.Some? ==> AllBits(r.value.bytes)
  {
    if n == 0 then Some(Decoded([], p))
    else
      match AsciiBitmapRow(data, p, n - 1)
      case None => None
      case Some(Decoded(pixels, q)) =>
        match NextBit(data, q)
        case None => None
        case Some(Sample(b, q')) => Some(Decoded(pixels + [b], q'))
  }

  /** `n` ASCII samples, each read by `ReadNumber`; a `-1` fails the row, any other
      value is stored as its low byte. */
  function AsciiSampleRow(data: seq<byte>, p: nat, n: nat): (r: Option<Decoded>)
    requires p <= |data|
    ensures r.Some? ==> |r.value.bytes| == n && p <= r.value.next <= |data|
  {
    if n == 0 then Some(Decoded([], p))
    else
      match AsciiSampleRow(data, p, n - 1)
      case None => None
      case Some(Decoded(samples, q)) =>
        var c := NumberAt(data, q);
        if c.value < 0 then None else Some(Decoded(samples + [c.value % 256], c.next))
  }

  /** One row as read, before rescaling. A binary row is exactly `bpl` bytes, or the
      row fails. */
  function RawRow(data: seq<byte>, p: nat, f: RowFormat): (r: Option<Decoded>)
    requires p <= |data| && f.Valid()
    ensures r.Some? ==> |r.value.bytes| == f.RowLength() && p <= r.value.next <= |data|
    ensures r.Some? && f.variant.kind == PBM ==> AllBits(r.value.bytes)
  {
    if f.variant.ascii then
      if f.variant.kind == PBM then AsciiBitmapRow(data, p, f.width)
      else AsciiSampleRow(data, p, f.bpl)
    else if |data| - p < f.bpl then None
    else Some(Decoded(Expand(data[p..p + f.bpl], f), p + f.bpl))
  }

  /** The pixels of one binary row of `bpl` bytes: a packed bitmap row expanded to one
      byte per pixel, any other row as is. */
  function Expand(chunk: seq<byte>, f: RowFormat): (r: seq<byte>)
    requires f.Valid() && |chunk| == f.bpl
    ensures |r| == f.RowLength()
    ensures f.variant.kind == PBM ==> AllBits(r)
  {
    if f.variant.kind == PBM then Unpack(chunk, f.width) else chunk
  }

  /** One row as stored: read, then rescaled when `maxval < 255`. */
  function DecodeRow(data: seq<byte>, p: nat, f: RowFormat): (r: Option<Decoded>)
    requires p <= |data| && f.Valid()
    ensures r.Some? ==> |r.value.bytes| == f.RowLength() && p <= r.value.next <= |data|
    ensures r.Some? && f.variant.kind == PBM ==> AllBits(r.value.bytes)
  {
    match RawRow(data, p, f)
    case None => None
    case Some(Decoded(bytes, q)) => Some(Decoded(Scale(bytes, f.maxval), q))
  }

  /** The first `n` rows, each read where the previous one stopped. */
  function DecodeRows(data: seq<byte>, p: nat, n: nat, f: RowFormat): (r: Option<Raster>)
    requires p <= |data| && f.Valid()
    ensures r.Some? ==> |r.value.rows| == n && p <= r.value.next <= |data|
    ensures r.Some? ==> forall y :: 0 <= y < n ==> |r.value.rows[y]| == f.RowLength()
  {
    if n == 0 then Some(Raster([], p))
    else
      match DecodeRows(data, p, n - 1, f)
      case None => None
      case Some(Raster(rows, q)) =>
        match DecodeRow(data, q, f)
        case None => None
        case Some(Decoded(row, q')) => Some(Raster(rows + [row], q'))
  }

  /** Every row of a bitmap, ASCII or binary, holds only the pixel values 0 and 1. */
  lemma {:induction false} DecodeRowsBits(data: seq<byte>, p: nat, n: nat, f: RowFormat)
    requires p <= |data| && f.Valid() && f.variant.kind == PBM
    requires DecodeRows(data, p, n, f).Some?
    ensures forall y :: 0 <= y < n ==> AllBits(DecodeRows(data, p, n, f).value.rows[y])
  {
    if n > 0 {
      DecodeRowsBits(data, p, n - 1, f);
      var prev := DecodeRows(data, p, n - 1, f).value;
      var last := DecodeRow(data, prev.next, f).value;
      assert DecodeRows(data, p, n, f).value.rows == prev.rows + [last.bytes];
    }
  }

  /** A binary image is `n` rows of exactly `bpl` bytes each, back to back: it decodes
      exactly when that many bytes remain, and then ends right after them. */
  lemma {:induction false} BinaryRowsLength(data: seq<byte>, p: nat, n: nat, f: RowFormat)
    requires p <= |data| && f.Valid() && !f.variant.ascii
    ensures DecodeRows(data, p, n, f).Some? <==> p + n * f.bpl <= |data|
    ensures DecodeRows(data, p, n, f).Some? ==> DecodeRows(data, p, n, f).value.next == p + n * f.bpl
  {
    if n > 0 {
      BinaryRowsLength(data, p, n - 1, f);
      assert (n - 1) * f.bpl + f.bpl == n * f.bpl;
      if DecodeRows(data, p, n - 1, f).None? {
        MulMono(n - 1, n, f.bpl);
      }
    }
  }

  /** Row `y` of a decoded raster is the row decoded where the first `y` rows end. */
  lemma {:induction false} DecodeRowsAt(data: seq<byte>, p: nat, n: nat, f: RowFormat, y: nat)
    requires p <= |data| && f.Valid()
    requires DecodeRows(data, p, n, f).Some? && y < n
    ensures DecodeRows(data, p, y, f).Some?
    ensures DecodeRow(data, DecodeRows(data, p, y, f).value.next, f).Some?
    ensures DecodeRows(data, p, n, f).value.rows[y] == DecodeRow(data, DecodeRows(data, p, y, f).value.next, f).value.bytes
  {
    if y < n - 1 {
      DecodeRowsAt(data, p, n - 1, f, y);
      assert DecodeRows(data, p, n, f).value.rows[y] == DecodeRows(data, p, n - 1, f).value.rows[y];
    }
  }

  /** Row `y` of a binary image is the `y`-th chunk of `bpl` bytes, the one starting
      at `start == p + y * bpl`, expanded and rescaled. */
  lemma BinaryRowAt(data: seq<byte>, p: nat, n: nat, f: RowFormat, y: nat, start: nat)
    requires p <= |data| && f.Valid() && !f.variant.ascii
    requires DecodeRows(data, p, n, f).Some? && y < n && start == p + y * f.bpl
    ensures start + f.bpl <= |data|
    ensures DecodeRows(data, p, n, f).value.rows[y] == Scale(Expand(data[start..start + f.bpl], f), f.maxval)
  {
    DecodeRowsAt(data, p, n, f, y);
    BinaryRowsLength(data, p, y, f);
    assert DecodeRows(data, p, y, f).value.next == start;
  }

  /** Binary graymaps and pixmaps whose maximum is 255 are stored verbatim: row `y`
      is the `y`-th chunk of the payload. */
  lemma BinaryRowVerbatim(data: seq<byte>, p: nat, n: nat, f: RowFormat, y: nat, start: nat)
    requires p <= |data| && f.Valid() && !f.variant.ascii && f.variant.kind != PBM && f.maxval == 255
    requires DecodeRows(data, p, n, f).Some? && y < n && start == p + y * f.bpl
    ensures start + f.bpl <= |data|
    ensures DecodeRows(data, p, n, f).value.rows[y] == data[start..start + f.bpl]
  {
    BinaryRowAt(data, p, n, f, y, start);
  }

  /** Pixel `i` of an ASCII bitmap row is the next `'0'` or `'1'` after the bytes
      that gave the pixels before it. */
  lemma {:induction false} AsciiBitAt(data: seq<byte>, p: nat, n: nat, i: nat)
    requires p <= |data| && AsciiBitmapRow(data, p, n).Some? && i < n
    ensures AsciiBitmapRow(data, p, i).Some?
    ensures NextBit(data, AsciiBitmapRow(data, p, i).value.next).Some?
    ensures AsciiBitmapRow(data, p, n).value.bytes[i] == NextBit(data, AsciiBitmapRow(data, p, i).value.next).value.value
  {
    if i < n - 1 {
      AsciiBitAt(data, p, n - 1, i);
      assert AsciiBitmapRow(data, p, n).value.bytes[i] == AsciiBitmapRow(data, p, n - 1).value.bytes[i];
    }
  }

  /** Sample `i` of an ASCII row is the low byte of the `i`-th number, read where the
      numbers before it end; none of those numbers was an error. */
  lemma {:induction false} AsciiSampleAt(data: seq<byte>, p: nat, n: nat, i: nat)
    requires p <= |data| && AsciiSampleRow(data, p, n).Some? && i < n
    ensures AsciiSampleRow(data, p, i).Some?
    ensures NumberAt(data, AsciiSampleRow(data, p, i).value.next).value >= 0
    ensures AsciiSampleRow(data, p, n).value.bytes[i] == NumberAt(data, AsciiSampleRow(data, p, i).value.next).value % 256
  {
    if i < n - 1 {
      AsciiSampleAt(data, p, n - 1, i);
      assert AsciiSampleRow(data, p, n).value.bytes[i] == AsciiSampleRow(data, p, n - 1).value.bytes[i];
    }
  }

  // Once a row loop has failed, reading further items cannot make it succeed.

  lemma {:induction false} AsciiBitmapRowStaysFailed(data: seq<byte>, p: nat, k: nat, n: nat)
    requires p <= |data| && k <= n && AsciiBitmapRow(data, p, k).None?
    ensures AsciiBitmapRow(data, p, n).None?
    decreases n
  {
    if k < n {
      AsciiBitmapRowStaysFailed(data, p, k, n - 1);
    }
  }

  lemma {:induction false} AsciiSampleRowStaysFailed(data: seq<byte>, p: nat, k: nat, n: nat)
    requires p <= |data| && k <= n && AsciiSampleRow(data, p, k).None?
    ensures AsciiSampleRow(data, p, n).None?
    decreases n
  {
    if k < n {
      AsciiSampleRowStaysFailed(data, p, k, n - 1);
    }
  }

  lemma {:induction false} DecodeRowsStaysFailed(data: seq<byte>, p: nat, k: nat, n: nat, f: RowFormat)
    requires p <= |data| && f.Valid() && k <= n && DecodeRows(data, p, k, f).None?
    ensures DecodeRows(data, p, n, f).None?
    decreases n
  {
    if k < n {
      DecodeRowsStaysFailed(data, p, k, n - 1, f);
    }
  }

  /** One more pixel extends an ASCII bitmap row. */
  lemma AsciiBitmapRowStep(data: seq<byte>, p: nat, i: nat, bytes: seq<byte>, q: nat, b: byte, q': nat)
    requires p <= q <= |data|
    requires AsciiBitmapRow(data, p, i) == Some(Decoded(bytes, q))
    requires NextBit(data, q) == Some(Sample(b, q'))
    ensures AsciiBitmapRow(data, p, i + 1) == Some(Decoded(bytes + [b], q'))
  {
  }

  /** One more row extends the raster. */
  lemma DecodeRowsStep(data: seq<byte>, p: nat, n: nat, f: RowFormat,
                       rows: seq<seq<byte>>, q: nat, r: seq<byte>, q': nat)
    requires p <= |data| && f.Valid() && q <= |data|
    requires DecodeRows(data, p, n, f) == Some(Raster(rows, q))
    requires DecodeRow(data, q, f) == Some(Decoded(r, q'))
    ensures DecodeRows(data, p, n + 1, f) == Some(Raster(rows + [r], q'))
  {
  }

  /** A write confined to `after[row..row + n]` leaves the rest of the buffer as it was. */
  lemma Spliced(before: seq<byte>, after: seq<byte>, row: nat, n: nat)
    requires |before| == |after| && row + n <= |after|
    requires forall k :: 0 <= k < |after| && !(row <= k < row + n) ==> after[k] == before[k]
    ensures after == before[..row] + after[row..row + n] + before[row + n..]
  {
  }

  // ---------------------------------------------------------------------------
  // The row strategies, writing into `row[off..]`.

  /** The inner do-while loop of an ASCII bitmap row: read bytes until one minus
      `'0'` is at most 1 in eight-bit arithmetic. */
  method ReadBit(src: Stream) returns (ok: bool, bit: byte)
    requires src.Valid()
    modifies src
    ensures src.Valid()
    ensures var r := NextBit(src.data, old(src.pos));
      ok == r.Some? && (ok ==> bit == r.value.value && src.pos == r.value.next)
  {
    ghost var q := src.pos;
    while true
      invariant src.Valid() && q <= src.pos
      invariant NextBit(src.data, q) == NextBit(src.data, src.pos)
      decreases |src.data| - src.pos
    {
      var got, ch := src.ReadByte();
      if !got {
        return false, 0;
      }
      bit := (ch - ZERO) % 256;
      if bit <= 1 {
        return true, bit;
      }
    }
  }

  /** ASCII bitmap row (`P1`): `width` pixels, each the next `'0'` or `'1'`. */
  method ReadAsciiBitmapRow(src: Stream, row: array<byte>, off: nat, width: nat) returns (ok: bool)
    requires src.Valid() && off + width <= row.Length
    modifies src, row
    ensures src.Valid()
    ensures var r := AsciiBitmapRow(src.data, old(src.pos), width);
      ok == r.Some? && (ok ==> row[off..off + width] == r.value.bytes && src.pos == r.value.next)
    ensures forall k :: 0 <= k < row.Length && !(off <= k < off + width) ==> row[k] == old(row[k])
  {
    ghost var p0 := src.pos;
    assert row[off..off] == [];
    for i := 0 to width
      invariant src.Valid()
      invariant AsciiBitmapRow(src.data, p0, i) == Some(Decoded(row[off..off + i], src.pos))
      invariant forall k :: 0 <= k < row.Length && !(off <= k < off + width) ==> row[k] == old(row[k])
    {
      ghost var q := src.pos;
      ghost var before := row[off..off + i];
      var bit;
      ok, bit := ReadBit(src);
      if !ok {
        AsciiBitmapRowStaysFailed(src.data, p0, i + 1, width);
        return;
      }
      AsciiBitmapRowStep(src.data, p0, i, before, q, bit, src.pos);
      row[off + i] := bit;
      assert row[off..off + i + 1] == before + [bit];
    }
    ok := true;
  }

  /** ASCII sample row (`P2`, `P3`): `n` numbers, each stored as its low byte. */
  method ReadAsciiSampleRow(src: Stream, row: array<byte>, off: nat, n: nat) returns (ok: bool)
    requires src.Valid() && off + n <= row.Length
    modifies src, row
    ensures src.Valid()
    ensures var r := AsciiSampleRow(src.data, old(src.pos), n);
      ok == r.Some? && (ok ==> row[off..off + n] == r.value.bytes && src.pos == r.value.next)
    ensures forall k :: 0 <= k < row.Length && !(off <= k < off + n) ==> row[k] == old(row[k])
  {
    ghost var p0 := src.pos;
    assert row[off..off] == [];
    for i := 0 to n
      invariant src.Valid()
      invariant AsciiSampleRow(src.data, p0, i) == Some(Decoded(row[off..off + i], src.pos))
      invariant forall k :: 0 <= k < row.Length && !(off <= k < off + n) ==> row[k] == old(row[k])
    {
      var c := ReadNumber(src);
      if c < 0 {
        AsciiSampleRowStaysFailed(src.data, p0, i + 1, n);
        return false;
      }
      ghost var before := row[off..off + i];
      row[off + i] := c % 256;
      assert row[off..off + i + 1] == before + [c % 256];
    }
    ok := true;
  }

  /** Expands a packed bitmap row from the scratch buffer to one byte per pixel. */
  method UnpackRow(buf: array<byte>, row: array<byte>, off: nat, width: nat)
    requires width <= 8 * buf.Length && off + width <= row.Length && buf != row
    modifies row
    ensures row[off..off + width] == Unpack(buf[..], width)
    ensures forall k :: 0 <= k < row.Length && !(off <= k < off + width) ==> row[k] == old(row[k])
  {
    for i := 0 to width
      invariant forall k :: 0 <= k < i ==> row[off + k] == Unpack(buf[..], width)[k]
      invariant forall k :: 0 <= k < row.Length && !(off <= k < off + width) ==> row[k] == old(row[k])
    {
      var bit := 7 - i % 8;
      row[off + i] := Bit(buf[i / 8], bit);
    }
  }

  /** The rescale pass over the first `n` bytes of a row. */
  method RescaleRow(row: array<byte>, off: nat, n: nat, maxval: int)
    requires off + n <= row.Length && 1 <= maxval < 255
    modifies row
    ensures row[off..off + n] == Scale(old(row[off..off + n]), maxval)
    ensures forall k :: 0 <= k < row.Length && !(off <= k < off + n) ==> row[k] == old(row[k])
  {
    ghost var before := row[..];
    for i := 0 to n
      invariant forall k :: off <= k < off + i ==> row[k] == Rescale(before[k], maxval)
      invariant forall k :: 0 <= k < row.Length && !(off <= k < off + i) ==> row[k] == before[k]
    {
      row[off + i] := Rescale(row[off + i], maxval);
    }
  }

  /** A binary bitmap row: `bpl` packed bytes read into the scratch buffer, then
      expanded into the surface row. */
  method ReadPackedRow(src: Stream, pixels: array<byte>, off: nat, f: RowFormat, buf: array<byte>)
    returns (ok: bool)
    requires src.Valid() && f.Valid() && f.variant.kind == PBM && !f.variant.ascii
    requires off + f.RowLength() <= pixels.Length && buf.Length == f.bpl && buf != pixels
    modifies src, pixels, buf
    ensures src.Valid()
    ensures var r := RawRow(src.data, old(src.pos), f);
      ok == r.Some? && (ok ==> pixels[off..off + f.RowLength()] == r.value.bytes && src.pos == r.value.next)
    ensures forall k :: 0 <= k < pixels.Length && !(off <= k < off + f.RowLength()) ==> pixels[k] == old(pixels[k])
  {
    ghost var p0 := src.pos;
    assert f.RowLength() == f.width;
    var count := src.Read(buf, 0, f.bpl);
    ok := count == f.bpl;
    if ok {
      ghost var chunk := src.data[p0..p0 + f.bpl];
      assert buf[..] == chunk;
      assert RawRow(src.data, p0, f) == Some(Decoded(Unpack(chunk, f.width), src.pos));
      UnpackRow(buf, pixels, off, f.width);
    }
  }

  /** A binary graymap or pixmap row: `bpl` bytes read straight into the surface row. */
  method ReadBinaryRow(src: Stream, pixels: array<byte>, off: nat, f: RowFormat)
    returns (ok: bool)
    requires src.Valid() && f.Valid() && f.variant.kind != PBM && !f.variant.ascii
    requires off + f.RowLength() <= pixels.Length
    modifies src, pixels
    ensures src.Valid()
    ensures var r := RawRow(src.data, old(src.pos), f);
      ok == r.Some? && (ok ==> pixels[off..off + f.RowLength()] == r.value.bytes && src.pos == r.value.next)
    ensures forall k :: 0 <= k < pixels.Length && !(off <= k < off + f.RowLength()) ==> pixels[k] == old(pixels[k])
  {
    var count := src.Read(pixels, off, f.bpl);
    ok := count == f.bpl;
  }

  /** One row as read, by the strategy the variant selects. */
  method ReadRawRow(src: Stream, pixels: array<byte>, off: nat, f: RowFormat, buf: array?<byte>)
    returns (ok: bool)
    requires src.Valid() && f.Valid() && off + f.RowLength() <= pixels.Length
    requires f.variant.kind == PBM && !f.variant.ascii ==> buf != null && buf.Length == f.bpl
    requires buf != pixels
    modifies src, pixels, buf
    ensures src.Valid()
    ensures var r := RawRow(src.data, old(src.pos), f);
      ok == r.Some? && (ok ==> pixels[off..off + f.RowLength()] == r.value.bytes && src.pos == r.value.next)
    ensures forall k :: 0 <= k < pixels.Length && !(off <= k < off + f.RowLength()) ==> pixels[k] == old(pixels[k])
  {
    if f.variant.ascii {
      if f.variant.kind == PBM {
        ok := ReadAsciiBitmapRow(src, pixels, off, f.width);
      } else {
        ok := ReadAsciiSampleRow(src, pixels, off, f.bpl);
      }
    } else if f.variant.kind == PBM {
      ok := ReadPackedRow(src, pixels, off, f, buf);
    } else {
      ok := ReadBinaryRow(src, pixels, off, f);
    }
  }

  /** One iteration of the row loop: decode one row into `pixels[off..]`, then
      rescale it if `maxval < 255`. */
  method ReadRow(src: Stream, pixels: array<byte>, off: nat, f: RowFormat, buf: array?<byte>)
    returns (ok: bool)
    requires src.Valid() && f.Valid() && off + f.RowLength() <= pixels.Length
    requires f.variant.kind == PBM && !f.variant.ascii ==> buf != null && buf.Length == f.bpl
    requires buf != pixels
    modifies src, pixels, buf
    ensures src.Valid()
    ensures var r := DecodeRow(src.data, old(src.pos), f);
      ok == r.Some? && (ok ==> pixels[off..off + f.RowLength()] == r.value.bytes && src.pos == r.value.next)
    ensures forall k :: 0 <= k < pixels.Length && !(off <= k < off + f.RowLength()) ==> pixels[k] == old(pixels[k])
  {
    ok := ReadRawRow(src, pixels, off, f, buf);
    if ok && f.maxval < 255 {
      RescaleRow(pixels, off, f.bpl, f.maxval);
    }
  }

  /** The buffer `cells` is `rows` laid out `pitch` bytes apart, then zeros. */
  ghost predicate Laid(rows: seq<seq<byte>>, pitch: nat, cells: seq<byte>) {
    && (forall j :: 0 <= j < |rows| ==> |rows[j]| <= pitch)
    && |Layout(rows, pitch)| <= |cells|
    && cells == Layout(rows, pitch) + Zeros(|cells| - |Layout(rows, pitch)|)
  }

  /** A row followed by zeros is that row padded to the pitch, then fewer zeros. */
  lemma PadThenZeros(layout: seq<byte>, r: seq<byte>, pitch: nat, m: nat, cells: seq<byte>)
    requires |r| <= pitch <= m
    requires cells == layout + r + Zeros(m - |r|)
    ensures cells == layout + Pad(r, pitch) + Zeros(m - pitch)
  {
    assert Zeros(m - |r|) == Zeros(pitch - |r|) + Zeros(m - pitch);
  }

  /** Writing `n <= pitch` bytes just after the laid-out rows lays out one more row. */
  lemma LaidStep(rows: seq<seq<byte>>, pitch: nat, before: seq<byte>, after: seq<byte>, n: nat)
    requires Laid(rows, pitch, before) && n <= pitch
    requires |Layout(rows, pitch)| + pitch <= |before| == |after|
    requires var row := |Layout(rows, pitch)|;
      after == before[..row] + after[row..row + n] + before[row + n..]
    ensures var row := |Layout(rows, pitch)|;
      Laid(rows + [after[row..row + n]], pitch, after)
  {
    var layout := Layout(rows, pitch);
    var row := |layout|;
    var m := |before| - row;
    var r := after[row..row + n];
    var rows' := rows + [r];
    assert forall j :: 0 <= j < |rows'| ==> |rows'[j]| <= pitch by {
      assert forall j :: 0 <= j < |rows| ==> rows'[j] == rows[j];
    }
    assert before[..row] == layout && before[row + n..] == Zeros(m - n);
    PadThenZeros(layout, r, pitch, m, after);
    LayoutSnoc(rows, r, pitch);
  }

  /** The state of the row loop after `y` rows: the rows decoded so far sit at the
      start of the buffer, `pitch` bytes apart, and everything after them is still zero. */
  ghost predicate Filled(data: seq<byte>, p0: nat, y: nat, f: RowFormat, pitch: nat,
                         rows: seq<seq<byte>>, pos: nat, cells: seq<byte>)
  {
    && p0 <= |data| && f.Valid() && f.RowLength() <= pitch
    && DecodeRows(data, p0, y, f) == Some(Raster(rows, pos))
    && |rows| == y && Laid(rows, pitch, cells)
  }

  /** One more decoded row, written just after the rows laid out so far, keeps the
      row loop's state. */
  lemma FilledStep(data: seq<byte>, p0: nat, y: nat, f: RowFormat, pitch: nat, rows: seq<seq<byte>>, p: nat,
                   before: seq<byte>, after: seq<byte>, r: seq<byte>, q: nat)
    requires Filled(data, p0, y, f, pitch, rows, p, before)
    requires |Layout(rows, pitch)| + pitch <= |before| == |after|
    requires DecodeRow(data, p, f) == Some(Decoded(r, q))
    requires var row := |Layout(rows, pitch)|;
      after == before[..row] + r + before[row + |r|..]
    ensures Filled(data, p0, y + 1, f, pitch, rows + [r], q, after)
  {
    var row := |Layout(rows, pitch)|;
    DecodeRowsStep(data, p0, y, f, rows, p, r, q);
    assert after[row..row + |r|] == r;
    LaidStep(rows, pitch, before, after, |r|);
  }

  /** The body of the row loop: decodes row `y` into `pixels[y * pitch..]`. */
  method ReadNextRow(src: Stream, pixels: array<byte>, height: nat, pitch: nat, f: RowFormat, buf: array?<byte>,
                     y: nat, ghost p0: nat, ghost rows: seq<seq<byte>>)
    returns (ok: bool, ghost rows': seq<seq<byte>>)
    requires src.Valid() && f.Valid() && y < height
    requires f.RowLength() <= pitch && pixels.Length == height * pitch
    requires f.variant.kind == PBM && !f.variant.ascii ==> buf != null && buf.Length == f.bpl
    requires buf != pixels
    requires Filled(src.data, p0, y, f, pitch, rows, src.pos, pixels[..])
    modifies src, pixels, buf
    ensures src.Valid()
    ensures ok ==> Filled(src.data, p0, y + 1, f, pitch, rows', src.pos, pixels[..])
    ensures !ok ==> DecodeRows(src.data, p0, y + 1, f).None?
  {
    RowInBuffer(y, height, pitch);
    var row := y * pitch;
    LayoutLength(rows, pitch);
    ghost var before := pixels[..];
    ghost var p := src.pos;
    ok := ReadRow(src, pixels, row, f, buf);
    rows' := rows;
    if ok {
      ghost var r := pixels[row..row + f.RowLength()];
      Spliced(before, pixels[..], row, f.RowLength());
      FilledStep(src.data, p0, y, f, pitch, rows, p, before, pixels[..], r, src.pos);
      rows' := rows + [r];
    }
  }

  /** The row loop: `height` rows, the row start advancing by `pitch` each time. */
  method ReadPixels(src: Stream, pixels: array<byte>, height: nat, pitch: nat, f: RowFormat, buf: array?<byte>)
    returns (ok: bool)
    requires src.Valid() && f.Valid()
    requires f.RowLength() <= pitch && pixels.Length == height * pitch
    requires f.variant.kind == PBM && !f.variant.ascii ==> buf != null && buf.Length == f.bpl
    requires buf != pixels
    requires forall k :: 0 <= k < pixels.Length ==> pixels[k] == 0
    modifies src, pixels, buf
    ensures src.Valid()
    ensures var r := DecodeRows(src.data, old(src.pos), height, f);
      ok == r.Some? && (ok ==> src.pos == r.value.next && pixels[..] == Layout(r.value.rows, pitch))
  {
    ghost var p0 := src.pos;
    ghost var rows: seq<seq<byte>> := [];
    assert pixels[..] == Layout(rows, pitch) + Zeros(pixels.Length);
    for y := 0 to height
      invariant src.Valid()
      invariant Filled(src.data, p0, y, f, pitch, rows, src.pos, pixels[..])
    {
      ok, rows := ReadNextRow(src, pixels, height, pitch, f, buf, y, p0, rows);
      if !ok {
        DecodeRowsStaysFailed(src.data, p0, y + 1, height, f);
        return;
      }
    }
    ok := true;
    LayoutLength(rows, pitch);
    assert Zeros(0) == [];
  }
}
