/** `IMG_LoadPNM_IO`: read the magic number and the header, create the surface and
    its palette, decode the rows, and on any failure restore the stream and return
    no surface. */
module PnmLoader {
  import opened Wrappers
  import opened Bytes
  import opened IOStream
  import opened Tokenizer
  import opened Formats
  import opened Bitmap
  import opened Surfaces
  import opened RowDecoder

  /** The messages the loader reports through `SDL_SetError`. */
  datatype LoadError =
    | BadDimensions     // "Unable to read image width and height"
    | UnsupportedFormat // "unsupported PNM format"
    | OutOfMemory       // "Out of memory"
    | PaletteFailure    // "Couldn't create palette"
    | Truncated         // "file truncated"

  /** Which of the loader's allocations the runtime refuses, if any. */
  datatype Allocation = AllSucceed | SurfaceFails | PaletteFails | ScratchFails

  /** What one call of the loader does, with the stream position it leaves behind. */
  datatype Outcome =
    | ShortMagic(pos: nat)               // no surface, no error set, position not restored
    | Failed(error: LoadError, pos: nat) // no surface, error set, position restored
    | Loaded(image: Image, pos: nat)     // the surface; position after the last read

  /** The numbers of the header that follow the magic number. */
  datatype Header = Header(width: int, height: int, maxval: int, next: nat)

  /** The header at offset `p`: width and height, which must both be positive, then
      for graymaps and pixmaps the maximum sample value, which must lie in 1..255;
      bitmaps have no maximum and are never scaled. */
  function HeaderAt(data: seq<byte>, p: nat, kind: Kind): (r: Result<Header, LoadError>)
    requires p <= |data|
    ensures r.Success? ==>
      0 < r.value.width && 0 < r.value.height && 0 < r.value.maxval <= 255 &&
      p < r.value.next <= |data| && (kind == PBM ==> r.value.maxval == 255)
    ensures r.Failure? ==> r.error == BadDimensions || r.error == UnsupportedFormat
    ensures r.Failure? && r.error == UnsupportedFormat ==> kind != PBM
  {
    var width := NumberAt(data, p);
    var height := NumberAt(data, width.next);
    if width.value <= 0 || height.value <= 0 then Failure(BadDimensions)
    else if kind == PBM then Success(Header(width.value, height.value, 255, height.next))
    else
      var maxval := NumberAt(data, height.next);
      if maxval.value <= 0 || maxval.value > 255 then Failure(UnsupportedFormat)
      else Success(Header(width.value, height.value, maxval.value, maxval.next))
  }

  /** What the header means: width and height are the first two numbers read, and
      the load fails with the dimensions error exactly when one of them is not
      positive; otherwise, except for bitmaps, the maximum is the third number read,
      and the load fails as unsupported exactly when it lies outside 1..255. */
  lemma HeaderMeaning(data: seq<byte>, p: nat, kind: Kind)
    requires p <= |data|
    ensures var w := NumberAt(data, p);
      var h := NumberAt(data, w.next);
      var r := HeaderAt(data, p, kind);
      (r == Failure(BadDimensions) <==> w.value <= 0 || h.value <= 0) &&
      (r.Success? ==> r.value.width == w.value && r.value.height == h.value) &&
      (kind == PBM && r.Success? ==> r.value.next == h.next)
    ensures kind != PBM ==>
      var w := NumberAt(data, p);
      var h := NumberAt(data, w.next);
      var m := NumberAt(data, h.next);
      var r := HeaderAt(data, p, kind);
      (r == Failure(UnsupportedFormat) <==> 0 < w.value && 0 < h.value && !(0 < m.value <= 255)) &&
      (r.Success? ==> r.value.maxval == m.value && r.value.next == m.next)
  {
  }

  /** The refusal the loader meets, if any, when it creates the surface, the
      palette of a graymap or bitmap, and the scratch row of a bitmap. */
  function AllocationError(allocation: Allocation, kind: Kind): (e: Option<LoadError>)
    ensures e.Some? ==> e.value == OutOfMemory || e.value == PaletteFailure
    ensures allocation == AllSucceed ==> e.None?
    ensures kind == PPM || kind == PAM ==> (e.Some? <==> allocation == SurfaceFails)
  {
    if allocation == SurfaceFails then Some(OutOfMemory)
    else if allocation == PaletteFails && (kind == PGM || kind == PBM) then Some(PaletteFailure)
    else if allocation == ScratchFails && kind == PBM then Some(OutOfMemory)
    else None
  }

  /** How the row loop reads an image with header `h`: a bitmap row is read as
      `(width + 7) / 8` packed bytes, any other row as `width` times the bytes per pixel. */
  function RowFormatFor(variant: Variant, h: Header): (f: RowFormat)
    requires 0 < h.width && 0 < h.maxval <= 255 && (variant.kind == PBM ==> h.maxval == 255)
    ensures f.Valid() && f.variant == variant && f.width == h.width && f.maxval == h.maxval
  {
    var bpl := if variant.kind == PBM then PackedLength(h.width) else RowBytes(h.width, FormatOf(variant.kind));
    RowFormat(variant, h.width, bpl, h.maxval)
  }

  /** A decoded image and the cursor after its last row. */
  datatype Decoding = Decoding(image: Image, next: nat)

  /** Everything after the magic number, read from offset `p`: the header, the
      allocations, then the rows. */
  function Decode(data: seq<byte>, p: nat, variant: Variant, padding: nat, allocation: Allocation)
    : (r: Result<Decoding, LoadError>)
    requires p <= |data|
    ensures r.Success? ==> p < r.value.next <= |data| && r.value.image.Valid()
    ensures r.Success? ==>
      r.value.image.format == FormatOf(variant.kind) && r.value.image.palette == PaletteOf(variant.kind) &&
      r.value.image.pitch == r.value.image.RowLength() + padding
    ensures allocation == AllSucceed && r.Failure? ==> r.error != OutOfMemory && r.error != PaletteFailure
  {
    match HeaderAt(data, p, variant.kind)
    case Failure(e) => Failure(e)
    case Success(h) =>
      match AllocationError(allocation, variant.kind)
      case Some(e) => Failure(e)
      case None =>
        var format := FormatOf(variant.kind);
        match DecodeRows(data, h.next, h.height, RowFormatFor(variant, h))
        case None => Failure(Truncated)
        case Some(Raster(rows, q)) =>
          Success(Decoding(Image(h.width, h.height, format, RowBytes(h.width, format) + padding,
                                 PaletteOf(variant.kind), rows), q))
  }

  /** The loader started at offset `start` of `data`. */
  function Load(data: seq<byte>, start: nat, padding: nat, allocation: Allocation): (r: Outcome)
    requires start <= |data|
    ensures r.ShortMagic? <==> |data| < start + 2
    ensures r.ShortMagic? ==> r.pos == |data|
    ensures r.Failed? ==> r.pos == start
    ensures r.Loaded? ==> start + 2 < r.pos <= |data| && r.image.Valid()
    ensures r.Loaded? ==>
      var kind := VariantOf(data[start + 1]).kind;
      r.image.format == FormatOf(kind) && r.image.palette == PaletteOf(kind) &&
      r.image.pitch == r.image.RowLength() + padding
  {
    if |data| < start + 2 then ShortMagic(|data|)
    else
      match Decode(data, start + 2, VariantOf(data[start + 1]), padding, allocation)
      case Failure(e) => Failed(e, start)
      case Success(Decoding(image, q)) => Loaded(image, q)
  }

  /** A loaded image has the width and height its header declares: the first two
      numbers after the magic number. */
  lemma LoadedDimensions(data: seq<byte>, start: nat, padding: nat, allocation: Allocation)
    requires start <= |data|
    requires Load(data, start, padding, allocation).Loaded?
    ensures var image := Load(data, start, padding, allocation).image;
      var w := NumberAt(data, start + 2);
      image.width == w.value && image.height == NumberAt(data, w.next).value
  {
  }

  /** A loaded bitmap, ASCII or binary, holds only the pixel values 0 and 1, the
      indices into its two-colour palette. */
  lemma LoadedBitmapsAreBits(data: seq<byte>, start: nat, padding: nat, allocation: Allocation)
    requires start <= |data|
    requires Load(data, start, padding, allocation).Loaded? && VariantOf(data[start + 1]).kind == PBM
    ensures var image := Load(data, start, padding, allocation).image;
      forall y :: 0 <= y < image.height ==> AllBits(image.rows[y])
  {
    var v := VariantOf(data[start + 1]);
    var h := HeaderAt(data, start + 2, v.kind).value;
    DecodeRowsBits(data, h.next, h.height, RowFormatFor(v, h));
  }

  /** With every allocation granted, a binary image whose header is valid loads
      exactly when its whole payload, `height` rows of `bpl` bytes, is present, and
      the cursor then stands right after the payload. */
  lemma BinaryLoadNeedsWholePayload(data: seq<byte>, start: nat, padding: nat)
    requires start + 2 <= |data| && !VariantOf(data[start + 1]).ascii
    requires HeaderAt(data, start + 2, VariantOf(data[start + 1]).kind).Success?
    ensures
      var v := VariantOf(data[start + 1]);
      var h := HeaderAt(data, start + 2, v.kind).value;
      var end := h.next + h.height * RowFormatFor(v, h).bpl;
      var r := Load(data, start, padding, AllSucceed);
      (r.Loaded? <==> end <= |data|) && (r.Loaded? ==> r.pos == end) &&
      (!r.Loaded? ==> r == Failed(Truncated, start))
  {
    var v := VariantOf(data[start + 1]);
    var h := HeaderAt(data, start + 2, v.kind).value;
    BinaryRowsLength(data, h.next, h.height, RowFormatFor(v, h));
  }

  /** Reads width and height and fails if either is not positive; otherwise, except for
      bitmaps, reads the maximum and fails if it lies outside 1..255. */
  method ReadHeader(src: Stream, kind: Kind) returns (r: Result<Header, LoadError>)
    requires src.Valid()
    modifies src
    ensures src.Valid()
    ensures r == HeaderAt(src.data, old(src.pos), kind)
    ensures r.Success? ==> src.pos == r.value.next
  {
    var width := ReadNumber(src);
    var height := ReadNumber(src);
    if width <= 0 || height <= 0 {
      return Failure(BadDimensions);
    }
    var maxval := 255; // bitmaps are never scaled
    if kind != PBM {
      maxval := ReadNumber(src);
      if maxval <= 0 || maxval > 255 {
        return Failure(UnsupportedFormat);
      }
    }
    r := Success(Header(width, height, maxval, src.pos));
  }

  /** Fills the 256 palette entries of a graymap with the gray ramp. */
  method FillGrayPalette() returns (palette: seq<Color>)
    ensures palette == GrayRamp()
  {
    var colors := new Color[256](_ => WHITE);
    for i := 0 to 256
      invariant forall j :: 0 <= j < i ==> colors[j] == Gray(j)
    {
      colors[i] := Gray(i);
    }
    palette := colors[..];
  }

  /** Creates the surface, its palette and, for a bitmap, the scratch row, stopping
      at the first allocation the runtime refuses. */
  method CreateSurface(h: Header, kind: Kind, padding: nat, allocation: Allocation)
    returns (surface: Surface?, buf: array?<byte>, error: Option<LoadError>)
    requires 0 < h.width && 0 < h.height
    ensures error == AllocationError(allocation, kind)
    ensures error.None? ==>
      surface != null && fresh(surface) && fresh(surface.pixels) && surface.Valid() &&
      surface.width == h.width && surface.height == h.height && surface.format == FormatOf(kind) &&
      surface.pitch == RowBytes(h.width, FormatOf(kind)) + padding &&
      surface.palette == PaletteOf(kind) &&
      (forall k :: 0 <= k < surface.pixels.Length ==> surface.pixels[k] == 0)
    ensures error.None? && kind == PBM ==> buf != null && buf.Length == PackedLength(h.width)
    ensures buf != null ==> fresh(buf) && surface != null && buf != surface.pixels
  {
    buf := null;
    if allocation == SurfaceFails {
      return null, buf, Some(OutOfMemory);
    }
    surface := new Surface(h.width, h.height, FormatOf(kind), padding);
    error := None;
    if kind == PGM {
      if allocation == PaletteFails {
        return surface, buf, Some(PaletteFailure);
      }
      surface.palette := FillGrayPalette();
    } else if kind == PBM {
      if allocation == PaletteFails {
        return surface, buf, Some(PaletteFailure);
      }
      surface.palette := BITMAP_PALETTE;
      if allocation == ScratchFails {
        return surface, buf, Some(OutOfMemory);
      }
      buf := new byte[PackedLength(h.width)];
    }
  }

  /** The loader after the magic number; a failure leaves the stream where it stopped. */
  method DecodeImage(src: Stream, variant: Variant, padding: nat, allocation: Allocation)
    returns (surface: Surface?, error: Option<LoadError>)
    requires src.Valid()
    modifies src
    ensures src.Valid()
    ensures var r := Decode(src.data, old(src.pos), variant, padding, allocation);
      (r.Failure? ==> error == Some(r.error)) &&
      (r.Success? ==> error == None && src.pos == r.value.next && surface != null &&
                      fresh(surface) && fresh(surface.pixels) && surface.Valid() && surface.Holds(r.value.image))
  {
    ghost var p := src.pos;
    var header := ReadHeader(src, variant.kind);
    if header.Failure? {
      return null, Some(header.error);
    }
    var h := header.value;
    var buf;
    surface, buf, error := CreateSurface(h, variant.kind, padding, allocation);
    if error.Some? {
      return;
    }
    var f := RowFormatFor(variant, h);
    var ok := ReadPixels(src, surface.pixels, surface.height, surface.pitch, f, buf);
    if !ok {
      return surface, Some(Truncated);
    }
    assert Decode(src.data, p, variant, padding, allocation).value.image.rows
        == DecodeRows(src.data, h.next, h.height, f).value.rows;
  }

  /** Reads the two magic bytes. A short read fails with the cursor at the end of the
      data; the loader then gives up without restoring it. The letter is not checked. */
  method ReadMagic(src: Stream) returns (ok: bool, digit: byte)
    requires src.Valid()
    modifies src
    ensures src.Valid()
    ensures ok <==> old(src.pos) + 2 <= |src.data|
    ensures ok ==> digit == src.data[old(src.pos) + 1] && src.pos == old(src.pos) + 2
    ensures !ok ==> src.pos == |src.data|
  {
    var magic := new byte[2];
    var count := src.Read(magic, 0, 2);
    ok := count == 2;
    digit := magic[1];
    assert ok ==> magic[..] == src.data[old(src.pos)..src.pos];
  }

  /** `IMG_LoadPNM_IO`. `padding` stands for the bytes SDL adds to each row to align
      the pitch, `allocation` for the allocations the runtime may refuse. */
  method LoadPNM(src: Stream?, padding: nat, allocation: Allocation) returns (surface: Surface?, error: Option<LoadError>)
    requires src != null ==> src.Valid()
    modifies src
    ensures src == null ==> surface == null && error == None
    ensures src != null ==> src.Valid() && src.pos == Load(src.data, old(src.pos), padding, allocation).pos
    ensures src != null && Load(src.data, old(src.pos), padding, allocation).ShortMagic? ==>
      surface == null && error == None
    ensures src != null && Load(src.data, old(src.pos), padding, allocation).Failed? ==>
      surface == null && error == Some(Load(src.data, old(src.pos), padding, allocation).error)
    ensures src != null && Load(src.data, old(src.pos), padding, allocation).Loaded? ==>
      surface != null && fresh(surface) && fresh(surface.pixels) && surface.Valid() &&
      surface.Holds(Load(src.data, old(src.pos), padding, allocation).image) && error == None
  {
    if src == null {
      return null, None;
    }
    var start := src.Tell();
    var ok, digit := ReadMagic(src);
    if !ok {
      return null, None;
    }
    surface, error := DecodeImage(src, VariantOf(digit), padding, allocation);
    if error.Some? {
      src.Seek(start);
      surface := null;
    }
  }
}
