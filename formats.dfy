/** The PNM variants named by the magic number, the surface pixel formats and
    palettes the loader chooses for them. */
module Formats {
  import opened Bytes

  /** The loader's image kinds: bitmap, graymap, pixmap, and `PAM`, which stands for
      every value of the loader's kind other than the first three (`PAM` itself for
      `P7`); the loader compares its kind only with the first three, so all such
      values behave alike. */
  datatype Kind = PBM | PGM | PPM | PAM

  /** The kind and whether samples are ASCII or binary. */
  datatype Variant = Variant(kind: Kind, ascii: bool)

  /** `SDL_PIXELFORMAT_INDEX8` or `SDL_PIXELFORMAT_RGB24`. */
  datatype PixelFormat = Index8 | Rgb24

  datatype Color = Color(r: byte, g: byte, b: byte)

  /** The sniffer's test of the first two bytes: `'P'` then `'1'..'6'`. */
  predicate IsMagic(m0: byte, m1: byte) {
    m0 == LETTER_P && ONE <= m1 <= SIX
  }

  /** The enumerator with value `k`. */
  function KindAt(k: nat): Kind {
    if k == 0 then PBM else if k == 1 then PGM else if k == 2 then PPM else PAM
  }

  function KindIndex(k: Kind): nat {
    match k
    case PBM => 0
    case PGM => 1
    case PPM => 2
    case PAM => 3
  }

  /** The loader's reading of the magic digit: `kind = magic[1] - '1'`, stored in the
      enum's unsigned 32-bit representation, and a kind of 3 or more is the binary
      form of `kind - 3`. */
  function VariantOf(digit: byte): Variant {
    var kind := (digit - ONE) % 0x1_0000_0000;
    if kind >= 3 then Variant(KindAt(kind - 3), false) else Variant(KindAt(kind), true)
  }

  /** The magic digit of a variant, as the format defines it. */
  function MagicDigit(v: Variant): (d: byte)
    requires v.kind != PAM
    ensures ONE <= d <= SIX
  {
    ONE + KindIndex(v.kind) + (if v.ascii then 0 else 3)
  }

  /** The loader's decoding of the magic digit inverts the format's encoding, both ways:
      the six digits and the six variants of the three kinds correspond one to one. */
  lemma MagicRoundTrip(v: Variant, digit: byte)
    requires v.kind != PAM
    ensures VariantOf(MagicDigit(v)) == v
    ensures ONE <= digit <= SIX ==> VariantOf(digit).kind != PAM && MagicDigit(VariantOf(digit)) == digit
  {
  }

  /** Every other digit, `'7'` (PAM) included, and also every byte below `'1'`, whose
      difference wraps around, is read as a binary image of none of the three kinds. */
  lemma OtherDigitsReadAsBinaryPam(digit: byte)
    ensures VariantOf(digit).kind == PAM <==> !(ONE <= digit <= SIX)
    ensures VariantOf(digit).kind == PAM ==> !VariantOf(digit).ascii
  {
  }

  /** `SDL_BYTESPERPIXEL`. */
  function BytesPerPixel(f: PixelFormat): nat {
    if f == Rgb24 then 3 else 1
  }

  /** PPM loads as 24-bit RGB; every other kind loads as 8-bit indexed. */
  function FormatOf(kind: Kind): (f: PixelFormat)
    ensures BytesPerPixel(f) == (if kind == PPM then 3 else 1)
  {
    if kind == PPM then Rgb24 else Index8
  }

  /** Bytes of one surface row that hold pixel data: `width * SDL_BYTESPERPIXEL`. */
  function RowBytes(width: nat, f: PixelFormat): nat {
    width * BytesPerPixel(f)
  }

  /** The palette entry the graymap loop writes at index `i`. */
  function Gray(i: byte): Color {
    Color(i, i, i)
  }

  const WHITE: Color := Color(255, 255, 255)
  const BLACK: Color := Color(0, 0, 0)

  /** Bitmaps have 1 = black and 0 = white. */
  const BITMAP_PALETTE: seq<Color> := [WHITE, BLACK]

  /** The 256-entry identity ramp of a graymap. */
  function GrayRamp(): (ramp: seq<Color>)
    ensures |ramp| == 256
  {
    seq(256, i requires 0 <= i < 256 => Gray(i))
  }

  /** The palette the loader gives a surface of each kind; it sets none on RGB
      surfaces and on the other kinds. */
  function PaletteOf(kind: Kind): (p: seq<Color>)
    ensures |p| == (if kind == PBM then 2 else if kind == PGM then 256 else 0)
  {
    match kind
    case PBM => BITMAP_PALETTE
    case PGM => GrayRamp()
    case PPM => []
    case PAM => []
  }

  /** Every palette index a bitmap or graymap pixel can hold selects the gray level
      the format assigns it: a graymap sample `i` shows as `(i, i, i)`, and a bitmap
      bit shows as white for 0 and black for 1. */
  lemma PaletteMeaning(kind: Kind, i: byte)
    ensures kind == PGM ==> PaletteOf(kind)[i] == Color(i, i, i)
    ensures kind == PBM && i <= 1 ==> PaletteOf(kind)[i] == Gray(255 - 255 * i)
    ensures kind == PPM || kind == PAM <==> PaletteOf(kind) == []
  {
  }
}
