# PNM loader of SDL_image, modelled in Dafny

This project models the Netpbm loader of SDL_image (`src/IMG_pnm.c`). It covers three
functions:

- **`IMG_isPNM`** checks whether a stream starts with one of the magic numbers `P1` to
  `P6`, then puts the stream back where it was.
- **`ReadNumber`** reads one header number. It skips whitespace and `#` comments, then
  reads a decimal run. It refuses any value that could overflow a C `int`.
- **`IMG_LoadPNM_IO`** loads the image:
  - reads the magic number and the header (width, height and, except for bitmaps, the
    maximum sample value);
  - creates an RGB24 surface for pixmaps and an INDEX8 surface for every other kind;
  - gives graymaps a gray-ramp palette and bitmaps a white/black palette;
  - decodes every row into the pixel buffer, one row every `pitch` bytes. A row may be
    ASCII bits, ASCII numbers, packed binary bits or raw binary bytes;
  - rescales samples to 0..255 when the maximum is below 255;
  - on any error, puts the stream back at its start and returns no surface.

The model has the same shape as the C:

- **The stream** is a class, `IOStream.Stream`, holding the bytes and a cursor.
- **The surface** is a class, `Surfaces.Surface`, whose pixels are an `array<byte>`.
- **Each C loop** is a method with a loop and its invariants.
- **A specification function** sits beside each method and says in one expression what
  the method computes:
  - `Tokenizer.NumberAt`
  - `RowDecoder.NextBit`, `AsciiBitmapRow`, `AsciiSampleRow`, `RawRow`, `DecodeRow`
    and `DecodeRows`
  - `PnmLoader.HeaderAt`, `Decode` and `Load`

  Each method's postcondition ties its result and the new state to its specification
  function.
- **Independent definitions.** Lemmas then relate the specification functions to
  definitions that do not follow the loops:
  - a decimal numeral's value (`DecimalValue`);
  - a grammar of whitespace and comments (`Blank`);
  - row packing (`Bitmap.Pack`), the inverse of unpacking;
  - a declarative buffer layout (`Surfaces.Layout`);
  - the six magic numbers (`Sniffer.Magic`).

The files, in dependency order:

| file | module | contents |
|---|---|---|
| `wrappers.dfy` | `Wrappers` | `Option` and `Result` |
| `bytes.dfy` | `Bytes` | octets, ASCII constants, `SDL_isspace` and `SDL_isdigit` |
| `arith.dfy` | `Arith` | monotonicity of multiplication and division |
| `stream.dfy` | `IOStream` | the stream class (`SDL_TellIO`, `SDL_SeekIO`, `SDL_ReadIO`) |
| `tokenizer.dfy` | `Tokenizer` | `ReadNumber` and what it means |
| `formats.dfy` | `Formats` | magic digits, kinds, pixel formats, palettes |
| `bitmap.dfy` | `Bitmap` | bit extraction for `P4` rows, and its inverse |
| `scaling.dfy` | `Scaling` | the rescale to 0..255 |
| `surface.dfy` | `Surfaces` | the surface class and the layout of rows in its buffer |
| `rows.dfy` | `RowDecoder` | the row loop and its four row readers |
| `loader.dfy` | `PnmLoader` | `IMG_LoadPNM_IO` |
| `sniffer.dfy` | `Sniffer` | `IMG_isPNM` |

## Model

| member | source | states |
|---|---|---|
| Sniffer.IsPNM | src/IMG_pnm.c:35-64 | A missing stream is not a PNM. Otherwise the answer is true exactly when two bytes remain and they are `'P'` and a digit `'1'..'6'`. The stream position is restored in every case. |
| Sniffer.Magic | src/IMG_pnm.c:48-58 | The magic number of each of the six variants is two bytes that the sniffer accepts. |
| Sniffer.SniffsExactlyTheSixMagicNumbers | src/IMG_pnm.c:58 | The sniffer accepts exactly the six magic numbers `P1`..`P6`, in both directions. `P7` (PAM) and every other pair are refused. |
| Sniffer.SniffedStreamsAreLoadable | src/IMG_pnm.c:135-140 | On a stream the sniffer accepts, the loader decodes the digit as the very variant the magic number names, one of the three kinds. |
| IOStream.Stream.Tell | src/IMG_pnm.c:130 | Reports the cursor and changes nothing. |
| IOStream.Stream.Seek | src/IMG_pnm.c:245 | Moves the cursor to the given offset. |
| IOStream.Stream.ReadByte | src/IMG_pnm.c:77 | Returns the byte under the cursor and advances the cursor by one. At the end of the data it reports failure and the cursor does not move. |
| IOStream.Stream.Read | src/IMG_pnm.c:223 | Copies `min(n, remaining)` bytes into `dst[off..]` and advances the cursor by that count. Nothing else in `dst` changes. |
| Bytes.IsSpace | src/IMG_pnm.c:88 | `SDL_isspace`: a space or one of the bytes 0x09 to 0x0D. Both newline bytes that end a comment count as whitespace, and `'#'` does not. |
| Bytes.IsDigit | src/IMG_pnm.c:91-105 | `SDL_isdigit`: `'0'..'9'`. A digit is neither whitespace nor `'#'`, so the skipping loop always stops on it. |
| Tokenizer.CommentEnd | src/IMG_pnm.c:82-86 | The comment loop ends just past the first `'\r'` or `'\n'`, and no newline comes before it. It fails exactly when no newline remains. |
| Tokenizer.FirstSignificant | src/IMG_pnm.c:76-88 | The skipping loop stops on a byte that is neither whitespace nor `'#'`, and the cursor is then just past it. |
| Tokenizer.SkipComment | src/IMG_pnm.c:81-87 | The loop reads to the position `CommentEnd` gives and returns the newline byte it stopped on. When no newline remains, it fails at the end of the data. |
| Tokenizer.SkipBlank | src/IMG_pnm.c:75-88 | The loop returns the byte `FirstSignificant` gives and leaves the cursor where `FirstSignificant` says. When it runs out of data it fails with the cursor at the end. |
| Tokenizer.NumberAt | src/IMG_pnm.c:67-108 | The result is `-1` or a value in `0..2147483639`. A success consumes at least the digit and the byte after it. |
| Tokenizer.Accumulate | src/IMG_pnm.c:94-105 | The digit loop returns `-1` or a value in `0..2147483639`, so it never overflows a 32-bit `int`. A success moves the cursor forward. |
| Tokenizer.ReadDigits | src/IMG_pnm.c:94-107 | The digit loop computes exactly what `Accumulate` gives, and leaves the cursor at the position `Accumulate` gives. |
| Tokenizer.ReadNumber | src/IMG_pnm.c:67-108 | Returns the value and leaves the cursor as `NumberAt` says, whatever the input. |
| Tokenizer.DigitRunEnd | src/IMG_pnm.c:105 | The run of digits ends at the first byte that is not a digit, or at the end of the data. |
| Tokenizer.DigitRunDigits | src/IMG_pnm.c:105 | Every byte of the run is a digit. |
| Tokenizer.DecimalValuePrefix | src/IMG_pnm.c:99-100 | Appending digits never makes a numeral smaller. |
| Tokenizer.AccumulateStops | src/IMG_pnm.c:96-104 | Each way the digit loop can stop gives the run's meaning. The guard stops it only when the full run's value exceeds 2147483639. The end of the data gives `-1`. A non-digit gives the run's value. |
| Tokenizer.AccumulateMeaning | src/IMG_pnm.c:94-107 | Entered anywhere inside a run of digits with the value so far, the digit loop returns the run's decimal value exactly when a byte follows the run and the value is at most 2147483639. The cursor then stands one past that byte. Otherwise it returns `-1`. |
| Tokenizer.ReadNumberMeaning | src/IMG_pnm.c:67-108 | `ReadNumber` returns `-1` when the stream ends before a significant byte, or when that byte is not a digit. Otherwise it returns the maximal digit run's decimal value exactly when a byte follows the run and the value fits. The cursor is then one past that byte, so the single whitespace byte that ends a binary header is consumed. |
| Tokenizer.SkipsBlank | src/IMG_pnm.c:75-88 | The skipping loop passes over exactly the strings made of whitespace and complete `#` comments (one running through a newline), in both directions. |
| Tokenizer.CommentSkipsBlank | src/IMG_pnm.c:81-88 | After a `'#'`, the loop reaches a significant byte exactly when the bytes before it are the comment's remainder through a newline, followed by blank bytes. |
| Formats.VariantOf | src/IMG_pnm.c:135-140 | The magic digit, read as `magic[1] - '1'` in the enum's unsigned representation, gives the kind. A value of 3 or more is the binary form of the value minus 3. |
| Formats.MagicDigit | src/IMG_pnm.c:50-55 | Each of the six variants has a digit in `'1'..'6'`. |
| Formats.MagicRoundTrip | src/IMG_pnm.c:135-140 | The loader's decoding and the format's digits invert each other both ways on `'1'..'6'` and the six variants. |
| Formats.OtherDigitsReadAsBinaryPam | src/IMG_pnm.c:122-140 | A digit outside `'1'..'6'` is read as a binary image of none of the three kinds, and only such a digit is. This holds for `'7'` and also for bytes below `'1'`, whose difference wraps around. |
| Formats.GrayRamp | src/IMG_pnm.c:174-176 | The graymap palette has 256 entries. |
| Formats.FormatOf | src/IMG_pnm.c:157-163 | A pixmap gets an RGB24 surface of 3 bytes per pixel. Graymaps, bitmaps and every other kind get INDEX8, 1 byte per pixel. |
| Formats.PaletteOf | src/IMG_pnm.c:167-188 | A bitmap gets a 2-entry palette, a graymap 256 entries, and a pixmap or any other kind none. |
| Formats.PaletteMeaning | src/IMG_pnm.c:167-188 | A graymap sample `i` shows as `(i, i, i)`. A bitmap pixel 0 shows as white and 1 as black. Pixmaps and other kinds get no palette from the loader. |
| Bitmap.Bit | src/IMG_pnm.c:229-230 | `(b >> k) & 1` is 0 or 1. |
| Bitmap.PackedLength | src/IMG_pnm.c:190 | `(width + 7) >> 3` is the least number of bytes holding `width` bits. |
| Bitmap.Unpack | src/IMG_pnm.c:225-231 | Unpacking gives `width` pixels, each 0 or 1. |
| Bitmap.FromBitsBound | src/IMG_pnm.c:229-230 | `n` bits read as a numeral stay below `2^n`. |
| Bitmap.BitOfFromBits | src/IMG_pnm.c:229-230 | The shift-and-mask extraction recovers each digit of a binary numeral. |
| Bitmap.FromBitsOfBit | src/IMG_pnm.c:229-230 | The bits the extraction yields, most significant first, read back as the byte they came from. |
| Bitmap.UnpackPack | src/IMG_pnm.c:225-231 | Unpacking a row packed most-significant-bit first gives the row back. |
| Bitmap.PackUnpack | src/IMG_pnm.c:225-231 | Packing an unpacked full row gives the packed bytes back, so distinct packed rows decode differently. |
| Scaling.Rescale | src/IMG_pnm.c:238 | `b * 255 / maxval` stored in a `Uint8`. 0 stays 0, and with `maxval` 255 every byte is kept as it is. |
| Scaling.Scale | src/IMG_pnm.c:234-238 | The rescale pass keeps the row length. |
| Scaling.RescaleRange | src/IMG_pnm.c:238 | For a sample at most `maxval`, `row[i] * 255 / maxval` fits a byte without wrapping. 0 maps to 0 and `maxval` maps to 255. |
| Scaling.RescaleStrictlyMonotone | src/IMG_pnm.c:238 | On in-range samples the rescale is strictly increasing, so distinct levels stay distinct. |
| Scaling.RescaleWrapsOutOfRange | src/IMG_pnm.c:238 | A sample above `maxval` is neither refused nor clamped. For every `maxval` below 255, the sample `maxval + 1` is stored below 255, because its quotient wraps around modulo 256. |
| Scaling.ScaleAppend | src/IMG_pnm.c:236-238 | The pass works byte by byte, so it distributes over concatenation. |
| Surfaces.LayoutLength | src/IMG_pnm.c:197-240 | `n` rows laid out `pitch` bytes apart take `n * pitch` bytes. |
| Surfaces.LayoutSnoc | src/IMG_pnm.c:240 | Laying out one more row appends it, padded to the pitch. |
| Surfaces.RowInBuffer | src/IMG_pnm.c:240 | Row `y < height` starts at `y * pitch` and ends inside the `height * pitch` buffer. |
| Surfaces.LayoutAt | src/IMG_pnm.c:240 | Byte `i` of row `y` is at offset `y * pitch + i`. Bytes past a row's data are zero. |
| Surfaces.Surface.constructor | src/IMG_pnm.c:157-163 | `SDL_CreateSurface` gives a zero-filled buffer of `height * pitch` bytes. The pitch is at least `width` times the bytes per pixel, and the surface has no palette. |
| RowDecoder.NextBit | src/IMG_pnm.c:204-208 | Subtracting `'0'` in eight bits and retrying while the result exceeds 1 returns the next `'0'` or `'1'` as 0 or 1. Every byte before it is something else. It fails exactly when no `'0'` or `'1'` remains. |
| RowDecoder.AsciiBitmapRow | src/IMG_pnm.c:200-210 | An ASCII bitmap row is `width` pixels, each 0 or 1. |
| RowDecoder.AsciiSampleRow | src/IMG_pnm.c:211-219 | An ASCII sample row is `bpl` bytes. |
| RowDecoder.RawRow | src/IMG_pnm.c:199-233 | A row as read has the row's length, and a bitmap row holds only 0 and 1. |
| RowDecoder.Expand | src/IMG_pnm.c:222-232 | A binary row of `bpl` bytes gives the row's length: a bitmap row is unpacked into bits, any other row is kept as is. |
| RowDecoder.DecodeRow | src/IMG_pnm.c:199-239 | A decoded row has the row's length. |
| RowDecoder.DecodeRows | src/IMG_pnm.c:198-241 | `n` decoded rows each have the row's length, and the cursor only moves forward. |
| RowDecoder.DecodeRowsBits | src/IMG_pnm.c:200-231 | Every row of a bitmap, ASCII or binary, holds only 0 and 1. |
| RowDecoder.BinaryRowsLength | src/IMG_pnm.c:221-224 | A binary image of `n` rows decodes exactly when `n * bpl` bytes remain, and it then ends right after them. |
| RowDecoder.DecodeRowsAt | src/IMG_pnm.c:198-241 | Row `y` is the row decoded where the first `y` rows end. |
| RowDecoder.BinaryRowAt | src/IMG_pnm.c:221-238 | Row `y` of a binary image is the chunk of `bpl` bytes at `p + y * bpl`, expanded and rescaled. |
| RowDecoder.BinaryRowVerbatim | src/IMG_pnm.c:222-224 | A binary graymap or pixmap whose maximum is 255 is stored byte for byte. |
| RowDecoder.AsciiBitAt | src/IMG_pnm.c:202-209 | Pixel `i` of an ASCII bitmap row is the next `'0'` or `'1'` after the bytes that gave the earlier pixels. |
| RowDecoder.AsciiSampleAt | src/IMG_pnm.c:213-218 | Sample `i` of an ASCII row is the low byte of the `i`-th number read, and none of those numbers was an error. |
| RowDecoder.AsciiBitmapRowStaysFailed | src/IMG_pnm.c:205-206 | Once a pixel read fails, the row fails. |
| RowDecoder.AsciiSampleRowStaysFailed | src/IMG_pnm.c:216-217 | Once a number read fails, the row fails. |
| RowDecoder.DecodeRowsStaysFailed | src/IMG_pnm.c:198-241 | Once a row fails, the image fails. |
| RowDecoder.ReadBit | src/IMG_pnm.c:204-208 | The inner do-while loop returns the bit and leaves the cursor as `NextBit` says, or fails when `NextBit` fails. |
| RowDecoder.ReadAsciiBitmapRow | src/IMG_pnm.c:200-210 | The loop writes exactly the pixels `AsciiBitmapRow` gives into `row[off..off + width]`, and no other byte. |
| RowDecoder.ReadAsciiSampleRow | src/IMG_pnm.c:211-219 | The loop writes exactly the low bytes `AsciiSampleRow` gives into `row[off..off + bpl]`, and no other byte. |
| RowDecoder.UnpackRow | src/IMG_pnm.c:225-231 | The expansion loop writes `Unpack(buf, width)` into the row and nothing else. |
| RowDecoder.RescaleRow | src/IMG_pnm.c:234-238 | The pass replaces the first `bpl` bytes of the row by their rescaled values and leaves the rest of the buffer alone. |
| RowDecoder.ReadPackedRow | src/IMG_pnm.c:222-232 | A binary bitmap row fails exactly when fewer than `bpl` bytes remain. Otherwise it is read into the scratch buffer and expanded, as `RawRow` says. |
| RowDecoder.ReadBinaryRow | src/IMG_pnm.c:222-224 | A binary graymap or pixmap row fails exactly when fewer than `bpl` bytes remain. Otherwise it is copied into the row. |
| RowDecoder.ReadRawRow | src/IMG_pnm.c:199-233 | Dispatches on ASCII or binary and on bitmap or not, and writes exactly the row `RawRow` gives. |
| RowDecoder.ReadRow | src/IMG_pnm.c:199-239 | One iteration writes exactly the row `DecodeRow` gives: read, then rescaled when `maxval < 255`. |
| RowDecoder.LaidStep | src/IMG_pnm.c:240 | Writing a row just after the rows laid out so far, into a zero tail, lays out one more row. |
| RowDecoder.FilledStep | src/IMG_pnm.c:198-241 | One more decoded row keeps the row loop's invariant: the rows so far are laid out `pitch` bytes apart, and zeros follow. |
| RowDecoder.ReadNextRow | src/IMG_pnm.c:198-240 | The loop body decodes row `y` into `pixels[y * pitch..]` and keeps the invariant. When it fails, `DecodeRows` fails for `y + 1` rows. |
| RowDecoder.ReadPixels | src/IMG_pnm.c:196-241 | The row loop succeeds exactly when `DecodeRows` does. The buffer then holds its rows laid out `pitch` bytes apart, with zero padding, and the cursor is where the last row ended. |
| PnmLoader.HeaderAt | src/IMG_pnm.c:142-152 | A header that is read has positive width and height and a maximum in 1..255, and bitmaps get 255. Otherwise the error is the dimensions error or, for a kind other than bitmap, the unsupported-format error. |
| PnmLoader.HeaderMeaning | src/IMG_pnm.c:142-152 | Width and height are the first two numbers read. The load fails with the dimensions error exactly when either is not positive. Otherwise, except for bitmaps, the maximum is the third number read, and the load fails as unsupported exactly when it lies outside 1..255. The cursor then stands after the last number read. |
| PnmLoader.AllocationError | src/IMG_pnm.c:157-194 | Only the surface, the palette of a graymap or bitmap, and the scratch row of a bitmap can fail, with the out-of-memory or palette error. With every allocation granted nothing fails. |
| PnmLoader.RowFormatFor | src/IMG_pnm.c:166-190 | `bpl` is `(width + 7) >> 3` for bitmaps and `width` times the bytes per pixel otherwise. |
| PnmLoader.Decode | src/IMG_pnm.c:142-241 | A decoded image has the kind's pixel format and palette and rows of the right length. The pitch is the row length plus padding. With every allocation granted, no allocation error occurs. |
| PnmLoader.Load | src/IMG_pnm.c:110-253 | Fewer than two bytes give no surface and no error. A failure restores the start position. A success has the format and palette of the kind the digit names. |
| PnmLoader.LoadedBitmapsAreBits | src/IMG_pnm.c:177-231 | A loaded bitmap holds only palette indices 0 and 1. |
| PnmLoader.LoadedDimensions | src/IMG_pnm.c:142-163 | A loaded image is as wide and as high as the first two numbers after the magic number say. |
| PnmLoader.BinaryLoadNeedsWholePayload | src/IMG_pnm.c:221-224 | With a valid header and every allocation granted, a binary image loads exactly when all `height * bpl` payload bytes are present, and ends right after them. Otherwise it fails as truncated. |
| PnmLoader.ReadHeader | src/IMG_pnm.c:142-152 | Reads width and height, and fails if either is not positive. Otherwise, except for bitmaps, it reads the maximum and fails if it is outside 1..255. Result and cursor are exactly as `HeaderAt` says. |
| PnmLoader.FillGrayPalette | src/IMG_pnm.c:174-176 | The palette loop produces the 256-entry gray ramp. |
| PnmLoader.CreateSurface | src/IMG_pnm.c:157-194 | Creates the surface with the kind's format, pitch and palette. For every bitmap, ASCII or binary, it also allocates a scratch row of `bpl` bytes, though only the binary path reads into it. It fails exactly as `AllocationError` says. |
| PnmLoader.DecodeImage | src/IMG_pnm.c:142-241 | From the header on, gives the error `Decode` gives, or a fresh surface holding the image `Decode` gives, with the cursor after the last row. |
| PnmLoader.ReadMagic | src/IMG_pnm.c:132-135 | Reads the two magic bytes and returns the digit. It fails exactly when fewer than two bytes remain, and then leaves the cursor at the end of the data. The letter is not checked. |
| PnmLoader.LoadPNM | src/IMG_pnm.c:110-253 | The whole loader. A missing stream gives nothing. Otherwise the outcome is `Load`'s: no surface and no error when the magic number is cut short; no surface, the error, and the stream back at its start on failure; a fresh surface holding the decoded image on success. |

## Left out

- `showdcimage.c` is not part of this model. It is an example program, not the loader.
- The `#else` stubs, used when the loader is compiled out, are not modelled.
- `SDL_IOStream` is reduced to a byte sequence and a cursor. Streams that fail part-way
  for other reasons, and the `Sint64` offsets, are not modelled.
- SDL's allocators are not modelled. Whether the surface, the palette or the scratch
  row can be allocated is an input (`Allocation`).
- The pitch SDL chooses for a surface is an input: the row length plus `padding`.
- `SDL_SetError`, `SDL_free`, `SDL_DestroySurface` and `SDL_DestroyPalette` only
  report errors or release memory, and are not modelled. An error is a `LoadError`
  value.
- The labelled `done:` exit is modelled by early returns in `DecodeImage`, followed by
  the restore in `LoadPNM`.
- PnmLoader.Load: does not model the C `int` and `size_t` overflow of
  `width * SDL_BYTESPERPIXEL(format)` and `height * pitch` for huge widths. Such
  surfaces are refused by `SDL_CreateSurface`, which appears here only through the
  `Allocation` input.
- Formats.VariantOf: takes the loader's anonymous `enum` to be stored as an unsigned
  `int`, as GCC and Clang do. With a signed representation, a digit below `'1'` would
  instead give an ASCII image of none of the three kinds.
- Surfaces.Surface.constructor: any palette the runtime may attach when it creates a
  surface is not modelled. The model records only the palettes the loader installs
  (src/IMG_pnm.c:168-187).
