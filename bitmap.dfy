/** Bit extraction for binary bitmaps (`P4`): eight pixels per byte, most significant
    bit first, each row padded to whole bytes. */
module Bitmap {
  import opened Bytes

  /** `(b >> k) & 1`: shift right by `k` places and keep the low bit. */
  function Bit(b: nat, k: nat): (r: byte)
    ensures r <= 1
  {
    if k == 0 then b % 2 else Bit(b / 2, k - 1)
  }

  /** `(width + 7) >> 3`: bytes in one packed row. */
  function PackedLength(width: nat): (n: nat)
    ensures width <= 8 * n < width + 8
  {
    (width + 7) / 8
  }

  /** The scratch row unpacked: pixel `i` is bit `7 - i % 8` of byte `i / 8`. */
  function Unpack(packed: seq<byte>, width: nat): (pixels: seq<byte>)
    requires width <= 8 * |packed|
    ensures |pixels| == width
    ensures forall i :: 0 <= i < width ==> pixels[i] <= 1
  {
    seq(width, i requires 0 <= i < width => Bit(packed[i / 8], 7 - i % 8))
  }

  // ---------------------------------------------------------------------------
  // The inverse: packing a row of bits the way a P4 writer does.

  predicate AllBits(s: seq<byte>) {
    forall i :: 0 <= i < |s| ==> s[i] <= 1
  }

  /** Bits `s[0] .. s[|s| - 1]` read as a binary numeral, `s[0]` most significant. */
  function FromBits(s: seq<byte>): nat
    requires AllBits(s)
  {
    if s == [] then 0 else 2 * FromBits(s[..|s| - 1]) + s[|s| - 1]
  }

  function Pow2(n: nat): (p: nat)
    ensures p > 0
  {
    if n == 0 then 1 else 2 * Pow2(n - 1)
  }

  lemma {:induction false} FromBitsBound(s: seq<byte>)
    requires AllBits(s)
    ensures FromBits(s) < Pow2(|s|)
  {
    if s != [] {
      FromBitsBound(s[..|s| - 1]);
    }
  }

  /** The eight pixels that go into packed byte `j`, zero past the end of the row. */
  function Octet(pixels: seq<byte>, j: nat): (o: seq<byte>)
    requires AllBits(pixels)
    ensures |o| == 8 && AllBits(o)
  {
    seq(8, k requires 0 <= k < 8 => if 8 * j + k < |pixels| then pixels[8 * j + k] else 0)
  }

  function PackByte(o: seq<byte>): byte
    requires |o| == 8 && AllBits(o)
  {
    FromBitsBound(o);
    FromBits(o)
  }

  /** One row of 0/1 pixels packed eight to a byte, the last byte zero-padded. */
  function Pack(pixels: seq<byte>): (packed: seq<byte>)
    requires AllBits(pixels)
    ensures |packed| == PackedLength(|pixels|)
  {
    seq(PackedLength(|pixels|), j requires 0 <= j < PackedLength(|pixels|) => PackByte(Octet(pixels, j)))
  }

  /** Bit `|s| - 1 - j` of a numeral is its `j`-th digit. */
  lemma {:induction false} BitOfFromBits(s: seq<byte>, j: nat)
    requires AllBits(s) && j < |s|
    ensures Bit(FromBits(s), |s| - 1 - j) == s[j]
  {
    var init := s[..|s| - 1];
    if j < |s| - 1 {
      assert FromBits(s) / 2 == FromBits(init);
      BitOfFromBits(init, j);
    }
  }

  /** The bits of `b`, most significant first, read back as a numeral give `b`. */
  lemma {:induction false} FromBitsOfBit(b: nat, n: nat)
    requires b < Pow2(n)
    ensures AllBits(seq(n, k requires 0 <= k < n => Bit(b, n - 1 - k)))
    ensures FromBits(seq(n, k requires 0 <= k < n => Bit(b, n - 1 - k))) == b
  {
    var s := seq(n, k requires 0 <= k < n => Bit(b, n - 1 - k));
    if n > 0 {
      var t := seq(n - 1, k requires 0 <= k < n - 1 => Bit(b / 2, n - 2 - k));
      assert s[..n - 1] == t;
      FromBitsOfBit(b / 2, n - 1);
    }
  }

  /** Unpacking a packed row gives the row back. */
  lemma UnpackPack(pixels: seq<byte>)
    requires AllBits(pixels)
    ensures Unpack(Pack(pixels), |pixels|) == pixels
  {
    var packed := Pack(pixels);
    forall i | 0 <= i < |pixels|
      ensures Unpack(packed, |pixels|)[i] == pixels[i]
    {
      var o := Octet(pixels, i / 8);
      BitOfFromBits(o, i % 8);
    }
  }

  /** Packing a full unpacked row gives the packed bytes back, so no two packed rows
      decode alike. */
  lemma PackUnpack(packed: seq<byte>)
    ensures Pack(Unpack(packed, 8 * |packed|)) == packed
  {
    var pixels := Unpack(packed, 8 * |packed|);
    forall j | 0 <= j < |packed|
      ensures Pack(pixels)[j] == packed[j]
    {
      var o := Octet(pixels, j);
      assert o == seq(8, k requires 0 <= k < 8 => Bit(packed[j], 7 - k));
      assert packed[j] < Pow2(8);
      FromBitsOfBit(packed[j], 8);
    }
  }
}
