/** The dynamic-range rescale applied to each row when the declared maximum sample
    value is below 255. */
module Scaling {
  import opened Bytes
  import opened Arith

  /** `row[i] = row[i] * 255 / maxval`: integer division, stored back into a `Uint8`. */
  function Rescale(b: byte, maxval: int): (r: byte)
    requires 1 <= maxval <= 255
    ensures b == 0 ==> r == 0
    ensures maxval == 255 ==> r == b
  {
    assert maxval == 255 ==> b * 255 / maxval == b by {
      if maxval == 255 {
        MulDivCancel(b, 255);
      }
    }
    (b * 255 / maxval) % 256
  }

  /** The row pass: every byte rescaled when `maxval < 255`, the row untouched otherwise. */
  function Scale(row: seq<byte>, maxval: int): (r: seq<byte>)
    requires 1 <= maxval <= 255
    ensures |r| == |row|
  {
    if maxval < 255 then seq(|row|, i requires 0 <= i < |row| => Rescale(row[i], maxval)) else row
  }

  /** An in-range sample lands in 0..255 without wrapping: 0 stays 0 and `maxval`
      becomes 255. */
  lemma RescaleRange(b: byte, maxval: int)
    requires 1 <= maxval <= 255 && b <= maxval
    ensures Rescale(b, maxval) == b * 255 / maxval
    ensures b == 0 ==> Rescale(b, maxval) == 0
    ensures b == maxval ==> Rescale(b, maxval) == 255
  {
    var x := b * 255;
    assert x <= 255 * maxval by {
      MulMono(b, maxval, 255);
    }
    assert x / maxval <= 255 by {
      assert x < (255 + 1) * maxval;
      DivMost(x, maxval, 255);
    }
    assert Rescale(b, maxval) == x / maxval;
    if b == maxval {
      assert 255 * maxval <= x;
      DivLeast(x, maxval, 255);
    }
  }

  /** On in-range samples the rescale is strictly increasing, so distinct levels stay
      distinct. */
  lemma RescaleStrictlyMonotone(b: byte, c: byte, maxval: int)
    requires 1 <= maxval <= 255 && b < c <= maxval
    ensures Rescale(b, maxval) < Rescale(c, maxval)
  {
    RescaleRange(b, maxval);
    RescaleRange(c, maxval);
    var x := b * 255;
    var q := x / maxval;
    assert q * maxval <= x by {
      assert x == q * maxval + x % maxval;
    }
    assert (q + 1) * maxval == q * maxval + maxval;
    assert x + 255 <= c * 255;
    DivLeast(c * 255, maxval, q + 1);
  }

  /** A sample above `maxval` is neither rejected nor clamped: `maxval + 1` already
      lands below 255, because its quotient exceeds 255 and wraps modulo 256. */
  lemma RescaleWrapsOutOfRange(maxval: int)
    requires 1 <= maxval < 255
    ensures Rescale(maxval + 1, maxval) < 255
  {
    var x := (maxval + 1) * 255;
    assert 256 * maxval <= x;
    assert x < 511 * maxval;
    DivLeast(x, maxval, 256);
    DivMost(x, maxval, 510);
  }

  /** The row pass works byte by byte, so it distributes over concatenation. */
  lemma ScaleAppend(a: seq<byte>, b: seq<byte>, maxval: int)
    requires 1 <= maxval <= 255
    ensures Scale(a + b, maxval) == Scale(a, maxval) + Scale(b, maxval)
  {
  }
}
