/** Byte-level vocabulary of the PNM loader: the octet type, the ASCII codes the
    loader compares against, and SDL's character classes. */
module Bytes {
  /** An octet: a byte read from the stream or a `Uint8` stored in a surface. */
  type byte = x: int | 0 <= x < 256

  const TAB: byte := 0x09
  const LF: byte := 0x0A
  const CR: byte := 0x0D
  const SPACE: byte := 0x20
  const HASH: byte := 0x23
  const ZERO: byte := 0x30
  const ONE: byte := 0x31
  const SIX: byte := 0x36
  const NINE: byte := 0x39
  const LETTER_P: byte := 0x50

  /** `SDL_isspace`: a space, or one of `\t \n \v \f \r` (0x09 through 0x0D). */
  predicate IsSpace(c: byte): (r: bool)
    ensures IsNewline(c) ==> r
    ensures r ==> c != HASH
  {
    c == SPACE || TAB <= c <= CR
  }

  /** `SDL_isdigit`: one of `'0'..'9'`. */
  predicate IsDigit(c: byte): (r: bool)
    ensures r ==> !IsSpace(c) && c != HASH
  {
    ZERO <= c <= NINE
  }

  /** The two bytes that end a `#` comment. */
  predicate IsNewline(c: byte) {
    c == CR || c == LF
  }

  /** `ch - '0'` for a decimal digit. */
  function DigitValue(c: byte): (d: nat)
    requires IsDigit(c)
    ensures d < 10
  {
    c - ZERO
  }

  function Min(a: int, b: int): int {
    if a < b then a else b
  }
}
