/** The readable, seekable byte source the loader is handed (`SDL_IOStream`),
    reduced to its contents and a cursor. */
module IOStream {
  import opened Bytes

  class Stream {
    /** Everything the source can deliver, from offset 0. */
    const data: seq<byte>
    /** The current offset: what `SDL_TellIO` reports. */
    var pos: nat

    ghost predicate Valid()
      reads this
    {
      pos <= |data|
    }

    constructor (data: seq<byte>, pos: nat)
      requires pos <= |data|
      ensures Valid()
      ensures this.data == data && this.pos == pos
    {
      this.data := data;
      this.pos := pos;
    }

    /** `SDL_TellIO`. */
    method Tell() returns (offset: nat)
      requires Valid()
      ensures offset == pos && offset <= |data|
    {
      offset := pos;
    }

    /** `SDL_SeekIO(offset, SDL_IO_SEEK_SET)`. */
    method Seek(offset: nat)
      requires offset <= |data|
      modifies this
      ensures Valid() && pos == offset
    {
      pos := offset;
    }

    /** `SDL_ReadIO(src, &ch, 1) == 1`: one byte, or nothing at the end of the data. */
    method ReadByte() returns (got: bool, ch: byte)
      requires Valid()
      modifies this
      ensures Valid()
      ensures got == (old(pos) < |data|)
      ensures got ==> ch == data[old(pos)] && pos == old(pos) + 1
      ensures !got ==> pos == old(pos)
    {
      if pos < |data| {
        got, ch := true, data[pos];
        pos := pos + 1;
      } else {
        got, ch := false, 0;
      }
    }

    /** `SDL_ReadIO(src, dst + off, n)`: copies as many of the next `n` bytes as remain
        and returns how many that was; nothing else in `dst` changes. */
    method Read(dst: array<byte>, off: nat, n: nat) returns (count: nat)
      requires Valid() && off + n <= dst.Length
      modifies this, dst
      ensures Valid()
      ensures count == Min(n, |data| - old(pos))
      ensures pos == old(pos) + count
      ensures dst[off..off + count] == data[old(pos)..pos]
      ensures forall k :: 0 <= k < dst.Length && !(off <= k < off + count) ==> dst[k] == old(dst[k])
    {
      count := Min(n, |data| - pos);
      forall k | off <= k < off + count {
        dst[k] := data[pos + k - off];
      }
      pos := pos + count;
    }
  }
}
