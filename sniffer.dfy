/** `IMG_isPNM`: does the stream start with a PNM magic number? The stream position
    is restored whatever the answer. */
module Sniffer {
  import opened Bytes
  import opened IOStream
  import opened Formats

  /** The two bytes at `pos` are `'P'` and a digit `'1'..'6'`. */
  predicate HasMagic(data: seq<byte>, pos: nat) {
    pos + 2 <= |data| && IsMagic(data[pos], data[pos + 1])
  }

  /** `IMG_isPNM`. A missing stream is not a PNM; a stream with fewer than two bytes
      left is not one either. */
  method IsPNM(src: Stream?) returns (isPnm: bool)
    requires src != null ==> src.Valid()
    modifies src
    ensures src != null ==> src.Valid() && src.pos == old(src.pos)
    ensures isPnm <==> src != null && HasMagic(src.data, old(src.pos))
  {
    if src == null {
      return false;
    }
    var start := src.Tell();
    isPnm := false;
    var magic := new byte[2];
    var count := src.Read(magic, 0, 2);
    assert count == 2 ==> magic[..] == src.data[start..start + 2];
    if count == 2 {
      if magic[0] == LETTER_P && magic[1] >= ONE && magic[1] <= SIX {
        isPnm := true;
      }
    }
    src.Seek(start);
  }

  /** The magic number of a variant: `P1`..`P6`. */
  function Magic(v: Variant): (m: seq<byte>)
    requires v.kind != PAM
    ensures |m| == 2 && IsMagic(m[0], m[1])
  {
    [LETTER_P, MagicDigit(v)]
  }

  /** The sniffer accepts exactly the six magic numbers of the format: `P7` (PAM) and
      everything else is refused. */
  lemma SniffsExactlyTheSixMagicNumbers(data: seq<byte>, pos: nat)
    ensures HasMagic(data, pos) <==> pos + 2 <= |data| && exists v: Variant :: v.kind != PAM && data[pos..pos + 2] == Magic(v)
  {
    if HasMagic(data, pos) {
      var v := VariantOf(data[pos + 1]);
      MagicRoundTrip(v, data[pos + 1]);
      assert data[pos..pos + 2] == Magic(v);
    }
    if pos + 2 <= |data| && exists v: Variant :: v.kind != PAM && data[pos..pos + 2] == Magic(v) {
      var v: Variant :| v.kind != PAM && data[pos..pos + 2] == Magic(v);
      assert data[pos] == Magic(v)[0] && data[pos + 1] == Magic(v)[1];
    }
  }

  /** On a stream the sniffer accepts, the loader reads the variant the magic digit
      names, one of the three kinds. */
  lemma SniffedStreamsAreLoadable(data: seq<byte>, pos: nat, v: Variant)
    requires HasMagic(data, pos) && v.kind != PAM && data[pos..pos + 2] == Magic(v)
    ensures VariantOf(data[pos + 1]) == v && v.kind != PAM
  {
    assert data[pos + 1] == Magic(v)[1];
    MagicRoundTrip(v, data[pos + 1]);
  }
}
