/** The header tokenizer: `ReadNumber`, which skips whitespace and `#` comments and
    then reads one non-negative decimal integer, refusing to overflow a C `int`. */
module Tokenizer {
  import opened Wrappers
  import opened Bytes
  import opened IOStream

  const MAX_SINT32: int := 0x7FFF_FFFF
  /** The accumulator bound checked before every multiplication by ten. */
  const GUARD: int := MAX_SINT32 / 10
  /** The largest value the reader can return: `(GUARD - 1) * 10 + 9`. */
  const MAX_NUMBER: int := 2147483639

  /** Outcome of the whitespace-skipping loop: the stream ran out, or the first
      significant byte was `ch` and the cursor now stands at `next`. */
  datatype Scan = EndOfStream | Found(ch: byte, next: nat)

  /** What `ReadNumber` returns (`-1` on every error) and where it leaves the cursor. */
  datatype NumRead = NumRead(value: int, next: nat)

  /** The comment loop: the position just past the first `'\r'` or `'\n'` at or after `p`. */
  function CommentEnd(data: seq<byte>, p: nat): (r: Option<nat>)
    requires p <= |data|
    ensures r.Some? ==> p < r.value <= |data| && IsNewline(data[r.value - 1])
    ensures r.Some? ==> forall k :: p <= k < r.value - 1 ==> !IsNewline(data[k])
    ensures r.None? ==> forall k :: p <= k < |data| ==> !IsNewline(data[k])
    decreases |data| - p
  {
    if p == |data| then None
    else if IsNewline(data[p]) then Some(p + 1)
    else CommentEnd(data, p + 1)
  }

  /** The skipping loop: a `'#'` starts a comment that runs through the next newline,
      which is itself whitespace, so skipping goes on after it. */
  function FirstSignificant(data: seq<byte>, p: nat): (r: Scan)
    requires p <= |data|
    ensures r.Found? ==> p < r.next <= |data| && r.ch == data[r.next - 1]
    ensures r.Found? ==> !IsSpace(r.ch) && r.ch != HASH
    decreases |data| - p
  {
    if p == |data| then EndOfStream
    else if data[p] == HASH then
      match CommentEnd(data, p + 1)
      case None => EndOfStream
      case Some(q) => FirstSignificant(data, q)
    else if IsSpace(data[p]) then FirstSignificant(data, p + 1)
    else Found(data[p], p + 1)
  }

  /** The digit loop, entered with the digit `ch` just read and the cursor at `p`. */
  function Accumulate(data: seq<byte>, p: nat, number: int, ch: byte): (r: NumRead)
    requires 0 < p <= |data| && IsDigit(ch) && 0 <= number
    ensures p <= r.next <= |data|
    ensures r.value >= 0 ==> p < r.next
    ensures r.value == -1 || 0 <= r.value <= MAX_NUMBER
    decreases |data| - p
  {
    if number >= GUARD then NumRead(-1, p)
    else
      var n := number * 10 + DigitValue(ch);
      if p == |data| then NumRead(-1, p)
      else if IsDigit(data[p]) then Accumulate(data, p + 1, n, data[p])
      else NumRead(n, p + 1)
  }

  /** `ReadNumber` started with the cursor at `p`. */
  function NumberAt(data: seq<byte>, p: nat): (r: NumRead)
    requires p <= |data|
    ensures p <= r.next <= |data|
    ensures r.value >= 0 ==> p + 2 <= r.next
    ensures r.value == -1 || 0 <= r.value <= MAX_NUMBER
  {
    match FirstSignificant(data, p)
    case EndOfStream => NumRead(-1, |data|)
    case Found(ch, q) =>
      if !IsDigit(ch) then NumRead(-1, q) else Accumulate(data, q, 0, ch)
  }

  /** The comment loop, entered just after a `'#'`: reads through the next newline. */
  method SkipComment(src: Stream) returns (ok: bool, ch: byte)
    requires src.Valid()
    modifies src
    ensures src.Valid()
    ensures var r := CommentEnd(src.data, old(src.pos));
      ok == r.Some? && (ok ==> src.pos == r.value && ch == src.data[r.value - 1])
    ensures !ok ==> src.pos == |src.data|
  {
    ghost var p := src.pos;
    while true
      invariant src.Valid() && p <= src.pos
      invariant CommentEnd(src.data, p) == CommentEnd(src.data, src.pos)
      decreases |src.data| - src.pos
    {
      var got;
      got, ch := src.ReadByte();
      if !got {
        return false, ch;
      }
      if IsNewline(ch) {
        return true, ch;
      }
    }
  }

  /** The skipping loop: reads until a byte that is neither whitespace nor part of
      a comment, and returns it. */
  method SkipBlank(src: Stream) returns (got: bool, ch: byte)
    requires src.Valid()
    modifies src
    ensures src.Valid()
    ensures var r := FirstSignificant(src.data, old(src.pos));
      got == r.Found? && (got ==> ch == r.ch && src.pos == r.next)
    ensures !got ==> src.pos == |src.data|
  {
    ghost var p0 := src.pos;
    while true
      invariant src.Valid() && p0 <= src.pos
      invariant FirstSignificant(src.data, p0) == FirstSignificant(src.data, src.pos)
      decreases |src.data| - src.pos
    {
      got, ch := src.ReadByte();
      if !got {
        return;
      }
      if ch == HASH {
        var ok;
        ok, ch := SkipComment(src);
        if !ok {
          return false, ch;
        }
      }
      if !IsSpace(ch) {
        return;
      }
    }
  }

  /** The digit loop, entered with the first digit `ch` already read. */
  method ReadDigits(src: Stream, ch: byte) returns (number: int)
    requires src.Valid() && 0 < src.pos && IsDigit(ch)
    modifies src
    ensures src.Valid()
    ensures NumRead(number, src.pos) == Accumulate(src.data, old(src.pos), 0, ch)
  {
    ghost var r := Accumulate(src.data, src.pos, 0, ch);
    number := 0;
    var c := ch;
    while true
      invariant src.Valid() && 0 < src.pos && IsDigit(c) && 0 <= number
      invariant Accumulate(src.data, src.pos, number, c) == r
      decreases |src.data| - src.pos
    {
      if number >= GUARD {
        return -1;
      }
      number := number * 10 + DigitValue(c);
      var got;
      got, c := src.ReadByte();
      if !got {
        return -1;
      }
      if !IsDigit(c) {
        return;
      }
    }
  }

  /** `ReadNumber`: the number at the cursor, or `-1`. */
  method ReadNumber(src: Stream) returns (number: int)
    requires src.Valid()
    modifies src
    ensures src.Valid()
    ensures NumRead(number, src.pos) == NumberAt(src.data, old(src.pos))
  {
    var got, ch := SkipBlank(src);
    if !got || !IsDigit(ch) {
      return -1;
    }
    number := ReadDigits(src, ch);
  }

  // ---------------------------------------------------------------------------
  // What a successful read means: the decimal value of the maximal digit run.

  /** All bytes of `s` are decimal digits. */
  predicate AllDigits(s: seq<byte>) {
    forall k :: 0 <= k < |s| ==> IsDigit(s[k])
  }

  /** The value of a decimal numeral, most significant digit first. */
  function DecimalValue(digits: seq<byte>): nat
    requires AllDigits(digits)
  {
    if digits == [] then 0
    else DecimalValue(digits[..|digits| - 1]) * 10 + DigitValue(digits[|digits| - 1])
  }

  /** The end of the maximal run of decimal digits that starts at `s`. */
  function DigitRunEnd(data: seq<byte>, s: nat): (e: nat)
    requires s <= |data|
    ensures s <= e <= |data|
    ensures e < |data| ==> !IsDigit(data[e])
    decreases |data| - s
  {
    if s == |data| || !IsDigit(data[s]) then s else DigitRunEnd(data, s + 1)
  }

  /** The run is made of digits only. */
  lemma {:induction false} DigitRunDigits(data: seq<byte>, s: nat)
    requires s <= |data|
    ensures forall k :: s <= k < DigitRunEnd(data, s) ==> IsDigit(data[k])
    decreases |data| - s
  {
    if s < |data| && IsDigit(data[s]) {
      DigitRunDigits(data, s + 1);
    }
  }

  /** Appending digits never makes a numeral smaller. */
  lemma {:induction false} DecimalValuePrefix(digits: seq<byte>, k: nat)
    requires AllDigits(digits) && k <= |digits|
    ensures DecimalValue(digits[..k]) <= DecimalValue(digits)
    decreases |digits| - k
  {
    if k < |digits| {
      var init := digits[..|digits| - 1];
      assert digits[..k] == init[..k];
      DecimalValuePrefix(init, k);
    } else {
      assert digits[..k] == digits;
    }
  }

  /** The numeral `data[s..p]` is the numeral `data[s..p - 1]` and one more digit. */
  lemma DecimalStep(data: seq<byte>, s: nat, p: nat)
    requires s < p <= |data|
    requires forall k :: s <= k < p ==> IsDigit(data[k])
    ensures DecimalValue(data[s..p]) == DecimalValue(data[s..p - 1]) * 10 + DigitValue(data[p - 1])
  {
    assert data[s..p][..p - s - 1] == data[s..p - 1];
  }

  /** The digits from `s` up to the end of the run through `p` form a numeral that is
      at least `data[s..p]`. */
  lemma DigitRunFacts(data: seq<byte>, s: nat, p: nat)
    requires s < p <= |data|
    requires forall k :: s <= k < p ==> IsDigit(data[k])
    ensures AllDigits(data[s..DigitRunEnd(data, p)])
    ensures DecimalValue(data[s..p]) <= DecimalValue(data[s..DigitRunEnd(data, p)])
  {
    var e := DigitRunEnd(data, p);
    DigitRunDigits(data, p);
    assert AllDigits(data[s..e]);
    assert data[s..e][..p - s] == data[s..p];
    DecimalValuePrefix(data[s..e], p - s);
  }

  /** `r` is what reading the digit run that began at `s` should give: the run's
      value and the position past the byte after it when the run is followed by a
      byte and its value fits, `-1` otherwise. */
  ghost predicate ReadsRun(data: seq<byte>, s: nat, e: nat, r: NumRead)
    requires s <= e <= |data|
  {
    AllDigits(data[s..e]) &&
    (r.value >= 0 <==> e < |data| && DecimalValue(data[s..e]) <= MAX_NUMBER) &&
    (r.value >= 0 ==> r.value == DecimalValue(data[s..e]) && r.next == e + 1)
  }

  /** The digit loop's last iteration: it stops on overflow, at the end of the data,
      or on the byte after the run. */
  lemma AccumulateStops(data: seq<byte>, s: nat, p: nat, number: nat)
    requires s < p <= |data|
    requires forall k :: s <= k < p ==> IsDigit(data[k])
    requires number == DecimalValue(data[s..p - 1])
    requires number >= GUARD || p == |data| || !IsDigit(data[p])
    ensures ReadsRun(data, s, DigitRunEnd(data, p), Accumulate(data, p, number, data[p - 1]))
  {
    var e := DigitRunEnd(data, p);
    var r := Accumulate(data, p, number, data[p - 1]);
    DigitRunFacts(data, s, p);
    DecimalStep(data, s, p);
    if number >= GUARD {
      assert r.value == -1;
      assert GUARD == 214748364;
      assert DecimalValue(data[s..p]) >= number * 10 >= 2147483640;
    } else {
      assert e == p;
    }
  }

  /** The digit loop, entered at digit `p - 1` of a run that began at `s`, with the
      value of the digits before it accumulated, returns the value of the whole run
      exactly when the run is followed by a byte and its value fits. */
  lemma {:induction false} AccumulateMeaning(data: seq<byte>, s: nat, p: nat, number: nat)
    requires s < p <= |data|
    requires forall k :: s <= k < p ==> IsDigit(data[k])
    requires number == DecimalValue(data[s..p - 1])
    ensures ReadsRun(data, s, DigitRunEnd(data, p), Accumulate(data, p, number, data[p - 1]))
    decreases |data| - p
  {
    if number < GUARD && p < |data| && IsDigit(data[p]) {
      var n := number * 10 + DigitValue(data[p - 1]);
      assert n == DecimalValue(data[s..p]) by {
        DecimalStep(data, s, p);
      }
      assert Accumulate(data, p, number, data[p - 1]) == Accumulate(data, p + 1, n, data[p]);
      assert DigitRunEnd(data, p) == DigitRunEnd(data, p + 1);
      assert forall k :: s <= k < p + 1 ==> IsDigit(data[k]);
      AccumulateMeaning(data, s, p + 1, n);
    } else {
      AccumulateStops(data, s, p, number);
    }
  }

  /** `ReadNumber` succeeds exactly when the first significant byte starts a run of
      digits that is followed by one more byte and whose value is at most
      `MAX_NUMBER`; it then returns that value and leaves the cursor one byte past
      the run. */
  lemma ReadNumberMeaning(data: seq<byte>, p: nat)
    requires p <= |data|
    ensures
      var r := NumberAt(data, p);
      match FirstSignificant(data, p)
      case EndOfStream => r.value == -1
      case Found(_, q) =>
        var e := DigitRunEnd(data, q - 1);
        AllDigits(data[q - 1..e]) &&
        (r.value >= 0 <==> q - 1 < e < |data| && DecimalValue(data[q - 1..e]) <= MAX_NUMBER) &&
        (r.value >= 0 ==> r.value == DecimalValue(data[q - 1..e]) && r.next == e + 1)
  {
    match FirstSignificant(data, p)
    case EndOfStream =>
    case Found(ch, q) =>
      if IsDigit(ch) {
        assert data[q - 1..q - 1] == [];
        AccumulateMeaning(data, q - 1, q, 0);
      }
  }

  // ---------------------------------------------------------------------------
  // What the skipping loop skips: whitespace and complete comments.

  /** `s` consists of whitespace bytes and comments, a comment being `'#'`, any bytes
      other than a newline, and a newline. */
  predicate Blank(s: seq<byte>)
    decreases |s|, 1
  {
    s == [] ||
    (IsSpace(s[0]) && Blank(s[1..])) ||
    (s[0] == HASH && CommentThenBlank(s[1..]))
  }

  /** `s` is the rest of a comment followed by `Blank` bytes. */
  predicate CommentThenBlank(s: seq<byte>)
    decreases |s|, 0
  {
    |s| > 0 && if IsNewline(s[0]) then Blank(s[1..]) else CommentThenBlank(s[1..])
  }

  /** Blank bytes followed by a byte that is neither whitespace nor `'#'` are exactly
      what the skipping loop passes over. */
  lemma {:induction false} SkipsBlank(data: seq<byte>, p: nat, s: nat)
    requires p <= s < |data|
    requires !IsSpace(data[s]) && data[s] != HASH
    ensures Blank(data[p..s]) <==> FirstSignificant(data, p) == Found(data[s], s + 1)
    decreases s - p
  {
    if p < s {
      if data[p] == HASH {
        assert data[p..s][1..] == data[p + 1..s];
        CommentSkipsBlank(data, p + 1, s);
      } else if IsSpace(data[p]) {
        assert data[p..s][1..] == data[p + 1..s];
        SkipsBlank(data, p + 1, s);
      }
    }
  }

  lemma {:induction false} CommentSkipsBlank(data: seq<byte>, p: nat, s: nat)
    requires p <= s < |data|
    requires !IsSpace(data[s]) && data[s] != HASH
    ensures CommentThenBlank(data[p..s]) <==>
      (CommentEnd(data, p).Some? && CommentEnd(data, p).value <= s &&
       FirstSignificant(data, CommentEnd(data, p).value) == Found(data[s], s + 1))
    decreases s - p
  {
    if p < s {
      assert data[p..s][1..] == data[p + 1..s];
      if IsNewline(data[p]) {
        SkipsBlank(data, p + 1, s);
      } else {
        CommentSkipsBlank(data, p + 1, s);
      }
    }
  }
}
