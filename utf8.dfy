/** A model of the UTF-8 byte-stream decoder `CharStream` (src/stream/utf8.rs).

    Bytes are `bv8` and the accumulated code point is `bv32`, the widths of
    Rust's `u8` and `u32`, so the masks and shifts are the source's own.  The
    byte source is an in-memory sequence read through a cursor. */
module Utf8 {

  datatype Option<T> = None | Some(value: T)

  datatype Result<T, E> = Ok(value: T) | Err(error: E)

  /** The decoder's one error value: there is no distinction between kinds. */
  datatype Utf8Error = Utf8Error

  /** The largest Unicode scalar value. */
  const MAX_VALUE: bv32 := 0x0010_FFFF

  // The byte and code-point ranges of module `ranges`.

  predicate IsAscii(b: bv8) { b <= 0x7F }

  predicate IsTwoByteSeqStart(b: bv8) { 0xC0 <= b <= 0xDF }

  predicate IsThreeByteSeqStart(b: bv8) { 0xE0 <= b <= 0xEF }

  predicate IsFourByteSeqStart(b: bv8) { 0xF0 <= b <= 0xF7 }

  predicate IsContinuationByte(b: bv8) { 0x80 <= b <= 0xBF }

  predicate IsSurrogate(i: bv32) { 0xD800 <= i <= 0xDFFF }

  /** A Unicode scalar value: at most MAX_VALUE and not a surrogate. */
  predicate IsScalarValue(i: bv32) { i <= MAX_VALUE && !IsSurrogate(i) }

  /** The character whose code point is the scalar value `i`. */
  function ToChar(i: bv32): char
    requires IsScalarValue(i)
  {
    (i as int) as char
  }

  /** `clear_top_n`: clears the `n` most significant bits of `b`.  Rust's
      `u8::MAX >> n` overflows for `n >= 8`, hence the precondition. */
  function ClearTopN(b: bv8, n: nat): (r: bv8)
    requires n < 8
    ensures r >> (8 - n) == 0     // r < 2^(8 - n)
  {
    b & (0xFF >> n)
  }

  /** The bits `clear_top_n` keeps are those of `b`. */
  lemma ClearTopNKeepsLowBits(b: bv8, n: nat)
    requires n < 8
    ensures ClearTopN(b, n) << n == b << n
  {
  }

  /** `push_cont_byte`: appends the six payload bits of a continuation byte,
      in u32 arithmetic (which wraps). */
  function PushContByte(ch: bv32, b: bv8): (r: bv32)
    ensures r == ch * 64 + (b % 64) as bv32
  {
    (ch << 6) | (ClearTopN(b, 2) as bv32)
  }

  /** `int_to_char`: accepts exactly the scalar values. */
  function IntToChar(i: bv32): (r: Result<char, Utf8Error>)
    ensures r.Ok? <==> IsScalarValue(i)
    ensures r.Ok? ==> r.value as int == i as int
  {
    if i > MAX_VALUE || IsSurrogate(i) then Err(Utf8Error) else Ok(ToChar(i))
  }

  /** `process_cont_byte`: what the byte source gave where a continuation
      byte was expected (`None` at end of source). */
  function ProcessContByte(contByte: Option<bv8>): (r: Result<bv8, Utf8Error>)
    ensures r.Ok? <==> contByte.Some? && IsContinuationByte(contByte.value)
    ensures r.Ok? ==> r.value == contByte.value
  {
    match contByte
    case Some(b) => if IsContinuationByte(b) then Ok(b) else Err(Utf8Error)
    case None => Err(Utf8Error)
  }

  // ---------------------------------------------------------------------
  // Specification of one call of `next`, generic in the sequence length.

  /** One read from the byte source at cursor `pos`: the byte, if any, and
      the cursor after it. */
  function ReadByte(bytes: seq<bv8>, pos: nat): (r: (Option<bv8>, nat))
    requires pos <= |bytes|
    ensures r.0.Some? <==> pos < |bytes|
    ensures r.0.Some? ==> r.0.value == bytes[pos] && r.1 == pos + 1
    ensures r.0.None? ==> r.1 == pos
  {
    if pos < |bytes| then (Some(bytes[pos]), pos + 1) else (None, pos)
  }

  /** How many continuation bytes a lead byte announces; 0 for ASCII and for
      bytes in none of the lead ranges. */
  function ContinuationCount(b: bv8): (k: nat)
    ensures k <= 3
    ensures k == 0 <==> IsAscii(b) || 0x80 <= b <= 0xBF || 0xF8 <= b
  {
    if IsTwoByteSeqStart(b) then 1
    else if IsThreeByteSeqStart(b) then 2
    else if IsFourByteSeqStart(b) then 3
    else 0
  }

  /** The payload bits of a multi-byte lead byte: `clear_top_n(b1, 3)`,
      `clear_top_n(b1, 4)` or `clear_top_n(b1, 5)`. */
  function LeadPayload(b: bv8): (ch: bv32)
    requires ContinuationCount(b) > 0
    ensures ch <= 0x1F
  {
    if IsTwoByteSeqStart(b) then ClearTopN(b, 3) as bv32
    else if IsThreeByteSeqStart(b) then ClearTopN(b, 4) as bv32
    else ClearTopN(b, 5) as bv32
  }

  /** Reads `k` continuation bytes from `pos`, folding each into `ch`.  The
      first missing or bad byte ends the read with `Err`; a bad byte is
      consumed. */
  function ReadConts(bytes: seq<bv8>, pos: nat, k: nat, ch: bv32): (r: (Result<bv32, Utf8Error>, nat))
    requires pos <= |bytes|
    ensures pos <= r.1 <= |bytes| && r.1 <= pos + k
    ensures r.0.Ok? ==> r.1 == pos + k
    decreases k
  {
    if k == 0 then (Ok(ch), pos)
    else
      var (contByte, next) := ReadByte(bytes, pos);
      match ProcessContByte(contByte)
      case Err(e) => (Err(e), next)
      case Ok(b) => ReadConts(bytes, next, k - 1, PushContByte(ch, b))
  }

  /** What one call of `next` returns with the cursor at `pos`, and the
      cursor afterwards. */
  function DecodeNext(bytes: seq<bv8>, pos: nat): (r: (Option<Result<char, Utf8Error>>, nat))
    requires pos <= |bytes|
    ensures pos <= r.1 <= |bytes|
    ensures r.0.None? <==> pos == |bytes|
    ensures r.0.None? ==> r.1 == pos
    ensures r.0.Some? ==> pos < r.1 <= pos + 4
    ensures r.0.Some? && r.0.value.Ok? ==> r.1 == pos + 1 + ContinuationCount(bytes[pos])
  {
    var (lead, next) := ReadByte(bytes, pos);
    match lead
    case None => (None, next)
    case Some(b1) =>
      if IsAscii(b1) then (Some(Ok(ToChar(b1 as bv32))), next)
      else
        var k := ContinuationCount(b1);
        if k == 0 then (Some(Err(Utf8Error)), next)
        else
          var (acc, after) := ReadConts(bytes, next, k, LeadPayload(b1));
          match acc
          case Err(e) => (Some(Err(e)), after)
          case Ok(ch) => (Some(IntToChar(ch)), after)
  }

  /** Everything the iterator yields from cursor `pos` until it returns
      `None`. */
  function DecodeAll(bytes: seq<bv8>, pos: nat): (items: seq<Result<char, Utf8Error>>)
    requires pos <= |bytes|
    ensures |items| <= |bytes| - pos
    decreases |bytes| - pos
  {
    var (item, next) := DecodeNext(bytes, pos);
    match item
    case None => []
    case Some(x) => [x] + DecodeAll(bytes, next)
  }

  // ---------------------------------------------------------------------
  // The stream.

  /** `CharStream`: a byte source and the cursor of the next unread byte. */
  class CharStream {
    const bytes: seq<bv8>
    var pos: nat

    ghost predicate Valid()
      reads this
    {
      pos <= |bytes|
    }

    /** `CharStream::new` */
    constructor (source: seq<bv8>)
      ensures Valid() && bytes == source && pos == 0
    {
      bytes := source;
      pos := 0;
    }

    /** `self.inner_bytes.next()` */
    method NextByte() returns (b: Option<bv8>)
      requires Valid()
      modifies this
      ensures Valid()
      ensures (b, pos) == ReadByte(bytes, old(pos))
    {
      if pos < |bytes| {
        b := Some(bytes[pos]);
        pos := pos + 1;
      } else {
        b := None;
      }
    }

    /** `CharStream::next`: one character, one error, or the end. */
    method Next() returns (r: Option<Result<char, Utf8Error>>)
      requires Valid()
      modifies this
      ensures Valid()
      ensures (r, pos) == DecodeNext(bytes, old(pos))
    {
      var lead := NextByte();
      if lead.None? {
        return None;
      }
      var b1 := lead.value;
      if IsAscii(b1) {
        return Some(Ok(ToChar(b1 as bv32)));
      } else if IsTwoByteSeqStart(b1) {
        var c2 := NextByte();
        var b2 := ProcessContByte(c2);
        if b2.Err? { return Some(Err(b2.error)); }

        var ch: bv32 := ClearTopN(b1, 3) as bv32;
        ch := PushContByte(ch, b2.value);
        assert ReadConts(bytes, pos, 0, ch) == (Ok(ch), pos);
        return Some(IntToChar(ch));
      } else if IsThreeByteSeqStart(b1) {
        var c2 := NextByte();
        var b2 := ProcessContByte(c2);
        if b2.Err? { return Some(Err(b2.error)); }
        var c3 := NextByte();
        var b3 := ProcessContByte(c3);
        if b3.Err? { return Some(Err(b3.error)); }

        var ch: bv32 := ClearTopN(b1, 4) as bv32;
        ch := PushContByte(ch, b2.value);
        ch := PushContByte(ch, b3.value);
        return Some(IntToChar(ch));
      } else if IsFourByteSeqStart(b1) {
        var c2 := NextByte();
        var b2 := ProcessContByte(c2);
        if b2.Err? { return Some(Err(b2.error)); }
        var c3 := NextByte();
        var b3 := ProcessContByte(c3);
        if b3.Err? { return Some(Err(b3.error)); }
        var c4 := NextByte();
        var b4 := ProcessContByte(c4);
        if b4.Err? { return Some(Err(b4.error)); }

        var ch: bv32 := ClearTopN(b1, 5) as bv32;
        ch := PushContByte(ch, b2.value);
        ch := PushContByte(ch, b3.value);
        ch := PushContByte(ch, b4.value);
        return Some(IntToChar(ch));
      } else {
        return Some(Err(Utf8Error));
      }
    }
  }
}
