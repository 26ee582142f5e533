/** Properties of the decoder model: what one call of `next` does with each
    kind of lead byte, the bounds of the accumulated value, and that it
    inverts the UTF-8 encoding of section 3 of RFC 3629 (and, since there is
    no minimum-value check, every longer-than-necessary form as well). */
module Utf8Properties {
  import opened Utf8

  // ---------------------------------------------------------------------
  // Reference encoder: the bit layouts of section 3 of RFC 3629.

  /** One more than the largest value a sequence of `len` bytes can carry. */
  function Capacity(len: nat): bv32
    requires 1 <= len <= 4
  {
    if len == 1 then 0x80 else if len == 2 then 0x800 else if len == 3 then 0x1_0000 else 0x20_0000
  }

  /** A continuation byte carrying the low six bits of `v`. */
  function ContByte(v: bv32): (b: bv8)
    ensures IsContinuationByte(b)
  {
    0x80 | (v & 0x3F) as bv8
  }

  /** `v` laid out in a sequence of `len` bytes, whether or not `len` is the
      shortest length that holds `v`. */
  function EncodeWith(v: bv32, len: nat): (bytes: seq<bv8>)
    requires 1 <= len <= 4 && v < Capacity(len)
    ensures |bytes| == len
    ensures ContinuationCount(bytes[0]) == len - 1
    ensures forall i :: 1 <= i < len ==> IsContinuationByte(bytes[i])
  {
    if len == 1 then [v as bv8]
    else if len == 2 then [0xC0 | (v >> 6) as bv8, ContByte(v)]
    else if len == 3 then [0xE0 | (v >> 12) as bv8, ContByte(v >> 6), ContByte(v)]
    else [0xF0 | (v >> 18) as bv8, ContByte(v >> 12), ContByte(v >> 6), ContByte(v)]
  }

  /** The length RFC 3629 prescribes for the scalar value `v`. */
  function EncodedLength(v: bv32): (len: nat)
    requires IsScalarValue(v)
    ensures 1 <= len <= 4 && v < Capacity(len)
    ensures len == 1 || Capacity(len - 1) <= v
  {
    if v < 0x80 then 1 else if v < 0x800 then 2 else if v < 0x1_0000 then 3 else 4
  }

  /** The UTF-8 encoding of the scalar value `v`. */
  function Encode(v: bv32): (bytes: seq<bv8>)
    requires IsScalarValue(v)
    ensures |bytes| == EncodedLength(v)
  {
    EncodeWith(v, EncodedLength(v))
  }

  /** The encoding of a sequence of scalar values, one after another. */
  function EncodeAll(vs: seq<bv32>): (bytes: seq<bv8>)
    requires forall i :: 0 <= i < |vs| ==> IsScalarValue(vs[i])
    ensures |bytes| >= |vs|
  {
    if vs == [] then [] else Encode(vs[0]) + EncodeAll(vs[1..])
  }

  /** The characters of a sequence of scalar values, each wrapped in `Ok`. */
  function AllOk(vs: seq<bv32>): (items: seq<Result<char, Utf8Error>>)
    requires forall i :: 0 <= i < |vs| ==> IsScalarValue(vs[i])
    ensures |items| == |vs|
  {
    if vs == [] then [] else [Ok(ToChar(vs[0]))] + AllOk(vs[1..])
  }

  // ---------------------------------------------------------------------
  // One call of `next`, by lead byte.

  /** A lead byte in 0x00..=0x7F is the character itself, one byte long. */
  lemma AsciiLead(bytes: seq<bv8>, pos: nat)
    requires pos < |bytes| && IsAscii(bytes[pos])
    ensures DecodeNext(bytes, pos).1 == pos + 1
    ensures DecodeNext(bytes, pos).0.Some? && DecodeNext(bytes, pos).0.value.Ok?
    ensures DecodeNext(bytes, pos).0.value.value as int == bytes[pos] as int
  {
  }

  /** A byte in 0x80..=0xBF or 0xF8..=0xFF as lead byte is an error that
      consumes that byte only. */
  lemma InvalidLead(bytes: seq<bv8>, pos: nat)
    requires pos < |bytes| && (IsContinuationByte(bytes[pos]) || 0xF8 <= bytes[pos])
    ensures DecodeNext(bytes, pos) == (Some(Err(Utf8Error)), pos + 1)
  {
  }

  /** In `ReadConts`, the `j`-th expected continuation byte is the first one
      missing or outside 0x80..=0xBF. */
  lemma {:induction false} ReadContsFails(bytes: seq<bv8>, p: nat, k: nat, ch: bv32, j: nat)
    requires p <= |bytes| && 1 <= j <= k
    requires forall q :: p <= q < p + j - 1 ==> q < |bytes| && IsContinuationByte(bytes[q])
    requires p + j - 1 == |bytes| || (p + j - 1 < |bytes| && !IsContinuationByte(bytes[p + j - 1]))
    ensures ReadConts(bytes, p, k, ch) == (Err(Utf8Error), if p + j - 1 < |bytes| then p + j else p + j - 1)
    decreases j
  {
    if j > 1 {
      ReadContsFails(bytes, p + 1, k - 1, PushContByte(ch, bytes[p]), j - 1);
    }
  }

  /** The `j`-th continuation byte after a multi-byte lead byte is missing or
      outside 0x80..=0xBF: the call fails, consumes that byte if there is one,
      and reads no further. */
  lemma ContinuationFailure(bytes: seq<bv8>, pos: nat, j: nat)
    requires pos < |bytes| && 1 <= j <= ContinuationCount(bytes[pos])
    requires forall q :: pos < q < pos + j ==> q < |bytes| && IsContinuationByte(bytes[q])
    requires pos + j == |bytes| || (pos + j < |bytes| && !IsContinuationByte(bytes[pos + j]))
    ensures DecodeNext(bytes, pos) == (Some(Err(Utf8Error)), if pos + j < |bytes| then pos + j + 1 else pos + j)
  {
    var b1 := bytes[pos];
    var k := ContinuationCount(b1);
    ReadContsFails(bytes, pos + 1, k, LeadPayload(b1), j);
  }

  /** A multi-byte lead byte that is the last byte of the source: the call
      fails after consuming it. */
  lemma Truncated(bytes: seq<bv8>, pos: nat)
    requires pos + 1 == |bytes| && ContinuationCount(bytes[pos]) > 0
    ensures DecodeNext(bytes, pos) == (Some(Err(Utf8Error)), pos + 1)
  {
    ContinuationFailure(bytes, pos, 1);
  }

  // ---------------------------------------------------------------------
  // Bounds of the accumulated value.

  /** The largest value a read of `k` continuation bytes can accumulate,
      given the lead byte's payload bits. */
  function MaxAccumulated(k: nat): bv32
    requires 1 <= k <= 3
  {
    if k == 1 then 0x7FF else if k == 2 then 0xFFFF else 0x1F_FFFF
  }

  /** Before validation, the value of a 2-, 3- or 4-byte sequence is at most
      0x7FF, 0xFFFF or 0x1FFFFF. */
  lemma AccumulatedBound(bytes: seq<bv8>, pos: nat)
    requires pos < |bytes| && ContinuationCount(bytes[pos]) > 0
    ensures var k := ContinuationCount(bytes[pos]);
            var r := ReadConts(bytes, pos + 1, k, LeadPayload(bytes[pos]));
            r.0.Ok? ==> r.0.value <= MaxAccumulated(k)
  {
  }

  // ---------------------------------------------------------------------
  // Decoding an encoded value.

  /** The value `push_cont_byte` accumulates from `ch` and the continuation
      bytes `conts`, in order. */
  function Fold(conts: seq<bv8>, ch: bv32): bv32
  {
    if conts == [] then ch else Fold(conts[1..], PushContByte(ch, conts[0]))
  }

  /** When the `k` bytes from `p` are all continuation bytes, `ReadConts`
      folds them all. */
  lemma {:induction false} ReadContsComplete(bytes: seq<bv8>, p: nat, k: nat, ch: bv32)
    requires p + k <= |bytes|
    requires forall q :: p <= q < p + k ==> IsContinuationByte(bytes[q])
    ensures ReadConts(bytes, p, k, ch) == (Ok(Fold(bytes[p..p + k], ch)), p + k)
    decreases k
  {
    if k > 0 {
      ReadContsComplete(bytes, p + 1, k - 1, PushContByte(ch, bytes[p]));
      assert bytes[p..p + k][1..] == bytes[p + 1..p + k];
    }
  }

  /** A multi-byte lead byte followed by all the continuation bytes it
      announces: the folded value, validated by `int_to_char`. */
  lemma CompleteSequence(bytes: seq<bv8>, pos: nat)
    requires pos < |bytes| && ContinuationCount(bytes[pos]) > 0
    requires pos + 1 + ContinuationCount(bytes[pos]) <= |bytes|
    requires forall q :: pos < q <= pos + ContinuationCount(bytes[pos]) ==> IsContinuationByte(bytes[q])
    ensures var k := ContinuationCount(bytes[pos]);
            DecodeNext(bytes, pos)
              == (Some(IntToChar(Fold(bytes[pos + 1..pos + 1 + k], LeadPayload(bytes[pos])))), pos + 1 + k)
  {
    var k := ContinuationCount(bytes[pos]);
    ReadContsComplete(bytes, pos + 1, k, LeadPayload(bytes[pos]));
  }

  // Each layout folds back to its value: one lemma per length, the bit
  // arithmetic apart from the sequence reasoning.

  lemma Layout2Bits(v: bv32)
    requires v < 0x800
    ensures PushContByte(LeadPayload(0xC0 | (v >> 6) as bv8), ContByte(v)) == v
  {
  }

  lemma Layout3Bits(v: bv32)
    requires v < 0x1_0000
    ensures PushContByte(PushContByte(LeadPayload(0xE0 | (v >> 12) as bv8), ContByte(v >> 6)), ContByte(v)) == v
  {
  }

  lemma Layout4Bits(v: bv32)
    requires v < 0x20_0000
    ensures PushContByte(PushContByte(PushContByte(LeadPayload(0xF0 | (v >> 18) as bv8),
              ContByte(v >> 12)), ContByte(v >> 6)), ContByte(v)) == v
  {
  }

  // Folding one, two or three continuation bytes is that many
  // `push_cont_byte` calls.

  lemma FoldOne(c1: bv8, ch: bv32)
    ensures Fold([c1], ch) == PushContByte(ch, c1)
  {
    assert [c1][1..] == [];
  }

  lemma FoldTwo(c1: bv8, c2: bv8, ch: bv32)
    ensures Fold([c1, c2], ch) == PushContByte(PushContByte(ch, c1), c2)
  {
    assert [c1, c2][1..] == [c2];
    FoldOne(c2, PushContByte(ch, c1));
  }

  lemma FoldThree(c1: bv8, c2: bv8, c3: bv8, ch: bv32)
    ensures Fold([c1, c2, c3], ch) == PushContByte(PushContByte(PushContByte(ch, c1), c2), c3)
  {
    assert [c1, c2, c3][1..] == [c2, c3];
    FoldTwo(c2, c3, PushContByte(ch, c1));
  }

  /** The layouts of `EncodeWith` give back their value when folded. */
  lemma LayoutFolds(v: bv32, len: nat)
    requires 2 <= len <= 4 && v < Capacity(len)
    ensures var e := EncodeWith(v, len); Fold(e[1..], LeadPayload(e[0])) == v
  {
    var e := EncodeWith(v, len);
    if len == 2 {
      var b0, b1 := 0xC0 | (v >> 6) as bv8, ContByte(v);
      assert e == [b0, b1] && e[1..] == [b1];
      FoldOne(b1, LeadPayload(b0));
      Layout2Bits(v);
    } else if len == 3 {
      var b0, b1, b2 := 0xE0 | (v >> 12) as bv8, ContByte(v >> 6), ContByte(v);
      assert e == [b0, b1, b2] && e[1..] == [b1, b2];
      FoldTwo(b1, b2, LeadPayload(b0));
      Layout3Bits(v);
    } else {
      var b0, b1, b2, b3 := 0xF0 | (v >> 18) as bv8, ContByte(v >> 12), ContByte(v >> 6), ContByte(v);
      assert e == [b0, b1, b2, b3] && e[1..] == [b1, b2, b3];
      FoldThree(b1, b2, b3, LeadPayload(b0));
      Layout4Bits(v);
    }
  }

  /** A well-formed sequence of `len` bytes decodes to the value it lays out,
      validated by `int_to_char` when it is a multi-byte sequence, and
      consumes exactly `len` bytes. */
  lemma DecodeEncoded(bytes: seq<bv8>, pos: nat, v: bv32, len: nat)
    requires 1 <= len <= 4 && v < Capacity(len)
    requires pos + len <= |bytes| && bytes[pos..pos + len] == EncodeWith(v, len)
    ensures DecodeNext(bytes, pos) == (Some(if len == 1 then Ok(ToChar(v)) else IntToChar(v)), pos + len)
  {
    var e := EncodeWith(v, len);
    assert bytes[pos] == e[0];
    if len == 1 {
      assert (v as bv8) as bv32 == v;
    } else {
      forall q | pos < q <= pos + len - 1 ensures IsContinuationByte(bytes[q]) {
        assert bytes[q] == e[q - pos];
      }
      CompleteSequence(bytes, pos);
      assert bytes[pos + 1..pos + len] == e[1..];
      LayoutFolds(v, len);
    }
  }

  /** Round trip: the RFC 3629 encoding of every scalar value decodes to that
      value, consuming exactly its 1, 2, 3 or 4 bytes, a length announced by
      the lead byte's range. */
  lemma RoundTrip(bytes: seq<bv8>, pos: nat, v: bv32)
    requires IsScalarValue(v)
    requires pos + |Encode(v)| <= |bytes| && bytes[pos..pos + |Encode(v)|] == Encode(v)
    ensures DecodeNext(bytes, pos) == (Some(Ok(ToChar(v))), pos + |Encode(v)|)
    ensures |Encode(v)| == 1 + ContinuationCount(bytes[pos])
  {
    DecodeEncoded(bytes, pos, v, EncodedLength(v));
    assert bytes[pos] == Encode(v)[0];
  }

  /** Overlong forms are accepted: a value laid out in more bytes than it
      needs still decodes to that value. */
  lemma OverlongAccepted(bytes: seq<bv8>, pos: nat, v: bv32, len: nat)
    requires IsScalarValue(v) && EncodedLength(v) < len <= 4
    requires pos + len <= |bytes| && bytes[pos..pos + len] == EncodeWith(v, len)
    ensures DecodeNext(bytes, pos) == (Some(Ok(ToChar(v))), pos + len)
  {
    DecodeEncoded(bytes, pos, v, len);
  }

  /** The overlong forms `C0 80`, `E0 80 80` and `F0 80 80 80` of U+0000. */
  lemma OverlongNul()
    ensures DecodeNext([0xC0, 0x80], 0) == (Some(Ok('\0')), 2)
    ensures DecodeNext([0xE0, 0x80, 0x80], 0) == (Some(Ok('\0')), 3)
    ensures DecodeNext([0xF0, 0x80, 0x80, 0x80], 0) == (Some(Ok('\0')), 4)
  {
    OverlongAccepted([0xC0, 0x80], 0, 0, 2);
    OverlongAccepted([0xE0, 0x80, 0x80], 0, 0, 3);
    OverlongAccepted([0xF0, 0x80, 0x80, 0x80], 0, 0, 4);
  }

  /** A well-formed sequence whose value is a surrogate or exceeds
      MAX_VALUE is an error that consumes the whole sequence. */
  lemma NonScalarRejected(bytes: seq<bv8>, pos: nat, v: bv32, len: nat)
    requires 2 <= len <= 4 && v < Capacity(len) && !IsScalarValue(v)
    requires pos + len <= |bytes| && bytes[pos..pos + len] == EncodeWith(v, len)
    ensures DecodeNext(bytes, pos) == (Some(Err(Utf8Error)), pos + len)
  {
    DecodeEncoded(bytes, pos, v, len);
  }

  /** The boundary values: 0x7F, 0x7FF and 0xFFFF are the last values of
      the 1-, 2- and 3-byte forms, 0x10FFFF decodes, and the 4-byte form of
      0x110000 and the 3-byte form of 0xD800 are rejected. */
  lemma Boundaries()
    ensures |Encode(0x7F)| == 1 && |Encode(0x80)| == 2
    ensures |Encode(0x7FF)| == 2 && |Encode(0x800)| == 3
    ensures |Encode(0xFFFF)| == 3 && |Encode(0x1_0000)| == 4
    ensures Encode(0x10_FFFF) == [0xF4, 0x8F, 0xBF, 0xBF]
    ensures DecodeNext([0xF4, 0x8F, 0xBF, 0xBF], 0) == (Some(Ok('\U{10FFFF}')), 4)
    ensures DecodeNext([0xF4, 0x90, 0x80, 0x80], 0) == (Some(Err(Utf8Error)), 4)
    ensures DecodeNext([0xED, 0xA0, 0x80], 0) == (Some(Err(Utf8Error)), 3)
  {
    RoundTrip([0xF4, 0x8F, 0xBF, 0xBF], 0, 0x10_FFFF);
    NonScalarRejected([0xF4, 0x90, 0x80, 0x80], 0, 0x11_0000, 4);
    NonScalarRejected([0xED, 0xA0, 0x80], 0, 0xD800, 3);
  }

  // ---------------------------------------------------------------------
  // Successful calls read exactly an encoding.

  /** `ReadConts` succeeds only when all `k` bytes are continuation bytes. */
  lemma {:induction false} ReadContsOk(bytes: seq<bv8>, p: nat, k: nat, ch: bv32)
    requires p <= |bytes| && ReadConts(bytes, p, k, ch).0.Ok?
    ensures p + k <= |bytes|
    ensures forall q :: p <= q < p + k ==> IsContinuationByte(bytes[q])
    decreases k
  {
    if k > 0 {
      ReadContsOk(bytes, p + 1, k - 1, PushContByte(ch, bytes[p]));
    }
  }

  // A lead byte and its continuation bytes are the layout of their folded
  // value: one lemma per length, first the bits, then the bytes.

  lemma Bits2(b0: bv8, b1: bv8)
    requires IsTwoByteSeqStart(b0) && IsContinuationByte(b1)
    ensures var v := PushContByte(LeadPayload(b0), b1);
            v < 0x800 && 0xC0 | (v >> 6) as bv8 == b0 && ContByte(v) == b1
  {
  }

  lemma Bits3(b0: bv8, b1: bv8, b2: bv8)
    requires IsThreeByteSeqStart(b0) && IsContinuationByte(b1) && IsContinuationByte(b2)
    ensures var v := PushContByte(PushContByte(LeadPayload(b0), b1), b2);
            v < 0x1_0000 && 0xE0 | (v >> 12) as bv8 == b0 && ContByte(v >> 6) == b1 && ContByte(v) == b2
  {
  }

  lemma Bits4(b0: bv8, b1: bv8, b2: bv8, b3: bv8)
    requires IsFourByteSeqStart(b0) && IsContinuationByte(b1) && IsContinuationByte(b2) && IsContinuationByte(b3)
    ensures var v := PushContByte(PushContByte(PushContByte(LeadPayload(b0), b1), b2), b3);
            v < 0x20_0000 && 0xF0 | (v >> 18) as bv8 == b0
            && ContByte(v >> 12) == b1 && ContByte(v >> 6) == b2 && ContByte(v) == b3
  {
  }

  lemma Bits2Layout(b0: bv8, b1: bv8)
    requires IsTwoByteSeqStart(b0) && IsContinuationByte(b1)
    ensures var v := Fold([b1], LeadPayload(b0)); v < 0x800 && [b0, b1] == EncodeWith(v, 2)
  {
    FoldOne(b1, LeadPayload(b0));
    Bits2(b0, b1);
  }

  lemma Bits3Layout(b0: bv8, b1: bv8, b2: bv8)
    requires IsThreeByteSeqStart(b0) && IsContinuationByte(b1) && IsContinuationByte(b2)
    ensures var v := Fold([b1, b2], LeadPayload(b0)); v < 0x1_0000 && [b0, b1, b2] == EncodeWith(v, 3)
  {
    FoldTwo(b1, b2, LeadPayload(b0));
    Bits3(b0, b1, b2);
  }

  lemma Bits4Layout(b0: bv8, b1: bv8, b2: bv8, b3: bv8)
    requires IsFourByteSeqStart(b0) && IsContinuationByte(b1) && IsContinuationByte(b2) && IsContinuationByte(b3)
    ensures var v := Fold([b1, b2, b3], LeadPayload(b0)); v < 0x20_0000 && [b0, b1, b2, b3] == EncodeWith(v, 4)
  {
    FoldThree(b1, b2, b3, LeadPayload(b0));
    Bits4(b0, b1, b2, b3);
  }

  lemma Sequence2IsLayout(bytes: seq<bv8>, pos: nat)
    requires pos + 2 <= |bytes| && IsTwoByteSeqStart(bytes[pos]) && IsContinuationByte(bytes[pos + 1])
    ensures var v := Fold(bytes[pos + 1..pos + 2], LeadPayload(bytes[pos]));
            v < 0x800 && bytes[pos..pos + 2] == EncodeWith(v, 2)
  {
    assert bytes[pos..pos + 2] == [bytes[pos], bytes[pos + 1]] && bytes[pos + 1..pos + 2] == [bytes[pos + 1]];
    Bits2Layout(bytes[pos], bytes[pos + 1]);
  }

  lemma Sequence3IsLayout(bytes: seq<bv8>, pos: nat)
    requires pos + 3 <= |bytes| && IsThreeByteSeqStart(bytes[pos])
    requires IsContinuationByte(bytes[pos + 1]) && IsContinuationByte(bytes[pos + 2])
    ensures var v := Fold(bytes[pos + 1..pos + 3], LeadPayload(bytes[pos]));
            v < 0x1_0000 && bytes[pos..pos + 3] == EncodeWith(v, 3)
  {
    var b0, b1, b2 := bytes[pos], bytes[pos + 1], bytes[pos + 2];
    assert bytes[pos..pos + 3] == [b0, b1, b2] && bytes[pos + 1..pos + 3] == [b1, b2];
    Bits3Layout(b0, b1, b2);
  }

  lemma Sequence4IsLayout(bytes: seq<bv8>, pos: nat)
    requires pos + 4 <= |bytes| && IsFourByteSeqStart(bytes[pos])
    requires IsContinuationByte(bytes[pos + 1]) && IsContinuationByte(bytes[pos + 2]) && IsContinuationByte(bytes[pos + 3])
    ensures var v := Fold(bytes[pos + 1..pos + 4], LeadPayload(bytes[pos]));
            v < 0x20_0000 && bytes[pos..pos + 4] == EncodeWith(v, 4)
  {
    var b0, b1, b2, b3 := bytes[pos], bytes[pos + 1], bytes[pos + 2], bytes[pos + 3];
    assert bytes[pos..pos + 4] == [b0, b1, b2, b3] && bytes[pos + 1..pos + 4] == [b1, b2, b3];
    Bits4Layout(b0, b1, b2, b3);
  }

  /** A successful call after a multi-byte lead byte read all the
      continuation bytes it announced and folded them. */
  lemma SuccessfulSequence(bytes: seq<bv8>, pos: nat)
    requires pos < |bytes| && ContinuationCount(bytes[pos]) > 0
    requires DecodeNext(bytes, pos).0.Some? && DecodeNext(bytes, pos).0.value.Ok?
    ensures var k := ContinuationCount(bytes[pos]);
            && pos + 1 + k <= |bytes|
            && (forall q :: pos < q <= pos + k ==> IsContinuationByte(bytes[q]))
            && DecodeNext(bytes, pos).1 == pos + 1 + k
            && IntToChar(Fold(bytes[pos + 1..pos + 1 + k], LeadPayload(bytes[pos]))) == DecodeNext(bytes, pos).0.value
  {
    var k := ContinuationCount(bytes[pos]);
    ReadContsOk(bytes, pos + 1, k, LeadPayload(bytes[pos]));
    ReadContsComplete(bytes, pos + 1, k, LeadPayload(bytes[pos]));
  }

  /** An ASCII byte is the one-byte layout of its value. */
  lemma AsciiIsLayout(bytes: seq<bv8>, pos: nat)
    requires pos < |bytes| && IsAscii(bytes[pos])
    ensures var v := bytes[pos] as bv32;
            v < 0x80 && bytes[pos..pos + 1] == EncodeWith(v, 1)
            && DecodeNext(bytes, pos) == (Some(Ok(ToChar(v))), pos + 1)
  {
    var v := bytes[pos] as bv32;
    assert v as bv8 == bytes[pos];
    assert bytes[pos..pos + 1] == [bytes[pos]];
  }

  /** Conversely, every successful call read a byte layout of its result: the
      bytes consumed are `EncodeWith(v, len)` for the character's value `v`,
      with `len` the length the lead byte announced. */
  lemma SuccessIsEncoding(bytes: seq<bv8>, pos: nat)
    requires pos <= |bytes| && DecodeNext(bytes, pos).0.Some? && DecodeNext(bytes, pos).0.value.Ok?
    ensures var len := DecodeNext(bytes, pos).1 - pos;
            exists v: bv32 :: 1 <= len <= 4 && v < Capacity(len) && IsScalarValue(v)
              && DecodeNext(bytes, pos).0.value.value == ToChar(v)
              && bytes[pos..pos + len] == EncodeWith(v, len)
  {
    var b0 := bytes[pos];
    var k := ContinuationCount(b0);
    var len := k + 1;
    if k == 0 {
      AsciiIsLayout(bytes, pos);
    } else {
      SuccessfulSequence(bytes, pos);
      var v := Fold(bytes[pos + 1..pos + len], LeadPayload(b0));
      assert IsContinuationByte(bytes[pos + 1]);
      if k == 1 {
        Sequence2IsLayout(bytes, pos);
      } else if k == 2 {
        assert IsContinuationByte(bytes[pos + 2]);
        Sequence3IsLayout(bytes, pos);
      } else {
        assert IsContinuationByte(bytes[pos + 2]) && IsContinuationByte(bytes[pos + 3]);
        Sequence4IsLayout(bytes, pos);
      }
      assert IsScalarValue(v) && DecodeNext(bytes, pos).0.value.value == ToChar(v);
    }
  }

  // ---------------------------------------------------------------------
  // The whole stream.

  /** Round trip of text: decoding the encoding of a sequence of scalar
      values from cursor `pos` to the end yields each of them in order. */
  lemma {:induction false} RoundTripAll(bytes: seq<bv8>, pos: nat, vs: seq<bv32>)
    requires forall i :: 0 <= i < |vs| ==> IsScalarValue(vs[i])
    requires pos <= |bytes| && bytes[pos..] == EncodeAll(vs)
    ensures DecodeAll(bytes, pos) == AllOk(vs)
    decreases vs
  {
    if vs == [] {
      assert pos == |bytes|;
    } else {
      var e := Encode(vs[0]);
      assert bytes[pos..] == e + EncodeAll(vs[1..]);
      assert bytes[pos..pos + |e|] == e;
      RoundTrip(bytes, pos, vs[0]);
      assert bytes[pos + |e|..] == EncodeAll(vs[1..]);
      RoundTripAll(bytes, pos + |e|, vs[1..]);
    }
  }

  /** The stream resumes after an error: after an invalid lead byte the
      iterator goes on with the very next byte. */
  lemma ResumesAfterError(bytes: seq<bv8>, pos: nat)
    requires pos < |bytes| && (IsContinuationByte(bytes[pos]) || 0xF8 <= bytes[pos])
    ensures DecodeAll(bytes, pos) == [Err(Utf8Error)] + DecodeAll(bytes, pos + 1)
  {
    InvalidLead(bytes, pos);
  }

  /** An invalid byte followed by an encoded value yields the error and then
      the value. */
  lemma ErrorThenCharacter(b: bv8, v: bv32)
    requires (IsContinuationByte(b) || 0xF8 <= b) && IsScalarValue(v)
    ensures DecodeAll([b] + Encode(v), 0) == [Err(Utf8Error), Ok(ToChar(v))]
  {
    var bytes := [b] + Encode(v);
    ResumesAfterError(bytes, 0);
    assert bytes[1..] == EncodeAll([v]);
    RoundTripAll(bytes, 1, [v]);
  }
}
