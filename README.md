# crabkeyduck lexical primitives in Dafny

This project models two primitives of the crabkeyduck markup parser and proves
properties of them:

- **The UTF-8 decoder `CharStream`** (`src/stream/utf8.rs`). This is an iterator
  over a byte source. Each call of `next` does the following:
  - reads one lead byte and classifies it as ASCII, a 2-, 3- or 4-byte sequence
    start, or neither;
  - pulls and checks the announced continuation bytes;
  - folds six payload bits per continuation byte into a `u32`;
  - returns `None` at the end of the source, `Ok(char)`, or `Err(Utf8Error)`.

  `int_to_char` rejects values above `0x10FFFF` and surrogates. Bytes are `bv8`
  and the accumulator is `bv32`, so the masks, shifts and wrap-around are the
  source's own. The byte source is an in-memory `seq<bv8>` read through a
  cursor `pos`.
  - `CharStream.Next` is an imperative method.
  - `DecodeNext` specifies `CharStream.Next` on values.
  - `Encode` is the canonical encoding of section 3 of RFC 3629. `EncodeWith` is
    the `len`-byte bit layout, overlong forms included. Both are stated
    independently of the decoder, as the partner for the round-trip lemmas.
  - The byte and code-point ranges of module `ranges` (src/stream/utf8.rs:106-116)
    are the predicates `IsAscii`, `IsTwoByteSeqStart`, `IsThreeByteSeqStart`,
    `IsFourByteSeqStart`, `IsContinuationByte` and `IsSurrogate`. `ToChar` stands
    for `char::from` and `char::from_u32_unchecked` on a value already known to be
    a scalar value (src/stream/utf8.rs:40 and src/stream/utf8.rs:89).
- **The markup lexer `lex`** (`src/lexer.rs`). It scans a string left to right.
  It emits the tokens `Text` (a span `raw[lo..hi]`), `BoldDelimiter` (`*`),
  `ItalicsDelimiter` (`_`), `MonospaceDelimiter` (`` ` ``) and
  `HighlightDelimiter` (`#`).
  - `Lex` keeps the source's `anchor`/`i` loop. Checking for a next character
    (`peek`) is written as `i + 1 < |raw|`.
  - The predicate `WellFormed` describes what `Lex` outputs:
    - the tokens tile the input;
    - no `Text` is empty;
    - no `Text` contains a delimiter character;
    - no two `Text` tokens are adjacent.
  - `WellFormedUnique` proves that the input determines this output. The example
    lemmas fix the exact output on sample inputs.
  - `IsDelimiter` is the set of characters in the delimiter match arm
    (src/lexer.rs:16).

Where the code and its design description disagree, the model follows the code:
- There is a single error value, `Utf8Error`, with no distinction between kinds.
- Overlong encodings are not rejected: `C0 80` decodes to U+0000.
- The stream does not stop after an error. The next call resumes at the first
  unconsumed byte.

## Model

| member | source | states |
|---|---|---|
| Utf8.ClearTopN | src/stream/utf8.rs:75-77 | the result is below 2^(8-n), i.e. the top n bits are cleared |
| Utf8.ClearTopNKeepsLowBits | src/stream/utf8.rs:75-77 | the low 8-n bits of the result are those of `b` |
| Utf8.PushContByte | src/stream/utf8.rs:79-82 | the result is `ch * 64 + b % 64` in wrapping u32 arithmetic |
| Utf8.IntToChar | src/stream/utf8.rs:84-91 | `Ok` exactly when the value is at most `MAX_VALUE` (src/stream/utf8.rs:103) and outside the surrogate range (src/stream/utf8.rs:115); the char then has that code point |
| Utf8.ProcessContByte | src/stream/utf8.rs:93-101 | `Ok(b)` exactly when a byte is present and in `0x80..=0xBF`; end of source is `Err` |
| Utf8.ReadByte | src/stream/utf8.rs:37 | one read of the byte source: the byte at the cursor and the cursor advanced by one, or `None` with the cursor unchanged at the end |
| Utf8.ContinuationCount | src/stream/utf8.rs:106-116 | a lead byte announces at most 3 continuation bytes, and none exactly for ASCII, `0x80..=0xBF` and `0xF8..=0xFF` |
| Utf8.LeadPayload | src/stream/utf8.rs:44-62 | the lead byte's payload (`clear_top_n(b1, 3/4/5)`) is at most 5 bits |
| Utf8.ReadConts | src/stream/utf8.rs:42-65 | reading k continuation bytes consumes at most k bytes, and exactly k when it succeeds |
| Utf8.DecodeNext | src/stream/utf8.rs:36-71 | `None` exactly when the source is exhausted, and then nothing is consumed; otherwise 1 to 4 bytes are consumed, and exactly 1 plus the announced count on success |
| Utf8.DecodeAll | src/stream/utf8.rs:34-36 | the iterator yields at most one item per remaining byte |
| Utf8.CharStream.constructor | src/stream/utf8.rs:27-31 | a new stream starts at the first byte of its source |
| Utf8.CharStream.NextByte | src/stream/utf8.rs:37 | `inner_bytes.next()` advances the cursor exactly as `ReadByte` says |
| Utf8.CharStream.Next | src/stream/utf8.rs:36-71 | the unrolled 1/2/3/4-byte branches return exactly what `DecodeNext` gives and leave the cursor where it says |
| Utf8Properties.ContByte | src/stream/utf8.rs:114 | the encoder's continuation bytes lie in `0x80..=0xBF` |
| Utf8Properties.EncodeWith | src/stream/utf8.rs:106-116 | a len-byte layout has len bytes, a lead byte announcing len-1 continuations, and continuation bytes after it |
| Utf8Properties.EncodedLength | src/stream/utf8.rs:106-116 | the shortest layout that holds a scalar value |
| Utf8Properties.AsciiLead | src/stream/utf8.rs:39-40 | a byte in `0x00..=0x7F` yields `Ok` of the same value and consumes one byte |
| Utf8Properties.InvalidLead | src/stream/utf8.rs:68-69 | a lead byte in `0x80..=0xBF` or `0xF8..=0xFF` yields `Err` after consuming only itself |
| Utf8Properties.ReadContsFails | src/stream/utf8.rs:94-101 | the first missing or bad continuation byte ends the read with `Err`; a bad byte is consumed and nothing after it is read |
| Utf8Properties.ContinuationFailure | src/stream/utf8.rs:42-60 | whichever continuation byte of a 2/3/4-byte sequence is missing or bad, `next` returns `Err` with that byte (or the end) as the last thing consumed |
| Utf8Properties.Truncated | src/stream/utf8.rs:41-60 | a multi-byte lead byte that is the last byte of the source, at any position, gives `Err` after consuming it |
| Utf8Properties.AccumulatedBound | src/stream/utf8.rs:44-65 | before validation the folded value is at most `0x7FF`, `0xFFFF` or `0x1FFFFF` for 2, 3 or 4 bytes |
| Utf8Properties.ReadContsComplete | src/stream/utf8.rs:42-65 | k good continuation bytes fold left to right into the accumulator |
| Utf8Properties.CompleteSequence | src/stream/utf8.rs:41-67 | a complete multi-byte sequence gives `int_to_char` of its folded payload and consumes the whole sequence |
| Utf8Properties.Layout2Bits | src/stream/utf8.rs:44-45 | the 2-byte layout of v folds back to v |
| Utf8Properties.Layout3Bits | src/stream/utf8.rs:52-54 | the 3-byte layout of v folds back to v |
| Utf8Properties.Layout4Bits | src/stream/utf8.rs:62-65 | the 4-byte layout of v folds back to v |
| Utf8Properties.FoldOne | src/stream/utf8.rs:45 | folding one continuation byte is one `push_cont_byte` call |
| Utf8Properties.FoldTwo | src/stream/utf8.rs:53-54 | folding two continuation bytes is two `push_cont_byte` calls, in order |
| Utf8Properties.FoldThree | src/stream/utf8.rs:63-65 | folding three continuation bytes is three `push_cont_byte` calls, in order |
| Utf8Properties.LayoutFolds | src/stream/utf8.rs:41-65 | every multi-byte layout's continuation bytes fold back, from the lead payload, to the encoded value |
| Utf8Properties.DecodeEncoded | src/stream/utf8.rs:36-71 | decoding any len-byte layout of v consumes len bytes and yields v through `int_to_char` |
| Utf8Properties.RoundTrip | src/stream/utf8.rs:36-71 | the canonical encoding of every scalar value decodes to that character, consuming exactly its length, which the lead byte's range announces |
| Utf8Properties.OverlongAccepted | src/stream/utf8.rs:41-56 | a longer-than-necessary layout of a scalar value is accepted too, since there is no minimum-value check |
| Utf8Properties.OverlongNul | src/stream/utf8.rs:84-91 | `C0 80`, `E0 80 80` and `F0 80 80 80` each decode to U+0000 |
| Utf8Properties.NonScalarRejected | src/stream/utf8.rs:84-91 | a well-formed layout of a surrogate or of a value above `0x10FFFF` yields `Err` after consuming the whole layout |
| Utf8Properties.Boundaries | src/stream/utf8.rs:103-116 | encoding lengths at the range edges; `F4 8F BF BF` is U+10FFFF; `F4 90 80 80` and `ED A0 80` are rejected |
| Utf8Properties.ReadContsOk | src/stream/utf8.rs:94-101 | a successful read saw k continuation bytes |
| Utf8Properties.Bits2 | src/stream/utf8.rs:44-45 | a 2-byte sequence's folded value re-encodes to the same two bytes |
| Utf8Properties.Bits3 | src/stream/utf8.rs:52-54 | a 3-byte sequence's folded value re-encodes to the same three bytes |
| Utf8Properties.Bits4 | src/stream/utf8.rs:62-65 | a 4-byte sequence's folded value re-encodes to the same four bytes |
| Utf8Properties.Bits2Layout | src/stream/utf8.rs:41-47 | a 2-byte sequence is the 2-byte layout of its folded value |
| Utf8Properties.Bits3Layout | src/stream/utf8.rs:48-56 | a 3-byte sequence is the 3-byte layout of its folded value |
| Utf8Properties.Bits4Layout | src/stream/utf8.rs:57-67 | a 4-byte sequence is the 4-byte layout of its folded value |
| Utf8Properties.Sequence2IsLayout | src/stream/utf8.rs:41-47 | 2 bytes in the stream that pass the checks are the layout of their value |
| Utf8Properties.Sequence3IsLayout | src/stream/utf8.rs:48-56 | 3 bytes in the stream that pass the checks are the layout of their value |
| Utf8Properties.Sequence4IsLayout | src/stream/utf8.rs:57-67 | 4 bytes in the stream that pass the checks are the layout of their value |
| Utf8Properties.SuccessfulSequence | src/stream/utf8.rs:41-67 | a multi-byte `Ok` saw all its continuation bytes and consumed exactly the sequence |
| Utf8Properties.AsciiIsLayout | src/stream/utf8.rs:39-40 | an ASCII byte is the 1-byte layout of its value |
| Utf8Properties.SuccessIsEncoding | src/stream/utf8.rs:36-71 | every `Ok(c)` comes from consuming exactly a 1-4 byte layout of a scalar value whose character is c (the converse of the round trip) |
| Utf8Properties.RoundTripAll | src/stream/utf8.rs:34-71 | the stream over the concatenated encodings of scalar values yields exactly those characters, then ends |
| Utf8Properties.ResumesAfterError | src/stream/utf8.rs:68-69 | after any invalid lead byte, at any position, the iterator yields `Err` and then exactly what it yields from the next byte |
| Utf8Properties.ErrorThenCharacter | src/stream/utf8.rs:36-71 | any invalid lead byte followed by the encoding of a scalar value yields `Err`, then that character, then the end |
| Lexer.DelimiterChar | src/lexer.rs:20-26 | a delimiter token stands for a delimiter character |
| Lexer.DelimiterToken | src/lexer.rs:20-26 | `*`, `_`, `` ` ``, `#` map to Bold, Italics, Monospace, Highlight, and `DelimiterChar` maps each back |
| Lexer.DelimiterTokenOfChar | src/lexer.rs:20-26 | the other direction: a delimiter token's character maps back to that token, so the two maps are one bijection |
| Lexer.Delimiters | src/lexer.rs:20-26 | the delimiter tokens of a token sequence contain no `Text` |
| Lexer.DelimitersOf | src/lexer.rs:16 | the tokens of a string's delimiter characters contain no `Text` |
| Lexer.Lex | src/lexer.rs:10-39 | the output is well formed for the input, rendering it gives back the input exactly, and its delimiter tokens are those of the input's delimiter characters, in order |
| Lexer.TilesAppend | src/lexer.rs:18-33 | appending a tiling of `raw[mid..to]` to one of `raw[from..mid]` tiles `raw[from..to]`; this is the loop invariant that the tokens so far cover `raw[..anchor]` |
| Lexer.PushText | src/lexer.rs:17-18 | pushing `Text(anchor, i)` for a non-empty delimiter-free run after a delimiter keeps the tokens separated and extends the tiling |
| Lexer.SeparatedAfterText | src/lexer.rs:17-18 | appending a non-empty delimiter-free `Text` after a non-`Text` token keeps the `Text` tokens separated |
| Lexer.PushDelimiter | src/lexer.rs:20-29 | pushing a delimiter's token at its position extends the tiling by one character |
| Lexer.TilesRender | src/lexer.rs:14-37 | concatenating a tiling's tokens reconstructs the range it covers |
| Lexer.DelimitersOfAppend | src/lexer.rs:14-16 | the delimiter characters of a concatenation are those of each part, in order |
| Lexer.DelimitersOfFree | src/lexer.rs:31-35 | a run with no delimiter character yields no delimiter token |
| Lexer.TilesDelimiters | src/lexer.rs:16-26 | each delimiter character of the input gives exactly one token, in input order |
| LexerProperties.SeparatedTail | src/lexer.rs:17-18 | the separation conditions hold for every suffix of the output |
| LexerProperties.TextEnd | src/lexer.rs:17-33 | a `Text` ends at the next delimiter character or at the end of the input |
| LexerProperties.TilesUnique | src/lexer.rs:10-39 | two separated tilings of the same suffix of the input are equal |
| LexerProperties.WellFormedUnique | src/lexer.rs:10-39 | the input determines the well-formed token sequence, so `Lex` is pinned down by its contract |
| LexerProperties.EmptyInput | src/lexer.rs:10-14 | the empty string lexes to no tokens, and only to that |
| LexerProperties.ItalicsExample | src/lexer.rs:10-39 | `"I am _really_ excited."` lexes to Text, Italics, Text, Italics, Text |
| LexerProperties.LeadingDelimiterExample | src/lexer.rs:17 | `"*bold"` lexes to Bold, Text("bold"), with no empty leading `Text` |
| LexerProperties.TrailingDelimiterExample | src/lexer.rs:27-29 | `"bold*"` lexes to Text("bold"), Bold, with no empty trailing `Text` |
| LexerProperties.AdjacentDelimitersExample | src/lexer.rs:16-29 | `"**"` lexes to Bold, Bold |

## Left out

- The `io::Error` side of the decoder: `StreamError::IoError` and the `From` impls (src/stream/utf8.rs:6-20). The model's byte source is an in-memory sequence that cannot fail, so `io::Bytes` and `Read` are replaced by `seq<bv8>` and a cursor, and `StreamError` is reduced to its `Utf8Error` case.
- The `try_nested!` macro (src/stream/utf8.rs:118-130) is modelled by its effect: an early `return Some(Err(..))`.
- Laziness, borrowing and `Peekable`: the iterator's collected output is the function `DecodeAll`. `peek` is "there is an index `i + 1`". A `Text` is a span `(lo, hi)` into the input rather than a borrowed `&str`.
- The lexer works on characters, not bytes. All four delimiters are ASCII, so character positions stand in for Rust's byte offsets.
- `lex` as written does not compile. `delim @ '*' | '_' | ...` binds `delim` in one alternative only. The iterator is consumed by `for` and then peeked, and it is not `mut`. The slices lack `&`. The variant is spelled `MonoSpaceDelimiter` at src/lexer.rs:6 and `MonospaceDelimiter` at src/lexer.rs:23. The model follows the evident intent: one variant, and `peek` as the next index. Likewise `push_cont_byte` ORs a `u8` into a `u32`; the widening `u32::from` is taken as intended.
- Utf8Properties.RoundTrip: the round trip is stated for every scalar value given as a `bv32`, not for every Dafny `char`. Converting an arbitrary `char` to a bit-vector is beyond what the solver handles here.
- Utf8.IntToChar: every returned `Ok(c)` is a scalar value by Dafny's `char` type, which holds only Unicode scalar values. So the "`c <= 0x10FFFF` and not a surrogate" promise is carried by the `Ok`-iff-`IsScalarValue` contract rather than by a separate lemma.
- Lexer.Lex: the number of delimiter tokens equals the number of delimiter characters. This is implied by the sequence equality `Delimiters(tokens) == DelimitersOf(raw)` rather than stated as a count.
