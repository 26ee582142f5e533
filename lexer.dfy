/** A model of the markup lexer `lex` (src/lexer.rs).

    The input is a `string`; a `Text` token is the span `raw[lo..hi]` it
    borrows.  All four delimiters are ASCII, so character positions stand in
    for Rust's byte offsets. */
module Lexer {

  datatype Token =
    | Text(lo: nat, hi: nat)
    | BoldDelimiter
    | ItalicsDelimiter
    | MonospaceDelimiter
    | HighlightDelimiter

  /** The four characters the lexer turns into tokens of their own. */
  predicate IsDelimiter(c: char) {
    c == '*' || c == '_' || c == '`' || c == '#'
  }

  /** The source character a delimiter token stands for. */
  function DelimiterChar(t: Token): (c: char)
    requires !t.Text?
    ensures IsDelimiter(c)
  {
    match t
    case BoldDelimiter => '*'
    case ItalicsDelimiter => '_'
    case MonospaceDelimiter => '`'
    case HighlightDelimiter => '#'
  }

  /** The token a delimiter character becomes. */
  function DelimiterToken(c: char): (t: Token)
    requires IsDelimiter(c)
    ensures !t.Text? && DelimiterChar(t) == c
  {
    if c == '*' then BoldDelimiter
    else if c == '_' then ItalicsDelimiter
    else if c == '`' then MonospaceDelimiter
    else HighlightDelimiter
  }

  /** Mapping a delimiter token to its character and back gives the token:
      with `DelimiterToken`'s ensures, the two maps are one bijection. */
  lemma DelimiterTokenOfChar(t: Token)
    requires !t.Text?
    ensures DelimiterToken(DelimiterChar(t)) == t
  {
  }

  // ---------------------------------------------------------------------
  // What a token sequence must be to be the lexer's output.

  /** `ts` covers `raw[from..to]` left to right with no gap and no overlap:
      each `Text` spans the next characters, each delimiter token stands on
      its own character. */
  predicate Tiles(raw: string, ts: seq<Token>, from: nat, to: nat)
    requires from <= to <= |raw|
    decreases ts
  {
    if ts == [] then from == to
    else if ts[0].Text? then ts[0].lo == from && from <= ts[0].hi <= to && Tiles(raw, ts[1..], ts[0].hi, to)
    else from < to && raw[from] == DelimiterChar(ts[0]) && Tiles(raw, ts[1..], from + 1, to)
  }

  /** No `Text` token is empty. */
  predicate TextsNonEmpty(ts: seq<Token>) {
    forall i :: 0 <= i < |ts| && ts[i].Text? ==> ts[i].lo < ts[i].hi
  }

  /** No `Text` token contains a delimiter character. */
  predicate TextsDelimiterFree(raw: string, ts: seq<Token>) {
    forall i, k :: 0 <= i < |ts| && ts[i].Text? && ts[i].lo <= k < ts[i].hi && k < |raw| ==> !IsDelimiter(raw[k])
  }

  /** No two `Text` tokens are next to each other. */
  predicate NoAdjacentTexts(ts: seq<Token>) {
    forall i :: 0 < i < |ts| ==> !(ts[i - 1].Text? && ts[i].Text?)
  }

  /** Every `Text` token is a non-empty, delimiter-free run, and no two are
      next to each other. */
  predicate TextsSeparated(raw: string, ts: seq<Token>) {
    TextsNonEmpty(ts) && TextsDelimiterFree(raw, ts) && NoAdjacentTexts(ts)
  }

  /** The shape of `lex`'s output for `raw`. */
  predicate WellFormed(raw: string, ts: seq<Token>) {
    Tiles(raw, ts, 0, |raw|) && TextsSeparated(raw, ts)
  }

  // ---------------------------------------------------------------------
  // Rendering tokens back to text.

  /** Every `Text` span lies within `raw`. */
  predicate SpansInBounds(raw: string, ts: seq<Token>) {
    forall i :: 0 <= i < |ts| && ts[i].Text? ==> ts[i].lo <= ts[i].hi <= |raw|
  }

  /** The tokens rendered as text: each delimiter as its character, each
      `Text` as its span. */
  function Render(raw: string, ts: seq<Token>): string
    requires SpansInBounds(raw, ts)
  {
    if ts == [] then []
    else
      (match ts[0]
       case Text(lo, hi) => raw[lo..hi]
       case _ => [DelimiterChar(ts[0])])
      + Render(raw, ts[1..])
  }

  /** The delimiter tokens of `ts`, in order. */
  function Delimiters(ts: seq<Token>): (ds: seq<Token>)
    ensures forall i :: 0 <= i < |ds| ==> !ds[i].Text?
  {
    if ts == [] then []
    else (if ts[0].Text? then [] else [ts[0]]) + Delimiters(ts[1..])
  }

  /** The token of each delimiter character of `s`, in order. */
  function DelimitersOf(s: string): (ds: seq<Token>)
    ensures forall i :: 0 <= i < |ds| ==> !ds[i].Text?
  {
    if s == [] then []
    else (if IsDelimiter(s[0]) then [DelimiterToken(s[0])] else []) + DelimitersOf(s[1..])
  }

  // ---------------------------------------------------------------------
  // The lexer.

  /** `lex`: one left-to-right scan; `anchor` is where the pending text run
      starts, and `i + 1 < |raw|` is `iter.peek().is_some()`. */
  method Lex(raw: string) returns (tokens: seq<Token>)
    ensures WellFormed(raw, tokens)
    ensures SpansInBounds(raw, tokens) && Render(raw, tokens) == raw
    ensures Delimiters(tokens) == DelimitersOf(raw)
  {
    tokens := [];
    var anchor: nat := 0;
    var i: nat := 0;
    while i < |raw|
      invariant anchor <= i <= |raw|
      invariant TextsSeparated(raw, tokens)
      invariant i < |raw| ==> Tiles(raw, tokens, 0, anchor)
      invariant i < |raw| ==> forall k :: anchor <= k < i ==> !IsDelimiter(raw[k])
      invariant i < |raw| && tokens != [] ==> !tokens[|tokens| - 1].Text?
      invariant i == |raw| ==> Tiles(raw, tokens, 0, |raw|)
    {
      var ch := raw[i];
      match ch {
        case '*' | '_' | '`' | '#' =>
          if anchor != i {
            PushText(raw, tokens, anchor, i);
            tokens := tokens + [Text(anchor, i)];
          }
          PushDelimiter(raw, tokens, i);
          tokens := tokens + [DelimiterToken(ch)];
          if i + 1 < |raw| {
            anchor := i + 1;
          }
        case _ =>
          if i + 1 == |raw| {
            PushText(raw, tokens, anchor, |raw|);
            tokens := tokens + [Text(anchor, |raw|)];
          }
      }
      i := i + 1;
    }
    TilesRender(raw, tokens, 0, |raw|);
    TilesDelimiters(raw, tokens, 0, |raw|);
  }

  // ---------------------------------------------------------------------
  // Lemmas.

  /** Tilings of adjacent ranges concatenate. */
  lemma {:induction false} TilesAppend(raw: string, ts: seq<Token>, us: seq<Token>, a: nat, b: nat, c: nat)
    requires a <= b <= c <= |raw|
    requires Tiles(raw, ts, a, b) && Tiles(raw, us, b, c)
    ensures Tiles(raw, ts + us, a, c)
    decreases ts
  {
    if ts != [] {
      assert (ts + us)[0] == ts[0] && (ts + us)[1..] == ts[1..] + us;
      TilesAppend(raw, ts[1..], us, if ts[0].Text? then ts[0].hi else a + 1, b, c);
    } else {
      assert ts + us == us;
    }
  }

  /** Emitting the pending run `raw[lo..hi]` as a `Text` token. */
  lemma PushText(raw: string, ts: seq<Token>, lo: nat, hi: nat)
    requires lo < hi <= |raw|
    requires Tiles(raw, ts, 0, lo) && TextsSeparated(raw, ts)
    requires forall k :: lo <= k < hi ==> !IsDelimiter(raw[k])
    requires ts != [] ==> !ts[|ts| - 1].Text?
    ensures Tiles(raw, ts + [Text(lo, hi)], 0, hi) && TextsSeparated(raw, ts + [Text(lo, hi)])
  {
    TilesAppend(raw, ts, [Text(lo, hi)], 0, lo, hi);
    SeparatedAfterText(raw, ts, lo, hi);
  }

  /** The separation half of `PushText`. */
  lemma SeparatedAfterText(raw: string, ts: seq<Token>, lo: nat, hi: nat)
    requires lo < hi && TextsSeparated(raw, ts)
    requires forall k :: lo <= k < hi && k < |raw| ==> !IsDelimiter(raw[k])
    requires ts != [] ==> !ts[|ts| - 1].Text?
    ensures TextsSeparated(raw, ts + [Text(lo, hi)])
  {
    var ts' := ts + [Text(lo, hi)];
    forall i, k | 0 <= i < |ts'| && ts'[i].Text? && ts'[i].lo <= k < ts'[i].hi && k < |raw|
      ensures !IsDelimiter(raw[k])
    {
      if i < |ts| { assert ts'[i] == ts[i]; }
    }
    forall i | 0 < i < |ts'| ensures !(ts'[i - 1].Text? && ts'[i].Text?) {
      if i < |ts| { assert ts'[i - 1] == ts[i - 1] && ts'[i] == ts[i]; }
    }
  }

  /** Emitting the token of the delimiter `raw[i]`. */
  lemma PushDelimiter(raw: string, ts: seq<Token>, i: nat)
    requires i < |raw| && IsDelimiter(raw[i])
    requires Tiles(raw, ts, 0, i) && TextsSeparated(raw, ts)
    ensures Tiles(raw, ts + [DelimiterToken(raw[i])], 0, i + 1)
    ensures TextsSeparated(raw, ts + [DelimiterToken(raw[i])])
  {
    var t := DelimiterToken(raw[i]);
    assert Tiles(raw, [t], i, i + 1) by { assert [t][1..] == []; }
    TilesAppend(raw, ts, [t], 0, i, i + 1);
    var ts' := ts + [t];
    forall i, k | 0 <= i < |ts'| && ts'[i].Text? && ts'[i].lo <= k < ts'[i].hi && k < |raw|
      ensures !IsDelimiter(raw[k])
    {
      assert ts'[i] == ts[i];
    }
    forall j | 0 < j < |ts'| ensures !(ts'[j - 1].Text? && ts'[j].Text?) {
      if j < |ts| { assert ts'[j - 1] == ts[j - 1] && ts'[j] == ts[j]; }
    }
  }

  /** Concatenating a tiling reconstructs the range it tiles. */
  lemma {:induction false} TilesRender(raw: string, ts: seq<Token>, from: nat, to: nat)
    requires from <= to <= |raw| && Tiles(raw, ts, from, to)
    ensures SpansInBounds(raw, ts) && Render(raw, ts) == raw[from..to]
    decreases ts
  {
    if ts != [] {
      var next := if ts[0].Text? then ts[0].hi else from + 1;
      TilesRender(raw, ts[1..], next, to);
      forall i | 0 < i < |ts| ensures ts[i] == ts[1..][i - 1] { }
      assert raw[from..to] == raw[from..next] + raw[next..to];
      if !ts[0].Text? {
        assert raw[from..next] == [raw[from]];
      }
    }
  }

  /** The delimiter characters of `s + t` are those of `s`, then those of `t`. */
  lemma {:induction false} DelimitersOfAppend(s: string, t: string)
    ensures DelimitersOf(s + t) == DelimitersOf(s) + DelimitersOf(t)
    decreases s
  {
    if s == [] {
      assert s + t == t;
    } else {
      assert (s + t)[0] == s[0] && (s + t)[1..] == s[1..] + t;
      DelimitersOfAppend(s[1..], t);
    }
  }

  /** A run without delimiter characters yields no delimiter tokens. */
  lemma {:induction false} DelimitersOfFree(s: string)
    requires forall k :: 0 <= k < |s| ==> !IsDelimiter(s[k])
    ensures DelimitersOf(s) == []
    decreases s
  {
    if s != [] {
      DelimitersOfFree(s[1..]);
    }
  }

  /** Each delimiter token of a tiling stands for one delimiter character of
      the range, in order, and `Text` spans hold none. */
  lemma {:induction false} TilesDelimiters(raw: string, ts: seq<Token>, from: nat, to: nat)
    requires from <= to <= |raw| && Tiles(raw, ts, from, to) && TextsDelimiterFree(raw, ts)
    ensures Delimiters(ts) == DelimitersOf(raw[from..to])
    decreases ts
  {
    if ts == [] {
      assert raw[from..to] == [];
    } else {
      var next := if ts[0].Text? then ts[0].hi else from + 1;
      assert TextsDelimiterFree(raw, ts[1..]) by {
        forall i | 0 <= i < |ts[1..]| ensures ts[1..][i] == ts[i + 1] { }
      }
      TilesDelimiters(raw, ts[1..], next, to);
      assert raw[from..to] == raw[from..next] + raw[next..to];
      DelimitersOfAppend(raw[from..next], raw[next..to]);
      if ts[0].Text? {
        assert forall k :: 0 <= k < |raw[from..next]| ==> raw[from..next][k] == raw[from + k];
        DelimitersOfFree(raw[from..next]);
      } else {
        assert raw[from..next] == [raw[from]];
        assert DelimitersOf([raw[from]]) == [DelimiterToken(raw[from])];
        assert DelimiterToken(raw[from]) == ts[0];
      }
    }
  }
}
