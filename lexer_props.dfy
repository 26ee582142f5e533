/** Properties of `lex` (src/lexer.rs): its output is the only well-formed
    token sequence for the input, and what that sequence is on small inputs. */
module LexerProperties {
  import opened Lexer

  /** Dropping the first token keeps the `Text` tokens separated. */
  lemma SeparatedTail(raw: string, ts: seq<Token>)
    requires ts != [] && TextsSeparated(raw, ts)
    ensures TextsSeparated(raw, ts[1..])
  {
    forall i | 0 <= i < |ts| - 1 ensures ts[1..][i] == ts[i + 1] { }
  }

  /** A leading `Text` token ends exactly where the run of non-delimiter
      characters that starts it ends. */
  lemma TextEnd(raw: string, ts: seq<Token>, from: nat)
    requires from <= |raw| && Tiles(raw, ts, from, |raw|) && TextsSeparated(raw, ts)
    requires ts != [] && ts[0].Text?
    ensures forall k :: from <= k < ts[0].hi ==> !IsDelimiter(raw[k])
    ensures ts[0].hi == |raw| || IsDelimiter(raw[ts[0].hi])
  {
    forall k | from <= k < ts[0].hi ensures !IsDelimiter(raw[k]) {
      assert ts[0].lo <= k < ts[0].hi && k < |raw|;
    }
    if ts[0].hi < |raw| {
      assert ts[1..] != [];
      assert !ts[1].Text?;
      assert ts[1..][0] == ts[1];
    }
  }

  /** Two separated tilings of the same suffix of `raw` are equal. */
  lemma {:induction false} TilesUnique(raw: string, t1: seq<Token>, t2: seq<Token>, from: nat)
    requires from <= |raw|
    requires Tiles(raw, t1, from, |raw|) && TextsSeparated(raw, t1)
    requires Tiles(raw, t2, from, |raw|) && TextsSeparated(raw, t2)
    ensures t1 == t2
    decreases |raw| - from
  {
    if from < |raw| {
      assert t1 != [] && t2 != [];
      var next: nat;
      if IsDelimiter(raw[from]) {
        assert t1[0] == DelimiterToken(raw[from]) == t2[0];
        next := from + 1;
      } else {
        assert t1[0].Text? && t2[0].Text?;
        TextEnd(raw, t1, from);
        TextEnd(raw, t2, from);
        assert t1[0].hi == t2[0].hi;
        next := t1[0].hi;
      }
      SeparatedTail(raw, t1);
      SeparatedTail(raw, t2);
      TilesUnique(raw, t1[1..], t2[1..], next);
      assert t1 == [t1[0]] + t1[1..] && t2 == [t2[0]] + t2[1..];
    }
  }

  /** `lex` is determined by its contract: one well-formed sequence per input. */
  lemma WellFormedUnique(raw: string, t1: seq<Token>, t2: seq<Token>)
    requires WellFormed(raw, t1) && WellFormed(raw, t2)
    ensures t1 == t2
  {
    TilesUnique(raw, t1, t2, 0);
  }

  /** The empty input lexes to no tokens. */
  lemma EmptyInput(ts: seq<Token>)
    ensures WellFormed("", ts) <==> ts == []
  {
  }

  /** An italic word inside a sentence. */
  lemma ItalicsExample(ts: seq<Token>)
    requires WellFormed("I am _really_ excited.", ts)
    ensures ts == [Text(0, 5), ItalicsDelimiter, Text(6, 12), ItalicsDelimiter, Text(13, 22)]
  {
    var raw := "I am _really_ excited.";
    var expected := [Text(0, 5), ItalicsDelimiter, Text(6, 12), ItalicsDelimiter, Text(13, 22)];
    assert Tiles(raw, expected[4..], 13, 22);
    assert Tiles(raw, expected[3..], 12, 22);
    assert Tiles(raw, expected[2..], 6, 22);
    assert Tiles(raw, expected[1..], 5, 22);
    assert TextsDelimiterFree(raw, expected) by {
      forall k | 0 <= k < 22 && k != 5 && k != 12 ensures !IsDelimiter(raw[k]) { }
    }
    WellFormedUnique(raw, ts, expected);
  }

  /** A delimiter at the start gives no empty leading `Text`. */
  lemma LeadingDelimiterExample(ts: seq<Token>)
    requires WellFormed("*bold", ts)
    ensures ts == [BoldDelimiter, Text(1, 5)]
  {
    var expected := [BoldDelimiter, Text(1, 5)];
    assert Tiles("*bold", expected[1..], 1, 5);
    WellFormedUnique("*bold", ts, expected);
  }

  /** A delimiter at the end gives no empty trailing `Text`. */
  lemma TrailingDelimiterExample(ts: seq<Token>)
    requires WellFormed("bold*", ts)
    ensures ts == [Text(0, 4), BoldDelimiter]
  {
    var expected := [Text(0, 4), BoldDelimiter];
    assert Tiles("bold*", expected[1..], 4, 5);
    WellFormedUnique("bold*", ts, expected);
  }

  /** Adjacent delimiters give adjacent delimiter tokens and no `Text`. */
  lemma AdjacentDelimitersExample(ts: seq<Token>)
    requires WellFormed("**", ts)
    ensures ts == [BoldDelimiter, BoldDelimiter]
  {
    var expected := [BoldDelimiter, BoldDelimiter];
    assert Tiles("**", expected[1..], 1, 2);
    WellFormedUnique("**", ts, expected);
  }
}
