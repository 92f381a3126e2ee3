/** next_quoted_token on three inputs that show where a token ends: adjacent
    quoted parts make one token, an escaped newline outside quotes ends a
    token and is skipped as a separator, and inside double quotes it does
    neither. */
module TokenExamples {

  import opened Wrappers
  import opened CString
  import opened EscapeScan
  import opened Separators
  import opened Tokenizer

  /** `'a'b'c'`: three quoted parts and a plain character between them. */
  const ADJACENT: seq<char> := ['\'', 'a', '\'', 'b', '\'', 'c', '\'', '\0']

  /** The whole of `'a'b'c'` is one token of seven bytes, quotes included. */
  lemma AdjacentQuotesOneToken()
    ensures NextToken(ADJACENT, 0, 0) == TokenScan(Some(0), 7, 7, 0)
  {
    var s := ADJACENT;
    assert Spn(s, 0, SEPARATORS) == 0;
    assert SkipSeps(s, 0) == 0;
    assert SkipUntil(s, 0) == 0;
    assert Cspn(s, 1, SINGLE_QUOTE) == 2;
    assert Closing(s, 0) == 2;
    assert !Boundary(s, 3, 3) && Boundary(s, 3, 4);
    assert SkipUntilFrom(s, 3, 4) == 4;
    assert SkipUntil(s, 3) == 4;
    assert Cspn(s, 5, SINGLE_QUOTE) == 6;
    assert Closing(s, 4) == 6;
    assert SkipUntil(s, 7) == 7;
    assert TokenEnd(s, 7) == Extent(7, false);
    assert TokenEnd(s, 3) == PartEnd(s, 4) == AfterQuote(s, 6) == Extent(7, false);
    assert TokenEnd(s, 0) == PartEnd(s, 0) == AfterQuote(s, 2) == Extent(7, false);
    assert Spn(s, 7, SEPARATORS) == 7;
    assert SkipSeps(s, 7) == 7;
  }

  /** `hello\<newline>world`, unquoted. */
  const SPLIT: seq<char> := ['h', 'e', 'l', 'l', 'o', '\\', '\n', 'w', 'o', 'r', 'l', 'd', '\0']

  /** The escaped newline ends the first token, `hello`, and the cursor
      skips it to the start of `world`. */
  lemma EscapedNewlineEndsToken()
    ensures NextToken(SPLIT, 0, 0) == TokenScan(Some(0), 5, 7, 0)
  {
    var s := SPLIT;
    assert Spn(s, 0, SEPARATORS) == 0;
    assert SkipSeps(s, 0) == 0;
    assert BsRun(s, 0, 6) == 1;
    assert SkipUntilFrom(s, 0, 6) == 5;
    assert SkipUntilFrom(s, 0, 2) == 5;
    assert SkipUntil(s, 0) == 5;
    assert EscapedNewline(s, 5);
    assert TokenEnd(s, 0) == PartEnd(s, 5) == Extent(5, false);
    assert Spn(s, 5, SEPARATORS) == 5;
    assert Spn(s, 7, SEPARATORS) == 7;
    assert SkipSeps(s, 7) == 7;
    assert SkipSeps(s, 5) == 7;
  }

  /** The second call reads `world`, up to the terminator. */
  lemma SecondTokenAfterNewline()
    ensures NextToken(SPLIT, 7, 0) == TokenScan(Some(7), 5, 12, 0)
  {
    var s := SPLIT;
    assert Spn(s, 7, SEPARATORS) == 7;
    assert SkipSeps(s, 7) == 7;
    assert SkipUntilFrom(s, 7, 12) == 12;
    assert SkipUntilFrom(s, 7, 9) == 12;
    assert SkipUntil(s, 7) == 12;
    assert TokenEnd(s, 7) == PartEnd(s, 12) == Extent(12, false);
    assert Spn(s, 12, SEPARATORS) == 12;
    assert SkipSeps(s, 12) == 12;
  }

  /** `"hello\<newline>world"`, double-quoted. */
  const QUOTED: seq<char> :=
    ['"', 'h', 'e', 'l', 'l', 'o', '\\', '\n', 'w', 'o', 'r', 'l', 'd', '"', '\0']

  /** Inside double quotes the escaped newline neither ends the token nor
      closes the quoted part: the whole input is one token. */
  lemma QuotedNewlineKeepsToken()
    ensures NextToken(QUOTED, 0, 0) == TokenScan(Some(0), 14, 14, 0)
  {
    var s := QUOTED;
    assert Spn(s, 0, SEPARATORS) == 0;
    assert SkipSeps(s, 0) == 0;
    assert SkipUntil(s, 0) == 0;
    assert forall j | 1 <= j < 13 :: !Stop(s, 1, j, DOUBLE_QUOTE);
    EscSpanUnique(s, 1, 14, DOUBLE_QUOTE, 13);
    assert Closing(s, 0) == 13;
    assert SkipUntil(s, 14) == 14;
    assert TokenEnd(s, 14) == Extent(14, false);
    assert TokenEnd(s, 0) == PartEnd(s, 0) == AfterQuote(s, 13) == Extent(14, false);
    assert Spn(s, 14, SEPARATORS) == 14;
    assert SkipSeps(s, 14) == 14;
  }
}
