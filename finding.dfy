/** The unguarded escaped-newline test of `dequote` (token/token.c:205), on
    the token `"\<newline>\<newline>"\` followed by the terminator.  Inside
    the double quotes the two escaped newlines collapse to one space and the
    closing quote is removed, which leaves the trailing backslash as the last
    byte of a one-byte remainder; the byte after it is a stale newline left
    behind by the shifts, so the source takes the escaped-newline branch and
    calls `memmove` with the size `len - 2` wrapping around. */
module DequoteFinding {

  import opened Wrappers
  import opened CString
  import opened EscapeScan
  import opened Separators
  import opened Tokenizer
  import opened Dequoting
  import opened DequoteBuffer
  import opened DequoteCorrect

  /** The buffer: the seven characters of the token, then its terminator. */
  const INPUT: seq<char> := ['"', '\\', '\n', '\\', '\n', '"', '\\', '\0']

  /** next_quoted_token reads the whole token, quotes closed, so that
      next_dequoted_token passes it to `dequote`. */
  lemma TokenIsRead()
    ensures NextToken(INPUT, 0, 0) == TokenScan(Some(0), 7, 7, 0)
  {
    assert Spn(INPUT, 0, SEPARATORS) == 0;
    assert SkipSeps(INPUT, 0) == 0;
    assert SkipUntil(INPUT, 0) == 0;
    EscSpanUnique(INPUT, 1, 7, DOUBLE_QUOTE, 5);
    assert Closing(INPUT, 0) == 5;
    assert SkipUntilFrom(INPUT, 6, 7) == 7;
    assert SkipUntil(INPUT, 6) == 7;
    assert TokenEnd(INPUT, 6) == Extent(7, false);
    assert TokenEnd(INPUT, 0) == PartEnd(INPUT, 0) == AfterQuote(INPUT, 5) == Extent(7, false);
    assert Spn(INPUT, 7, SEPARATORS) == 7;
    assert SkipSeps(INPUT, 7) == 7;
  }

  /** The buffer after the opening quote is removed. */
  const OPENED: seq<char> := ['\\', '\n', '\\', '\n', '"', '\\', '\0', '\0']

  /** The buffer after the escaped newlines collapse into one space. */
  const COLLAPSED: seq<char> := [' ', '"', '\\', '\n', '"', '\\', '\0', '\0']

  /** The buffer after the closing quote is removed. */
  const CLOSED: seq<char> := [' ', '\\', '\n', '\n', '"', '\\', '\0', '\0']

  lemma OpeningRemoved()
    ensures Moved(INPUT, 0, 1, 7) == OPENED
  {
    forall i | 0 <= i < 8
      ensures Moved(INPUT, 0, 1, 7)[i] == OPENED[i]
    {
      MovedAt(INPUT, 0, 1, 7, i);
    }
    assert Moved(INPUT, 0, 1, 7) == OPENED;
  }

  lemma NewlinesCollapsed()
    ensures Collapse(OPENED, 0, 0, 6) == Some(Scan(COLLAPSED, 1, 3))
  {
    assert WalkBack(OPENED, 0, -1) == -1;
    assert WalkForward(OPENED, 4, 6) == 4;
    assert WalkForward(OPENED, 2, 6) == 4;
    assert WalkForward(OPENED, 0, 6) == 4;
    var b1 := OPENED[0 := ' '];
    forall i | 0 <= i < 8
      ensures Moved(b1, 1, 4, 2)[i] == COLLAPSED[i]
    {
      MovedAt(b1, 1, 4, 2, i);
    }
    assert Moved(b1, 1, 4, 2) == COLLAPSED;
  }

  lemma ClosingRemoved()
    ensures Moved(COLLAPSED, 1, 2, 2) == CLOSED
  {
    forall i | 0 <= i < 8
      ensures Moved(COLLAPSED, 1, 2, 2)[i] == CLOSED[i]
    {
      MovedAt(COLLAPSED, 1, 2, 2, i);
    }
    assert Moved(COLLAPSED, 1, 2, 2) == CLOSED;
  }

  /** The first turn of the loop of quote_removal_in_double_quotes
      collapses the two escaped newlines. */
  lemma FirstTurn()
    ensures DqLoop(OPENED, 0, 0, 6) == DqLoop(COLLAPSED, 0, 1, 3)
  {
    EscSpanUnique(OPENED, 0, 6, QE, 0);
    assert DqLoop(OPENED, 0, 0, 6) == DqTurn(OPENED, 0, 0, 6, 0) == DqEscape(OPENED, 0, 0, 6, 0);
    NewlinesCollapsed();
  }

  /** The second turn removes the closing quote and stops. */
  lemma SecondTurn()
    ensures DqLoop(COLLAPSED, 0, 1, 3) == Some(Cut(CLOSED, 1, 1))
  {
    EscSpanUnique(COLLAPSED, 1, 3, QE, 1);
    assert DqLoop(COLLAPSED, 0, 1, 3) == DqTurn(COLLAPSED, 0, 1, 3, 1);
    ClosingRemoved();
  }

  /** quote_removal_in_double_quotes stops after the closing quote, one byte
      before the end: the trailing backslash, followed by the stale newline. */
  lemma DoubleQuotedPart()
    ensures DoubleQuoteRemoval(INPUT, 0, 7) == Some(Cut(CLOSED, 1, 1))
  {
    OpeningRemoved();
    FirstTurn();
    SecondTurn();
  }

  /** As written, `dequote` takes the escaped-newline branch on the last
      byte of the token and its `memmove` size wraps around. */
  lemma AsWrittenWraps()
    ensures DequoteAsWritten(INPUT, 0, 7).None?
  {
    DoubleQuotedPart();
    assert DequoteStep(INPUT, 0, 7, false) == Some(Scan(CLOSED, 1, 2));
    assert DequoteStep(CLOSED, 1, 2, false).None?;
    assert DequoteLoop(CLOSED, 0, 1, 2, false).None?;
  }

  /** The double-quoted part of the token's content: the escaped newlines
      collapse into one space, then the closing quote ends the part. */
  lemma QuotedContent(u: seq<char>)
    requires u == ['\\', '\n', '\\', '\n', '"', '\\']
    ensures DqDouble(u, []) == Some(Part([' '], ['\\']))
  {
    var v := u[4..];
    assert v == ['"', '\\'] && v[1..] == ['\\'];
    assert Gap(v) == 0;
    assert u[0..] == u && Gap(u) == 4;
    assert FirstOf(u, DQ_SPECIAL) == 0 && FirstOf(v, DQ_SPECIAL) == 0;
    assert [] + u[..0] == [] && [' '] + v[..0] == [' '];
    assert TrimTail([]) + [' '] == [' '];
    assert Gap(u[0..]) == 4;
    assert DqDouble(v, [' ']) == DqSpecial(v, [' '], 0) == Some(Part([' '], ['\\']));
    assert DqDouble(u, []) == DqSpecial(u, [], 0) == DqDouble(v, [' ']);
  }

  /** The reference definition accepts the token and yields one space. */
  lemma ContentDequotes()
    ensures Dq(INPUT[0..7]) == Some([' '])
  {
    var t := INPUT[0..7];
    assert t == ['"', '\\', '\n', '\\', '\n', '"', '\\'];
    var u := t[1..];
    assert u == ['\\', '\n', '\\', '\n', '"', '\\'];
    QuotedContent(u);
    assert Dq(['\\']) == DqBackslash(['\\']) == Some([]);
    var p := DqDouble(t[1..], []).value;
    assert p.rest == ['\\'] && p.out == [' '];
    assert Dq(p.rest) == Some([]);
    assert p.out + [] == [' '];
    assert DqQuoted(t) == Some([' ']);
    assert Dq(t) == DqQuoted(t);
  }

  /** With the bound check the same token dequotes to a single space: the
      trailing backslash is removed as a lone backslash. */
  lemma GuardedDequotes()
    ensures Dq(INPUT[0..7]) == Some([' '])
    ensures Dequote(INPUT, 0, 7).Some? && Dequote(INPUT, 0, 7).value.len == 1
    ensures Dequote(INPUT, 0, 7).value.buf[0..2] == [' ', '\0']
  {
    ContentDequotes();
    DequoteComputesDq(INPUT, 0, 7);
  }
}
