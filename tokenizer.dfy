/** `next_quoted_token` of token/token.c: finds the next shell-like token of a
    C string, quotes and escapes included, without changing the input. */
module Tokenizer {

  import opened Wrappers
  import opened CString
  import opened EscapeScan
  import opened Separators

  /** The reject sets that find a closing single and double quote. */
  const SINGLE_QUOTE: set<char> := {'\''}
  const DOUBLE_QUOTE: set<char> := {'"'}

  /** `status | 1` on a two's-complement `int`: sets bit 0, which adds one to
      an even value; every other bit, and so the value halved, is unchanged. */
  function SetBit0(status: int): (r: int)
    ensures r % 2 == 1 && r / 2 == status / 2
    ensures status % 2 == 1 ==> r == status
  {
    if status % 2 == 1 then status else status + 1
  }

  /** Where a token ends, and whether it ends inside an unclosed quote. */
  datatype Extent = Extent(end: nat, unterminated: bool)

  /** The scanning loop of `next_quoted_token`, one turn per call: skip the
      unquoted part, then see what stops it. */
  function TokenEnd(s: seq<char>, p: nat): (r: Extent)
    requires CStr(s) && p < |s|
    ensures p <= r.end < |s|
    decreases |s| - p, 2
  {
    PartEnd(s, SkipUntil(s, p))
  }

  /** What stops the unquoted part at `q`: the terminator or an escaped newline
      ends the token; a quote opens a quoted part; anything else is a separator
      and ends the token. */
  function PartEnd(s: seq<char>, q: nat): (r: Extent)
    requires CStr(s) && q < |s|
    ensures q <= r.end < |s|
    decreases |s| - q, 1
  {
    if s[q] == '\0' || EscapedNewline(s, q) then Extent(q, false)
    else if s[q] == '\'' || s[q] == '"' then AfterQuote(s, Closing(s, q))
    else Extent(q, false)
  }

  /** The closing quote of the quoted part opened at `q`, or the terminator:
      backslashes are plain characters inside single quotes, while inside
      double quotes an escaped double quote does not close. */
  function Closing(s: seq<char>, q: nat): (c: nat)
    requires CStr(s) && q < |s| && (s[q] == '\'' || s[q] == '"')
    ensures q < c < |s| && (s[c] == '\0' || s[c] == s[q])
  {
    if s[q] == '\'' then Cspn(s, q + 1, SINGLE_QUOTE) else StrEcSpan(s, q + 1, DOUBLE_QUOTE)
  }

  /** At the closing quote `c`: no closing quote means the token is
      unterminated; whitespace after it ends the token; anything else continues
      the same token. */
  function AfterQuote(s: seq<char>, c: nat): (r: Extent)
    requires CStr(s) && c < |s|
    ensures c <= r.end < |s|
    decreases |s| - c, 0
  {
    if s[c] == '\0' then Extent(c, true)
    else if Whitespace(s[c + 1]) then Extent(c + 1, false)
    else TokenEnd(s, c + 1)
  }

  /** A quoted part holds no terminator. */
  lemma ClosingSkipped(s: seq<char>, q: nat)
    requires CStr(s) && q < |s| && (s[q] == '\'' || s[q] == '"')
    ensures forall j | q <= j < Closing(s, q) :: s[j] != '\0'
  {
    if s[q] == '\'' {
      CspnSkipped(s, q + 1, SINGLE_QUOTE);
    } else {
      StrEcSpanSkipped(s, q + 1, DOUBLE_QUOTE);
    }
  }

  /** A token holds no terminator. */
  lemma {:induction false} TokenEndNoNul(s: seq<char>, p: nat)
    requires CStr(s) && p < |s|
    ensures forall j | p <= j < TokenEnd(s, p).end :: s[j] != '\0'
    decreases |s| - p
  {
    var q := SkipUntil(s, p);
    SkipUntilNoNul(s, p);
    if s[q] != '\0' && !EscapedNewline(s, q) && (s[q] == '\'' || s[q] == '"') {
      var c := Closing(s, q);
      ClosingSkipped(s, q);
      assert TokenEnd(s, p) == PartEnd(s, q) == AfterQuote(s, c);
      if s[c] != '\0' && !Whitespace(s[c + 1]) {
        TokenEndNoNul(s, c + 1);
      }
    }
  }

  /** An unclosed quote runs to the terminator; otherwise the token is
      followed by the terminator, a separator or an escaped newline. */
  lemma {:induction false} TokenEndFollower(s: seq<char>, p: nat)
    requires CStr(s) && p < |s|
    ensures var r := TokenEnd(s, p);
      && (r.unterminated ==> s[r.end] == '\0')
      && (!r.unterminated ==> s[r.end] == '\0' || Whitespace(s[r.end]) || EscapedNewline(s, r.end))
    decreases |s| - p
  {
    var q := SkipUntil(s, p);
    if s[q] == '\0' || EscapedNewline(s, q) {
    } else if s[q] == '\'' || s[q] == '"' {
      var c := Closing(s, q);
      assert TokenEnd(s, p) == PartEnd(s, q) == AfterQuote(s, c);
      if s[c] != '\0' && !Whitespace(s[c + 1]) {
        TokenEndFollower(s, c + 1);
      }
    } else {
      SkipUntilStops(s, p);
      assert Boundary(s, p, q);
    }
  }

  /** A token that starts on neither the terminator, a separator nor an
      escaped newline is not empty. */
  lemma TokenEndNonEmpty(s: seq<char>, p: nat)
    requires CStr(s) && p < |s|
    requires s[p] != '\0' && !Whitespace(s[p]) && !EscapedNewline(s, p)
    ensures p < TokenEnd(s, p).end
  {
    var q := SkipUntil(s, p);
    SkipUntilStops(s, p);
    if q == p {
      assert Boundary(s, p, p);
    }
  }

  /** The outcome of one call: the token's start (none if the input holds only
      separators), its length with quotes and escapes, the new cursor and the
      new status bitmask. */
  datatype TokenScan = TokenScan(token: Option<nat>, tokenlen: nat, input: nat, status: int)

  /** Reference definition of `next_quoted_token` on the input `s[i..]`. */
  function NextToken(s: seq<char>, i: nat, status: int): (r: TokenScan)
    requires CStr(s) && i < |s|
    ensures i <= r.input < |s|
    ensures r.token.Some? ==> i <= r.token.value && r.token.value + r.tokenlen <= r.input
  {
    var t := SkipSeps(s, i);
    if s[t] == '\0' then
      TokenScan(None, 0, t, status)
    else
      var e := TokenEnd(s, t);
      TokenScan(Some(t), e.end - t, SkipSeps(s, e.end), if e.unterminated then SetBit0(status) else status)
  }

  /** The input is split into separators, the token, and separators again; the
      token starts on neither a separator nor an escaped newline, so the
      separators before it are all of them; the new cursor is at the start of
      the next token or at the terminator; with no token, the whole input was
      separators. */
  lemma NextTokenShape(s: seq<char>, i: nat, status: int)
    requires CStr(s) && i < |s|
    ensures var r := NextToken(s, i, status);
      && !Whitespace(s[r.input]) && !EscapedNewline(s, r.input)
      && (r.token.None? ==> r.tokenlen == 0 && s[r.input] == '\0' && SepRun(s, i, r.input))
      && (r.token.Some? ==>
            var t := r.token.value;
            && 0 < r.tokenlen
            && s[t] != '\0' && !Whitespace(s[t]) && !EscapedNewline(s, t)
            && SepRun(s, i, t)
            && SepRun(s, t + r.tokenlen, r.input)
            && (forall j | t <= j < t + r.tokenlen :: s[j] != '\0'))
  {
    var t := SkipSeps(s, i);
    if s[t] != '\0' {
      TokenEndNoNul(s, t);
      TokenEndNonEmpty(s, t);
    }
  }

  /** Only an unclosed quote changes the status: it sets bit 0 (see
      SetBit0) and leaves the cursor on the terminator right after the
      token. */
  lemma NextTokenStatus(s: seq<char>, i: nat, status: int)
    requires CStr(s) && i < |s|
    ensures var r := NextToken(s, i, status);
      var unclosed := r.token.Some? && TokenEnd(s, r.token.value).unterminated;
      && (!unclosed ==> r.status == status)
      && (unclosed ==>
            r.status == SetBit0(status) && s[r.input] == '\0' && r.input == r.token.value + r.tokenlen)
  {
    var r := NextToken(s, i, status);
    var t := SkipSeps(s, i);
    if s[t] == '\0' {
      assert r.status == status;
    } else {
      var e := TokenEnd(s, t);
      TokenEndFollower(s, t);
      if e.unterminated {
        assert SkipSeps(s, e.end) == e.end;
        assert r == TokenScan(Some(t), e.end - t, e.end, SetBit0(status));
      } else {
        assert r.status == status;
      }
    }
  }

  /** A separator run contains no terminator. */
  lemma {:induction false} SepRunNoNul(s: seq<char>, i: nat, k: nat)
    requires i <= k <= |s| && SepRun(s, i, k)
    ensures forall j | i <= j < k :: s[j] != '\0'
    decreases k - i
  {
    if i < k {
      if Whitespace(s[i]) && SepRun(s, i + 1, k) {
        SepRunNoNul(s, i + 1, k);
      } else {
        SepRunNoNul(s, i + 2, k);
      }
    }
  }

  /** No token is found exactly when everything up to the terminator is
      separators and escaped newlines. */
  lemma NoTokenIffOnlySeparators(s: seq<char>, i: nat, status: int)
    requires CStr(s) && i < |s|
    ensures NextToken(s, i, status).token.None? <==> SepRun(s, i, NulAt(s, i))
  {
    var t := SkipSeps(s, i);
    var z := NulAt(s, i);
    NulAtFirst(s, i);
    if s[t] == '\0' {
      SepRunNoNul(s, i, t);
    }
    if SepRun(s, i, z) {
      SepRunMaximalUnique(s, i, t, z);
    }
  }

  /** One turn of the for(;;) loop of `next_quoted_token`, from `p`: either
      the token ends (`done`, with its extent), or a quoted part was passed and
      the token goes on at `next`. */
  method ScanPart(s: seq<char>, p: nat) returns (next: nat, done: bool, unclosed: bool)
    requires CStr(s) && p < |s|
    ensures p <= next < |s|
    ensures done ==> TokenEnd(s, p) == Extent(next, unclosed)
    ensures !done ==> p < next && TokenEnd(s, next) == TokenEnd(s, p)
  {
    var q := SkipUntilSeparator(s, p);
    unclosed := false;
    if s[q] == '\0' || (s[q] == '\\' && s[q + 1] == '\n') {
      return q, true, false;
    }
    if s[q] == '\'' || s[q] == '"' {
      var c;
      // The two quotes differ only in how the closing quote is found.
      if s[q] == '\'' {
        c := Cspn(s, q + 1, SINGLE_QUOTE);
      } else {
        var n := Strecspn(s, q + 1, DOUBLE_QUOTE);
        c := q + 1 + n;
      }
      assert TokenEnd(s, p) == PartEnd(s, q) == AfterQuote(s, c);
      if s[c] == '\0' {
        return c, true, true;
      }
      next := c + 1;
      done := Whitespace(s[next]);
      return;
    }
    return q, true, false;
  }

  /** `next_quoted_token` with its for(;;) loop; `input` is the cursor. */
  method NextQuotedToken(s: seq<char>, input: nat, status: int) returns (r: TokenScan)
    requires CStr(s) && input < |s|
    ensures r == NextToken(s, input, status)
  {
    var token := SkipSeparators(s, input);
    if s[token] == '\0' {
      return TokenScan(None, 0, token, status);
    }
    var st := status;
    var p := token;
    var done := false;
    var unclosed := false;
    while !done
      invariant token <= p < |s|
      invariant !done ==> TokenEnd(s, p) == TokenEnd(s, token)
      invariant done ==> TokenEnd(s, token) == Extent(p, unclosed)
      decreases |s| - p, if done then 0 else 1
    {
      p, done, unclosed := ScanPart(s, p);
    }
    if unclosed {
      st := SetBit0(st);
    }
    var next := SkipSeparators(s, p);
    r := TokenScan(Some(token), p - token, next, st);
  }
}
