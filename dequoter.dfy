/** The in-place dequoting of token/token.c on a mutable buffer: every routine
    writes the array step by step, as the C code does, and is proved to leave
    the buffer that the whole-buffer functions of DequoteBuffer describe.  A
    routine that returns `ok == false` stands for a failure of the source (a
    failed assertion); the buffer is then unspecified.  The loop of `dequote`
    here carries the bound check of the Findings, so no `memmove` size wraps
    around. */
module Dequoter {

  import opened Wrappers
  import opened CString
  import opened EscapeScan
  import opened Dequoting
  import opened DequoteBuffer
  import opened Tokenizer
  import opened TokenDequote
  import opened DequoteCorrect

  /** `memmove(a + dst, a + src, n)`: copies forwards when the destination
      lies before the source and backwards otherwise, so that every byte is
      read before it is overwritten. */
  method Memmove(a: array<char>, dst: nat, src: nat, n: nat)
    requires dst + n <= a.Length && src + n <= a.Length
    modifies a
    ensures a[..] == Moved(old(a[..]), dst, src, n)
  {
    ghost var b := a[..];
    if dst <= src {
      var i := 0;
      while i < n
        invariant i <= n
        invariant forall k | dst <= k < dst + i :: a[k] == b[src + (k - dst)]
        invariant forall k | 0 <= k < a.Length && !(dst <= k < dst + i) :: a[k] == b[k]
      {
        a[dst + i] := a[src + i];
        i := i + 1;
      }
    } else {
      var i: nat := n;
      while i > 0
        invariant i <= n
        invariant forall k | dst + i <= k < dst + n :: a[k] == b[src + (k - dst)]
        invariant forall k | 0 <= k < a.Length && !(dst + i <= k < dst + n) :: a[k] == b[k]
      {
        i := i - 1;
        a[dst + i] := a[src + i];
      }
    }
    forall k | 0 <= k < a.Length
      ensures a[k] == Moved(b, dst, src, n)[k]
    {
      MovedAt(b, dst, src, n, k);
    }
  }

  /** `quote_removal_in_single_quotes(a + s, &slen)`: returns the position
      after the quoted characters and the length left behind them. */
  method QuoteRemovalInSingleQuotes(a: array<char>, s: nat, slen: nat) returns (ok: bool, close: nat, len: nat)
    requires s + slen < a.Length
    modifies a
    ensures ok ==> SingleQuoteRemoval(old(a[..]), s, slen) == Some(Cut(a[..], close, len))
    ensures !ok ==> SingleQuoteRemoval(old(a[..]), s, slen).None?
  {
    if slen <= 1 || a[s] != '\'' {
      return false, 0, 0;
    }
    var found := MemChr(a[..], s + 1, '\'', slen - 1);
    if found.None? {
      return false, 0, 0;
    }
    close := found.value;
    var end := s + slen;
    Memmove(a, close, close + 1, end - close);
    end := end - 1;
    Memmove(a, s, s + 1, end - s);
    end := end - 1;
    close := close - 1;
    ok, len := true, end - close;
  }

  /** The first loop of `collapse_escaped_newlines`: walks back over the
      blanks before `a[s]`, never below `beg + 1`. */
  method WalkBackBlanks(a: array<char>, beg: nat, s: nat) returns (p: nat)
    requires beg <= s < a.Length
    ensures p == WalkBack(a[..], beg, s - 1) + 1
  {
    var q: int := s - 1;
    while beg < q && Blank(a[q])
      invariant beg <= q + 1 <= s
      invariant WalkBack(a[..], beg, q) == WalkBack(a[..], beg, s - 1)
      decreases q
    {
      q := q - 1;
    }
    p := q + 1;
  }

  /** The nested loops of `collapse_escaped_newlines` that walk forward over
      blanks and backslash-newline pairs from `s`. */
  method WalkForwardPairs(a: array<char>, s: nat, end: nat) returns (g: nat)
    requires s <= end < a.Length
    ensures g == WalkForward(a[..], s, end)
  {
    g := s;
    ghost var target := WalkForward(a[..], s, end);
    while g < end && (Blank(a[g]) || (a[g] == '\\' && a[g + 1] == '\n'))
      invariant s <= g <= end + 1
      invariant g <= end ==> WalkForward(a[..], g, end) == target
      invariant g > end ==> g == target
      decreases end + 1 - g
    {
      ghost var g0 := g;
      while g < end && Blank(a[g])
        invariant g0 <= g <= end
        invariant WalkForward(a[..], g, end) == target
      {
        g := g + 1;
      }
      ghost var g1 := g;
      while g < end && a[g] == '\\' && a[g + 1] == '\n'
        invariant g1 <= g <= end + 1
        invariant g <= end ==> WalkForward(a[..], g, end) == target
        invariant g > end ==> g == target
        decreases end + 1 - g
      {
        g := g + 2;
      }
      assert g0 < g;
    }
  }

  /** `collapse_escaped_newlines(a + s, a + beg, &end)`: the blanks and
      backslash-newline pairs around the pair at `s` become one space; returns
      the position after that space and the new end. */
  method CollapseEscapedNewlines(a: array<char>, s: nat, beg: nat, end: nat) returns (ok: bool, p: nat, newEnd: nat)
    requires beg <= s < end < a.Length
    modifies a
    ensures ok ==> Collapse(old(a[..]), s, beg, end) == Some(Scan(a[..], p, newEnd))
    ensures !ok ==> Collapse(old(a[..]), s, beg, end).None?
  {
    if a[s] != '\\' || a[s + 1] != '\n' {
      return false, 0, 0;
    }
    ghost var b := a[..];
    p := WalkBackBlanks(a, beg, s);
    var g := WalkForwardPairs(a, s, end);
    CollapseWalked(b, s, beg, end, p, g);
    if g > end {
      return false, 0, 0;
    }
    a[p] := ' ';
    p := p + 1;
    Memmove(a, p, g, end - g);
    ok, newEnd := true, end - (g - p);
  }

  /** Collapse in terms of where the two walks stop. */
  lemma CollapseWalked(b: seq<char>, s: nat, beg: nat, end: nat, p: nat, g: nat)
    requires beg <= s < end < |b| && b[s] == '\\' && b[s + 1] == '\n'
    requires p == WalkBack(b, beg, s - 1) + 1 && g == WalkForward(b, s, end)
    ensures g > end ==> Collapse(b, s, beg, end).None?
    ensures g <= end ==> p < |b| && Collapse(b, s, beg, end) == Some(Scan(Moved(b[p := ' '], p + 1, g, end - g), p + 1, end - (g - (p + 1))))
  {
  }

  /** `quote_removal_in_double_quotes(a + s, &slen)`: returns the position
      where dequoting goes on and the length left from there. */
  method QuoteRemovalInDoubleQuotes(a: array<char>, s: nat, slen: nat) returns (ok: bool, at: nat, len: nat)
    requires s + slen < a.Length
    modifies a
    ensures ok ==> DoubleQuoteRemoval(old(a[..]), s, slen) == Some(Cut(a[..], at, len))
    ensures !ok ==> DoubleQuoteRemoval(old(a[..]), s, slen).None?
  {
    if slen <= 1 || a[s] != '"' {
      return false, 0, 0;
    }
    ghost var target := DoubleQuoteRemoval(a[..], s, slen);
    var beg := s;
    var end := s + slen;
    // Remove the opening quote.
    Memmove(a, s, s + 1, end - s);
    end := end - 1;
    at := s;
    var done := false;
    ok := true;
    while !done
      invariant beg <= at <= end < a.Length
      invariant !done ==> ok && DqLoop(a[..], beg, at, end) == target
      invariant done && ok ==> target == Some(Cut(a[..], at, end - at))
      invariant done && !ok ==> target.None?
      decreases end - at, if done then 0 else 1
    {
      done, ok, at, end := DoubleQuoteTurn(a, beg, at, end);
    }
    len := end - at;
  }

  /** One turn of the for(;;) loop of `quote_removal_in_double_quotes` from
      `at`: either the quoted part ends (`done`, the loop then stops at `next`
      with `newEnd` the end of what is left) or the loop goes on from `next`. */
  method DoubleQuoteTurn(a: array<char>, beg: nat, at: nat, end: nat) returns (done: bool, ok: bool, next: nat, newEnd: nat)
    requires beg <= at <= end < a.Length
    modifies a
    ensures beg <= next <= newEnd <= end && newEnd - next <= end - at
    ensures !ok ==> done && DqLoop(old(a[..]), beg, at, end).None?
    ensures ok && done ==> DqLoop(old(a[..]), beg, at, end) == Some(Cut(a[..], next, newEnd - next))
    ensures ok && !done ==> newEnd - next < end - at && DqLoop(old(a[..]), beg, at, end) == DqLoop(a[..], beg, next, newEnd)
  {
    ghost var b := a[..];
    var n := Memecspn(a[..], at, QE, end - at);
    var k := at + n;
    if k >= end {
      TurnEnd(b, beg, at, end);
      return true, true, k, end;
    }
    if a[k] == '"' {
      // The closing quote.
      TurnQuote(b, beg, at, end, k);
      Memmove(a, k, k + 1, end - k);
      return true, true, k, end - 1;
    }
    if a[k] != '\\' || k + 1 >= end {
      TurnOther(b, beg, at, end, k);
      if a[k] != '\\' {
        return true, false, beg, beg;
      }
      // Nothing left to escape.
      return true, true, k, end;
    }
    done := false;
    ok, next, newEnd := DoubleQuoteEscape(a, beg, at, end, k);
    done := !ok;
  }

  /** The turn of `quote_removal_in_double_quotes` on a backslash at `k` with
      a character after it. */
  method DoubleQuoteEscape(a: array<char>, beg: nat, at: nat, end: nat, k: nat) returns (ok: bool, next: nat, newEnd: nat)
    requires beg <= at <= end < a.Length && k == EscSpan(a[..], at, end, QE) && k + 1 < end && a[k] == '\\'
    modifies a
    ensures beg <= next <= newEnd <= end && newEnd - next < end - at
    ensures !ok ==> DqLoop(old(a[..]), beg, at, end).None?
    ensures ok ==> DqLoop(old(a[..]), beg, at, end) == DqLoop(a[..], beg, next, newEnd)
  {
    ghost var b := a[..];
    if a[k + 1] == '\\' || a[k + 1] == '"' {
      // Remove the backslash and keep what it escapes.
      TurnEscapedPair(b, beg, at, end, k);
      Memmove(a, k, k + 1, end - k);
      return true, k + 1, end - 1;
    }
    if a[k + 1] == '\n' {
      ok, next, newEnd := DoubleQuoteNewline(a, beg, at, end, k);
      return;
    }
    // A lone backslash stays.
    TurnLone(b, beg, at, end, k);
    return true, k + 1, end;
  }

  /** The turn of `quote_removal_in_double_quotes` on an escaped newline at
      `k`: the run of escaped newlines collapses into one space. */
  method DoubleQuoteNewline(a: array<char>, beg: nat, at: nat, end: nat, k: nat) returns (ok: bool, next: nat, newEnd: nat)
    requires beg <= at <= end < a.Length && k == EscSpan(a[..], at, end, QE) && k + 1 < end
    requires a[k] == '\\' && a[k + 1] == '\n'
    modifies a
    ensures beg <= next <= newEnd <= end && newEnd - next < end - at
    ensures !ok ==> DqLoop(old(a[..]), beg, at, end).None?
    ensures ok ==> DqLoop(old(a[..]), beg, at, end) == DqLoop(a[..], beg, next, newEnd)
  {
    TurnCollapse(a[..], beg, at, end, k);
    var collapsed, p, e := CollapseEscapedNewlines(a, k, beg, end);
    if !collapsed {
      return false, beg, beg;
    }
    return true, p, e;
  }

  /** The turns of the loop of `quote_removal_in_double_quotes`, one lemma per
      outcome of the scan. */
  lemma TurnEnd(b: seq<char>, beg: nat, s: nat, end: nat)
    requires beg <= s <= end < |b| && EscSpan(b, s, end, QE) >= end
    ensures DqLoop(b, beg, s, end) == Some(Cut(b, end, 0))
  {
    assert DqLoop(b, beg, s, end) == DqTurn(b, beg, s, end, EscSpan(b, s, end, QE));
  }

  lemma TurnQuote(b: seq<char>, beg: nat, s: nat, end: nat, k: nat)
    requires beg <= s <= end < |b| && k == EscSpan(b, s, end, QE) && k < end && b[k] == '"'
    ensures DqLoop(b, beg, s, end) == Some(Cut(Moved(b, k, k + 1, end - k), k, end - 1 - k))
  {
    assert DqLoop(b, beg, s, end) == DqTurn(b, beg, s, end, k);
  }

  lemma TurnOther(b: seq<char>, beg: nat, s: nat, end: nat, k: nat)
    requires beg <= s <= end < |b| && k == EscSpan(b, s, end, QE) && k < end && b[k] != '"'
    requires b[k] != '\\' || k + 1 == end
    ensures DqLoop(b, beg, s, end) == if b[k] != '\\' then None else Some(Cut(b, k, 1))
  {
    assert DqLoop(b, beg, s, end) == DqTurn(b, beg, s, end, k);
  }

  lemma TurnEscapedPair(b: seq<char>, beg: nat, s: nat, end: nat, k: nat)
    requires beg <= s <= end < |b| && k == EscSpan(b, s, end, QE) && k + 1 < end && b[k] == '\\'
    requires b[k + 1] == '\\' || b[k + 1] == '"'
    ensures DqLoop(b, beg, s, end) == DqLoop(Moved(b, k, k + 1, end - k), beg, k + 1, end - 1)
  {
    assert DqLoop(b, beg, s, end) == DqTurn(b, beg, s, end, k) == DqEscape(b, beg, s, end, k);
  }

  lemma TurnCollapse(b: seq<char>, beg: nat, s: nat, end: nat, k: nat)
    requires beg <= s <= end < |b| && k == EscSpan(b, s, end, QE) && k + 1 < end && b[k] == '\\'
    requires b[k + 1] == '\n'
    ensures var c := Collapse(b, k, beg, end);
      DqLoop(b, beg, s, end) == if c.None? then None else DqLoop(c.value.buf, beg, c.value.s, c.value.end)
  {
    assert DqLoop(b, beg, s, end) == DqTurn(b, beg, s, end, k) == DqEscape(b, beg, s, end, k);
  }

  lemma TurnLone(b: seq<char>, beg: nat, s: nat, end: nat, k: nat)
    requires beg <= s <= end < |b| && k == EscSpan(b, s, end, QE) && k + 1 < end && b[k] == '\\'
    requires b[k + 1] != '\\' && b[k + 1] != '"' && b[k + 1] != '\n'
    ensures DqLoop(b, beg, s, end) == DqLoop(b, beg, k + 1, end)
  {
    assert DqLoop(b, beg, s, end) == DqTurn(b, beg, s, end, k) == DqEscape(b, beg, s, end, k);
  }

  /** `dequote(a + tok, &len)` with the bound check before the escaped
      newline test (see DequoteBuffer.DequoteStep): returns the dequoted
      length, the result NUL-terminated in place. */
  method DequoteInPlace(a: array<char>, tok: nat, len: nat) returns (ok: bool, newLen: nat)
    requires tok + len < a.Length
    modifies a
    ensures ok ==> Dequote(old(a[..]), tok, len) == Some(Cut(a[..], tok, newLen))
    ensures !ok ==> Dequote(old(a[..]), tok, len).None?
  {
    ghost var b0 := a[..];
    var end := tok + len;
    var s := tok;
    while s < end
      invariant tok <= s <= end + 1 && tok <= end < a.Length
      invariant DequoteLoop(a[..], tok, s, end, true) == DequoteLoop(b0, tok, tok, tok + len, true)
      decreases end - s
    {
      ghost var b := a[..];
      var turned, ns, ne := DequoteTurn(a, s, end);
      LoopTurn(b, tok, s, end, DequoteStep(b, s, end, true));
      if !turned {
        DequoteFailed(b0, tok, len, b, s, end);
        return false, 0;
      }
      s, end := ns, ne;
    }
    DequoteFinished(b0, tok, len, a[..], s, end);
    Terminate(a, end);
    ok, newLen := true, end - tok;
  }

  /** `*s = '\0'`: ends the string at `i`. */
  method Terminate(a: array<char>, i: nat)
    requires i < a.Length
    modifies a
    ensures a[..] == old(a[..])[i := '\0']
  {
    a[i] := '\0';
  }

  /** Once the loop of `dequote` reaches the end, terminating the buffer
      there gives the result. */
  lemma DequoteFinished(b0: seq<char>, tok: nat, len: nat, b: seq<char>, s: nat, end: nat)
    requires tok + len < |b0| && tok <= end <= s <= end + 1 && end < |b|
    requires DequoteLoop(b, tok, s, end, true) == DequoteLoop(b0, tok, tok, tok + len, true)
    ensures Dequote(b0, tok, len) == Some(Cut(b[end := '\0'], tok, end - tok))
  {
  }

  /** A turn of the loop of `dequote` that fails makes the whole call fail. */
  lemma DequoteFailed(b0: seq<char>, tok: nat, len: nat, b: seq<char>, s: nat, end: nat)
    requires tok + len < |b0| && tok <= s < end < |b|
    requires DequoteLoop(b, tok, s, end, true) == DequoteLoop(b0, tok, tok, tok + len, true)
    requires DequoteStep(b, s, end, true).None?
    ensures Dequote(b0, tok, len).None?
  {
  }

  /** The loop of `dequote` goes on from where one turn leaves it. */
  lemma LoopTurn(b: seq<char>, beg: nat, s: nat, end: nat, n: Option<Scan>)
    requires beg <= s < end < |b| && n == DequoteStep(b, s, end, true)
    ensures DequoteLoop(b, beg, s, end, true) ==
      if n.None? then None else DequoteLoop(n.value.buf, beg, n.value.s, n.value.end, true)
  {
  }

  /** The switch in the loop of `dequote`, on the character at `s`. */
  method DequoteTurn(a: array<char>, s: nat, end: nat) returns (ok: bool, next: nat, newEnd: nat)
    requires s < end < a.Length
    modifies a
    ensures ok ==> DequoteStep(old(a[..]), s, end, true) == Some(Scan(a[..], next, newEnd))
    ensures !ok ==> DequoteStep(old(a[..]), s, end, true).None?
  {
    var len := end - s;
    if a[s] == '\'' {
      var done, at, rest := QuoteRemovalInSingleQuotes(a, s, len);
      return done, at, at + rest;
    }
    if a[s] == '"' {
      var done, at, rest := QuoteRemovalInDoubleQuotes(a, s, len);
      return done, at, at + rest;
    }
    if a[s] == '\\' {
      next, newEnd := DequoteBackslash(a, s, end);
      return true, next, newEnd;
    }
    // Keep a regular character.
    return true, s + 1, end;
  }

  /** The backslash case of that switch. */
  method DequoteBackslash(a: array<char>, s: nat, end: nat) returns (next: nat, newEnd: nat)
    requires s < end < a.Length && a[s] == '\\'
    modifies a
    ensures DequoteStep(old(a[..]), s, end, true) == Some(Scan(a[..], next, newEnd))
  {
    var len := end - s;
    if s + 1 < end && a[s + 1] == '\n' {
      // Remove the backslash and the newline.
      Memmove(a, s, s + 2, len - 2);
      return s, end - 2;
    }
    if StrChr(ESCAPABLE, a[s + 1]) {
      // Remove the backslash and keep what it escapes.
      Memmove(a, s, s + 1, len - 1);
      return s + 1, end - 1;
    }
    // Remove a lone backslash.
    Memmove(a, s, s + 1, len - 1);
    return s, end - 1;
  }

  /** `after` is what dequoting the token of `len` bytes at `t` of `b` leaves,
      with `newLen` the length it returns: `dequote` with the bound check
      succeeds, Dq accepts the token, and the buffer holds Dq of the token
      at `t`, NUL-terminated, with no byte outside the token and the one
      after it changed. */
  ghost predicate DequotedAt(b: seq<char>, t: nat, len: nat, after: seq<char>, newLen: nat)
  {
    && t + len < |b| && t + newLen < |after|
    && Dequote(b, t, len) == Some(Cut(after, t, newLen))
    && Dq(b[t..t + len]).Some? && after[t..t + newLen] == Dq(b[t..t + len]).value
    && after[t + newLen] == '\0' && Kept(b, after, t, t + len + 1)
  }

  /** A token that next_quoted_token reads with all its quotes closed is
      dequoted by `dequote` with the bound check into Dq of the token. */
  lemma TokenDequoted(b: seq<char>, input: nat, t: nat, len: nat) returns (c: Cut)
    requires CStr(b) && input < |b|
    requires NextToken(b, input, 0).token == Some(t) && NextToken(b, input, 0).tokenlen == len
    requires NextToken(b, input, 0).status == 0
    ensures DequotedAt(b, t, len, c.buf, c.len)
  {
    NextTokenDequotes(b, input);
    DequoteComputesDq(b, t, len);
    c := Dequote(b, t, len).value;
  }

  /** `next_dequoted_token(&input, &tokenlen, &status)` on the buffer `a`:
      finds the next token as next_quoted_token does, with a status of its
      own that is ORed into `status`, and dequotes the token in place only
      when its quotes are all closed; an unterminated token is returned raw.
      The dequoting is that of `dequote` with the bound check of the
      Findings.  Every token read with all its quotes closed is one that
      Dq accepts, so the assertions of the dequoter never fail here and the
      buffer ends up holding Dq of the token, NUL-terminated. */
  method NextDequotedToken(a: array<char>, input: nat, status: int)
    returns (token: Option<nat>, tokenlen: nat, next: nat, newStatus: int)
    requires CStr(a[..]) && input < a.Length
    modifies a
    ensures var r := NextToken(old(a[..]), input, 0);
      && token == r.token && next == r.input
      && newStatus == (if r.status == 0 then status else SetBit0(status))
    ensures var r := NextToken(old(a[..]), input, 0);
      r.token.None? || r.status != 0 ==> tokenlen == r.tokenlen && a[..] == old(a[..])
    ensures var r := NextToken(old(a[..]), input, 0);
      r.token.Some? && r.status == 0 ==> DequotedAt(old(a[..]), r.token.value, r.tokenlen, a[..], tokenlen)
  {
    ghost var b0 := a[..];
    var r := NextQuotedToken(a[..], input, 0);
    token, tokenlen, next := r.token, r.tokenlen, r.input;
    newStatus := if r.status == 0 then status else SetBit0(status);
    if token.Some? && r.status == 0 {
      var t, len := token.value, tokenlen;
      ghost var c := TokenDequoted(b0, input, t, len);
      var ok;
      ok, tokenlen := DequoteInPlace(a, t, len);
      assert ok && a[..] == c.buf && c.len == tokenlen;
    }
  }
}
