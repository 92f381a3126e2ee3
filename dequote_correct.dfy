/** The in-place `dequote` of token/token.c, with the bound check of the
    Findings, computes the reference definition `Dq`: on every token that `Dq`
    accepts, the buffer ends up holding `Dq` of the token, NUL-terminated,
    and nothing outside the token and the byte after it changes. */
module DequoteCorrect {

  import opened Wrappers
  import opened CString
  import opened Dequoting
  import opened DequoteBuffer
  import opened DequoteProof

  /** `out` in front of the dequoted rest, if the rest is accepted. */
  function Prefixed(out: seq<char>, d: Option<seq<char>>): Option<seq<char>>
  {
    if d.None? then None else Some(out + d.value)
  }

  // The cases of Dq, one lemma each.

  lemma DqSingleCase(t: seq<char>) returns (ok: bool, c: nat, out: seq<char>, rest: seq<char>)
    requires |t| > 0 && t[0] == '\''
    ensures c == 1 + FirstOf(t[1..], {'\''}) && c <= |t|
    ensures ok == (c < |t|)
    ensures !ok ==> Dq(t).None?
    ensures ok ==> out == t[1..c] && rest == t[c + 1..] && Dq(t) == Prefixed(out, Dq(rest))
  {
    c := 1 + FirstOf(t[1..], {'\''});
    ok := c < |t|;
    out, rest := [], [];
    if ok {
      out, rest := t[1..c], t[c + 1..];
    }
  }

  lemma DqDoubleCase(t: seq<char>)
    requires |t| > 1 && t[0] == '"'
    ensures var d := DqDouble(t[1..], []);
      && (d.None? ==> Dq(t).None?)
      && (d.Some? ==> Dq(t) == Prefixed(d.value.out, Dq(d.value.rest)))
  {
  }

  lemma DqEscapedNewlineCase(t: seq<char>)
    requires |t| > 1 && t[0] == '\\' && t[1] == '\n'
    ensures Dq(t) == Dq(t[2..])
  {
  }

  lemma DqEscapeCase(t: seq<char>)
    requires |t| > 1 && t[0] == '\\' && t[1] != '\n' && StrChr(ESCAPABLE, t[1])
    ensures Dq(t) == Prefixed([t[1]], Dq(t[2..]))
  {
  }

  lemma DqLoneBackslashCase(t: seq<char>)
    requires |t| > 1 && t[0] == '\\' && t[1] != '\n' && !StrChr(ESCAPABLE, t[1])
    ensures Dq(t) == Dq(t[1..])
  {
  }

  lemma DqLastBackslashCase(t: seq<char>)
    requires |t| == 1 && t[0] == '\\'
    ensures Dq(t) == Some([])
  {
    assert Dq(t[1..]) == Some([]);
  }

  lemma DqPlainCase(t: seq<char>)
    requires |t| > 0 && t[0] != '\'' && t[0] != '"' && t[0] != '\\'
    ensures Dq(t) == Prefixed([t[0]], Dq(t[1..]))
  {
  }

  /** The content at `s` and `s + 1`, and its suffixes, are the buffer's. */
  lemma Content(b: seq<char>, s: nat, end: nat)
    requires s < end <= |b|
    ensures b[s..end][0] == b[s]
    ensures s + 1 < end ==> b[s..end][1] == b[s + 1]
    ensures b[s..end][1..] == b[s + 1..end]
    ensures s + 1 < end ==> b[s..end][2..] == b[s + 2..end]
  {
  }

  /** `memchr` finds the quote that closes the one at `s`. */
  lemma ClosingQuote(b: seq<char>, s: nat, end: nat)
    requires s < end <= |b|
    ensures var cq := 1 + FirstOf(b[s + 1..end], {'\''});
      MemChr(b, s + 1, '\'', end - s - 1) == if cq == end - s then None else Some(s + cq)
  {
    var u := b[s + 1..end];
    var f := FirstOf(u, {'\''});
    FirstOfSkipped(u, {'\''});
    var m := MemChr(b, s + 1, '\'', end - s - 1);
    if m.Some? {
      assert u[m.value - (s + 1)] == b[m.value];
    }
    if f < |u| {
      assert b[s + 1 + f] == u[f];
    }
  }

  /** After `quote_removal_in_single_quotes` with the closing quote at
      `close`, the quoted characters start at `s`. */
  lemma SingleQuoted(b: seq<char>, s: nat, close: nat, end: nat)
    requires s < close < end < |b|
    ensures var b2 := Moved(Moved(b, close, close + 1, end - close), s, s + 1, end - 1 - s);
      b2[s..close - 1] == b[s + 1..close]
  {
    var b1 := Moved(b, close, close + 1, end - close);
    MovedInside(b1, s, s + 1, end - 1 - s, s, close - 1, s + 1, close);
    MovedOutside(b, close, close + 1, end - close, s + 1, close);
  }

  /** ... and the rest of the token follows them. */
  lemma SingleRest(b: seq<char>, s: nat, close: nat, end: nat)
    requires s < close < end < |b|
    ensures var b2 := Moved(Moved(b, close, close + 1, end - close), s, s + 1, end - 1 - s);
      b2[close - 1..end - 2] == b[close + 1..end]
  {
    var b1 := Moved(b, close, close + 1, end - close);
    MovedInside(b1, s, s + 1, end - 1 - s, close - 1, end - 2, close, end - 1);
    MovedInside(b, close, close + 1, end - close, close, end - 1, close + 1, end);
  }

  /** `quote_removal_in_single_quotes` once memchr has found the closing
      quote at `close`: the quoted characters end up before the returned
      position and the rest of the token after it. */
  lemma SingleResult(b: seq<char>, s: nat, end: nat, close: nat) returns (c: Cut)
    requires s < close < end < |b| && b[s] == '\''
    requires MemChr(b, s + 1, '\'', end - s - 1) == Some(close)
    ensures SingleQuoteRemoval(b, s, end - s) == Some(c)
    ensures c.buf[s..c.at] == b[s + 1..close] && c.buf[c.at..c.at + c.len] == b[close + 1..end]
  {
    assert s + (end - s) == end;
    SingleQuoted(b, s, close, end);
    SingleRest(b, s, close, end);
    c := Cut(Moved(Moved(b, close, close + 1, end - close), s, s + 1, end - 1 - s), close - 1, (end - 2) - (close - 1));
  }

  /** The same with the closing quote `cq` past the opening one. */
  lemma SingleFound(b: seq<char>, s: nat, end: nat, cq: nat) returns (c: Cut)
    requires s < end < |b| && b[s] == '\'' && cq == 1 + FirstOf(b[s + 1..end], {'\''})
    requires cq < end - s
    ensures SingleQuoteRemoval(b, s, end - s) == Some(c)
    ensures c.buf[s..c.at] == b[s + 1..s + cq] && c.buf[c.at..c.at + c.len] == b[s + cq + 1..end]
  {
    ClosingQuote(b, s, end);
    c := SingleResult(b, s, end, s + cq);
  }

  /** Without a closing quote `quote_removal_in_single_quotes` fails. */
  lemma SingleUnclosed(b: seq<char>, s: nat, end: nat, cq: nat)
    requires s < end < |b| && b[s] == '\'' && cq == 1 + FirstOf(b[s + 1..end], {'\''})
    requires cq == end - s
    ensures SingleQuoteRemoval(b, s, end - s).None?
  {
    ClosingQuote(b, s, end);
  }

  /** `quote_removal_in_single_quotes` in closed form: with the closing
      quote at `s + cq`, the quoted characters end up before the returned
      position and the rest after it. */
  lemma SingleClosed(b: seq<char>, s: nat, end: nat, cq: nat) returns (c: Cut)
    requires s < end < |b| && b[s] == '\'' && cq == 1 + FirstOf(b[s + 1..end], {'\''})
    ensures cq == end - s ==> SingleQuoteRemoval(b, s, end - s).None?
    ensures cq < end - s ==> && SingleQuoteRemoval(b, s, end - s) == Some(c)
                             && c.buf[s..c.at] == b[s + 1..s + cq] && c.buf[c.at..c.at + c.len] == b[s + cq + 1..end]
  {
    c := Cut(b, 0, 0);
    if cq < end - s {
      c := SingleFound(b, s, end, cq);
    } else {
      SingleUnclosed(b, s, end, cq);
    }
  }

  /** Slices of the content are slices of the buffer. */
  lemma Sub(b: seq<char>, s: nat, end: nat, i: nat, j: nat)
    requires s <= end <= |b| && i <= j <= end - s
    ensures b[s..end][i..j] == b[s + i..s + j]
    ensures b[s..end][i..] == b[s + i..end]
  {
    var u := b[s..end];
    assert forall m | 0 <= m < j - i :: u[i..j][m] == b[s + i..s + j][m];
    assert forall m | 0 <= m < |u| - i :: u[i..][m] == b[s + i..end][m];
  }

  /** `quote_removal_in_single_quotes` on the content `t`: the quoted
      characters end up before the returned position, the rest of the token
      after it. */
  lemma SingleStep(b: seq<char>, s: nat, end: nat, t: seq<char>)
    returns (ok: bool, c: Cut, out: seq<char>, rest: seq<char>)
    requires s < end < |b| && b[s..end] == t && b[s] == '\''
    ensures !ok ==> Dq(t).None?
    ensures ok ==> && SingleQuoteRemoval(b, s, end - s) == Some(c)
                   && c.buf[s..c.at] == out && c.buf[c.at..c.at + c.len] == rest
                   && Dq(t) == Prefixed(out, Dq(rest))
  {
    Content(b, s, end);
    var cq;
    ok, cq, out, rest := DqSingleCase(t);
    c := SingleClosed(b, s, end, cq);
    if ok {
      Sub(b, s, end, 1, cq);
      Sub(b, s, end, cq + 1, cq + 1);
      assert s + (cq + 1) == s + cq + 1;
    }
  }

  /** `quote_removal_in_double_quotes` on the content `t`. */
  lemma DoubleStep(b: seq<char>, s: nat, end: nat, t: seq<char>)
    returns (ok: bool, c: Cut, out: seq<char>, rest: seq<char>)
    requires s < end < |b| && b[s..end] == t && b[s] == '"'
    ensures !ok ==> Dq(t).None?
    ensures ok ==> && DoubleQuoteRemoval(b, s, end - s) == Some(c)
                   && s <= c.at <= c.at + c.len <= |c.buf|
                   && c.buf[s..c.at] == out && c.buf[c.at..c.at + c.len] == rest
                   && Dq(t) == Prefixed(out, Dq(rest))
  {
    Content(b, s, end);
    ok := false;
    c := Cut(b, 0, 0);
    out, rest := [], [];
    if |t| > 1 {
      var nb := Moved(b, s, s + 1, end - s);
      ShiftLeft(b, s, s, end);
      DqLoopComputes(nb, s, s, end - 1, [], t[1..]);
      DqDoubleCase(t);
      var d := DqDouble(t[1..], []);
      if d.Some? {
        var r := DqLoop(nb, s, s, end - 1);
        ok := true;
        c := r.value;
        out, rest := d.value.out, d.value.rest;
      }
    }
  }

  /** Removing one or two bytes at `s` by shifting the rest of the token left
      (the unquoted backslash cases of `dequote`). */
  lemma DropOne(b: seq<char>, s: nat, end: nat)
    requires s < end <= |b|
    ensures var nb := Moved(b, s, s + 1, end - s - 1);
      && nb[s..end - 1] == b[s + 1..end]
      && (s + 1 < end ==> nb[s..s + 1] == [b[s + 1]] && nb[s + 1..end - 1] == b[s + 2..end])
  {
    var nb := Moved(b, s, s + 1, end - s - 1);
    MovedInside(b, s, s + 1, end - s - 1, s, end - 1, s + 1, end);
    if s + 1 < end {
      MovedInside(b, s, s + 1, end - s - 1, s, s + 1, s + 1, s + 2);
      MovedInside(b, s, s + 1, end - s - 1, s + 1, end - 1, s + 2, end);
    }
  }

  lemma DropTwo(b: seq<char>, s: nat, end: nat)
    requires s + 1 < end <= |b|
    ensures Moved(b, s, s + 2, end - s - 2)[s..end - 2] == b[s + 2..end]
  {
    MovedInside(b, s, s + 2, end - s - 2, s, end - 2, s + 2, end);
  }

  /** The loop of `dequote` stops once the cursor reaches the end. */
  lemma LoopDone(b: seq<char>, beg: nat, s: nat, end: nat, guarded: bool)
    requires beg <= end <= s <= end + 1 && end < |b|
    ensures DequoteLoop(b, beg, s, end, guarded) == Some(Cut(b, end, 0))
  {
  }

  /** One turn of the loop of `dequote`, when it succeeds. */
  lemma LoopStep(b: seq<char>, beg: nat, s: nat, end: nat, n: Scan)
    requires beg <= s < end < |b| && DequoteStep(b, s, end, true) == Some(n)
    ensures DequoteLoop(b, beg, s, end, true) == DequoteLoop(n.buf, beg, n.s, n.end, true)
  {
  }

  // The cases of one turn of `dequote` at `b[s]`, each with its next state
  // `n`, the output `p` it fixes and the content `t2` left for the loop.

  lemma StepSingle(b: seq<char>, s: nat, end: nat, t: seq<char>)
    returns (ok: bool, n: Scan, p: seq<char>, t2: seq<char>)
    requires s < end < |b| && b[s..end] == t && b[s] == '\''
    ensures !ok ==> Dq(t).None?
    ensures ok ==> && DequoteStep(b, s, end, true) == Some(n)
                   && n.buf[s..n.s] == p && n.buf[n.s..n.end] == t2 && Dq(t) == Prefixed(p, Dq(t2))
  {
    var c;
    ok, c, p, t2 := SingleStep(b, s, end, t);
    n := Scan(c.buf, c.at, c.at + c.len);
  }

  lemma StepDouble(b: seq<char>, s: nat, end: nat, t: seq<char>)
    returns (ok: bool, n: Scan, p: seq<char>, t2: seq<char>)
    requires s < end < |b| && b[s..end] == t && b[s] == '"'
    ensures !ok ==> Dq(t).None?
    ensures ok ==> && DequoteStep(b, s, end, true) == Some(n)
                   && n.buf[s..n.s] == p && n.buf[n.s..n.end] == t2 && Dq(t) == Prefixed(p, Dq(t2))
  {
    var c;
    ok, c, p, t2 := DoubleStep(b, s, end, t);
    n := Scan(c.buf, c.at, c.at + c.len);
  }

  lemma StepNewline(b: seq<char>, s: nat, end: nat, t: seq<char>) returns (n: Scan)
    requires s + 1 < end < |b| && b[s..end] == t && b[s] == '\\' && b[s + 1] == '\n'
    ensures DequoteStep(b, s, end, true) == Some(n)
    ensures n.buf[s..n.s] == [] && n.buf[n.s..n.end] == t[2..] && Dq(t) == Prefixed([], Dq(t[2..]))
  {
    Content(b, s, end);
    DropTwo(b, s, end);
    DqEscapedNewlineCase(t);
    n := Scan(Moved(b, s, s + 2, end - s - 2), s, end - 2);
    assert Dq(t[2..]).Some? ==> [] + Dq(t[2..]).value == Dq(t[2..]).value;
  }

  lemma StepEscape(b: seq<char>, s: nat, end: nat, t: seq<char>) returns (n: Scan)
    requires s + 1 < end < |b| && b[s..end] == t && b[s] == '\\' && b[s + 1] != '\n'
    requires StrChr(ESCAPABLE, b[s + 1])
    ensures DequoteStep(b, s, end, true) == Some(n)
    ensures n.buf[s..n.s] == [t[1]] && n.buf[n.s..n.end] == t[2..] && Dq(t) == Prefixed([t[1]], Dq(t[2..]))
  {
    Content(b, s, end);
    DropOne(b, s, end);
    DqEscapeCase(t);
    n := Scan(Moved(b, s, s + 1, end - s - 1), s + 1, end - 1);
  }

  lemma StepLone(b: seq<char>, s: nat, end: nat, t: seq<char>) returns (n: Scan)
    requires s + 1 < end < |b| && b[s..end] == t && b[s] == '\\' && b[s + 1] != '\n'
    requires !StrChr(ESCAPABLE, b[s + 1])
    ensures DequoteStep(b, s, end, true) == Some(n)
    ensures n.buf[s..n.s] == [] && n.buf[n.s..n.end] == t[1..] && Dq(t) == Prefixed([], Dq(t[1..]))
  {
    Content(b, s, end);
    DropOne(b, s, end);
    DqLoneBackslashCase(t);
    n := Scan(Moved(b, s, s + 1, end - s - 1), s, end - 1);
    assert Dq(t[1..]).Some? ==> [] + Dq(t[1..]).value == Dq(t[1..]).value;
  }

  lemma StepLast(b: seq<char>, beg: nat, s: nat, end: nat, t: seq<char>) returns (nb: seq<char>)
    requires beg <= s && s + 1 == end < |b| && b[s..end] == t && b[s] == '\\'
    ensures |nb| == |b| && DequoteLoop(b, beg, s, end, true) == Some(Cut(nb, s, 0))
    ensures Dq(t) == Some([])
  {
    Content(b, s, end);
    DqLastBackslashCase(t);
    nb := Moved(b, s, s + 1, end - s - 1);
    var n := DequoteStep(b, s, end, true).value;
    LoopStep(b, beg, s, end, n);
    LoopDone(nb, beg, n.s, n.end, true);
  }

  lemma StepPlain(b: seq<char>, s: nat, end: nat, t: seq<char>) returns (n: Scan)
    requires s < end < |b| && b[s..end] == t && b[s] != '\'' && b[s] != '"' && b[s] != '\\'
    ensures DequoteStep(b, s, end, true) == Some(n)
    ensures n.buf[s..n.s] == [t[0]] && n.buf[n.s..n.end] == t[1..] && Dq(t) == Prefixed([t[0]], Dq(t[1..]))
  {
    Content(b, s, end);
    DqPlainCase(t);
    n := Scan(b, s + 1, end);
    assert b[s..s + 1] == [b[s]];
  }

  /** One turn of the loop of `dequote` on the content `t`: either `Dq`
      rejects `t`, or the turn fixes the output `p` before `ns` and leaves
      content `t2` between `ns` and `ne`, and `Dq(t)` is `p` followed by
      `Dq(t2)`. */
  lemma StepComputes(b: seq<char>, beg: nat, s: nat, end: nat, t: seq<char>)
    returns (done: bool, nb: seq<char>, ns: nat, ne: nat, p: seq<char>, t2: seq<char>)
    requires beg <= s < end < |b| && b[s..end] == t
    ensures done ==> Dq(t).None?
    ensures !done ==> && s <= ns <= ne < |nb| && ne - ns < end - s
                      && nb[s..ns] == p && nb[ns..ne] == t2
                      && DequoteLoop(b, beg, s, end, true) == DequoteLoop(nb, beg, ns, ne, true)
                      && Dq(t) == Prefixed(p, Dq(t2))
  {
    done, nb, ns, ne, p, t2 := true, b, s, end, [], t;
    var n := Scan(b, s, end);
    var ok := true;
    if b[s] == '\'' {
      ok, n, p, t2 := StepSingle(b, s, end, t);
    } else if b[s] == '"' {
      ok, n, p, t2 := StepDouble(b, s, end, t);
    } else if b[s] == '\\' && s + 1 == end {
      nb := StepLast(b, beg, s, end, t);
      LoopDone(nb, beg, s, s, true);
      var none: seq<char> := [];
      assert none + none == none;
      assert Dq(none) == Some(none) && Prefixed(none, Dq(none)) == Some(none);
      return false, nb, s, s, [], [];
    } else if b[s] == '\\' && b[s + 1] == '\n' {
      n := StepNewline(b, s, end, t);
      p, t2 := [], t[2..];
    } else if b[s] == '\\' && StrChr(ESCAPABLE, b[s + 1]) {
      n := StepEscape(b, s, end, t);
      p, t2 := [t[1]], t[2..];
    } else if b[s] == '\\' {
      n := StepLone(b, s, end, t);
      p, t2 := [], t[1..];
    } else {
      n := StepPlain(b, s, end, t);
      p, t2 := [t[0]], t[1..];
    }
    if ok {
      LoopStep(b, beg, s, end, n);
      done, nb, ns, ne := false, n.buf, n.s, n.end;
    }
  }

  /** The dequoted output a loop state holds from `s` to its end. */
  function Out(r: Option<Cut>, s: nat): Option<seq<char>>
  {
    if r.Some? && s <= r.value.at <= |r.value.buf| then Some(r.value.buf[s..r.value.at]) else None
  }

  /** The output fixed before `ns` survives the rest of the loop. */
  lemma Assemble(r: Option<Cut>, nb: seq<char>, s: nat, ns: nat, ne: nat, p: seq<char>, d2: seq<char>)
    requires r.Some? && s <= ns <= ne <= |nb| && Kept(nb, r.value.buf, ns, ne)
    requires nb[s..ns] == p && Out(r, ns) == Some(d2)
    ensures Out(r, s) == Some(p + d2)
  {
    var rb := r.value.buf;
    assert rb[s..ns] == nb[s..ns];
    assert rb[s..r.value.at] == rb[s..ns] + rb[ns..r.value.at];
  }

  /** The loop of `dequote` computes Dq: on content `t` that Dq accepts, it
      ends with `Dq(t)` between `s` and the final end. */
  lemma {:induction false} DequoteLoopComputes(b: seq<char>, beg: nat, s: nat, end: nat, t: seq<char>)
    requires beg <= s <= end < |b| && b[s..end] == t
    ensures Dq(t).Some? ==> Out(DequoteLoop(b, beg, s, end, true), s) == Dq(t)
    decreases end - s
  {
    if s == end {
      LoopDone(b, beg, s, end, true);
      assert t == [];
    } else {
      var done, nb, ns, ne, p, t2 := StepComputes(b, beg, s, end, t);
      if !done && Dq(t).Some? {
        DequoteLoopComputes(nb, beg, ns, ne, t2);
        DequoteLoopFrame(nb, beg, ns, ne, true);
        Assemble(DequoteLoop(nb, beg, ns, ne, true), nb, s, ns, ne, p, Dq(t2).value);
      }
    }
  }

  /** The loop's result when Dq accepts the token. */
  lemma LoopResult(b: seq<char>, tok: nat, len: nat) returns (c: Cut)
    requires tok + len < |b| && Dq(b[tok..tok + len]).Some?
    ensures DequoteLoop(b, tok, tok, tok + len, true) == Some(c)
    ensures tok <= c.at <= |c.buf| && c.buf[tok..c.at] == Dq(b[tok..tok + len]).value
  {
    DequoteLoopComputes(b, tok, tok, tok + len, b[tok..tok + len]);
    c := DequoteLoop(b, tok, tok, tok + len, true).value;
  }

  /** What `dequote` returns once its loop has produced `c`. */
  lemma Terminated(b: seq<char>, tok: nat, len: nat, c: Cut)
    requires tok + len < |b| && DequoteLoop(b, tok, tok, tok + len, true) == Some(c)
    requires tok <= c.at
    ensures Dequote(b, tok, len) == Some(Cut(c.buf[c.at := '\0'], tok, c.at - tok))
  {
  }

  /** `dequote` (with the bound check) computes Dq: whenever Dq accepts the
      token `b[tok..tok + len]`, the buffer holds the dequoted token at
      `tok`, followed by a NUL, the returned length is its length, and no
      byte outside the token and the one after it changes. */
  lemma DequoteComputesDq(b: seq<char>, tok: nat, len: nat)
    requires tok + len < |b|
    ensures var d := Dq(b[tok..tok + len]);
      var r := Dequote(b, tok, len);
      d.Some? ==> && r.Some? && r.value.at == tok && r.value.len == |d.value|
                  && r.value.buf[tok..tok + r.value.len] == d.value
                  && r.value.buf[tok + r.value.len] == '\0'
                  && Kept(b, r.value.buf, tok, tok + len + 1)
  {
    if Dq(b[tok..tok + len]).Some? {
      var c := LoopResult(b, tok, len);
      Terminated(b, tok, len, c);
      DequoteFrame(b, tok, len);
      var nb := c.buf[c.at := '\0'];
      assert nb[tok..c.at] == c.buf[tok..c.at];
    }
  }

  /** `dequote` as written, wherever its memmove stays inside the buffer,
      computes Dq too: it then agrees with the checked `dequote`. */
  lemma AsWrittenComputesDq(b: seq<char>, tok: nat, len: nat)
    requires tok + len < |b|
    ensures var d := Dq(b[tok..tok + len]);
      var r := DequoteAsWritten(b, tok, len);
      d.Some? && r.Some? ==> && r.value.at == tok && r.value.len == |d.value|
                             && r.value.buf[tok..tok + r.value.len] == d.value
                             && r.value.buf[tok + r.value.len] == '\0'
                             && Kept(b, r.value.buf, tok, tok + len + 1)
  {
    AsWrittenAgrees(b, tok, len);
    DequoteComputesDq(b, tok, len);
  }
}
