/** The in-place dequoting of token/token.c followed step by step on the whole
    buffer: `dequote`, `quote_removal_in_single_quotes`,
    `quote_removal_in_double_quotes` and `collapse_escaped_newlines`, each
    `memmove` included.  The buffer is kept whole, so the stale bytes that the
    shifts leave behind the shrinking end stay visible.  `None` marks a failed
    assertion or a `memmove` whose size wraps around. */
module DequoteBuffer {

  import opened Wrappers
  import opened CString
  import opened EscapeScan
  import opened Dequoting

  /** `memmove(b + dst, b + src, n)` on the whole buffer: every byte of the
      destination is read from the buffer as it was before the call. */
  function Moved(b: seq<char>, dst: nat, src: nat, n: nat): (r: seq<char>)
    requires dst + n <= |b| && src + n <= |b|
    ensures |r| == |b|
    decreases n
  {
    if n == 0 then b else Moved(b, dst, src, n - 1)[dst + n - 1 := b[src + n - 1]]
  }

  /** What `memmove` leaves at each index. */
  lemma {:induction false} MovedAt(b: seq<char>, dst: nat, src: nat, n: nat, i: nat)
    requires dst + n <= |b| && src + n <= |b| && i < |b|
    ensures Moved(b, dst, src, n)[i] == if dst <= i < dst + n then b[src + (i - dst)] else b[i]
    decreases n
  {
    if n > 0 {
      MovedAt(b, dst, src, n - 1, i);
    }
  }

  lemma MovedInside(b: seq<char>, dst: nat, src: nat, n: nat, i: nat, j: nat, si: nat, sj: nat)
    requires dst + n <= |b| && src + n <= |b| && dst <= i <= j <= dst + n
    requires si == src + (i - dst) && sj == src + (j - dst)
    ensures Moved(b, dst, src, n)[i..j] == b[si..sj]
  {
    var r := Moved(b, dst, src, n);
    forall m | i <= m < j
      ensures r[m] == b[src + (m - dst)]
    {
      MovedAt(b, dst, src, n, m);
    }
  }

  lemma MovedOutside(b: seq<char>, dst: nat, src: nat, n: nat, i: nat, j: nat)
    requires dst + n <= |b| && src + n <= |b| && i <= j <= |b| && (j <= dst || dst + n <= i)
    ensures Moved(b, dst, src, n)[i..j] == b[i..j]
  {
    var r := Moved(b, dst, src, n);
    forall m | i <= m < j
      ensures r[m] == b[m]
    {
      MovedAt(b, dst, src, n, m);
    }
  }

  /** `r` is `b` with at most the bytes in `[lo, hi)` written. */
  predicate Kept(b: seq<char>, r: seq<char>, lo: nat, hi: nat)
  {
    |r| == |b| && forall k | 0 <= k < |b| && !(lo <= k < hi) :: r[k] == b[k]
  }

  lemma KeptTrans(b: seq<char>, c: seq<char>, d: seq<char>, lo: nat, hi: nat, lo2: nat, hi2: nat)
    requires Kept(b, c, lo, hi) && Kept(c, d, lo2, hi2) && lo <= lo2 && hi2 <= hi
    ensures Kept(b, d, lo, hi)
  {
  }

  lemma KeptWrite(b: seq<char>, c: seq<char>, lo: nat, hi: nat, i: nat, x: char)
    requires Kept(b, c, lo, hi) && lo <= i <= hi && i < |c|
    ensures Kept(b, c[i := x], lo, hi + 1)
  {
  }

  /** `memmove` writes only its destination. */
  lemma MovedKept(b: seq<char>, dst: nat, src: nat, n: nat, lo: nat, hi: nat)
    requires dst + n <= |b| && src + n <= |b| && lo <= dst && dst + n <= hi
    ensures Kept(b, Moved(b, dst, src, n), lo, hi)
  {
    forall i | 0 <= i < |b| && !(lo <= i < hi)
      ensures Moved(b, dst, src, n)[i] == b[i]
    {
      MovedAt(b, dst, src, n, i);
    }
  }

  /** A buffer with a position in it and a length: the returned pointer and
      the length stored through the `size_t *` argument. */
  datatype Cut = Cut(buf: seq<char>, at: nat, len: nat)

  /** A buffer with a cursor in it and the end of what is left to scan: the
      state of the loop of `dequote`, and what `collapse_escaped_newlines`
      returns together with the new end it stores through `endp`. */
  datatype Scan = Scan(buf: seq<char>, s: nat, end: nat)

  /** The reject set `qe` of `quote_removal_in_double_quotes`. */
  const QE: set<char> := {'\\', '"'}

  /** `quote_removal_in_single_quotes(b + s, &slen)`: removes the opening
      quote at `s` and the first quote after it; returns the position after
      the quoted characters and the length left behind them. */
  function SingleQuoteRemoval(b: seq<char>, s: nat, slen: nat): (r: Option<Cut>)
    requires s + slen < |b|
    ensures r.Some? ==> |r.value.buf| == |b| && s <= r.value.at && r.value.at + r.value.len + 2 == s + slen
  {
    if slen <= 1 || b[s] != '\'' then None
    else
      var close :- MemChr(b, s + 1, '\'', slen - 1);
      var end := s + slen;
      var b1 := Moved(b, close, close + 1, end - close);
      var b2 := Moved(b1, s, s + 1, end - 1 - s);
      Some(Cut(b2, close - 1, (end - 2) - (close - 1)))
  }

  /** The walk back of `collapse_escaped_newlines` over the blanks before
      `b[p]`, never below `beg + 1`. */
  function WalkBack(b: seq<char>, beg: nat, p: int): (q: int)
    requires beg <= p + 1 && p < |b|
    ensures beg <= q + 1 <= p + 1
    decreases p
  {
    if beg < p && Blank(b[p]) then WalkBack(b, beg, p - 1) else p
  }

  /** The walk forward of `collapse_escaped_newlines` over blanks and
      backslash-newline pairs before `end`; the test for a pair reads the
      byte after a backslash even when that byte lies at `end`, and then the
      walk can stop at `end + 1`. */
  function WalkForward(b: seq<char>, s: nat, end: nat): (g: nat)
    requires s <= end < |b|
    ensures s <= g <= end + 1
    decreases end - s
  {
    if s < end && Blank(b[s]) then WalkForward(b, s + 1, end)
    else if s < end && b[s] == '\\' && b[s + 1] == '\n' then
      if s + 2 <= end then WalkForward(b, s + 2, end) else s + 2
    else s
  }

  /** `collapse_escaped_newlines(b + s, b + beg, &end)`: replaces the
      backslash-newline pair at `s`, with the blanks and pairs around it, by
      one space; returns the position after the space and the new end. */
  function Collapse(b: seq<char>, s: nat, beg: nat, end: nat): (r: Option<Scan>)
    requires beg <= s < end < |b|
    ensures r.Some? ==> var c := r.value;
      && |c.buf| == |b| && beg < c.s <= s + 1 && c.s <= c.end && c.end - c.s < end - s
  {
    if b[s] != '\\' || b[s + 1] != '\n' then None
    else
      var p := WalkBack(b, beg, s - 1) + 1;
      var g := WalkForward(b, s, end);
      if g > end then None
      else
        var b1 := b[p := ' '];
        var b2 := Moved(b1, p + 1, g, end - g);
        Some(Scan(b2, p + 1, end - (g - (p + 1))))
  }

  /** The loop of `quote_removal_in_double_quotes` from `s`, the output of
      this part starting at `beg`; returns the position where dequoting goes
      on and the length left from there. */
  function DqLoop(b: seq<char>, beg: nat, s: nat, end: nat): (r: Option<Cut>)
    requires beg <= s <= end < |b|
    ensures r.Some? ==> |r.value.buf| == |b| && beg <= r.value.at && r.value.at + r.value.len <= end
    decreases end - s, 2
  {
    DqTurn(b, beg, s, end, EscSpan(b, s, end, QE))
  }

  /** One turn of that loop, memecspn having stopped at `k`. */
  function DqTurn(b: seq<char>, beg: nat, s: nat, end: nat, k: nat): (r: Option<Cut>)
    requires beg <= s <= end < |b| && k == EscSpan(b, s, end, QE)
    ensures r.Some? ==> |r.value.buf| == |b| && beg <= r.value.at && r.value.at + r.value.len <= end
    decreases end - s, 1
  {
    if k == end then Some(Cut(b, k, 0))
    else if b[k] == '"' then Some(Cut(Moved(b, k, k + 1, end - k), k, end - 1 - k))
    else if b[k] != '\\' then None
    else if k + 1 == end then Some(Cut(b, k, 1))
    else DqEscape(b, beg, s, end, k)
  }

  /** The turn on a backslash at `k` with a character after it. */
  function DqEscape(b: seq<char>, beg: nat, s: nat, end: nat, k: nat): (r: Option<Cut>)
    requires beg <= s <= end < |b| && k == EscSpan(b, s, end, QE) && k + 1 < end && b[k] == '\\'
    ensures r.Some? ==> |r.value.buf| == |b| && beg <= r.value.at && r.value.at + r.value.len <= end
    decreases end - s, 0
  {
    if b[k + 1] == '\\' || b[k + 1] == '"' then
      DqLoop(Moved(b, k, k + 1, end - k), beg, k + 1, end - 1)
    else if b[k + 1] == '\n' then
      var c :- Collapse(b, k, beg, end);
      DqLoop(c.buf, beg, c.s, c.end)
    else DqLoop(b, beg, k + 1, end)
  }

  /** `quote_removal_in_double_quotes(b + s, &slen)`. */
  function DoubleQuoteRemoval(b: seq<char>, s: nat, slen: nat): (r: Option<Cut>)
    requires s + slen < |b|
    ensures r.Some? ==> |r.value.buf| == |b| && s <= r.value.at && r.value.at + r.value.len < s + slen
  {
    if slen <= 1 || b[s] != '"' then None
    else
      var end := s + slen;
      DqLoop(Moved(b, s, s + 1, end - s), s, s, end - 1)
  }

  /** One turn of the loop of `dequote` at `b[s]`.  `guarded` adds the bound
      check `s + 1 < end` before the test for an escaped newline, which the
      source lacks. */
  function DequoteStep(b: seq<char>, s: nat, end: nat, guarded: bool): (r: Option<Scan>)
    requires s < end < |b|
    ensures r.Some? ==> var n := r.value;
      && |n.buf| == |b| && s <= n.s <= n.end + 1 && s <= n.end <= end && n.end - n.s < end - s
  {
    var len := end - s;
    if b[s] == '\'' then
      var c :- SingleQuoteRemoval(b, s, len);
      Some(Scan(c.buf, c.at, c.at + c.len))
    else if b[s] == '"' then
      var c :- DoubleQuoteRemoval(b, s, len);
      Some(Scan(c.buf, c.at, c.at + c.len))
    else if b[s] == '\\' then
      if (guarded ==> s + 1 < end) && b[s + 1] == '\n' then
        if len < 2 then None
        else Some(Scan(Moved(b, s, s + 2, len - 2), s, end - 2))
      else if StrChr(ESCAPABLE, b[s + 1]) then
        Some(Scan(Moved(b, s, s + 1, len - 1), s + 1, end - 1))
      else
        Some(Scan(Moved(b, s, s + 1, len - 1), s, end - 1))
    else Some(Scan(b, s + 1, end))
  }

  /** Each step of the quote removal writes only inside what is left of the
      token. */
  lemma SingleQuoteRemovalFrame(b: seq<char>, s: nat, slen: nat)
    requires s + slen < |b|
    ensures var r := SingleQuoteRemoval(b, s, slen);
      r.Some? ==> Kept(b, r.value.buf, s, s + slen)
  {
    if SingleQuoteRemoval(b, s, slen).Some? {
      var close := MemChr(b, s + 1, '\'', slen - 1).value;
      var end := s + slen;
      var b1 := Moved(b, close, close + 1, end - close);
      MovedKept(b, close, close + 1, end - close, s, end);
      MovedKept(b1, s, s + 1, end - 1 - s, s, end);
      KeptTrans(b, b1, Moved(b1, s, s + 1, end - 1 - s), s, end, s, end);
    }
  }

  lemma CollapseFrame(b: seq<char>, s: nat, beg: nat, end: nat)
    requires beg <= s < end < |b|
    ensures var r := Collapse(b, s, beg, end);
      r.Some? ==> Kept(b, r.value.buf, beg, end)
  {
    if Collapse(b, s, beg, end).Some? {
      var p := WalkBack(b, beg, s - 1) + 1;
      var g := WalkForward(b, s, end);
      var b1 := b[p := ' '];
      MovedKept(b1, p + 1, g, end - g, beg, end);
      KeptTrans(b, b1, Moved(b1, p + 1, g, end - g), beg, end, beg, end);
    }
  }

  /** The turn on an escaped backslash or double quote goes on from a
      buffer written only inside the part. */
  lemma TurnEscaped(b: seq<char>, beg: nat, s: nat, end: nat, k: nat) returns (nb: seq<char>)
    requires beg <= s <= end < |b| && k == EscSpan(b, s, end, QE) && k + 1 < end
    requires b[k] == '\\' && (b[k + 1] == '\\' || b[k + 1] == '"')
    ensures |nb| == |b| && Kept(b, nb, beg, end)
    ensures DqEscape(b, beg, s, end, k) == DqLoop(nb, beg, k + 1, end - 1)
  {
    nb := Moved(b, k, k + 1, end - k);
    MovedKept(b, k, k + 1, end - k, beg, end);
  }

  lemma {:induction false} DqLoopFrame(b: seq<char>, beg: nat, s: nat, end: nat)
    requires beg <= s <= end < |b|
    ensures var r := DqLoop(b, beg, s, end);
      r.Some? ==> Kept(b, r.value.buf, beg, end)
    decreases end - s, 2
  {
    DqTurnFrame(b, beg, s, end, EscSpan(b, s, end, QE));
  }

  lemma {:induction false} DqTurnFrame(b: seq<char>, beg: nat, s: nat, end: nat, k: nat)
    requires beg <= s <= end < |b| && k == EscSpan(b, s, end, QE)
    ensures var r := DqTurn(b, beg, s, end, k);
      r.Some? ==> Kept(b, r.value.buf, beg, end)
    decreases end - s, 1
  {
    var r := DqTurn(b, beg, s, end, k);
    if r.Some? && k < end && b[k] == '"' {
      MovedKept(b, k, k + 1, end - k, beg, end);
    }
    if k + 1 < end && b[k] == '\\' {
      DqEscapeFrame(b, beg, s, end, k);
    }
  }

  lemma {:induction false} DqEscapeFrame(b: seq<char>, beg: nat, s: nat, end: nat, k: nat)
    requires beg <= s <= end < |b| && k == EscSpan(b, s, end, QE) && k + 1 < end && b[k] == '\\'
    ensures var r := DqEscape(b, beg, s, end, k);
      r.Some? ==> Kept(b, r.value.buf, beg, end)
    decreases end - s, 0
  {
    var r := DqEscape(b, beg, s, end, k);
    if r.Some? {
      if b[k + 1] == '\\' || b[k + 1] == '"' {
        var nb := TurnEscaped(b, beg, s, end, k);
        DqLoopFrame(nb, beg, k + 1, end - 1);
        KeptTrans(b, nb, r.value.buf, beg, end, beg, end - 1);
      } else if b[k + 1] == '\n' {
        var c := Collapse(b, k, beg, end).value;
        CollapseFrame(b, k, beg, end);
        DqLoopFrame(c.buf, beg, c.s, c.end);
        KeptTrans(b, c.buf, r.value.buf, beg, end, beg, c.end);
      } else {
        DqLoopFrame(b, beg, k + 1, end);
      }
    }
  }

  lemma DoubleQuoteRemovalFrame(b: seq<char>, s: nat, slen: nat)
    requires s + slen < |b|
    ensures var r := DoubleQuoteRemoval(b, s, slen);
      r.Some? ==> Kept(b, r.value.buf, s, s + slen)
  {
    var r := DoubleQuoteRemoval(b, s, slen);
    if r.Some? {
      var nb := Moved(b, s, s + 1, slen);
      MovedKept(b, s, s + 1, slen, s, s + slen);
      DqLoopFrame(nb, s, s, s + slen - 1);
      KeptTrans(b, nb, r.value.buf, s, s + slen, s, s + slen - 1);
    }
  }

  lemma DequoteStepFrame(b: seq<char>, s: nat, end: nat, guarded: bool)
    requires s < end < |b|
    ensures var r := DequoteStep(b, s, end, guarded);
      r.Some? ==> Kept(b, r.value.buf, s, end)
  {
    if b[s] == '\'' {
      SingleQuoteRemovalFrame(b, s, end - s);
    } else if b[s] == '"' {
      DoubleQuoteRemovalFrame(b, s, end - s);
    } else if b[s] == '\\' && end - s >= 2 {
      MovedKept(b, s, s + 2, end - s - 2, s, end);
      MovedKept(b, s, s + 1, end - s - 1, s, end);
    } else if b[s] == '\\' {
      MovedKept(b, s, s + 1, end - s - 1, s, end);
    }
  }

  /** The loop of `dequote` from `s` until it reaches the end of the token;
      returns the buffer and the final end. */
  function DequoteLoop(b: seq<char>, beg: nat, s: nat, end: nat, guarded: bool): (r: Option<Cut>)
    requires beg <= s <= end + 1 && beg <= end < |b|
    ensures r.Some? ==> |r.value.buf| == |b| && beg <= r.value.at <= end
    decreases end - s, 1
  {
    if s >= end then Some(Cut(b, end, 0)) else DequoteFrom(b, beg, s, end, guarded)
  }

  /** A turn of the loop of `dequote`, then the rest of the loop. */
  function DequoteFrom(b: seq<char>, beg: nat, s: nat, end: nat, guarded: bool): (r: Option<Cut>)
    requires beg <= s < end < |b|
    ensures r.Some? ==> |r.value.buf| == |b| && beg <= r.value.at <= end
    decreases end - s, 0
  {
    var n :- DequoteStep(b, s, end, guarded);
    DequoteLoop(n.buf, beg, n.s, n.end, guarded)
  }

  /** The loop writes only between `s` and `end`. */
  lemma {:induction false} DequoteLoopFrame(b: seq<char>, beg: nat, s: nat, end: nat, guarded: bool)
    requires beg <= s <= end + 1 && beg <= end < |b|
    ensures var r := DequoteLoop(b, beg, s, end, guarded);
      r.Some? ==> Kept(b, r.value.buf, s, end)
    decreases end - s
  {
    var r := DequoteLoop(b, beg, s, end, guarded);
    if s < end && r.Some? {
      assert r == DequoteFrom(b, beg, s, end, guarded);
      var n := DequoteStep(b, s, end, guarded).value;
      DequoteStepFrame(b, s, end, guarded);
      DequoteLoopFrame(n.buf, beg, n.s, n.end, guarded);
      KeptTrans(b, n.buf, r.value.buf, s, end, n.s, n.end);
    }
  }

  /** `dequote(b + tok, &len)` as corrected: the new buffer, the token's start
      and its dequoted length, NUL-terminated. */
  function Dequote(b: seq<char>, tok: nat, len: nat): (r: Option<Cut>)
    requires tok + len < |b|
    ensures r.Some? ==> |r.value.buf| == |b| && r.value.at == tok && r.value.len <= len
    ensures r.Some? ==> r.value.buf[tok + r.value.len] == '\0'
  {
    var c :- DequoteLoop(b, tok, tok, tok + len, true);
    Some(Cut(c.buf[c.at := '\0'], tok, c.at - tok))
  }

  /** `dequote` writes only inside the token and the byte after it. */
  lemma DequoteFrame(b: seq<char>, tok: nat, len: nat)
    requires tok + len < |b|
    ensures var r := Dequote(b, tok, len);
      r.Some? ==> Kept(b, r.value.buf, tok, tok + len + 1)
  {
    var c := DequoteLoop(b, tok, tok, tok + len, true);
    if c.Some? {
      DequoteLoopFrame(b, tok, tok, tok + len, true);
      KeptWrite(b, c.value.buf, tok, tok + len, c.value.at, '\0');
    }
  }

  /** `dequote(b + tok, &len)` as written. */
  function DequoteAsWritten(b: seq<char>, tok: nat, len: nat): (r: Option<Cut>)
    requires tok + len < |b|
    ensures r.Some? ==> |r.value.buf| == |b| && r.value.at == tok && r.value.len <= len
    ensures r.Some? ==> r.value.buf[tok + r.value.len] == '\0'
  {
    var c :- DequoteLoop(b, tok, tok, tok + len, false);
    Some(Cut(c.buf[c.at := '\0'], tok, c.at - tok))
  }

  /** A turn of `dequote` as written that succeeds is the guarded turn: the
      two differ only when the backslash is the last byte, and then the
      unguarded test reads a newline and wraps the length of `memmove`. */
  lemma StepAgrees(b: seq<char>, s: nat, end: nat)
    requires s < end < |b|
    ensures DequoteStep(b, s, end, false).Some? ==> DequoteStep(b, s, end, false) == DequoteStep(b, s, end, true)
  {
  }

  lemma {:induction false} LoopAgrees(b: seq<char>, beg: nat, s: nat, end: nat)
    requires beg <= s <= end + 1 && beg <= end < |b|
    ensures DequoteLoop(b, beg, s, end, false).Some? ==> DequoteLoop(b, beg, s, end, false) == DequoteLoop(b, beg, s, end, true)
    decreases end - s
  {
    if s < end && DequoteLoop(b, beg, s, end, false).Some? {
      assert DequoteLoop(b, beg, s, end, false) == DequoteFrom(b, beg, s, end, false);
      assert DequoteLoop(b, beg, s, end, true) == DequoteFrom(b, beg, s, end, true);
      StepAgrees(b, s, end);
      var n := DequoteStep(b, s, end, false).value;
      LoopAgrees(n.buf, beg, n.s, n.end);
    }
  }

  /** Whenever `dequote` as written succeeds, it does what the corrected
      `dequote` does. */
  lemma AsWrittenAgrees(b: seq<char>, tok: nat, len: nat)
    requires tok + len < |b|
    ensures DequoteAsWritten(b, tok, len).Some? ==> DequoteAsWritten(b, tok, len) == Dequote(b, tok, len)
  {
    LoopAgrees(b, tok, tok, tok + len);
  }
}
