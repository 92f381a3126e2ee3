/** The in-place dequoting of token/token.c computes the reference
    definition: whenever `Dq` accepts the token, `dequote` (with the bound
    check of the Findings) leaves exactly `Dq` of the token in the buffer,
    NUL-terminated, and touches nothing outside the token and the byte after
    it. */
module DequoteProof {

  import opened Wrappers
  import opened CString
  import opened EscapeScan
  import opened Dequoting
  import opened DequoteBuffer

  /** Inside double quotes memecspn, with the backslash rejected, is a plain
      search for a backslash, a double quote or a NUL. */
  lemma DqScan(b: seq<char>, s: nat, end: nat)
    requires s <= end <= |b|
    ensures EscSpan(b, s, end, QE) == s + FirstOf(b[s..end], DQ_SPECIAL)
  {
    var k := EscSpan(b, s, end, QE);
    var u := b[s..end];
    var f := FirstOf(u, DQ_SPECIAL);
    EscapeRejectedIsPlainSpan(b, s, end, QE);
    FirstOfSkipped(u, DQ_SPECIAL);
    if f < |u| {
      assert b[s + f] == u[f];
    }
    if k < end {
      assert u[k - s] == b[k];
    }
  }

  /** The walk back of the buffer is the walk back of the output. */
  lemma {:induction false} WalkBackKeepLen(b: seq<char>, beg: nat, s: nat, p: int)
    requires beg <= p + 1 <= s <= |b|
    ensures WalkBack(b, beg, p) + 1 == beg + KeepLen(b[beg..s], p - beg)
    decreases p
  {
    if beg < p && Blank(b[p]) {
      WalkBackKeepLen(b, beg, s, p - 1);
    }
  }

  /** The walk forward of the buffer is the gap of the content, unless the
      gap stops on a backslash that is the last character before `end`. */
  lemma {:induction false} WalkForwardGap(b: seq<char>, s: nat, end: nat)
    requires s <= end < |b|
    requires var g := s + Gap(b[s..end]); !(g + 1 == end && b[g] == '\\')
    ensures WalkForward(b, s, end) == s + Gap(b[s..end])
    decreases end - s
  {
    var u := b[s..end];
    if s < end && Blank(b[s]) {
      assert u[0] == b[s] && u[1..] == b[s + 1..end];
      WalkForwardGap(b, s + 1, end);
    } else if s + 1 < end && b[s] == '\\' && b[s + 1] == '\n' {
      assert u[0] == b[s] && u[1] == b[s + 1] && u[2..] == b[s + 2..end];
      WalkForwardGap(b, s + 2, end);
    }
  }


  /** Writing a space at `p` and moving `b[g..end]` right behind it. */
  lemma Splice(b: seq<char>, beg: nat, p: nat, g: nat, end: nat, o: seq<char>, c: Scan)
    requires beg <= p < g <= end <= |b| && o == b[beg..p]
    requires c == Scan(Moved(b[p := ' '], p + 1, g, end - g), p + 1, p + 1 + (end - g))
    ensures Split(c.buf, beg, c.s, c.end) == Some(Part(o + [' '], b[g..end]))
  {
    var b1 := b[p := ' '];
    MovedOutside(b1, p + 1, g, end - g, beg, p + 1);
    MovedInside(b1, p + 1, g, end - g, p + 1, p + 1 + (end - g), g, end);
    assert b1[beg..p + 1] == b[beg..p] + [' '];
    assert b1[g..end] == b[g..end];
  }

  /** The result of `collapse_escaped_newlines` in terms of the content. */
  lemma CollapseClosedForm(b: seq<char>, k: nat, beg: nat, end: nat, g: nat) returns (p: nat)
    requires beg <= k && k + 1 < end < |b| && b[k] == '\\' && b[k + 1] == '\n'
    requires g == k + Gap(b[k..end]) && !(g + 1 == end && b[g] == '\\')
    ensures beg <= p <= k < g <= end && TrimTail(b[beg..k]) == b[beg..p]
    ensures Collapse(b, k, beg, end) == Some(Scan(Moved(b[p := ' '], p + 1, g, end - g), p + 1, p + 1 + (end - g)))
  {
    p := TrimmedOutput(b, beg, k);
    WalkForwardGap(b, k, end);
  }

  /** Where the walk back stops: the output before `k` without its trailing
      blanks. */
  lemma TrimmedOutput(b: seq<char>, beg: nat, k: nat) returns (p: nat)
    requires beg <= k < |b|
    ensures p == WalkBack(b, beg, k - 1) + 1
    ensures beg <= p <= k && TrimTail(b[beg..k]) == b[beg..p]
  {
    WalkBackKeepLen(b, beg, k, k - 1);
    p := beg + KeepLen(b[beg..k], k - 1 - beg);
    assert b[beg..k][..p - beg] == b[beg..p];
  }

  /** `collapse_escaped_newlines` trims the blanks at the end of the output
      (its first character always stays), writes one space, and moves the
      rest of the token, after the blanks and pairs, behind it. */
  lemma CollapseComputes(b: seq<char>, k: nat, beg: nat, end: nat, g: nat) returns (c: Scan)
    requires beg <= k && k + 1 < end < |b| && b[k] == '\\' && b[k + 1] == '\n'
    requires g == k + Gap(b[k..end]) && !(g + 1 == end && b[g] == '\\')
    ensures Collapse(b, k, beg, end) == Some(c)
    ensures Split(c.buf, beg, c.s, c.end) == Some(Part(TrimTail(b[beg..k]) + [' '], b[g..end]))
  {
    var p := CollapseClosedForm(b, k, beg, end, g);
    c := Scan(Moved(b[p := ' '], p + 1, g, end - g), p + 1, p + 1 + (end - g));
    Splice(b, beg, p, g, end, TrimTail(b[beg..k]), c);
  }

  /** Removing the byte at `k` by shifting the rest of the extent left. */
  lemma ShiftLeft(b: seq<char>, beg: nat, k: nat, end: nat)
    requires beg <= k < end < |b|
    ensures var nb := Moved(b, k, k + 1, end - k);
      nb[beg..k] == b[beg..k] && nb[k..end - 1] == b[k + 1..end]
  {
    MovedOutside(b, k, k + 1, end - k, beg, k);
    MovedInside(b, k, k + 1, end - k, k, end - 1, k + 1, end);
  }

  /** The output so far and the characters before the first special one. */
  lemma OutputSoFar(b: seq<char>, beg: nat, s: nat, k: nat, end: nat)
    requires beg <= s <= k <= end <= |b|
    ensures b[beg..s] + b[s..end][..k - s] == b[beg..k]
    ensures k < end ==> b[beg..s] + b[s..end][..k - s] + [b[k]] == b[beg..k + 1]
  {
    if k < end {
      assert b[beg..k + 1] == b[beg..k] + [b[k]];
    }
  }

  /** The content at `k` and `k + 1` is the buffer there. */
  lemma At(b: seq<char>, s: nat, k: nat, end: nat)
    requires s <= k < end <= |b|
    ensures b[s..end][k - s] == b[k]
    ensures k + 1 < end ==> b[s..end][k - s + 1] == b[k + 1]
  {
  }

  /** A suffix of the content is a suffix of the buffer. */
  lemma Suffix(b: seq<char>, s: nat, j: nat, end: nat)
    requires s <= j <= end <= |b|
    ensures b[s..end][j - s..] == b[j..end]
  {
  }

  /** The buffer between `beg` and `end`, cut at `s` into the output of the
      part so far and the raw characters still to scan. */
  function Split(b: seq<char>, beg: nat, s: nat, end: nat): Option<Part>
  {
    if beg <= s <= end <= |b| then Some(Part(b[beg..s], b[s..end])) else None
  }

  /** The part a buffer state holds: the output before the returned
      position, the raw rest of the token after it. */
  function View(r: Option<Cut>, beg: nat): Option<Part>
  {
    if r.Some? && beg <= r.value.at <= r.value.at + r.value.len <= |r.value.buf| then
      Some(Part(r.value.buf[beg..r.value.at], r.value.buf[r.value.at..r.value.at + r.value.len]))
    else None
  }

  // One turn of DqLoop, case by case, with `k` where memecspn stops.

  lemma LoopEnd(b: seq<char>, beg: nat, s: nat, end: nat, k: nat)
    requires beg <= s <= end < |b| && k == EscSpan(b, s, end, QE) && k == end
    ensures View(DqLoop(b, beg, s, end), beg) == Some(Part(b[beg..end], []))
  {
    assert b[end..end + 0] == [];
  }

  lemma LoopQuote(b: seq<char>, beg: nat, s: nat, end: nat, k: nat)
    requires beg <= s <= end < |b| && k == EscSpan(b, s, end, QE) && k < end && b[k] == '"'
    ensures View(DqLoop(b, beg, s, end), beg) == Some(Part(b[beg..k], b[k + 1..end]))
  {
    ShiftLeft(b, beg, k, end);
    assert k + (end - 1 - k) == end - 1;
  }

  lemma LoopLone(b: seq<char>, beg: nat, s: nat, end: nat, k: nat)
    requires beg <= s <= end < |b| && k == EscSpan(b, s, end, QE) && k + 1 == end && b[k] == '\\'
    ensures View(DqLoop(b, beg, s, end), beg) == Some(Part(b[beg..k], b[k..end]))
  {
  }

  lemma LoopEscaped(b: seq<char>, beg: nat, s: nat, end: nat, k: nat) returns (nb: seq<char>)
    requires beg <= s <= end < |b| && k == EscSpan(b, s, end, QE) && k + 1 < end && b[k] == '\\'
    requires b[k + 1] == '\\' || b[k + 1] == '"'
    ensures |nb| == |b| && DqLoop(b, beg, s, end) == DqLoop(nb, beg, k + 1, end - 1)
    ensures Split(nb, beg, k + 1, end - 1) == Some(Part(b[beg..k] + [b[k + 1]], b[k + 2..end]))
  {
    assert DqLoop(b, beg, s, end) == DqEscape(b, beg, s, end, k);
    nb := Moved(b, k, k + 1, end - k);
    EscapedShift(b, beg, k, end, nb, b[beg..k] + [b[k + 1]]);
  }

  /** Removing the escaping backslash at `k` keeps the escaped character. */
  lemma EscapedShift(b: seq<char>, beg: nat, k: nat, end: nat, nb: seq<char>, out: seq<char>)
    requires beg <= k && k + 1 < end < |b|
    requires nb == Moved(b, k, k + 1, end - k) && out == b[beg..k] + [b[k + 1]]
    ensures Split(nb, beg, k + 1, end - 1) == Some(Part(out, b[k + 2..end]))
  {
    ShiftLeft(b, beg, k, end);
    assert nb[beg..k + 1] == nb[beg..k] + [nb[k]];
    assert nb[k + 1..end - 1] == nb[k..end - 1][1..];
  }

  lemma LoopCollapse(b: seq<char>, beg: nat, s: nat, end: nat, k: nat, c: Scan)
    requires beg <= s <= end < |b| && k == EscSpan(b, s, end, QE) && k + 1 < end && b[k] == '\\'
    requires b[k + 1] == '\n' && Collapse(b, k, beg, end) == Some(c)
    ensures DqLoop(b, beg, s, end) == DqLoop(c.buf, beg, c.s, c.end)
  {
    assert DqLoop(b, beg, s, end) == DqEscape(b, beg, s, end, k);
  }

  lemma LoopKept(b: seq<char>, beg: nat, s: nat, end: nat, k: nat)
    requires beg <= s <= end < |b| && k == EscSpan(b, s, end, QE) && k + 1 < end && b[k] == '\\'
    requires b[k + 1] != '\\' && b[k + 1] != '"' && b[k + 1] != '\n'
    ensures DqLoop(b, beg, s, end) == DqLoop(b, beg, k + 1, end)
  {
    assert DqLoop(b, beg, s, end) == DqEscape(b, beg, s, end, k);
  }

  // One step of DqDouble, case by case, with `k` the first special character.

  lemma DoubleEnd(t: seq<char>, o: seq<char>, k: nat)
    requires k == FirstOf(t, DQ_SPECIAL) && k == |t|
    ensures DqDouble(t, o) == Some(Part(o + t[..k], []))
  {
    assert DqDouble(t, o) == DqSpecial(t, o + t[..k], k);
  }

  lemma DoubleQuote(t: seq<char>, o: seq<char>, k: nat)
    requires k == FirstOf(t, DQ_SPECIAL) && k < |t| && t[k] == '"'
    ensures DqDouble(t, o) == Some(Part(o + t[..k], t[k + 1..]))
  {
    assert DqDouble(t, o) == DqSpecial(t, o + t[..k], k);
  }

  lemma DoubleLone(t: seq<char>, o: seq<char>, k: nat)
    requires k == FirstOf(t, DQ_SPECIAL) && k + 1 == |t| && t[k] == '\\'
    ensures DqDouble(t, o) == Some(Part(o + t[..k], t[k..]))
  {
    assert DqDouble(t, o) == DqSpecial(t, o + t[..k], k);
  }

  lemma DoubleEscaped(t: seq<char>, o: seq<char>, k: nat, rest: seq<char>, out: seq<char>)
    requires k == FirstOf(t, DQ_SPECIAL) && k + 1 < |t| && t[k] == '\\'
    requires t[k + 1] == '\\' || t[k + 1] == '"'
    requires rest == t[k + 2..] && out == o + t[..k] + [t[k + 1]]
    ensures DqDouble(t, o) == DqDouble(rest, out)
  {
    assert DqDouble(t, o) == DqSpecial(t, o + t[..k], k);
  }

  lemma DoubleCollapse(t: seq<char>, o: seq<char>, k: nat) returns (ok: bool, g: nat, o2: seq<char>, t2: seq<char>)
    requires k == FirstOf(t, DQ_SPECIAL) && k + 1 < |t| && t[k] == '\\' && t[k + 1] == '\n'
    ensures g == k + Gap(t[k..]) && g <= |t|
    ensures ok == !(g + 1 == |t| && t[g] == '\\')
    ensures !ok ==> DqDouble(t, o).None?
    ensures ok ==> o2 == TrimTail(o + t[..k]) + [' '] && t2 == t[g..] && DqDouble(t, o) == DqDouble(t2, o2)
  {
    assert DqDouble(t, o) == DqSpecial(t, o + t[..k], k);
    g := k + Gap(t[k..]);
    ok := !(g + 1 == |t| && t[g] == '\\');
    o2 := TrimTail(o + t[..k]) + [' '];
    t2 := t[g..];
  }

  lemma DoubleKept(t: seq<char>, o: seq<char>, k: nat)
    requires k == FirstOf(t, DQ_SPECIAL) && k + 1 < |t| && t[k] == '\\'
    requires t[k + 1] != '\\' && t[k + 1] != '"' && t[k + 1] != '\n'
    ensures DqDouble(t, o) == DqDouble(t[k + 1..], o + t[..k] + ['\\'])
  {
    assert DqDouble(t, o) == DqSpecial(t, o + t[..k], k);
  }

  // The same turn on the content: what DqDouble makes of the part whose
  // output so far `o` and rest `t` are cut out of the buffer at `s`.

  /** The arguments DqDouble goes on with after an escaped character at `k`,
      as slices of the buffer. */
  lemma EscapedArgs(b: seq<char>, beg: nat, s: nat, k: nat, end: nat)
    requires beg <= s <= k && k + 1 < end <= |b|
    ensures b[s..end][k - s + 2..] == b[k + 2..end]
    ensures b[beg..s] + b[s..end][..k - s] + [b[s..end][k - s + 1]] == b[beg..k] + [b[k + 1]]
  {
    OutputSoFar(b, beg, s, k, end);
    At(b, s, k, end);
  }

  lemma ContentEnd(b: seq<char>, beg: nat, s: nat, end: nat, o: seq<char>, t: seq<char>, k: nat)
    requires end < |b| && Split(b, beg, s, end) == Some(Part(o, t))
    requires k == EscSpan(b, s, end, QE) && k == end
    ensures DqDouble(t, o) == Some(Part(b[beg..end], []))
  {
    DqScan(b, s, end);
    OutputSoFar(b, beg, s, k, end);
    DoubleEnd(t, o, k - s);
  }

  lemma ContentQuote(b: seq<char>, beg: nat, s: nat, end: nat, o: seq<char>, t: seq<char>, k: nat)
    requires end < |b| && Split(b, beg, s, end) == Some(Part(o, t))
    requires k == EscSpan(b, s, end, QE) && k < end && b[k] == '"'
    ensures DqDouble(t, o) == Some(Part(b[beg..k], b[k + 1..end]))
  {
    DqScan(b, s, end);
    At(b, s, k, end);
    OutputSoFar(b, beg, s, k, end);
    Suffix(b, s, k + 1, end);
    DoubleQuote(t, o, k - s);
  }

  lemma ContentLone(b: seq<char>, beg: nat, s: nat, end: nat, o: seq<char>, t: seq<char>, k: nat)
    requires end < |b| && Split(b, beg, s, end) == Some(Part(o, t))
    requires k == EscSpan(b, s, end, QE) && k + 1 == end && b[k] == '\\'
    ensures DqDouble(t, o) == Some(Part(b[beg..k], b[k..end]))
  {
    DqScan(b, s, end);
    At(b, s, k, end);
    OutputSoFar(b, beg, s, k, end);
    Suffix(b, s, k, end);
    DoubleLone(t, o, k - s);
  }

  lemma ContentNul(b: seq<char>, beg: nat, s: nat, end: nat, o: seq<char>, t: seq<char>, k: nat)
    requires end < |b| && Split(b, beg, s, end) == Some(Part(o, t))
    requires k == EscSpan(b, s, end, QE) && k < end && b[k] != '\\' && b[k] != '"'
    ensures DqDouble(t, o).None?
  {
    DqScan(b, s, end);
    assert DqDouble(t, o) == DqSpecial(t, o + t[..k - s], k - s);
  }

  lemma ContentEscaped(b: seq<char>, beg: nat, s: nat, end: nat, o: seq<char>, t: seq<char>, k: nat)
    requires end < |b| && Split(b, beg, s, end) == Some(Part(o, t))
    requires k == EscSpan(b, s, end, QE) && k + 1 < end && b[k] == '\\'
    requires b[k + 1] == '\\' || b[k + 1] == '"'
    ensures DqDouble(t, o) == DqDouble(b[k + 2..end], b[beg..k] + [b[k + 1]])
  {
    DqScan(b, s, end);
    At(b, s, k, end);
    EscapedArgs(b, beg, s, k, end);
    DoubleEscaped(t, o, k - s, b[k + 2..end], b[beg..k] + [b[k + 1]]);
  }

  lemma ContentKept(b: seq<char>, beg: nat, s: nat, end: nat, o: seq<char>, t: seq<char>, k: nat)
    requires end < |b| && Split(b, beg, s, end) == Some(Part(o, t))
    requires k == EscSpan(b, s, end, QE) && k + 1 < end && b[k] == '\\'
    requires b[k + 1] != '\\' && b[k + 1] != '"' && b[k + 1] != '\n'
    ensures DqDouble(t, o) == DqDouble(b[k + 1..end], b[beg..k + 1])
  {
    DqScan(b, s, end);
    At(b, s, k, end);
    OutputSoFar(b, beg, s, k, end);
    Suffix(b, s, k + 1, end);
    DoubleKept(t, o, k - s);
  }

  lemma ContentCollapse(b: seq<char>, beg: nat, s: nat, end: nat, o: seq<char>, t: seq<char>, k: nat) returns (ok: bool, g: nat)
    requires end < |b| && Split(b, beg, s, end) == Some(Part(o, t))
    requires k == EscSpan(b, s, end, QE) && k + 1 < end && b[k] == '\\' && b[k + 1] == '\n'
    ensures g == k + Gap(b[k..end]) && ok == !(g + 1 == end && b[g] == '\\')
    ensures !ok ==> DqDouble(t, o).None?
    ensures ok ==> DqDouble(t, o) == DqDouble(b[g..end], TrimTail(b[beg..k]) + [' '])
  {
    ok, g := CollapseGap(b, beg, s, end, o, t, k);
    if ok {
      CollapseRest(b, beg, s, end, o, t, k, g);
    }
  }

  lemma CollapseGap(b: seq<char>, beg: nat, s: nat, end: nat, o: seq<char>, t: seq<char>, k: nat) returns (ok: bool, g: nat)
    requires end < |b| && Split(b, beg, s, end) == Some(Part(o, t))
    requires k == EscSpan(b, s, end, QE) && k + 1 < end && b[k] == '\\' && b[k + 1] == '\n'
    ensures g == k + Gap(b[k..end]) && k < g <= end && ok == !(g + 1 == end && b[g] == '\\')
    ensures !ok ==> DqDouble(t, o).None?
  {
    DqScan(b, s, end);
    g := k + Gap(b[k..end]);
    assert b[k..end][1..] == b[k + 1..end];
    ok := !(g + 1 == end && b[g] == '\\');
    if !ok {
      CollapseTranslated(b, beg, s, end, k, g);
      DoubleCollapseFails(b[s..end], b[beg..s], k - s, g - s);
    }
  }

  /** A collapse that leaves a lone backslash last fails. */
  lemma DoubleCollapseFails(t: seq<char>, o: seq<char>, k: nat, g: nat)
    requires k == FirstOf(t, DQ_SPECIAL) && k + 1 < |t| && t[k] == '\\' && t[k + 1] == '\n'
    requires g == k + Gap(t[k..]) && g + 1 == |t| && t[g] == '\\'
    ensures DqDouble(t, o).None?
  {
    var ok, g', o2, t2 := DoubleCollapse(t, o, k);
  }

  lemma CollapseRest(b: seq<char>, beg: nat, s: nat, end: nat, o: seq<char>, t: seq<char>, k: nat, g: nat)
    requires end < |b| && Split(b, beg, s, end) == Some(Part(o, t))
    requires k == EscSpan(b, s, end, QE) && k + 1 < end && b[k] == '\\' && b[k + 1] == '\n'
    requires g == k + Gap(b[k..end]) && k < g <= end && !(g + 1 == end && b[g] == '\\')
    ensures DqDouble(t, o) == DqDouble(b[g..end], TrimTail(b[beg..k]) + [' '])
  {
    DqScan(b, s, end);
    CollapseAt(b, beg, s, end, k, g);
  }

  /** The collapse of `DqDouble`, read off the buffer. */
  lemma CollapseAt(b: seq<char>, beg: nat, s: nat, end: nat, k: nat, g: nat)
    requires beg <= s <= k && k + 1 < end <= |b| && g <= end
    requires k - s == FirstOf(b[s..end], DQ_SPECIAL) && b[k] == '\\' && b[k + 1] == '\n'
    requires g == k + Gap(b[k..end]) && !(g + 1 == end && b[g] == '\\')
    ensures DqDouble(b[s..end], b[beg..s]) == DqDouble(b[g..end], TrimTail(b[beg..k]) + [' '])
  {
    CollapseTranslated(b, beg, s, end, k, g);
    DoubleCollapsed(b[s..end], b[beg..s], k - s, g - s, b[g..end], TrimTail(b[beg..k]) + [' ']);
  }

  /** The conditions of `DoubleCollapsed` on the content, from the buffer. */
  lemma CollapseTranslated(b: seq<char>, beg: nat, s: nat, end: nat, k: nat, g: nat)
    requires beg <= s <= k && k + 1 < end <= |b| && g <= end
    requires k - s == FirstOf(b[s..end], DQ_SPECIAL) && b[k] == '\\' && b[k + 1] == '\n'
    requires g == k + Gap(b[k..end])
    ensures var t := b[s..end];
      && k - s + 1 < |t| && t[k - s] == '\\' && t[k - s + 1] == '\n'
      && g - s == k - s + Gap(t[k - s..])
      && ((g - s + 1 == |t| && t[g - s] == '\\') <==> (g + 1 == end && b[g] == '\\'))
      && b[g..end] == t[g - s..] && TrimTail(b[beg..k]) + [' '] == TrimTail(b[beg..s] + t[..k - s]) + [' ']
  {
    At(b, s, k, end);
    Suffix(b, s, k, end);
    if g < end {
      At(b, s, g, end);
    }
    CollapsedParts(b, beg, s, end, k, g);
  }

  /** A collapse that does not leave a lone backslash last. */
  lemma DoubleCollapsed(t: seq<char>, o: seq<char>, k: nat, g: nat, rest: seq<char>, out: seq<char>)
    requires k == FirstOf(t, DQ_SPECIAL) && k + 1 < |t| && t[k] == '\\' && t[k + 1] == '\n'
    requires g == k + Gap(t[k..]) && !(g + 1 == |t| && t[g] == '\\')
    requires rest == t[g..] && out == TrimTail(o + t[..k]) + [' ']
    ensures DqDouble(t, o) == DqDouble(rest, out)
  {
    var ok, g', o2, t2 := DoubleCollapse(t, o, k);
  }

  /** The output and the rest after a collapse, read off the buffer. */
  lemma CollapsedParts(b: seq<char>, beg: nat, s: nat, end: nat, k: nat, g: nat)
    requires beg <= s <= k <= g <= end <= |b|
    ensures TrimTail(b[beg..s] + b[s..end][..k - s]) + [' '] == TrimTail(b[beg..k]) + [' ']
    ensures b[s..end][g - s..] == b[g..end]
  {
    OutputSoFar(b, beg, s, k, end);
    Suffix(b, s, g, end);
  }

  // The cases of DqLoopComputes that end the part.

  lemma DqCaseEnd(b: seq<char>, beg: nat, s: nat, end: nat, o: seq<char>, t: seq<char>, k: nat)
    requires end < |b| && Split(b, beg, s, end) == Some(Part(o, t))
    requires k == EscSpan(b, s, end, QE) && k == end
    ensures View(DqLoop(b, beg, s, end), beg) == DqDouble(t, o)
  {
    ContentEnd(b, beg, s, end, o, t, k);
    LoopEnd(b, beg, s, end, k);
  }

  lemma DqCaseQuote(b: seq<char>, beg: nat, s: nat, end: nat, o: seq<char>, t: seq<char>, k: nat)
    requires end < |b| && Split(b, beg, s, end) == Some(Part(o, t))
    requires k == EscSpan(b, s, end, QE) && k < end && b[k] == '"'
    ensures View(DqLoop(b, beg, s, end), beg) == DqDouble(t, o)
  {
    ContentQuote(b, beg, s, end, o, t, k);
    LoopQuote(b, beg, s, end, k);
  }

  lemma DqCaseLone(b: seq<char>, beg: nat, s: nat, end: nat, o: seq<char>, t: seq<char>, k: nat)
    requires end < |b| && Split(b, beg, s, end) == Some(Part(o, t))
    requires k == EscSpan(b, s, end, QE) && k + 1 == end && b[k] == '\\'
    ensures View(DqLoop(b, beg, s, end), beg) == DqDouble(t, o)
  {
    ContentLone(b, beg, s, end, o, t, k);
    LoopLone(b, beg, s, end, k);
  }

  // The cases where the loop goes on, each closed by the induction
  // hypothesis on the smaller state.

  lemma DqRecEscaped(b: seq<char>, beg: nat, s: nat, end: nat, o: seq<char>, t: seq<char>, k: nat)
    requires end < |b| && Split(b, beg, s, end) == Some(Part(o, t))
    requires k == EscSpan(b, s, end, QE) && k + 1 < end && b[k] == '\\'
    requires b[k + 1] == '\\' || b[k + 1] == '"'
    ensures DqDouble(t, o).Some? ==> View(DqLoop(b, beg, s, end), beg) == DqDouble(t, o)
    decreases end - s, 0
  {
    ContentEscaped(b, beg, s, end, o, t, k);
    var nb := LoopEscaped(b, beg, s, end, k);
    DqLoopComputes(nb, beg, k + 1, end - 1, b[beg..k] + [b[k + 1]], b[k + 2..end]);
  }

  lemma DqRecCollapse(b: seq<char>, beg: nat, s: nat, end: nat, o: seq<char>, t: seq<char>, k: nat)
    requires end < |b| && Split(b, beg, s, end) == Some(Part(o, t))
    requires k == EscSpan(b, s, end, QE) && k + 1 < end && b[k] == '\\' && b[k + 1] == '\n'
    ensures DqDouble(t, o).Some? ==> View(DqLoop(b, beg, s, end), beg) == DqDouble(t, o)
    decreases end - s, 0
  {
    var ok, g := ContentCollapse(b, beg, s, end, o, t, k);
    if ok {
      var c := CollapseComputes(b, k, beg, end, g);
      LoopCollapse(b, beg, s, end, k, c);
      DqLoopComputes(c.buf, beg, c.s, c.end, TrimTail(b[beg..k]) + [' '], b[g..end]);
    }
  }

  lemma DqRecKept(b: seq<char>, beg: nat, s: nat, end: nat, o: seq<char>, t: seq<char>, k: nat)
    requires end < |b| && Split(b, beg, s, end) == Some(Part(o, t))
    requires k == EscSpan(b, s, end, QE) && k + 1 < end && b[k] == '\\'
    requires b[k + 1] != '\\' && b[k + 1] != '"' && b[k + 1] != '\n'
    ensures DqDouble(t, o).Some? ==> View(DqLoop(b, beg, s, end), beg) == DqDouble(t, o)
    decreases end - s, 0
  {
    ContentKept(b, beg, s, end, o, t, k);
    LoopKept(b, beg, s, end, k);
    DqLoopComputes(b, beg, k + 1, end, b[beg..k + 1], b[k + 1..end]);
  }

  /** The loop of `quote_removal_in_double_quotes` computes DqDouble: when
      the content `t` with output so far `o` is accepted, the output of the
      part ends up before the returned position and the raw rest of the
      token after it. */
  lemma {:induction false} DqLoopComputes(b: seq<char>, beg: nat, s: nat, end: nat, o: seq<char>, t: seq<char>)
    requires end < |b| && Split(b, beg, s, end) == Some(Part(o, t))
    ensures DqDouble(t, o).Some? ==> View(DqLoop(b, beg, s, end), beg) == DqDouble(t, o)
    decreases end - s, 1
  {
    var k := EscSpan(b, s, end, QE);
    if k == end {
      DqCaseEnd(b, beg, s, end, o, t, k);
    } else if b[k] == '"' {
      DqCaseQuote(b, beg, s, end, o, t, k);
    } else if b[k] != '\\' {
      ContentNul(b, beg, s, end, o, t, k);
    } else if k + 1 == end {
      DqCaseLone(b, beg, s, end, o, t, k);
    } else if b[k + 1] == '\\' || b[k + 1] == '"' {
      DqRecEscaped(b, beg, s, end, o, t, k);
    } else if b[k + 1] == '\n' {
      DqRecCollapse(b, beg, s, end, o, t, k);
    } else {
      DqRecKept(b, beg, s, end, o, t, k);
    }
  }
}
