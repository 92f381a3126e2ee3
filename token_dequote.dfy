/** The two halves of `next_dequoted_token` of token/token.c fit together:
    every token that `next_quoted_token` returns with its quotes closed is
    one that `dequote` accepts, so the dequoter's assertions hold on it. */
module TokenDequote {

  import opened Wrappers
  import opened CString
  import opened EscapeScan
  import opened Separators
  import opened Tokenizer
  import opened Dequoting

  /** FirstOf finds the first index holding one of `chars`. */
  lemma {:induction false} FirstOfAt(t: seq<char>, chars: set<char>, m: nat)
    requires m < |t| && t[m] in chars
    requires forall j | 0 <= j < m :: t[j] !in chars
    ensures FirstOf(t, chars) == m
    decreases m
  {
    if m > 0 {
      assert t[0] !in chars;
      FirstOfAt(t[1..], chars, m - 1);
    }
  }

  /** The run of blanks and escaped newlines stops at a double quote. */
  lemma {:induction false} GapBefore(u: seq<char>, x: nat)
    requires x < |u| && u[x] == '"'
    ensures Gap(u) <= x
    decreases |u|
  {
    if |u| > 0 && Blank(u[0]) {
      GapBefore(u[1..], x - 1);
    } else if |u| > 1 && u[0] == '\\' && u[1] == '\n' {
      GapBefore(u[2..], x - 2);
    }
  }

  /** A non-empty run of blanks and escaped newlines ends on a blank or a
      newline, never on a backslash. */
  lemma {:induction false} GapLast(u: seq<char>)
    requires Gap(u) > 0
    ensures Blank(u[Gap(u) - 1]) || u[Gap(u) - 1] == '\n'
    decreases |u|
  {
    if |u| > 0 && Blank(u[0]) {
      if Gap(u[1..]) > 0 {
        GapLast(u[1..]);
      }
    } else if Gap(u[2..]) > 0 {
      GapLast(u[2..]);
    }
  }

  /** DqDouble copies the ordinary characters up to the first special
      one, at `m + k`, which lies at or before the closing quote `c`; an even
      number of backslashes precedes it. */
  lemma FirstSpecial(s: seq<char>, lo: nat, m: nat, c: nat, e: nat, o: seq<char>) returns (k: nat)
    requires lo <= m <= c < e <= |s| && s[c] == '"'
    requires s[m] !in DQ_SPECIAL || BsRun(s, lo, m) % 2 == 0
    ensures k == FirstOf(s[m..e], DQ_SPECIAL) && m + k <= c
    ensures DqDouble(s[m..e], o) == DqSpecial(s[m..e], o + s[m..e][..k], k)
    ensures s[m + k] in DQ_SPECIAL && BsRun(s, lo, m + k) % 2 == 0
  {
    var t := s[m..e];
    k := FirstOf(t, DQ_SPECIAL);
    FirstOfSkipped(t, DQ_SPECIAL);
    assert t[c - m] == '"';
    assert DqDouble(t, o) == DqDoubleAt(t, o, k);
    if k > 0 {
      assert s[m + k - 1] == t[k - 1];
    }
  }

  /** The special character at `k`, a backslash before the character `t[k + 1]`
      it escapes. */
  lemma SpecialPair(t: seq<char>, o1: seq<char>, k: nat, rest: seq<char>, after: seq<char>)
    requires k == FirstOf(t, DQ_SPECIAL) && k + 1 < |t| && t[k] == '\\'
    requires t[k + 1] == '\\' || t[k + 1] == '"'
    requires rest == t[k + 2..]
    requires DqDouble(rest, o1 + [t[k + 1]]).Some? && DqDouble(rest, o1 + [t[k + 1]]).value.rest == after
    ensures DqSpecial(t, o1, k).Some? && DqSpecial(t, o1, k).value.rest == after
  {
  }

  /** The special character at `k`, a backslash before a newline whose run of
      blanks and escaped newlines ends at `g`, not on a lone last backslash. */
  lemma SpecialCollapse(t: seq<char>, o1: seq<char>, k: nat, g: nat, rest: seq<char>, after: seq<char>)
    requires k == FirstOf(t, DQ_SPECIAL) && k + 1 < |t| && t[k] == '\\' && t[k + 1] == '\n'
    requires g == k + Gap(t[k..]) && !(g + 1 == |t| && t[g] == '\\')
    requires rest == t[g..]
    requires DqDouble(rest, TrimTail(o1) + [' ']).Some? && DqDouble(rest, TrimTail(o1) + [' ']).value.rest == after
    ensures DqSpecial(t, o1, k).Some? && DqSpecial(t, o1, k).value.rest == after
  {
  }

  /** The special character at `k`, a backslash kept before anything else. */
  lemma SpecialLone(t: seq<char>, o1: seq<char>, k: nat, rest: seq<char>, after: seq<char>)
    requires k == FirstOf(t, DQ_SPECIAL) && k + 1 < |t| && t[k] == '\\'
    requires t[k + 1] != '\\' && t[k + 1] != '"' && t[k + 1] != '\n'
    requires rest == t[k + 1..]
    requires DqDouble(rest, o1 + ['\\']).Some? && DqDouble(rest, o1 + ['\\']).value.rest == after
    ensures DqSpecial(t, o1, k).Some? && DqSpecial(t, o1, k).value.rest == after
  {
  }

  /** The double-quoted part opened at `lo - 1` and closed at `c`, which
      `strecspn` found, is read by DqDouble from `m` up to that same quote,
      whatever the output so far: the backslashes pair up as the scan
      counted them, and no run of blanks and escaped newlines reaches past
      the closing quote.  At `m`, either the character is ordinary or an
      even number of backslashes precedes it. */
  lemma {:induction false} DoubleCloses(s: seq<char>, lo: nat, m: nat, c: nat, e: nat, o: seq<char>)
    requires lo <= m <= c < e <= |s|
    requires s[c] == '"' && BsRun(s, lo, c) % 2 == 0
    requires forall j | lo <= j < c :: !Stop(s, lo, j, DOUBLE_QUOTE)
    requires s[m] !in DQ_SPECIAL || BsRun(s, lo, m) % 2 == 0
    ensures DqDouble(s[m..e], o).Some? && DqDouble(s[m..e], o).value.rest == s[c + 1..e]
    decreases c - m, 2
  {
    var t := s[m..e];
    var k := FirstSpecial(s, lo, m, c, e, o);
    if m + k == c {
      assert t[k + 1..] == s[c + 1..e];
    } else {
      EscapeCloses(s, lo, m, c, e, t, o + t[..k], k);
    }
  }

  /** A backslash at `K` before the closing quote `c` escapes a backslash or
      a double quote: the pair ends before `c`, and the scan goes on after
      an even number of backslashes or an ordinary character. */
  lemma PairFacts(s: seq<char>, lo: nat, K: nat, c: nat)
    requires lo <= K < c < |s| && s[c] == '"' && BsRun(s, lo, c) % 2 == 0
    requires s[K] == '\\' && BsRun(s, lo, K) % 2 == 0 && (s[K + 1] == '\\' || s[K + 1] == '"')
    ensures K + 2 <= c && BsRun(s, lo, K + 2) % 2 == 0
  {
    assert BsRun(s, lo, K + 1) == BsRun(s, lo, K) + 1;
    if s[K + 1] == '\\' {
      assert BsRun(s, lo, K + 2) == BsRun(s, lo, K + 1) + 1;
    }
  }

  /** A backslash-newline pair at `m + k` before the closing quote `c`: the
      run of blanks and escaped newlines ends at or before `c`, after a
      blank or a newline, so not on a lone last backslash. */
  lemma CollapseFacts(s: seq<char>, lo: nat, m: nat, c: nat, e: nat, t: seq<char>, k: nat) returns (g: nat)
    requires lo <= m && m + k < c < e <= |s| && t == s[m..e] && s[c] == '"'
    requires t[k] == '\\' && t[k + 1] == '\n'
    ensures g == k + Gap(t[k..])
    ensures k < g && m + g <= c && BsRun(s, lo, m + g) == 0
    ensures !(g + 1 == |t| && t[g] == '\\') && t[g..] == s[m + g..e]
  {
    g := k + Gap(t[k..]);
    var u := t[k..];
    assert u[c - m - k] == '"';
    GapBefore(u, c - m - k);
    GapLast(u);
    assert s[m + k + Gap(u) - 1] == u[Gap(u) - 1];
  }

  /** A backslash at `K` before the closing quote `c` that escapes nothing
      special: the character after it is ordinary. */
  lemma LoneFacts(s: seq<char>, lo: nat, K: nat, c: nat)
    requires lo <= K < c < |s| && s[c] == '"' && s[K + 1] != '\\' && s[K + 1] != '"'
    requires K + 1 < c ==> !Stop(s, lo, K + 1, DOUBLE_QUOTE)
    ensures K + 1 < c && s[K + 1] !in DQ_SPECIAL
  {
  }

  /** The special character before the closing quote is a backslash, which
      DqDouble pairs with the character after it as `strecspn` counted. */
  lemma EscapeCloses(s: seq<char>, lo: nat, m: nat, c: nat, e: nat, t: seq<char>, o1: seq<char>, k: nat)
    requires lo <= m && m + k < c < e <= |s| && t == s[m..e]
    requires s[c] == '"' && BsRun(s, lo, c) % 2 == 0
    requires forall j | lo <= j < c :: !Stop(s, lo, j, DOUBLE_QUOTE)
    requires k == FirstOf(t, DQ_SPECIAL) && s[m + k] in DQ_SPECIAL && BsRun(s, lo, m + k) % 2 == 0
    ensures DqSpecial(t, o1, k).Some? && DqSpecial(t, o1, k).value.rest == s[c + 1..e]
    decreases c - m - k, 1
  {
    var K := m + k;
    assert !Stop(s, lo, K, DOUBLE_QUOTE);
    assert t[k] == s[K] == '\\';
    assert t[k + 1] == s[K + 1];
    if s[K + 1] == '\\' || s[K + 1] == '"' {
      PairCloses(s, lo, m, c, e, t, o1, k);
    } else if s[K + 1] == '\n' {
      CollapseCloses(s, lo, m, c, e, t, o1, k);
    } else {
      LoneCloses(s, lo, m, c, e, t, o1, k);
    }
  }

  lemma {:induction false} PairCloses(s: seq<char>, lo: nat, m: nat, c: nat, e: nat, t: seq<char>, o1: seq<char>, k: nat)
    requires lo <= m && m + k < c < e <= |s| && t == s[m..e]
    requires s[c] == '"' && BsRun(s, lo, c) % 2 == 0
    requires forall j | lo <= j < c :: !Stop(s, lo, j, DOUBLE_QUOTE)
    requires k == FirstOf(t, DQ_SPECIAL) && BsRun(s, lo, m + k) % 2 == 0
    requires t[k] == '\\' && (t[k + 1] == '\\' || t[k + 1] == '"')
    ensures DqSpecial(t, o1, k).Some? && DqSpecial(t, o1, k).value.rest == s[c + 1..e]
    decreases c - m - k, 0
  {
    PairFacts(s, lo, m + k, c);
    DoubleCloses(s, lo, m + k + 2, c, e, o1 + [t[k + 1]]);
    SpecialPair(t, o1, k, s[m + k + 2..e], s[c + 1..e]);
  }

  lemma {:induction false} CollapseCloses(s: seq<char>, lo: nat, m: nat, c: nat, e: nat, t: seq<char>, o1: seq<char>, k: nat)
    requires lo <= m && m + k < c < e <= |s| && t == s[m..e]
    requires s[c] == '"' && BsRun(s, lo, c) % 2 == 0
    requires forall j | lo <= j < c :: !Stop(s, lo, j, DOUBLE_QUOTE)
    requires k == FirstOf(t, DQ_SPECIAL) && t[k] == '\\' && t[k + 1] == '\n'
    ensures DqSpecial(t, o1, k).Some? && DqSpecial(t, o1, k).value.rest == s[c + 1..e]
    decreases c - m - k, 0
  {
    var g := CollapseFacts(s, lo, m, c, e, t, k);
    CollapseTail(s, lo, m, c, e, t, o1, k, g);
  }

  /** The rest of the collapse case, stated on where the run of blanks and
      escaped newlines ends (`m + g`) rather than on how `t` sits in `s`. */
  lemma {:induction false} CollapseTail(s: seq<char>, lo: nat, m: nat, c: nat, e: nat, t: seq<char>, o1: seq<char>, k: nat, g: nat)
    requires lo <= m + g <= c < e <= |s|
    requires s[c] == '"' && BsRun(s, lo, c) % 2 == 0
    requires forall j | lo <= j < c :: !Stop(s, lo, j, DOUBLE_QUOTE)
    requires BsRun(s, lo, m + g) == 0
    requires k == FirstOf(t, DQ_SPECIAL) && k + 1 < |t| && t[k] == '\\' && t[k + 1] == '\n'
    requires g == k + Gap(t[k..]) && !(g + 1 == |t| && t[g] == '\\') && t[g..] == s[m + g..e]
    ensures DqSpecial(t, o1, k).Some? && DqSpecial(t, o1, k).value.rest == s[c + 1..e]
    decreases c - m - g, 3
  {
    DoubleCloses(s, lo, m + g, c, e, TrimTail(o1) + [' ']);
    SpecialCollapse(t, o1, k, g, s[m + g..e], s[c + 1..e]);
  }

  lemma {:induction false} LoneCloses(s: seq<char>, lo: nat, m: nat, c: nat, e: nat, t: seq<char>, o1: seq<char>, k: nat)
    requires lo <= m && m + k < c < e <= |s| && t == s[m..e]
    requires s[c] == '"' && BsRun(s, lo, c) % 2 == 0
    requires forall j | lo <= j < c :: !Stop(s, lo, j, DOUBLE_QUOTE)
    requires k == FirstOf(t, DQ_SPECIAL) && t[k] == '\\'
    requires t[k + 1] != '\\' && t[k + 1] != '"' && t[k + 1] != '\n'
    ensures DqSpecial(t, o1, k).Some? && DqSpecial(t, o1, k).value.rest == s[c + 1..e]
    decreases c - m - k, 0
  {
    var K := m + k;
    assert t[k + 1] == s[K + 1];
    LoneFacts(s, lo, K, c);
    DoubleCloses(s, lo, K + 1, c, e, o1 + ['\\']);
    SpecialLone(t, o1, k, s[K + 1..e], s[c + 1..e]);
  }

  /** A double-quoted part closed inside the token is accepted once what
      follows its closing quote is. */
  lemma DoubleQuotedDq(s: seq<char>, q: nat, e: nat)
    requires CStr(s) && q < |s| && s[q] == '"'
    requires Closing(s, q) < e < |s| && s[Closing(s, q)] == '"'
    requires Dq(s[Closing(s, q) + 1..e]).Some?
    ensures Dq(s[q..e]).Some?
  {
    var c := Closing(s, q);
    var t := s[q..e];
    StrEcSpanSkipped(s, q + 1, DOUBLE_QUOTE);
    assert t[1..] == s[q + 1..e];
    DoubleCloses(s, q + 1, q + 1, c, e, []);
    assert Dq(t) == DqQuoted(t);
  }

  /** A single-quoted part closed inside the token is accepted once what
      follows its closing quote is. */
  lemma SingleQuotedDq(s: seq<char>, q: nat, e: nat)
    requires CStr(s) && q < |s| && s[q] == '\''
    requires Closing(s, q) < e < |s| && s[Closing(s, q)] == '\''
    requires Dq(s[Closing(s, q) + 1..e]).Some?
    ensures Dq(s[q..e]).Some?
  {
    var c := Closing(s, q);
    var t := s[q..e];
    CspnSkipped(s, q + 1, SINGLE_QUOTE);
    assert t[1..][c - q - 1] == '\'';
    FirstOfAt(t[1..], {'\''}, c - q - 1);
    assert t[c - q + 1..] == s[c + 1..e];
    assert Dq(t) == DqSingle(t);
  }

  /** An ordinary first character is kept, and dequoting goes on after it. */
  lemma PlainDq(u: seq<char>)
    requires |u| > 0 && u[0] != '\'' && u[0] != '"' && u[0] != '\\'
    ensures Dq(u).Some? <==> Dq(u[1..]).Some?
  {
  }

  /** The unquoted part of a token, from `lo` to the stop `q` of
      `skip_until_separator`, is accepted once the rest is: outside quotes
      `dequote` pairs each backslash with the character after it exactly as
      the scan counted backslashes, and no newline or terminator occurs. At
      `j` an even number of backslashes precedes. */
  lemma {:induction false} UnquotedDq(s: seq<char>, lo: nat, j: nat, q: nat, e: nat)
    requires CStr(s) && lo <= j <= q <= e < |s|
    requires UnquotedStop(s, lo, q)
    requires forall m | lo <= m < e :: s[m] != '\0'
    requires BsRun(s, lo, j) % 2 == 0
    requires Dq(s[q..e]).Some?
    ensures Dq(s[j..e]).Some?
    decreases q - j
  {
    if j < q {
      var t := s[j..e];
      assert !Boundary(s, lo, j);
      if s[j] != '\\' {
        assert t[1..] == s[j + 1..e];
        UnquotedDq(s, lo, j + 1, q, e);
        PlainDq(t);
      } else {
        assert Dq(t) == DqBackslash(t);
        assert BsRun(s, lo, j + 1) == BsRun(s, lo, j) + 1;
        if j + 1 == q {
          assert s[q] == '\0';
          assert t[1..] == [];
        } else {
          assert !Boundary(s, lo, j + 1);
          assert t[1] == s[j + 1];
          assert t[2..] == s[j + 2..e];
          if s[j + 1] == '\\' {
            assert BsRun(s, lo, j + 2) == BsRun(s, lo, j + 1) + 1;
            UnquotedDq(s, lo, j + 2, q, e);
          } else {
            UnquotedDq(s, lo, j + 2, q, e);
            if !StrChr(ESCAPABLE, s[j + 1]) {
              var u := s[j + 1..e];
              assert t[1..] == u && u[1..] == s[j + 2..e];
              PlainDq(u);
            }
          }
        }
      }
    }
  }

  /** Every token that `next_quoted_token` reads with its quotes closed is
      accepted by `dequote`. */
  lemma {:induction false} TokenDequotes(s: seq<char>, p: nat)
    requires CStr(s) && p < |s| && !TokenEnd(s, p).unterminated
    ensures Dq(s[p..TokenEnd(s, p).end]).Some?
    decreases |s| - p
  {
    var q := SkipUntil(s, p);
    var e := TokenEnd(s, p).end;
    SkipUntilStops(s, p);
    TokenEndNoNul(s, p);
    if s[q] == '\0' || EscapedNewline(s, q) || (s[q] != '\'' && s[q] != '"') {
      assert TokenEnd(s, p) == PartEnd(s, q) == Extent(q, false);
      assert s[q..e] == [];
    } else {
      var c := Closing(s, q);
      assert TokenEnd(s, p) == PartEnd(s, q) == AfterQuote(s, c);
      if Whitespace(s[c + 1]) {
        assert s[c + 1..e] == [];
      } else {
        TokenDequotes(s, c + 1);
      }
      if s[q] == '\'' {
        SingleQuotedDq(s, q, e);
      } else {
        DoubleQuotedDq(s, q, e);
      }
    }
    UnquotedDq(s, p, p, q, e);
  }

  /** A token found with no unclosed quote (status 0) dequotes without
      failing. */
  lemma NextTokenDequotes(s: seq<char>, i: nat)
    requires CStr(s) && i < |s|
    ensures var r := NextToken(s, i, 0);
      r.token.Some? && r.status == 0 ==>
        r.token.value + r.tokenlen < |s| && Dq(s[r.token.value..r.token.value + r.tokenlen]).Some?
  {
    var r := NextToken(s, i, 0);
    if r.token.Some? && r.status == 0 {
      TokenDequotes(s, r.token.value);
    }
  }
}
