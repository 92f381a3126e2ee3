/** Separators of token/token.c: whitespace, runs of separators and escaped
    newlines, and the unquoted part of a token. */
module Separators {

  import opened CString
  import opened EscapeScan

  /** The characters between tokens. */
  const SEPARATORS: set<char> := {' ', '\t', '\n'}

  /** The characters that end the unquoted, unescaped part of a token. */
  const QUOTES_AND_SEPARATORS: set<char> := {'\'', '"', ' ', '\t', '\n'}

  /** `whitespace()`: newline, space or tab. */
  predicate Whitespace(c: char)
  {
    c == '\n' || c == ' ' || c == '\t'
  }

  /** A backslash-newline pair (an escaped newline) starts at `k`. */
  predicate EscapedNewline(s: seq<char>, k: nat)
  {
    k + 1 < |s| && s[k] == '\\' && s[k + 1] == '\n'
  }

  /** `s[i..k]` is made of separators and escaped newlines only. */
  predicate SepRun(s: seq<char>, i: nat, k: nat)
    requires i <= k <= |s|
    decreases k - i
  {
    i == k ||
    (Whitespace(s[i]) && SepRun(s, i + 1, k)) ||
    (EscapedNewline(s, i) && i + 2 <= k && SepRun(s, i + 2, k))
  }

  /** A block of whitespace in front of a separator run extends it. */
  lemma {:induction false} SepRunBlanks(s: seq<char>, i: nat, j: nat, k: nat)
    requires i <= j <= k <= |s|
    requires forall m | i <= m < j :: Whitespace(s[m])
    requires SepRun(s, j, k)
    ensures SepRun(s, i, k)
    decreases j - i
  {
    if i < j {
      SepRunBlanks(s, i + 1, j, k);
    }
  }

  /** A separator run that ends where no further separator or escaped newline
      starts is unique: the run from `i` ends at one place only. */
  lemma {:induction false} SepRunMaximalUnique(s: seq<char>, i: nat, k1: nat, k2: nat)
    requires i <= k1 < |s| && i <= k2 < |s|
    requires SepRun(s, i, k1) && !Whitespace(s[k1]) && !EscapedNewline(s, k1)
    requires SepRun(s, i, k2) && !Whitespace(s[k2]) && !EscapedNewline(s, k2)
    ensures k1 == k2
    decreases k1 - i
  {
    if i < k1 && i < k2 {
      if Whitespace(s[i]) {
        SepRunMaximalUnique(s, i + 1, k1, k2);
      } else {
        SepRunMaximalUnique(s, i + 2, k1, k2);
      }
    }
  }

  /** Reference definition of `skip_separators`: strspn over the separators,
      then one escaped newline, until neither applies. */
  function SkipSeps(s: seq<char>, i: nat): (k: nat)
    requires CStr(s) && i < |s|
    ensures i <= k < |s|
    ensures SepRun(s, i, k) && !Whitespace(s[k]) && !EscapedNewline(s, k)
    decreases |s| - i
  {
    var j := Spn(s, i, SEPARATORS);
    SpnAccepted(s, i, SEPARATORS);
    if EscapedNewline(s, j) then
      var k := SkipSeps(s, j + 2);
      SepRunBlanks(s, i, j, k);
      k
    else
      SepRunBlanks(s, i, j, j);
      j
  }

  /** `skip_separators`: repeats its two skips until the cursor stops moving. */
  method SkipSeparators(s: seq<char>, i: nat) returns (k: nat)
    requires CStr(s) && i < |s|
    ensures k == SkipSeps(s, i)
  {
    var beg: int := -1;  // the null pointer, equal to no position
    k := i;
    while beg != k
      invariant i <= k < |s|
      invariant SkipSeps(s, k) == SkipSeps(s, i)
      invariant beg == k ==> !Whitespace(s[k]) && !EscapedNewline(s, k)
      decreases |s| - k, if beg == k then 0 else 1
    {
      beg := k;
      k := Spn(s, k, SEPARATORS);
      if EscapedNewline(s, k) {
        k := k + 2;
      }
    }
  }

  /** Index `j` ends the unquoted part of a token started at `lo`: a NUL, a
      newline, or a quote or separator that no backslash escapes. */
  predicate Boundary(s: seq<char>, lo: nat, j: nat)
    requires lo <= j < |s|
  {
    s[j] == '\0' || s[j] == '\n' ||
    (s[j] != '\\' && BsRun(s, lo, j) % 2 == 0 && s[j] in QUOTES_AND_SEPARATORS)
  }

  /** Reference definition of `skip_until_separator`: the first boundary, moved
      back onto the backslash when the boundary is an escaped newline. */
  function SkipUntil(s: seq<char>, lo: nat): (k: nat)
    requires CStr(s) && lo < |s|
    ensures lo <= k < |s|
  {
    SkipUntilFrom(s, lo, lo)
  }

  function SkipUntilFrom(s: seq<char>, lo: nat, i: nat): (k: nat)
    requires CStr(s) && lo <= i < |s|
    ensures lo <= k < |s|
    decreases |s| - i
  {
    if Boundary(s, lo, i) then
      if s[i] == '\n' then i - BsRun(s, lo, i) % 2 else i
    else
      SkipUntilFrom(s, lo, i + 1)
  }

  /** Where the unquoted part stops: no boundary before it, and either a
      boundary other than an escaped newline, or the backslash of an escaped
      newline, itself not escaped. */
  predicate UnquotedStop(s: seq<char>, lo: nat, k: nat)
    requires lo <= k < |s|
  {
    && (forall j | lo <= j < k :: !Boundary(s, lo, j))
    && (|| (Boundary(s, lo, k) && !(s[k] == '\n' && BsRun(s, lo, k) % 2 == 1))
        || (EscapedNewline(s, k) && BsRun(s, lo, k) % 2 == 0))
  }

  lemma {:induction false} SkipUntilFromStops(s: seq<char>, lo: nat, i: nat)
    requires CStr(s) && lo <= i < |s|
    requires forall j | lo <= j < i :: !Boundary(s, lo, j)
    ensures UnquotedStop(s, lo, SkipUntilFrom(s, lo, i))
    decreases |s| - i
  {
    if Boundary(s, lo, i) {
      if s[i] == '\n' && BsRun(s, lo, i) % 2 == 1 {
        assert s[i - 1] == '\\';
        assert BsRun(s, lo, i) == BsRun(s, lo, i - 1) + 1;
      }
    } else {
      SkipUntilFromStops(s, lo, i + 1);
    }
  }

  /** `skip_until_separator` stops at the end of the unquoted part. */
  lemma SkipUntilStops(s: seq<char>, lo: nat)
    requires CStr(s) && lo < |s|
    ensures UnquotedStop(s, lo, SkipUntil(s, lo))
  {
    SkipUntilFromStops(s, lo, lo);
  }

  /** `skip_until_separator` never passes a terminator. */
  lemma SkipUntilNoNul(s: seq<char>, lo: nat)
    requires CStr(s) && lo < |s|
    ensures forall j | lo <= j < SkipUntil(s, lo) :: s[j] != '\0'
  {
    SkipUntilStops(s, lo);
    var k := SkipUntil(s, lo);
    forall j | lo <= j < k
      ensures s[j] != '\0'
    {
      assert !Boundary(s, lo, j);
    }
  }

  /** `skip_until_separator`: counts the backslashes in front of the current
      character to tell escaped characters from real boundaries. */
  method SkipUntilSeparator(s: seq<char>, i: nat) returns (k: nat)
    requires CStr(s) && i < |s|
    ensures k == SkipUntil(s, i)
  {
    var n := 0;
    k := i;
    while s[k] != '\0'
      invariant i <= k < |s|
      invariant n == BsRun(s, i, k)
      invariant SkipUntilFrom(s, i, k) == SkipUntil(s, i)
      decreases |s| - k
    {
      if s[k] == '\n' {
        k := k - n % 2;
        return;
      }
      if s[k] == '\\' {
        n := n + 1;
        k := k + 1;
        continue;
      }
      if n % 2 == 0 && s[k] in QUOTES_AND_SEPARATORS {
        return;
      }
      n := 0;
      k := k + 1;
    }
  }
}
