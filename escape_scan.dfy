/** The escape-aware span functions of token/token.c: `strecspn` and `memecspn`.
    A character of the reject set counts only when it is preceded by an even
    number of consecutive backslashes; a backslash in the reject set stops the
    scan at the first backslash. */
module EscapeScan {

  import opened CString

  /** The number of consecutive backslashes immediately before index `k`,
      looking no further back than `lo` (where the scan started). */
  function BsRun(s: seq<char>, lo: nat, k: nat): (n: nat)
    requires lo <= k <= |s|
    ensures n <= k - lo
    decreases k
  {
    if k > lo && s[k - 1] == '\\' then BsRun(s, lo, k - 1) + 1 else 0
  }

  /** The run is made of backslashes and cannot be extended to the left. */
  lemma {:induction false} BsRunMaximal(s: seq<char>, lo: nat, k: nat)
    requires lo <= k <= |s|
    ensures var n := BsRun(s, lo, k);
      (forall j | k - n <= j < k :: s[j] == '\\') && (k - n == lo || s[k - n - 1] != '\\')
    decreases k
  {
    if k > lo && s[k - 1] == '\\' {
      BsRunMaximal(s, lo, k - 1);
    }
  }

  /** Index `k` ends a scan that started at `lo`: a NUL, a backslash when the
      backslash itself is rejected, or a rejected character that is not escaped. */
  predicate Stop(s: seq<char>, lo: nat, k: nat, reject: set<char>)
    requires lo <= k < |s|
  {
    s[k] == '\0' ||
    (s[k] == '\\' && '\\' in reject) ||
    (s[k] != '\\' && BsRun(s, lo, k) % 2 == 0 && s[k] in reject)
  }

  /** Reference definition of both scans: the first stop in `[lo, lim)`, or `lim`. */
  function EscSpan(s: seq<char>, lo: nat, lim: nat, reject: set<char>): (k: nat)
    requires lo <= lim <= |s|
    ensures lo <= k <= lim
  {
    EscSpanFrom(s, lo, lo, lim, reject)
  }

  function EscSpanFrom(s: seq<char>, lo: nat, i: nat, lim: nat, reject: set<char>): (k: nat)
    requires lo <= i <= lim <= |s|
    ensures i <= k <= lim
    decreases lim - i
  {
    if i == lim || Stop(s, lo, i, reject) then i else EscSpanFrom(s, lo, i + 1, lim, reject)
  }

  lemma {:induction false} EscSpanFromStops(s: seq<char>, lo: nat, i: nat, lim: nat, reject: set<char>)
    requires lo <= i <= lim <= |s|
    ensures var k := EscSpanFrom(s, lo, i, lim, reject); k < lim ==> Stop(s, lo, k, reject)
    decreases lim - i
  {
    if i < lim && !Stop(s, lo, i, reject) {
      EscSpanFromStops(s, lo, i + 1, lim, reject);
    }
  }

  /** The scan ends on a stop unless it reaches the limit. */
  lemma EscSpanStops(s: seq<char>, lo: nat, lim: nat, reject: set<char>)
    requires lo <= lim <= |s|
    ensures var k := EscSpan(s, lo, lim, reject); k < lim ==> Stop(s, lo, k, reject)
  {
    EscSpanFromStops(s, lo, lo, lim, reject);
  }

  lemma {:induction false} EscSpanFromFirst(s: seq<char>, lo: nat, i: nat, lim: nat, reject: set<char>)
    requires lo <= i <= lim <= |s|
    requires forall j | lo <= j < i :: !Stop(s, lo, j, reject)
    ensures forall j | lo <= j < EscSpanFrom(s, lo, i, lim, reject) :: !Stop(s, lo, j, reject)
    decreases lim - i
  {
    if i < lim && !Stop(s, lo, i, reject) {
      EscSpanFromFirst(s, lo, i + 1, lim, reject);
    }
  }

  /** Nothing before the stop is a stop. */
  lemma EscSpanFirst(s: seq<char>, lo: nat, lim: nat, reject: set<char>)
    requires lo <= lim <= |s|
    ensures forall j | lo <= j < EscSpan(s, lo, lim, reject) :: !Stop(s, lo, j, reject)
  {
    EscSpanFromFirst(s, lo, lo, lim, reject);
  }

  /** The first stop is unique: any index with the two defining properties is EscSpan. */
  lemma EscSpanUnique(s: seq<char>, lo: nat, lim: nat, reject: set<char>, k: nat)
    requires lo <= k <= lim <= |s|
    requires k < lim ==> Stop(s, lo, k, reject)
    requires forall j | lo <= j < k :: !Stop(s, lo, j, reject)
    ensures k == EscSpan(s, lo, lim, reject)
  {
    EscSpanFirst(s, lo, lim, reject);
    EscSpanStops(s, lo, lim, reject);
  }

  /** The stop of `strecspn` inside a C string, which the terminator bounds. */
  function StrEcSpan(s: seq<char>, i: nat, reject: set<char>): (k: nat)
    requires CStr(s) && i < |s|
    ensures i <= k < |s| && Stop(s, i, k, reject)
  {
    EscSpanStops(s, i, |s| - 1, reject);
    EscSpan(s, i, |s| - 1, reject)
  }

  /** Nothing `strecspn` skips is a stop, so in particular none is a terminator. */
  lemma StrEcSpanSkipped(s: seq<char>, i: nat, reject: set<char>)
    requires CStr(s) && i < |s|
    ensures forall j | i <= j < StrEcSpan(s, i, reject) :: !Stop(s, i, j, reject)
    ensures forall j | i <= j < StrEcSpan(s, i, reject) :: s[j] != '\0'
  {
    EscSpanFirst(s, i, |s| - 1, reject);
    var k := StrEcSpan(s, i, reject);
    forall j | i <= j < k
      ensures s[j] != '\0'
    {
      assert !Stop(s, i, j, reject);
    }
  }

  /** `strecspn(s + i, reject)`: the offset of the first unescaped rejected
      character (or of the first backslash, if a backslash is rejected), and
      never beyond the terminator. */
  method Strecspn(s: seq<char>, i: nat, reject: set<char>) returns (r: nat)
    requires CStr(s) && i < |s| && '\0' !in reject
    ensures i + r <= NulAt(s, i)
    ensures Stop(s, i, i + r, reject)
    ensures forall k | i <= k < i + r :: !Stop(s, i, k, reject)
    ensures i + r == StrEcSpan(s, i, reject)
  {
    var escapeRejected := '\\' in reject;
    var n := 0;
    r := 0;
    while s[i + r] != '\0'
      invariant i + r <= NulAt(s, i)
      invariant n == BsRun(s, i, i + r)
      invariant forall k | i <= k < i + r :: !Stop(s, i, k, reject)
      decreases |s| - (i + r)
    {
      if s[i + r] == '\\' {
        n := n + 1;
        if escapeRejected {
          break;
        }
        r := r + 1;
        continue;
      }
      if n % 2 == 0 && s[i + r] in reject {
        break;
      }
      n := 0;
      r := r + 1;
    }
    EscSpanUnique(s, i, |s| - 1, reject, i + r);
  }

  /** `memecspn(s + i, reject, slen)`: as strecspn, but never more than `slen`
      characters, and still stopping at an embedded NUL. */
  method Memecspn(s: seq<char>, i: nat, reject: set<char>, slen: nat) returns (r: nat)
    requires i + slen <= |s| && '\0' !in reject
    ensures r <= slen
    ensures r < slen ==> Stop(s, i, i + r, reject)
    ensures forall k | i <= k < i + r :: !Stop(s, i, k, reject)
    ensures i + r == EscSpan(s, i, i + slen, reject)
  {
    var escapeRejected := '\\' in reject;
    var n := 0;
    var left := slen;
    r := 0;
    while left != 0 && s[i + r] != '\0'
      invariant r + left == slen
      invariant n == BsRun(s, i, i + r)
      invariant forall k | i <= k < i + r :: !Stop(s, i, k, reject)
      decreases left
    {
      if s[i + r] == '\\' {
        n := n + 1;
        if escapeRejected {
          break;
        }
        r, left := r + 1, left - 1;
        continue;
      }
      if n % 2 == 0 && s[i + r] in reject {
        break;
      }
      n := 0;
      r, left := r + 1, left - 1;
    }
    EscSpanUnique(s, i, i + slen, reject, i + r);
  }

  /** With a backslash in the reject set nothing can be escaped: the scan is a
      plain search for the first NUL or rejected character. */
  lemma EscapeRejectedIsPlainSpan(s: seq<char>, lo: nat, lim: nat, reject: set<char>)
    requires lo <= lim <= |s| && '\\' in reject
    ensures var k := EscSpan(s, lo, lim, reject);
      (k < lim ==> s[k] == '\0' || s[k] in reject) &&
      forall j | lo <= j < k :: s[j] != '\0' && s[j] !in reject
  {
    var k := EscSpan(s, lo, lim, reject);
    EscSpanFirst(s, lo, lim, reject);
    EscSpanStops(s, lo, lim, reject);
    forall j | lo <= j < k
      ensures s[j] != '\0' && s[j] !in reject
    {
      NoBackslashBeforeStop(s, lo, k, reject, j);
    }
  }

  lemma NoBackslashBeforeStop(s: seq<char>, lo: nat, k: nat, reject: set<char>, j: nat)
    requires lo <= j < k <= |s| && '\\' in reject
    requires forall i | lo <= i < k :: !Stop(s, lo, i, reject)
    ensures s[j] != '\0' && s[j] != '\\' && BsRun(s, lo, j) == 0 && s[j] !in reject
  {
    assert !Stop(s, lo, j, reject);
    if j > lo {
      assert !Stop(s, lo, j - 1, reject);
    }
  }

  /** strecspn degenerates to strcspn when a backslash is rejected. */
  lemma StrecspnDegenerates(s: seq<char>, i: nat, reject: set<char>)
    requires CStr(s) && i < |s| && '\\' in reject
    ensures StrEcSpan(s, i, reject) == Cspn(s, i, reject)
  {
    EscapeRejectedIsPlainSpan(s, i, |s| - 1, reject);
    CspnSkipped(s, i, reject);
    var k := StrEcSpan(s, i, reject);
    var c := Cspn(s, i, reject);
    EscSpanFirst(s, i, |s| - 1, reject);
    if c < k {
      NoBackslashBeforeStop(s, i, k, reject, c);
    }
  }
}
