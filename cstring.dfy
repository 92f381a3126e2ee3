/** C strings and the few C library routines the core relies on.
    A C string is a sequence whose last element is the NUL terminator; a scan
    that starts anywhere inside it stops at the first NUL at the latest. */
module CString {

  import opened Wrappers

  /** The buffer ends with a terminator, so every scan from inside it is bounded. */
  predicate CStr(s: seq<char>)
  {
    |s| > 0 && s[|s| - 1] == '\0'
  }

  /** `strchr(chars, c) != NULL`: the terminator of `chars` matches a NUL argument. */
  predicate StrChr(chars: set<char>, c: char)
  {
    c == '\0' || c in chars
  }

  /** `strspn`: the first index at or after `i` whose character is not in `accept`. */
  function Spn(s: seq<char>, i: nat, accept: set<char>): (k: nat)
    requires CStr(s) && i < |s| && '\0' !in accept
    ensures i <= k < |s| && s[k] !in accept
    decreases |s| - i
  {
    if s[i] in accept then Spn(s, i + 1, accept) else i
  }

  /** Everything `strspn` skips is in `accept`. */
  lemma {:induction false} SpnAccepted(s: seq<char>, i: nat, accept: set<char>)
    requires CStr(s) && i < |s| && '\0' !in accept
    ensures forall j | i <= j < Spn(s, i, accept) :: s[j] in accept
    decreases |s| - i
  {
    if s[i] in accept {
      SpnAccepted(s, i + 1, accept);
    }
  }

  /** `strcspn`: the first index at or after `i` holding NUL or a character of `reject`. */
  function Cspn(s: seq<char>, i: nat, reject: set<char>): (k: nat)
    requires CStr(s) && i < |s|
    ensures i <= k < |s| && (s[k] == '\0' || s[k] in reject)
    decreases |s| - i
  {
    if s[i] == '\0' || s[i] in reject then i else Cspn(s, i + 1, reject)
  }

  /** Nothing `strcspn` skips is NUL or in `reject`. */
  lemma {:induction false} CspnSkipped(s: seq<char>, i: nat, reject: set<char>)
    requires CStr(s) && i < |s|
    ensures forall j | i <= j < Cspn(s, i, reject) :: s[j] != '\0' && s[j] !in reject
    decreases |s| - i
  {
    if s[i] != '\0' && s[i] !in reject {
      CspnSkipped(s, i + 1, reject);
    }
  }

  /** `strlen`, as the index of the first NUL at or after `i`. */
  function NulAt(s: seq<char>, i: nat): (k: nat)
    requires CStr(s) && i < |s|
    ensures i <= k < |s| && s[k] == '\0'
    decreases |s| - i
  {
    if s[i] == '\0' then i else NulAt(s, i + 1)
  }

  /** `strlen` finds the first NUL. */
  lemma {:induction false} NulAtFirst(s: seq<char>, i: nat)
    requires CStr(s) && i < |s|
    ensures forall j | i <= j < NulAt(s, i) :: s[j] != '\0'
    decreases |s| - i
  {
    if s[i] != '\0' {
      NulAtFirst(s, i + 1);
    }
  }

  /** `memchr(s + i, c, n)`: the index of the first `c` in `s[i..i+n]`, if any. */
  function MemChr(s: seq<char>, i: nat, c: char, n: nat): (r: Option<nat>)
    requires i + n <= |s|
    ensures r.Some? ==> i <= r.value < i + n && s[r.value] == c
    ensures forall j | i <= j < (if r.Some? then r.value else i + n) :: s[j] != c
    decreases n
  {
    if n == 0 then None
    else if s[i] == c then Some(i)
    else MemChr(s, i + 1, c, n - 1)
  }
}
