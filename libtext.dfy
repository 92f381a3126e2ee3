/** The line and field scanner of src/libtext.cpp and the multi-field `read`
    template of src/libtext.h.  An input is a C string (its last element is
    the terminator), a position is an index into it, and a null pointer result
    is `None`.  A `std::string` is a value: a method that changes one returns
    its new value. */
module LibText {

  import opened Wrappers
  import opened CString

  /** The blanks that `strspn(input, " \t")` skips. */
  const BLANKS: set<char> := {' ', '\t'}

  /** The newline, the only character `oneline` and `nextline` look for. */
  const NEWLINE: set<char> := {'\n'}

  /** `eol`: the end of the line or of the string. */
  predicate Eol(c: char)
  {
    c == '\0' || c == '\n'
  }

  /** `ws`: a space or a tab. */
  predicate Ws(c: char)
  {
    c == ' ' || c == '\t'
  }

  /** `issep(input, sep)`: only the first character of `sep` counts, and a
      blank there matches any blank. */
  predicate IsSep(c: char, sep: seq<char>)
    requires |sep| > 0
  {
    if Ws(sep[0]) then Ws(c) else c == sep[0]
  }

  /** `issep` never looks past the first character of `sep`. */
  lemma IsSepFirstOnly(c: char, sep1: seq<char>, sep2: seq<char>)
    requires |sep1| > 0 && |sep2| > 0
    requires sep1[0] == sep2[0] || (Ws(sep1[0]) && Ws(sep2[0]))
    ensures IsSep(c, sep1) == IsSep(c, sep2)
    ensures IsSep(c, sep1) <==> (Ws(sep1[0]) && Ws(c)) || (!Ws(sep1[0]) && c == sep1[0])
  {
  }

  /** Every character of `s[i..j]` is a blank. */
  predicate Blanks(s: seq<char>, i: nat, j: nat)
    requires i <= j <= |s|
  {
    forall m | i <= m < j :: Ws(s[m])
  }

  lemma SpnBlanks(s: seq<char>, i: nat)
    requires CStr(s) && i < |s|
    ensures var j := Spn(s, i, BLANKS); Blanks(s, i, j) && !Ws(s[j])
  {
    SpnAccepted(s, i, BLANKS);
  }

  /** `next(input, sep)`: expects the separator after optional blanks (a
      blank separator stands for the blanks themselves), and refuses a
      separator that another one or the end of the line follows. */
  function Next(s: seq<char>, i: nat, sep: seq<char>): (r: Option<nat>)
    requires CStr(s) && i < |s| && CStr(sep)
    ensures r.Some? ==> i <= r.value < |s|
  {
    var j := if Ws(sep[0]) then i else Spn(s, i, BLANKS);
    if Eol(s[j]) then Some(j)
    else if !IsSep(s[j], sep) then None
    else
      var k := Spn(s, j + 1, BLANKS);
      if Ws(sep[0]) then Some(k)
      else if IsSep(s[k], sep) || Eol(s[k]) then None
      else Some(k)
  }

  /** Where `next` may leave the cursor `r`: at the end of the line after
      blanks only; after a run of blanks, when the separator is blank; or
      after blanks, one separator and blanks again, at a character that is
      neither a separator nor the end of the line. */
  predicate NextStop(s: seq<char>, i: nat, sep: seq<char>, r: nat)
    requires i <= r < |s| && |sep| > 0
  {
    || (Blanks(s, i, r) && Eol(s[r]))
    || (Ws(sep[0]) && i < r && Blanks(s, i, r) && !Ws(s[r]))
    || (&& !Ws(sep[0]) && !Ws(s[r]) && !Eol(s[r]) && s[r] != sep[0]
        && exists m | i <= m < r :: && Blanks(s, i, m) && s[m] == sep[0] && !Eol(s[m])
                                     && Blanks(s, m + 1, r))
  }

  lemma NextIsStop(s: seq<char>, i: nat, sep: seq<char>)
    requires CStr(s) && i < |s| && CStr(sep)
    ensures Next(s, i, sep).Some? ==> NextStop(s, i, sep, Next(s, i, sep).value)
  {
    var j := Spn(s, i, BLANKS);
    SpnBlanks(s, i);
    if !Eol(s[j]) && !Ws(sep[0]) && s[j] == sep[0] {
      SpnBlanks(s, j + 1);
    }
    if Ws(sep[0]) && Ws(s[i]) {
      SpnBlanks(s, i + 1);
    }
  }

  lemma StopIsNext(s: seq<char>, i: nat, sep: seq<char>, r: nat)
    requires CStr(s) && i <= r < |s| && CStr(sep)
    requires NextStop(s, i, sep, r)
    ensures Next(s, i, sep) == Some(r)
  {
    SpnBlanks(s, i);
    if Ws(sep[0]) && Ws(s[i]) {
      SpnBlanks(s, i + 1);
    }
    if !Ws(sep[0]) && !(Blanks(s, i, r) && Eol(s[r])) {
      var m :| i <= m < r && Blanks(s, i, m) && s[m] == sep[0] && !Eol(s[m]) && Blanks(s, m + 1, r);
      SpnBlanks(s, m + 1);
    }
  }

  /** `next` leaves the cursor at `r` exactly when `r` is such a place; in
      particular it returns a null pointer when there is none. */
  lemma NextCharacterized(s: seq<char>, i: nat, sep: seq<char>, r: nat)
    requires CStr(s) && i <= r < |s| && CStr(sep)
    ensures Next(s, i, sep) == Some(r) <==> NextStop(s, i, sep, r)
  {
    NextIsStop(s, i, sep);
    if NextStop(s, i, sep, r) {
      StopIsNext(s, i, sep, r);
    }
  }

  /** Where the word loop of `read` stops: the first end of line or
      separator at or after `i`. */
  function WordEnd(s: seq<char>, i: nat, sep: seq<char>): (k: nat)
    requires CStr(s) && i < |s| && CStr(sep)
    ensures i <= k < |s| && (Eol(s[k]) || IsSep(s[k], sep))
    decreases |s| - i
  {
    if Eol(s[i]) || IsSep(s[i], sep) then i else WordEnd(s, i + 1, sep)
  }

  lemma {:induction false} WordEndSkipped(s: seq<char>, i: nat, sep: seq<char>)
    requires CStr(s) && i < |s| && CStr(sep)
    ensures forall j | i <= j < WordEnd(s, i, sep) :: !Eol(s[j]) && !IsSep(s[j], sep)
    decreases |s| - i
  {
    if !Eol(s[i]) && !IsSep(s[i], sep) {
      WordEndSkipped(s, i + 1, sep);
    }
  }

  /** The walk back of `read` over the blanks before `k`: the index just
      after the last non-blank of `s[i..k]`, whose first character is not a
      blank. */
  function TrimEnd(s: seq<char>, i: nat, k: nat): (p: nat)
    requires i < k <= |s| && !Ws(s[i])
    ensures i < p <= k
    decreases k
  {
    if Ws(s[k - 1]) then TrimEnd(s, i, k - 1) else k
  }

  lemma {:induction false} TrimEndBlanks(s: seq<char>, i: nat, k: nat)
    requires i < k <= |s| && !Ws(s[i])
    ensures var p := TrimEnd(s, i, k); !Ws(s[p - 1]) && Blanks(s, p, k)
    decreases k
  {
    if Ws(s[k - 1]) {
      TrimEndBlanks(s, i, k - 1);
    }
  }

  /** What `read(input, sep, result)` returns and what it leaves in the
      string `result` points to (`None` for a null `result`). */
  datatype Read = Read(rest: Option<nat>, result: Option<seq<char>>)

  /** `read(input, sep, std::string* result)`: skips blanks, reads a word up
      to the end of the line or a separator, stores it with its trailing
      blanks trimmed, then expects a separator with `next`; nothing read
      leaves `result` as it was. */
  function Field(s: seq<char>, input: nat, sep: seq<char>, result: Option<seq<char>>): (r: Read)
    requires CStr(s) && input < |s| && CStr(sep)
    ensures r.rest.Some? ==> input < r.rest.value < |s|
    ensures result.None? <==> r.result.None?
  {
    var i := Spn(s, input, BLANKS);
    var k := WordEnd(s, i, sep);
    if k == i then Read(None, result)
    else Read(Next(s, k, sep), if result.None? then None else Some(s[i..TrimEnd(s, i, k)]))
  }

  /** The word `read` stores: not empty, starting and ending with a
      non-blank, right after the leading blanks, with no end of line and no
      separator in it, and followed by blanks only up to where `next` takes
      over; nothing stored means that the word was empty. */
  lemma FieldWord(s: seq<char>, input: nat, sep: seq<char>, old_: seq<char>)
    requires CStr(s) && input < |s| && CStr(sep)
    ensures var i := Spn(s, input, BLANKS);
      var k := WordEnd(s, i, sep);
      var r := Field(s, input, sep, Some(old_));
      && (k == i <==> r.rest.None? && r.result == Some(old_) && (Eol(s[i]) || IsSep(s[i], sep)))
      && (k > i ==>
            var w := r.result.value;
            && |w| > 0 && !Ws(w[0]) && !Ws(w[|w| - 1])
            && w == s[i..i + |w|] && Blanks(s, input, i) && Blanks(s, i + |w|, k)
            && (forall c | c in w :: !Eol(c) && !IsSep(c, sep))
            && r.rest == Next(s, k, sep))
  {
    var i := Spn(s, input, BLANKS);
    var k := WordEnd(s, i, sep);
    SpnBlanks(s, input);
    WordEndSkipped(s, i, sep);
    if k > i {
      TrimEndBlanks(s, i, k);
      var w := s[i..TrimEnd(s, i, k)];
      forall c | c in w
        ensures !Eol(c) && !IsSep(c, sep)
      {
        var m :| 0 <= m < |w| && w[m] == c;
        assert c == s[i + m];
      }
    }
  }

  /** `read(input, sep, std::string* result)` with its two loops. */
  method ReadString(s: seq<char>, input: nat, sep: seq<char>, result: Option<seq<char>>) returns (r: Read)
    requires CStr(s) && input < |s| && CStr(sep)
    ensures r == Field(s, input, sep, result)
  {
    var i := Spn(s, input, BLANKS);
    var k := i;
    while !Eol(s[k]) && !IsSep(s[k], sep)
      invariant i <= k < |s| && WordEnd(s, k, sep) == WordEnd(s, i, sep)
      decreases |s| - k
    {
      k := k + 1;
    }
    if k == i {
      return Read(None, result);
    }
    var stored := None;
    if result.Some? {
      var p := k - 1;
      while Ws(s[p])
        invariant i <= p < k && TrimEnd(s, i, p + 1) == TrimEnd(s, i, k)
        decreases p
      {
        p := p - 1;
      }
      stored := Some(s[i..p + 1]);
    }
    r := Read(Next(s, k, sep), stored);
  }

  /** `read(input, sep, int result)` with `result == 0`: skips one field as
      `read` with a null string pointer does. */
  method ReadSkip(s: seq<char>, input: nat, sep: seq<char>, result: int) returns (r: Option<nat>)
    requires CStr(s) && input < |s| && CStr(sep) && result == 0
    ensures r == Field(s, input, sep, None).rest
    ensures forall v: seq<char> :: r == Field(s, input, sep, Some(v)).rest
  {
    var f := ReadString(s, input, sep, None);
    r := f.rest;
  }

  /** One argument of the multi-field `read`: a string to read into (`None`
      for a null pointer) or the `0` that skips a field. */
  datatype Arg = Text(value: Option<seq<char>>) | Skip

  /** The per-field `read` that an argument selects, and the argument as it
      is after the call. */
  function ReadArg(s: seq<char>, input: nat, sep: seq<char>, a: Arg): (r: (Option<nat>, Arg))
    requires CStr(s) && input < |s| && CStr(sep)
    ensures r.0.Some? ==> input < r.0.value < |s|
    ensures a.Skip? <==> r.1.Skip?
  {
    match a
    case Text(v) =>
      var f := Field(s, input, sep, v);
      (f.rest, Text(f.result))
    case Skip =>
      (Field(s, input, sep, None).rest, Skip)
  }

  /** What the multi-field `read` returns, and its arguments after the call. */
  datatype Fields = Fields(rest: Option<nat>, args: seq<Arg>)

  /** `read(input, sep, result, u...)` of src/libtext.h: reads the first
      field, and the others from where it stopped, unless it failed or
      stopped at the end of the line. */
  function ReadAll(s: seq<char>, input: nat, sep: seq<char>, args: seq<Arg>): (r: Fields)
    requires CStr(s) && input < |s| && CStr(sep) && |args| > 0
    ensures |r.args| == |args|
    ensures r.rest.Some? ==> input < r.rest.value < |s|
    decreases |args|
  {
    var (p, a) := ReadArg(s, input, sep, args[0]);
    if |args| == 1 then Fields(p, [a])
    else if p.None? || Eol(s[p.value]) then Fields(None, [a] + args[1..])
    else
      var r := ReadAll(s, p.value, sep, args[1..]);
      Fields(r.rest, [a] + r.args)
  }

  /** Reading the arguments `a1 + a2` reads `a1` first and then `a2` from
      where `a1` stopped, when `a1` stops before the end of the line. */
  lemma {:induction false} ReadAllAppend(s: seq<char>, input: nat, sep: seq<char>, a1: seq<Arg>, a2: seq<Arg>)
    requires CStr(s) && input < |s| && CStr(sep) && |a1| > 0 && |a2| > 0
    requires var r1 := ReadAll(s, input, sep, a1); r1.rest.Some? && !Eol(s[r1.rest.value])
    ensures var r1 := ReadAll(s, input, sep, a1);
      var r2 := ReadAll(s, r1.rest.value, sep, a2);
      ReadAll(s, input, sep, a1 + a2) == Fields(r2.rest, r1.args + r2.args)
    decreases |a1|
  {
    var (p, a) := ReadArg(s, input, sep, a1[0]);
    AppendSplit(a1, a2);
    if |a1| > 1 {
      ReadAllAppend(s, p.value, sep, a1[1..], a2);
      var r1 := ReadAll(s, p.value, sep, a1[1..]);
      var r2 := ReadAll(s, r1.rest.value, sep, a2);
      ConsAssoc(a, r1.args, r2.args);
    }
  }

  lemma AppendSplit(a1: seq<Arg>, a2: seq<Arg>)
    requires |a1| > 0
    ensures (a1 + a2)[0] == a1[0] && (a1 + a2)[1..] == a1[1..] + a2
  {
  }

  lemma ConsAssoc(a: Arg, x: seq<Arg>, y: seq<Arg>)
    ensures [a] + (x + y) == ([a] + x) + y
  {
  }

  /** If the arguments `a1` fail, or stop at the end of the line while the
      arguments `a2` are left, the whole read fails: the arguments of `a2`
      are not touched and those of `a1` keep what was read into them. */
  lemma {:induction false} ReadAllAppendFails(s: seq<char>, input: nat, sep: seq<char>, a1: seq<Arg>, a2: seq<Arg>)
    requires CStr(s) && input < |s| && CStr(sep) && |a1| > 0 && |a2| > 0
    requires var r1 := ReadAll(s, input, sep, a1); r1.rest.None? || Eol(s[r1.rest.value])
    ensures ReadAll(s, input, sep, a1 + a2) == Fields(None, ReadAll(s, input, sep, a1).args + a2)
    decreases |a1|
  {
    var (p, a) := ReadArg(s, input, sep, a1[0]);
    AppendSplit(a1, a2);
    if |a1| > 1 {
      if p.Some? && !Eol(s[p.value]) {
        ReadAllAppendFails(s, p.value, sep, a1[1..], a2);
        var r1 := ReadAll(s, p.value, sep, a1[1..]);
        ConsAssoc(a, r1.args, a2);
      } else {
        ConsAssoc(a, a1[1..], a2);
      }
    }
  }

  /** `oneline(input)`: the characters of the line at `input`, without its
      newline. */
  function OneLine(s: seq<char>, input: nat): (line: seq<char>)
    requires CStr(s) && input < |s|
    ensures input + |line| < |s| && line == s[input..input + |line|]
    ensures forall c | c in line :: c != '\n' && c != '\0'
    ensures s[input + |line|] == '\n' || s[input + |line|] == '\0'
  {
    var e := Cspn(s, input, NEWLINE);
    CspnSkipped(s, input, NEWLINE);
    assert forall c | c in s[input..e] :: c != '\n' && c != '\0' by {
      forall c | c in s[input..e]
        ensures c != '\n' && c != '\0'
      {
        var m :| 0 <= m < e - input && s[input..e][m] == c;
        assert c == s[input + m];
      }
    }
    s[input..e]
  }

  /** `nextline(input)`: the position just after the first newline, or the
      terminator when the string has no newline left; in both cases the
      line `oneline` returns is skipped. */
  method NextLine(s: seq<char>, input: nat) returns (r: nat)
    requires CStr(s) && input < |s|
    ensures var line := OneLine(s, input);
      && (s[input + |line|] == '\n' ==> r == input + |line| + 1)
      && (s[input + |line|] == '\0' ==> r == input + |line|)
    ensures input <= r < |s| && (r == input || s[r - 1] == '\n' || s[r] == '\0')
  {
    ghost var line := OneLine(s, input);
    r := input;
    while s[r] != '\0'
      invariant input <= r <= input + |line|
      invariant r < input + |line| ==> s[r] == line[r - input] && line[r - input] in line
      decreases |s| - r
    {
      var c := s[r];
      r := r + 1;
      if c == '\n' {
        break;
      }
    }
  }

  /** What `strspn(r.c_str(), reject)` of the first `strip` skips: it stops
      at an embedded NUL, as at the terminator. */
  function Lead(r: seq<char>, reject: set<char>): (k: nat)
    requires '\0' !in reject
    ensures k <= |r| && (forall j | 0 <= j < k :: r[j] in reject) && (k < |r| ==> r[k] !in reject)
  {
    var c := r + ['\0'];
    SpnAccepted(c, 0, reject);
    assert forall j | 0 <= j < |r| :: c[j] == r[j];
    Spn(c, 0, reject)
  }

  /** The length left by the trailing loop of both `strip`s: characters that
      `strchr(reject, ...)` finds (NUL among them) are dropped from the end,
      never below `lo`. */
  function TrimRight(s: seq<char>, lo: nat, len: nat, reject: set<char>): (e: nat)
    requires lo <= len <= |s|
    ensures lo <= e <= len && (e > lo ==> !StrChr(reject, s[e - 1]))
    decreases len
  {
    if len > lo && StrChr(reject, s[len - 1]) then TrimRight(s, lo, len - 1, reject) else len
  }

  lemma {:induction false} TrimRightDropped(s: seq<char>, lo: nat, len: nat, reject: set<char>)
    requires lo <= len <= |s|
    ensures forall j | TrimRight(s, lo, len, reject) <= j < len :: StrChr(reject, s[j])
    decreases len
  {
    if len > lo && StrChr(reject, s[len - 1]) {
      TrimRightDropped(s, lo, len - 1, reject);
    }
  }

  /** `strip(std::string* input, reject)`: the string without its leading
      and trailing characters from `reject`. */
  function Strip(r: seq<char>, reject: set<char>): (t: seq<char>)
    requires '\0' !in reject
  {
    var k := Lead(r, reject);
    r[k..TrimRight(r, k, |r|, reject)]
  }

  /** The stripped string is the part of the input between a prefix of
      characters from `reject` and a suffix of characters that `strchr`
      finds in `reject`; it starts and ends with characters that are not
      stripped. */
  lemma StripShape(r: seq<char>, reject: set<char>) returns (k: nat, e: nat)
    requires '\0' !in reject
    ensures k <= e <= |r| && Strip(r, reject) == r[k..e]
    ensures forall j | 0 <= j < k :: r[j] in reject
    ensures forall j | e <= j < |r| :: StrChr(reject, r[j])
    ensures k < e ==> r[k] !in reject && !StrChr(reject, r[e - 1])
  {
    k := Lead(r, reject);
    e := TrimRight(r, k, |r|, reject);
    TrimRightDropped(r, k, |r|, reject);
  }

  /** Stripping twice strips nothing more. */
  lemma StripIdempotent(r: seq<char>, reject: set<char>)
    requires '\0' !in reject
    ensures Strip(Strip(r, reject), reject) == Strip(r, reject)
  {
    var k, e := StripShape(r, reject);
    var t := r[k..e];
    if |t| > 0 {
      assert t[0] !in reject;
      assert Lead(t, reject) == 0;
      assert TrimRight(t, 0, |t|, reject) == |t|;
      assert t[0..|t|] == t;
    }
  }

  /** `strip(std::string* input, reject)` with its decrementing loop; returns
      the new value of the string. */
  method StripString(r: seq<char>, reject: set<char>) returns (t: seq<char>)
    requires '\0' !in reject
    ensures t == Strip(r, reject)
  {
    var k := Spn(r + ['\0'], 0, reject);
    var len := |r|;
    while len - k != 0 && StrChr(reject, r[len - 1])
      invariant k <= len <= |r|
      invariant TrimRight(r, k, len, reject) == TrimRight(r, k, |r|, reject)
    {
      len := len - 1;
    }
    if k != 0 {
      t := r[k..len];
    } else {
      t := r[..len];
    }
  }

  /** `strip(char* input, reject)`: skips the leading characters from
      `reject`, drops the trailing ones by writing a NUL at the new end, and
      returns the new start. */
  method StripChars(a: array<char>, input: nat, reject: set<char>) returns (r: nat)
    requires CStr(a[..]) && input < a.Length && '\0' !in reject
    modifies a
    ensures var s := old(a[..]);
      && r == Spn(s, input, reject)
      && a[..] == s[TrimRight(s, r, NulAt(s, r), reject) := '\0']
  {
    r := Spn(a[..], input, reject);
    var len: nat := NulAt(a[..], r) - r;
    while len != 0 && StrChr(reject, a[r + len - 1])
      invariant r + len <= NulAt(a[..], r)
      invariant TrimRight(a[..], r, r + len, reject) == TrimRight(a[..], r, NulAt(a[..], r), reject)
    {
      len := len - 1;
    }
    a[r + len] := '\0';
  }

  /** Where `strspn` stops in a C string is where it stops in the string's
      characters followed by a single terminator. */
  lemma {:induction false} SpnInside(s: seq<char>, i: nat, j: nat, reject: set<char>)
    requires CStr(s) && i < |s| && i <= j <= NulAt(s, i) && '\0' !in reject
    requires forall m | i <= m < j :: s[m] in reject
    ensures var c := s[i..NulAt(s, i)] + ['\0'];
      Spn(c, j - i, reject) + i == Spn(s, j, reject)
    decreases NulAt(s, i) - j
  {
    var z := NulAt(s, i);
    var c := s[i..z] + ['\0'];
    NulAtFirst(s, i);
    assert c[j - i] == s[j];
    if j < z && s[j] in reject {
      SpnInside(s, i, j + 1, reject);
    }
  }

  /** `strspn` of `strip(char*)` stops inside the C string, at the place
      the `strspn` of `strip(std::string*)` finds in its characters. */
  lemma LeadInside(s: seq<char>, input: nat, reject: set<char>)
    requires CStr(s) && input < |s| && '\0' !in reject
    ensures var z := NulAt(s, input); var r := Spn(s, input, reject);
      && input <= r <= z && NulAt(s, r) == z
      && Lead(s[input..z], reject) + input == r
  {
    var z := NulAt(s, input);
    var r := Spn(s, input, reject);
    NulAtFirst(s, input);
    SpnAccepted(s, input, reject);
    NulAtFirst(s, r);
    SpnInside(s, input, input, reject);
  }

  lemma {:induction false} TrimRightInside(s: seq<char>, i: nat, n: nat, lo: nat, len: nat, reject: set<char>)
    requires i <= lo <= len <= n <= |s|
    ensures TrimRight(s[i..n], lo - i, len - i, reject) + i == TrimRight(s, lo, len, reject)
    decreases len
  {
    if len > lo {
      assert s[i..n][len - i - 1] == s[len - 1];
      TrimRightInside(s, i, n, lo, len - 1, reject);
    }
  }

  /** Both `strip`s agree: the C string that `strip(char*)` leaves at the
      position it returns is what `strip(std::string*)` makes of the C
      string it was given, and the NUL is written at its end. */
  lemma StripCharsAgrees(s: seq<char>, input: nat, reject: set<char>)
    requires CStr(s) && input < |s| && '\0' !in reject
    ensures var r := Spn(s, input, reject);
      var e := TrimRight(s, r, NulAt(s, r), reject);
      var z := NulAt(s, input);
      && input <= r <= e <= z
      && s[e := '\0'][r..e] == Strip(s[input..z], reject)
  {
    var z := NulAt(s, input);
    var r := Spn(s, input, reject);
    LeadInside(s, input, reject);
    TrimRightInside(s, input, z, r, z, reject);
    var e := TrimRight(s, r, z, reject);
    StripSlice(s, input, z, r, e, reject);
    assert s[e := '\0'][r..e] == s[r..e];
  }

  lemma StripSlice(s: seq<char>, input: nat, z: nat, r: nat, e: nat, reject: set<char>)
    requires input <= r <= e <= z <= |s| && '\0' !in reject
    requires Lead(s[input..z], reject) + input == r
    requires TrimRight(s[input..z], r - input, z - input, reject) + input == e
    ensures Strip(s[input..z], reject) == s[r..e]
  {
    SliceOfSlice(s, input, z, r, e);
  }

  lemma SliceOfSlice(s: seq<char>, i: nat, z: nat, lo: nat, hi: nat)
    requires i <= lo <= hi <= z <= |s|
    ensures s[i..z][lo - i..hi - i] == s[lo..hi]
  {
    assert forall k | lo <= k < hi :: s[i..z][lo - i..hi - i][k - lo] == s[k];
  }

  /** Two fields separated by a comma, read into two strings: the
      cursor ends on the terminator. */
  lemma ReadTwoFields()
    ensures ReadAll("51,45\0", 0, ",\0", [Text(Some("")), Text(Some(""))])
         == Fields(Some(5), [Text(Some("51")), Text(Some("45"))])
  {
    var s := "51,45\0";
    assert Spn(s, 0, BLANKS) == 0 && WordEnd(s, 0, ",\0") == 2 && TrimEnd(s, 0, 2) == 2;
    assert Spn(s, 2, BLANKS) == 2 && Spn(s, 3, BLANKS) == 3 && Next(s, 2, ",\0") == Some(3);
    assert Spn(s, 3, BLANKS) == 3 && WordEnd(s, 3, ",\0") == 5 && TrimEnd(s, 3, 5) == 5;
    assert Spn(s, 5, BLANKS) == 5 && Next(s, 5, ",\0") == Some(5);
    assert s[0..2] == "51" && s[3..5] == "45";
    assert Field(s, 0, ",\0", Some("")) == Read(Some(3), Some("51"));
    assert Field(s, 3, ",\0", Some("")) == Read(Some(5), Some("45"));
    assert ReadAll(s, 3, ",\0", [Text(Some(""))]) == Fields(Some(5), [Text(Some("45"))]);
  }

  /** More arguments than fields: the read fails once the fields run out. */
  lemma ReadTooManyFields()
    ensures ReadAll("51,45\0", 0, ",\0", [Skip, Skip, Skip]) == Fields(None, [Skip, Skip, Skip])
  {
    var s := "51,45\0";
    assert WordEnd(s, 0, ",\0") == 2 && Next(s, 2, ",\0") == Some(3);
    assert WordEnd(s, 3, ",\0") == 5 && Next(s, 5, ",\0") == Some(5);
  }

  /** An empty field between two separators fails the read; the field
      before it keeps what was read. */
  lemma ReadEmptyField()
    ensures ReadAll("51,,45\0", 0, ",\0", [Text(Some("")), Text(Some(""))])
         == Fields(None, [Text(Some("51")), Text(Some(""))])
  {
    var s := "51,,45\0";
    assert WordEnd(s, 0, ",\0") == 2 && TrimEnd(s, 0, 2) == 2;
    assert Spn(s, 2, BLANKS) == 2 && Spn(s, 3, BLANKS) == 3 && Next(s, 2, ",\0") == None;
    assert s[0..2] == "51";
    assert Field(s, 0, ",\0", Some("")) == Read(None, Some("51"));
  }

  /** A newline ends the fields: a second field on the next line is not
      read. */
  lemma ReadStopsAtNewline()
    ensures ReadAll("51\n45\0", 0, "\n\0", [Text(Some("")), Text(Some(""))])
         == Fields(None, [Text(Some("51")), Text(Some(""))])
  {
    var s := "51\n45\0";
    assert WordEnd(s, 0, "\n\0") == 2 && TrimEnd(s, 0, 2) == 2;
    assert Spn(s, 2, BLANKS) == 2 && Next(s, 2, "\n\0") == Some(2);
    assert s[0..2] == "51";
    assert Field(s, 0, "\n\0", Some("")) == Read(Some(2), Some("51"));
  }

  /** `oneline` of two lines is the first one. */
  lemma OneLineFirst()
    ensures OneLine("hello\nworld\0", 0) == "hello"
  {
    var s := "hello\nworld\0";
    assert Cspn(s, 0, NEWLINE) == 5;
  }

  /** Blanks and the trailing terminator are stripped from both ends. */
  lemma StripBlanks()
    ensures Strip(" a b\t", BLANKS) == "a b"
  {
    var r := " a b\t";
    assert Spn(r + ['\0'], 0, BLANKS) == 1;
    assert TrimRight(r, 1, 5, BLANKS) == 4;
  }
}
