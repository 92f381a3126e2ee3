/** What `dequote` of token/token.c makes of a raw token, stated on the
    token's characters alone: the reference definition that the in-place
    buffer code is proved to compute.  `None` marks a token on which the source
    fails one of its assertions. */
module Dequoting {

  import opened Wrappers
  import opened CString

  /** The characters an unquoted backslash escapes (strchr also matches NUL). */
  const ESCAPABLE: set<char> := {'\'', '"', '\\', ' ', '\t'}

  /** Where memecspn stops inside double quotes: a backslash, a double quote,
      or an embedded NUL. */
  const DQ_SPECIAL: set<char> := {'\0', '\\', '"'}

  /** The blanks that surround collapsed escaped newlines. */
  predicate Blank(c: char)
  {
    c == ' ' || c == '\t'
  }

  /** The first index of `t` holding a character of `chars`, or `|t|`. */
  function FirstOf(t: seq<char>, chars: set<char>): (k: nat)
    ensures k <= |t| && (k < |t| ==> t[k] in chars)
    decreases |t|
  {
    if |t| == 0 || t[0] in chars then 0 else 1 + FirstOf(t[1..], chars)
  }

  lemma {:induction false} FirstOfSkipped(t: seq<char>, chars: set<char>)
    ensures forall j | 0 <= j < FirstOf(t, chars) :: t[j] !in chars
    decreases |t|
  {
    if |t| > 0 && t[0] !in chars {
      FirstOfSkipped(t[1..], chars);
    }
  }

  /** The walk back over blanks at the end of the double-quoted output `o`,
      from `o[q]` down to but excluding `o[0]`: the length that is kept. */
  function KeepLen(o: seq<char>, q: int): (n: nat)
    requires -1 <= q < |o|
    ensures n <= q + 1
    ensures q >= 0 ==> n >= 1
    decreases q + 1
  {
    if 0 < q && Blank(o[q]) then KeepLen(o, q - 1) else q + 1
  }

  /** The output so far with its trailing blanks removed, its first character
      always kept. */
  function TrimTail(o: seq<char>): (r: seq<char>)
  {
    o[..KeepLen(o, |o| - 1)]
  }

  /** Only blanks are removed, and what is kept ends in a non-blank unless it
      is at most one character long. */
  lemma {:induction false} TrimTailBlanks(o: seq<char>, q: int)
    requires -1 <= q < |o|
    ensures forall j | KeepLen(o, q) <= j <= q :: Blank(o[j])
    ensures KeepLen(o, q) <= 1 || !Blank(o[KeepLen(o, q) - 1])
    decreases q + 1
  {
    if 0 < q && Blank(o[q]) {
      TrimTailBlanks(o, q - 1);
    }
  }

  /** The length of the run of blanks and backslash-newline pairs that starts
      `u`. */
  function Gap(u: seq<char>): (n: nat)
    ensures n <= |u|
    decreases |u|
  {
    if |u| > 0 && Blank(u[0]) then 1 + Gap(u[1..])
    else if |u| > 1 && u[0] == '\\' && u[1] == '\n' then 2 + Gap(u[2..])
    else 0
  }

  /** What one double-quoted part yields, and the raw characters left after it. */
  datatype Part = Part(out: seq<char>, rest: seq<char>)

  /** The loop of `quote_removal_in_double_quotes` on the characters `t` that
      follow the opening quote, `o` being the output of this part so far:
      a backslash is removed before a backslash or a double quote, kept before
      anything else, and a backslash-newline pair together with the blanks and
      further pairs around it becomes one space. */
  function DqDouble(t: seq<char>, o: seq<char>): (r: Option<Part>)
    ensures r.Some? ==> |r.value.out| + |r.value.rest| <= |o| + |t|
    decreases |t|, 2
  {
    DqDoubleAt(t, o, FirstOf(t, DQ_SPECIAL))
  }

  /** DqDouble with `k` the first special character of `t`: the characters
      before it are copied to the output. */
  function DqDoubleAt(t: seq<char>, o: seq<char>, k: nat): (r: Option<Part>)
    requires k == FirstOf(t, DQ_SPECIAL)
    ensures r.Some? ==> |r.value.out| + |r.value.rest| <= |o| + |t|
    decreases |t|, 1
  {
    DqSpecial(t, o + t[..k], k)
  }

  /** What the special character `t[k]` does, `o1` being the output up to it. */
  function DqSpecial(t: seq<char>, o1: seq<char>, k: nat): (r: Option<Part>)
    requires k == FirstOf(t, DQ_SPECIAL)
    ensures r.Some? ==> |r.value.out| + |r.value.rest| <= |o1| + |t| - k
    decreases |t|, 0
  {
    if k == |t| then Some(Part(o1, []))
    else if t[k] == '"' then Some(Part(o1, t[k + 1..]))
    else if t[k] != '\\' then None
    else if k + 1 == |t| then Some(Part(o1, t[k..]))
    else if t[k + 1] == '\\' || t[k + 1] == '"' then DqDouble(t[k + 2..], o1 + [t[k + 1]])
    else if t[k + 1] == '\n' then
      var g := k + Gap(t[k..]);
      if g + 1 == |t| && t[g] == '\\' then None
      else DqDouble(t[g..], TrimTail(o1) + [' '])
    else DqDouble(t[k + 1..], o1 + ['\\'])
  }

  /** The dequoted form of the raw token `t`, as the loop of `dequote` builds
      it: single-quoted parts lose their quotes, double-quoted parts are
      handled by DqDouble, an unquoted backslash is removed (together with a
      newline after it), and the character after it is kept as is when it is
      one of ESCAPABLE. */
  function Dq(t: seq<char>): (r: Option<seq<char>>)
    decreases |t|, 1
  {
    if |t| == 0 then Some([])
    else if t[0] == '\'' then DqSingle(t)
    else if t[0] == '"' then DqQuoted(t)
    else if t[0] == '\\' then DqBackslash(t)
    else
      var tail :- Dq(t[1..]);
      Some([t[0]] + tail)
  }

  /** A single-quoted part: everything up to the closing quote is kept as is;
      a part that is never closed is refused. */
  function DqSingle(t: seq<char>): (r: Option<seq<char>>)
    requires |t| > 0 && t[0] == '\''
    decreases |t|, 0
  {
    var c := 1 + FirstOf(t[1..], {'\''});
    if c == |t| then None
    else
      var tail :- Dq(t[c + 1..]);
      Some(t[1..c] + tail)
  }

  /** A double-quoted part, handled by DqDouble; a lone double quote at the
      end of the token is refused. */
  function DqQuoted(t: seq<char>): (r: Option<seq<char>>)
    requires |t| > 0 && t[0] == '"'
    decreases |t|, 0
  {
    if |t| < 2 then None
    else
      var p :- DqDouble(t[1..], []);
      var tail :- Dq(p.rest);
      Some(p.out + tail)
  }

  /** An unquoted backslash: removed together with a newline after it, and
      otherwise removed, the next character being kept as is when it is one
      of ESCAPABLE. */
  function DqBackslash(t: seq<char>): (r: Option<seq<char>>)
    requires |t| > 0 && t[0] == '\\'
    decreases |t|, 0
  {
    if |t| >= 2 && t[1] == '\n' then Dq(t[2..])
    else if |t| >= 2 && StrChr(ESCAPABLE, t[1]) then
      var tail :- Dq(t[2..]);
      Some([t[1]] + tail)
    else Dq(t[1..])
  }

  /** Dequoting never makes a token longer. */
  lemma {:induction false} DqShorter(t: seq<char>)
    ensures Dq(t).Some? ==> |Dq(t).value| <= |t|
    decreases |t|
  {
    if |t| == 0 {
    } else if t[0] == '\'' {
      var c := 1 + FirstOf(t[1..], {'\''});
      if c < |t| {
        DqShorter(t[c + 1..]);
      }
    } else if t[0] == '"' {
      if |t| >= 2 && DqDouble(t[1..], []).Some? {
        DqShorter(DqDouble(t[1..], []).value.rest);
      }
    } else if t[0] == '\\' {
      if |t| >= 2 {
        DqShorter(t[2..]);
      }
      DqShorter(t[1..]);
    } else {
      DqShorter(t[1..]);
    }
  }
}
