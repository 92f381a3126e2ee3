# Shell-like tokens and text fields, modelled in Dafny

This project models two small C/C++ text libraries.

`token/token.c` splits a C string into shell-like tokens. Three functions do the work:

- `next_quoted_token` finds the next token. The token may hold single-quoted and double-quoted parts, backslash escapes and escaped newlines. If a quote is never closed, the function sets bit 0 of a status mask.
- `dequote` removes the quotes and escapes of a token in place, shifting the rest of the buffer with `memmove`.
- `next_dequoted_token` combines the two.

`src/libtext.cpp` and `src/libtext.h` read separated fields from a line of text:

- `read` reads one field into a `std::string`, or skips it.
- A variadic `read` reads several fields in turn.
- `next` checks the separator that follows a field.
- `nextline` and `oneline` deal with lines.
- Two `strip` functions remove unwanted characters from both ends of a string.

How the model is organised:

- **C strings** are `seq<char>` whose last element is `'\0'` (`CString.CStr`). A pointer into a string is an index.
- **Scanners** (`strecspn`, `memecspn`, `skip_separators`, `skip_until_separator`, `next_quoted_token`, `read`, `nextline`) are methods with their loops. Each is proved equal to a reference function.
  - For `strecspn`, `memecspn`, `skip_separators`, `skip_until_separator`, `read` and `nextline`, the reference function carries lemmas that characterise it: the first stop, maximality, uniqueness.
  - For `next_quoted_token`, the lemmas give the shape of the result: separators around the token, no terminator inside it, what follows it, and the status. Where a token ends among several quoted parts is shown on example inputs (`TokenExamples`), not by a general first-stop lemma.
- **The in-place dequoter** is modelled on three levels:
  1. `Dequoting.Dq` is a content-level reference definition of what dequoting a token means.
  2. `DequoteBuffer` has functions that follow the pointer code step by step on the whole buffer, each `memmove` included. Stale bytes behind the shrinking end therefore stay visible.
  3. `Dequoter` has array methods with the source's loops, proved equal to level 2.

  `DequoteCorrect.DequoteComputesDq` proves that level 2 computes level 1. `TokenDequote.TokenDequotes` proves that `Dq` accepts every token `next_quoted_token` reads with its quotes closed. Together they give `next_dequoted_token` its result: the buffer holds `Dq` of the token.
- **Failures.** A failed `assert` of the source is `None` in the functions and `ok == false` in the methods. A `memmove` whose `size_t` length wraps around can only happen in `dequote` as written, modelled by the function `DequoteBuffer.DequoteAsWritten`, where it is `None`. The array methods run the corrected `dequote` of the Findings, so the wrap does not arise there.
- **The libtext strings.** A `std::string*` result is an `Option<seq<char>>`: `None` is the null pointer. `strip(std::string*)` returns the new value of the string.

## Model

| member | source | states |
|---|---|---|
| CString.Spn | token/token.c:372 | `strspn` stops at a character outside the accept set, inside the string |
| CString.SpnAccepted | token/token.c:372 | every character `strspn` skips is in the accept set |
| CString.Cspn | token/token.c:126 | `strcspn` stops at the terminator or at a rejected character |
| CString.CspnSkipped | token/token.c:126 | no character `strcspn` skips is the terminator or rejected |
| CString.NulAt | src/libtext.cpp:323 | `strlen` finds a terminator |
| CString.NulAtFirst | src/libtext.cpp:323 | that terminator is the first one |
| CString.MemChr | token/token.c:259 | `memchr` returns the first occurrence in its range, or nothing when none exists |
| EscapeScan.BsRunMaximal | token/token.c:424-439 | the backslash counter `n` is the length of the maximal run of backslashes just before the current character |
| EscapeScan.EscSpanStops | token/token.c:445-475 | the escape-aware span stops only at a terminator, at a rejected backslash, or at a rejected character preceded by an even number of backslashes |
| EscapeScan.EscSpanFirst | token/token.c:445-475 | no earlier index is such a stop |
| EscapeScan.EscSpanUnique | token/token.c:445-475 | the first stop is unique, so any index with both properties is the span |
| EscapeScan.StrEcSpan | token/token.c:416-442 | `strecspn` ends at a stop inside the string |
| EscapeScan.StrEcSpanSkipped | token/token.c:416-442 | no character before the end of `strecspn` is a stop or a terminator |
| EscapeScan.Strecspn | token/token.c:416-442 | the loop returns the first stop, before the terminator |
| EscapeScan.Memecspn | token/token.c:445-475 | the loop, bounded by `slen`, returns the first stop or `slen` |
| EscapeScan.EscapeRejectedIsPlainSpan | token/token.c:411-415 | with a backslash in the reject set, `memecspn` is a plain `strcspn` over the range |
| EscapeScan.StrecspnDegenerates | token/token.c:411-415 | with a backslash in the reject set, `strecspn` equals `strcspn` |
| Separators.SepRunMaximalUnique | token/token.c:364-379 | a maximal run of separators and escaped newlines ends at a unique place |
| Separators.SkipSeps | token/token.c:364-379 | `skip_separators` stops after a run of separators and escaped newlines, on a character that neither continues nor starts one |
| Separators.SkipSeparators | token/token.c:364-379 | the nested loop computes `SkipSeps` |
| Separators.SkipUntilStops | token/token.c:382-409 | `skip_until_separator` stops at the first newline, terminator, or unescaped quote or separator, moved back onto an unescaped backslash before a newline |
| Separators.SkipUntilNoNul | token/token.c:388 | it never passes the terminator |
| Separators.SkipUntilSeparator | token/token.c:382-409 | the loop with its backslash counter computes `SkipUntil` |
| Tokenizer.SetBit0 | token/token.c:130 | `status` OR 1 sets bit 0, keeps every other bit, and leaves an odd status unchanged |
| Tokenizer.Closing | token/token.c:121-161 | the closing quote found after an opening quote is that quote character or the terminator |
| Tokenizer.ClosingSkipped | token/token.c:126 | a quoted part holds no terminator |
| Tokenizer.TokenEndNoNul | token/token.c:110-166 | a token holds no terminator |
| Tokenizer.TokenEndFollower | token/token.c:110-166 | an unterminated token ends at the terminator; any other token ends at the terminator, whitespace or an escaped newline |
| Tokenizer.TokenEndNonEmpty | token/token.c:98-116 | a token starting after the separators is never empty |
| Tokenizer.NextToken | token/token.c:90-177 | the token and the new cursor lie after the old cursor, the token before the cursor |
| Tokenizer.NextTokenShape | token/token.c:90-177 | separators come before the token and between the token and the new cursor; the token starts on neither the terminator, a separator nor an escaped newline, so the separators before it are all of them; with no token there are only separators up to the terminator and the length is 0 |
| Tokenizer.NextTokenStatus | token/token.c:127-153 | the status changes only for an unclosed quote; then bit 0 is set and the cursor is left at the terminator right after the token |
| Tokenizer.NoTokenIffOnlySeparators | token/token.c:97-101 | no token is found exactly when the rest of the input is separators and escaped newlines |
| Tokenizer.ScanPart | token/token.c:110-166 | one turn of the `for(;;)` loop either ends the token where `TokenEnd` does or moves forward without changing where the token ends |
| Tokenizer.NextQuotedToken | token/token.c:90-177 | the method returns exactly the reference `NextToken` |
| Dequoting.TrimTailBlanks | token/token.c:496-499 | the walk back removes only blanks, and stops at a non-blank or at the first character |
| Dequoting.DqDouble | token/token.c:288-351 | a double-quoted part never grows: output plus rest is no longer than output so far plus input |
| Dequoting.DqShorter | token/token.c:179-182 | the dequoted token is never longer than the token |
| DequoteBuffer.MovedAt | token/token.c:264 | `memmove` leaves every byte of the destination equal to the source byte before the call, and every other byte unchanged |
| DequoteBuffer.MovedKept | token/token.c:264 | `memmove` writes only its destination |
| DequoteBuffer.SingleQuoteRemoval | token/token.c:250-274 | removing a single-quoted part drops exactly two characters from what is left |
| DequoteBuffer.WalkForward | token/token.c:503-509 | the forward walk may stop one byte past the end, after reading the byte at the end |
| DequoteBuffer.Collapse | token/token.c:481-521 | the returned position is after the space, not before `beg`, and the part left shrinks |
| DequoteBuffer.DoubleQuoteRemoval | token/token.c:288-351 | the part left after a double-quoted part is strictly shorter than the input |
| DequoteBuffer.DequoteStep | token/token.c:193-234 | each turn of the `dequote` loop keeps the buffer size and shrinks what is left to scan |
| DequoteBuffer.SingleQuoteRemovalFrame | token/token.c:263-269 | single-quote removal writes only inside its substring |
| DequoteBuffer.CollapseFrame | token/token.c:515-518 | collapsing escaped newlines writes only between `beg` and `end` |
| DequoteBuffer.TurnEscaped | token/token.c:324-336 | removing an escaping backslash continues the loop on a buffer changed only inside the part |
| DequoteBuffer.DqLoopFrame | token/token.c:302-346 | the loop of `quote_removal_in_double_quotes` writes only inside the part |
| DequoteBuffer.DoubleQuoteRemovalFrame | token/token.c:288-351 | double-quote removal writes only inside its substring |
| DequoteBuffer.DequoteStepFrame | token/token.c:193-234 | each turn of `dequote` writes only what is left of the token |
| DequoteBuffer.DequoteLoopFrame | token/token.c:191-235 | the loop of `dequote` writes only between the cursor and the end |
| DequoteBuffer.Dequote | token/token.c:183-242 | corrected `dequote`: the token is where it was, its length never grows, and it is NUL-terminated |
| DequoteBuffer.DequoteFrame | token/token.c:183-242 | `dequote` writes only the token and the byte after it |
| DequoteBuffer.DequoteAsWritten | token/token.c:183-242 | `dequote` as written: same shape as the corrected one whenever it succeeds |
| DequoteBuffer.StepAgrees | token/token.c:204-211 | a turn of `dequote` as written that does not wrap is the corrected turn |
| DequoteBuffer.LoopAgrees | token/token.c:191-235 | a loop of `dequote` as written that does not wrap ends where the corrected loop ends |
| DequoteBuffer.AsWrittenAgrees | token/token.c:183-242 | whenever `dequote` as written succeeds, its result is the corrected `dequote`'s |
| DequoteProof.DqScan | token/token.c:304 | with `qe` containing a backslash, `memecspn` finds the first backslash, double quote or NUL |
| DequoteProof.WalkBackKeepLen | token/token.c:497-499 | the buffer's walk back keeps the output without its trailing blanks |
| DequoteProof.WalkForwardGap | token/token.c:503-509 | the buffer's walk forward skips exactly the content's run of blanks and pairs, unless that run ends on a lone last backslash |
| DequoteProof.CollapseClosedForm | token/token.c:481-521 | `collapse_escaped_newlines` writes one space where the trailing blanks began and moves the rest of the token behind it |
| DequoteProof.CollapseComputes | token/token.c:481-521 | after the collapse, the output is the trimmed output plus a space, and the rest is the content after the gap |
| DequoteProof.LoopEnd | token/token.c:305-306 | with no special character left, the whole part is output |
| DequoteProof.LoopQuote | token/token.c:308-316 | the closing quote ends the part and is removed |
| DequoteProof.LoopLone | token/token.c:320-322 | a backslash that is the last character ends the loop and stays |
| DequoteProof.LoopEscaped | token/token.c:324-336 | an escaped backslash or double quote loses its backslash and is kept |
| DequoteProof.LoopCollapse | token/token.c:338-342 | an escaped newline continues the loop after the collapse |
| DequoteProof.LoopKept | token/token.c:344-345 | any other backslash is kept |
| DequoteProof.ContentCollapse | token/token.c:338-342 | the buffer's collapse is `DqDouble`'s collapse; it fails exactly when a lone backslash is left last after the gap |
| DequoteProof.DoubleCollapseFails | token/token.c:503-509 | a gap that ends on a lone last backslash makes the double-quoted part fail |
| DequoteProof.DqLoopComputes | token/token.c:302-346 | whenever `DqDouble` accepts the content, the loop ends with `DqDouble`'s output before the returned position and its rest after it |
| DequoteCorrect.DqSingleCase | token/token.c:196-198 | a single-quoted part is kept as is up to the closing quote; without one the token is refused |
| DequoteCorrect.DqDoubleCase | token/token.c:200-203 | a double-quoted part dequotes by `DqDouble`, then the rest follows |
| DequoteCorrect.DqEscapedNewlineCase | token/token.c:205-211 | an unquoted backslash-newline disappears |
| DequoteCorrect.DqEscapeCase | token/token.c:213-222 | a backslash before one of `'"\` space or tab is removed and the character kept |
| DequoteCorrect.DqLoneBackslashCase | token/token.c:225-229 | any other unquoted backslash is removed |
| DequoteCorrect.DqLastBackslashCase | token/token.c:225-229 | a backslash that ends the token is removed |
| DequoteCorrect.DqPlainCase | token/token.c:230-233 | an ordinary character is kept |
| DequoteCorrect.ClosingQuote | token/token.c:259 | `memchr` finds the first quote after the opening one, or nothing |
| DequoteCorrect.SingleClosed | token/token.c:250-274 | with a closing quote, the quoted characters end up before the returned position and the rest after it; without one the call fails |
| DequoteCorrect.SingleStep | token/token.c:196-199 | the single-quote turn fixes `Dq`'s output and leaves the rest of the token to dequote |
| DequoteCorrect.DoubleStep | token/token.c:200-203 | the double-quote turn fixes `Dq`'s output and leaves the rest of the token to dequote |
| DequoteCorrect.LoopDone | token/token.c:191 | the loop stops when the cursor reaches the end |
| DequoteCorrect.LoopStep | token/token.c:191-235 | a successful turn continues the loop from its result |
| DequoteCorrect.StepComputes | token/token.c:193-234 | each turn either meets content `Dq` refuses, or fixes a prefix `p` so that `Dq(t)` is `p` followed by `Dq` of what is left |
| DequoteCorrect.DequoteLoopComputes | token/token.c:191-235 | on content `Dq` accepts, the loop leaves `Dq(t)` between the start and the final end |
| DequoteCorrect.Terminated | token/token.c:237-239 | `dequote` stores the final length and writes the NUL there |
| DequoteCorrect.DequoteComputesDq | token/token.c:183-242 | corrected `dequote` on a token `Dq` accepts leaves `Dq(token)` NUL-terminated in place, returns its length, and changes no byte outside the token and the one after it |
| DequoteCorrect.AsWrittenComputesDq | token/token.c:183-242 | `dequote` as written, on a token `Dq` accepts and wherever it does not wrap, leaves the same result |
| TokenDequote.GapBefore | token/token.c:503-509 | the run of blanks and escaped newlines stops at or before any double quote |
| TokenDequote.FirstSpecial | token/token.c:302-306 | inside a double-quoted part, the first backslash or double quote lies at or before the closing quote that `strecspn` found, after an even run of backslashes |
| TokenDequote.CollapseFacts | token/token.c:338-342 | an escaped newline inside a double-quoted part is collapsed without reaching the closing quote, and the scan resumes after no backslash |
| TokenDequote.EscapeCloses | token/token.c:318-345 | each backslash case of the double-quote loop pairs its backslash as `strecspn` counted it, and the part still closes at the same quote |
| TokenDequote.DoubleCloses | token/token.c:142-160 | the double-quoted part that `next_quoted_token` skips with `strecspn` is accepted by `DqDouble`, which stops at that same closing quote |
| TokenDequote.DoubleQuotedDq | token/token.c:142-160 | a double-quoted part closed inside the token is accepted when what follows it is |
| TokenDequote.SingleQuotedDq | token/token.c:121-140 | a single-quoted part closed inside the token is accepted when what follows it is |
| TokenDequote.UnquotedDq | token/token.c:110-117 | the unquoted characters `skip_until_separator` passes over are accepted when what follows them is: they hold no newline and no terminator |
| TokenDequote.TokenDequotes | token/token.c:110-166 | every token whose quotes are all closed is accepted by `Dq` |
| TokenDequote.NextTokenDequotes | token/token.c:54-63 | the token `next_dequoted_token` passes to `dequote` (status 0) is accepted by `Dq` and lies before the terminator |
| TokenExamples.AdjacentQuotesOneToken | token/token.c:65-76 | `'a'b'c'` is one token of seven bytes: quoted parts without separators between them make one token |
| TokenExamples.EscapedNewlineEndsToken | token/token.c:110-117 | in `hello\<newline>world` the escaped newline ends the token `hello`, and the cursor moves past it to `world` |
| TokenExamples.SecondTokenAfterNewline | token/token.c:90-177 | the next call reads `world` up to the terminator |
| TokenExamples.QuotedNewlineKeepsToken | token/token.c:142-160 | in `"hello\<newline>world"` the escaped newline neither ends the token nor closes the quote: the whole input is one token |
| Dequoter.Memmove | token/token.c:209 | the copy loops leave the array as `memmove` does, overlap included |
| Dequoter.QuoteRemovalInSingleQuotes | token/token.c:250-274 | the method computes `SingleQuoteRemoval`, failing where an assertion fails |
| Dequoter.WalkBackBlanks | token/token.c:497-499 | the loop computes the walk back |
| Dequoter.WalkForwardPairs | token/token.c:503-509 | the nested loops compute the walk forward |
| Dequoter.CollapseEscapedNewlines | token/token.c:481-521 | the method computes `Collapse` |
| Dequoter.CollapseWalked | token/token.c:496-518 | the collapse written from where the two walks stop; it fails when the walk passes the end |
| Dequoter.QuoteRemovalInDoubleQuotes | token/token.c:288-351 | the method computes `DoubleQuoteRemoval` |
| Dequoter.DoubleQuoteTurn | token/token.c:302-346 | one turn of the `for(;;)` loop either ends the part as `DqLoop` does or continues it on a shorter remainder |
| Dequoter.DoubleQuoteEscape | token/token.c:318-345 | the backslash turn continues `DqLoop` on a shorter remainder |
| Dequoter.DoubleQuoteNewline | token/token.c:338-342 | the escaped-newline turn continues `DqLoop` after the collapse |
| Dequoter.TurnEnd | token/token.c:304-306 | a scan that reaches the end stops the loop |
| Dequoter.TurnQuote | token/token.c:308-316 | the closing quote is removed and the loop stops |
| Dequoter.TurnOther | token/token.c:318-322 | a NUL fails the assertion; a last backslash stops the loop |
| Dequoter.TurnEscapedPair | token/token.c:324-336 | an escaping backslash is removed and the scan resumes after the escaped character |
| Dequoter.TurnCollapse | token/token.c:338-342 | an escaped newline continues from the collapse |
| Dequoter.TurnLone | token/token.c:344-345 | a lone backslash is passed over |
| Dequoter.DequoteInPlace | token/token.c:183-242 | the loop with the bound check computes the corrected `Dequote`, failing exactly when it does |
| Dequoter.Terminate | token/token.c:239 | writing the NUL changes one byte |
| Dequoter.DequoteFinished | token/token.c:237-239 | at the end of the loop the result is the buffer terminated at the end |
| Dequoter.DequoteFailed | token/token.c:191-235 | a failing turn makes `dequote` fail |
| Dequoter.LoopTurn | token/token.c:191-235 | the loop goes on from what a turn leaves |
| Dequoter.DequoteTurn | token/token.c:193-234 | the `switch` computes one `DequoteStep` |
| Dequoter.DequoteBackslash | token/token.c:204-229 | the backslash case computes its `DequoteStep`, which never fails |
| Dequoter.TokenDequoted | token/token.c:54-63 | the corrected `dequote` of a token read with status 0 succeeds and leaves `Dq` of the token, NUL-terminated, changing nothing outside the token and the byte after it |
| Dequoter.NextDequotedToken | token/token.c:54-63 | finds the token as `next_quoted_token` does and ORs its status into the caller's. With the corrected `dequote` (see Findings), a token found with all quotes closed is dequoted in place into `Dq` of the token, NUL-terminated, and the returned length is its length. Otherwise the buffer is unchanged |
| DequoteFinding.TokenIsRead | token/token.c:90-177 | the token of the finding is read whole, with status 0 |
| DequoteFinding.DoubleQuotedPart | token/token.c:288-351 | its double-quoted part stops one byte before the token's end, behind which lies a stale newline |
| DequoteFinding.AsWrittenWraps | token/token.c:204-211 | as written, `dequote` takes the escaped-newline branch on the token's last byte and the `memmove` length wraps |
| DequoteFinding.ContentDequotes | token/token.c:40-51 | the dequoting rules turn the token into one space |
| DequoteFinding.GuardedDequotes | token/token.c:204-211 | with the bound check, `dequote` produces that space, NUL-terminated |
| LibText.IsSepFirstOnly | src/libtext.cpp:27-35 | `issep` looks only at the first character of `sep`, and a blank there matches any blank |
| LibText.SpnBlanks | src/libtext.cpp:79 | skipping `" \t"` stops at a non-blank after blanks only |
| LibText.Next | src/libtext.cpp:45-73 | `next` moves only forward |
| LibText.NextIsStop | src/libtext.cpp:37-73 | where `next` leaves the cursor is an allowed place: end of line after blanks, after a blank separator run, or after one separator and blanks at a character that is neither a separator nor end of line |
| LibText.StopIsNext | src/libtext.cpp:37-73 | every allowed place is where `next` leaves the cursor |
| LibText.NextCharacterized | src/libtext.cpp:37-73 | `next` returns `r` exactly when `r` is an allowed place; it returns null when there is none |
| LibText.WordEnd | src/libtext.cpp:83-84 | the word loop stops at the end of line or a separator |
| LibText.WordEndSkipped | src/libtext.cpp:83-84 | no character in the word is an end of line or a separator |
| LibText.TrimEnd | src/libtext.cpp:92-96 | the walk back stays after the first character of the word |
| LibText.TrimEndBlanks | src/libtext.cpp:92-98 | the walk back stops at a non-blank after blanks only |
| LibText.Field | src/libtext.cpp:75-103 | `read` moves the cursor forward, and stores a result exactly when given one |
| LibText.FieldWord | src/libtext.cpp:75-103 | an empty word fails and leaves the result as it was. Otherwise the stored word is non-empty, starts and ends with a non-blank, sits right after the leading blanks, holds no end of line or separator, and is followed by blanks only up to where `next` takes over |
| LibText.ReadString | src/libtext.cpp:75-103 | the two loops compute `Field` |
| LibText.ReadSkip | src/libtext.cpp:287-291 | `read` with a null `int` skips the field exactly as `read` with a string does, whatever the string held |
| LibText.ReadArg | src/libtext.h:29 | a field read through an argument moves forward, and the argument keeps its kind |
| LibText.ReadAll | src/libtext.h:26-33 | one result per argument; the cursor only moves forward |
| LibText.ReadAllAppend | src/libtext.h:26-33 | reading `a1 + a2` reads `a1`, then `a2` from where `a1` stopped, when that is not the end of the line |
| LibText.ReadAllAppendFails | src/libtext.h:30-31 | if `a1` fails or stops at the end of the line with arguments left, the whole read fails; the later arguments are not touched |
| LibText.OneLine | src/libtext.cpp:299-302 | `oneline` is the longest prefix holding no newline and no NUL |
| LibText.NextLine | src/libtext.cpp:293-297 | `nextline` skips that line and its newline, or stops at the terminator |
| LibText.Lead | src/libtext.cpp:307 | `strspn` of the first `strip` skips a maximal prefix of rejected characters |
| LibText.TrimRight | src/libtext.cpp:310-311 | the trailing loop never goes below the prefix, and stops at a character `strchr` does not find in `reject` |
| LibText.TrimRightDropped | src/libtext.cpp:324-325 | every dropped trailing character is found by `strchr` in `reject` |
| LibText.StripShape | src/libtext.cpp:304-318 | the stripped string is the input minus a rejected prefix and a rejected suffix; it starts and ends with a kept character |
| LibText.StripIdempotent | src/libtext.cpp:304-318 | stripping twice is stripping once |
| LibText.StripString | src/libtext.cpp:304-318 | the loop leaves the string `Strip` describes |
| LibText.StripChars | src/libtext.cpp:320-328 | `strip(char*)` returns the position after the rejected prefix and writes one NUL after the last kept character |
| LibText.LeadInside | src/libtext.cpp:322 | `strspn` on the C string stops where it stops on the string's characters |
| LibText.StripCharsAgrees | src/libtext.cpp:304-328 | both `strip`s agree: the C string left at the returned position is `Strip` of the input |
| LibText.ReadTwoFields | src/libtext.t.cpp:253-256 | `"51,45"` read into two strings gives `51` and `45` and ends at the terminator |
| LibText.ReadTooManyFields | src/libtext.t.cpp:396-398 | more arguments than fields fails |
| LibText.ReadEmptyField | src/libtext.t.cpp:469-472 | an empty field fails; the first field keeps `51` |
| LibText.ReadStopsAtNewline | src/libtext.t.cpp:401-406 | with separator `\n`, the second field is not read and keeps its value |
| LibText.OneLineFirst | src/libtext.t.cpp:996-999 | `oneline("hello\nworld")` is `hello` |
| LibText.StripBlanks | src/libtext.cpp:304-318 | blanks are stripped from both ends |

## Left out

- The `memecspn` call at token/token.c:190 is not modelled. The loop at line 191 resets `s` at once, so its result has no effect.
- The numeric overloads of `read` (src/libtext.cpp:105-285, declared at src/libtext.h:9-19) are not part of this model. `LibText.ReadAll` takes only string and skipped (`int` 0) arguments.
- The `std::cout`/`std::cerr` tracing in `next` and `read` is not modelled.
- A failed `assert`, or a `memmove` whose length wraps around, aborts or corrupts memory in the source. The model makes it a `None` result or `ok == false`, and does not model the abort itself.
- Dequoter.NextDequotedToken: it runs the corrected `dequote`, not the one at token/token.c:61 as written. On the input of the Findings, `dequote` as written wraps a `memmove` length, so the promise proved here does not hold for the code as written. `DequoteCorrect.AsWrittenComputesDq` shows that on every other accepted token the two agree.
- Tokenizer.NextTokenShape: where a token ends is stated by what follows it (`TokenEndFollower`), not as the first unquoted separator. That stronger statement is shown only on the inputs of `TokenExamples`.
- The `std::string` objects are values. `read` and `strip(std::string*)` return the new string rather than writing through the pointer, so aliasing between arguments is not modelled.
- `next_quoted_token`, `skip_separators`, `skip_until_separator`, `strecspn` and `read` work on a `seq<char>` with index cursors rather than on pointers. They only read the string, so nothing about update in place is lost.
- `int` status values are unbounded integers. `SetBit0` is exact for the two's-complement `|= 1` on every value the source can hold.
- src/fstab.cpp, token/example/argv.c and the test drivers are not part of this model. A few of their expectations appear as the example lemmas above.

## Findings

| source | as written | input that shows it | evidently intended | confidence | as-written member | corrected member |
|---|---|---|---|---|---|---|
| token/token.c:205 | `if (s[1] == '\n')` reads the byte after `s` even when `s` is the last byte left of the token. After escaped newlines collapse inside double quotes, that byte is stale. If it is a newline, `memmove (s, s + 2, len - 2)` runs with `len == 1`, so the `size_t` length wraps around | the 7-character token `"\<newline>\<newline>"\` followed by NUL, passed to `next_dequoted_token` (read whole, status 0) | check `s + 1 < end` before testing `s[1]`, so that a last backslash is removed as a lone backslash and the token dequotes to a single space | not executed | DequoteFinding.AsWrittenWraps | DequoteFinding.GuardedDequotes |
