# Regular expressions of regexp.h

`usr/src/head/regexp.h` is a regular-expression package in one header. `compile` turns a
pattern into byte code in a buffer of the caller, in one pass, patching opcodes it has
already written. `step` looks for the leftmost place where the code matches a text, and
`advance` interprets the code by backtracking, with captures and back-references kept in
global arrays that are never restored when a branch fails.

This project models the two halves and proves that together they do what the pattern says.

* **Programs.** `Program` has the item list a program stands for and its byte code,
  `Bitmaps` the class maps, `ByteCode` where items stand in the code and what each opcode
  tests, `Decoder` the way back from bytes to items.
* **Meaning.** `Semantics` says what a program matches: a *derivation* gives each item a
  repetition count, `Exec` replays it. `Search` is the order in which `advance` tries
  counts, written without state; it is proved to find the lexicographically greatest
  derivation or none.
* **Interpreter.** `Interpreter` and the class `RegexpH.Regexp` follow `advance`, `step`
  and `getrnge` loop by loop, on the byte code and on the globals, and are proved equal to
  `Search` although failed branches leave their captures behind.
* **Patterns.** `Pattern` is the grammar: tokens, their spelling, where each is legal, the
  items they stand for. `Lexer` reads a pattern token by token with all its error codes;
  `Grammar` proves that reading and spelling are inverse, and `Errors` says of each code
  which text raises it.
* **What a pattern matches.** `Meaning` says it of tokens and positions in the text alone,
  without items, code, counts or capture arrays: what each token takes, how often, which
  bracket ends which group, which of all runs is to be found. `Units` and `Refinement`
  prove that the program does exactly this.
* **Compiler.** `Emitter`, `Assembly` and `RegexpH.Regexp.Compile` follow `compile`,
  including the patches through `lastep`, the bracket stack and the buffer checks.
  `Overrun` says exactly when a byte is stored behind the buffer, and which.
* **Whole.** `Fragment` says exactly which accepted patterns the matcher can run and
  `Necessity` what goes wrong with the others, `Divergence` exactly which programs can
  make it loop for ever, `Matching` joins `compile` and `step`, `Corollaries` draws
  consequences, `Instances` has the patterns for which the plain expectation fails.

Conventions: a byte is a number from 0 to 255 and a text is the bytes before its NUL.
Pointers into the text are indices, a null pointer is -1. GETC, PEEKC and UNGETC move a
cursor over a NUL-free pattern and deliver 0 for ever behind its end. ERROR(n) and
RETURN(ep) are the two results of `compile`. A call that does not return is a third
answer, `Diverges`, next to 0 and 1. The counted loops that the interval opcodes share, and
those the starred ones share, appear once each; the opcode selects the test.

## Findings

* `\(\(a\)\1\)` is accepted although `\1` stands inside the group it names: the check
  compares with the number of closed groups only. On the text "a" the search succeeds when
  braelist[0] was left at 0 and fails when it was left at 1 (`Instances.NestedReference`).
  What a back-reference reads is determined by the run exactly when the reference is not
  enclosed by its own group (`Necessity.BacksDetermined`, `Fragment.BacksStep`).
* An interval after a group or a back-reference, or a second interval, yields code that
  does not read back; `Decoder.DecodeIff` is the exact condition. The code of
  `\(a\)\{2\}` contains an opcode that is none (`Instances.IntervalAfterGroup`), and that
  of `a\{2\}\{8\}` reads as `a\{2\}` followed by two dots (`Instances.SecondInterval`).
  These patterns, the nested references, and a lone backslash at the end, which becomes a
  literal NUL, are outside the fragment of the matching theorems.
  `Necessity.FragmentExact` shows that nothing else is: an accepted pattern is in the
  fragment if and only if its code reads back, no item accepts the NUL that ends the text,
  and its back-references are determined.
* `\k*` loops for ever when the capture is empty. For a given text `Semantics.NeverIff` is
  the exact condition: some counts lead to a starred back-reference with an empty capture,
  and no derivation comes up before them. Some text leads there exactly when a starred
  back-reference that can be reached names a group whose shortest text is empty
  (`Divergence.DivergesIff`). With `\(a*\)\1*` the call does not return on the empty text
  and returns 1 on "a" (`Instances.StarredEmptyGroup`).
* The main loop checks for one free byte and then may write two. So the byte at `endbuf`,
  which is behind the array where a caller passes the end of its buffer as
  usr/src/ucbcmd/expr/expr.y:305 does, is written before ERROR(50): for `ab` and three
  bytes of room it becomes `b` (`Instances.CompileTwoLetters`). `Overrun.OverrunIff` is the
  exact condition, and the byte; a program that fits is never written over the end
  (`Overrun.FitsInside`).

## Model

| member | source | states |
|---|---|---|
| `Matching.CompileAndStep` | usr/src/head/regexp.h:81-580 | for every pattern that consists of legal tokens in the fragment, behind a circumflex exactly when it is anchored, with room for its program up to the very end of the array, and every text: nothing outside the buffer is written and the bytes read back to the pattern's items; `compile` then `step` give 1 with loc1 the leftmost start at which a run of the tokens matches or hangs (only 0 when anchored), loc2 the end of the run that takes most, token by token, and every braslist and braelist entry the position of its bracket in that run; or do not return because a run that hangs is tried before every match; or 0 because no run from any start matches or hangs; the same in terms of derivations, for the items and for the items read back |
| `Matching.ReportsSay` | usr/src/head/regexp.h:318-580 | a report in terms of derivations of the program is one in terms of runs of the pattern |
| `Corollaries.SaysIsUnique` | usr/src/head/regexp.h:318-580 | the pattern and the text determine the answer, loc1, loc2 and the captures of all groups |
| `Corollaries.DollarMeans` | usr/src/head/regexp.h:158-162 | a pattern with an unescaped dollar at its end matches exactly where the pattern without it matches up to the end of the text |
| `Refinement.TakesIff` | usr/src/head/regexp.h:375-580 | a token with its modifiers takes a piece of the text if and only if its item does: a literal its character, a quoted n a newline, a dot any character, a dollar nothing and only at the end, a back-reference copies of the text between its group's brackets |
| `Refinement.WalkRuns` | usr/src/head/regexp.h:375-580 | feasible counts lead through a run of the pattern, and the captures are then the positions of the brackets passed |
| `Refinement.RunWalks` | usr/src/head/regexp.h:375-580 | every run of the pattern comes from feasible counts |
| `Refinement.HollowIff` | usr/src/head/regexp.h:518-523 | an item is stuck if and only if it is a starred back-reference and the text between its group's brackets is empty |
| `Refinement.TraceOrder` | usr/src/head/regexp.h:434-575 | counts are tried in the order of how far the runs go, first difference first |
| `Refinement.GreedyIsBest` | usr/src/head/regexp.h:434-575 | the greatest derivation is the run that takes most, and no run that hangs is tried before it |
| `Refinement.SilentIff` | usr/src/head/regexp.h:375-580 | no run from a start matches or hangs if and only if there is no derivation and no way to a stuck item |
| `Refinement.TracksCaptures` | usr/src/head/regexp.h:424-432 | at the end braslist and braelist hold, for every group of the pattern, the positions of its two brackets |
| `Refinement.IntervalMeans` | usr/src/head/regexp.h:257-287 | the two bytes of a legal interval allow k repetitions if and only if k is the number, or at least the first and at most the second, or at least the number and at most 20000 more |
| `Refinement.CountMeaning` | usr/src/head/regexp.h:254-288 | a character is repeated as its interval says, otherwise any number of times under a star, otherwise once |
| `Units.UnitsBecomeItems` | usr/src/head/regexp.h:127-313 | the tokens of an accepted pattern, each with the modifiers behind it, become its items one by one; groups are numbered by their opening brackets and every CKET closes the group of the bracket that matches it |
| `Units.OneDivision` | usr/src/head/regexp.h:127-129 | there is one way to attach modifiers to tokens |
| `Matching.StepReports` | usr/src/head/regexp.h:318-355 | the search result of `step`, from any earlier captures, in terms of derivations, and counts that lead to a stuck item, that start from no captures |
| `Matching.NormalReports` | usr/src/head/regexp.h:318-580 | a report about a program is a report about the program read back from its code, and conversely |
| `Corollaries.ReportIsExact` | usr/src/head/regexp.h:318-355 | the three answers exclude each other: each is given if and only if its condition on the pattern and the text holds |
| `Corollaries.ReportWithoutHangs` | usr/src/head/regexp.h:318-355 | when no starred back-reference can hang, 1 is returned if and only if the pattern matches somewhere |
| `RegexpH.Regexp.Advance` | usr/src/head/regexp.h:357-580 | returns 1, 0 or never exactly as the search does; on 1 loc2 and all captures are those found, though nothing is undone; captures of groups the rest of the program does not mention are unchanged; the nesting depth of calls never exceeds the number of repeated items in the program |
| `RegexpH.Regexp.PlainItem` | usr/src/head/regexp.h:377-432 | one unrepeated opcode takes the run to the next item with the same outstanding result, or shows that there is none |
| `RegexpH.Regexp.Getrnge` | usr/src/head/regexp.h:582-592 | low is the lower bound; size is 20000 when the upper bound is open, otherwise low + size is the upper bound |
| `RegexpH.Regexp.ScanStar` | usr/src/head/regexp.h:533-566 | the pointer ends one past the first character not accepted, never past the NUL |
| `RegexpH.Regexp.ScanRange` | usr/src/head/regexp.h:434-505 | fails exactly when fewer than the lower bound are accepted; otherwise the pointer is one past the longest repetition the interval allows |
| `RegexpH.Regexp.TryEnds` | usr/src/head/regexp.h:568-575 | tries the ends from the longest to the shortest, stopping at locs, and answers as the search does |
| `RegexpH.Regexp.TryCount` | usr/src/head/regexp.h:568-575 | one attempt with a given count: its answer, or that the next smaller count decides |
| `RegexpH.Regexp.CountCopies` | usr/src/head/regexp.h:521-523 | steps over as many copies of the captured text as follow each other |
| `RegexpH.Regexp.TryCopies` | usr/src/head/regexp.h:518-530 | a starred back-reference: most copies first; does not return on an empty capture |
| `RegexpH.Regexp.StarItem` | usr/src/head/regexp.h:533-575 | a starred single-character item answers as the search does |
| `RegexpH.Regexp.RangeItem` | usr/src/head/regexp.h:434-505 | an item with an interval answers as the search does |
| `RegexpH.Regexp.Step` | usr/src/head/regexp.h:318-355 | the least start at which `advance` does not fail, from whatever the globals held before |
| `RegexpH.Regexp.ScanForChar` | usr/src/head/regexp.h:334-346 | the fast loop finds the same start, loc2 and captures as the regular one |
| `RegexpH.Regexp.ScanAll` | usr/src/head/regexp.h:347-354 | the regular loop tries every start up to the NUL |
| `RegexpH.Regexp.constructor` | usr/src/head/regexp.h:61-71 | the globals at program start |
| `Interpreter.FirstChar` | usr/src/head/regexp.h:334-346 | a program that begins with CCHR matches nowhere but where its character stands |
| `Interpreter.EcmpIsPrefix` | usr/src/head/regexp.h:59 | the NUL-stopping comparison holds exactly when the captured text comes next |
| `Interpreter.PassItem` | usr/src/head/regexp.h:375-432 | an item with one possible count keeps the outstanding result, the placement of the code and the bounds of the captures |
| `Semantics.FeasibleRange` | usr/src/head/regexp.h:434-575 | the counts allowed by the meaning of an item form the interval the interpreter walks through |
| `Semantics.SearchComplete` | usr/src/head/regexp.h:375-580 | the search fails only when no derivation exists |
| `Semantics.SearchGreedy` | usr/src/head/regexp.h:434-575 | a match found is a derivation, the lexicographically greatest of all, with its end and captures; no stuck item comes up before it |
| `Semantics.NeverIff` | usr/src/head/regexp.h:518-530 | on a given text the search does not return if and only if some feasible counts lead to a starred back-reference with an empty capture and no derivation is tried before them |
| `Semantics.SearchAgrees` | usr/src/head/regexp.h:424-432 | what failed branches wrote into the captures changes nothing of the result |
| `Semantics.StaleCapturesIrrelevant` | usr/src/head/regexp.h:61-69 | a run from the first item gives the same answer, end and captures whatever the arrays held |
| `Semantics.CapsOkStep` | usr/src/head/regexp.h:424-432 | every item keeps start <= end <= position for the groups passed |
| `Corollaries.CapturesInside` | usr/src/head/regexp.h:424-432 | all captures of a match lie between its start and its end |
| `Corollaries.LocsCut` | usr/src/head/regexp.h:568-575 | with locs at p, exactly the ends behind p are tried when p is a possible end, otherwise all of them |
| `Corollaries.EndAnchored` | usr/src/head/regexp.h:391-399 | a match of a program that ends in CDOL ends at the NUL |
| `Divergence.DivergesIff` | usr/src/head/regexp.h:518-530 | a program can fail to return if and only if it has a reachable starred back-reference to a group whose shortest text is empty |
| `Divergence.AlwaysReturns` | usr/src/head/regexp.h:375-580 | without such an item every call returns, with locs set or not |
| `Divergence.NeverHangs` | usr/src/head/regexp.h:518-530 | any run that does not return leads to such an item |
| `Divergence.ShortestHangs` | usr/src/head/regexp.h:518-530 | on the shortest text for such an item the search does not return |
| `Instances.StarredEmptyGroup` | usr/src/head/regexp.h:518-523 | `\(a*\)\1*`, read from its characters, is in the fragment; the search does not return on the empty text and succeeds on "a", whatever the captures were |
| `Instances.HangingAnswer` | usr/src/head/regexp.h:518-523 | for that pattern and the empty text the only report possible is that the call does not return |
| `RegexpH.Regexp.Compile` | usr/src/head/regexp.h:81-316 | accepts exactly what the reader accepts and what fits; then the buffer holds the code of the pattern's items, and circf, nbra, nodelim and the cursor are as stated; a rejected pattern gives the reader's error code, or 50 exactly when what was read before the error fills the buffer, or an unfinished bracket expression needs more than is left; writes stay in base..endbuf, except for the one byte at endbuf that `Overrun.Spilled` names, in which case alone the array must go on behind endbuf |
| `RegexpH.Regexp.CompileLoop` | usr/src/head/regexp.h:124-316 | the same for the main loop |
| `RegexpH.Regexp.LastTurn` | usr/src/head/regexp.h:130-150 | the turn that ends the pattern: the program is complete, or error 42, 36 or 50; without a delimiter NULs fill the buffer, and one goes behind it when the room left is odd |
| `RegexpH.Regexp.CompileToken` | usr/src/head/regexp.h:127-313 | one turn of the loop appends or patches exactly the code of the next token; its second byte goes to endbuf exactly when the first is the last in the buffer |
| `RegexpH.Regexp.Escape` | usr/src/head/regexp.h:235-305 | the tokens behind a backslash, with their errors and the bracket stack |
| `RegexpH.Regexp.IntervalToken` | usr/src/head/regexp.h:254-288 | the last item gets the interval, or the error of the reader is raised; the second bound goes to endbuf exactly when it is stored and the first is the last byte in the buffer |
| `RegexpH.Regexp.BracketToken` | usr/src/head/regexp.h:164-233 | a bracket expression appends its class item, or the whole program does not fit; one that is not finished gives 49, or 50 when it needs more room than is left |
| `RegexpH.Regexp.PlainToken` | usr/src/head/regexp.h:138-162 | the remaining characters, with `*` and `$` taken literally where they are |
| `RegexpH.Regexp.FinishProgram` | usr/src/head/regexp.h:130-150 | one CCEOF ends the code; open groups are error 42 |
| `Assembly.Patch` | usr/src/head/regexp.h:151-156 | setting bits of `*lastep`, with bounds appended, gives the code of the program with its last item modified, and changes nothing else |
| `Assembly.Append` | usr/src/head/regexp.h:308-312 | code written behind a program gives the program with one more item |
| `Assembly.LastOpcode` | usr/src/head/regexp.h:152-154 | `*lastep` is CBRA or CKET exactly when a star is to stand for itself |
| `Assembly.TooLong` | usr/src/head/regexp.h:125-126 | where ERROR(50) is raised the whole program cannot fit |
| `Overrun.OverrunIff` | usr/src/head/regexp.h:125-312 | a byte b is stored at endbuf if and only if tokens that the pattern starts with leave room for one byte and what follows stores b as its second, an interval with a later error included, or the pattern has no delimiter and the NULs behind it fill an odd number of bytes |
| `Overrun.SecondIsLast` | usr/src/head/regexp.h:125-312 | a second byte is stored for a token if and only if the token makes the code two bytes longer, and it is the last of them |
| `Errors.SecondBoundIff` | usr/src/head/regexp.h:268-287 | the second bound that is stored, before or after the error of a faulty interval, is the first again once the brace is closed, 255, or the second number |
| `Overrun.FitsInside` | usr/src/head/regexp.h:125-312 | no byte is stored at endbuf when the program fits |
| `Instances.TwoLettersSpill` | usr/src/head/regexp.h:311-312 | `ab` with three bytes of room stores `b` behind them |
| `Instances.CompileTwoLetters` | usr/src/head/regexp.h:311-312 | compiling it gives error 50 and leaves that byte there |
| `Program.OpcodeBits` | usr/src/head/regexp.h:52-53 | an interval absorbs a star in either order |
| `Emitter.CompileBracket` | usr/src/head/regexp.h:164-233 | writes exactly the opcode and map of the denoted class when it fits below endbuf and otherwise raises 50; for an expression that is not finished 50 exactly when the members read need more than is left, 17 or 33 bytes, otherwise 49 |
| `Emitter.BracketBody` | usr/src/head/regexp.h:179-211 | the loop over the members leaves the denoted set in the map, 32 bytes wide exactly when a member is above 0177; 50 exactly when such a member comes and the wide map does not fit, 49 at a NUL or newline |
| `Emitter.AddMember` | usr/src/head/regexp.h:183-210 | a single character or a range joins the set |
| `Emitter.PlaceSpan` | usr/src/head/regexp.h:204-207 | a range adds the characters from its start up to its end |
| `Emitter.Place` | usr/src/head/regexp.h:57 | PLACE adds one character and keeps the others |
| `Emitter.Widen` | usr/src/head/regexp.h:183-190 | widening a map keeps its members |
| `Emitter.Negate` | usr/src/head/regexp.h:218-229 | a wide map becomes its complement without NUL, a narrow one gains NUL and the negated opcode |
| `Emitter.ReadNumber` | usr/src/head/regexp.h:260-267 | the value of the digits up to a backslash or comma |
| `Errors.DecimalValue` | usr/src/head/regexp.h:260-267 | the decimal digits of a number have that number as their value |
| `Errors.ValueDecimal` | usr/src/head/regexp.h:260-267 | and digits without a leading zero are those of their value |
| `Emitter.CompileInterval` | usr/src/head/regexp.h:258-288 | the two bound bytes, or the error of the reader; the second is written exactly when the reader gets that far |
| `Bitmaps.PlaceIn` | usr/src/head/regexp.h:57 | exactly one bit of the byte is set |
| `Bitmaps.IsThereIsBit` | usr/src/head/regexp.h:58-71 | ISTHERE reads the bit that PLACE sets |
| `ByteCode.TestIsAccepts` | usr/src/head/regexp.h:379-422 | the plain, starred and interval tests of each single-character opcode accept exactly the characters of its atom |
| `Corollaries.ClassMeaning` | usr/src/head/regexp.h:402-422 | a class opcode accepts a character when it is not NUL and listed in the bracket expression or in a range of it, or after `^` when it is not |
| `Refinement.InBracket` | usr/src/head/regexp.h:191-211 | the set of a bracket expression has exactly the characters listed and those between a character and the end of the range behind it; a backward range has its two ends |
| `Refinement.ListedIsDenoted` | usr/src/head/regexp.h:191-211 | the same with the dash at the end |
| `Decoder.DecodeIff` | usr/src/head/regexp.h:254-288 | code reads back to its items up to its single CCEOF if and only if no item carries a second interval or a modifier its opcode has no form for |
| `Decoder.NormalDerives` | usr/src/head/regexp.h:375-580 | the items read back have the same derivations on every text, with the same ends and captures |
| `Decoder.NormalStuck` | usr/src/head/regexp.h:518-530 | and the same counts lead to stuck items |
| `Instances.IntervalAfterGroup` | usr/src/head/regexp.h:254-288 | `\(a\)\{2\}` is accepted, with its bytes; they do not read back to any items |
| `Instances.SecondInterval` | usr/src/head/regexp.h:254-288 | `a\{2\}\{8\}` is accepted, with its bytes; they read back to `a\{2\}..` |
| `Grammar.ParseIff` | usr/src/head/regexp.h:124-314 | a pattern is accepted with a token list if and only if these tokens, each legal where it stands, spell it up to its delimiter and all groups are closed |
| `Grammar.SpellsReads` | usr/src/head/regexp.h:124-314 | an accepted pattern reads as the concatenated spelling of its tokens |
| `Grammar.ParseShift` | usr/src/head/regexp.h:120-123 | behind a circumflex a pattern is accepted with the tokens it has without |
| `Errors.RejectIff` | usr/src/head/regexp.h:124-314 | a pattern is rejected with code n behind given tokens if and only if these spell it so far and what follows is the text that raises n: 25 a reference to more groups than are closed, 36 a newline, 42 a bracket without partner, 43 a tenth group, 49 no bracket expression, 50 no delimiter, 11, 16, 44, 45, 46 a faulty interval |
| `Errors.IntervalFaultIff` | usr/src/head/regexp.h:257-287 | an interval raises 16 if and only if a bound is no number, 11 a bound is 255 or more, 44 a third bound follows, 45 the closing brace is missing, 46 the bounds are out of order |
| `Grammar.TokenSound` | usr/src/head/regexp.h:127-313 | a token read is legal and spells the characters consumed |
| `Grammar.TokenComplete` | usr/src/head/regexp.h:127-313 | a legal token that is spelled at the cursor is the one read |
| `Grammar.MembersSound` | usr/src/head/regexp.h:174-211 | the bracket reader returns a legal body that spells the text, leading `]` and `-` and trailing `-` included |
| `Grammar.MembersComplete` | usr/src/head/regexp.h:174-211 | a legal bracket body is read back |
| `Grammar.IntervalSound` | usr/src/head/regexp.h:258-288 | an interval read has digits below 255, bounds in order and spells the text |
| `Grammar.IntervalComplete` | usr/src/head/regexp.h:258-288 | a legal interval is read back |
| `Fragment.LawfulBrackets` | usr/src/head/regexp.h:238-252 | groups are numbered 0, 1, 2, ... and at most nine, each close ends the innermost open group, depth = nbra - closed, and the stack holds exactly the open groups |
| `Fragment.LawfulDolLast` | usr/src/head/regexp.h:158-162 | CDOL stands only right before CCEOF |
| `Fragment.SpellsLawful` | usr/src/head/regexp.h:127-313 | the rules every accepted pattern obeys |
| `Fragment.RunnableIff` | usr/src/head/regexp.h:254-303 | for accepted patterns the program meets the conditions of the matching theorems if and only if intervals stand once and on single-character items, no reference stands in its own group, and no backslash is left alone |
| `Fragment.BacksStep` | usr/src/head/regexp.h:298-303 | an accepted back-reference names a group that is closed before it if and only if that group is not on the bracket stack |
| `Necessity.FragmentExact` | usr/src/head/regexp.h:254-303 | an accepted pattern is in the fragment if and only if its code reads back to its items, no item accepts the NUL that ends the text, and what each back-reference reads is determined by the run |
| `Necessity.BacksDetermined` | usr/src/head/regexp.h:298-303 | two runs whose captures agree on everything written so far read the same text at every back-reference, if and only if every reference comes after the end of its group |
| `Corollaries.LawfulBounds` | usr/src/head/regexp.h:268-287 | every emitted pair has m <= n, with m below 255 |
| `Corollaries.FlatReference` | usr/src/head/regexp.h:298-300 | without nested groups the count of closed groups decides correctly whether a referenced group is closed |
| `Instances.NestedReference` | usr/src/head/regexp.h:298-303 | `\(\(a\)\1\)`, read from its characters, is accepted and outside the fragment; on "a" the search succeeds with an old braelist[0] of 0 and fails with 1 |

## Left out

- Reuse of the previous expression: `Compile` returns as the source does on an empty pattern; what the caller then matches is not modelled.
- The matcher on programs outside the fragment, where an opcode without a case is skipped byte by byte and operands are then taken for opcodes: only that their code does not read back, or that a reference reads old captures, is shown.
- Signed characters and overflow of the interval numeral: characters are 0 to 255 and numbers are unbounded.
- The caller's own definitions of INIT, GETC, PEEKC, UNGETC, RETURN and ERROR, and the pre-ANSI and lint branches.
- Aliasing of pattern, text and buffer: they are separate.
- The other headers: declarations without code.
