# Verified models of the BASIC interpreter and the C library code beside it

This project models, in Dafny, the parts of the repository that have the most to get wrong, and
proves what they promise:

* **Regular expressions** (`libc/posix/engine.c`, layout from `libc/posix/regcomp.c`). `RegexStrip`
  gives a strip its meaning as an automaton; `RegexEngine` is the state-set step; `RegexMatcher` runs
  it over a string; `RegexLeftmost` says exactly when the reported match is the leftmost one;
  `RegexLanguage`, `RegexRuns` and `RegexCompile` tie strips to regular expressions and to what the
  compiler emits; `RegexWords` ties the language to strings; `RegexTurns` says for which loops the longest turns exhaust the match; `RegexWays`
  defines the way through a match that is taken; `RegexDissect` and `RegexExec` find the
  subexpressions on that way; `RegexGroups` says what the slot of a group delimits.
* **TinyBASIC** (`basic.c`). `BasicLines` and `BasicStore` are the line store and its in-place
  editing; `BasicEntry` says what a typed line is taken for; `BasicNumber` is 64-bit arithmetic and the number printer; `BasicExpr`, `BasicText`,
  `BasicTree` and `BasicErrors` are the evaluator as functions and the proof that it computes the
  value of a printed tree, or sets the error; `BasicEval` is the evaluator as it moves over the
  text; `BasicFor` is FOR and NEXT.
* **Pattern matchers** (`libc/posix/fnmatch.c`, `libc/posix/glob.c`): `Fnmatch`,
  `FnmatchReading` (patterns as they are written) and `FnmatchPeriod` (leading periods); `Glob` (compilation, in place or not, and matching) and
  `GlobReading` (patterns as they are written); for braces
  `GlobCalls` (the calls that are made for any pattern), `GlobBrace` (alternatives and their
  expansion), `GlobMeaning` (the calls are the expansion) and `GlobBrackets` (brackets in braces).
* **setlocale** (`libc/locale/locale.c`, with `_MB_CAPABLE`, without `__CYGWIN__` and
  `__HAVE_LOCALE_INFO__`): `Locale`.
* **argz vectors** (`libc/argz`): `Argz`.

Code that works step by step is modelled by classes and methods with loops; each is proved against
functions or predicates on values, and the theorems are about those.

## What turned out to be different from what one would expect

* `matcher` does not always report the leftmost match. For `(b*|a)c` on `ac` it reports `c` at 1
  (`RegexLeftmost.LeftmostFails`, and `RegexCompile.DemoIsCompiled` shows that the strip is the
  compiled one). `RegexLeftmost.LeftmostIffNotConfusable` gives the exact condition on the strip, and
  `RegexLeftmost.NoReentryNotConfusable` a simple one that suffices.
* The search of `dissect` for the last turn of a `+` takes the longest turn each time, and its
  assertion fails for `(a|ab|bc)+` on `abc` (`RegexTurns.LongestTurnsFail`). It holds on every text
  exactly if the body is exhaustive: behind its longest turn the rest of a match is still made up of
  turns (`RegexTurns.TurnsExhaustIff`). Bodies of which no word begins another one are exhaustive,
  and so are all bodies of fixed width, such as those of `a*`, `.*` and `[ab]+`
  (`RegexTurns.PrefixFreeExhaustive`, `RegexTurns.WidthExhaustive`).
* The length of a typed line is counted in a byte. A numbered line whose stored form takes 256 bytes
  deletes the line with its number instead of entering it, and up to 261 bytes only some bytes of
  the header are stored (`BasicStore.Store.EnterLine`, `BasicLines.MergedDeletes`); a line is entered
  if and only if it takes less than 256 (`BasicLines.MergedIffFits`).
* A line number counts modulo 2^32: a line typed with the number 2^32 is taken for a direct
  statement (`BasicEntry.NumberKept` gives the exact condition).
* Blanks are skipped behind the first factor of a product only: behind `2*3` a blank ends the
  expression (`BasicTree.BlankEndsProduct`).
* `printnum` writes the least 64-bit number as `-(`, which does not read back
  (`BasicText.PrintedLineReads` is an if and only if).
* After `NEXT I ` with a blank behind the variable no loop is found, since the blank is taken for
  the variable (`BasicFor.Interpreter.Next`).
* FNM_PERIOD is dropped at the first star that needs recursion, so that under FNM_PATHNAME the
  pattern `*?/?` matches `a/.` (`FnmatchPeriod.PeriodSlips`).
  `FnmatchPeriod.PeriodsExplicitIff` says for which strings leading periods are matched by periods
  whatever the pattern is.
* A brace that is not closed makes `globexp2` use only the text in front of it: of `x{a` only `x` is
  left (`GlobMeaning.OpenBraceDropsText`). For every pattern without brackets
  `GlobMeaning.ExpandBraces` gives the calls, and the text is dropped exactly if some brace is not closed.
* A bracket inside braces makes `globexp2` forget the text of the alternative before the bracket:
  `{xy[a],z}` becomes `[a]` and `z` (`GlobBrackets.BracketLosesText`). Nothing is forgotten if and
  only if every bracket stands at the start of its alternative (`GlobBrackets.NothingLostIff`).
* A pair of braces that is left over as the whole pattern is protected also when it comes out of an
  outer brace; `GlobBrace.ExpandIsProduct` says exactly when the expansion is the plain product.
* In a composite locale name the first name runs to the last slash of the first run of slashes: the
  first name of `a//b` is `a/` (`Locale.DoubledSlashExample`). A name that is read holds a slash if
  and only if it is the first one and the first slash is doubled (`Locale.SlashInName`).

## Model

| member | source | states |
|---|---|---|
| RegexEngine.Step | libc/posix/engine.c:938-1051 | the pass over the strip ends in spite of its rewinding, and its result is the least epsilon-closed set that contains `aft` and the character successors of `bef` |
| RegexEngine.Execute | libc/posix/engine.c:955-1047 | one operator of the pass adds exactly what it may add, and says where the pass goes on |
| RegexEngine.FindChoiceEnd | libc/posix/engine.c:1025-1033 | from any branch of a choice the search for its end arrives at the O_CH |
| RegexEngine.NothingStepIsIdentity | libc/posix/engine.c:916-916 | a NOTHING step on a closed set changes nothing, as the code asserts |
| RegexEngine.StartStates | libc/posix/engine.c:768-771 | the first step gives the states reachable before any character |
| RegexEngine.AdvanceStates | libc/posix/engine.c:910-917 | a step over a character takes the set of reachable states to the next such set |
| RegexEngine.EmptyForever | libc/posix/engine.c:907-908 | once no state is live none will be again |
| RegexMatcher.Match.Slow | libc/posix/engine.c:841-921 | the greatest position to which some path from `startst` to `stopst` spells the text, and NULL exactly if there is none |
| RegexMatcher.Match.Fast | libc/posix/engine.c:749-834 | the first position at which any match ends, NULL exactly if there is none, and `coldp` is the last position up to there with the state set of a fresh start |
| RegexMatcher.Matcher | libc/posix/engine.c:137-342 | REG_INVARG exactly for reversed bounds; no match exactly if no substring matches; otherwise the longest match at the first start from the cold point on |
| RegexMatcher.MatchFromCold | libc/posix/engine.c:749-834 | some match starts at or after the cold point |
| RegexMatcher.NoEndNoMatch | libc/posix/engine.c:242-245 | if no match ends anywhere, no substring matches |
| RegexMatcher.StartAfterCold | libc/posix/engine.c:249-258 | the search for the start from the cold point on succeeds before the end of the text |
| RegexLeftmost.LeftmostIffNotConfusable | libc/posix/engine.c:239-261 | the reported match is the leftmost and longest one on every text if and only if no word that can be abandoned hides a start behind a fresh state set |
| RegexLeftmost.NoReentryNotConfusable | libc/posix/engine.c:749-834 | it is so if no state that follows a character operator lies in the initial closure |
| RegexLeftmost.ReportedExists | libc/posix/engine.c:240-261 | a match is reported whenever there is one |
| RegexLeftmost.ReportedUnique | libc/posix/engine.c:240-261 | the reported match is determined by strip and text |
| RegexLeftmost.LeftmostFails | libc/posix/engine.c:749-834 | on the text "ac" and the strip of the expression that takes b* or a, and then c, the reported match is not the leftmost one |
| RegexLanguage.CodeWellFormed | libc/posix/regcomp.c:305-346 | the strip laid out for an expression meets what `step` assumes of strips |
| RegexLanguage.AltsChoiceEnd | libc/posix/regcomp.c:326-343 | the offsets of the OOR2 operators chain to the O_CH |
| RegexRuns.SpansIffLang | libc/posix/engine.c:938-1051 | the paths through the strip of an expression spell exactly the words of its language |
| RegexRuns.RunSpellsWord | libc/posix/engine.c:962-1046 | every path from the start to the end of a strip spells a word |
| RegexRuns.RunRe | libc/posix/engine.c:962-1046 | every word is spelled by some path |
| RegexWords.LangIffWord | libc/posix/engine.c:938-1051 | whether a piece of a text is a word depends only on the string it is: a character is itself, a dot any one byte, and so on |
| RegexCompile.CodeAt | libc/posix/regcomp.c:305-466 | where the code of an expression stands, the strip is laid out for it |
| RegexCompile.CodeSpans | libc/posix/regcomp.c:305-466 | the code of an expression matches exactly its language, wherever it stands |
| RegexCompile.RepeatedLang | libc/posix/regcomp.c:1106-1173 | what `repeat` makes of x{m,n} or x{m,} stands for exactly the admitted numbers of words of x |
| RegexCompile.RepeatedSpans | libc/posix/regcomp.c:1106-1173 | and so does the automaton of the code |
| RegexCompile.Compiler.Repeat | libc/posix/regcomp.c:1106-1173 | all cases of `repeat`, with their copies, insertions and fixups, leave the code of that expression in place of the operand |
| RegexCompile.Compiler.EmitPlus | libc/posix/regcomp.c:454-457 | `+` turns the operand into the code of a plus group |
| RegexCompile.Compiler.EmitStar | libc/posix/regcomp.c:447-453 | `*` is an optional plus group |
| RegexCompile.Compiler.EmitQuest | libc/posix/regcomp.c:458-466 | `?` is a choice with an empty branch |
| RegexCompile.Compiler.Insert | libc/posix/regcomp.c:1599-1634 | the operator comes to its place and what follows moves up |
| RegexCompile.Compiler.Alternation | libc/posix/regcomp.c:305-346 | the forward and backward offsets of any number of alternatives come out as those of the code of the choice |
| RegexCompile.DemoIsCompiled | libc/posix/regcomp.c:305-466 | the strip of that counterexample is the code of the expression |
| RegexDissect.SpansSplit | libc/posix/engine.c:415-429 | a match of a concatenation has a border between its parts |
| RegexDissect.SplitGroup | libc/posix/engine.c:415-429 | the backing-off loop ends with the largest border such that the group matches before it and the rest behind it |
| RegexDissect.FindGroupEnd | libc/posix/engine.c:380-392 | the end of the subexpression at `ss` |
| RegexDissect.FindBranch | libc/posix/engine.c:490-506 | the first branch that matches the whole text of the choice |
| RegexTurns.TurnsExhaustIff | libc/posix/engine.c:454-470 | the assertion that the longest turns exhaust the match of a loop holds on every text if and only if the body is exhaustive: behind a longest turn the rest of a match is still made up of turns |
| RegexTurns.PrefixFreeExhaustive | libc/posix/engine.c:454-470 | a body of which no word begins another one is exhaustive |
| RegexTurns.ConcatClosedExhaustive | libc/posix/engine.c:454-470 | so is a body that contains with two words the one after the other |
| RegexTurns.WidthExhaustive | libc/posix/engine.c:454-470 | so is every body of fixed width, in particular a single character, a dot or a set |
| RegexTurns.LastTurnIsTurn | libc/posix/engine.c:454-471 | if the turns exhaust the match, the last one is a word of the body and what comes before it is made up of words |
| RegexTurns.LongestTurnsFail | libc/posix/engine.c:454-471 | a plus group of the alternatives a, ab and bc matches "abc", but its longest turns end after two characters, and the body is not exhaustive |
| RegexWays.TakenEvents | libc/posix/engine.c:350-536 | the way taken through a match (largest borders, first branches, last of the longest turns) is a way of matching |
| RegexGroups.GroupDelimited | libc/posix/engine.c:518-527 | the slot of a group is unset exactly if the group is not passed when items take as much as the rest allows, choices their first branch that fits and loops their longest turns; otherwise it runs from where the group was opened the last time to where it was closed, lies in the match, and holds a word of the body |
| RegexGroups.PassedIsWord | libc/posix/engine.c:518-527 | where a group is passed, its body matches the text between |
| RegexGroups.PassedOnce | libc/posix/engine.c:350-536 | on that way a group is either passed or not, and for the last time at one place |
| RegexGroups.EnclosedGrouped | libc/posix/regcomp.c:366-382 | the parentheses emitted around a subexpression make it a group |
| RegexWays.ExhaustivesClean | libc/posix/engine.c:454-470 | if the bodies of all loops are exhaustive, no assertion fails on the way |
| RegexWays.FixedLoopsExhaustive | libc/posix/engine.c:454-470 | they are if every loop body has a fixed width by its form |
| RegexDissect.FindLastTurn | libc/posix/engine.c:454-471 | the assertion holds if and only if the longest turns exhaust the text, always if the body is exhaustive, and the start of the last turn is found |
| RegexDissect.Dissect | libc/posix/engine.c:350-536 | the slots record the parentheses passed on the way taken, the last time each was passed; the assertion fails exactly if on this way the longest turns of some loop do not exhaust its match |
| RegexDissect.DissectItem | libc/posix/engine.c:394-532 | the same for one item, which ends at the largest border behind which the rest still matches |
| RegexDissect.DissectPlus | libc/posix/engine.c:440-475 | a plus group records its last longest turn, and fails exactly if the turns do not exhaust the text or the turn itself fails |
| RegexDissect.DissectQuest | libc/posix/engine.c:430-439 | an optional group is entered exactly if its body matches the text of the group, and otherwise records nothing |
| RegexDissect.DissectChoice | libc/posix/engine.c:476-510 | a choice records the first branch that matches its text |
| RegexExec.Exec | libc/posix/engine.c:137-342 | for the strip of an expression and any number of slots: no match exactly if no word occurs; slot 0 is a longest word, with no earlier one if the strip is not confusable; the other slots record the way taken, which is a way of matching, and -1 beyond the last subexpression; each group that was passed has in its slot the text that its body matched the last time, and each other -1; the assertion of a loop fails exactly if its longest turns do not exhaust its match, and never if all loop bodies are exhaustive or of fixed width |
| RegexExec.AnyMatchIsWord | libc/posix/engine.c:239-245 | there is a match exactly if some word of the language occurs |
| RegexExec.ReportedIsWord | libc/posix/engine.c:239-261 | the reported match is a longest word |
| BasicLines.EnterIsMapUpdate | basic.c:933-991 | entering a line updates the map from line numbers to texts, or removes the number if there is no text, and keeps the lines ascending |
| BasicLines.EntriesAreUpdates | basic.c:933-991 | over any sequence of entries the listing is the map that the updates give |
| BasicLines.Reload | basic.c:1409-1422 | entering the lines of a listing one after another into an empty store gives the listing |
| BasicLines.EncodeFields | basic.c:570-583 | number, length byte and text of a stored line can be read back |
| BasicLines.SplitSound | basic.c:570-583 | a listing falls into the lines below a number and those from it on |
| BasicLines.EntryParts | basic.c:439-454 | what is left after number and blanks is the text of the entry |
| BasicStore.Store.FindLine | basic.c:570-583 | the walk along the length bytes stops at the first line not below the target, or at the end of the program |
| BasicStore.Store.CloseGap | basic.c:937-952 | the bytes behind a line move down over it and nothing else changes |
| BasicStore.Store.RemoveOld | basic.c:936-952 | the line with the number goes if there is one |
| BasicStore.Store.Splice | basic.c:959-991 | for any gap of at least one byte the chunked insertion equals one splice, the gap keeps its size, and pending text is not overwritten before it is copied |
| BasicStore.Store.Shuffle | basic.c:960-991 | one round keeps the edit half done in the same way, with more bytes of the pending line in place |
| BasicStore.Store.Merge | basic.c:933-991 | the line with the number is replaced, byte for byte, by as many bytes of the new one as `linelen` says, or by nothing if it has no text |
| BasicStore.Store.MoveToEnd | basic.c:869-886 | the typed line lands at the end of the free memory |
| BasicStore.Store.TestNum | basic.c:439-454 | the line number, with its limit |
| BasicEntry.NumberedEntry | basic.c:439-454 | blanks, decimal digits, blanks and a text are taken for the number modulo 2^32 and the text; from where the overflow trap closes the number is the reserved one |
| BasicEntry.NumberKept | basic.c:439-454 | the number is taken as it is if and only if it is below 2^32 |
| BasicEntry.DirectEntry | basic.c:888-894 | a line that starts with no number is a direct statement |
| BasicStore.Store.EnterLine | basic.c:864-992 | a typed line is a direct statement exactly if its number is 0, refused exactly if the number is the reserved one, and otherwise merged; if its length fits a byte, the store stays the encoding of its sorted lines with the line entered, and otherwise the bytes are those of the line cut to the wrapped length |
| BasicLines.MergedIffFits | basic.c:901-907 | the merge enters the line if and only if its length fits the byte that counts it |
| BasicLines.MergedDeletes | basic.c:906-960 | if the length comes to 256 the line with the number is deleted |
| BasicStore.Store.PrintNum | basic.c:386-420 | writes the decimal text, restores `sp` and leaves every byte from `sp` on, and the program, unchanged |
| BasicStore.Store.PrintLine | basic.c:604-625 | writes number, blank and text and arrives behind the newline, at the next line |
| BasicStore.Store.List | basic.c:1409-1422 | the walk from newline to newline writes exactly the lines from the number on, the ones the walk along the lengths visits |
| BasicStore.RetypedEntry | basic.c:604-625 | a line typed as LIST shows it, up to the newline, is the same entry |
| BasicNumber.NextRound | basic.c:386-420 | one round of the digit loop, also for the least number |
| BasicNumber.ShortNumbers | basic.c:386-420 | no 64-bit number has more than 19 digits |
| BasicTree.Evaluates | basic.c:628-824 | for every tree, written with the parentheses it needs and with blanks wherever the evaluator skips them, before a terminator, `expression` returns its value, stops at the terminator and sets no error if no divisor is zero; the value is stated by the relations, truncating quotients and function results themselves |
| BasicTree.RelationIs | basic.c:792-822 | each of the seven operators, by its characters, yields 1 exactly if its relation holds |
| BasicTree.BlankEndsProduct | basic.c:734-757 | behind a product or quotient a blank ends the expression |
| BasicNumber.QuotTruncates | basic.c:748-750 | the quotient is that of the magnitudes, with a minus sign if the signs differ |
| BasicNumber.QuotLeaves | basic.c:748-750 | what is left has a smaller magnitude than the divisor and the sign of the dividend |
| BasicErrors.ErrorIffZeroDivisor | basic.c:628-824 | for every such tree the error is set if and only if some divisor is zero |
| BasicErrors.FailProduct | basic.c:734-757 | a product or quotient with a zero divisor in it sets the error, wherever that is |
| BasicTree.Eval2 | basic.c:760-781 | sums are read from the left, and a leading minus sign negates only its operand |
| BasicTree.EvalLeft | basic.c:734-757 | products and quotients are read from the left |
| BasicTree.Eval4 | basic.c:628-731 | an operand that binds tightest is read whole |
| BasicText.RelopFound | basic.c:260-269 | each relational operator before an operand or blanks is recognized as itself, though some are prefixes of others |
| BasicText.FuncFound | basic.c:231-240 | PEEK, ABS, RND, PUTC and GETC are recognized, with blanks in front of the parenthesis too |
| BasicText.NoRelop | basic.c:369-383 | at a terminator no relational operator is found |
| BasicText.NumEvaluates | basic.c:640-652 | decimal digits evaluate to the number in 64 bits |
| BasicText.PrintedReads | basic.c:386-420 | what `printnum` writes evaluates to the number, unless it is the least one |
| BasicText.PrintedLineReads | basic.c:386-420 | on a line of its own it does so if and only if it is not the least one |
| BasicEval.Evaluator.Eval | basic.c:783-824 | the cursor, the error flag and the value end as the function on texts says |
| BasicEval.Evaluator.Eval2 | basic.c:760-781 | the same for sums |
| BasicEval.Evaluator.Eval3 | basic.c:734-757 | the same for products, where a division by zero only sets the error |
| BasicEval.Evaluator.Eval4 | basic.c:628-731 | the same for operands, functions and parentheses |
| BasicEval.Evaluator.Scan | basic.c:369-383 | the first keyword of the table that fits is taken |
| BasicEval.Evaluator.StrChk | basic.c:347-355 | whether a keyword stands at the cursor |
| BasicExpr.IgnoreBlanks | basic.c:341-345 | the cursor moves to the first character that is no blank |
| BasicFor.LoopRuns | basic.c:1270-1330 | after the n-th body NEXT goes back exactly if n is less than max(1, floor((terminal-initial)/step)+1), and the closing NEXT leaves the stack as it was before the FOR, whatever the bodies left above |
| BasicFor.NextTurn | basic.c:1300-1322 | what one NEXT does to variable, stack and position |
| BasicFor.MoreTurns | basic.c:1307-1309 | the test of the variable against the limit, for either sign of the step, is the test of the count |
| BasicFor.EnteredRun | basic.c:1231-1246 | a FOR starts such a run |
| BasicFor.Interpreter.Enter | basic.c:1231-1246 | FOR pushes a frame with limit and step cut to 32 bits and sets the variable |
| BasicFor.Interpreter.Walk | basic.c:1286-1330 | the walk takes the innermost frame of the variable |
| BasicFor.Interpreter.Next | basic.c:1270-1330 | the whole statement, with its two complaints and the blank that hides the variable |
| FnmatchReading.Fnmatches | libc/posix/fnmatch.c:60-163 | it returns 0 exactly if the string is one of the pattern as it is written, a byte for each symbol and any number for a star (no slash under FNM_PATHNAME, a slash and more behind it under FNM_LEADING_DIR), and with FNM_PERIOD no leading period is met by a wildcard up to the first star that needs recursion; for a pattern of ordinary characters it is equality |
| FnmatchReading.ReadShown | libc/posix/fnmatch.c:60-231 | every pattern is read as it is written, with and without FNM_NOESCAPE: characters with or without a backslash, items and ranges, either mark of negation, a closing bracket first, brackets that are not closed or meet a slash |
| FnmatchReading.Written | libc/posix/fnmatch.c:60-231 | every text is that of some pattern |
| FnmatchReading.MatchesIffAgrees | libc/posix/fnmatch.c:60-163 | the recursive meaning of a pattern is that of the sets of bytes its symbols stand for |
| FnmatchReading.OrdinaryMatches | libc/posix/fnmatch.c:141-159 | ordinary characters match themselves and nothing else |
| Fnmatch.Match | libc/posix/fnmatch.c:60-163 | it terminates, and agrees with the recursive meaning of the pattern at every position, less what FNM_PERIOD blocks |
| FnmatchPeriod.PeriodsExplicitIff | libc/include/fnmatch.h:42-42 | for a string and FNM_PERIOD, every pattern is found to match exactly if it can match with no wildcard at a leading period, if and only if FNM_PATHNAME is not set or the string has no period behind a slash (with FNM_NOESCAPE: behind a slash that follows some character other than slashes and leading periods) |
| FnmatchPeriod.ExplicitNotBlocked | libc/posix/fnmatch.c:80-128 | a match with no wildcard at a leading period is never refused |
| FnmatchPeriod.NotBlockedExplicit | libc/posix/fnmatch.c:80-128 | on a string of that kind a match that is not refused has no wildcard at a leading period |
| FnmatchPeriod.PeriodSlips | libc/posix/fnmatch.c:111-119 | under FNM_PATHNAME the pattern "*?/?" matches "a/.", although a question mark stands at a leading period |
| Fnmatch.TryRuns | libc/posix/fnmatch.c:111-119 | trying the rest at one position after another, and failing at the end of the string, loses no match |
| Fnmatch.StarStar | libc/posix/fnmatch.c:87-90 | collapsing stars loses no match |
| Fnmatch.StarEnd | libc/posix/fnmatch.c:97-104 | the shortcut for a star at the end |
| Fnmatch.StarSlash | libc/posix/fnmatch.c:105-109 | the shortcut for a star before a slash |
| Fnmatch.MatchSet | libc/posix/fnmatch.c:120-140 | a bracket expression matches one character, or is an ordinary bracket if it is not closed |
| Fnmatch.Rangematch | libc/posix/fnmatch.c:165-231 | the result agrees with the items of the bracket expression, which are read without regard to the character |
| Fnmatch.MatchesIffComposes | libc/posix/fnmatch.c:60-163 | the recursive meaning and the assignment of pieces are the same |
| GlobReading.CompileAndMatch | libc/posix/glob.c:440-491 | compiling a pattern, also in place, and matching a name tells whether the name is one of the pattern that is written there |
| GlobReading.ReadShown | libc/posix/glob.c:440-491 | every pattern is read as it is written: stars, question marks, characters with or without marks, items and ranges, negation, a closing bracket first, and brackets that are not closed |
| GlobReading.Written | libc/posix/glob.c:440-491 | every text is that of some pattern |
| GlobReading.MatchesIffNames | libc/posix/glob.c:747-796 | the recursive meaning of a pattern is that of the sets of bytes its tokens stand for |
| Glob.Compile | libc/posix/glob.c:440-491 | source and destination may be the same array; the result is the compiled form and is never longer than the source |
| Glob.CompileBracket | libc/posix/glob.c:447-473 | a closed bracket expression becomes a set, another one an ordinary bracket |
| Glob.ClosedIff | libc/posix/glob.c:451-457 | a bracket expression is closed exactly if a closing bracket follows its first character |
| Glob.Match | libc/posix/glob.c:747-796 | matching against a compiled pattern agrees with what the pattern means |
| Glob.MatchStar | libc/posix/glob.c:757-764 | a star is tried at every position, the end included |
| Glob.MatchSet | libc/posix/glob.c:769-788 | a set with its ranges and negation |
| Glob.DropMatches | libc/posix/glob.c:478-485 | adjacent stars are as good as one |
| GlobMeaning.ExpandBraces | libc/posix/glob.c:217-343 | for every pattern without brackets `glob0` is called for exactly the ordered expansion of its alternatives; if a brace is not closed, and only then, the text from it on is dropped |
| GlobMeaning.CallsMean | libc/posix/glob.c:217-343 | the calls for a pattern are the expansion of the pieces whose text it is |
| GlobMeaning.OpenBraceDropsText | libc/posix/glob.c:281-286 | for "x{a" there is one call, for "x" |
| GlobBrackets.NothingLostIff | libc/posix/glob.c:288-340 | the texts put in place of a brace are those between its commas if and only if every bracket in it stands at the start of its alternative |
| GlobBrackets.BracketLosesText | libc/posix/glob.c:291-301 | the expansion of "{xy[a],z}" is "[a]" and "z" |
| GlobBrackets.BracketsHide | libc/posix/glob.c:262-300 | braces and commas between brackets count for nothing, neither for the closing brace nor between alternatives |
| GlobBrackets.OpenBracketIsPlain | libc/posix/glob.c:267-300 | a bracket that is not closed is an ordinary character, except that what is in front of it is forgotten |
| GlobCalls.Globber.Expand1 | libc/posix/glob.c:217-235 | for any pattern, with brackets and open braces too, the expansion terminates and makes the calls of the function on texts |
| GlobCalls.Globber.Expand2 | libc/posix/glob.c:243-343 | the same for the first brace; if it is not closed, the one call is for the text in front of it |
| GlobCalls.Globber.Alternatives | libc/posix/glob.c:288-340 | the alternatives are expanded in order, nested braces being skipped; the text of an alternative starts at its last bracket |
| GlobCalls.FindBrace | libc/posix/glob.c:261-280 | the brace that closes the first one, brackets being skipped, or the end |
| GlobCalls.FewerBraces | libc/posix/glob.c:316-335 | each pattern that is expanded further has fewer opening braces |
| GlobBrace.ExpandIsProduct | libc/posix/glob.c:217-343 | the expansion is the ordered product of the alternatives if and only if no choice leaves a pair of braces as the whole pattern |
| GlobMeaning.ReadOuter | libc/posix/glob.c:261-341 | every pattern without brackets is the text of some nesting of alternatives, with an open brace and its text behind it exactly if some brace is not closed |
| Locale.GlobalLocale.SetLocale | libc/locale/locale.c:298-449 | all that is asked for is done if every name is acceptable, and otherwise nothing; the composite string is always that of the stored names, which are all acceptable; with an empty argument the names are those of LC_ALL, else of the category's own variable, else of LANG, else the default |
| Locale.EnvironmentFollowed | libc/locale/locale.c:973-995 | which variable wins, for all categories and for a single one |
| Locale.GlobalLocale.LoadAll | libc/locale/locale.c:427-447 | all six categories change, or none |
| Locale.GlobalLocale.RollBack | libc/locale/locale.c:432-444 | the reloads cannot fail and restore every name |
| Locale.GlobalLocale.Load | libc/locale/locale.c:476-537 | a category changes exactly if the name is accepted, and POSIX is stored as C |
| Locale.GlobalLocale.CurrentLocale | libc/locale/locale.c:451-472 | the string is rebuilt from the stored names |
| Locale.GlobalLocale.AskAll | libc/locale/locale.c:372-417 | the loops over the slashes read the names as the function on strings does |
| Locale.RoundTrip | libc/locale/locale.c:372-417 | any names that are not empty, not too long and without slashes are read back from their composite name |
| Locale.Restored | libc/locale/locale.c:298-472 | the string of one state brings its names back from any other state |
| Locale.DecomposeShort | libc/locale/locale.c:374-401 | no name that is read is too long for its buffer |
| Locale.SlashInName | libc/locale/locale.c:374-401 | a name that is read holds a slash if and only if it is the first one and the first slash of the argument is followed by another |
| Locale.DoubledSlashExample | libc/locale/locale.c:374-401 | "a//b" is read as "a/" and then "b" |
| Argz.Replace | libc/argz/argz_replace.c:15-93 | the leftmost non-overlapping replacement of the whole vector, which is that of each entry; count and length are exact |
| Argz.CountHits | libc/argz/argz_replace.c:34-44 | the first pass counts the occurrences and the new length |
| Argz.CopyReplaced | libc/argz/argz_replace.c:51-71 | the second pass finds the same occurrences and fills the new buffer exactly |
| Argz.FindStr | libc/argz/buf_findstr.c:16-44 | the first occurrence, or the end exactly if there is none |
| Argz.Compare | libc/argz/buf_findstr.c:24-28 | the inner loop stays in the buffer and tells whether the string is there |
| Argz.ReplacedEntries | libc/argz/argz_replace.c:37-71 | no occurrence reaches from one entry into the next, and the number of entries stays |
| Argz.ReplacedLength | libc/argz/argz_replace.c:37-44 | the length changes by the difference for each occurrence |
| Argz.ParseFlat | libc/argz/argz_count.c:12-25 | every buffer that is empty or ends with a zero byte is a vector of entries |
| Argz.Vector.Insert | libc/argz/argz_insert.c:16-47 | fails exactly outside the buffer; the new entry gets the place of the entry pointed into |
| Argz.Vector.EntryStart | libc/argz/argz_insert.c:30-31 | the loop finds the start of the entry |
| Argz.EntryHolds | libc/argz/argz_insert.c:30-31 | the entry of a position starts at it or before and ends at it or behind |
| Argz.Vector.Delete | libc/argz/argz_delete.c:13-40 | the bytes from the pointer to the next zero byte go, and nothing else; at the start of an entry that is the entry, and the others stay |
| Argz.Vector.Add | libc/argz/argz_add.c:13-32 | the entry is appended |
| Argz.Inserted | libc/argz/argz_insert.c:24-46 | the new entry is at its index and the others keep their order |
| Argz.InsertRemove | libc/argz/argz_delete.c:21-38 | deleting the inserted entry gives the old entries |
| Argz.InsertAndDelete | libc/argz/argz_delete.c:21-38 | and the old buffer, byte for byte |

## Left out

- Regular expressions with anchors, word boundaries or back-references, `backref`, the `must` prescreen and `moffset`.
- The parsing of regular expressions from text and its errors; the sets of a bracket expression are given as sets of bytes, and INFINITY in `repeat` is a value of its own.
- RegexExec.Exec: the slots are those of the way that `dissect` takes, which need not be the one that the rules of POSIX for subexpressions prefer.
- The strip as an allocated array, the positions of the parentheses kept by `doinsert`, and the bit sets of the small state representation.
- BasicStore.Store.EnterLine: the typed line fits the memory between program and variables, and the text behind a line number is shorter than 256 bytes (on a longer one the loop that counts it does not end). Upper-casing and the editing keys of `getln` are not modelled.
- BasicStore.Store.PrintNum: at least 20 bytes are free below `sp`; the source does not check.
- BasicTree.Evaluates: what PEEK and GETC yield is a parameter, and what PUTC writes is not modelled; AREAD and DREAD, which have no case of their own, do not occur in trees.
- BasicFor.LoopRuns: the first addition of the step stays within 64 bits, as it does for 32-bit bounds; frames are values in a sequence, not bytes, and the stack limit is not modelled.
- The parsing of the FOR statement, GOSUB and RETURN, POKE, INPUT, PRINT, files and `ub_util.c`.
- FnmatchReading.Fnmatches: collation tables are taken to be absent.
- GlobReading.CompileAndMatch: the whole compiled pattern is one path segment; the split at slashes in `glob2`, directories, tilde expansion and sorting are not modelled.
- GlobMeaning.ExpandBraces: patterns with brackets have the calls of `GlobCalls.Globber.Expand1` and the condition of `GlobBrackets.NothingLostIff`, but no reading as nested alternatives.
- Locale.GlobalLocale.SetLocale: which names `__loadlocale` accepts is a parameter, and so is the environment; errno and the conversion functions are not modelled.
- Argz.Replace: the string looked for is not empty (the source does not end otherwise); allocation succeeds.
- `envz`, the allocator of `ub_sbrk.c`, the character tables of `libc/ctype`, `qsort` and the other library functions.
