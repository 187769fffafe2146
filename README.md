# JTextTokenizer matching engine in Dafny

This project models the incremental character-matching engine of the
JTextTokenizer library (`twg2.text.tokenizer`) and proves what each part
promises. A tokenizer is built from conditions that are fed one character at
a time through `acceptNext(ch, buf)`; each condition reports whether it took
the character and keeps the flags `isComplete` / `isFailed`, the text it
accepted and the offsets of the fragment it matched.

- `Text` — the cursor the conditions read from. It is a value `Cursor(text,
  pos)` and a class `TextParser` with `hasNext`, `nextChar`, `unread`,
  `getPosition`, and the one-character look-ahead `isNext`. It also holds the
  offset pair of a matched fragment (`setStart` takes the offset of the
  character read last, `setEnd` the position after it) and the
  swap-with-last removal that both bags use.
- `CharConditions` — the single-character conditions `Start`/`Literal`,
  `ContainsFirstSpecial`/`Contains`, `End` and `EndNotPrecededBy`. Each is a
  specification function over the progress fields, and the class
  `CharParser` updates those fields in place and is proved to follow them.
- `StringConditions` / `StringParsers` — the multi-string conditions
  `Literal` and `End`. Their candidates are a swap-remove bag that
  `updateMatches` narrows. `End` also has the non-greedy re-match
  `findMoreRecentMatch`. The class `StringParser` keeps the bag in an array
  and runs the reverse swap-remove loop and the nested re-match loops; both
  are proved against the functions.
- `Conditions` — the condition tree as values. A `Cond` is a configuration:
  a character condition, a string condition, a `Filter`/`EndFilter` over
  conditions, or a pipe over condition sets. A `Node` is its progress.
  `Accept` is one `acceptNext` call on any condition.
- `Filters` / `FilterParsers` — `Filter` and `EndFilter`. The class
  `FilterParser` keeps its bag of sub-conditions in an array and narrows it
  in place.
- `Pipes` — what the pipes `AllRequired`, `AllRequiredPlain`,
  `OptionalSuffix`, `OptionalSuffixesAny` and `RepeatableSeparator` promise:
  - they walk their condition sets in order;
  - they append every accepted character and fail on a rejected one;
  - they complete where each kind says;
  - they use their one-character look-ahead the way each kind says.
- `Factories` — `CharParserMatchableFactory`: the first-character pre-filter,
  with the merged predicate over the distinct first characters of several
  parsers, and `createParser` by copy.
- `Drivers` — `CharMultiConditionParser.parse`. It tries the factories in
  order. It reads ahead with a simple parser; the source rewinds the cursor
  only when that parser fails, and the model, following the finding at
  `CharMultiConditionParser.java:117-136`, also when it runs out of input
  without completing. It keeps a stack of open compound parsers, which
  are offered each character newest first; at most one of them completes per
  character, and a one-character token that an older compound parser also
  uses is an error.

Conditions are values throughout the tree. A `copy()` and a `recycle()` both
give `Fresh(c)`, a condition with the same configuration and no progress.
The single-character, multi-string and filter conditions also exist as
classes whose methods are proved equal to those values. A character
predicate of the source (`CharPredicate`, `CharParserPredicate`) is a Dafny
function `char -> bool`.

## Model

| member | source | states |
|---|---|---|
| Text.Span | src/twg2/text/tokenizer/CharConditionPipe.java:372 | the span of two fragments starts at one of their starts, no later than either, and ends at one of their ends, no earlier than either |
| Text.SwapRemove | src/twg2/text/tokenizer/StringConditions.java:163 | removing entry k keeps the entries before k, moves the last entry into place k and keeps the rest, one shorter |
| Text.SwapRemoveMultiset | src/twg2/text/tokenizer/CharCompoundConditions.java:133 | swap-removal takes exactly one occurrence of the removed entry out of the bag and nothing else |
| Text.Cursor.Advance | src/twg2/text/tokenizer/CharMultiConditionParser.java:119 | reading moves the cursor by one over the same text |
| Text.Cursor.Unread | src/twg2/text/tokenizer/CharMultiConditionParser.java:132 | unreading n characters moves the cursor back by n over the same text |
| Text.TextParser.HasNext | src/twg2/text/tokenizer/CharMultiConditionParser.java:118 | true exactly when a character is left to read |
| Text.TextParser.NextChar | src/twg2/text/tokenizer/CharMultiConditionParser.java:119 | returns the character at the position and advances by one |
| Text.TextParser.Unread | src/twg2/text/tokenizer/CharMultiConditionParser.java:117 | moves the position back by n, which may not pass the start of the text |
| Text.TextParser.GetPosition | src/twg2/text/tokenizer/CharMultiConditionParser.java:112 | the offset of the character read last |
| Text.IsNext | src/twg2/text/tokenizer/CharConditions.java:324 | true exactly when a next character exists and satisfies the matcher; the cursor ends where it started |
| CharConditions.CompleteExcludesFailed | src/twg2/text/tokenizer/CharConditions.java:81-89 | a condition is never complete and failed at once |
| CharConditions.FirstCharMatcher | src/twg2/text/tokenizer/CharConditions.java:173-193 | the given first-character matcher if there is one, otherwise membership in the first-match characters (the one-character case agrees) |
| CharConditions.Matchable | src/twg2/text/tokenizer/CharConditions.java:173-193 | a matchable condition keeps its kind, matcher and first-match characters, and its first-character matcher is the given one or membership in those characters |
| CharConditions.OfChars | src/twg2/text/tokenizer/CharConditions.java:229-231 | a condition built from a character list matches, and starts with, exactly the characters of the list |
| CharConditions.WithCompletedChar | src/twg2/text/tokenizer/CharConditions.java:112-120 | the character is appended and counted as matched and accepted; the start offset is set on the first matched character; flags and end offset unchanged |
| CharConditions.WithMatchOrCompleteChar | src/twg2/text/tokenizer/CharConditions.java:123-136 | the character is appended and counted as matched; it counts as accepted, and sets the end offset, only once the condition is complete |
| CharConditions.StartAccept | src/twg2/text/tokenizer/CharConditions.java:240-258 | accepts exactly when not yet complete or failed and the matcher holds; an accepted character completes it, a rejected one fails it |
| CharConditions.ContainsAccept | src/twg2/text/tokenizer/CharConditions.java:313-333 | once complete it fails; otherwise it accepts exactly what the first-character matcher (first character) or the matcher (later ones) accepts; a rejection changes nothing, not even the failed flag; it completes exactly when the look-ahead character is missing or not matched |
| CharConditions.EndStep | src/twg2/text/tokenizer/CharConditions.java:395-399 | the character is appended and accepted; the condition is complete exactly when the matcher holds, and then its fragment ends here |
| CharConditions.EndAccept | src/twg2/text/tokenizer/CharConditions.java:389-400 | accepts exactly while neither complete nor failed; a character of the set completes it; after completion any character fails it |
| CharConditions.EndNotPrecededByAccept | src/twg2/text/tokenizer/CharConditions.java:433-460 | accepts exactly while neither complete nor failed; an escape character is flagged and not appended; the character after a flagged one, or after an escape before the match, resets the condition; otherwise it behaves as End |
| CharConditions.Accept | src/twg2/text/tokenizer/CharConditions.java:240-460 | every kind fails and refuses once complete, and a failed condition stays failed |
| CharConditions.CopyConfigAsWritten | src/twg2/text/tokenizer/CharConditions.java:302-304 | copy() as written keeps the kind, matcher and first-match characters, and its first-character matcher is membership in those characters, whatever the original's was |
| CharConditions.CopyAsWrittenAnswersAlike | src/twg2/text/tokenizer/CharConditions.java:176-190 | for a condition whose first-character matcher is membership in its first-match characters, the copy as written answers every character as the original does |
| CharConditions.ExampleIdentifier | test/twg2/text/tokenizer/test/CharConditionPipeTest.java:198-208 | the identifier condition of the pipe tests takes `_` as a first character, which is not among its first-match characters |
| CharConditions.ExampleCopyLosesFirstCharMatcher | src/twg2/text/tokenizer/CharConditions.java:337-338 | the example identifier accepts `_` first, and its copy as written refuses it |
| CharConditions.StartRun | test/twg2/text/tokenizer/test/CharConditionsTest.java:39-41 | on a text, Start is complete after one character exactly when the matcher holds (fragment 0..1), is complete or failed after it, and has failed after two |
| CharConditions.EndRun | test/twg2/text/tokenizer/test/CharConditionsTest.java:54-57 | End on a prefix has failed exactly when a character of the set came before the last one, and is complete exactly when the last one is the first of the set; its text is the prefix and its fragment starts at 0 |
| CharConditions.ContainsRun | src/twg2/text/tokenizer/CharConditions.java:313-333 | Contains fed a run of matching characters records all of them, does not fail, and is complete exactly when the next character is missing or does not match |
| CharConditions.CharParser.constructor | src/twg2/text/tokenizer/CharConditions.java:173-193 | a new condition has the given configuration and no progress |
| CharConditions.CharParser.Reset | src/twg2/text/tokenizer/CharConditions.java:139-148 | clears every progress field: a recycled condition equals a fresh one |
| CharConditions.CharParser.Copy | src/twg2/text/tokenizer/CharConditions.java:337-338 | a new condition with the same configuration, first-character matcher included, and no progress; this is the corrected code (see its line under Left out) |
| CharConditions.CharParser.AcceptedCompletedChar | src/twg2/text/tokenizer/CharConditions.java:112-120 | the fields change as WithCompletedChar says |
| CharConditions.CharParser.AcceptedMatchOrCompleteChar | src/twg2/text/tokenizer/CharConditions.java:123-136 | the fields change as WithMatchOrCompleteChar says |
| CharConditions.CharParser.AcceptNext | src/twg2/text/tokenizer/CharConditions.java:240-460 | the new fields and the result are those of Accept; the cursor is left where it was |
| CharConditions.CharParser.AcceptStart | src/twg2/text/tokenizer/CharConditions.java:240-258 | the new fields and the result are those of StartAccept |
| CharConditions.CharParser.AcceptContains | src/twg2/text/tokenizer/CharConditions.java:313-333 | the new fields and the result are those of ContainsAccept; the look-ahead leaves the cursor where it was |
| CharConditions.CharParser.AcceptEnd | src/twg2/text/tokenizer/CharConditions.java:389-400 | the new fields and the result are those of EndAccept |
| CharConditions.CharParser.AcceptEndNotPrecededBy | src/twg2/text/tokenizer/CharConditions.java:433-460 | the new fields and the result are those of EndNotPrecededByAccept, reading the character before the one just read |
| StringConditions.Init | src/twg2/text/tokenizer/StringConditions.java:53-66 | a new condition holds every candidate, no text, no count, no flags and no coordinates |
| StringConditions.PartialReset | src/twg2/text/tokenizer/StringConditions.java:340-349 | all candidates back, count and flags cleared, the text and coordinates kept |
| StringConditions.FirstChars | src/twg2/text/tokenizer/StringConditions.java:56-59 | one first character per candidate |
| StringConditions.FirstCharsIff | src/twg2/text/tokenizer/StringConditions.java:56-60 | a character is among the first characters exactly when some candidate starts with it |
| StringConditions.Keep | src/twg2/text/tokenizer/StringConditions.java:152-180 | the reference filter of the bag is never longer than the bag |
| StringConditions.KeepMember | src/twg2/text/tokenizer/StringConditions.java:161-171 | a string is kept exactly when it is a candidate longer than the offset whose character there is ch |
| StringConditions.HasCompleteSnoc | src/twg2/text/tokenizer/StringConditions.java:168-170 | some kept candidate ends at the offset exactly when one did before or the new one does |
| StringConditions.CombineSnoc | src/twg2/text/tokenizer/StringConditions.java:166-170 | one more kept candidate updates the found code as the code (as written or corrected) does |
| StringConditions.KeepSnoc | src/twg2/text/tokenizer/StringConditions.java:157-171 | the kept candidates of one more entry: those of the shorter bag, plus the entry when it matches |
| StringConditions.KeepMultisetMatch | src/twg2/text/tokenizer/StringConditions.java:166-171 | keeping a matching entry keeps the bag invariant of the loop |
| StringConditions.KeepMultisetDrop | src/twg2/text/tokenizer/StringConditions.java:162-165 | swap-removing a mismatching entry keeps the bag invariant of the loop |
| StringConditions.UpdateFromBag | src/twg2/text/tokenizer/StringConditions.java:157-177 | the reverse swap-remove loop leaves, as a multiset, exactly the kept candidates plus the unvisited rest |
| StringConditions.UpdateFromFound | src/twg2/text/tokenizer/StringConditions.java:155-171 | the loop's found code is the code of the kept candidates (as written or corrected) |
| StringConditions.UpdateMatchesMembers | src/twg2/text/tokenizer/StringConditions.java:152-180 | a result with the bag of the kept candidates holds exactly the matching candidates, is empty exactly when nothing is kept, and has a candidate ending at the offset exactly when the kept ones do |
| StringConditions.UpdateMatchesSpec | src/twg2/text/tokenizer/StringConditions.java:152-180 | the bag becomes exactly the kept candidates (as a multiset), never grows; code 0 exactly when it is empty, code 2 exactly when a kept candidate has length offset+1 |
| StringConditions.UpdateMatchesAsWritten | src/twg2/text/tokenizer/StringConditions.java:152-180 | as written: the same bag, but the code is that of the candidate visited last, so a later plain match overwrites 2 with 1 |
| StringConditions.UpdateMatchesAsWrittenMissesCompletion | src/twg2/text/tokenizer/StringConditions.java:167-170 | with candidates ab and a, fed a, the code as written is 1 while the corrected one is 2 |
| StringConditions.Appended | src/twg2/text/tokenizer/StringConditions.java:216-224 | an accepted character is appended and counted; the fragment starts on the first one and ends here once complete |
| StringConditions.LiteralAccept | src/twg2/text/tokenizer/StringConditions.java:204-232 | Literal accepts exactly when a candidate continues with ch; then it keeps exactly those, appends and counts ch, and is complete exactly when one ends here; otherwise it fails and is not complete; this is the corrected code (see its line under Left out) |
| StringConditions.Replay | src/twg2/text/tokenizer/StringConditions.java:309-314 | replaying recorded characters keeps the text, coordinates, count and failed flag, and never clears completion |
| StringConditions.ReplayMembers | src/twg2/text/tokenizer/StringConditions.java:309-314 | after the replay, a candidate remains exactly when it continues with the replayed characters |
| StringConditions.PrefixOfIff | src/twg2/text/tokenizer/StringConditions.java:309-316 | a text is a prefix of a candidate exactly when each character matches the candidate at its offset |
| StringConditions.Iteration | src/twg2/text/tokenizer/StringConditions.java:308-319 | one pass of the re-match keeps the text and coordinates and clears the count and the failed flag |
| StringConditions.IterationStep | src/twg2/text/tokenizer/StringConditions.java:316-319 | the pass ends with the newest character narrowing the replayed bag |
| StringConditions.IterationMembers | src/twg2/text/tokenizer/StringConditions.java:308-319 | after pass i, the candidates left are exactly those that start with the recorded text from i followed by ch |
| StringConditions.IterationBag | src/twg2/text/tokenizer/StringConditions.java:308-319 | the same, for any bag obtained by replaying and then narrowing with ch |
| StringConditions.IterationEmpty | src/twg2/text/tokenizer/StringConditions.java:321 | pass i finds a match exactly when some candidate starts with the recorded text from i followed by ch |
| StringConditions.TryFromOk | src/twg2/text/tokenizer/StringConditions.java:307-335 | the loop from i succeeds exactly when some start k from i up to the bound resumes a candidate, and otherwise leaves the text and coordinates |
| StringConditions.TryFromFirst | src/twg2/text/tokenizer/StringConditions.java:320-332 | on success the loop stops at the first such k, drops the first k characters, appends ch, counts the rest and moves the start by k |
| StringConditions.FindMoreRecentMatch | src/twg2/text/tokenizer/StringConditions.java:303-336 | succeeds exactly when a suffix of the recorded text (possibly empty) followed by ch starts a candidate; it keeps the longest such suffix, with the start moved by the characters dropped; on failure text and coordinates are unchanged; this is the corrected code (see its line under Left out) |
| StringConditions.FindMoreRecentMatchAsWritten | src/twg2/text/tokenizer/StringConditions.java:307 | as written, the loop stops before trying ch alone once more than one character is recorded |
| StringConditions.FindMoreRecentMatchKeepsStart | src/twg2/text/tokenizer/StringConditions.java:305-306 | when ch alone starts a candidate, the corrected re-match succeeds |
| StringConditions.FindMoreRecentMatchAsWrittenDropsStart | src/twg2/text/tokenizer/StringConditions.java:307 | End on abc, having recorded ab, fed a: the loop as written fails while the corrected one succeeds |
| StringConditions.EndAccept | src/twg2/text/tokenizer/StringConditions.java:255-290 | End accepts every character until complete; once complete it accepts exactly when a re-match exists and fails otherwise; before completion a match appends, a miss re-matches or resets; this is the corrected code (see its line under Left out) |
| StringConditions.AcceptKeepsConsistent | src/twg2/text/tokenizer/StringConditions.java:204-290 | an accepted character keeps the bag within the original candidates and the count within the recorded text |
| StringConditions.InitConsistent | src/twg2/text/tokenizer/StringConditions.java:53-66 | a new condition satisfies that invariant |
| StringParsers.StringParser.constructor | src/twg2/text/tokenizer/StringConditions.java:53-83 | fills the first characters in a loop and the bag with every candidate: the state is Init |
| StringParsers.StringParser.MatchesFirstChar | src/twg2/text/tokenizer/StringConditions.java:70-82 | true exactly when some candidate starts with ch |
| StringParsers.StringParser.Reset | src/twg2/text/tokenizer/StringConditions.java:136-145 | refills the bag at full size and clears the text, count, flags and coordinates: the state is Init |
| StringParsers.StringParser.PartialReset | src/twg2/text/tokenizer/StringConditions.java:340-349 | the state is that of PartialReset: text and coordinates kept |
| StringParsers.StringParser.Copy | src/twg2/text/tokenizer/StringConditions.java:236-238 | a new condition over the same candidates, in state Init |
| StringParsers.StringParser.UpdateMatches | src/twg2/text/tokenizer/StringConditions.java:152-180 | the reverse swap-remove loop leaves the bag and code of UpdateMatches and changes nothing else; this is the corrected code (see its line under Left out) |
| StringParsers.StringParser.Append | src/twg2/text/tokenizer/StringConditions.java:216-224 | the fields change as Appended says |
| StringParsers.StringParser.LiteralAcceptNext | src/twg2/text/tokenizer/StringConditions.java:204-232 | the new state and the result are those of LiteralAccept; this is the corrected code (see its line under Left out) |
| StringParsers.StringParser.Iterate | src/twg2/text/tokenizer/StringConditions.java:308-319 | the partial reset and inner loop leave the state of Iteration |
| StringParsers.StringParser.FindMoreRecentMatch | src/twg2/text/tokenizer/StringConditions.java:303-336 | the nested loops give the result and state of FindMoreRecentMatch; this is the corrected code (see its line under Left out) |
| StringParsers.StringParser.EndAcceptNext | src/twg2/text/tokenizer/StringConditions.java:255-290 | the new state and the result are those of EndAccept; this is the corrected code (see its line under Left out) |
| StringParsers.StringParser.AcceptNext | src/twg2/text/tokenizer/StringConditions.java:204-290 | the new state and the result are those of Accept; this is the corrected code (see its line under Left out) |
| Conditions.Fresh | src/twg2/text/tokenizer/CharConditionPipe.java:221-235 | a copy has the shape of its configuration, for every kind of condition, and keeps that configuration; this is the corrected code (see its line under Left out) |
| Conditions.FreshFirst | src/twg2/text/tokenizer/CharConditionPipe.java:210 | a pipe has a current condition exactly when its first set has one, and it is fresh |
| Conditions.MergeCoords | src/twg2/text/tokenizer/CharConditionPipe.java:372 | a condition without coordinates leaves the pipe's; the first ones are taken as they are; later ones widen the span |
| Conditions.CurCond | src/twg2/text/tokenizer/CharConditionPipe.java:99 | the current condition is the one at the pipe's indices |
| Conditions.FreshAt | src/twg2/text/tokenizer/CharConditionPipe.java:863-866 | the condition at given indices, recycled; this is the corrected code (see its line under Left out) |
| Conditions.NextCondition | src/twg2/text/tokenizer/CharConditionPipe.java:600-625 | nextCondition (OptionalSuffix 600-625, OptionalSuffixesAny 760-785, RepeatableSeparator 835-870) changes only the indices, the current condition and the complete flag, and keeps the pipe's shape; its order is stated by Pipes.NextConditionSpec and Pipes.RepeatableSeparatorCycle |
| Conditions.Finish | src/twg2/text/tokenizer/CharConditionPipe.java:391-396 | an accepted character is appended to the pipe's text; a rejected one fails the pipe |
| Conditions.LookAheadSkip | src/twg2/text/tokenizer/CharConditionPipe.java:681-685 | the look-ahead hit is returned at once; as written the recorded look-ahead stays, corrected it is cleared |
| Conditions.Accept | src/twg2/text/tokenizer/CharConditionPipe.java:362-757 | one acceptNext on any condition keeps its shape; what each kind does is stated by the lemmas of CharConditions, StringConditions, Filters and Pipes; this is the corrected code (see its line under Left out) |
| Conditions.FilterLoop | src/twg2/text/tokenizer/CharCompoundConditions.java:129-147 | the reverse loop keeps members of the filter; its result is stated by Filters.UpdateMatchesSpec |
| Conditions.FilterAccept | src/twg2/text/tokenizer/CharCompoundConditions.java:169-245 | keeps the filter's shape; stated by Filters.FilterAcceptSpec and Filters.EndFilterAcceptSpec; this is the corrected code (see its line under Left out) |
| Conditions.PipeAccept | src/twg2/text/tokenizer/CharConditionPipe.java:362-757 | keeps the pipe's shape; stated by Pipes.PipeAcceptText; this is the corrected code (see its line under Left out) |
| Conditions.SequenceAccept | src/twg2/text/tokenizer/CharConditionPipe.java:362-399 | keeps the pipe's shape; stated by Pipes.SequenceAcceptSpec |
| Conditions.SequenceStep | src/twg2/text/tokenizer/CharConditionPipe.java:439-478 | keeps the pipe's shape; stated by Pipes.SequenceAcceptSpec |
| Conditions.SequenceMove | src/twg2/text/tokenizer/CharConditionPipe.java:370-389 | moving on leaves the text, failed flag and look-ahead alone |
| Conditions.MultipleNext | src/twg2/text/tokenizer/CharConditionPipe.java:535-562 | moving on after a completed condition takes its coordinates into the pipe's span and changes only the indices, the current condition and the complete flag |
| Conditions.MultipleAccept | src/twg2/text/tokenizer/CharConditionPipe.java:522-573 | keeps the pipe's shape; stated by Pipes.MultipleAcceptSpec |
| Conditions.MultipleStep | src/twg2/text/tokenizer/CharConditionPipe.java:528-572 | keeps the pipe's shape; stated by Pipes.MultipleAcceptSpec and Pipes.MultipleLookAhead |
| Conditions.MultipleMove | src/twg2/text/tokenizer/CharConditionPipe.java:530-562 | leaves the text, failed flag and look-ahead alone |
| Conditions.ScanSuffixes | src/twg2/text/tokenizer/CharConditionPipe.java:716-737 | keeps the pipe's shape; stated by Pipes.ScanSuffixesSpec |
| Conditions.SuffixesAnyAccept | src/twg2/text/tokenizer/CharConditionPipe.java:674-757 | keeps the pipe's shape; stated by Pipes.SuffixesAnySpec; this is the corrected code (see its line under Left out) |
| Conditions.SuffixesAnyStep | src/twg2/text/tokenizer/CharConditionPipe.java:687-757 | keeps the pipe's shape; stated by Pipes.SuffixesAnySpec |
| Filters.Advanced | src/twg2/text/tokenizer/CharCompoundConditions.java:132 | a member fed ch stays the same condition |
| Filters.Survivors | src/twg2/text/tokenizer/CharCompoundConditions.java:124-150 | the reference list of survivors is never longer than the bag |
| Filters.SurvivorsMember | src/twg2/text/tokenizer/CharCompoundConditions.java:131-146 | a member survives exactly when it had not failed and accepts ch, and is kept advanced |
| Filters.HasCompleteSnoc | src/twg2/text/tokenizer/CharCompoundConditions.java:138-140 | some survivor is complete exactly when one was before or the new one is |
| Filters.CombineSnoc | src/twg2/text/tokenizer/CharCompoundConditions.java:137-140 | one more survivor updates the found code as the code (as written or corrected) does |
| Filters.SurvivorsSnoc | src/twg2/text/tokenizer/CharCompoundConditions.java:129-147 | the survivors of one more entry: those of the shorter bag, plus the entry advanced when it survives |
| Filters.SurvivorsMultisetKeep | src/twg2/text/tokenizer/CharCompoundConditions.java:136-141 | keeping an accepting member keeps the bag invariant of the loop |
| Filters.SurvivorsMultisetDrop | src/twg2/text/tokenizer/CharCompoundConditions.java:132-135 | swap-removing a failed or rejecting member keeps the bag invariant of the loop |
| Filters.LoopBag | src/twg2/text/tokenizer/CharCompoundConditions.java:129-147 | the loop leaves, as a multiset, exactly the survivors plus the unvisited rest |
| Filters.LoopFound | src/twg2/text/tokenizer/CharCompoundConditions.java:127-141 | the loop's found code is the code of the survivors (as written or corrected) |
| Filters.UpdateMatchesSpec | src/twg2/text/tokenizer/CharCompoundConditions.java:124-150 | the bag becomes exactly the survivors (as a multiset), never grows; code above 0 exactly when some member survives, 2 exactly when a survivor is complete; a member is kept exactly when it survives |
| Filters.UpdateMatchesAsWritten | src/twg2/text/tokenizer/CharCompoundConditions.java:124-150 | as written: the same bag, but the code is that of the member visited last |
| Filters.ExampleFilter | src/twg2/text/tokenizer/CharCompoundConditions.java:41-59 | a filter over End on x and Start on a is a valid filter |
| Filters.ExampleSurvivors | src/twg2/text/tokenizer/CharCompoundConditions.java:129-141 | fed a, both members survive and only the second is complete |
| Filters.UpdateMatchesAsWrittenMissesCompletion | src/twg2/text/tokenizer/CharCompoundConditions.java:137-140 | in that filter the code as written is 1 although a survivor is complete; the corrected code is 2 |
| Filters.FilterAcceptSpec | src/twg2/text/tokenizer/CharCompoundConditions.java:169-196 | Filter accepts exactly when a member survives; then it keeps the survivors, counts ch, starts its fragment on the first accepted character, and is complete (fragment ending here) once a survivor is; otherwise it fails and is not complete; this is the corrected code (see its line under Left out) |
| Filters.EndFilterAcceptSpec | src/twg2/text/tokenizer/CharCompoundConditions.java:221-245 | EndFilter refuses and fails once complete, accepts every character before that, behaves like Filter while a member survives and is reset to a fresh filter when none does; this is the corrected code (see its line under Left out) |
| Filters.FreshFilter | src/twg2/text/tokenizer/CharCompoundConditions.java:106-118 | a new filter, and one reset by the corrected reset, holds one fresh copy of each condition, in order, is neither complete nor failed and has counted nothing; this is the corrected code (see its line under Left out) |
| Filters.ResetToOriginals | src/twg2/text/tokenizer/CharCompoundConditions.java:106-118 | reset as written: the bag is the shared original conditions, in order and in their current state, and the flags, count and coordinates are cleared |
| Filters.ResetToUnusedOriginals | src/twg2/text/tokenizer/CharCompoundConditions.java:106-118 | while the originals are unused, the reset as written gives the same filter as a new copy |
| Filters.FailedBagNoSurvivors | src/twg2/text/tokenizer/CharCompoundConditions.java:129-147 | a bag of failed members keeps none, whatever the character, and the code is 0 |
| Filters.FailedOriginalsNeverComplete | src/twg2/text/tokenizer/CharCompoundConditions.java:221-245 | an EndFilter reset as written onto failed originals finds no survivor for any character and is not complete |
| Filters.ExampleEndFilter | src/twg2/text/tokenizer/CharCompoundConditions.java:213-216 | an EndFilter over Start on a is a valid filter |
| Filters.ExampleEndFilterOriginalSpent | src/twg2/text/tokenizer/CharCompoundConditions.java:106-118 | a copy of the example EndFilter fed bba: as written the second b fails the original and the reset puts it back, so the a finds no survivor; corrected, each reset is fresh and the a completes the filter |
| FilterParsers.MemberOf | src/twg2/text/tokenizer/CharCompoundConditions.java:130 | a member of the bag is one of the filter's conditions |
| FilterParsers.AcceptCases | src/twg2/text/tokenizer/CharCompoundConditions.java:170-244 | the three outcomes of acceptNext once the bag has been narrowed; this is the corrected code (see its line under Left out) |
| FilterParsers.LoopDone | src/twg2/text/tokenizer/CharCompoundConditions.java:129 | the loop ends with the bag it narrowed |
| FilterParsers.LoopKeep | src/twg2/text/tokenizer/CharCompoundConditions.java:136-141 | one turn at a member that accepts ch; this is the corrected code (see its line under Left out) |
| FilterParsers.LoopDrop | src/twg2/text/tokenizer/CharCompoundConditions.java:131-146 | one turn at a member that has failed or rejects ch |
| FilterParsers.FilterParser.Fill | src/twg2/text/tokenizer/CharCompoundConditions.java:47-55 | the bag holds a fresh copy of every condition, in order; the other fields are unchanged |
| FilterParsers.FilterParser.constructor | src/twg2/text/tokenizer/CharCompoundConditions.java:41-59 | a new filter is Fresh |
| FilterParsers.FilterParser.Reset | src/twg2/text/tokenizer/CharCompoundConditions.java:106-118 | a reset filter is Fresh, as a new copy; this is the corrected code (see its line under Left out) |
| FilterParsers.FilterParser.Copy | src/twg2/text/tokenizer/CharCompoundConditions.java:199-202 | a new filter over the same conditions, Fresh; this is the corrected code (see its line under Left out) |
| FilterParsers.FilterParser.RemoveAt | src/twg2/text/tokenizer/CharCompoundConditions.java:133 | the live part of the array becomes SwapRemove of the old one |
| FilterParsers.FilterParser.Visit | src/twg2/text/tokenizer/CharCompoundConditions.java:130-146 | one turn of the loop continues FilterLoop from the previous turn; this is the corrected code (see its line under Left out) |
| FilterParsers.FilterParser.Sweep | src/twg2/text/tokenizer/CharCompoundConditions.java:129-147 | the loop leaves the bag and code of FilterLoop; this is the corrected code (see its line under Left out) |
| FilterParsers.FilterParser.UpdateMatches | src/twg2/text/tokenizer/CharCompoundConditions.java:124-150 | the bag and code of FilterLoop (corrected), nothing else changed; this is the corrected code (see its line under Left out) |
| FilterParsers.FilterParser.Count | src/twg2/text/tokenizer/CharCompoundConditions.java:176-182 | counts ch, starts the fragment on the first accepted character and ends it here once complete |
| FilterParsers.FilterParser.AcceptNext | src/twg2/text/tokenizer/CharCompoundConditions.java:169-245 | the new state and the result are those of FilterAccept; this is the corrected code (see its line under Left out) |
| Pipes.NextConditionSpec | src/twg2/text/tokenizer/CharConditionPipe.java:600-625 | OptionalSuffix and OptionalSuffixesAny move to the next condition in reading order, skipping none, and enter it fresh; they stop at an empty set or after the last set; the pipe is complete once it left a set |
| Pipes.ScanSuffixesSpec | src/twg2/text/tokenizer/CharConditionPipe.java:716-737 | the search loop stops at the first condition, from the current one on, that accepts the character when fresh, and makes it current (fed the character, or still fresh when the character was only peeked); with none, it ends with no current condition and the pipe complete; text, failed flag, coordinates and look-ahead are unchanged |
| Pipes.PipeAcceptText | src/twg2/text/tokenizer/CharConditionPipe.java:363-366 | with no current condition every pipe fails and refuses; otherwise an accepted character is appended and a rejected one fails the pipe; a character OptionalSuffixesAny already looked ahead at is accepted without being appended; this is the corrected code (see its line under Left out) |
| Pipes.SequenceText | src/twg2/text/tokenizer/CharConditionPipe.java:391-396 | AllRequired appends what it accepts and fails on what it rejects |
| Pipes.MultipleText | src/twg2/text/tokenizer/CharConditionPipe.java:565-570 | the same for OptionalSuffix and RepeatableSeparator |
| Pipes.MultipleTextAt | src/twg2/text/tokenizer/CharConditionPipe.java:528-572 | the same, for the step the pipe takes |
| Pipes.MultipleAcceptIs | src/twg2/text/tokenizer/CharConditionPipe.java:522-573 | acceptNext is the step after the current condition took ch, with the look-ahead answer of the next condition |
| Pipes.SuffixesAnyText | src/twg2/text/tokenizer/CharConditionPipe.java:749-754 | OptionalSuffixesAny appends what it accepts and fails on what it rejects |
| Pipes.SuffixesAnyAcceptIs | src/twg2/text/tokenizer/CharConditionPipe.java:685-757 | acceptNext on a character not looked ahead at is the step after the current condition answered ch and, once complete, the next character |
| Pipes.SequenceAcceptSpec | src/twg2/text/tokenizer/CharConditionPipe.java:362-399 | AllRequired(Plain) accepts exactly what its current condition accepts; stays on it until complete; then takes its coordinates (unless Plain ignores a set's first condition) and moves to the next condition, or completes with no current condition after the last |
| Pipes.SequenceCompletesAtEnd | src/twg2/text/tokenizer/CharConditionPipe.java:384-388 | an incomplete AllRequired becomes complete only when its last condition completes on an accepted character |
| Pipes.MultipleAcceptSpec | src/twg2/text/tokenizer/CharConditionPipe.java:522-536 | OptionalSuffix and RepeatableSeparator accept exactly what the current condition accepts, stay on it until complete, then take its coordinates and move on with nextCondition |
| Pipes.MultipleLookAhead | src/twg2/text/tokenizer/CharConditionPipe.java:538-562 | in a later set, a completed condition makes the pipe peek: if the next condition accepts the next character the pipe waits on it, fresh and not complete; otherwise (and for OptionalSuffix at the end of input) it is complete with no current condition |
| Pipes.OptionalSuffixEndOfSet | src/twg2/text/tokenizer/CharConditionPipe.java:548-561 | OptionalSuffix is complete when a set's last condition completes, unless the next character starts the following optional set; after the last set it is complete |
| Pipes.RepeatableSeparatorCycle | src/twg2/text/tokenizer/CharConditionPipe.java:849-867 | after the element set the pipe is complete and enters the separator set (or the element again), recycled, unless the separator takes the next character; after the separator set it returns to the element set, recycled, with its complete flag unchanged; with a single set it restarts that set, recycled, and is complete |
| Pipes.SuffixesAnySpec | src/twg2/text/tokenizer/CharConditionPipe.java:674-757 | OptionalSuffixesAny follows its condition; when it completes with input left it peeks: the same condition taking the next character records the look-ahead; otherwise the first following condition that takes it becomes current, or the pipe is complete; at the end of input it is complete; this is the corrected code (see its line under Left out) |
| Pipes.ResetAsWritten | src/twg2/text/tokenizer/CharConditionPipe.java:197-212 | as written reset clears indices, flags, text and coordinates and restarts the first condition, but OptionalSuffixesAny keeps its look-ahead |
| Pipes.Reset | src/twg2/text/tokenizer/CharConditionPipe.java:197-212 | reset with the look-ahead cleared gives exactly a fresh copy |
| Pipes.ResetForgets | src/twg2/text/tokenizer/CharConditionPipe.java:191-212 | whatever a pipe is reset from, its next answer is that of a fresh copy |
| Pipes.ExamplePipe | src/twg2/text/tokenizer/CharConditionPipe.java:76-85 | OptionalSuffixesAny over one Literal on a or ab is a valid pipe |
| Pipes.ExampleLookAhead | src/twg2/text/tokenizer/CharConditionPipe.java:700-711 | fed a of a text starting ab, the example pipe records the look-ahead b |
| Pipes.ExampleRejectsB | src/twg2/text/tokenizer/CharConditionPipe.java:749-751 | a fresh example pipe rejects b and fails |
| Pipes.ResetAsWrittenKeepsLookAhead | src/twg2/text/tokenizer/CharConditionPipe.java:197-212 | the example pipe reset as written after a of ab accepts b, while a fresh copy rejects it |
| Pipes.LookAheadUsedOnce | src/twg2/text/tokenizer/CharConditionPipe.java:680-685 | the looked-ahead character is accepted, and the next character, whatever it is, goes to the current condition |
| Pipes.ExampleRejectsSecondB | src/twg2/text/tokenizer/CharConditionPipe.java:687-751 | the example pipe whose condition matched ab rejects a further b |
| Pipes.LookAheadSkipAsWrittenRepeats | src/twg2/text/tokenizer/CharConditionPipe.java:681-683 | on abb, as written the pipe skips the second b too; corrected it rejects it |
| Factories.AddDistinctSpec | src/twg2/text/tokenizer/CharParserMatchableFactory.java:121-127 | adding characters keeps the list as a prefix, adds no duplicate, and holds exactly the characters of both |
| Factories.GatheredSpec | src/twg2/text/tokenizer/CharParserMatchableFactory.java:118-128 | the gathered list has no duplicates and holds exactly the first characters of every parser |
| Factories.CheckFirstChars | src/twg2/text/tokenizer/CharParserMatchableFactory.java:105-113 | true exactly when every parser reports first characters |
| Factories.GatherFirstChars | src/twg2/text/tokenizer/CharParserMatchableFactory.java:117-128 | the nested loop yields the gathered list |
| Factories.FirstCharMatchers | src/twg2/text/tokenizer/CharParserMatchableFactory.java:171-179 | one matcher per parser, its own, in order |
| Factories.FirstCharPredicates | src/twg2/text/tokenizer/CharParserMatchableFactory.java:104-168 | when every parser reports first characters and there are fewer than 20 or at most maxFirstChars of them, one predicate holding exactly for the gathered characters; otherwise one matcher per parser in order |
| Factories.PredicatesNonEmpty | src/twg2/text/tokenizer/CharParserMatchableFactory.java:69 | there is always at least one predicate |
| Factories.NewFactory | src/twg2/text/tokenizer/CharParserMatchableFactory.java:34-57 | keeps the compound flag, predicates and parsers; one parser is the condition itself, several are wrapped in a Filter |
| Factories.Conds | src/twg2/text/tokenizer/CharParserMatchableFactory.java:48-53 | the parsers' conditions, in order |
| Factories.NewMatchableFactory | src/twg2/text/tokenizer/CharParserMatchableFactory.java:28-30 | the factory accepts ch exactly when some parser reports it among its first characters (merged case, limit 200) or some parser's own matcher accepts it |
| Factories.IsMatch | src/twg2/text/tokenizer/CharParserMatchableFactory.java:67-79 | true exactly when some predicate accepts ch |
| Factories.CreateParser | src/twg2/text/tokenizer/CharParserMatchableFactory.java:83-85 | a copy of the factory's condition; this is the corrected code (see its line under Left out) |
| Factories.CreateParserCopiesAll | src/twg2/text/tokenizer/CharParserMatchableFactory.java:46-56 | with several parsers the copy is a Filter holding one fresh copy of every parser, in order, neither complete nor failed |
| Drivers.Consume | src/twg2/text/tokenizer/CharMultiConditionParser.java:213-220 | the consumer gets the start offset and the length of the parser's fragment; a parser with no coordinates gives none |
| Drivers.SimpleRun | src/twg2/text/tokenizer/CharMultiConditionParser.java:118-136 | the read-ahead counts every character it reads, reads at least one when input is left, and stops complete, failed, or at the end of the text |
| Drivers.Pushed | src/twg2/text/tokenizer/CharMultiConditionParser.java:110-113 | a compound factory starts a well-formed matcher |
| Drivers.FactoryLoop | src/twg2/text/tokenizer/CharMultiConditionParser.java:105-139 | the loop over the factories keeps the text and the matchers well formed |
| Drivers.Offer | src/twg2/text/tokenizer/CharMultiConditionParser.java:163 | offering ch keeps the matcher's condition, consumer and start |
| Drivers.Remove | src/twg2/text/tokenizer/CharMultiConditionParser.java:198-202 | removal keeps the other matchers in order |
| Drivers.Reoffer | src/twg2/text/tokenizer/CharMultiConditionParser.java:180-196 | the re-offer keeps the number of matchers |
| Drivers.PassLoop | src/twg2/text/tokenizer/CharMultiConditionParser.java:159-203 | the pass keeps the matchers well formed; its outcome is stated by PassSpec |
| Drivers.ParseSpec | src/twg2/text/tokenizer/CharMultiConditionParser.java:96-150 | parse keeps the matchers well formed; its outcome is stated by ParseSpecCases |
| Drivers.Offered | src/twg2/text/tokenizer/CharMultiConditionParser.java:159-203 | offering every matcher never adds one |
| Drivers.Advanced | src/twg2/text/tokenizer/CharMultiConditionParser.java:181-185 | every matcher offered ch, all kept in place |
| Drivers.Newest | src/twg2/text/tokenizer/CharMultiConditionParser.java:159-172 | the newest matcher below i that completes with ch, and no newer one does; none when no matcher completes |
| Drivers.ReofferSpec | src/twg2/text/tokenizer/CharMultiConditionParser.java:180-196 | the re-offer reports a clash exactly when an older matcher completes or fails with ch; otherwise every older matcher is advanced and the rest are unchanged |
| Drivers.ReofferNext | src/twg2/text/tokenizer/CharMultiConditionParser.java:181-195 | the step of the re-offer at a matcher that neither completes nor fails |
| Drivers.ReofferStep | src/twg2/text/tokenizer/CharMultiConditionParser.java:185-190 | the re-offer goes on from the next older matcher |
| Drivers.AdvancedSnoc | src/twg2/text/tokenizer/CharMultiConditionParser.java:181-185 | advancing one more matcher and putting it back in place |
| Drivers.OfferedCons | src/twg2/text/tokenizer/CharMultiConditionParser.java:159-203 | the matchers offered ch from one more, older matcher |
| Drivers.PartlyOfferedWf | src/twg2/text/tokenizer/CharMultiConditionParser.java:159 | the matchers part-way through the pass are well formed |
| Drivers.PassLoopComplete | src/twg2/text/tokenizer/CharMultiConditionParser.java:172-200 | the step of the pass at a matcher that completes |
| Drivers.PassCompleteOne | src/twg2/text/tokenizer/CharMultiConditionParser.java:180-198 | the step at the newest completing matcher whose token is one character long |
| Drivers.PassCompleteStep | src/twg2/text/tokenizer/CharMultiConditionParser.java:172-200 | the step at the newest completing matcher yields the outcome of the pass |
| Drivers.PassLoopSkip | src/twg2/text/tokenizer/CharMultiConditionParser.java:166-203 | the step at a matcher that does not complete |
| Drivers.PassLoopEnd | src/twg2/text/tokenizer/CharMultiConditionParser.java:159 | once the oldest matcher is passed, every matcher was offered ch and those that completed or failed are gone |
| Drivers.PassLoopSpec | src/twg2/text/tokenizer/CharMultiConditionParser.java:159-203 | the pass below i ends as PassOutcome says for the newest completing matcher |
| Drivers.PartlyOfferedAt | src/twg2/text/tokenizer/CharMultiConditionParser.java:160 | part-way through the pass the next matcher is still untouched |
| Drivers.NextDropped | src/twg2/text/tokenizer/CharMultiConditionParser.java:202 | the matchers once a failed one was removed |
| Drivers.NextKept | src/twg2/text/tokenizer/CharMultiConditionParser.java:163 | the matchers once one was offered ch and kept |
| Drivers.PassLoopNext | src/twg2/text/tokenizer/CharMultiConditionParser.java:166-203 | the step at a non-completing matcher preserves the outcome of the pass |
| Drivers.PassSpec | src/twg2/text/tokenizer/CharMultiConditionParser.java:153-210 | newest first: with no completing matcher, every matcher is offered ch and those that completed or failed are removed; otherwise the newest completing one hands its token and is removed, newer failed ones are gone, and older ones are untouched, or after a one-character token are re-offered ch, an error if one completes or fails |
| Drivers.PassAddsAtMostOneToken | src/twg2/text/tokenizer/CharMultiConditionParser.java:199-200 | a pass hands out at most one token |
| Drivers.Pushes | src/twg2/text/tokenizer/CharMultiConditionParser.java:110-113 | the matchers the compound factories start are well formed |
| Drivers.FirstCompleting | src/twg2/text/tokenizer/CharMultiConditionParser.java:105-136 | the first simple factory that accepts ch and whose parser completes; no earlier one does; this is the corrected code (see its line under Left out) |
| Drivers.PushesCons | src/twg2/text/tokenizer/CharMultiConditionParser.java:110-113 | a compound factory pushes exactly one matcher, at the current position |
| Drivers.SimpleRewinds | src/twg2/text/tokenizer/CharMultiConditionParser.java:117-134 | a simple parser that does not complete leaves the cursor and the count as they were; this is the corrected code (see its line under Left out) |
| Drivers.LoopAtSimple | src/twg2/text/tokenizer/CharMultiConditionParser.java:116-136 | at a simple factory, a completing parser ends the loop with its token; any other leaves the cursor where it was; this is the corrected code (see its line under Left out) |
| Drivers.FactoryLoopSpec | src/twg2/text/tokenizer/CharMultiConditionParser.java:105-139 | factories are tried in order; the first simple one whose parser completes hands out its token and ends the loop, after the compound ones before it pushed matchers; with none the cursor is back, nothing counts as read and every matching compound factory pushed one; this is the corrected code (see its line under Left out) |
| Drivers.FactoryLoopCompound | src/twg2/text/tokenizer/CharMultiConditionParser.java:110-113 | the step of the loop at a matching compound factory |
| Drivers.FactoryLoopNext | src/twg2/text/tokenizer/CharMultiConditionParser.java:105-136 | the step of the loop at a factory that starts nothing and produces no token; this is the corrected code (see its line under Left out) |
| Drivers.ParseSpecCases | src/twg2/text/tokenizer/CharMultiConditionParser.java:96-150 | either a simple factory completes a token and the compound matchers are not offered ch, or the cursor is back, nothing is read and the matchers go through the pass; at most one token is handed out; this is the corrected code (see its line under Left out) |
| Drivers.SimpleRunStep | src/twg2/text/tokenizer/CharMultiConditionParser.java:119-135 | one character of the read-ahead |
| Drivers.ReadOne | src/twg2/text/tokenizer/CharMultiConditionParser.java:119-135 | one turn of the read-ahead on the shared cursor continues SimpleRun |
| Drivers.RunSimple | src/twg2/text/tokenizer/CharMultiConditionParser.java:116-136 | the read-ahead loop on the shared cursor ends as SimpleRun |
| Drivers.ScanFactories | src/twg2/text/tokenizer/CharMultiConditionParser.java:105-139 | the loop over the factories on the shared cursor ends as FactoryLoop (rewinding); this is the corrected code (see its line under Left out) |
| Drivers.ReofferOlder | src/twg2/text/tokenizer/CharMultiConditionParser.java:181-195 | the re-offer loop ends as Reoffer |
| Drivers.PassCompletedChars | src/twg2/text/tokenizer/CharMultiConditionParser.java:153-210 | the pass loop ends as PassLoop |
| Drivers.MultiConditionParser.constructor | src/twg2/text/tokenizer/CharMultiConditionParser.java:55-69 | the factories in order and no open matcher |
| Drivers.MultiConditionParser.Parse | src/twg2/text/tokenizer/CharMultiConditionParser.java:96-150 | the matchers, tokens, cursor and result after parse are those of ParseSpec; this is the corrected code (see its line under Left out) |
| Drivers.LoopPastExhausted | src/twg2/text/tokenizer/CharMultiConditionParser.java:118-136 | as written, a simple parser that runs out of input leaves the cursor at the end and keeps its count |
| Drivers.LoopPastFailed | src/twg2/text/tokenizer/CharMultiConditionParser.java:131-134 | a failed simple parser rewinds by one less than the count, which starts again at 0 |
| Drivers.ExhaustedThenFailed | src/twg2/text/tokenizer/CharMultiConditionParser.java:117-134 | as written, after an exhausted parser the next one is fed from where it stopped and its rewind decides the cursor |
| Drivers.ExampleConditions | src/twg2/text/tokenizer/CharConditions.java:229-231 | End on x and Start on a have the shapes the example needs |
| Drivers.ExampleFactories | src/twg2/text/tokenizer/CharParserMatchableFactory.java:34-57 | two well-formed simple factories |
| Drivers.ExampleEndRunsOut | src/twg2/text/tokenizer/CharMultiConditionParser.java:118-136 | an End matching neither a nor b reads a and b to the end of the text without completing or failing |
| Drivers.ExampleStartFailsOnB | src/twg2/text/tokenizer/CharMultiConditionParser.java:131-134 | Start on a fails on b |
| Drivers.ExampleStartTakesA | src/twg2/text/tokenizer/CharMultiConditionParser.java:127-129 | Start on a completes the one-character token at 0 |
| Drivers.ExhaustedParserAsWritten | src/twg2/text/tokenizer/CharMultiConditionParser.java:117-136 | in the text ab with a just read, as written, no token and the cursor before a |
| Drivers.ExhaustedParserRewound | src/twg2/text/tokenizer/CharMultiConditionParser.java:117-136 | rewinding after the exhausted parser, Start hands out the token (0, 1) and the cursor stays after a |

## Left out

- Line and column numbers: coordinates are offsets only, so the line and
  column computed in `findMoreRecentMatch`
  (src/twg2/text/tokenizer/StringConditions.java:325-328) and handed to
  consumers are not modelled.
- `Inclusion`, names, `toString`, `conditionSetToString` and the
  `parseLog` counters are not modelled: no logic shown reads them.
- Predicates that take the cursor (`CharParserPredicate.test(ch, buf)`) are
  functions of the character only; no shown predicate reads the cursor.
- Object identity is not modelled: a copy and a recycled condition are both
  `Fresh(c)`. What this does not capture: the bag of a new filter built with
  `doCopyConds` false holds the caller's objects; the `reset` of every
  `Filter` and `EndFilter`, whatever `doCopyConds` was, refills the bag with
  `originalConds`, the objects all copies of the filter share, in their
  current state (src/twg2/text/tokenizer/CharCompoundConditions.java:106-118,
  a finding below, stated by `Filters.ResetToOriginals`); and the reuse
  choice of `copyOrReuse`. The model resets every member fresh.
- Pipes: the pipes are specified as functions over the value `PipeState`
  (indices, current condition, flags, text, coordinates, look-ahead) rather
  than as a class updating its condition lists in place; conditions other
  than the current one are always fresh, so the lists are not stored, and
  `copyConditionSets` is `Fresh`.
- A pipe's first-character matcher (`initFirstChars`) is not modelled
  separately: the factories take each parser's first-character matcher as
  given.
- Java `int` overflow of counts and offsets is not modelled: counts are
  unbounded naturals.
- The exceptions of the constructors (an empty first set, a
  `RepeatableSeparator` with more than two sets, a string condition with an
  empty candidate) are preconditions (`ValidCond`, `ValidStrs`) instead of
  error results.
- Conditions.PipeShape: an `AllRequired` or `AllRequiredPlain` pipe with an
  empty later set is accepted by the constructor
  (src/twg2/text/tokenizer/CharConditionPipe.java:138-150) but throws an
  index exception in `acceptNext` when it moves on to that set
  (src/twg2/text/tokenizer/CharConditionPipe.java:378-381, 457-460). The
  model excludes that shape through `ValidCond` rather than modelling the
  fault.
- Factories.IsMatch: requires a non-empty predicate array. The public
  constructor (src/twg2/text/tokenizer/CharParserMatchableFactory.java:34-37)
  accepts an empty one, on which `isMatch` throws an index exception at
  line 70; the source's comment at line 69 takes at least one predicate for
  granted, and the constructor that derives the predicates from its
  parsers always gives at least one (`Factories.PredicatesNonEmpty`). The exception is not modelled.
- `resetFunc` of a filter is never set by the shown code and is left out.
- The token text (`getParserDestination`) is not passed to consumers; a
  token is its consumer index, start offset and length.
- The external types `CharList`, `CharArrayList`, `CharListSorted`,
  `ArrayManager`, `ReadIsMatching`, `TextFragmentRef` and the text cursor are
  not part of this model; they are replaced by sequences, `SwapRemove`,
  `IsNext`, `Coords`/`Span` and the `Cursor`/`TextParser` of `Text`.
  `TextFragmentRef.span` is taken to give the smallest fragment covering
  both.
- An `unread` past the start of the text, which the external cursor would
  reject, is the fault `UnreadPastStart` of `Drivers`.
- Factories.FirstCharPredicates: the choice between a list search and a
  sorted-list search (fewer than 20 characters or not) is not observable and
  both are membership; the `count < 20` test being checked before
  `maxFirstChars` is modelled as written.
- The open compound parsers are values in `Drivers`; the parser objects are
  not shared with anything else.
- `StringParserBuilder.java`, `StringBoundedParserBuilder.java`,
  `CharParserFactory.java` (an interface) and the `analytics` package are
  not part of this model.
- StringConditions.Accept has no contract of its own; its properties are
  stated by StringConditions.LiteralAccept, StringConditions.EndAccept and
  StringConditions.AcceptKeepsConsistent.

The members below state the corrected code of a finding, not the code as
written; the as-written behaviour is stated only by the as-written member of
that finding.

- StringConditions.LiteralAccept: corrected found code of the finding at src/twg2/text/tokenizer/StringConditions.java:167-170; as written a `Literal` whose fully matched candidate is visited before a partial one is not complete.
- StringConditions.FindMoreRecentMatch: corrected loop bound of the finding at src/twg2/text/tokenizer/StringConditions.java:307; as written the new character alone is never tried once two or more characters are recorded.
- StringConditions.EndAccept: corrected code of the finding at src/twg2/text/tokenizer/StringConditions.java:167-170 and of the finding at src/twg2/text/tokenizer/StringConditions.java:307; as written `End` can miss a completion and can reset where a re-match from the new character exists.
- StringParsers.StringParser.UpdateMatches: the loop is proved against the corrected found code of the finding at src/twg2/text/tokenizer/StringConditions.java:167-170.
- StringParsers.StringParser.LiteralAcceptNext: corrected code of the finding at src/twg2/text/tokenizer/StringConditions.java:167-170.
- StringParsers.StringParser.FindMoreRecentMatch: the loops use the corrected bound of the finding at src/twg2/text/tokenizer/StringConditions.java:307.
- StringParsers.StringParser.EndAcceptNext: corrected code of the finding at src/twg2/text/tokenizer/StringConditions.java:167-170 and of the finding at src/twg2/text/tokenizer/StringConditions.java:307.
- StringParsers.StringParser.AcceptNext: corrected code of the finding at src/twg2/text/tokenizer/StringConditions.java:167-170 and of the finding at src/twg2/text/tokenizer/StringConditions.java:307.
- Conditions.Fresh: as a copy it keeps every configuration, the corrected copy of the finding at src/twg2/text/tokenizer/CharConditions.java:337-338; as written the copy of a `ContainsFirstSpecial` built with its own first-character matcher tests membership in `firstMatchChars` instead. It also stands for `recycle`, which is the corrected reset of the finding at src/twg2/text/tokenizer/CharCompoundConditions.java:106-118 and of the finding at src/twg2/text/tokenizer/CharConditionPipe.java:197-212; as written a recycled filter holds its shared originals and a recycled `OptionalSuffixesAny` keeps its look-ahead.
- CharConditions.CharParser.Copy: keeps the first-character matcher, the corrected copy of the finding at src/twg2/text/tokenizer/CharConditions.java:337-338; as written a `ContainsFirstSpecial` built with a matcher of its own is copied with membership in `firstMatchChars` instead (`CharConditions.CopyConfigAsWritten`). For every other condition the two copies answer alike (`CharConditions.CopyAsWrittenAnswersAlike`).
- FilterParsers.FilterParser.Copy: its members are copies that keep their configuration, the corrected copy of the finding at src/twg2/text/tokenizer/CharConditions.java:337-338.
- Factories.CreateParser: the new parser keeps its configuration, the corrected copy of the finding at src/twg2/text/tokenizer/CharConditions.java:337-338. As written the factory's pre-filter tests the original's first-character matcher while the new parser tests membership in `firstMatchChars`, so a factory can be chosen whose new parser refuses the same character; the model does not show this.
- Conditions.FreshAt: a recycled condition is fresh, the corrected reset of the finding at src/twg2/text/tokenizer/CharCompoundConditions.java:106-118 and of the finding at src/twg2/text/tokenizer/CharConditionPipe.java:197-212.
- Conditions.Accept: dispatches to the corrected code of every finding on conditions (the finding at src/twg2/text/tokenizer/StringConditions.java:167-170, the finding at src/twg2/text/tokenizer/StringConditions.java:307, the finding at src/twg2/text/tokenizer/CharCompoundConditions.java:137-140, the finding at src/twg2/text/tokenizer/CharCompoundConditions.java:106-118, the finding at src/twg2/text/tokenizer/CharConditionPipe.java:681-683).
- Conditions.FilterAccept: corrected found code of the finding at src/twg2/text/tokenizer/CharCompoundConditions.java:137-140, and an `EndFilter` with no survivor resets fresh as in the finding at src/twg2/text/tokenizer/CharCompoundConditions.java:106-118; as written it resets onto the shared originals.
- Conditions.PipeAccept: through `SuffixesAnyAccept`, the corrected look-ahead of the finding at src/twg2/text/tokenizer/CharConditionPipe.java:681-683.
- Conditions.SuffixesAnyAccept: the look-ahead is used once, corrected code of the finding at src/twg2/text/tokenizer/CharConditionPipe.java:681-683; as written an equal next character is skipped too.
- Filters.FilterAcceptSpec: corrected found code of the finding at src/twg2/text/tokenizer/CharCompoundConditions.java:137-140; as written the filter can stay incomplete when a survivor other than the first one visited completes.
- Filters.EndFilterAcceptSpec: corrected code of the finding at src/twg2/text/tokenizer/CharCompoundConditions.java:137-140 and of the finding at src/twg2/text/tokenizer/CharCompoundConditions.java:106-118; as written the reset with no survivor gives the shared originals in their current state, not a fresh filter.
- Filters.FreshFilter: holds of a new copy and of the corrected reset of the finding at src/twg2/text/tokenizer/CharCompoundConditions.java:106-118; as written only the first reset gives fresh members.
- FilterParsers.AcceptCases: corrected code of the finding at src/twg2/text/tokenizer/CharCompoundConditions.java:137-140 and of the finding at src/twg2/text/tokenizer/CharCompoundConditions.java:106-118.
- FilterParsers.LoopKeep: the loop turn with the corrected found code of the finding at src/twg2/text/tokenizer/CharCompoundConditions.java:137-140.
- FilterParsers.FilterParser.Reset: corrected reset of the finding at src/twg2/text/tokenizer/CharCompoundConditions.java:106-118; as written the array is refilled with the shared originals.
- FilterParsers.FilterParser.Visit: the loop turn with the corrected found code of the finding at src/twg2/text/tokenizer/CharCompoundConditions.java:137-140.
- FilterParsers.FilterParser.Sweep: the loop with the corrected found code of the finding at src/twg2/text/tokenizer/CharCompoundConditions.java:137-140.
- FilterParsers.FilterParser.UpdateMatches: corrected found code of the finding at src/twg2/text/tokenizer/CharCompoundConditions.java:137-140.
- FilterParsers.FilterParser.AcceptNext: corrected code of the finding at src/twg2/text/tokenizer/CharCompoundConditions.java:137-140 and of the finding at src/twg2/text/tokenizer/CharCompoundConditions.java:106-118.
- Pipes.PipeAcceptText: the look-ahead is used once, corrected code of the finding at src/twg2/text/tokenizer/CharConditionPipe.java:681-683.
- Pipes.SuffixesAnySpec: the look-ahead is used once, corrected code of the finding at src/twg2/text/tokenizer/CharConditionPipe.java:681-683.
- Drivers.FirstCompleting: a simple parser that runs out of input is rewound, corrected code of the finding at src/twg2/text/tokenizer/CharMultiConditionParser.java:117-136; as written the later factories are tried from where that parser left the cursor, and its characters stay counted as read.
- Drivers.SimpleRewinds: corrected code of the finding at src/twg2/text/tokenizer/CharMultiConditionParser.java:117-136; as written only a failed parser is rewound.
- Drivers.LoopAtSimple: corrected code of the finding at src/twg2/text/tokenizer/CharMultiConditionParser.java:117-136.
- Drivers.FactoryLoopSpec: corrected code of the finding at src/twg2/text/tokenizer/CharMultiConditionParser.java:117-136.
- Drivers.FactoryLoopNext: corrected code of the finding at src/twg2/text/tokenizer/CharMultiConditionParser.java:117-136.
- Drivers.ParseSpecCases: corrected code of the finding at src/twg2/text/tokenizer/CharMultiConditionParser.java:117-136.
- Drivers.ScanFactories: corrected code of the finding at src/twg2/text/tokenizer/CharMultiConditionParser.java:117-136.
- Drivers.MultiConditionParser.Parse: corrected code of the finding at src/twg2/text/tokenizer/CharMultiConditionParser.java:117-136, and the conditions it feeds follow the corrected code of the other findings.

## Findings

| source | as written | input that shows it | evidently intended | confidence | as-written member | corrected member |
|---|---|---|---|---|---|---|
| src/twg2/text/tokenizer/StringConditions.java:167-170 | `found = 1` on a plain match overwrites a 2 set by a candidate visited earlier in the reverse loop | candidates `["ab", "a"]` fed `a` at offset 0: the loop visits `a` (found 2), then `ab` (found 1), returns 1, and the `Literal` is not complete although `a` matched fully | 2 whenever some kept candidate is fully matched, as the method's comment says | high, not executed | StringConditions.UpdateMatchesAsWrittenMissesCompletion | StringConditions.UpdateMatchesSpec |
| src/twg2/text/tokenizer/CharCompoundConditions.java:137-140 | the same overwrite in the filter's loop | a filter over `End` on `x` and `Start` on `a`, fed `a`: `Start` completes but `End`, visited last, resets the code to 1 | 2 whenever a survivor is complete | high, not executed | Filters.UpdateMatchesAsWrittenMissesCompletion | Filters.UpdateMatchesSpec |
| src/twg2/text/tokenizer/CharConditionPipe.java:197-212 | `reset` does not clear `prevCallLookAheadSucceeded`/`prevCallLookAheadChar` of `OptionalSuffixesAny` (fields at 652-653) | `OptionalSuffixesAny` over `Literal` on `a` or `ab`, fed `a` of `ab` (look-ahead `b` recorded), then reset: it accepts `b`, which a fresh copy rejects | a recycled pipe behaves as a new copy | medium, not executed | Pipes.ResetAsWrittenKeepsLookAhead | Pipes.ResetForgets |
| src/twg2/text/tokenizer/StringConditions.java:307 | the loop `i < size \|\| (i == 1 && size == 1)` never tries the new character on its own once two or more are recorded | `End` on `abc` having recorded `ab`, fed `a`: no re-match, so the condition resets and `ababc` never completes | try every suffix, down to the new character alone (`i <= size`), as the comment at 306 does for one character | medium, not executed | StringConditions.FindMoreRecentMatchAsWrittenDropsStart | StringConditions.FindMoreRecentMatchKeepsStart |
| src/twg2/text/tokenizer/CharConditionPipe.java:681-683 | the look-ahead flag is not cleared when the looked-ahead character is consumed, so an equal next character is skipped too | the example pipe on `abb`: the second `b` is accepted without reaching the condition, which has matched `ab` and cannot take it | use the look-ahead once | medium, not executed | Pipes.LookAheadSkipAsWrittenRepeats | Pipes.LookAheadUsedOnce |
| src/twg2/text/tokenizer/CharMultiConditionParser.java:117-136 | a simple parser that runs out of input ends the `while(buf.hasNext())` loop without rewinding, and `charsRead` is kept | text `ab` with `a` just read, factories `End` on `x` then `Start` on `a`: `End` reads to the end; `Start` is fed `b`, fails, and rewinds two characters, so no token and the cursor is before `a` | rewind as after a failure, so that `Start` produces the token (0, 1) | medium, not executed | Drivers.ExhaustedParserAsWritten | Drivers.ExhaustedParserRewound |
| src/twg2/text/tokenizer/CharCompoundConditions.java:106-118 | `reset` refills the bag with `originalConds`, the objects every copy of the filter shares (199-202, 249-251), without resetting them, so from the second reset on the filter feeds originals that may already have failed | an `EndFilter` copy over `Start` on `a` fed `bba`: the first `b` resets onto the unused original, the second `b` fails it, and the next reset puts the failed original back, so the `a` does not complete the filter | reset every member, so that a recycled filter answers like a new copy and the `a` completes it | medium, not executed | Filters.ExampleEndFilterOriginalSpent | Filters.EndFilterAcceptSpec |
| src/twg2/text/tokenizer/CharConditions.java:337-338 | `ContainsFirstSpecial.copy()` calls the constructor without a first-character matcher (302-304), so the base constructor (176-190) makes the copy test membership in `firstMatchChars`, dropping a matcher given to the constructor at 307-309 | the identifier condition of test/twg2/text/tokenizer/test/CharConditionPipeTest.java:198-208, whose matcher takes `_` first but whose first-match characters are the letters: the original accepts `_` as its first character, its copy refuses it | the copy keeps the original's first-character matcher | medium, not executed | CharConditions.ExampleCopyLosesFirstCharMatcher | CharConditions.CharParser.Copy |
