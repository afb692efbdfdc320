# SAT practice site: wrong-question store, cloud sync and helpers

This project is a Dafny model of the logic core of an SAT practice web site.
The site lets a student practise questions and keeps the questions they got
wrong in the browser. It copies them to a cloud table when they are signed in.
The model covers:

- **the local wrong-question store** (`LocalStore`): the two IndexedDB object
  stores, "wrongQuestions" keyed by `externalId` and "questionProgress" keyed
  by `questionId`, as maps in a class. The module-level list of update
  callbacks, with its register, unregister and notify operations, lives there
  too. The operations are save (an upsert that counts attempts), remove,
  clear, mark-synced, list, list-unsynced, export and import;
- **the question sanitiser, answer checker and explanation builders**
  (`EnhancedPractice`, `PracticeUtils`):
  - `cleanQuestionForStorage`, with its JSON round trip (`JsValues`);
  - `checkAnswer`;
  - the choice-letter mapping;
  - the output shape and final "is correct" relabelling pass of
    `parseCollegeBoardExplanation`;
  - the older splitter `parseExplanation`, with its four strategies;
  - `formatTime`, `formatDuration`, the performance bands and the integer
    counters of `getSessionStats`;
- **the sync rules and the sync service** (`SyncRules`, `SyncService`):
  - the update, conflict and merge rules;
  - the diff of the two-way sync into upload, update, conflict,
    already-matching and download lists;
  - the `syncInProgress` guard of the push;
  - the "insert only missing master rows" step;
  - the batched upsert and the immediate single-question push, over the
    user's cloud rows and the master question table as maps;
- **the fixed-window rate limiter** (`RateLimiter`) over the `rate_limits`
  table, keyed by (identifier, action);
- **authentication** (`Auth`):
  - the three credential validators and the order `register` applies them in;
  - the failed-login counter with its 30-minute lock;
  - the 7-day session-restore window;
  - the `currentUser` field;
- **the question puller** (`QuestionPuller`):
  - defaulting of a fetched question;
  - the skip / update / insert decision;
  - the batch loop of 50 ids with its pause between batches;
- **the AMC fixer** (`FixAmc`): backslash doubling and the map over problems,
  options and solutions.

Time is integer epoch milliseconds, and the clock is a parameter. The network,
the database, bcrypt and the DOM parser are also parameters: every call takes
what they would answer or whether they fail. `Text` holds the JavaScript
string operations the core uses, such as `\s` whitespace, `trim`, `padStart`,
`indexOf`, `split` and decimal printing. `Wrappers` holds `Option`.

## Model

| member | source | states |
|---|---|---|
| FixAmc.EscapeLatexLength | fixAMCJson.ts:51-53 | the escaped text is longer than the input by exactly its number of backslashes |
| FixAmc.EscapeLatexNoBackslash | fixAMCJson.js:9-11 | a text without a backslash is returned unchanged |
| FixAmc.EscapeLatexKeepsOtherCharacters | fixAMCJson.ts:51-53 | once the backslashes are removed, input and output are the same text: only backslashes are touched |
| FixAmc.UnescapeEscapeLatex | fixAMCJson.js:9-11 | collapsing each doubled backslash of the output gives back the input |
| FixAmc.FixProblems | fixAMCJson.ts:26-28 | problem count and order are kept, `id`, `correct_option` and the other members are unchanged, and `question` is escaped |
| FixAmc.FixedOptionsShape | fixAMCJson.js:26-29 | options keep their count, order, label and other members; only `value` is escaped |
| FixAmc.FixedSolutionShape | fixAMCJson.ts:33-35 | a string solution stays a string and is escaped; an array stays an array of the same length with each line escaped |
| FixAmc.FixProblemsRoundTrip | fixAMCJson.js:23-33 | unescaping every text of the fixed problems gives back the original problems |
| PracticeUtils.Pad2Digits | src/utils/practiceUtils.ts:9-11 | `toString().padStart(2, '0')` gives at least two decimal digits that read back as the number |
| PracticeUtils.ClockDecomposition | src/utils/practiceUtils.ts:4-6 | hours, minutes and seconds from the div/mod recombine to the input, and minutes stay below 60 |
| PracticeUtils.ClockTextFields | src/utils/practiceUtils.ts:8-12 | the text splits at ':' into three padded fields when hours > 0, else into two |
| PracticeUtils.FormatTimeShape | src/utils/enhancedPracticeUtils.ts:681-691 | "HH:MM:SS" (three fields) from one hour on, "MM:SS" below; every field has at least two digits |
| PracticeUtils.ClockTextShape | src/utils/enhancedPracticeUtils.ts:681-691 | for any hour, minute and second counts the clock text has three fields with an hour and two without, each of at least two digits |
| PracticeUtils.FormatTimeRoundTrip | src/utils/practiceUtils.ts:3-13 | reading the clock text back in base 60 gives the number of seconds |
| PracticeUtils.Base60Fields | src/utils/practiceUtils.ts:3-13 | reading two or three fields back in base 60 is the usual positional sum |
| PracticeUtils.FormatDurationRoundTrip | src/utils/practiceUtils.ts:163-172 | "{h}h {m}m" or "{m}m" reads back as the whole minutes of the input |
| PracticeUtils.DurationTextRoundTrip | src/utils/practiceUtils.ts:163-172 | the text for h hours and m minutes reads back as h * 60 + m minutes |
| PracticeUtils.PerformanceLevel | src/utils/practiceUtils.ts:149-155 | the level's rank is the number of the thresholds 60, 70, 80, 90 the accuracy reaches |
| PracticeUtils.PerformanceColor | src/utils/practiceUtils.ts:157-161 | the colour's rank is the number of the thresholds 60, 80 the accuracy reaches |
| PracticeUtils.LevelThresholdsReached | src/utils/practiceUtils.ts:149-155 | the level bands are >= 90 / >= 80 / >= 70 / >= 60 / below |
| PracticeUtils.ColorThresholdsReached | src/utils/practiceUtils.ts:157-161 | the colour bands are >= 80 / >= 60 / below |
| PracticeUtils.PerformanceMonotone | src/utils/practiceUtils.ts:149-161 | a higher accuracy never gives a lower level or a lower colour |
| PracticeUtils.LevelAndColorAgree | src/utils/practiceUtils.ts:149-161 | green exactly for the two best levels, yellow exactly for the two middle ones |
| PracticeUtils.FindOption | src/utils/practiceUtils.ts:140 | `findIndex`: the first option with the id, or none when no option has it |
| PracticeUtils.SelectedChoiceLetter | src/utils/practiceUtils.ts:135-142 | null exactly for an empty answer, missing options or no option with that id |
| PracticeUtils.SelectedChoiceLetterFirst | src/utils/practiceUtils.ts:135-142 | a letter, when there is one, is 65 + the index of the first option with the selected id, as a UTF-16 code unit |
| PracticeUtils.BuildResult | src/utils/practiceUtils.ts:121-132 | four entries A-D in order with non-empty content; correct exactly when the letter is the correct answer, selected exactly when it is the selected choice letter; a non-empty text is kept |
| PracticeUtils.SelectedEntry | src/utils/practiceUtils.ts:125-131 | an entry is selected exactly when its position holds the first option whose id is the selected answer |
| PracticeUtils.SelectedLetterAt | src/utils/practiceUtils.ts:135-142 | the letter is the code of the k-th letter exactly when option k is the first one carrying the selected id |
| PracticeUtils.MarkersFrom | src/utils/practiceUtils.ts:65-66 | every reported index is a `/Choice ([A-D])[:\s]/i` match, in ascending order, at least nine characters apart; `PracticeUtils.MarkersComplete` proves that every match is reported |
| PracticeUtils.MarkersDoNotOverlap | src/utils/practiceUtils.ts:65-66 | no match starts inside another one |
| PracticeUtils.MarkersComplete | src/utils/practiceUtils.ts:65-66 | every match at or after the start of the search is reported, so resuming after a match loses nothing |
| PracticeUtils.MarkerCharacters | src/utils/practiceUtils.ts:65 | a match starts with "choice " in either case and a letter A-D, and its ninth character is neither "c" nor "h" |
| PracticeUtils.SegmentsOfDistinctLetters | src/utils/practiceUtils.ts:68-77 | with each letter marked once, a letter holds `<p>` + its trimmed segment + `</p>`, or stays empty when the segment is empty |
| PracticeUtils.UntouchedLetter | src/utils/practiceUtils.ts:68-77 | a letter no marker names keeps its empty text |
| PracticeUtils.GeneralExplanation | src/utils/practiceUtils.ts:108-113 | strategy 4 gives every letter the whole explanation |
| PracticeUtils.GeneralFallback | src/utils/practiceUtils.ts:116-118 | when strategies 1-3 find nothing, all four choices get the whole explanation |
| PracticeUtils.ParseExplanation | src/utils/practiceUtils.ts:22-133 | [] for an empty explanation, otherwise the result built from the first strategy that succeeds |
| PracticeUtils.ParseIndividualChoices | src/utils/practiceUtils.ts:41-60 | the paragraph loop computes the paragraph scan; when no paragraph starts a choice, the texts stay empty |
| PracticeUtils.ParseChoicePatterns | src/utils/practiceUtils.ts:63-81 | the loop over matches fills the letters as the segment specification says |
| PracticeUtils.ParseCorrectIncorrectPatterns | src/utils/practiceUtils.ts:85-102 | the loop over recognised sentences appends each sentence to its letter and reports whether any counted |
| PracticeUtils.FindMarkers | src/utils/practiceUtils.ts:65-66 | the scanning loop finds exactly the matches `matchAll` reports |
| JsValues.JsonSafeRoundTrip | src/utils/enhancedPracticeUtils.ts:60-73 | a value without `undefined`, host objects or DOM nodes survives `JSON.parse(JSON.stringify(v, replacer))` unchanged |
| JsValues.JsonRoundTripIsSafe | src/utils/enhancedPracticeUtils.ts:60-73 | whatever the round trip yields survives a second round trip |
| EnhancedPractice.TruthyStringsCount | src/utils/enhancedPracticeUtils.ts:77-78 | `filter(Boolean).map(String)` keeps a list of non-empty strings as it is |
| EnhancedPractice.TruthyStrings | src/utils/enhancedPracticeUtils.ts:77-78 | one string per truthy entry, each the `String` of a truthy entry |
| EnhancedPractice.CorrectAnswerList | src/utils/enhancedPracticeUtils.ts:76-84 | an array keeps its truthy entries as strings (possibly none), a truthy scalar is wrapped, a falsy value becomes ["A"] |
| EnhancedPractice.OptionalString | src/utils/enhancedPracticeUtils.ts:89-93 | an optional member is absent exactly when it is falsy |
| EnhancedPractice.CleanQuestion | src/utils/enhancedPracticeUtils.ts:55-124 | null exactly for a falsy question; when serialisation fails, the minimal fallback record |
| EnhancedPractice.CleanQuestionDefaults | src/utils/enhancedPracticeUtils.ts:86-96 | for a question JSON carries unchanged, `type` defaults to "mcq", the text members to "", and `correct_answer` follows its rule |
| EnhancedPractice.CleanFallback | src/utils/enhancedPracticeUtils.ts:112-123 | the fallback record has exactly one correct answer and no stimulus, image or options |
| EnhancedPractice.CleanOptions | src/utils/enhancedPracticeUtils.ts:99-108 | one cleaned option per entry that is a non-null object; every other entry is dropped |
| EnhancedPractice.CleanEncodedOptions | src/utils/enhancedPracticeUtils.ts:99-109 | sanitising stored options gives the same options back |
| EnhancedPractice.EncodeIsJsonSafe | src/utils/enhancedPracticeUtils.ts:60-73 | a stored question contains nothing the serialiser drops |
| EnhancedPractice.EncodeMembers | src/utils/enhancedPracticeUtils.ts:86-109 | the stored question carries each cleaned member under its own name, and leaves out the absent optional ones |
| EnhancedPractice.CleanEncode | src/utils/enhancedPracticeUtils.ts:55-109 | sanitising a stored question again gives the same record: the sanitiser is idempotent on its results |
| EnhancedPractice.CheckAnswer | src/utils/enhancedPracticeUtils.ts:365-388 | false for a missing question, an empty answer or a type other than "mcq"/"spr" |
| EnhancedPractice.CheckMcqStored | src/utils/enhancedPracticeUtils.ts:368-373 | for a stored mcq question, true exactly when the answer is the id of the option at index (code of the first letter of `correct_answer[0]` - 65) |
| EnhancedPractice.CheckMcqNoAnswers | src/utils/enhancedPracticeUtils.ts:369-370 | an mcq question with an empty answer list makes the checker throw |
| EnhancedPractice.CheckMcqAgreesWithSelection | src/utils/enhancedPracticeUtils.ts:355-373 | with distinct option ids, the checker accepts exactly the answer whose choice letter is the correct letter |
| EnhancedPractice.SelectionNamesOption | src/utils/practiceUtils.ts:135-142 | with distinct option ids, the computed letter is a code exactly when the option at (code - 65) carries the selected id |
| EnhancedPractice.SprAnyStrings | src/utils/enhancedPracticeUtils.ts:376-384 | over string answers, `some` never throws and accepts exactly when one answer matches |
| EnhancedPractice.CheckSprStored | src/utils/enhancedPracticeUtils.ts:374-384 | a stored spr question accepts exactly when the trimmed lower-case answer matches one of its answers |
| EnhancedPractice.NoPhraseMeansSilent | src/utils/enhancedPracticeUtils.ts:318 | `/is correct/i.test` is false exactly when the phrase occurs nowhere in the text |
| EnhancedPractice.PhraseCharacters | src/utils/enhancedPracticeUtils.ts:318-320 | the characters of "is correct" that the negation proofs rely on |
| EnhancedPractice.IncorrectCharacters | src/utils/enhancedPracticeUtils.ts:320 | the characters of "is incorrect" that the negation proofs rely on |
| EnhancedPractice.ClarificationCharacters | src/utils/enhancedPracticeUtils.ts:323-327 | the characters of " is incorrect." that the insertion proof relies on |
| EnhancedPractice.MatchSameText | src/utils/enhancedPracticeUtils.ts:318-320 | a case-insensitive match depends only on the ten characters it covers |
| EnhancedPractice.NegatePrefix | src/utils/enhancedPracticeUtils.ts:320 | a suffix of the phrase at the start of the negated text was already at the start of the input |
| EnhancedPractice.NegateSilences | src/utils/enhancedPracticeUtils.ts:320 | replacing every "is correct" by "is incorrect" leaves no "is correct" anywhere |
| EnhancedPractice.InsertClarification | src/utils/enhancedPracticeUtils.ts:323-327 | putting " is incorrect." between two silent texts creates no "is correct" |
| EnhancedPractice.ClarifiedStaysSilent | src/utils/enhancedPracticeUtils.ts:322-328 | inserting the clarification after the first "Choice X" keeps a silent text silent |
| EnhancedPractice.DefaultStaysSilent | src/utils/enhancedPracticeUtils.ts:333-336 | the default text of a wrong letter does not say "is correct" |
| EnhancedPractice.ByLetter | src/utils/enhancedPracticeUtils.ts:343-351 | the result builder reads each letter's text under its one-character key |
| EnhancedPractice.FinalPassEntryFacts | src/utils/enhancedPracticeUtils.ts:315-338 | after the final pass a letter's text is non-empty, a wrong letter's text never says "is correct", and the correct letter's non-empty text is kept |
| EnhancedPractice.FinalPassLetter | src/utils/enhancedPracticeUtils.ts:315-338 | after the loop each letter holds the final-pass form of its earlier text |
| EnhancedPractice.FinalPass | src/utils/enhancedPracticeUtils.ts:315-338 | the loop over A, B, C, D leaves the texts the final-pass specification gives after all four letters |
| EnhancedPractice.CollegeBoardResultShape | src/utils/enhancedPracticeUtils.ts:340-352 | four entries A-D with non-empty content; correct exactly for the correct letter; selected exactly at the first option with the selected id; no wrong entry says "is correct" |
| EnhancedPractice.ParseCollegeBoardExplanation | src/utils/enhancedPracticeUtils.ts:127-353 | [] without rationale or options; otherwise the strategy texts, or strategy 4's, go through the final-pass loop and become the four entries |
| EnhancedPractice.ParseFallback | src/utils/enhancedPracticeUtils.ts:271-298 | the strategy 4 loop: the correct letter first, then each other letter still without text |
| EnhancedPractice.CountsOrdered | src/utils/enhancedPracticeUtils.ts:752-757 | correct <= answered <= total |
| EnhancedPractice.GetSessionStats | src/utils/enhancedPracticeUtils.ts:748-766 | the counting loop gives the total, the answered and correct counts, and incorrect = answered - correct >= 0 |
| LocalStore.Without | src/utils/enhancedPracticeUtils.ts:397-399 | the filter removes every registration of the callback and keeps every other one as often as it was there |
| LocalStore.WithoutAppend | src/utils/enhancedPracticeUtils.ts:398 | the filter keeps the order of the remaining callbacks |
| LocalStore.WithoutAbsent | src/utils/enhancedPracticeUtils.ts:398 | removing a callback that was never registered changes nothing |
| LocalStore.LookupsAgreeOnStringIds | src/utils/enhancedPracticeUtils.ts:512-513 | for a string id, the lookup as written finds the same record as the lookup under the stored key |
| LocalStore.SavedRecord | src/utils/enhancedPracticeUtils.ts:527-536 | the record sits under the stringified id (the empty string for a falsy id), counts one more attempt than the previous record (or one), is unsynced unless the immediate push succeeded, and carries the answer, time and cleaned question |
| LocalStore.SaveUpserts | src/utils/enhancedPracticeUtils.ts:499-540 | saving a truthy question upserts exactly its key with the saved record; every other key keeps its record |
| LocalStore.SaveTwiceCountsTwice | src/utils/enhancedPracticeUtils.ts:513-536 | with the corrected lookup, two saves of a new question count two attempts |
| LocalStore.AsWrittenLookupMisses | src/utils/enhancedPracticeUtils.ts:513 | as written, a question whose id is the number 42 still counts one attempt after two saves |
| LocalStore.MarkSpec | src/utils/enhancedPracticeUtils.ts:806-819 | marking keeps the keys, makes only the matching record synced at `now`, and leaves the others |
| LocalStore.MarkAllEffect | src/utils/wrongQuestionsSync.ts:514-516 | marking a list of ids keeps the keys, syncs exactly the listed records and leaves the others |
| LocalStore.Prepared | src/utils/enhancedPracticeUtils.ts:655-663 | an imported record keeps its `externalId` |
| LocalStore.PutAllKeys | src/utils/enhancedPracticeUtils.ts:653-666 | after an import the keys are the old keys plus the imported ids |
| LocalStore.PutAllUntouched | src/utils/enhancedPracticeUtils.ts:653-666 | a key no imported item carries keeps its record |
| LocalStore.PutAllLastWins | src/utils/enhancedPracticeUtils.ts:653-666 | an imported key holds the prepared form of the last item with that key |
| LocalStore.ExportImportRoundTrip | src/utils/enhancedPracticeUtils.ts:632-678 | importing an export into an empty store gives the store back when its records re-import unchanged |
| LocalStore.Unsynced | src/utils/enhancedPracticeUtils.ts:822-830 | exactly the listed records whose `isSynced` is false |
| LocalStore.WrongQuestionStore.constructor | src/utils/enhancedPracticeUtils.ts:389 | empty stores and no callbacks |
| LocalStore.WrongQuestionStore.On | src/utils/enhancedPracticeUtils.ts:393-395 | the callback is appended; nothing else changes |
| LocalStore.WrongQuestionStore.Off | src/utils/enhancedPracticeUtils.ts:397-399 | the callback list becomes the filtered list; nothing else changes |
| LocalStore.WrongQuestionStore.Notify | src/utils/enhancedPracticeUtils.ts:401-403 | each registered callback is called once, in order |
| LocalStore.WrongQuestionStore.SaveWrongQuestion | src/utils/enhancedPracticeUtils.ts:499-559 | the store becomes the upsert specification (the corrected lookup; see ## Findings); the callbacks are notified once for a truthy question and not at all for a falsy one |
| LocalStore.WrongQuestionStore.Put | src/utils/enhancedPracticeUtils.ts:449-459 | `put` into "wrongQuestions" stores the record under its own key, replacing any earlier one; nothing else changes |
| LocalStore.WrongQuestionStore.RemoveWrongQuestion | src/utils/enhancedPracticeUtils.ts:590-597 | the key is deleted and the callbacks are notified once |
| LocalStore.WrongQuestionStore.ClearWrongQuestions | src/utils/enhancedPracticeUtils.ts:599-606 | the store is emptied and the callbacks are notified once |
| LocalStore.WrongQuestionStore.SaveQuestionProgress | src/utils/enhancedPracticeUtils.ts:609-615 | the progress record goes under its own `questionId` |
| LocalStore.WrongQuestionStore.MarkQuestionAsSynced | src/utils/enhancedPracticeUtils.ts:806-819 | the store becomes the mark specification; the callbacks are notified only when the record exists |
| LocalStore.WrongQuestionStore.GetWrongQuestions | src/utils/enhancedPracticeUtils.ts:489-497 | every record exactly once |
| LocalStore.WrongQuestionStore.ExportWrongQuestions | src/utils/enhancedPracticeUtils.ts:632-647 | every record once, with the progress records |
| LocalStore.WrongQuestionStore.GetUnsyncedQuestions | src/utils/enhancedPracticeUtils.ts:822-830 | exactly the unsynced records, each once |
| LocalStore.UnsyncedDistinct | src/utils/enhancedPracticeUtils.ts:822-830 | filtering a list with distinct ids keeps the ids distinct |
| LocalStore.WrongQuestionStore.ImportWrongQuestions | src/utils/enhancedPracticeUtils.ts:649-678 | false and no change for an unparseable file; otherwise every item is written in order, then the progress, and the callbacks are notified once, after all writes |
| LocalStore.WrongQuestionStore.PutEach | src/utils/enhancedPracticeUtils.ts:653-665 | the items are written in order, each over any earlier record with its key; progress and callbacks are unchanged |
| LocalStore.WrongQuestionStore.PutEachProgress | src/utils/enhancedPracticeUtils.ts:667-671 | the progress entries are written in order under their question ids; the wrong questions and callbacks are unchanged |
| RateLimiter.RateLimits | src/utils/rateLimiter.ts:8-13 | every configured action has at least one attempt and a window of at least one minute |
| RateLimiter.Evict | src/utils/rateLimiter.ts:22-26 | the corrected clean-up removes exactly the action's rows that started before the window |
| RateLimiter.AsWrittenEvict | src/utils/rateLimiter.ts:26 | the clean-up as written removes every row, of any action, that started before the window |
| RateLimiter.UnconfiguredIsAllowed | src/utils/rateLimiter.ts:17-20 | an action without configuration is allowed and the table is not touched |
| RateLimiter.FailOpen | src/utils/rateLimiter.ts:60-64 | a database that throws before the row is read lets the request through |
| RateLimiter.StaleRowsEvicted | src/utils/rateLimiter.ts:22-26 | after a check, no row of the action older than the window is left, and other actions' rows are as they were |
| RateLimiter.FirstRequestInserts | src/utils/rateLimiter.ts:37-46 | with no row in the window, a row counting one is inserted and the request is allowed |
| RateLimiter.DeniedAtMaximum | src/utils/rateLimiter.ts:48-51 | at the maximum the request is denied, `resetTime` is the window's end, and the count does not move |
| RateLimiter.CountedBelowMaximum | src/utils/rateLimiter.ts:53-59 | below the maximum the request is allowed and the count grows by exactly one |
| RateLimiter.DeniedIff | src/utils/rateLimiter.ts:16-65 | a request is denied exactly when its pair already counted the maximum within the window and the database answered |
| RateLimiter.CheckKeepsCountsBounded | src/utils/rateLimiter.ts:37-59 | no check pushes a count past its action's maximum |
| RateLimiter.AsWrittenEvictionResetsOtherActions | src/utils/rateLimiter.ts:26 | as written, a login check erases a register row, and a fourth registration within the hour is allowed; corrected, it is denied |
| RateLimiter.ResetSpec | src/utils/rateLimiter.ts:67-73 | the pair's row is gone and every other row is unchanged |
| RateLimiter.ResetStartsNewWindow | src/utils/rateLimiter.ts:67-73 | after a reset, the next request of the pair starts a new window with count one |
| RateLimiter.RateLimitTable.CheckRateLimit | src/utils/rateLimiter.ts:16-65 | the answer and the new table are those of the check specification (the corrected clean-up; see ## Findings) |
| RateLimiter.RateLimitTable.DecideAndRecord | src/utils/rateLimiter.ts:28-59 | after the clean-up: a first row is inserted and the request allowed, a row at the maximum denies until its window ends, otherwise its count goes up; as the decision specification says |
| RateLimiter.RateLimitTable.ResetRateLimit | src/utils/rateLimiter.ts:67-73 | the new table is that of the reset specification |
| SyncRules.ShouldUpdateCloud | src/utils/wrongQuestionsSync.ts:215-234 | true exactly when the local record has more attempts, a later time or a different answer |
| SyncRules.HasRealConflict | src/utils/wrongQuestionsSync.ts:161-181 | never with more local attempts or a local time over a minute later; otherwise exactly when the answers differ within five minutes |
| SyncRules.DetectConflict | src/utils/wrongQuestionsSync.ts:553-582 | different answer first, then different attempts, then over a minute apart; null exactly when none of these holds |
| SyncRules.RealConflictIsDifferentAnswer | src/utils/wrongQuestionsSync.ts:88-92 | a real conflict always needs an update and is always reported as a different answer, so it always lands in the conflict list |
| SyncRules.InSyncHasSameAnswer | src/utils/wrongQuestionsSync.ts:97-102 | a record that needs no update has the cloud's answer and is never an answer conflict |
| SyncRules.MergedRow | src/utils/wrongQuestionsSync.ts:189-197 | local answer, local correct answer unless it is empty, the larger attempts, the earlier first time, the later last time, synced now |
| SyncRules.MergeKeepsTimesOrdered | src/utils/wrongQuestionsSync.ts:193-194 | a merge of an ordered cloud row keeps first <= last |
| SyncRules.MergeIdempotent | src/utils/wrongQuestionsSync.ts:641-649 | merging the same record into a merged row again changes only the sync time |
| SyncRules.UploadRow | src/utils/wrongQuestionsSync.ts:489-499 | the uploaded row copies attempts, answers and time (first = last = the record's time) and is synced now |
| SyncRules.UploadedRowIsInSync | src/utils/wrongQuestionsSync.ts:489-499 | a freshly uploaded row needs no update and shows no conflict with its record |
| SyncRules.ImmediateRow | src/utils/wrongQuestionsSync.ts:384-394 | the immediate push writes one attempt with first = last = now and the given answer, synced |
| SyncRules.CloudMapKeys | src/utils/wrongQuestionsSync.ts:67 | the cloud map has exactly the listed question ids |
| SyncRules.PlanLocalsSorts | src/utils/wrongQuestionsSync.ts:76-107 | uploads are exactly the records without a cloud row; updates exactly those that should update a row they do not really conflict with; conflicts exactly the real conflicts; already-synced exactly the unsynced records in step |
| SyncRules.DownloadsExact | src/utils/wrongQuestionsSync.ts:110-118 | downloads are exactly the cloud entries without a local record |
| SyncRules.PlanPartition | src/utils/wrongQuestionsSync.ts:66-118 | the diff uploads exactly the records absent from the cloud, downloads exactly the entries absent locally, never both for one id, and lists only answer conflicts |
| SyncRules.PlanSync | src/utils/wrongQuestionsSync.ts:66-118 | the loops build the diff specification |
| SyncRules.SplitForPushSorts | src/utils/wrongQuestionsSync.ts:330-342 | each unsynced record is pushed exactly when it has no cloud row or no conflict with it, and is otherwise reported with its first difference |
| SyncService.CloudTables.Select | src/utils/wrongQuestionsSync.ts:545-551 | a select error throws with an empty listing; otherwise the listing has each of the user's rows once |
| SyncService.MissingQuestions | src/utils/wrongQuestionsSync.ts:459-473 | exactly the questions whose id is not in the master table |
| SyncService.InsertRowsEffect | src/utils/wrongQuestionsSync.ts:476-483 | the insert adds the listed ids and keeps every other row |
| SyncService.EnsureInsertsOnlyMissing | src/utils/wrongQuestionsSync.ts:444-484 | afterwards every question's id is in the master table, and existing master rows are untouched |
| SyncService.UpsertRowsEffect | src/utils/wrongQuestionsSync.ts:489-506 | each question's row becomes its upload row; every other row is kept |
| SyncService.UpdateRowsEffect | src/utils/wrongQuestionsSync.ts:129-135 | only the updated questions change their rows, each to the merge of its pair |
| SyncService.AsWrittenDownloadResetsHistory | src/utils/wrongQuestionsSync.ts:635 | as written, downloading a row with five attempts rewrites it with one attempt and a first time of now |
| SyncService.DownloadedRecordMergesBack | src/utils/wrongQuestionsSync.ts:626-638 | with the corrected download, the saved record never conflicts with its row, and a later merge keeps the row's attempts and first time |
| SyncService.WrongQuestionsSyncService.constructor | src/utils/wrongQuestionsSync.ts:26 | the flag starts clear |
| SyncService.WrongQuestionsSyncService.BatchEnsureQuestionsInMaster | src/utils/wrongQuestionsSync.ts:444-484 | nothing for an empty list; it throws only when a needed insert fails; otherwise the master table becomes the ensure specification |
| SyncService.WrongQuestionsSyncService.BatchSyncUserWrongAnswers | src/utils/wrongQuestionsSync.ts:486-519 | 0 and no change for an empty list; a failing upsert throws and marks nothing; otherwise the rows are upserted, the records marked synced after the upsert, and the count returned |
| SyncService.WrongQuestionsSyncService.MarkEachSynced | src/utils/wrongQuestionsSync.ts:514-516 | the store becomes the mark-all specification, with one notification round per existing record |
| SyncService.WrongQuestionsSyncService.SyncToCloud | src/utils/wrongQuestionsSync.ts:283-364 | "in progress" while the flag is set; not authenticated, then the rate check (before the flag); no unsynced records gives success with 0; a failing read of the cloud rows then gives `Failed` with nothing written; otherwise the push outcome; the flag is clear again at the end |
| SyncService.WrongQuestionsSyncService.UpdateExistingCloudQuestion | src/utils/wrongQuestionsSync.ts:184-212 | a failing update throws and changes nothing; otherwise the row becomes the merge and the record is marked synced, notifying the callbacks once when the record exists |
| SyncService.WrongQuestionsSyncService.ApplyUpdates | src/utils/wrongQuestionsSync.ts:129-135 | the update loop gives the update specification, or throws when an update fails |
| SyncService.WrongQuestionsSyncService.DownloadQuestionFromCloud | src/utils/wrongQuestionsSync.ts:626-638 | the store becomes the corrected download specification; the callbacks are notified once by the save of a truthy question and once by the mark when the record exists |
| SyncService.WrongQuestionsSyncService.ApplyDownloads | src/utils/wrongQuestionsSync.ts:138-144 | the download loop gives the download-all specification |
| SyncService.WrongQuestionsSyncService.IntelligentBidirectionalSync | src/utils/wrongQuestionsSync.ts:50-158 | not authenticated without a user; a failing read of the cloud rows gives `Failed` with the store and both tables unchanged; otherwise the result counts every planned item and lists the conflicts; it is `Failed` exactly when a needed write fails (a master insert for a missing question, the upsert of a non-empty upload, or an update of a non-empty update list); on success the tables and store are the plan applied in order |
| SyncService.WrongQuestionsSyncService.UploadNew | src/utils/wrongQuestionsSync.ts:120-125 | it throws exactly when the list is non-empty and either the insert fails while some question is missing from the master table, or the upsert fails; otherwise the missing master rows are inserted, the user rows upserted and the local records marked synced; progress and callbacks are unchanged |
| SyncService.WrongQuestionsSyncService.SyncSingleQuestionImmediately | src/utils/wrongQuestionsSync.ts:366-412 | false without a user or a question; the master row is inserted when missing; the row is upserted with one attempt now exactly when no write fails |
| SyncService.WrongQuestionsSyncService.SplitPush | src/utils/wrongQuestionsSync.ts:330-342 | the loop builds the push split specification |
| Auth.ValidEmailMatches | src/utils/auth.ts:401-404 | an address the validator accepts has a non-empty local part, one '@', and a domain with a '.' that has text on both sides, with no white space or second '@' |
| Auth.MatchingEmailValid | src/utils/auth.ts:401-404 | every address of that shape is accepted |
| Auth.ValidateEmailMatchesPattern | src/utils/auth.ts:401-404 | the validator accepts exactly the addresses `/^[^\s@]+@[^\s@]+\.[^\s@]+$/` matches |
| Auth.ValidatePasswordBounds | src/utils/auth.ts:406-408 | eight characters always pass; fewer than four never do, since a character takes at most two UTF-16 units |
| Auth.WordChars | src/utils/auth.ts:411 | true exactly when every character is a letter, digit or underscore |
| Auth.ValidateUsername | src/utils/auth.ts:410-413 | true exactly for 3 to 50 characters from [A-Za-z0-9_] |
| Auth.UsernameUnits | src/utils/auth.ts:411 | such a name is as long in UTF-16 units as in characters |
| Auth.FirstInvalid | src/utils/auth.ts:157-170 | no message exactly when all three validators pass; otherwise the email message, then the password one, then the username one |
| Auth.AfterFailure | src/utils/auth.ts:263-277 | one more attempt; a lock until now + 30 minutes from the fifth on, the old lock below that |
| Auth.AfterSuccess | src/utils/auth.ts:279-287 | attempts 0, no lock, last login now; the account is not locked |
| Auth.FailAtCounts | src/utils/auth.ts:263-277 | n failures add n attempts and leave the lock alone while below five |
| Auth.FifthFailureLocks | src/utils/auth.ts:256-277 | four failures leave a clean account unlocked; the fifth locks it for thirty minutes from that failure |
| Auth.AuthService.constructor | src/utils/auth.ts:30-38 | the session kept in `localStorage` is restored by the `initializeSession` rule: a stored session under seven days old that the server accepts signs its user in; otherwise nobody is signed in and nothing is stored |
| Auth.AuthService.IsAuthenticated | src/utils/auth.ts:415-417 | true exactly when there is a current user |
| Auth.AuthService.ClearLocalSession | src/utils/auth.ts:130-134 | no user and no stored session afterwards |
| Auth.AuthService.Logout | src/utils/auth.ts:308-325 | not authenticated afterwards |
| Auth.AuthService.InitializeSession | src/utils/auth.ts:40-75 | a stored session under seven days old that the server accepts signs its user in; any other stored session is cleared |
| Auth.AuthService.Register | src/utils/auth.ts:141-227 | the rate check first, then the validators in order, then username and address free; success exactly then, inserting the user and signing them in |
| Auth.AuthService.Login | src/utils/auth.ts:229-306 | the rate check, then the unknown address, then the lock before the password; a rate-limited login, an unknown address or a locked account leaves the users table as it was; a wrong password counts a failure; success resets the counter and the rate limit and signs the user in |
| QuestionPuller.FetchQuestionById | src/scripts/fetchAndInsertQuestions.ts:49-76 | null exactly for a failed request or a null answer; otherwise the id, domain, "mcq" and null defaults |
| QuestionPuller.FetchedWritableIffTruthy | src/scripts/fetchAndInsertQuestions.ts:58-67 | a fetched question passes the integrity check exactly when the answer is truthy, and always has a type |
| QuestionPuller.Decide | src/scripts/fetchAndInsertQuestions.ts:79-129 | no write for a record without id or data; skip for a complete row; update for an incomplete one; insert when absent |
| QuestionPuller.ApplyWriteFrame | src/scripts/fetchAndInsertQuestions.ts:87-125 | a write touches only its own key, never a complete row, and leaves the key present when it succeeds |
| QuestionPuller.ApplyWriteIdempotent | src/scripts/fetchAndInsertQuestions.ts:93-125 | writing the same question twice is the same as writing it once |
| QuestionPuller.WriteAllAppend | src/scripts/fetchAndInsertQuestions.ts:136-145 | writing two lists in turn is writing their concatenation |
| QuestionPuller.WriteAllKeepsComplete | src/scripts/fetchAndInsertQuestions.ts:93-98 | a run of writes keeps every key and never changes a complete row |
| QuestionPuller.BatchesShape | src/scripts/fetchAndInsertQuestions.ts:136-137 | there are ceil(n / 50) batches, and batch k is ids[50k .. min(50k + 50, n)] |
| QuestionPuller.BatchesCover | src/scripts/fetchAndInsertQuestions.ts:136-137 | the batches together are the id list, in order, without overlap |
| QuestionPuller.ScheduleLength | src/scripts/fetchAndInsertQuestions.ts:136-156 | a batch step per batch and a pause between two batches, none after the last |
| QuestionPuller.ScheduleBatchAt | src/scripts/fetchAndInsertQuestions.ts:148 | step 2k processes batch k with its batch number |
| QuestionPuller.SchedulePauseAt | src/scripts/fetchAndInsertQuestions.ts:152-155 | step 2k + 1 sleeps 3000 ms |
| QuestionPuller.ScheduleAlternates | src/scripts/fetchAndInsertQuestions.ts:136-156 | batches and 3000 ms pauses alternate, starting and ending with a batch |
| QuestionPuller.MasterTable.InsertOrUpdateQuestion | src/scripts/fetchAndInsertQuestions.ts:79-129 | the action taken is the decision, and the table becomes the write specification |
| QuestionPuller.WriteBatch | src/scripts/fetchAndInsertQuestions.ts:139-150 | each id of the batch is fetched and written in turn |
| QuestionPuller.ProcessDomain | src/scripts/fetchAndInsertQuestions.ts:132-159 | a failed id request gives no writes; otherwise every id is fetched and written, and the steps are the batch schedule |
| QuestionPuller.ProcessBatchAt | src/scripts/fetchAndInsertQuestions.ts:136-155 | one batch of up to fifty ids is fetched and written; its steps are the batch and a pause unless it is the last |

## Left out

- IndexedDB plumbing, `localStorage`, the Supabase client, `axios` and the file reads and writes of the AMC fixer are foreign I/O. They are maps, fields and parameters here.
- Concurrency is not modelled: `pLimit`, `Promise.all`, the async interleaving of the immediate push in `saveWrongQuestion`, dynamic imports and the `setInterval` session check. Every operation runs to completion before the next.
- The model does not produce duplicate `rate_limits` rows from concurrent first requests, because calls do not interleave.
- `.single()` returning an error on duplicate rows cannot happen here: each table is a map with one row per key.
- Floating point is left out: the `parseFloat` equivalence in `checkAnswer` is a parameter `numericallyEqual`; accuracy percentages, `calculateAccuracy` and study recommendations are not modelled. The performance bands take the accuracy as a `real`.
- `toLowerCase`/`toUpperCase` are ASCII-only: no locale or Unicode case mapping.
- DOMParser and the full regular expressions of strategies 1-3 of `parseCollegeBoardExplanation` are left out. Their output is an input (`strategyTexts`, `fallbackMatches`).
- In `parseExplanation`, the paragraphs and the sentence hits are also inputs. Strategy 2's scan is modelled in full.
- The minimal fallback save in the `catch` of `saveWrongQuestion` is left out: it only runs when the normal save throws, and no step of the model throws there.
- `getQuestionProgress` is a plain map read. It is left out as its own operation.
- BigInt and cyclic values, which make `JSON.stringify` throw, are not part of the value model.
- Non-string keys in IndexedDB are left out: every key is a string.
- Error texts of caught exceptions are left out: a failing sync gives `Failed` without the message. A failing sync also leaves partial writes, which the model does not describe.
- `IntelligentBidirectionalSync` does not state the store's notification trace.
- The order in which `getAll` lists records is not fixed: listings are existentially quantified through ghost outputs.
- The JSON text, export date and version of `exportWrongQuestions` are left out.
- bcrypt is left out: whether the password matches is a parameter of `Login`.
- Device fingerprints, the `user_sessions` table, `createSession`, `cleanupOldSessions` and `updateSessionActivity` are left out. Whether the server still holds a session active is a parameter of `InitializeSession`.
- The `catch` paths of `login` and `register` ("Login failed", "Registration failed") are left out.
- `fetchQuestionIdsByDomain` mapping non-string ids is left out: ids are strings.
- `main`'s loop over the eight domains and its 500 ms delay are left out.
- The puller writes questions one after another in list order. The real puller runs two at a time.
- The master table is keyed by `String(external_id)`, so a numeric id and its decimal string are the same row.
- `smartSync`, `forceUploadAll`, `resolveConflicts`, `deleteCloudWrongQuestion`, `syncFromCloud`, `ensureQuestionInMaster` and `mergeQuestions` as an operation are not part of this model. Only `mergeQuestions`'s merged row is modelled.
- PracticeUtils.SelectedChoiceLetter: options are records with a string `id`. A `null` entry before the match, where `opt.id` throws a TypeError, and a numeric `id`, which is never `===` to the answer, are left out.
- LocalStore.Prepared: an imported item without `correctAnswer` whose re-cleaned question has an empty `correct_answer` list gets `undefined` in the source, from reading `[0]`. The model stores the empty string, because a record's correct answer is a string here.
- Auth.ValidatePasswordBounds: `password.length` counts UTF-16 units. The lemma states the two bounds that hold whatever the characters, not the exact length rule.
- RateLimiter.RateLimitTable.CheckRateLimit: the outage `LookupThrows` is a thrown error. A lookup that returns `{ error }` instead leaves `existing` empty, so the source records a first request; the model has no separate case for that.
- SyncRules.ImmediateRow: for an array `correct_answer` the source sends the first entry as it is, which is `undefined` for an empty array. The model stores its string form, or the empty string, because a row's correct answer is a string here.
- Auth.AuthService.constructor: `initializeSession` is asynchronous in the source, so the service briefly has no user before the session is restored. The model restores it before the constructor returns.
- SyncService.WrongQuestionsSyncService.IntelligentBidirectionalSync: on a `Failed` caused by a write, the contract does not describe which writes already happened.
- SyncService.WrongQuestionsSyncService.BatchEnsureQuestionsInMaster: the source ignores an error from its select of existing master ids and then tries to insert every question. The model assumes that select succeeds, so only the missing questions are inserted.
- Auth.AuthService.Logout: a throw while deactivating the session row (the fingerprint or the update) skips `clearLocalSession` in the source and leaves the user signed in. The model always clears the session, because the deactivation is not modelled.

## Findings

| source | as written | input that shows it | evidently intended | confidence | as-written member | corrected member |
|---|---|---|---|---|---|---|
| src/utils/enhancedPracticeUtils.ts:513 | the previous record is looked up with `q.externalId === question.external_id`, but records are stored under the stringified id | a question `{external_id: 42}` saved twice keeps `attempts` 1 | look the record up under the key it is stored under, so repeated saves count attempts | high, not executed | LocalStore.AsWrittenLookupMisses | LocalStore.SaveTwiceCountsTwice |
| src/utils/wrongQuestionsSync.ts:635 | the download calls `saveWrongQuestion`, which for a signed-in user pushes the question again with one attempt and first = last = now | a cloud row with 5 attempts since time 1000, downloaded at 900000, becomes 1 attempt first wrong at 900000 | save the downloaded question locally without pushing it back, keeping the cloud history | medium, not executed | SyncService.AsWrittenDownloadResetsHistory | SyncService.DownloadedRecordMergesBack |
| src/utils/rateLimiter.ts:26 | the clean-up deletes rows of every action older than the current action's window | register row (count 3, start 0), a login check at 20 min, a register check at 21 min: allowed as written | delete only the current action's stale rows, so each action keeps its own window | medium, not executed | RateLimiter.AsWrittenEvictionResetsOtherActions | RateLimiter.StaleRowsEvicted |

A stored question is described as always having a correct answer, but the
code gives an empty `correct_answer` for an array of falsy entries,
and the model follows the code (`EnhancedPractice.CorrectAnswerList`). In
`login`, a `lockUntil` of `null` is sent as `undefined`, which the update
drops. A failure below the fifth therefore keeps the old `locked_until`, and
`Auth.AfterFailure` states exactly that.
