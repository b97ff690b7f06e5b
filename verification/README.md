# Verified model of the practice platform's algorithms and authoring code

This project models, in Dafny, the hardest code of the platform and proves what
that code is for.

- **Reference algorithms** of the problem bank (`seed-problems.go`): regular
  expression matching, edit distance, shortest subarray, collinear points, median
  of two sorted arrays, smallest range, three-sum, next permutation, meeting
  rooms, course schedule, nearby almost-duplicates, longest replaceable window and
  the LRU cache. Each body is a method with the loops, tables, queues, arrays and
  maps of the original, proved against a declarative statement of the problem
  (a language, all edit scripts, all room assignments, all permutations, all
  runs), never against a recursive copy of the same loop.
- **Problem authoring** (`services/api-gateway/graph/resolvers/admin_problems.go`):
  the form validator, the transaction that rewrites the derived tables, deletion,
  and every run of these.
- **Activity feed** (`services/api-gateway/graph/resolvers/admin_insights.go`): the
  merge of per-source lists that were already cut to the limit.
- **Quiz-key generator** (`scripts/gen-quiz-seed.js`): the array-literal scanner and
  the two-pass escaping.

`dafny verify dfyconfig.toml` checks everything. There is one module per file; `Options`,
`Sequences`, `Sorting` and `Sets` hold what several modules share.

## Where the code does not do what is asked

Each of these is kept as the code has it; a lemma or contract gives the exact
condition, or a concrete failing input.

- `isMatch` compares a `*` of the pattern with the text before it treats it as an
  operator. It judges a text correctly for every pattern exactly when the text holds
  no `*` (`RegexMatch.CorrectTexts`), and a pattern correctly for every text exactly when
  the pattern holds no `*` (`RegexMatch.CorrectPatterns`). A pattern with a leading `*` makes the Go code index below 0, and a
  doubled `*` has no meaning; both are excluded (`WellFormed`).
- `shortestSubarray` is right for every array when `k >= 1`. For `k <= 0` it answers 1
  or -1 by whether some element is positive, which is right exactly when some element
  is positive or all are below `k` (`ShortestSubarray.Shortest`); `[-1]` with `k = -2` fails
  (`ShortestSubarray.NegativeTargetIsMissed`).
- `smallestRange` starts from 32-bit sentinels. Its answer is a smallest range exactly when
  some smallest range does not end below the least sentinel and is narrower than the
  greatest; for values from the least sentinel on, exactly when some covering range is
  narrower than the greatest (`SmallestRange.SmallestRange`). It fails on two lists 2147483647
  apart and on a list below the least sentinel (`SmallestRange.FarApartIsOutside`,
  `SmallestRange.BelowIsOutside`).
- `findMedianSortedArrays` gives NaN for two empty arrays (`MedianOfTwo.FindMedian`).
- `extractArrayLiteral` misreads a string that ends in an escaped backslash. An array of one
  string, whose own quote stands only behind backslashes, is extracted exactly when the
  string does not end in a backslash; if it does, and its quote does not occur again, the
  answer is null (`ArrayLiteral.LoneStringExtractedIff`), as for the text
  `const k = ['\\'];` (`ArrayLiteral.EscapedBackslashIsMisread`). Its comment says
  that the search for `[` starts after the `=`; when there is no `=` the code starts
  from the beginning of the text, and so does the model (`ArrayLiteral.MissingEqualsStartsOver`).
- `goEsc` does not escape line breaks, nor the characters U+0000 and U+FEFF that the Go
  compiler refuses in a file: the emitted literal denotes the text exactly when it has
  none of these (`GoEscape.GoEscRoundTrip`).
- The activity feed stops reading a source at the first row that does not fit the item,
  since the database driver closes the rows then (vendor/github.com/jackc/pgx/v5/rows.go:203-222).
  All columns read are declared not null, so the only such value is an infinite timestamp
  (vendor/github.com/jackc/pgx/v5/pgtype/builtin_wrappers.go:453-456), and `ORDER BY` time
  `DESC` puts `infinity` first: one such row hides every event of its source, cut or not
  (`ActivityFeed.InfiniteTimeHidesEvents`). A row at `-infinity` comes last and hides nothing.
  A source is exact, whatever the other sources hold, iff it does not have both a row at
  infinity and an event (`ActivityFeed.SourceIsExactIff`); the whole feed is exact, even in its
  times alone, iff every hidden event has `limit` shown ones that are as new
  (`ActivityFeed.HandleActivity`).

## Model

| member | source | states |
|---|---|---|
| RegexMatch.IsMatch | seed-problems.go:6324-6347 | the table's answer; when text and pattern do not both hold `*`, true iff the whole text is in the language of the pattern, the concatenation of its tokens' languages |
| RegexMatch.CorrectTexts | seed-problems.go:6336-6343 | the code judges a text correctly for every pattern iff the text has no `*` |
| RegexMatch.CorrectPatterns | seed-problems.go:6336-6343 | the code judges a well-formed pattern correctly for every text iff the pattern has no `*` |
| RegexMatch.ShortTextWithStar | seed-problems.go:6336-6343 | a language with any text that ends in `*` has one that is hardly longer than its shortest text and has no other `*`, which is the text the table gets wrong |
| RegexMatch.TableIsCorrect | seed-problems.go:6329-6346 | the table decides the language for every text and pattern that do not both hold `*` |
| RegexMatch.StarIsMisjudged | seed-problems.go:6336-6337 | for every text with a `*`, a pattern it is misjudged by |
| RegexMatch.MatchesCell | seed-problems.go:6334-6345 | how membership of prefixes depends on shorter prefixes, for a plain character and for a star |
| RegexMatch.StarAtEnd | seed-problems.go:6338-6342 | a text matches up to a starred character iff it matches without it, or its last character fits and the rest matches |
| RegexMatch.TokensRoundTrip | seed-problems.go:6212 | every well-formed pattern is the text of its token sequence |
| RegexMatch.RenderRoundTrip | seed-problems.go:6212 | every sequence of plain tokens is recovered from its pattern text |
| EditDistance.MinDistance | seed-problems.go:6179-6198 | the result is the length of some insert/delete/replace script between the words, and no script is shorter |
| EditDistance.LevIsDistance | seed-problems.go:6185-6196 | the recurrence yields the shortest script length for all words |
| EditDistance.NoScriptIsShorter | seed-problems.go:6091 | every script between two words has at least the recurrence's length |
| EditDistance.ShortestScript | seed-problems.go:6091 | a script of exactly the recurrence's length exists |
| EditDistance.OneEditCostsOne | seed-problems.go:6190-6193 | an edit at any position changes the distance by at most one |
| EditDistance.LevIsLipschitz | seed-problems.go:6187-6194 | dropping a last character moves the distance by at most one, so equal last characters may be matched without comparing alternatives |
| ShortestSubarray.Shortest | seed-problems.go:6520-6539 | the result is the least length of a non-empty subarray with sum at least k, or -1 iff there is none, for all k >= 1; for k <= 0 exactly when some element is positive or all are below k |
| ShortestSubarray.SettledAfterRound | seed-problems.go:6527-6534 | a start dropped from back or front of the queue is beaten by a queued start or can only give a longer subarray |
| ShortestSubarray.BestAfterRound | seed-problems.go:6530-6534 | after each round the best length over all subarrays seen is kept |
| ShortestSubarray.InvariantKept | seed-problems.go:6526-6536 | each round keeps queue order, settled starts and best length |
| ShortestSubarray.DropBack | seed-problems.go:6527-6529 | exactly the queued starts at the back whose prefix sum is not below the new one are dropped |
| ShortestSubarray.DropFront | seed-problems.go:6530-6534 | exactly the starts at the front that reach k are dropped, and the shortest of them is recorded |
| MaxPoints.MaxOnLine | seed-problems.go:5187-5220 | the result is the size of some set of positions whose points share a real line, and no such set is larger |
| MaxPoints.KeyPerDirection | seed-problems.go:5206-5209 | two non-zero vectors, opposite ones included, have the same key iff they are parallel |
| MaxPoints.GcdScales | seed-problems.go:5189-5193 | the signed gcd built on the truncating remainder scales with its arguments, sign included |
| MaxPoints.GcdDivides | seed-problems.go:5206-5208 | for a non-zero vector the gcd is non-zero and divides both differences |
| MaxPoints.KeyTimesGcd | seed-problems.go:5207-5209 | the key times the gcd is the vector again: the divisions are exact |
| MaxPoints.StarIsCollinear | seed-problems.go:5199-5214 | a point, its duplicates and one slope class lie on one line |
| MaxPoints.CollinearInStar | seed-problems.go:5195-5217 | every collinear set lies in one slope class of its first point, with the duplicates |
| MaxPoints.CountFrom | seed-problems.go:5196-5214 | the inner loop counts duplicates and every slope class exactly, and the largest class |
| MedianOfTwo.FindMedian | seed-problems.go:2519-2562 | the median of the merged sequence for all sorted inputs not both empty, NaN for two empty ones; the search terminates and never reaches its last statement |
| MedianOfTwo.GoodCutGivesMedian | seed-problems.go:2550-2554 | at a balanced cut the neighbours of the cut give the median of the merged sequence |
| MedianOfTwo.GoodCutSplitsMerge | seed-problems.go:2550 | at such a cut the merged sequence is the sorted left side followed by the sorted right side |
| MedianOfTwo.CutsContradict | seed-problems.go:2526-2561 | the bounds cannot cross, because the two cuts ruled out last would contradict each other |
| SmallestRange.SmallestRange | seed-problems.go:6878-6902 | for all non-empty sorted lists the answer is determined: the lowest of the narrowest covering ranges that do not end below -2147483648, if one is narrower than 2147483647, else [0, 0]; it is a smallest range iff some smallest range fits these sentinels, and for values from -2147483648 on iff some covering range is narrower than 2147483647 |
| SmallestRange.AnswerIsLowest | seed-problems.go:6890-6893 | of several equally narrow ranges the lowest is the answer, since an equal span is not recorded |
| SmallestRange.AnswerIsUnique | seed-problems.go:6890-6893 | an input has only one answer |
| SmallestRange.SmallDifferencesAreInside | seed-problems.go:6881-6887 | values and differences inside the sentinels are enough |
| SmallestRange.PassLeast | seed-problems.go:6889-6899 | passing the least current element loses no narrower range; when its list ends, every covering range is at least as wide as the best one |
| SmallestRange.ReachingDownIsWide | seed-problems.go:6890-6893 | a covering range that reaches down to the least current element spans all current ones |
| SmallestRange.RecordAndPass | seed-problems.go:6889-6896 | recording the span when narrower keeps a covering best range, and stopping at the end of a list is optimal |
| SmallestRange.PopMin | seed-problems.go:6889 | popping removes one least element and keeps the rest |
| ThreeSum.AllTriples | seed-problems.go:2273-2297 | the array ends sorted; the triples are exactly the zero-sum value triples found at three different positions of the original array, none twice, each in order and the list ascending |
| ThreeSum.SolutionIsUnique | seed-problems.go:2284 | an input has only one such list: contents and order are determined |
| ThreeSum.Found | seed-problems.go:2283-2288 | recording a hit and skipping repeats keeps soundness, completeness and freshness |
| ThreeSum.TooSmall | seed-problems.go:2289-2290 | moving left past a too small sum loses no triple |
| ThreeSum.TooLarge | seed-problems.go:2291-2292 | moving right past a too large sum loses no triple |
| ThreeSum.SkipRepeated | seed-problems.go:2277-2279 | skipping a repeated first value loses no triple |
| ThreeSum.PicksFromPermutation | seed-problems.go:2274 | sorting does not change which value triples stand at three different positions |
| NextPermutation.NextPermutation | seed-problems.go:7682-7693 | the array becomes the permutation with nothing strictly between, or the ascending one after the last permutation |
| NextPermutation.NothingBetween | seed-problems.go:7683-7692 | no permutation lies strictly between a sequence and its computed successor |
| NextPermutation.DescendingSuffixIsLast | seed-problems.go:7683 | among permutations sharing a prefix, a descending suffix is greatest |
| NextPermutation.LastGivesSorted | seed-problems.go:7684-7692 | a descending sequence is the last permutation, reversing it sorts it, and that is the answer after the last permutation |
| NextPermutation.SuccessorShape | seed-problems.go:7687-7692 | swap and reversal give a permutation with the prefix kept, the larger value placed and an ascending rest |
| NextPermutation.ReverseFrom | seed-problems.go:7689-7693 | the two-pointer loop reverses exactly the suffix |
| MeetingRooms.MinMeetingRooms | seed-problems.go:10616-10632 | that many rooms allow a conflict-free assignment, and every conflict-free assignment uses at least as many |
| MeetingRooms.ReuseRoom | seed-problems.go:10629 | a start at or after the next end takes over the room of the meeting that ended, with no conflict |
| MeetingRooms.NoFreeRoom | seed-problems.go:10629-10630 | when no end has passed, as many meetings as rooms are going on at this start time |
| MeetingRooms.Optimal | seed-problems.go:10627-10632 | after the sweep the count is both enough and needed |
| MeetingRooms.SortTimes | seed-problems.go:10621-10626 | both arrays end sorted, each with a one-to-one ranking of the meetings |
| MeetingRooms.OverlappingNeedRooms | seed-problems.go:10563 | in every conflict-free assignment, meetings that overlap pairwise need as many rooms as there are meetings |
| CourseSchedule.CanFinish | seed-problems.go:10091-10110 | true iff the prerequisite graph has no cycle, and iff all courses can be ordered with prerequisites first |
| CourseSchedule.TakeNext | seed-problems.go:10103-10105 | the queued course has all prerequisites taken; its successors' in-degrees are then ahead by exactly its edges |
| CourseSchedule.Release | seed-problems.go:10106-10107 | lowering one in-degree and queueing at zero keeps the queue equal to the courses of in-degree zero |
| CourseSchedule.PendingAfterTaking | seed-problems.go:10105-10107 | taking a course lowers each pending count by the number of its edges, repeated edges included |
| CourseSchedule.StuckMeansCycle | seed-problems.go:10110 | courses that all wait for each other contain a cycle |
| CourseSchedule.OrderExcludesCycle | seed-problems.go:10110 | an order with all prerequisites first excludes every cycle |
| CourseSchedule.QueueEmpty | seed-problems.go:10102-10110 | with an empty queue, all taken means an order exists, and fewer means a cycle |
| CourseSchedule.BuildGraph | seed-problems.go:10091-10096 | adjacency lists and in-degrees count every edge |
| NearbyDuplicate.BucketSearch | seed-problems.go:10467-10477 | true iff two values at most valueDiff apart stand at most indexDiff apart; every deletion finds its key |
| NearbyDuplicate.NestedLoops | seed-problems.go:10490-10497 | the same statement for the nested loops and all integer arguments |
| NearbyDuplicate.SlideWindow | seed-problems.go:10475-10476 | the dictionary keeps holding exactly the last indexDiff elements, one per bucket |
| NearbyDuplicate.CloseGivesPair | seed-problems.go:10472-10474 | a hit in one of the three lookups is a near pair |
| NearbyDuplicate.PairGivesClose | seed-problems.go:10472-10474 | every near pair is hit by one of the three lookups |
| NearbyDuplicate.SlotsOfCloseValues | seed-problems.go:10471 | values in one bucket are close, close values are at most one bucket apart, negative values included |
| CharacterReplacement.LongestReplacement | seed-problems.go:11112-11124 | the exact greatest length of a window that at most k replacements make uniform |
| CharacterReplacement.SeenGivesWindow | seed-problems.go:11117-11122 | a stale maximum still justifies the window length by an earlier window |
| CharacterReplacement.NoneLongerAfterSliding | seed-problems.go:11118-11121 | when the window slides, no feasible window of the greater length ends here |
| CharacterReplacement.NoneLongerAfterGrowing | seed-problems.go:11118-11122 | when the window grows, no feasible window is longer |
| CharacterReplacement.DropLeft | seed-problems.go:11119-11120 | the letter table stays the exact counts of the window |
| LruCache.Cache.constructor | seed-problems.go:9546-9548 | a new cache is empty and within its capacity |
| LruCache.Cache.Get | seed-problems.go:9549-9555 | answers by lookup and moves a present key to the front, else changes nothing |
| LruCache.Cache.Put | seed-problems.go:9556-9568 | overwrites and moves to the front, or inserts at the front and drops the last entry of a full cache; map and list keep indexing each other |
| LruCache.Cache.MoveToFront | seed-problems.go:9551 | the element goes first, the others keep their order |
| LruCache.RotatedEntries | seed-problems.go:9551 | moving an element to the front is the specified reordering of the entries |
| LruRecency.Replay | seed-problems.go:9546-9568 | any run on a cache object gives the specified contents and answers |
| LruRecency.AnswerByRecency | seed-problems.go:9549-9568 | after any run, a Get answers the last value put if fewer than capacity other keys were used since the key's last use, else -1 |
| LruRecency.EvictedIsLeastRecent | seed-problems.go:9562-9566 | an evicting Put drops the key whose last use is oldest and keeps all others |
| LruRecency.RunIsByRecency | seed-problems.go:9549-9568 | after any run the list is ordered by last use, within capacity, and holds exactly the recently used keys |
| LruRecency.UseKeepsRecency | seed-problems.go:9556-9568 | one use keeps that order |
| LruRecency.ValueIsLastPut | seed-problems.go:9559 | cached values are the last ones put |
| ProblemForm.Form.Validate | services/api-gateway/graph/resolvers/admin_problems.go:71-145 | accepts iff the form as submitted meets every condition, each written out, and leaves it trimmed with a blank topic as `General`, an empty compare as `exact` and all else unchanged; otherwise reports the first defect in checking order |
| ProblemForm.AcceptableIff | services/api-gateway/graph/resolvers/admin_problems.go:71-145 | a form is acceptable once trimmed and defaulted iff it is acceptable as submitted |
| ProblemForm.TypesAre | services/api-gateway/graph/resolvers/admin_problems.go:32-36 | the supported types are the scalars, arrays of all of them but char, arrays of int and string arrays, and the two node types |
| ProblemForm.Form.CheckHeader | services/api-gateway/graph/resolvers/admin_problems.go:72-85 | trims and checks title, difficulty and statement, defaults the topic |
| ProblemForm.Form.CheckParams | services/api-gateway/graph/resolvers/admin_problems.go:92-109 | trims every name; accepts iff names are distinct identifiers with supported types |
| ProblemForm.Form.CheckCases | services/api-gateway/graph/resolvers/admin_problems.go:120-144 | accepts iff every case has one valid line per parameter and a valid expectation and some case is visible |
| ProblemForm.DefectsMatter | services/api-gateway/graph/resolvers/admin_problems.go:71-145 | a reported defect makes the form unacceptable |
| ProblemText.TrimSpaceIdempotent | services/api-gateway/graph/resolvers/admin_problems.go:72-74 | trimming trimmed text changes nothing |
| ProblemText.TrimSpaceIff | services/api-gateway/graph/resolvers/admin_problems.go:72-74 | trimming gives exactly the text between the white space at both ends, with none left at the ends |
| ProblemText.TrimNewlinesIff | services/api-gateway/graph/resolvers/admin_problems.go:125 | trimming newlines gives exactly the text before the newlines at the end |
| ProblemText.IdentifiersAre | services/api-gateway/graph/resolvers/admin_problems.go:38 | identifiers character by character: a letter or underscore, then also digits |
| ProblemText.ByteLengthOfEncoding | services/api-gateway/graph/resolvers/admin_problems.go:76 | the length compared with 200 is that of the UTF-8 encoding |
| ProblemText.LinesRoundTrip | services/api-gateway/graph/resolvers/admin_problems.go:125 | the lines hold no newline and join back to the text |
| ProblemStore.Tx.WriteParts | services/api-gateway/graph/resolvers/admin_problems.go:430-500 | unless a statement fails, all derived tables of the problem are replaced from the form |
| ProblemStore.Tx.WriteCases | services/api-gateway/graph/resolvers/admin_problems.go:457-480 | writes every case under its position and every visible case as the next example |
| ProblemStore.Tx.WriteConstraints | services/api-gateway/graph/resolvers/admin_problems.go:449-456 | writes the non-blank constraints under their positions |
| ProblemStore.Store.Save | services/api-gateway/graph/resolvers/admin_problems.go:347-425 | stores the whole problem or changes nothing; stores iff the request is storable, a transaction opens and none of its statements, up to the commit, fails; gives each refusal only for its own cause |
| ProblemStore.GoodRequestIsSaved | services/api-gateway/graph/resolvers/admin_problems.go:347-425 | a form acceptable as submitted, for a new problem or one in function mode, is saved when the generator answers and no statement fails |
| ProblemStore.NotEditableOnlyThen | services/api-gateway/graph/resolvers/admin_problems.go:387-396 | a problem in another mode than `function`, or with a signature of another kind, is never saved, and only such a problem is refused as not editable |
| ProblemStore.OtherModeIsRefused | services/api-gateway/graph/resolvers/admin_problems.go:387-396 | a save of such a problem changes nothing and is refused for that reason when nothing else is wrong |
| ProblemStore.OtherModesUnchanged | services/api-gateway/graph/resolvers/admin_problems.go:387-396 | over every run, such a problem keeps all its rows until it is deleted |
| ProblemStore.Store.Transact | services/api-gateway/graph/resolvers/admin_problems.go:370-418 | the transaction: missing and non-editable problems are refused, success is the full new state |
| ProblemStore.Store.Delete | services/api-gateway/graph/resolvers/admin_problems.go:546-573 | removes an existing problem with everything that hangs off it iff no section or attempt uses it and neither statement fails; else changes nothing and says why |
| ProblemStore.UsedProblemsStay | services/api-gateway/graph/resolvers/admin_problems.go:546-573 | over every run, the lists of problems used in tests stay as they are and no problem in them is deleted |
| ProblemStore.RunsKeepTablesInAgreement | services/api-gateway/graph/resolvers/admin_problems.go:427-500 | after every run of saves and deletes, each problem saved through the handler has numbered cases, one valid line per distinct parameter, and as examples exactly its visible cases in order, at least one |
| ProblemStore.UnnamedProblemsUnchanged | services/api-gateway/graph/resolvers/admin_problems.go:347-573 | over a whole run, problems no response names keep all their rows |
| ProblemStore.SavedFormReadsBack | services/api-gateway/graph/resolvers/admin_problems.go:279-337 | reading a saved problem back gives the submitted form: every field as submitted or trimmed, a blank topic as `General`, an empty compare as `exact`, the cases trimmed, the non-blank constraints in order; the form was acceptable as submitted |
| ProblemStore.SavedHead | services/api-gateway/graph/resolvers/admin_problems.go:590-598 | a saved problem has 150, 50 or 20 points by difficulty, is in function mode and keeps the kind of its signature |
| ProblemStore.ResavingChangesNothing | services/api-gateway/graph/resolvers/admin_problems.go:279-425 | the form loaded for a saved problem is accepted, and saving it again changes no row of the problem but the positions of constraints |
| ProblemStore.StepKeepsInvariant | services/api-gateway/graph/resolvers/admin_problems.go:347-573 | every save or delete, refused, failed or successful, keeps the agreement |
| ProblemTables.StoredIsConsistent | services/api-gateway/graph/resolvers/admin_problems.go:427-480 | an acceptable form leaves the tables in agreement on its problem |
| ProblemTables.ExplanationsCarriedOver | services/api-gateway/graph/resolvers/admin_problems.go:431-443 | whatever examples a problem had, seeded ones included, example i of a save keeps the explanation at position i, further examples get none |
| ProblemStore.ExplanationsSurviveRuns | services/api-gateway/graph/resolvers/admin_problems.go:431-443 | over every run from any tables, the explanation at a position stays until the problem is deleted or saved with too few examples; from then on there is none |
| ProblemTables.SavedExamplesAgree | services/api-gateway/graph/resolvers/admin_problems.go:457-480 | the examples written are the visible cases in order, numbered from 0, with the explanation of their position |
| ProblemTables.SavedCasesAgree | services/api-gateway/graph/resolvers/admin_problems.go:458-465 | stored cases are numbered from 0 with one valid line per parameter |
| ProblemTables.ConstraintRowsExact | services/api-gateway/graph/resolvers/admin_problems.go:449-456 | exactly the non-blank constraints are stored, trimmed, in order, under their positions |
| ProblemTables.OthersUntouched | services/api-gateway/graph/resolvers/admin_problems.go:444-448 | saving or deleting a problem leaves all rows of the others |
| ProblemStore.DeletedStaysGone | services/problem-service/migrations/001_create_problems.up.sql:27-80 | in every run, a problem that was deleted and not saved again has no head, constraint, example, case, signature or starters left (the signature cascades by 003_problem_signatures.up.sql) |
| ProblemTables.ReadInIndexOrder | services/api-gateway/graph/resolvers/admin_problems.go:435 | examples, cases and constraints are read so that their indices do not descend |
| Sequences.SortByOrders | services/api-gateway/graph/resolvers/admin_problems.go:435 | reading in index order rearranges the rows into ascending order |
| ArrayLiteral.ExtractArrayLiteral | scripts/gen-quiz-seed.js:55-79 | the result is the text from the opening bracket to the first place where the depth outside quotes is zero again, or null iff there is none |
| ArrayLiteral.RoundTrip | scripts/gen-quiz-seed.js:50-79 | a printed nested literal is extracted exactly from behind its declaration, whatever follows and whatever annotation precedes the `=` |
| ArrayLiteral.PrintedArrayCloses | scripts/gen-quiz-seed.js:63-77 | a printed array closes exactly at its end |
| ArrayLiteral.PieceIsBalanced | scripts/gen-quiz-seed.js:65-77 | scanning any printed piece returns to its depth outside quotes and never goes below it |
| ArrayLiteral.ReadCorrectlyIff | scripts/gen-quiz-seed.js:67-71 | a quoted string is read as one string iff its own quote stands only behind backslashes and it does not end in one |
| ArrayLiteral.LoneStringExtractedIff | scripts/gen-quiz-seed.js:55-79 | an array of one string whose own quote stands only behind backslashes is extracted from behind its declaration iff the string does not end in a backslash; if it does and the quote does not occur again, the answer is null |
| ArrayLiteral.EscapedBackslashIsMisread | scripts/gen-quiz-seed.js:68 | the function answers null on a concrete source text whose string holds one escaped backslash |
| ArrayLiteral.MissingEqualsStartsOver | scripts/gen-quiz-seed.js:59-60 | a concrete text without `=` behind the declaration, from which an array at its start is taken |
| ArrayLiteral.IndexOf | scripts/gen-quiz-seed.js:56-60 | the first occurrence at or after a place, negative places counting as 0 |
| ArrayLiteral.ScanFrom | scripts/gen-quiz-seed.js:63-78 | the loop's depth and quote variables find the first closing place |
| GoEscape.GoEscRoundTrip | scripts/gen-quiz-seed.js:264 | the escaped text, read as a Go string literal, denotes the original iff it holds no line break, U+0000 or U+FEFF |
| GoEscape.GoEscHead | scripts/gen-quiz-seed.js:264 | the two passes escape each character on its own |
| ActivityFeed.HandleActivity | services/api-gateway/graph/resolvers/admin_insights.go:600-666 | with `limit` the requested number if from 1 to 50 and else 8, the feed has as many items as there are events up to `limit`, newest first: the latest `limit` of all events of the sources that answered and are not blocked by a row at infinity; it is the latest `limit` of all recorded events, or has their times, iff every hidden event has `limit` shown ones as new |
| ActivityFeed.SourceIsExactIff | services/api-gateway/graph/resolvers/admin_insights.go:639-654 | reading a source cut to its limit changes no feed, whatever the other sources hold, iff no row at infinity blocks a recorded event |
| ActivityFeed.FeedIsExactIff | services/api-gateway/graph/resolvers/admin_insights.go:656-659 | when leaving events out of a feed makes no difference |
| ActivityFeed.NothingHiddenIff | services/api-gateway/graph/resolvers/admin_insights.go:639-654 | no event is hidden iff no source that answered holds both a row at infinity and an event |
| ActivityFeed.CutBeforeMerge | services/api-gateway/graph/resolvers/admin_insights.go:640-659 | cutting one source to its latest k before merging does not change the latest k of all |
| ActivityFeed.LatestOfShown | services/api-gateway/graph/resolvers/admin_insights.go:640-659 | the same for all sources together: what was read is replaced by all the events it is the latest of |
| ActivityFeed.ReadIsLatest | services/api-gateway/graph/resolvers/admin_insights.go:646-652 | the rows read until one does not fit are the latest k events of the table, or none if a row at infinity stands first |
| ActivityFeed.LatestTimesAgree | services/api-gateway/graph/resolvers/admin_insights.go:656 | the times of the latest k events do not depend on how ties are arranged |
| ActivityFeed.ReadSources | services/api-gateway/graph/resolvers/admin_insights.go:639-654 | of every source that answered, the rows before the first that does not fit are collected under its kind |
| ActivityFeed.InfiniteTimeHidesEvents | vendor/github.com/jackc/pgx/v5/pgtype/builtin_wrappers.go:453-456 | a concrete table, returned whole, whose row at `infinity` hides its event |

## Left out

- Machine integer width: Go's 64-bit integers are unbounded here; the problem inputs stay far inside them.
- Bytes and characters: Go strings are sequences of characters here; only the title length is counted in UTF-8 bytes.
- Floating-point rounding in the median: reals with two infinities and NaN.
- Heap and list internals: `container/heap` is "remove some least element", `container/list` an ordered sequence of element objects, `sort.Ints` and `sort.Slice` any sorted rearrangement.
- MeetingRooms.MinMeetingRooms: asks for start < end, as an interval has; a meeting that ends when it starts would free its room before taking it.
- CharacterReplacement.LongestReplacement: asks for uppercase letters and k >= 0, as the 26-entry table and the statement do.
- NearbyDuplicate.BucketSearch: asks for indexDiff >= 0; below 0 the deletion can index past the array.
- LruCache.Cache.constructor: asks for a capacity of at least 1; with capacity 0 the first Put takes the back of an empty list.
- ProblemStore.Store.Save: JSON validity is an arbitrary predicate and the starter generator an arbitrary answer; generated identifiers are new; slugs, timestamps and the audit log are not modelled.
- Database: each statement may fail, and a failed statement aborts its transaction; a lost commit acknowledgement and a connection lost while reading explanations are not modelled.
- Rows of one problem with equal index are read in insertion order; the handlers and the seed write distinct ones.
- Tables outside the authoring handlers (tags, hints, progress, reference solutions) and the verify handler.
- ActivityFeed.HandleActivity: rows carry a time and one text; formatting of times, the SQL of the five sources and a connection lost while rows arrive are not modelled.
- The catalogue of problems, starter scaffolds, other solutions of the bank (`maxProfit`, `minWindow`, `maxSlidingWindow`, `buildTree`, `detectCycle`) and other languages' versions of the same bodies.
- The rest of the quiz generator: module loading, key collection and ordering, emission of the file.
- gRPC services, routing, authentication, CSV export, dashboards and mail: wiring and I/O.
