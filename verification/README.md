# Verified models of the Memos decision cores

Memos decides five things in self-contained Go code: when a cron job fires next, what SQL a filter
becomes, what a user deletion removes, how an OpenAPI schema's references resolve, and what its
caches may answer. This project models that code in Dafny and proves what it promises.

`dafny verify dfyconfig.toml` checks the whole project.

## What is modelled

- **Cron time search.** `Calendar` is the proleptic Gregorian calendar in UTC with Go's `Date`,
  `AddDate` and `Truncate`. `SpecSchedules.Next` is the field-skipping search with its `goto WRAP`, its
  one-shot truncation and its year limit; it returns the least active second, and its termination is part
  of the proof. `Scheduler.Next` is the minute-by-minute search. `CronParser` turns fields into 64-bit
  sets (`BitSets`), `Scheduler` turns them into matchers, and `CronItems` says what every item text means. `CronAgreement` proves that for every spec
  that both packages accept the two readings select the same values in every field, that the two
  packages mean the same instants exactly on a class of specs that can be checked beforehand, and that
  exactly on this class the fast search refines the slow one.
- **Cron run loop.** `CronLoop` has the `Cron` object and a step relation for its events; each method is
  proved to be one step. `CronRuns` proves safety over every run.
- **Filter compiler.** `FilterConditions` gives condition trees a three-valued meaning on a row.
  `FilterRender.Renderer` is the mutable renderer (`FilterErrors` says what it refuses and what it binds); its SQL is a token text that `SqlText` reads back with
  the usual precedence. `FilterMeaning` proves that rendering keeps the meaning with numbered
  placeholders, `FilterPlaceholders` states exactly when every `?` has its argument, `FilterAppend` proves
  that appended filters do not rebind each other, `FilterPositional` covers drivers that ignore a surplus
  of arguments, and `FilterQueries` covers whole queries of filters and the drivers' own clauses. `LikePatterns` has LIKE with its escape,
  `FilterSets` the set operations.
- **User deletion.** `UserTables` has the tables, the recursive query of the SQLite and PostgreSQL
  drivers and the referential rules; `UserLaws` says row by row what a deletion keeps. `UserDeletion` is the MySQL driver: frontier loop, batches, ten
  delete statements, commit.
- **OpenAPI schema references.** `SchemaGraph` has schemas, rewriting and reachability; `SchemaPaths` says
  place by place what a resolved schema keeps and where references lead; `SchemaRefs` is
  the depth-first resolver with its shared maps.
- **Caches.** `TtlCache` is the cache, `StoreKeys` its key text, and `StoreCache` the store's
  read-through use of it for users and user settings.

Go errors are `Result` or `Option` values. Map iteration and unordered query results are arbitrary
choices, so what is proved holds for every order. A zero `time.Time` is `None`.

## Findings

- The two cron packages combine the day fields differently (`||` in one, and `&&` in the other once a
  field is a wildcard). On the specs that both accept, `CronAgreement.DayRulesAgree` gives the exact
  class on which the two day rules agree, and `CronAgreement.InstantsAgree` the exact class on which they
  mean the same instants. The second is larger, because a day that no selected month has does not matter
  (`CronAgreement.FebruaryAgrees`).
  `CronAgreement.FirstOfMonthDiffers` is an accepted spec outside it, and from some instant of every such
  spec the two searches disagree (`CronAgreement.UnbalancedDisagrees`).
- With `?` placeholders, the arguments of a sibling that is folded away stay in the argument list while
  their placeholders disappear (`FilterPlaceholders.DiscardedArgument`). A driver that refuses a surplus of
  arguments executes a query exactly under the conditions of `FilterPlaceholders.PositionalStatementMeans` and
  `FilterQueries.QueryMarksMean`. A driver that ignores a surplus binds every `?` to its own argument exactly
  under the conditions of `FilterPositional.AlignedExact` and `FilterQueries.BuildBinds`.
  `FilterPositional.MisboundArgument` is a filter that is then answered by another one, and
  `FilterQueries.MisboundClause` a filter after which a later clause loses the rows that meet it.
- `creator_id in []` is rendered as an empty IN list, which PostgreSQL and MySQL do not read
  (`FilterMeaning.EmptyInUnreadable`). The database reads a statement exactly when no empty IN list is left
  after folding, or it is SQLite (`FilterMeaning.NumberedStatementMeans` and its counterparts for `?` and for
  appended filters).
- `GetUser` with an id and further conditions returns a cached row without looking at the other
  conditions. `StoreCache.CachedRowIsReturned` is such a call, and `StoreCache.Store.GetUser` answers as the
  table would if and only if the id is not cached and live, or the row meets the other conditions.

## Model

| member | source | states |
|---|---|---|
| Calendar.MonthLength | internal/cron/spec.go:102-104 | consecutive month starts are one Gregorian month length apart, also across year ends, for all years |
| Calendar.MonthIndexUnique | internal/cron/spec.go:97 | the month of a day is determined by the two month starts around it |
| Calendar.DateRoundTrip | internal/cron/spec.go:141 | building a date from the six fields of an instant gives the instant back |
| Calendar.DateFields | internal/cron/spec.go:102 | reading the fields of a date built from fields in their usual range gives them back |
| Calendar.EveryWeekday | internal/cron/spec.go:182 | every day of a leap year falls on every weekday in some year, so every pair of day and weekday that a rule can see occurs |
| Calendar.MonthTable | internal/cron/spec.go:104 | the twelve month lengths, and which of 1900, 2000, 2023 and 2024 are leap years |
| Calendar.Epochs | internal/cron/spec.go:81 | January 1 of year 1 is second 0 and a Monday, January 1, 1970 second 62135596800 and a Thursday, and two more dated instants |
| Calendar.NextWeekday | internal/cron/spec.go:182 | one day later is the next weekday |
| Calendar.WeekdaysFromSunday | internal/cron/spec.go:182 | for every instant the weekday is the number of days since Sunday, January 7, 2024, modulo seven |
| Calendar.WeekdayOfDate | internal/cron/spec.go:182 | the same for every date, whatever the time of day |
| Calendar.YearMonotone | internal/cron/spec.go:88-92 | the year never decreases as time goes on, which is what the year limit relies on |
| BitSets.BitOfOne | internal/cron/parser.go:364-366 | or-ing in `1 << i` adds the member `i` and no other |
| BitSets.BitOfShifts | internal/cron/parser.go:359-361 | the shifted masks meet in exactly the interval between them |
| SpecSchedules.NextUnique | internal/cron/spec.go:58-175 | at most one result satisfies the specification of the search |
| SpecSchedules.ActiveOnDate | internal/cron/spec.go:97-188 | on every date a schedule is active exactly when month, hour, minute and second are set, and both day fields or, without a star, one of them |
| SpecSchedules.NextOnWeekday | internal/cron/spec.go:117-136 | a schedule restricted to one weekday answers with days that lie whole weeks from that weekday after Sunday, January 7, 2024 |
| SpecSchedules.FoundWithinFiveYears | internal/cron/spec.go:88-92 | whatever is active before the sixth following new year is found, or something earlier, and what is found lies before it |
| SpecSchedules.MonthStep | internal/cron/spec.go:97-110 | in a month that does not match, the truncating or plain month move lands on the next month's first second and skips no active second |
| SpecSchedules.DayStep | internal/cron/spec.go:117-136 | the day move skips no active second and leaves the month only onto a first day |
| SpecSchedules.HourStep | internal/cron/spec.go:138-148 | the hour move skips no active second and leaves the day only onto hour 0 |
| SpecSchedules.MinuteStep | internal/cron/spec.go:150-160 | the minute move skips no active second and leaves the hour only onto minute 0 |
| SpecSchedules.SecondStep | internal/cron/spec.go:162-172 | the second move skips no active second and leaves the minute only onto second 0 |
| SpecSchedules.Next | internal/cron/spec.go:58-175 | for any six bit sets and any instant it terminates with the least active second strictly after the instant; it returns nothing exactly when no second through the end of the fifth following year is active |
| Text.JoinOfSplit | internal/scheduler/parser.go:147 | splitting loses nothing: joining the parts at the separator gives the text back, and no part holds the separator |
| Text.AtoiNumeric | internal/cron/parser.go:342-352 | text that reads as a number is a sign and digits, with nothing to trim |
| Text.AtoiItoa | internal/scheduler/parser.go:173 | a number in 64 bits is written and read back |
| Text.AtoiReads | internal/cron/parser.go:342-352 | a number is at most one sign and digits, read in full within 64 bits, and nothing else is a number |
| Text.DecimalText | internal/cron/parser.go:343 | the value of digits in positional notation |
| Text.TrimmedSpaces | internal/scheduler/parser.go:150 | blanks around a text are trimmed, and nothing else |
| Text.EmptyDropped | internal/cron/parser.go:247 | empty parts of a field are dropped, and the others stay in order |
| Text.SplitOfJoin | internal/scheduler/parser.go:147 | joined parts without the separator are split again |
| CronParser.ParseRange | internal/cron/parser.go:263-329 | an accepted item lies within the bounds of its field, is not empty and has a positive step |
| CronItems.ItemRoundTrip | internal/cron/parser.go:263-329 | every `*`, `?`, bound or range of numbers or names in any case, with or without a step, is read as what it asks for, or refused with the first fault |
| CronItems.FieldRoundTrip | internal/cron/parser.go:245-256 | a field of items joined by commas is read item by item |
| CronItems.MonthNames | internal/cron/parser.go:332-340 | the names of the twelve months and no others |
| CronItems.DayNames | internal/cron/parser.go:332-340 | the names of the seven days and no others |
| CronItems.NamesLetters | internal/cron/parser.go:332-340 | every name is a word of letters, so no number, star, range or step is taken for one |
| CronItems.FieldBounds | internal/cron/parser.go:140-147 | the bounds of the six fields |
| CronParser.ReachesByRemainder | internal/cron/parser.go:364-366 | the members of an arithmetic progression are those with remainder zero from its start |
| CronParser.GetBits | internal/cron/parser.go:355-368 | the shift form and the loop form both denote the progression from min by step up to max |
| CronParser.DenotesOr | internal/cron/parser.go:253 | or-ing two words denotes the items of both |
| CronParser.GetRange | internal/cron/parser.go:263-329 | the word denotes exactly the item and its star mark, or the item's error is returned |
| CronParser.GetField | internal/cron/parser.go:245-256 | the low bits are exactly the union of the comma items and the top bit is set exactly when an item is a star with step at most one; the first item error is returned |
| CronParser.ParseStandard | internal/cron/parser.go:238-240 | on five fields the six words denote the fields with the default second, or the error of the first field that does not parse is returned; any other count is an error |
| Scheduler.FieldSpec | internal/scheduler/parser.go:129-178 | every accepted field asks only for values between its bounds: an exact value, a non-empty range, a list of at least two, or a positive step |
| Scheduler.FieldRoundTrip | internal/scheduler/parser.go:129-178 | every such matcher is read back from its text, so the matchers that fields are read as are exactly these |
| Scheduler.LegalSelects | internal/scheduler/parser.go:181-229 | every accepted field selects some value between its bounds, and none but the wildcard selects a value outside them |
| Scheduler.ParseField | internal/scheduler/parser.go:129-178 | the loop over list parts computes the field's matcher, or its error |
| Scheduler.ScheduleFields | internal/scheduler/parser.go:29-88 | each matcher of an accepted spec is read from its own field within that field's bounds, and without a seconds field only second 0 matches |
| Scheduler.ScheduleAccepted | internal/scheduler/parser.go:29-88 | a spec is accepted if and only if it has five or six fields and each field is accepted within its own bounds |
| Scheduler.ParseCronExpression | internal/scheduler/parser.go:29-88 | parsing field by field gives the schedule, or the first error |
| Scheduler.BeforeStart | internal/scheduler/parser.go:93-97 | nothing matches between the given instant and the rounded-up start |
| Scheduler.Miss | internal/scheduler/parser.go:107-112 | stepping by a second or a minute past a mismatch skips no match |
| Scheduler.MatchesOnDate | internal/scheduler/parser.go:120-126 | on every date a schedule, with or without seconds, matches exactly when second, minute, hour and month match, and the day or the weekday |
| Scheduler.FirstLook | internal/scheduler/parser.go:93-97 | the search starts at the next whole second, or at the next whole minute without a seconds field |
| Scheduler.CapOnDate | internal/scheduler/parser.go:100 | it gives up on the same date four years later |
| Scheduler.FoundWithinFourYears | internal/scheduler/parser.go:99-114 | whatever matches before that date is found, or something earlier |
| Scheduler.Next | internal/scheduler/parser.go:91-117 | the least matching second after the instant and before the four-year cap, or nothing when there is none |
| CronAgreement.FieldAgrees | internal/scheduler/parser.go:129-178 | whenever both packages accept a field they select the same values, and the star mark is set exactly for `*` and `*/1` |
| CronAgreement.AllFieldsAgree | internal/cron/parser.go:140-147 | all six fields of a spec that both packages accept select the same values |
| CronAgreement.DayRulesByStars | internal/cron/spec.go:179-188 | the two day rules agree exactly when both star marks are set, neither is, or both fields select their whole range |
| CronAgreement.DayRulesAgree | internal/scheduler/parser.go:120-126 | on accepted specs the two day rules agree if and only if the day fields are both wildcards, both restricted, or both select everything |
| CronAgreement.FirstOfMonthDiffers | internal/scheduler/parser.go:125 | on `0 0 1 * *` the two packages do not mean the same instants |
| CronAgreement.FirstOfMonthAccepted | internal/cron/parser.go:238-240 | both packages accept `0 0 1 * *` |
| CronAgreement.FebruaryAgrees | internal/scheduler/parser.go:125 | on `0 0 1-29 2 *` the two packages mean the same instants although their day rules differ |
| CronAgreement.FebruaryAccepted | internal/cron/parser.go:238-240 | both packages accept `0 0 1-29 2 *` |
| CronAgreement.InstantsAgree | internal/scheduler/parser.go:120-126 | on every spec that both packages accept, they mean the same instants if and only if the day fields are both wildcards, both restricted, or restrict nothing in the selected months |
| CronAgreement.PossibleDay | internal/cron/spec.go:179-188 | schedules with the same instants treat alike every day and weekday that a selected month can have |
| CronAgreement.CapWithinLimit | internal/scheduler/parser.go:100 | every instant before the four-year cap lies within the other package's year limit |
| CronAgreement.FastRefinesSlow | internal/scheduler/parser.go:91-117 | on specs with the same instants, at any time, the minute search returns the field-skipping result if that lies before the cap, and nothing otherwise |
| CronAgreement.UnbalancedDisagrees | internal/scheduler/parser.go:91-117 | on every other spec that both accept there is a time from which the two searches disagree |
| CronLoop.SortEntries | internal/cron/cron.go:232-247 | a permutation in order of the next activation, zero times last |
| CronLoop.NoneDueAfter | internal/cron/cron.go:265-268 | in a sorted list nothing after the first entry that is not due is due, so stopping there misses none |
| CronLoop.Cron.Launch | internal/cron/cron.go:220-228 | plans every entry and sorts, or does nothing when running |
| CronLoop.Cron.Wake | internal/cron/cron.go:260-273 | the early-stopping loop fires every due entry of the list and no other |
| CronLoop.Cron.Add | internal/cron/cron.go:139-155 | one new entry under the next id, planned and sorted in when running |
| CronLoop.Cron.Remove | internal/cron/cron.go:341-349 | exactly the entries with the id are gone |
| CronLoop.Cron.Entries | internal/cron/cron.go:333-339 | the snapshot copies the current list entry by entry, and nothing changes |
| CronLoop.Cron.Halt | internal/cron/cron.go:317-330 | only the running flag changes |
| CronRuns.InvStep | internal/cron/cron.go:230-300 | every event keeps ids distinct and issued and the list sorted while running |
| CronRuns.InvAlways | internal/cron/cron.go:230-300 | the invariant holds in every state of every run from a new `Cron` |
| CronRuns.StartsAreDue | internal/cron/cron.go:265-273 | the starts of a wake are one for every due entry and no other, with distinct ids |
| CronRuns.WakeStartsDue | internal/cron/cron.go:260-273 | in every run a wake starts exactly the due entries, once each |
| CronRuns.RemovedNeverStarts | internal/cron/cron.go:185-193 | after the removal of an issued id no later wake of the run starts it |
| CronRuns.IdsNeverReused | internal/cron/cron.go:139-155 | the ids of two additions of a run differ |
| CronRuns.NoneRepeatsStep | internal/cron/cron.go:260-273 | with later-answering schedules, no entry ever waits for an activation that its id already had |
| CronRuns.NoActivationTwice | internal/cron/cron.go:260-273 | in every run the activations started for one id strictly increase |
| CronRuns.NoneStartsEarly | internal/cron/cron.go:265-271 | every start of a run happens at or after the activation it is for |
| CronRuns.NothingDueAfterWake | internal/cron/cron.go:260-273 | after a wake every activation that is set lies after the clock |
| CronRuns.TimerIsLeast | internal/cron/cron.go:249-256 | in every state of a run the timer waits for the least activation of all entries, and for nothing exactly when none has one |
| CronRuns.WakeStartsAtTimer | internal/cron/cron.go:249-273 | a wake starts an entry if and only if it does not come before the instant that the timer waits for |
| CronRuns.AddedWaits | internal/cron/cron.go:275-280 | an entry added while the loop runs waits for its schedule's answer at that time, one added before for nothing |
| CronRuns.LaunchPlans | internal/cron/cron.go:220-228 | a launch makes every entry wait for its schedule's answer at that time |
| CronRuns.GoesOnWaiting | internal/cron/cron.go:258-299 | an entry goes on waiting, unchanged, until a wake at or after its activation, its removal or a launch |
| CronRuns.StartsWhenDue | internal/cron/cron.go:260-273 | the first wake at or after its activation starts it, and then it waits for its schedule's answer at that wake |
| CronRuns.HaltSilences | internal/cron/cron.go:286-289 | after a halt nothing starts until the loop is launched again |
| CronRuns.PrevAlwaysLast | internal/cron/cron.go:270 | in every state of a run the previous activation of an entry is the one it was last started for, and there is none before its first start |
| LikePatterns.LikeEscaped | internal/filter/render.go:607-609 | an escaped value consumes exactly itself, whatever pattern follows |
| LikePatterns.PatternExact | internal/filter/render.go:593-609 | the built pattern matches exactly the strings that contain, start with or end with the value |
| LikePatterns.FoldedPatternExact | internal/filter/render.go:578-609 | this still holds when a case fold is applied to the finished pattern and to the text |
| LikePatterns.Underscores | internal/filter/render.go:607-609 | n underscores match exactly the texts of n characters |
| LikePatterns.PlainPattern | internal/filter/render.go:593-603 | a pattern without metacharacters matches itself only |
| LikePatterns.EscapedCharacter | internal/filter/render.go:607-609 | an escaped character matches itself only, and an escape at the end nothing |
| LikePatterns.UnescapedMatchesMore | internal/filter/render.go:607-609 | without the escape the filter for `_` would match the text `a` |
| SqlText.ReadPrinted | internal/filter/render.go:111-126 | emitted text binds at least as tightly as NOT, whatever text follows it |
| SqlText.ParsePrint | internal/filter/render.go:812-840 | text emitted for AND, OR and NOT, read with NOT over AND over OR, gives back the tree |
| FilterRender.Renderer.AddArg | internal/filter/render.go:842-849 | appends one argument and hands out its number after the offset, or `?` |
| FilterRender.Renderer.RenderLeafCondition | internal/filter/render.go:516-546 | a leaf's arguments are appended in order with consecutive placeholders |
| FilterRender.Renderer.RenderCondition | internal/filter/render.go:61-126 | the text, flags, arguments and counter are those of the constant-folded tree, or the first error |
| FilterRender.Renderer.Render | internal/filter/render.go:32-59 | the statement of the folded tree: empty for always true, `1 = 0` for never |
| FilterErrors.RendersExactly | internal/filter/render.go:32-126 | a condition renders if and only if every leaf names a known field of a kind that supports it with literals of its type, otherwise the error is that of the first leaf from the left; the arguments are those of the leaves from left to right |
| FilterErrors.LeafRenders | internal/filter/render.go:128-410 | the same for one leaf |
| FilterErrors.ConvertsList | internal/filter/render.go:516-539 | an IN list is accepted exactly when every value has the field's type, which is string or integer |
| FilterMeaning.LeafMeans | internal/filter/render.go:304-355 | a rendered leaf over its bound arguments has the leaf's truth value on every row, as the tree is evaluated once it has been read |
| FilterConditions.KleeneLogic | internal/filter/render.go:812-840 | AND is the minimum, OR the maximum and NOT the reversal of false, unknown and true |
| FilterConditions.NumbersCompare | internal/filter/render.go:338-342 | the six comparisons are the usual ones on numbers |
| FilterConditions.ValuesCompare | internal/filter/render.go:345-355 | texts and booleans are equal or not, and booleans equal the 1 and 0 that SQLite stores |
| FilterConditions.BooleanColumn | internal/filter/render.go:128-149 | a boolean column is its own filter and equals true or false accordingly |
| FilterConditions.NullColumn | internal/filter/render.go:311-320 | a missing column is null and compares as unknown with every value |
| FilterConditions.InMeans | internal/filter/render.go:541-545 | an IN list is the OR of equalities |
| FilterMeaning.ReadableExact | internal/filter/render.go:541-545 | the database reads the folded tree if and only if no empty IN list is left in it, or it is SQLite |
| FilterMeaning.EmptyInUnreadable | internal/filter/render.go:541-545 | `field in []` is rendered, PostgreSQL and MySQL do not read the text, and the condition is false |
| FilterMeaning.FoldMeans | internal/filter/render.go:812-840 | folding trivial and unsatisfiable operands is AND, OR and NOT of three-valued logic |
| FilterMeaning.SimplifyMeans | internal/filter/render.go:61-126 | the folded tree has the three-valued meaning of the condition when its arguments are in place |
| FilterMeaning.NumberedStatementMeans | internal/filter/render.go:32-126 | a statement with numbered placeholders is read by PostgreSQL if and only if no empty IN list is left, and then it has the meaning of the condition on every row, for any argument list that holds its arguments after the offset |
| FilterPlaceholders.RenumberPrint | internal/filter/render.go:91-126 | numbering the marks of the text from left to right numbers the leaves of the tree in order |
| FilterPlaceholders.CountExact | internal/filter/render.go:91-126 | the text keeps a placeholder for every collected argument if and only if no folded-away sibling binds one |
| FilterPlaceholders.MarksAreNumbers | internal/filter/render.go:842-849 | without discarded arguments, positional and numbered rendering bind the same values |
| FilterPlaceholders.PositionalStatementMeans | internal/filter/render.go:32-59 | a `?` statement can be executed, with one argument for every mark and text that the database reads, if and only if no argument was discarded and no empty IN list is left outside SQLite, and then it has the meaning of the condition on every row |
| FilterPlaceholders.ConstantFreeKeeps | internal/filter/render.go:91-126 | a tree without constants never discards an argument, so its `?` statement always has one argument for every mark |
| FilterPlaceholders.DiscardedArgument | internal/filter/render.go:812-819 | a text match beside a false constant leaves one argument and no placeholder |
| FilterPlaceholders.EvalStable | internal/filter/helpers.go:22 | appending arguments does not rebind earlier numbers |
| FilterPlaceholders.SimplifyWithin | internal/filter/render.go:842-849 | a filter's placeholders are the numbers of its own arguments, right after its offset |
| FilterAppend.Builder.AppendConditions | internal/filter/helpers.go:9-25 | the loop appends each filter at the offset of the arguments so far, skips always-true ones and stops at the first error, with the earlier filters appended |
| FilterAppend.AppendedBeforeError | internal/filter/helpers.go:16-22 | on an error exactly the filters before the first one that does not render are appended |
| FilterAppend.AppendOneMeans | internal/filter/helpers.go:11-22 | one filter extends the query, keeps the value of the earlier clauses and adds its own meaning, or adds a clause that the database does not read |
| FilterAppend.AppendMeans | internal/filter/helpers.go:9-25 | for any filters no placeholder is rebound; the database reads the query if and only if no filter keeps an empty IN list, and then the clauses together mean the earlier clauses and all filters |
| FilterPositional.AlignedExact | internal/filter/render.go:842-849 | binding the marks from left to right binds every mark to its own argument if and only if no mark stands after a discarded argument |
| FilterPositional.InOrderStatementMeans | internal/filter/render.go:32-59 | such a statement has the meaning of the condition on every row if and only if the database reads it, also when a surplus of arguments is ignored |
| FilterPositional.MisboundArgument | internal/filter/render.go:812-849 | `(v AND false) OR w` is answered by `v` when a surplus is ignored, while it means `w` |
| FilterPositional.MisboundDiffers | internal/filter/render.go:548-556 | on a row with the text `a` the filters `a` and `b` differ, so the wrong binding shows |
| FilterQueries.AppendRunBuilds | internal/filter/helpers.go:9-25 | appending filters builds the query of these filters, or gives the first error |
| FilterQueries.QueryMeans | store/db/postgres/memo.go:58-90 | a query of filters and further clauses with numbered placeholders is read if and only if every piece is, and then it means the earlier clauses and all the pieces |
| FilterQueries.ClauseBinds | store/db/sqlite/memo.go:65-98 | the marks of a later clause are bound to its own arguments if and only if nothing was discarded before it, or it has none |
| FilterQueries.FilterBinds | internal/filter/render.go:842-849 | the marks of a filter are bound to its own arguments if and only if it is aligned, and has none when something was discarded before it |
| FilterQueries.BuildBinds | store/db/sqlite/memo.go:61-98 | over a whole query, binding the marks from left to right binds every mark to its own argument if and only if no mark stands after a discarded argument |
| FilterQueries.InOrderQueryMeans | store/db/sqlite/memo.go:61-98 | such a query means the earlier clauses and all the pieces on every row, if and only if the database reads it, also when a surplus of arguments is ignored |
| FilterQueries.QueryMarksMean | store/db/mysql/memo.go:69-106 | with a driver that refuses a surplus, the query can be executed if and only if every filter is skipped or keeps its arguments and the database reads every piece, and then it has that meaning |
| FilterQueries.MisboundClause | store/db/sqlite/memo.go:90-92 | after the filter `(v AND false) OR flag` the clause on the creator is bound to the pattern of `v`, and a row that meets both is not found |
| FilterSets.DistinctStrings | internal/filter/parser.go:659-669 | the first occurrences in order: no repeats, and the same set of strings |
| FilterSets.FirstInOrder | internal/filter/parser.go:659-669 | the distinct strings are in the order in which they first occur |
| FilterSets.CombineConditions | internal/filter/parser.go:651-657 | the loop builds the left-leaning chain of all conditions in order |
| FilterSets.LeftLeaning | internal/filter/parser.go:651-657 | three conditions are combined as `(a op b) op c` |
| FilterSets.BuildSetCondition | internal/filter/parser.go:575-641 | errors for an unknown field, a field that is not a list and an element that is not a string, otherwise the desugared condition |
| FilterSets.ChainMeans | internal/filter/parser.go:643-657 | a chain of memberships says that all, or some, of the values are tags |
| FilterSets.SetConditionMeans | internal/filter/parser.go:617-640 | on duplicate-free tags the three operations hold exactly when the literal set is a subset of, meets, or equals the tag set, for any repeats in the literal |
| UserTables.TreeIsLeast | store/db/sqlite/user_delete.go:133-166 | the recursive query gives the least set that holds the user's memos and every comment on a member, also on cyclic comments |
| UserTables.DeletionKeepsReferences | store/db/mysql/user_delete.go:92-127 | if every reference is valid before a deletion, every reference is valid after it |
| UserTables.NoOrphanComment | store/db/mysql/user_delete.go:133-181 | no surviving memo was a comment on a deleted one |
| UserLaws.TreeIsDoomed | store/db/sqlite/user_delete.go:133-166 | the memo tree holds exactly the memos that a chain of comments leads to from one of the user's |
| UserLaws.DeletionIsExact | store/db/mysql/user_delete.go:61-127 | for every table a row is kept if and only if it is not the user's and has nothing to do with such a memo: owner, attachment, reaction, share, either end of a relation, sender, receiver, or a nonzero id in a comment or mention |
| UserLaws.NothingElseGoes | store/db/mysql/user_delete.go:92-127 | when no row has to do with the user or such a memo, only the user and these memos go |
| UserLaws.KeptIsUnique | store/db/mysql/user_delete.go:92-127 | these rules determine every table |
| UserDeletion.Batches | store/db/mysql/user_delete.go:517-534 | the batches joined are the values in order, none is empty, none exceeds a positive size, and all but the last have it |
| UserDeletion.Discover | store/db/mysql/user_delete.go:168-175 | rows with a seen id are skipped and the others recorded once, with `seen` and the frontier in step |
| UserDeletion.Progress | store/db/mysql/user_delete.go:154-178 | each level ends the loop or leaves strictly fewer memos to find, also on cycles |
| UserDeletion.Transaction.ExpandLevel | store/db/mysql/user_delete.go:155-177 | one level records every comment on the frontier and puts exactly the newly seen ids on the next one |
| UserDeletion.Transaction.ListMemoTree | store/db/mysql/user_delete.go:133-181 | the frontier loop terminates with exactly the memos of the recursive query, without repeats |
| UserDeletion.Transaction.ScanAttachments | store/db/mysql/user_delete.go:242-275 | one scan adds the rows that are not yet listed, each once |
| UserDeletion.Transaction.ListAttachments | store/db/mysql/user_delete.go:205-240 | exactly the user's attachments and those of the memos, each once |
| UserDeletion.Transaction.ListInboxIds | store/db/mysql/user_delete.go:304-384 | exactly the notifications sent or received by the user or referring to the memos |
| UserDeletion.Transaction.CollectTargets | store/db/mysql/user_delete.go:61-90 | the collected memos, attachments, setting keys and notifications are exactly those of the specification |
| UserDeletion.Transaction.DeleteReactionsByContent | store/db/mysql/user_delete.go:417-425 | batched: exactly the reactions to the memos are gone, no other table changes |
| UserDeletion.Transaction.DeleteAttachments | store/db/mysql/user_delete.go:427-435 | batched: exactly the listed attachments are gone |
| UserDeletion.Transaction.DeleteShares | store/db/mysql/user_delete.go:442-453 | batched: exactly the user's shares and the shares of the memos are gone |
| UserDeletion.Transaction.DeleteInboxes | store/db/mysql/user_delete.go:455-463 | batched: exactly the listed notifications are gone |
| UserDeletion.Transaction.DeleteRelations | store/db/mysql/user_delete.go:475-486 | batched: exactly the relations with a deleted memo at either end are gone |
| UserDeletion.Transaction.DeleteMemos | store/db/mysql/user_delete.go:488-496 | batched: exactly the listed memos are gone |
| UserDeletion.Transaction.DeleteTargets | store/db/mysql/user_delete.go:92-127 | the ten statements in order leave the stated tables |
| UserDeletion.TargetsAreExact | store/db/mysql/user_delete.go:61-127 | deleting the collected targets removes exactly the user's rows and what hangs off the memo tree |
| UserDeletion.Driver.DeleteUser | store/db/mysql/user_delete.go:29-59 | all or nothing: after a fault at any stage nothing changed, otherwise exactly the rows of other users that have nothing to do with a doomed memo are kept, and the removed attachments are reported each once with the user's setting keys |
| SchemaGraph.ReachableIsLeast | server/router/mcp/openapi.go:209-231 | the reachable components are the least set that holds the referenced ones and is closed under references |
| SchemaGraph.RewrittenRefs | server/router/mcp/openapi.go:166-179 | the references of a rewritten value are exactly the pointers to the components it named |
| SchemaPaths.ShapeKept | server/router/mcp/openapi.go:145-190 | at every place outside references a rewritten value has the keys, length or literal of the original, and at every reference to a component exactly the pointer to its definition |
| SchemaPaths.NoReferenceUnchanged | server/router/mcp/openapi.go:161-162 | a value without references is returned unchanged |
| SchemaPaths.RefsAreAtPlaces | server/router/mcp/openapi.go:166-168 | the references of a value are the non-empty texts under `$ref` at its places |
| SchemaPaths.ReachableIsLed | server/router/mcp/openapi.go:209-231 | the reachable components are those that a chain of references leads to |
| SchemaPaths.ResolvableIsDefined | server/router/mcp/openapi.go:128-231 | a value resolves exactly when every reference in it, and in every component that a chain leads to, refers to a defined component |
| SchemaRefs.Resolver.ResolveValue | server/router/mcp/openapi.go:145-164 | returns the rewritten value, covers its references, keeps earlier definitions, or some reachable reference is broken |
| SchemaRefs.Resolver.ResolveItems | server/router/mcp/openapi.go:151-160 | the same for the items of a list |
| SchemaRefs.Resolver.ResolveMap | server/router/mcp/openapi.go:166-190 | the same for a map or a reference, for any order of keys |
| SchemaRefs.Resolver.AddSchemaDef | server/router/mcp/openapi.go:209-231 | terminates on cycles; afterwards the component is defined with all its references covered and `resolving` is as before, or it is undefined or broken |
| SchemaRefs.Resolver.ResolveComponentSchema | server/router/mcp/openapi.go:192-207 | the inlined component's placeholder is filled in, so no placeholder is left |
| SchemaRefs.FinishedIsExact | server/router/mcp/openapi.go:128-138 | a finished walk has defined exactly the reachable components, each rewritten |
| SchemaRefs.ResolveSchemaRef | server/router/mcp/openapi.go:128-138 | succeeds if and only if every reachable reference is well formed and defined; the schema has the shape of its target, the definitions are exactly the components that a chain of references leads to, each with the shape of its component, for any order of keys |
| SchemaRefs.TargetMeans | server/router/mcp/openapi.go:166-174 | a schema that is no reference stands for itself, a reference for the component that it names, and a reference to nothing defined for none |
| SchemaRefs.DefinitionsResolved | server/router/mcp/openapi.go:128-138 | the shapes of the schema and of all definitions, and which definitions there are |
| SchemaRefs.SelfContained | server/router/mcp/openapi.go:166-190 | every reference in the result and in every definition points to a definition |
| TtlCache.NewestSurvives | store/cache/cache.go:98-120 | an item that expires later than all others survives its own store |
| TtlCache.RemovedCount | store/cache/cache.go:253-256 | a store that exceeds the maximum removes a fifth of it, rounded down, and at least one; any other store removes nothing |
| TtlCache.AllFit | store/cache/cache.go:98-120 | storing several items evicts nothing as long as all of them fit |
| TtlCache.Cache.SetWithTTL | store/cache/cache.go:98-120 | the item is stored, the counter stays exact, and over the maximum exactly the oldest are removed |
| TtlCache.Cache.Get | store/cache/cache.go:123-147 | the live value, or nothing; an expired item is dropped and nothing else changes |
| TtlCache.Cache.Delete | store/cache/cache.go:150-160 | exactly the key is gone and the counter stays exact |
| TtlCache.Cache.Clear | store/cache/cache.go:163-179 | nothing is left and the counter is zero |
| TtlCache.Cache.Cleanup | store/cache/cache.go:218-250 | exactly the expired items are gone and the counter stays exact |
| TtlCache.Cache.SelectOldest | store/cache/cache.go:264-297 | for any visiting order the candidates are distinct, as many as allowed, and no other item expires earlier than one of them |
| TtlCache.Cache.CleanupOldest | store/cache/cache.go:253-313 | below the maximum nothing changes; above it as many keys as the threshold, or all if there are fewer, are removed, no removed key expires later than a kept one, and the counter stays exact |
| TtlCache.RemovedExactly | store/cache/cache.go:300-312 | removing the selected candidates removes the oldest keys, as many as the threshold or all of them |
| StoreKeys.UserKeyInjective | store/user.go:86-88 | distinct user ids have distinct cache keys |
| StoreKeys.SettingKeyInjective | store/cache.go:7-9 | distinct pairs of user id and setting key have distinct cache keys, for any key text |
| StoreCache.UserStored | store/user.go:90-98 | storing a written row keeps every cached user equal to its row, also when the store evicts others |
| StoreCache.SettingStored | store/user_setting.go:42-61 | the same for settings |
| StoreCache.SettingsDeleted | store/user_setting.go:110-125 | dropping the entries of all decodable deleted rows keeps the cache coherent |
| StoreCache.UserSettingsDeleted | store/user_delete.go:39-47 | after the cascade no setting of the user is cached and the other entries are coherent |
| StoreCache.Store.CreateUser | store/user.go:90-98 | adds the row and stores it in the cache, with the clean-up that may follow, and keeps both caches coherent |
| StoreCache.Store.UpdateUser | store/user.go:124-132 | replaces an existing row and stores it in the cache, or fails and changes nothing; the caches stay coherent |
| StoreCache.Store.ListUsers | store/user.go:134-144 | exactly the rows that meet the conditions, for one id or for all, each once; they are stored in the cache one after the other, each with the clean-up that may follow |
| StoreCache.ListedAreCached | store/user.go:139-141 | after a list every matching row is cached, provided that the maximum is not exceeded |
| StoreCache.Store.GetUser | store/user.go:146-167 | by id alone, what an uncached read returns; unless the id is cached and live, nothing exactly when no row meets id and conditions; with further conditions right if and only if the id is not cached and live or its row meets them |
| StoreCache.CachedRowIsReturned | store/user.go:146-153 | a created user is returned by a search for its id with a condition that it does not meet |
| StoreCache.CachedForTenMinutes | store/store.go:31 | a created user is answered from the cache for ten minutes and not longer |
| StoreCache.SoughtAreUsersOf | store/user.go:134-144 | a search finds the rows that meet its conditions, of one id or of all |
| StoreCache.SoughtAreSettingsOf | store/user_setting.go:63-82 | a search for settings finds the rows of one user or all, with one key or any |
| StoreCache.KnownKeys | store/user_setting.go:425-466 | the six keys that can be decoded |
| StoreCache.Store.DeleteUser | store/user.go:169-179 | the user's row and exactly the user's settings are gone, and no cache entry of the user is left |
| StoreCache.Store.DeleteUserCache | store/user_delete.go:39-47 | exactly the entries of the reported keys are dropped |
| StoreCache.Store.UpsertUserSetting | store/user_setting.go:42-61 | an encodable setting replaces its row and is stored in the cache; any other is an error and changes neither table nor cache |
| StoreCache.Store.ListUserSettings | store/user_setting.go:63-82 | exactly the rows of the user, or of all, with the key, or any, that can be decoded, each once; they are stored in the cache one after the other |
| StoreCache.Store.GetUserSetting | store/user_setting.go:84-108 | the one row that is sought, nothing when there is none, or an error when there are several |
| StoreCache.Store.DeleteUserSettings | store/user_setting.go:110-125 | exactly the rows that are sought are gone, for one user or for all, and no cached entry is stale |

## Left out

- SpecSchedules.Next: UTC only, so the schedule's location and the repair of midnights that do not exist (internal/cron/spec.go:72-79 and 123-131) are not modelled.
- Scheduler.Next: UTC only; the zero time is a separate value, although the Go value is also an instant of year 1.
- CronParser.ParseStandard: takes the blank-separated fields of a spec and covers the standard five-field options only; descriptors, time zone prefixes, optional fields and the other parser options are not modelled.
- Scheduler.ScheduleFields: takes the blank-separated fields; the empty expression has zero fields and is refused for its field count.
- CronAgreement.FieldAgrees: fields hold no blanks, as blank-separated fields never do, and lower-casing covers ASCII letters only.
- CronLoop.SortEntries: stands for the library sort, of which only the contract is used.
- CronLoop.Cron.Wake: a job start is an entry in a log; goroutines, channels, the timer's delivery, the job chain and its waiting are not modelled, and entries are values rather than pointers.
- CronLoop.Cron.Entries: does not model that a running loop hands the copy over a channel.
- CronLoop.Cron.Halt: does not model the context that waits for running jobs.
- FilterRender.Renderer.RenderLeafCondition: tag lists, list membership, comprehensions, sizes, accessors and regular expressions are opaque leaves with their operands in text order; only scalar and boolean comparisons, IN lists, field predicates and text matches are spelled out. An IN condition on the field `tag` is such an opaque leaf.
- FilterPlaceholders.PositionalStatementMeans: that a driver refuses a surplus of arguments is an assumption about drivers, which are not part of this model; `FilterPositional` and `FilterQueries` cover those that ignore it.
- FilterMeaning.LeafMeans: column expressions are column names, literals are strings, integers and booleans, and booleans compare as SQLite stores them. Of what a database may refuse to read only the empty IN list is modelled.
- LikePatterns.FoldedPatternExact: the case fold works character by character; folds that change the length of a string are not modelled.
- FilterAppend.Builder.AppendConditions: takes condition trees; parsing and type-checking the filter text, and buildCondition's mapping of operators, are not modelled.
- FilterSets.SetConditionMeans: membership and size are assumed to test the tag list exactly; the unescaped LIKE patterns that the dialects use for tags do not.
- UserDeletion.Driver.DeleteUser: tables are sets of rows with the columns that matter, a transaction is a copy that is committed as a whole, and reading a notification's message is not modelled; what a statement did before a fault is discarded with the copy.
- UserTables.TreeIsLeast: the recursive query is given its standard meaning of repeated rounds in which known rows are dropped.
- SchemaRefs.ResolveSchemaRef: stops before the definitions are attached, so the key `$defs` and the map sharing of a self-recursive inlined schema are not modelled; specification loading and the operation registry are left out too.
- TtlCache.Cache.CleanupOldest: the eviction callback and size estimates are not modelled, and calls do not interleave.
- StoreCache.Store.GetUser: other search conditions are one predicate on the row, and limits are not modelled.
- StoreCache.Store.CreateUser: driver calls succeed and calls do not interleave; creation of the first user under its lock is not modelled.
- StoreCache.Store.UpsertUserSetting: encoding and decoding are assumed to be inverse on the known keys; the token, webhook and instance setting helpers are not modelled.
- The PostgreSQL driver's cascade, which differs from the others in placeholder numbering only.
- The remaining HTTP, mail, identity and user interface code.
