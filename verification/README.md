# Verified models of five components

This project models five parts of the note-taking server in Dafny and proves what they promise.

1. **Cron engine** (`internal/cron`, and the naive schedule of `internal/scheduler/parser.go`).
   `Calendar.dfy` is the proleptic Gregorian calendar in one fixed-offset zone. `Mask.dfy` relates 64-bit
   masks to sets of values. `CronSpec.dfy` holds the field-stepping search with its jumps back to the first
   field, proved equal to trying every second; `CronActivations.dfy` says what that means for a schedule
   over time; `CronGivesUp.dfy` says exactly when the search loses activations; `NaiveSchedule.dfy` compares
   it with the slow implementation, and `NaiveFields.dfy` its field matchers with the masks. `CronParser.dfy`
   goes from field text to masks, `CronText.dfy` says which texts denote which ranges and fields,
   `CronDescriptors.dfy` covers `@yearly` to `@hourly`. `CronEngine.dfy` is the scheduler as a state machine
   (callers holding the mutex, one outstanding request, the goroutine's own steps) with its theorems over
   whole runs; `CronScheduler.dfy` is the scheduler's own code over mutable entries, each method proved to
   take one step of that machine. `JobChain.dfy` has the job wrappers in every interleaving.
2. **Filter compiler** (`internal/filter`). `FilterSql.dfy` gives search conditions a three-valued meaning,
   prints them as tokens, reads tokens back with SQL's precedence and binds argument vectors.
   `FilterIR.dfy` and `FilterBuild.dfy` are the condition tree and its construction from expressions,
   `FilterMeaning.dfy` what a tree means and how constants are folded, `FilterRenderer.dfy` the renderer,
   `FilterBinding.dfy` placeholders, argument vectors and lists of filters. `FilterLeaves.dfy` says what compiled
   leaves mean on rows that hold known values, with operator texts and function names written out.
3. **User deletion** (`store/db/*/user_delete.go`). `UserTables.dfy` has the tables, the comment tree as a
   least fixpoint, and the theorems about what a deletion leaves; `UserDeletion.dfy` the collecting and
   deleting code of the three drivers, which differ in how they list the tree and in their placeholders.
4. **TTL cache** (`store/cache/cache.go`): `TtlCache.dfy`.
5. **Store layer over the cache** (`store/user.go`, `store/user_setting.go`, `store/user_delete.go`):
   `CacheKeys.dfy`, `StoreCache.dfy`.

`Results.dfy` has the optional and fallible values the other modules share.

Results a maintainer may not expect:

- `SpecSchedule.Next` can report no activation although one still comes, because the search ends with the fifth
  year after the start. For schedules whose star bits stand for full fields, as all parsed ones' do, this happens
  exactly when the schedule fires on February 29 alone (some clock time is enabled, no weekday makes a day match, no
  date of a common year is enabled, February 29 is), this year's February 29 is past or does not exist, and the
  year is 96, 97 or 98 of a century that ends without a leap year (`CronGivesUp.GivesUpExactly`).
  `CronActivations.LeapDayIsGivenUp` is `0 0 0 29 2 *` asked in 2097.
- The two cron implementations accept the same days exactly when neither day field of the engine carries a
  star bit, or both fields are full, or both are empty (`NaiveSchedule.SameDaysExactly`).
  `NaiveSchedule.OneStarSeparatesTheSearches` is `0 0 0 13 1 *`, which they answer differently.
- Folding a constant drops SQL text but keeps the arguments that text had bound. In every dialect the finished
  clause and its arguments fit, each placeholder denoting an argument and each argument denoted, exactly when no
  filter that prints anything lost an argument this way (`FilterBinding.KeptExactly`,
  `FilterBinding.FiltersSelectRows`); `FilterBuild.FoldedConstantLeavesStrayArgument` is the smallest case.
- An empty IN list that constants do not fold away is printed as it is: `tag in []` as `()`, which no dialect
  reads, and a scalar one as `IN ()`, which only SQLite reads. A clause can be read exactly when its filters hold
  no such list (`FilterBinding.FiltersSelectRows`, with `FilterBuild.EmptyTagListIsUnreadable` and
  `FilterBuild.EmptyScalarListIsReadableOnSqliteOnly` as the smallest cases).
- `has_link == false` and its like keep a memo whose payload lacks the boolean on SQLite, but not on MySQL and
  Postgres; `has_task_list == false` keeps it nowhere (`FilterLeaves.MissingBooleanIsFalseOnSqliteOnly`).
- `Store.GetUser` with an id and further conditions answers from the cache without looking at the further
  conditions; `StoreCache.Store.GetUser` says exactly when the returned user does not match, and
  `StoreCache.OtherConditionsAreIgnored` shows it on a store with one user.

Modelling decisions. Instants are integers: nanoseconds at the interfaces, whole seconds inside the calendar.
`None` is Go's zero time. A SQL leaf is an opaque three-valued function of its form, column, operator and
bound values. Tables are maps and sets; a query returns its rows in any order. The clock, and the ids that the
database assigns, are parameters. Sorting and map iteration, whose order Go leaves open, are implemented here
in one way, but their contracts promise no more than a sorted rearrangement or a visit of every row once.

## Model

| member | source | states |
|---|---|---|
| `Calendar.DayNumberRoundTrip` | internal/cron/spec.go:97-102 | every valid date has a day number whose year, month and day are that date again: the calendar behind `Year`, `Month`, `Day` and `time.Date` is consistent for all years, negative ones included |
| `Calendar.DateOfFields` | internal/cron/spec.go:102-141 | rebuilding an instant from its six fields gives the instant itself |
| `Calendar.MonthLengths` | internal/cron/spec.go:117-136 | the months have 30, 31, 28 or 29 days as the calendar says |
| `Calendar.DayAfter` | internal/cron/spec.go:117-136 | a day later it is the next day of the month, or the first of the next month or year, with the next day of the week and the same clock |
| `Calendar.KnownTuesday` | internal/cron/spec.go:177-188 | January 2, 2001 is a Tuesday |
| `Calendar.WeekdayOfDate` | internal/cron/spec.go:177-188 | the weekday of every valid date is the known Tuesday and the days since, counted modulo 7 |
| `Mask.HasShl` | internal/cron/parser.go:355-368 | bit k of a mask shifted left by n is bit k-n of the mask, and bits shifted out are lost |
| `Mask.HasBit` | internal/cron/spec.go:97 | `1<<i` tests exactly bit i |
| `CronSpec.Next` | internal/cron/spec.go:58-175 | the search with its five loops and backward jumps terminates for all masks, empty ones included, and returns exactly what trying each second from the upcoming one through the end of the fifth year after it would find |
| `CronSpec.MonthRound` | internal/cron/spec.go:97-110 | one round of the month loop skips no match, leaves all finer fields at their minimum, and leaves the year only through January |
| `CronSpec.DayRound` | internal/cron/spec.go:117-136 | one round of the day loop skips no match, ends at midnight, and leaves the month only through a first |
| `CronSpec.HourRound` | internal/cron/spec.go:138-148 | one round of the hour loop skips no match and leaves the day only through hour 0 |
| `CronSpec.MinuteRound` | internal/cron/spec.go:150-160 | one round of the minute loop skips no match and leaves the hour only through minute 0 |
| `CronSpec.SecondRound` | internal/cron/spec.go:162-172 | one round of the second loop skips no match and leaves the minute only through second 0 |
| `CronActivations.NextIsLeastMatch` | internal/cron/spec.go:56-88 | the result is later than the given instant, matches all six masks and the day rule, is the least such second, and is at most five years ahead; no result only when no second matches through that year |
| `CronActivations.IterationEnumeratesMatches` | internal/cron/spec.go:81-93 | iterating the search lists every matching second exactly once, in increasing order |
| `CronActivations.YearlyDateNeverRunsDry` | internal/cron/spec.go:87-93 | a schedule with an existing second, minute, hour and month, a day up to 28 and all weekdays always has a next activation |
| `CronActivations.YearlyDateIteratesForever` | internal/cron/spec.go:87-93 | iterating such a schedule never ends |
| `CronActivations.LeapDayIsGivenUp` | internal/cron/spec.go:87-93 | an instance of giving up: `0 0 0 29 2 *` asked in 2097 finds nothing, although February 29, 2104 matches |
| `CronGivesUp.GivesUpExactly` | internal/cron/spec.go:87-93 | the search reports no activation although one still comes exactly for schedules that fire on February 29 alone, asked when this year holds no further one and none of the next five years is a leap year |
| `CronGivesUp.NoLeapYearAheadExactly` | internal/cron/spec.go:87-93 | no leap year within five years: exactly the years 96, 97 and 98 of a century whose end is no leap year |
| `CronGivesUp.NoneMeansLosing` | internal/cron/spec.go:87-93 | an activation that the search misses leaves no other reason |
| `CronGivesUp.LosingMeansNone` | internal/cron/spec.go:87-93 | such a schedule finds nothing within the search, and a later leap year matches |
| `CronGivesUp.ParsedStarsAreFull` | internal/cron/parser.go:263-329 | the star bit of a parsed day field stands for a full field |
| `NaiveSchedule.Schedule.Next` | internal/scheduler/parser.go:91-117 | stepping by seconds or minutes finds the first matching second within four years: no second is lost by stepping in minutes |
| `NaiveSchedule.SameDaysExactly` | internal/scheduler/parser.go:120-126 | with equal fields the two day rules agree exactly when no star bit is set, or both day fields are full, or both are empty |
| `NaiveSchedule.OneStarSeparatesTheSearches` | internal/scheduler/parser.go:120-126 | with equal fields and one star the slow search returns an instant that the fast one does not |
| `NaiveFields.WildcardAgrees` | internal/scheduler/parser.go:180-185 | the matcher of `*` accepts the values that the mask of the same text has |
| `NaiveFields.ExactAgrees` | internal/scheduler/parser.go:187-194 | the matcher of `a` accepts the values that the mask of the same text has |
| `NaiveFields.RangeAgrees` | internal/scheduler/parser.go:196-203 | the matcher of `a-e` accepts the values that the mask of the same text has |
| `NaiveFields.ListAgrees` | internal/scheduler/parser.go:205-217 | the matcher of a list of numbers accepts the values that the mask of the same text has |
| `NaiveFields.StepAgrees` | internal/scheduler/parser.go:219-229 | the matcher of `*/s` accepts the values that the mask of the same text has |
| `NaiveSchedule.WindowsNest` | internal/scheduler/parser.go:93-100 | the four-year window of the slow search starts within a unit of the fast one's and ends inside it |
| `NaiveSchedule.FastRefinesNaive` | internal/scheduler/parser.go:91-117 | for equal fields and day rules the two searches return the same instant, except that the slow one gives up beyond four years |
| `CronParser.MustParseInt` | internal/cron/parser.go:342-352 | a parsed number fits a signed 64-bit integer and is not negative; `CronText.NumberParses` says which number |
| `CronParser.RangeOf` | internal/cron/parser.go:263-326 | an accepted range lies within the field's bounds with a positive step below 2^63; the `CronText` rows say which range a text denotes |
| `CronText.NumberParses` | internal/cron/parser.go:342-352 | the decimal text of a number parses to that number |
| `CronText.RangeTextParses` | internal/cron/parser.go:258-329 | `a-e/s` denotes every s-th value from a to e, whenever those lie within the bounds |
| `CronText.PlainRangeTextParses` | internal/cron/parser.go:258-329 | `a-e` denotes every value from a to e |
| `CronText.ValueTextParses` | internal/cron/parser.go:304-307 | `a` denotes that value alone, `a/s` every s-th value from a to the maximum |
| `CronText.NameParses` | internal/cron/parser.go:332-338 | a name in upper or lower case denotes its value |
| `CronText.MonthNameParses` | internal/cron/spec.go:26-39 | jan to dec denote 1 to 12 |
| `CronText.WeekdayNameParses` | internal/cron/spec.go:40-48 | sun to sat denote 0 to 6 |
| `CronText.RangeTextRejected` | internal/cron/parser.go:315-326 | `a-e/s` is an error whenever the ends do not lie within the bounds in this order, or the step is 0 |
| `CronText.SignedNumbers` | internal/cron/parser.go:342-352 | a plus sign changes nothing; a negative number and one of 2^63 or more are errors |
| `CronText.SingleRangeField` | internal/cron/parser.go:245-256 | a field text without commas parses to the steps and the star of its one range |
| `CronText.StarTextParses` | internal/cron/parser.go:273-310 | `*` and `?` denote every value and carry the star, which a step above 1 takes away |
| `CronParser.ShiftForm` | internal/cron/parser.go:358-361 | the shift form sets exactly the bits from start to end |
| `CronParser.GetBits` | internal/cron/parser.go:355-368 | either form sets exactly the bits start, start+step, ... up to end; the loop index never wraps for any accepted step |
| `CronParser.GetRange` | internal/cron/parser.go:263-329 | the mask of an accepted range has its values, with the star bit exactly for a star whose step is 1; the texts accepted are those of `RangeOf` |
| `CronParser.GetField` | internal/cron/parser.go:245-256 | a field parses exactly when all its parts do; bit k is set exactly when k lies in one of its ranges, bit 63 exactly when some part is a full star |
| `CronParser.FieldsAreUsable` | internal/cron/parser.go:245-326 | a parsed field has a value exactly when it has a part, never one outside its bounds, and all of them when it holds a star |
| `CronParser.NormalizeFields` | internal/cron/parser.go:169-224 | each configured place receives the next given field and every other place its default, with the optional field filled in; errors exactly for two optionals or a wrong number of fields |
| `CronParser.ParseFields` | internal/cron/parser.go:125-161 | parsing succeeds exactly when the number of fields fits the options and all six expanded fields parse, and the schedule's masks are those fields' |
| `CronText.StarFieldValues` | internal/cron/spec.go:20-49 | the field `*` has seconds and minutes 0 to 59, hours 0 to 23, days 1 to 31, months 1 to 12, weekdays 0 to 6, and no others |
| `CronText.StandardSpecRunsAtSecondZero` | internal/cron/parser.go:226-243 | a spec of five fields, minute to weekday in this order, runs at second 0 only |
| `CronText.OmittedFields` | internal/cron/parser.go:169-224 | an omitted optional second is 0, an omitted optional weekday a star |
| `CronText.NothingConfigured` | internal/cron/parser.go:206-224 | without any configured place every day at midnight is meant |
| `CronDescriptors.PredefinedAbbreviates` | internal/cron/parser.go:376-431 | each predefined schedule has the masks of the six fields it abbreviates |
| `CronDescriptors.PredefinedMeans` | internal/cron/parser.go:376-431 | yearly is midnight of January 1, monthly of the first, weekly of Sunday, daily of every day, and hourly minute 0, at second 0, and no other instants match |
| `CronDescriptors.OnWeekdayMeans` | internal/cron/spec.go:177-188 | `0 0 0 * * w` matches exactly the midnights of weekday w |
| `CronDescriptors.TuesdayFollowsMonday` | internal/cron/spec.go:58-188 | `0 0 0 * * 2` asked on Monday, January 1, 2001 answers Tuesday, January 2 |
| `CronDescriptors.WeekdayNeverRunsDry` | internal/cron/parser.go:400-409 | a schedule for midnight of a weekday always has a next activation |
| `CronDescriptors.PredefinedNeverRunsDry` | internal/cron/parser.go:376-431 | no predefined schedule ever runs out of activations |
| `CronEngine.Every` | internal/cron/constantdelay.go:10-18 | the delay is the duration truncated to whole seconds, and at least one second |
| `CronEngine.DelayIsWaited` | internal/cron/constantdelay.go:14-27 | the answer is the start of the current second and the delay after it |
| `CronEngine.NextIsLater` | internal/cron/constantdelay.go:21-27 | a schedule that keeps the interface's promise returns a strictly later instant or none; the engine's own two kinds return a whole second |
| `CronEngine.StepKeepsInvariant` | internal/cron/cron.go:137-155 | every step of callers and scheduler keeps: ids handed out once, previous start not after the clock, next start after the previous one while running, a planned instant is an activation of its schedule |
| `CronEngine.RunKeepsInvariant` | internal/cron/cron.go:220-301 | the same over every run under a clock that does not go back |
| `CronEngine.NothingOverdueAfterWake` | internal/cron/cron.go:260-273 | after a wake no entry has a planned time that is not in the future |
| `CronEngine.JobAfterStep` | internal/cron/cron.go:220-301 | a job leaves only in a step that removes exactly its id; it is planned anew by a first pass, started and planned anew by a wake it was due for, and no other step changes it |
| `CronEngine.JobsAdded` | internal/cron/cron.go:139-155 | a job appears only by being added, at once and unplanned on a stopped engine, planned from now when a running scheduler receives it |
| `CronEngine.PhaseAfterStep` | internal/cron/cron.go:196-323 | the scheduler starts, runs and stops only as asked, and a request waits until it is accepted |
| `CronEngine.HeldUnlessRemoved` | internal/cron/cron.go:185-193 | over any run an entry stays, with its schedule, exactly unless some step removes it |
| `CronEngine.HaltStopsStarts` | internal/cron/cron.go:286-289 | an accepted stop changes no entry, and nothing starts until the next start |
| `CronEngine.NextChangesOnlyWhenStarted` | internal/cron/cron.go:264-273 | while running, an entry's next time changes in exactly the steps that start it |
| `CronEngine.IdentifiersAreNeverReused` | internal/cron/cron.go:139-155 | over any run each addition returns the next id, one after another, so none twice |
| `CronEngine.RemovalIsEffective` | internal/cron/cron.go:185-193 | once a removal has been carried out the id is neither held nor about to be added |
| `CronEngine.RemovedNeverStarts` | internal/cron/cron.go:341-349 | a removed entry is never started again, in any continuation of the run |
| `CronEngine.StartsIncreaseFrom` | internal/cron/cron.go:265-272 | an entry with a previous start is only started for later instants |
| `CronEngine.StartsIncrease` | internal/cron/cron.go:220-301 | over whole runs with interleaved adds, removes, stops and restarts the instants an entry is started for strictly increase |
| `CronEngine.EveryRun` | internal/cron/cron.go:94-112 | from a new engine to which schedules that keep their promise are added, every run keeps the invariant, hands out increasing ids and starts each entry for increasing instants |
| `CronEngine.PromptRunFollowsActivations` | internal/cron/cron.go:255-273 | while wakes are less than a second late and nobody stops the engine, the started instants are the iterated activations of the schedule, and unless it was removed the entry is still held and planned for the one after its last start |
| `CronEngine.PromptRunMissesNothing` | internal/cron/cron.go:255-273 | in such a run an entry is started exactly once for every second its schedule matches, in order, with none left out, and unless it was removed it is still held and planned |
| `CronScheduler.CompareIsAnOrder` | internal/cron/cron.go:232-247 | the sort's comparison is a strict weak order with the zero time last |
| `CronScheduler.SortByNext` | internal/cron/cron.go:232-247 | the entries come out as a sorted rearrangement |
| `CronScheduler.DueIsAPrefix` | internal/cron/cron.go:265-268 | in sorted order the early break leaves no due entry behind |
| `CronScheduler.RunDue` | internal/cron/cron.go:265-273 | the loop starts exactly the entries whose planned time has come, moves it to the previous time and plans the next one from now; all others keep theirs |
| `CronScheduler.StartDue` | internal/cron/cron.go:265-273 | stated field by field: each due entry is started once, its planned time becomes the previous one and the next is planned from now; every other entry stays as it is |
| `CronScheduler.PlanAll` | internal/cron/cron.go:223-228 | every entry is planned from now and keeps its id, schedule and previous start |
| `CronScheduler.Cron.Schedule` | internal/cron/cron.go:139-155 | takes the machine's step for an added entry, stopped or running, and returns the fresh id; no other entry is touched |
| `CronScheduler.Cron.Remove` | internal/cron/cron.go:185-193 | takes the machine's step for a removal: exactly the entry with the id goes when stopped, none when running, and the others are untouched |
| `CronScheduler.Cron.DropEntry` | internal/cron/cron.go:341-349 | exactly the entry with the id goes and the others keep their order |
| `CronScheduler.Cron.Start` | internal/cron/cron.go:196-204 | starts a stopped engine and changes nothing on a running one |
| `CronScheduler.Cron.Stop` | internal/cron/cron.go:317-323 | asks a running scheduler to halt and changes nothing on a stopped one; the returned context is left out |
| `CronScheduler.Cron.BeginScheduling` | internal/cron/cron.go:220-247 | takes the machine's first step: all entries planned from now, then sorted |
| `CronScheduler.Cron.WakeUp` | internal/cron/cron.go:260-273 | takes the machine's wake step and starts each due entry once and no other |
| `CronScheduler.Cron.Receive` | internal/cron/cron.go:275-296 | takes the machine's step for the request received: entry added and planned, exactly the entry with the id removed, or halt; every other entry is untouched, ids stay distinct and entries sorted |
| `CronScheduler.Cron.Deadline` | internal/cron/cron.go:249-256 | the timer is set for the earliest planned time of all entries, and for none exactly when no entry has one |
| `JobChain.Then` | internal/cron/chain.go:34-39 | m1, m2, m3 are composed as m1(m2(m3(job))) |
| `JobChain.ThreeWrappers` | internal/cron/chain.go:25-39 | a chain of three wrappers applied to a job is m1(m2(m3(job))) |
| `JobChain.ChainsCompose` | internal/cron/chain.go:25-39 | a chain can be applied in two stages |
| `JobChain.Balance` | internal/cron/chain.go:65-96 | in every interleaving, panics included, the tokens in the channel and the executions in progress are together always one; so are an unlocked mutex and the executions |
| `JobChain.AtMostOneExecution` | internal/cron/chain.go:65-96 | a wrapped job has at most one execution in progress, and the deferred release never blocks |
| `JobChain.SkippedExactlyWhileRunning` | internal/cron/chain.go:82-96 | a call is skipped exactly while another execution is in progress; a delayed call proceeds exactly when none is, and is never skipped |
| `JobChain.PanicsArePassedOn` | internal/cron/chain.go:65-96 | whether the job returned or panicked, the release succeeds and the caller sees how it ended; no other call is touched |
| `FilterSql.TextReadsBack` | internal/filter/render.go:598-626 | the emitted text is unambiguous: read with SQL's precedence it is exactly the printed condition, and it is unreadable exactly when it holds an empty list that the dialect does not read |
| `FilterSql.ReadPrinted` | internal/filter/render.go:109-124 | a printed condition is one unit for the reader, whatever follows it |
| `FilterSql.NumberedExecution` | internal/filter/render.go:628-635 | numbered placeholders whose positions increase fit the arguments exactly when there are as many, and then each has its own value |
| `FilterSql.PositionalExecution` | internal/filter/render.go:628-635 | `?` placeholders fit the arguments exactly when there are as many, and then each has its own value |
| `FilterSql.Execution` | internal/filter/render.go:628-635 | in every dialect text and arguments fit exactly when no argument is left over |
| `FilterMeaning.FoldPreservesMeaning` | internal/filter/render.go:61-124 | on every row the folded outcome has the three-valued truth of the condition: TRUE when trivial, FALSE when unsatisfiable; folding fails exactly when a leaf does |
| `FilterBinding.FoldPlacesArguments` | internal/filter/render.go:628-635 | the arguments are the values of all leaves in reading order, and the placeholders left denote their own, in increasing order, within (offset, offset + number of arguments] |
| `FilterBinding.FoldIsConstant` | internal/filter/render.go:598-626 | a condition is folded away exactly when its constants decide it |
| `FilterBinding.KeptExactly` | internal/filter/render.go:598-626 | the text has as many placeholders as arguments exactly when no subtree that its constants decide bound a value, and then in the same order |
| `FilterBinding.LeafIsReadable` | internal/filter/render.go:313-447 | a leaf prints unreadable text exactly when it is an empty IN list, but for a scalar one on SQLite |
| `FilterBinding.FoldIsReadable` | internal/filter/render.go:335-447 | the text of a filter is readable exactly when no empty IN list stands outside the subtrees that constants decide |
| `FilterBinding.FoldHasNoSingleton` | internal/filter/render.go:335-382 | no one-member list is ever printed, so the text shows every node |
| `FilterBinding.FiltersSelectRows` | internal/filter/helpers.go:9-25 | behind any prior clause the clause built from a list of filters keeps a row exactly when the prior clause and every filter are TRUE on it; it can be read exactly when no filter holds an empty IN list that is not folded away, and it fits its arguments exactly when, besides, no printing filter lost an argument |
| `FilterBinding.NoConditionIsPrior` | store/db/postgres/memo.go:52 | the clause `1 = 1` that callers start from is such a prior clause |
| `FilterRenderer.CombineFollowsFold` | internal/filter/render.go:598-626 | the text combinators print the folded pair |
| `FilterRenderer.Renderer.AddArg` | internal/filter/render.go:628-635 | an added argument gets the placeholder of its place, offset included |
| `FilterRenderer.Renderer.RenderFieldPredicate` | internal/filter/render.go:126-147 | text, arguments and errors are those of the boolean field's condition |
| `FilterRenderer.Renderer.RenderComparison` | internal/filter/render.go:149-203 | text, arguments and errors are those of the comparison's condition, dispatching on the kind of field |
| `FilterRenderer.Renderer.RenderScalarComparison` | internal/filter/render.go:205-244 | null tests, and one bound value of the field's type; every other combination is an error |
| `FilterRenderer.Renderer.RenderJsonBoolComparison` | internal/filter/render.go:258-311 | the three dialects' forms of a boolean JSON comparison, negations included |
| `FilterRenderer.Renderer.RenderInCondition` | internal/filter/render.go:313-333 | one placeholder per element, in order, each bound to its element |
| `FilterRenderer.Renderer.RenderTagInList` | internal/filter/render.go:335-382 | a bracketed OR of exact and hierarchical tag matches, two values per tag in order |
| `FilterRenderer.Renderer.RenderElementIn` | internal/filter/render.go:384-415 | text, arguments and errors of a membership test on a tag list |
| `FilterRenderer.Renderer.RenderContains` | internal/filter/render.go:449-469 | text and argument of a substring test |
| `FilterRenderer.Renderer.RenderListComprehension` | internal/filter/render.go:471-582 | the predicate of an exists() macro, bracketed with its two null checks |
| `FilterRenderer.Renderer.RenderCondition` | internal/filter/render.go:61-124 | rendering is folding: the text prints the folded condition with each placeholder at the place its argument took, the two flags are never both set, and all arguments bound on the way are kept |
| `FilterRenderer.Renderer.Render` | internal/filter/render.go:32-59 | the finished statement: nothing when trivial, a contradiction when unsatisfiable, the text otherwise |
| `FilterRenderer.Query.AppendConditions` | internal/filter/helpers.go:9-25 | appending a list of condition trees is compiling each with the arguments so far as its offset |
| `FilterBuild.NumericFoldingWrapsOnce` | internal/filter/parser.go:359-409 | nested arithmetic folded step by step in 64 bits is the exact value reduced to 64 bits once |
| `FilterBuild.IntegerComparisonIsBuilt` | internal/filter/parser.go:103-145 | a compiled comparison of an integer column binds the exact value of its arithmetic, reduced to 64 bits once |
| `FilterBuild.IntegerComparisonMeans` | internal/filter/render.go:205-244 | on a row that holds an integer or NULL in the column it is TRUE, FALSE or UNKNOWN as the integers compare |
| `FilterBuild.BuildPreservesMeaning` | internal/filter/parser.go:10-101 | the condition built from an expression has the expression's Kleene truth value on every row, where integer comparisons compare the column with the exact value of their arithmetic |
| `FilterBuild.CompiledFiltersSelectRows` | internal/filter/helpers.go:9-25 | the whole compiler: behind any prior clause, a clause built from expressions that can be read and fits its arguments keeps a row exactly when the prior clause and every expression are TRUE on it |
| `FilterLeaves.ConnectivesAreLatticeOperations` | internal/filter/render.go:89-124 | AND, OR and NOT are least, greatest and reversed in the order FALSE, UNKNOWN, TRUE |
| `FilterLeaves.ComparisonsMeanTheirNames` | internal/filter/parser.go:285-302 | `_==_`, `_!=_`, `_<_`, `_<=_`, `_>_` and `_>=_`, compiled and run on a row that reads =, !=, <, <=, >, >= as such, are TRUE exactly when the column's integer is equal, different, less, ... than the value of the arithmetic |
| `FilterLeaves.ComparisonSelectsRows` | internal/filter/render.go:205-244 | ... and the whole clause keeps exactly these rows |
| `FilterLeaves.ArithmeticMeans` | internal/filter/parser.go:359-409 | `_+_`, `_-_` and `_*_` add, subtract and multiply; `now` is the current time |
| `FilterLeaves.LiteralsAreTheirValues` | internal/filter/parser.go:229-357 | literals denote themselves and a negated boolean literal its opposite |
| `FilterLeaves.BooleanColumnMeans` | internal/filter/render.go:246-256 | on a row that holds the boolean, `== b`, `!= b` and the bare field are TRUE exactly when it equals b, differs from b, is true |
| `FilterLeaves.JsonBooleanMeans` | internal/filter/render.go:258-311 | the same for a boolean that the JSON payload holds, in all three dialects and both of SQLite's forms |
| `FilterLeaves.MissingBooleanIsFalseOnSqliteOnly` | internal/filter/render.go:258-311 | a payload without the boolean satisfies `== false` exactly on SQLite, and there not for has_task_list |
| `FilterLeaves.NullComparisonMeans` | internal/filter/render.go:205-222 | `== null` and `!= null` are TRUE exactly when the column is NULL or is not, and never UNKNOWN |
| `FilterLeaves.StringComparisonMeans` | internal/filter/render.go:205-244 | `== s` and `!= s` compare the column's string with s |
| `FilterLeaves.IntegerListMeans` | internal/filter/render.go:417-447 | `in` is TRUE exactly when the column's integer is listed |
| `FilterLeaves.StringListMeans` | internal/filter/render.go:417-447 | `in` is TRUE exactly when the column's string is listed |
| `FilterLeaves.SizeComparisonMeans` | internal/filter/render.go:173-203 | size() of a list compares its number of members |
| `FilterLeaves.ColumnTexts` | internal/filter/render.go:705-766 | columns are qualified and quoted, and JSON paths written, in each dialect's way |
| `FilterLeaves.PredicatesMeanTheirNames` | internal/filter/parser.go:480-616 | the predicates of exists() are equality in either order, startsWith, endsWith and contains |
| `FilterLeaves.TagArguments` | internal/filter/render.go:497-567 | the texts bound for a tag are the whole tag in quotes, what a tag starts or ends with or contains, and for a hierarchical tag what is below it |
| `FilterLeaves.ContainsMeans` | internal/filter/render.go:449-469 | contains() looks for the text anywhere in the column |
| `FilterLeaves.TagListMeans` | internal/filter/render.go:335-382 | `tag in [...]` is TRUE exactly when the row has one of the tags, itself or one below it |
| `FilterLeaves.ExistsMeans` | internal/filter/render.go:471-582 | exists() is TRUE exactly when its predicate is and the list is neither NULL nor empty |
| `FilterLeaves.Rejections` | internal/filter/parser.go:10-227 | unknown names, bare fields that are no booleans, comparisons that a field does not allow, and contains() on a field without it are errors |
| `FilterLeaves.AliasMeans` | internal/filter/schema.go:75-98 | an alias stands for the field it names, and for none when there is no such field |
| `FilterBuild.FoldedConstantLeavesStrayArgument` | internal/filter/render.go:598-611 | `pinned == true && false` leaves one argument that nothing denotes, in every dialect |
| `FilterBuild.EmptyTagListIsUnreadable` | internal/filter/render.go:376-381 | `tag in []` prints a text that no dialect reads |
| `FilterBuild.EmptyScalarListIsReadableOnSqliteOnly` | internal/filter/render.go:443-446 | `creator_id in []` prints a text that SQLite alone reads |
| `UserTables.MemoTreeIsLeastFixpoint` | store/db/sqlite/user_delete.go:133-166 | the recursive query returns the least set with the user's memos and every comment on one of its memos |
| `UserTables.MemoTreeIsReachable` | store/db/sqlite/user_delete.go:133-166 | that set is exactly what chains of comments reach from the user's memos |
| `UserTables.DeletionKeepsIntegrity` | store/db/mysql/user_delete.go:92-127 | afterwards no row of any table refers to the user or to a deleted memo; a memo survives exactly when no chain of comments leads to it, and no survivor comments on a deleted memo |
| `UserTables.AccountRowsSurviveExactly` | store/db/mysql/user_delete.go:465-501 | users, identities, settings, memos and relations survive exactly when their own columns name neither the user nor a memo of the tree |
| `UserTables.ContentSurvivesExactly` | store/db/mysql/user_delete.go:417-453 | attachments, reactions and shares survive exactly when neither their creator is the user nor their memo or content id one of the tree's |
| `UserTables.InboxesSurviveExactly` | store/db/mysql/user_delete.go:304-415 | an inbox row survives exactly when the user neither sent nor receives it and its message names no memo of the tree |
| `UserTables.SurvivorsAreUnchanged` | store/db/mysql/user_delete.go:92-127 | every surviving row has its value |
| `UserTables.TreeAfterDeletion` | store/db/mysql/user_delete.go:133-181 | deleting one user shrinks another user's tree by what was deleted and nothing else |
| `UserTables.DeletionsCommute` | store/db/mysql/user_delete.go:29-127 | two users can be deleted in either order with the same tables left |
| `UserDeletion.Batches` | store/db/mysql/user_delete.go:517-534 | the batches are non-empty, within the size, and joined give the values in order |
| `UserDeletion.InClause` | store/db/postgres/user_delete.go:470-478 | the clause numbers its placeholders from the given start and its arguments are the values |
| `UserDeletion.ListMemoTreeIterative` | store/db/mysql/user_delete.go:133-181 | the frontier loop ends on every memo graph, cycles included, and returns the memos of the fixpoint without duplicates, for every batch size |
| `UserDeletion.ListMemoTreeRecursive` | store/db/sqlite/user_delete.go:133-166 | taking the meaning of the recursive query to be the fixpoint, the other drivers list the same memos, once each |
| `UserDeletion.AppendAttachments` | store/db/mysql/user_delete.go:242-275 | rows not seen before are appended once each, up to the first whose payload does not parse |
| `UserDeletion.ListAttachments` | store/db/mysql/user_delete.go:205-275 | each attachment of the user or of a deleted memo, once, and no other; an error exactly when the payload of one of them does not parse |
| `UserDeletion.ListInboxIds` | store/db/mysql/user_delete.go:304-415 | the inbox rows of the user and those whose message names a deleted memo; an error exactly when a message that must be read does not parse |
| `UserDeletion.ListSettingKeys` | store/db/mysql/user_delete.go:277-298 | the keys of all settings of the user |
| `UserDeletion.CollectTargets` | store/db/mysql/user_delete.go:61-90 | collects exactly the rows that the deletion has to name, or fails exactly when an attachment payload or an inbox message that must be read does not parse |
| `UserDeletion.UnparsableMeans` | store/db/mysql/user_delete.go:242-384 | the texts that must be read are the payloads of the user's and the deleted memos' attachments and, when memos are deleted, the messages of other users' inbox rows |
| `UserDeletion.DeleteIn` | store/db/mysql/user_delete.go:417-463 | the batched statements delete exactly the rows whose column is among the values, whatever the dialect's placeholders |
| `UserDeletion.DeleteRelations` | store/db/postgres/user_delete.go:438-449 | exactly the relations with a deleted memo at either end go; the second clause's placeholders denote the second copy of the batch |
| `UserDeletion.DeleteTargets` | store/db/mysql/user_delete.go:92-127 | the delete statements together leave exactly the rows that refer neither to the user nor to a memo of the tree |
| `UserDeletion.Database.DeleteUser` | store/db/mysql/user_delete.go:29-59 | all or nothing: a commit leaves exactly those rows, an abort leaves every table as it was; it aborts exactly at the failpoint or when an attachment payload or an inbox message that must be read does not parse |
| `TtlCache.LastToExpireIsKept` | store/cache/cache.go:250-310 | the item that expires strictly last survives an eviction that keeps anything |
| `TtlCache.SelectionIsFull` | store/cache/cache.go:263-293 | one pass over the rows in any order selects exactly k items that expire no later than any other |
| `TtlCache.EvictionKeepsLatest` | store/cache/cache.go:250-310 | what an eviction leaves keeps its value and expires no earlier than anything evicted |
| `TtlCache.Cache.SelectOldest` | store/cache/cache.go:263-293 | the loop keeps the k earliest of the rows visited |
| `TtlCache.Cache.CleanupOldest` | store/cache/cache.go:250-310 | exactly max(MaxItems/5, 1) items go, each expiring no later than every one kept, and the counter follows; nothing happens at or below the limit |
| `TtlCache.Cache.SetWithTtl` | store/cache/cache.go:99-121 | the item is stored and the items that expire first are evicted exactly when the limit is exceeded; the counter equals the number of keys and stays within the limit |
| `TtlCache.Cache.Get` | store/cache/cache.go:124-148 | a hit exactly for a stored item that has not expired; an expired one is dropped and counted |
| `TtlCache.Cache.Delete` | store/cache/cache.go:151-161 | the key goes, and the counter follows exactly when it was there |
| `TtlCache.Cache.Clear` | store/cache/cache.go:164-180 | nothing is left and the counter is zero |
| `TtlCache.Cache.Cleanup` | store/cache/cache.go:215-247 | exactly the expired items go and the counter is lowered by as many |
| `TtlCache.RunStoresLatest` | store/cache/cache.go:94-180 | after any run every stored item is the latest one set under its key since it was deleted or the cache cleared, and the limit holds |
| `TtlCache.HitsAreLatest` | store/cache/cache.go:124-148 | no hit is stale: it is the value of the latest Set, not after its expiry |
| `CacheKeys.ItoaRoundTrip` | store/user.go:86-88 | different users have different cache keys: an id is recovered from its key |
| `CacheKeys.SettingCacheKeyIsInjective` | store/cache.go:7-9 | no two settings share a cache key, negative ids included |
| `StoreCache.PutUser` | store/user.go:90-98 | a row written to table and cache keeps every cached user equal to its row under any eviction |
| `StoreCache.Store.CreateUser` | store/user.go:90-98 | the table gains the user and the caches stay equal to the tables |
| `StoreCache.Store.CreateUserIfNoUsers` | store/user.go:103-122 | creates exactly when there is no user |
| `StoreCache.Store.UpdateUserById` | store/user.go:124-132 | a given column has the given value, any other its old one, the id stays, and no other user's row changes; it fails exactly for a missing user or an update that sets nothing; the caches stay equal to the tables |
| `StoreCache.UserMatchesMeans` | store/db/sqlite/user.go:88-145 | each condition that is asked for compares its own column |
| `StoreCache.SettingMatchesMeans` | store/db/sqlite/user_setting.go:28-37 | the key and the user are compared, each only when asked for |
| `StoreCache.Store.ListUsers` | store/user.go:134-144 | exactly the matching rows, each cached on the way |
| `StoreCache.Store.GetUser` | store/user.go:146-167 | by id alone it agrees with the table, hit or miss; the returned user fails to match exactly when an unexpired hit was answered without looking at the other conditions |
| `StoreCache.OtherConditionsAreIgnored` | store/user.go:146-154 | a store that has just created user 1 named alice returns it for user 1 named bob |
| `StoreCache.Store.DeleteUser` | store/user_delete.go:39-47 | user and settings are gone from tables and caches |
| `StoreCache.Store.UpsertUserSetting` | store/user_setting.go:42-61 | the row is written and the cache stays equal to the table; an error exactly for the unspecified key |
| `StoreCache.Store.ListUserSettings` | store/user_setting.go:63-82 | exactly the matching settings with a known key, each cached on the way |
| `StoreCache.ListedMeans` | store/user_setting.go:63-82 | a listed setting is a row with its value and a known key that satisfies the conditions |
| `StoreCache.Store.GetUserSetting` | store/user_setting.go:84-108 | a read agrees with the table, hit or miss: the one matching setting, none, or an error exactly when there are several |
| `StoreCache.Store.DeleteUserSettings` | store/user_setting.go:110-125 | exactly the matching rows go and none of them stays cached |
| `StoreCache.Store.GetUserRefreshTokens` | store/user_setting.go:148-160 | the tokens of the row, none without a row |
| `StoreCache.Store.AddUserRefreshToken` | store/user_setting.go:163-181 | the token is appended to the user's row |
| `StoreCache.Store.RemoveUserRefreshToken` | store/user_setting.go:184-207 | every token with the id goes, the others keep their order |
| `StoreCache.Store.GetUserRefreshTokenById` | store/user_setting.go:210-221 | a token is found exactly when the table has it |
| `StoreCache.TokenFoundExactly` | store/user_setting.go:148-221 | over any run a token is found exactly when some operation added it and no later one removed it, overwrote or deleted its row, or deleted the user |

## Left out

- `CronSpec.Next`: uses one fixed-offset zone whose offset is a whole number of minutes; daylight saving, `TZ=` prefixes and zone lookup are not modelled, so the correction of a day that does not begin at midnight (internal/cron/spec.go:125-131) is dead and absent.
- `CronEngine.NextOf`: a time that happens to be Go's zero time (year 1) is not taken for the missing time.
- `CronEngine.EveryRun`: assumes a clock that does not go back, though real clocks can be set, and schedules that return a later time, as the interface asks.
- `CronScheduler.Cron`: one step of a caller or of the goroutine is one method call; a caller blocked on a channel is the field `message`. Snapshots (`Entries`, `Entry`), the waiting context of `Stop`, `Run` in the caller's goroutine, and loggers are left out; they change no entry.
- `CronParser.ParseFields`: splitting the spec at white space, the empty spec, recognising a descriptor's name, and `@every` with its duration text are left out; letter case is folded for ASCII only; error messages are shortened.
- `NaiveSchedule.Schedule`: its text parser (internal/scheduler/parser.go:29-88 and 128-178) and the goroutines of scheduler.go are left out.
- `JobChain.Then`: the `Recover` wrapper is left out; it only turns a panic into a log line.
- `FilterBuild.Build`: parsing and type checking of filter text is not part of this model; floating-point literals and timestamps other than a fixed `now` are left out.
- `FilterSql.Eval`: LIKE patterns, JSON functions and Unicode folding are opaque; nothing is said about the dialects agreeing on them.
- `FilterSql.Execute`: says when text and arguments fit, not what a server does with a statement that does not fit; the Postgres and MySQL drivers refuse one, while a lenient driver may ignore arguments at the end.
- `FilterRenderer.Renderer.RenderScalarComparison`: floating-point literals, which the source truncates to integers, are left out.
- `FilterRenderer.Renderer.RenderInCondition`: floating-point elements, which the source truncates to integers, are left out.
- `FilterRenderer.Query.AppendConditions`: starts from condition trees; `FilterBuild.Build` makes them from expressions, and filter text is not parsed.
- `FilterBuild.ExprTruth`: a leaf other than an integer comparison counts as what its own condition means; `FilterLeaves.dfy` says what that is on rows that hold known values.
- `FilterLeaves.ComparisonsMeanTheirNames`: the row reads SQL's operators, IN and IS NULL as the standard does; how a server evaluates them is not part of this model.
- `NaiveFields.ListAgrees`: numbers written without white space; the slow parser also trims spaces around list members and range ends, which the engine's parser never sees.
- `CronGivesUp.GivesUpExactly`: schedules assembled by hand whose star bit stands for a field that is not full are left out; parsing never builds one.
- `FilterRenderer.Renderer`: the SQL of a leaf is one token that names its form, column and operator; the exact spelling of JSON expressions inside it is left out.
- `UserDeletion.Database`: statements that fail, other transactions, and foreign keys or triggers of the database are left out; a duplicate id in a batch is harmless and allowed.
- `TtlCache.Cache`: each method is one step; interleavings inside a method, the eviction callback, the clean-up goroutine and size estimates are left out. Durations and instants do not overflow.
- `StoreCache.Store`: driver failures, string collation, the order, limit and free-text search of lists, and the access-token and webhook lists (which rebuild their rows in the same way as the refresh tokens) are left out. Cached messages are values here, so a caller that changes a returned message in place is not modelled.
- `StoreCache.Store.ListUserSettings`: a stored value that does not parse, which is an error in the source, is left out; rows written through the store always parse. The same holds for `StoreCache.Store.GetUserSetting`.
- Instance settings, memo and attachment stores, HTTP, mail, webhooks, markdown and the web client are left out: they are input and output around these components.
