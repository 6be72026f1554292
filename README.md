# Spaced-repetition vocabulary trainer: a verified model

This project models the core of a small vocabulary trainer in Dafny. The trainer schedules reviews with an Ebbinghaus-style ladder. Three pieces are modelled:

- **The scheduler** (`src/reviewStorage.js`).
  - Every catalog word has a progress record `{id, stageIndex, nextReviewDate}`.
  - The records form one map, which is kept in a single storage slot.
  - On start-up the map is rebuilt whenever its entry count differs from the catalog's.
  - A word is due when its stored date, compared as a string, is not after today.
  - A review moves the word one stage up ("remembered") or down ("forgot"), clamped to the ladder `[0, 1, 2, 4, 7, 15, 30]`. The word is then due again that many days after today. For example `INTERVALS[2]` is 2, so "forgot" at stage 3 makes the word due two days later (ReviewStorage.ForgotFromStageThree).
- **The quiz card** (`src/QuizCard.jsx`).
  - It builds up to four options from the word's own meaning and at most three meanings of other words, in shuffled order.
  - It accepts exactly one answer.
- **The review session** (`src/App.jsx`).
  - A cursor walks through today's due words.
  - Each answer records one outcome for the current word and moves the cursor on.

Modules:

- `Wrappers`: `Option`, and `Min`/`Max` for `Math.min`/`Math.max`.
- `Catalog` (`catalog.dfy`): a catalog entry (`Word`), its `Id`, and what it means for a catalog's ids to be distinct. The word list of `src/words` itself is a parameter.
- `Dates` (`dates.dfy`):
  - the Gregorian calendar, and `AddDays` one day at a time;
  - a day-number reference definition used to prove `AddDays` correct;
  - `getTodayStr`'s formatting (`FormatDate`) and `addDays`'s parsing (`ParseDate`), on strings;
  - JavaScript's string comparison (`StrLess`), with a proof that it agrees with calendar order for four-digit years.
- `ReviewStorage` (`review_storage.dfy`):
  - the scheduler as functions on values, with lemmas about them;
  - the class `ProgressStore`, which owns the storage slot. Its methods do what the source does: `InitProgressIfEmpty` builds the new map with the loop `BuildFreshProgress`, and `UpdateProgressAfterReview` reassigns the stage and writes one key. Each method is proved against the functions.
- `QuizCard` (`quiz_card.dfy`):
  - `Shuffle`, an in-place swap loop over an array, proved to return a permutation;
  - option construction;
  - the class `Card`, which holds the answer lock.
- `App` (`app.dfy`): the class `Session`, with the cursor and the progress counts.

The catalog, the word pool and "today" are parameters. `Math.random` becomes a nondeterministic choice (`:|`), so every property of the quiz holds for every order the shuffle could produce. The storage slot is a `Slot` value: missing, unparseable, or a stored map.

## Model

| member | source | states |
|---|---|---|
| ReviewStorage.IntervalLadder | src/reviewStorage.js:4 | the ladder has 7 entries, starts at 0 and is strictly increasing, so the top stage is 6 |
| ReviewStorage.Load | src/reviewStorage.js:21-29 | loadProgress: a stored map loads as itself; a missing or unparseable value loads as the empty map |
| ReviewStorage.SaveThenLoad | src/reviewStorage.js:21-33 | a map saved to the slot loads back unchanged |
| ReviewStorage.CorruptLoadsEmpty | src/reviewStorage.js:22-28 | a missing or unparseable slot loads as the empty map |
| ReviewStorage.ProgressStore.LoadProgress | src/reviewStorage.js:21-29 | returns the stored map, or the empty map when nothing parseable is stored |
| ReviewStorage.ProgressStore.SaveProgress | src/reviewStorage.js:31-33 | replaces the whole slot with the given map, which then loads back unchanged |
| ReviewStorage.FreshProgress | src/reviewStorage.js:39-46 | the map built by the forEach has exactly the catalog's ids as keys, each with a record `{id, 0, today}` |
| ReviewStorage.FreshProgressStep | src/reviewStorage.js:40-46 | one forEach step adds (or overwrites) the current word's record |
| ReviewStorage.IdsCount | src/reviewStorage.js:37 | a catalog has at most as many distinct ids as entries, with equality exactly when no id repeats |
| ReviewStorage.IdsSnoc | src/reviewStorage.js:40-41 | appending a word adds exactly its id to the set of ids |
| ReviewStorage.DistinctSnoc | src/reviewStorage.js:40-41 | appending a word keeps the ids distinct exactly when its id is new |
| ReviewStorage.FreshProgressSize | src/reviewStorage.js:37-46 | the fresh map has as many entries as the catalog exactly when the catalog's ids are distinct |
| ReviewStorage.InitProgress | src/reviewStorage.js:35-51 | initProgressIfEmpty's result: the loaded map when its count matches the catalog; otherwise exactly the catalog's ids, each at stage 0 due today; with distinct ids it always has as many entries as the catalog |
| ReviewStorage.InitSlot | src/reviewStorage.js:37-50 | the slot after initialisation holds exactly the map initialisation returns, and is written only when the counts differ |
| ReviewStorage.InitResets | src/reviewStorage.js:37-48 | when the counts differ, every catalog word gets a record at stage 0 due today, no other key exists, and that map is what gets saved |
| ReviewStorage.InitKeeps | src/reviewStorage.js:37-50 | when the counts match, the loaded map is returned as is and nothing is written, whichever ids it holds |
| ReviewStorage.InitIdempotent | src/reviewStorage.js:35-51 | with distinct ids, after one initialisation the count matches the catalog, so a second one on any day returns the same map and writes nothing |
| ReviewStorage.RepeatedIdsResetAgain | src/reviewStorage.js:37-46 | with a repeated id, whenever the stored count differs from the catalog's, the reset leaves the map smaller than the catalog, so the next initialisation resets everything again |
| ReviewStorage.BuildFreshProgress | src/reviewStorage.js:39-46 | the loop over the catalog builds exactly the fresh map, later duplicates overwriting earlier ones |
| ReviewStorage.ProgressStore.InitProgressIfEmpty | src/reviewStorage.js:35-51 | the result and the new slot are those of the initialisation rule, and the returned map is what the slot now holds |
| ReviewStorage.IsDue | src/reviewStorage.js:58-59 | `p?.nextReviewDate <= today`: a word without a record is never due, one due exactly today is due, and one whose date sorts after today is not |
| ReviewStorage.DueWords | src/reviewStorage.js:57-63 | every element is a catalog word that has a record whose date is not after today, paired with that record; never longer than the catalog |
| ReviewStorage.DueWordsComplete | src/reviewStorage.js:57-63 | every due catalog word appears in the result with its record |
| ReviewStorage.DueWordsExactly | src/reviewStorage.js:57-59 | a catalog word appears in the result if and only if it is due |
| ReviewStorage.DueWordsAppend | src/reviewStorage.js:57-63 | the filter distributes over concatenation of catalogs, so the result keeps catalog order |
| ReviewStorage.MissingRecordNeverDue | src/reviewStorage.js:58-59 | a word with no record is never in the result |
| ReviewStorage.DueByCalendar | src/reviewStorage.js:59 | for four-digit years, the string test `date <= today` holds exactly when the due day is not after today in the calendar |
| ReviewStorage.ProgressStore.GetTodayReviewWords | src/reviewStorage.js:53-64 | returns the due filter applied to the initialised map with today's date string, and leaves the slot as initialisation left it |
| ReviewStorage.ReviewWordsTwice | src/reviewStorage.js:53-64 | with distinct ids, calling getTodayReviewWords twice on the same day with no review in between gives the same list and stores nothing new |
| ReviewStorage.NextStage | src/reviewStorage.js:75-80 | remembered never passes stage 6 and forgot never goes below 0; a stage on the ladder stays on it and moves by at most one, and stays put exactly at the matching end |
| ReviewStorage.RepeatedOutcomes | src/reviewStorage.js:75-80 | n reviews with the same outcome give `min(stage + n, 6)` when remembered and `max(stage - n, 0)` when forgotten |
| ReviewStorage.UpdatedProgress | src/reviewStorage.js:66-85 | the update succeeds exactly when the new stage is on the ladder; the keys become the old keys plus the word's id; the word's record is `{id, newStage, today + INTERVALS[newStage]}`; every other key keeps its record |
| ReviewStorage.UpdateKeepsWellFormed | src/reviewStorage.js:75-84 | on a well-formed map (each record keyed by its own id, stages on the ladder) a review never fails and keeps the map well formed |
| ReviewStorage.InitIsWellFormed | src/reviewStorage.js:37-50 | initialisation keeps a well-formed map well formed |
| ReviewStorage.ReviewKnownWord | src/reviewStorage.js:70-84 | reviewing a known word keeps the number of entries, and its stage moves by at most one |
| ReviewStorage.ReviewUnknownWord | src/reviewStorage.js:70-84 | an unknown id is reviewed from stage 0; the store gains exactly one entry, at stage 1 (remembered) or 0 (forgot), due the matching number of days after today |
| ReviewStorage.UnknownWordForcesReset | src/reviewStorage.js:66-85 | reviewing an unknown id when the count matched the catalog makes the next initialisation reset all progress |
| ReviewStorage.RememberedFromStageZero | src/reviewStorage.js:75-82 | "remembered" at stage 0 on 2024-01-10 gives stage 1, due 2024-01-11 |
| ReviewStorage.ForgotFromStageThree | src/reviewStorage.js:75-82 | "forgot" at stage 3 gives stage 2, due two days after today |
| ReviewStorage.StoredStageOffLadder | src/reviewStorage.js:75-82 | the step is clamped before `INTERVALS` is read: the update fails exactly when a stage below -1 is remembered or one above 7 is forgotten; a stage at or above the top reviewed "remembered" is saved at the top, one at or below 0 reviewed "forgot" at 0 |
| ReviewStorage.AfterReview | src/reviewStorage.js:66-86 | the slot after a review: the whole updated map, or the slot as it was when the update throws before saving |
| ReviewStorage.ProgressStore.UpdateProgressAfterReview | src/reviewStorage.js:66-86 | the new slot holds the updated map, or is left as it was when the stage falls off the ladder, in which case the result is false |
| Dates.DaysInMonth | src/reviewStorage.js:16-17 | months have 28 to 31 days, and 29 exactly for February of a leap year |
| Dates.DaysBeforeNextYear | src/reviewStorage.js:16-17 | the closed-form day count grows by the length of each year (the Gregorian leap rule) |
| Dates.MonthStep | src/reviewStorage.js:16-17 | the days before month m+1 are those before m plus m's length |
| Dates.MonthsFitInYear | src/reviewStorage.js:16-17 | the months of a year fit in it, and December ends it exactly |
| Dates.DaysBeforeYearMonotone | src/reviewStorage.js:16-17 | a later year starts after the whole of an earlier one |
| Dates.NextDay | src/reviewStorage.js:17 | the day after a real day is a real, later day |
| Dates.NextDayNumber | src/reviewStorage.js:17 | the day after is exactly one day number further |
| Dates.AddDays | src/reviewStorage.js:16-17 | adding days to a real day gives a real day, later when n > 0 |
| Dates.AddDaysNumber | src/reviewStorage.js:16-17 | adding n days moves the day number on by exactly n |
| Dates.BeforeDayNumber | src/reviewStorage.js:16-17 | an earlier calendar day has a smaller day number |
| Dates.DayNumberOrder | src/reviewStorage.js:16-17 | calendar order and equality of real days are those of their day numbers |
| Dates.AddDaysUnique | src/reviewStorage.js:16-17 | a day is n days after d if and only if its day number is n more than d's |
| Dates.AddDaysZero | src/reviewStorage.js:14-19 | adding 0 days gives the same day |
| Dates.AddDaysAdditive | src/reviewStorage.js:16-17 | adding a days and then b days is adding a + b days |
| Dates.AddDaysMonthRollover | src/reviewStorage.js:16-17 | 2024-01-30 plus 4 days is 2024-02-03 |
| Dates.AddDaysYearRollover | src/reviewStorage.js:16-17 | 2024-12-29 plus 7 days is 2025-01-05 |
| Dates.AddDaysLeapDay | src/reviewStorage.js:16-17 | the day after February 28 is the 29th in 2024 and 2000, and March 1 in 2023 and 1900 |
| Dates.DigitChar | src/reviewStorage.js:9-10 | a digit below 10 prints as a decimal digit character |
| Dates.DigitValue | src/reviewStorage.js:15 | a digit character reads back as the digit it prints |
| Dates.Decimal | src/reviewStorage.js:8-11 | `String(n)` is a non-empty run of digits, a single digit exactly when n < 10 |
| Dates.PadStart | src/reviewStorage.js:9-10 | the padded string is exactly the width long when the input is shorter and the input itself otherwise; it ends with the input and is filled before it |
| Dates.Pad2Length | src/reviewStorage.js:9-10 | `Pad2`, that is `String(n).padStart(2, "0")`, gives exactly two digits for a month or a day |
| Dates.JoinDateFields | src/reviewStorage.js:11 | `JoinDate`, the template `${yyyy}-${mm}-${dd}`, holds the three fields in order, separated by single "-" characters |
| Dates.FormatDateShape | src/reviewStorage.js:6-11 | `FormatDate` (getTodayStr on a given day) gives the year's digits, "-", the two-digit month, "-", the two-digit day; ten characters for a four-digit year |
| Dates.Split | src/reviewStorage.js:15 | `split` always returns at least one field |
| Dates.ParseNat | src/reviewStorage.js:15 | a field is a number exactly when it is a non-empty run of digits |
| Dates.ParseDate | src/reviewStorage.js:15-16 | a parsed date is a real day |
| Dates.AddDaysStr | src/reviewStorage.js:14-19 | addDays gives a date string exactly when its input parses as a real day |
| Dates.SplitWithoutSep | src/reviewStorage.js:15 | a string without the separator splits into itself |
| Dates.SplitAtSep | src/reviewStorage.js:15 | splitting at a first separator gives the part before it, then the split of the rest |
| Dates.DecimalValue | src/reviewStorage.js:8-15 | reading back `String(n)` gives n |
| Dates.Pad2Shape | src/reviewStorage.js:9-10 | a number below 10 pads to "0" plus its digit; a larger one is printed as is |
| Dates.PaddedValue | src/reviewStorage.js:9-15 | a padded month or day is two digits and reads back as the number |
| Dates.DigitsHaveNoDash | src/reviewStorage.js:11-15 | digit fields contain no "-" |
| Dates.JoinDateSplit | src/reviewStorage.js:11-15 | splitting `y-m-d` at "-" gives back the three fields |
| Dates.ParseJoined | src/reviewStorage.js:11-16 | `y-m-d` with fields that read as a real day parses as that day |
| Dates.ParseFormat | src/reviewStorage.js:6-16 | parsing a formatted date gives back the same day (round trip of getTodayStr and addDays' parser) |
| Dates.AddDaysStrFormat | src/reviewStorage.js:6-19 | addDays on a formatted day gives the formatted day n days later |
| Dates.DecimalYears | src/reviewStorage.js:8 | 2024 and 2025 print as "2024" and "2025" |
| Dates.PaddedSingleDigits | src/reviewStorage.js:9-10 | single-digit months and days such as 1 and 5 pad to "01" and "05" |
| Dates.PaddedTwoDigits | src/reviewStorage.js:9-10 | two-digit fields such as 12 and 29 stay "12" and "29" |
| Dates.FormatMonthExamples | src/reviewStorage.js:6-11 | 2024-01-30 and 2024-02-03 format as "2024-01-30" and "2024-02-03" |
| Dates.FormatYearExamples | src/reviewStorage.js:6-11 | 2024-12-29 and 2025-01-05 format as "2024-12-29" and "2025-01-05" |
| Dates.AddDaysStrMonthRollover | src/reviewStorage.js:14-19 | `addDays("2024-01-30", 4)` is "2024-02-03" |
| Dates.AddDaysStrYearRollover | src/reviewStorage.js:14-19 | `addDays("2024-12-29", 7)` is "2025-01-05" |
| Dates.StrLess | src/reviewStorage.js:59 | string `<` by code point, which is JavaScript's order on the ASCII date strings compared here: a proper prefix is smaller, and nothing is smaller than the empty string |
| Dates.StrLessEq | src/reviewStorage.js:59 | JavaScript `a <= b` on strings (`!(b < a)`) holds exactly when `a < b` or the two are equal |
| Dates.StrLessAsymmetric | src/reviewStorage.js:59 | two strings are never each less than the other |
| Dates.StrLessTotal | src/reviewStorage.js:59 | of two different strings one is less than the other |
| Dates.StrLessIrreflexive | src/reviewStorage.js:59 | no string is less than itself |
| Dates.StrLessAppend | src/reviewStorage.js:59 | comparing equal-length prefixes decides string order; on a tie the suffixes decide |
| Dates.Fixed | src/reviewStorage.js:9-10 | a fixed-width digit string has exactly the given width |
| Dates.FixedOrder | src/reviewStorage.js:59 | fixed-width digit strings compare, and are equal, exactly as the numbers they spell |
| Dates.DecimalIsFixed | src/reviewStorage.js:8 | a number with exactly w digits prints as its w-digit fixed form |
| Dates.DecimalIsFixed4 | src/reviewStorage.js:8 | a four-digit year prints as its four-digit fixed form |
| Dates.PaddedIsFixed2 | src/reviewStorage.js:9-10 | a padded month or day is its two-digit fixed form |
| Dates.FormatAsFixed | src/reviewStorage.js:8-11 | with a four-digit year, a formatted date is fixed-width fields joined by "-" |
| Dates.FormatLess | src/reviewStorage.js:59 | for four-digit years, string `<` on formatted dates is exactly calendar "earlier" |
| Dates.FormatOrder | src/reviewStorage.js:59 | for four-digit years, string `<=` on formatted dates holds exactly when the first day is the same or earlier |
| QuizCard.Shuffle | src/QuizCard.jsx:22-28 | the swap loop returns a permutation of the input: same length, same multiset; the input is a value and is not changed |
| QuizCard.SwapKeepsElements | src/QuizCard.jsx:26 | exchanging two positions keeps the same elements |
| QuizCard.Others | src/QuizCard.jsx:46 | the distractor pool holds exactly the pool's words whose id differs from the current word's, and is no longer than the pool |
| QuizCard.OthersCount | src/QuizCard.jsx:46 | each word of another id is kept as many times as the pool holds it; words with the current id are dropped |
| QuizCard.WrongChoices | src/QuizCard.jsx:56-59 | `min(3, n)` wrong options, the k-th being the k-th shuffled word's meaning marked incorrect |
| QuizCard.FindCorrect | src/QuizCard.jsx:69 | the first option marked correct, or -1 exactly when none is |
| QuizCard.ExactlyOneCorrect | src/QuizCard.jsx:49-70 | a shuffle of one correct option and only wrong ones has exactly one correct option, found by findIndex, and the others come from the wrong ones |
| QuizCard.BuildOptions | src/QuizCard.jsx:44-71 | one option more than `min(3, number of others)`, exactly one correct, carrying the word's meaning at the returned index; every other option is the meaning of a different word of the pool |
| QuizCard.Card.constructor | src/QuizCard.jsx:44-71 | a new card holds valid options and no selection, lock or feedback |
| QuizCard.Card.LoadWord | src/QuizCard.jsx:44-71 | loading a word builds valid options for it and resets the selection, lock and feedback |
| QuizCard.Card.HandleSelect | src/QuizCard.jsx:73-98 | nothing changes when locked or for an index with no option; otherwise the choice is recorded, the card locks, the feedback names the right answer when wrong, and exactly one outcome (the option's correctness) is reported |
| App.ProgressPercent | src/App.jsx:65-66 | 0 when there is nothing to do; at most 100 when no more is done than the total; within half a percent of the exact ratio |
| App.Session.constructor | src/App.jsx:33-39 | the list is today's due words after initialisation, the cursor is 0, the meaning is hidden, and the session is finished exactly when the list is empty |
| App.Session.TotalCount | src/App.jsx:63 | `totalCount` is the length of today's list; an empty session is finished with the cursor at 0, and otherwise the cursor is inside the list |
| App.Session.CompletedCount | src/App.jsx:63-64 | the completed count never exceeds the total, and is below it while words remain |
| App.Session.Percent | src/App.jsx:63-66 | the percentage is 0 for an empty session and never above 100 |
| App.Session.HandleShowMeaning | src/App.jsx:58-60 | shows the meaning and changes nothing else |
| App.Session.MoveOn | src/App.jsx:48-55 | hides the meaning; advances the cursor by one while words remain, otherwise finishes with the cursor left in place |
| App.Session.HandleAnswer | src/App.jsx:41-56 | with no word at the cursor nothing changes; otherwise the slot records exactly one review of the current word's id with the given outcome; when that update fails the session keeps its state, and when it succeeds the meaning is hidden and the cursor advances by one or the session finishes |

## Left out

- localStorage and JSON (src/reviewStorage.js:21-33) are foreign I/O. The slot is an abstract value: missing, unparseable, or a stored map. A JSON round trip is taken to give back the same map.
- A stored value that parses but is not an object (for example `null`, which makes `Object.keys` throw) is not modelled.
- Records of other shapes are not modelled: a `null` record, or one whose `nextReviewDate` is missing or not a string. `Record` always has an integer stage and a string date.
- A `stageIndex` that is not an integer is not modelled; `Record.stageIndex` is an `int`. Integer stages off the ladder are modelled. The stage is clamped before `INTERVALS` is read, so the update fails (as the source's `toISOString` would, with nothing saved) only when the stage after the step is still off the ladder: a stored 9 reviewed "forgot", or a stored -5 reviewed "remembered". A stored 9 reviewed "remembered" is saved at stage 6 (ReviewStorage.StoredStageOffLadder).
- The system clock (`new Date()` in `getTodayStr`) is replaced by a `today` parameter. The source reads the clock twice (in `getTodayReviewWords` and in `initProgressIfEmpty`), and the two reads could fall on different days around midnight; the model uses one day for both.
- Dates.AddDays models the intended calendar arithmetic. The source converts local midnight with `toISOString`, which is UTC. East of UTC that gives the previous day, so the real result can be one day early. The model does not capture this time-zone shift.
- Dates.ParseDate accepts only digit fields that name a real day. JavaScript's `Date` would roll over out-of-range fields such as `2024-02-30`, and maps years 0-99 onto 1900-1999; neither is modelled. Dates the program writes always name real days, so this does not affect the store.
- Dates.FormatDate prints the year unpadded, like `getTodayStr`; `toISOString` pads it to four digits. The two agree for years 1000 to 9999, which is also the range where string order is calendar order (Dates.FormatOrder). Other years are not modelled further.
- Negative day counts in `addDays` are not modelled: the ladder has none, so `AddDays` takes a `nat`.
- `Math.random` in `shuffle` is a nondeterministic choice of the swap position, so no distribution is claimed.
- The `setTimeout` delays before `onAnswer` are treated as firing once, at once, and before any other event; `Card.answers` records that call.
- App.ProgressPercent: rounds the exact ratio half up, not a floating-point `Math.round`. Only the zero case and the bound of 100 carry over to floats. The half-percent bound can fail there: 23 of 40 gives 57.49999999999999 in floating point, which rounds to 57, while the model gives 58.
- Speech synthesis, alerts, JSX rendering, styling and the review/quiz mode switch are UI glue.
- The `window.WORD_POOL` global is a parameter.
- The word list in `src/words` is not part of this model; it is a parameter catalog.
- A review update whose stage after the step is still off the ladder throws in the source (`toISOString` on an invalid date). The model returns `false` instead, and App.Session.HandleAnswer then stops with the session as it was, which is where the exception leaves it.
