# pahkina timesheet pipeline, modelled in Dafny

pahkina reads a timesheet as comma-separated text with the columns name, id, date, start time and end time. Each row becomes an hour entry (`HourEntry`). The entries are then grouped by month, by person and by day. Each day earns three things:

- regular pay: the hours worked times the hourly rate;
- an evening premium: the minutes inside one evening window times the rate times an extra factor;
- overtime: independent tiers, each counting the day's minutes above its start hour, capped at its width.

Each figure is rounded half-up to cents. A day's total is the sum of the three rounded figures. The days of a person are summed into monthly figures.

The model is made of pure functions over datatypes, as the source is.

- `Calendar`:
  - an instant is a whole number of minutes counted from midnight starting 1 January of year 0 in the proleptic Gregorian calendar;
  - `DayNumber` and `DateOf` convert between calendar dates and day numbers, and are proved inverse.
- `Times`: the `Time` value of `src/Time.ts`:
  - `fromString`, modelled as `FromString`;
  - `isBefore`, modelled as `IsBefore`;
  - `momentDateOnTime`, modelled as `OnDate`.
- `Entries`: the `HourEntry` record and `isEqual`.
- `Params`: the `CalculationParams` record and the `DEFAULT_PARAMS` tariff. The defaults are:
  - a rate of 3.75;
  - an evening window from 16:00 to 8:00 with extra 1.15;
  - overtime tiers 8–10 h at 0.25, 10–12 h at 0.5 and 12 h and more at 1.
- `Money`:
  - big.js `div(60)`, which keeps 20 decimal places, rounding half-up;
  - `round(2)`, which rounds half-up, away from zero on ties.
  
  Money is a Dafny `real`, so these are the only roundings of money. Minute counts and tier bounds are exact too (see "## Left out").
- `Grouping`: lodash `groupBy` followed by `values`/`map`, with the key order that a JavaScript object gives:
  - string keys come out in order of first insertion;
  - integer-like keys below 2^32 − 1 come first, in ascending order.
- `Text`: string helpers.
  - `String.prototype.trim`.
  - Splitting on one character.
  - Decimal digit strings, for `\d`, `Number(...)` and `toString()`.
- `Parser`: `parseHourEntryRow` and `parseHourEntryCsv`, with the row errors and `ParseResult`.
- `Wages`: `calculateWage` and its helpers.
  - It also covers where each entry lands in the report: the month, person and day cell.
  - Every entry lands in exactly one such cell.
- `Worker`: the call site in the background worker. It computes wages only when the parse had no errors.

Where the code and its accompanying tests disagree, the model follows the code:

- **Evening window.** The code builds one evening window, on the calendar day of the day's first entry (`src/paymentCalculator/calculateWage.ts:124-130`).
  - The test at `src/paymentCalculator/calculateWage.evening.spec.ts:25-33` expects a 06:00–08:00 shift to earn the premium. Under the code it earns none, because that shift ends before 16:00 on its own day. `Wages.MorningEarnsNoEvening` states this.
  - The test at `src/paymentCalculator/calculateWage.evening.spec.ts:85-92` expects 6 premium hours. Under the code the entry overlaps the 16:00–23:00 window of its first day by no minutes.
- **Month and day order.** Months and days come out in order of first occurrence, not sorted. The tests at `src/paymentCalculator/calculateWage.spec.ts:71-92` expect ascending order. `Wages.MonthsInFirstOccurrenceOrder` and `Wages.DaysInFirstOccurrenceOrder` state what the code does.
- **Person id.** The person id is emitted as a decimal string (`src/paymentCalculator/calculateWage.ts:60`), while `src/paymentCalculator/calculateWage.spec.ts:52-54` compares it with a number.
- **Evening extra rate.** The params record calls the rate `extraWage` (`src/paymentCalculator/CalculationParams.ts:11`), but the engine reads `.multiplier` (`src/paymentCalculator/calculateWage.ts:144`). The model has one field, `extraWage`, and the engine uses it.
- **Time format.** `Time.fromString` accepts one or two digits on each side of the colon and checks no range. Hours past 23 and minutes past 59 are kept, and `Date.setHours`/`setMinutes` roll them over into later instants.
  - `Times.FromStringKeepsOutOfRange` states that such times are kept.
  - `Parser.EndMayPrecedeStart` shows that, with such times, an entry can still end before it starts.

## Model

| member | source | states |
|---|---|---|
| `Text.Trim` | src/hourEntry/parseHourEntryCSV.ts:51 | the trimmed field is no longer than the input and neither starts nor ends with whitespace |
| `Text.TrimSlice` | src/hourEntry/parseHourEntryCSV.ts:51 | the trimmed text is a slice of the input, and only whitespace is cut off on either side |
| `Text.TrimUnpadded` | src/hourEntry/parseHourEntryCSV.ts:51 | a string with no whitespace at either end is left unchanged by trimming |
| `Text.TrimIgnoresPadding` | src/hourEntry/parseHourEntryCSV.ts:97 | whitespace added before and after a text does not change its trimmed form |
| `Text.TrimBlank` | src/hourEntry/parseHourEntryCSV.ts:97 | a text of whitespace only trims to the empty string |
| `Text.Split` | src/hourEntry/parseHourEntryCSV.ts:97-98 | splitting gives at least one part; no part holds the separator; joining the parts with the separator gives back the text |
| `Text.SplitJoin` | src/hourEntry/parseHourEntryCSV.ts:97-98 | splitting a join of separator-free parts gives back exactly those parts |
| `Text.Decimal` | src/paymentCalculator/calculateWage.ts:60 | `toString` of a number is a digit string whose value is the number; it has no leading zero and is one digit long exactly for numbers below 10 |
| `Calendar.DateOf` | src/paymentCalculator/calculateWage.ts:92 | every day number names a valid calendar date whose day number is that number |
| `Calendar.DateOfDayNumber` | src/hourEntry/parseHourEntryCSV.ts:84-85 | reading the date back from a valid date's day number gives the same date |
| `Calendar.DayNumberInjective` | src/hourEntry/parseHourEntryCSV.ts:84-85 | distinct valid dates have distinct day numbers |
| `Calendar.MonthsFillYear` | src/hourEntry/parseHourEntryCSV.ts:67 | the month lengths of a year, leap years included, add up to the year's length |
| `Times.FromString` | src/Time.ts:17-25 | a time is returned only for the `h:m` form with one or two digits on each side, and its hours and minutes are those digits' values |
| `Times.FromStringOfForm` | src/Time.ts:24 | every string of that form is accepted with its digit values |
| `Times.FromStringMatches` | src/Time.ts:17-22 | `fromString` returns no value exactly when the regular expression `^(\d{1,2}):(\d{1,2})$` does not match |
| `Times.FromStringRoundTrip` | src/Time.ts:24 | for hours and minutes below 100, writing them in decimal around a colon reads back the same time |
| `Times.FromStringKeepsOutOfRange` | src/Time.ts:24 | there is no range check: `24:75` gives hours 24 and minutes 75 |
| `Times.IsBefore` | src/Time.ts:35-38 | a time is never before an equal time, and never before a time with a smaller hour |
| `Times.IsBeforeIrreflexive` | src/Time.ts:35-38 | no time is before itself |
| `Times.IsBeforeTransitive` | src/Time.ts:35-38 | `isBefore` is transitive |
| `Times.IsBeforeTrichotomy` | src/Time.ts:35-38 | two times differ exactly when exactly one of them is before the other |
| `Times.IsBeforeAgreesWithInstants` | src/Time.ts:35-38 | for minutes below 60, `isBefore` holds exactly when the first time lands on an earlier minute of the day |
| `Times.IsBeforeDisagreesOutOfRange` | src/Time.ts:35-38 | with 75 minutes, `0:75` is before `1:00` although it lands later in the day |
| `Times.OnDate` | src/Time.ts:27-33 | hours and minutes past the day roll over: the instant lands as many whole days later as the time's minutes span, at the remaining minute of the day; an in-range time stays on the argument's day at that minute of the day |
| `Entries.IsEqual` | src/HourEntry.ts:16-21 | `isEqual` holds exactly when the two entries are equal as records: same name, identifier, start and end |
| `Entries.IsEqualReflexive` | src/HourEntry.ts:16-21 | every entry is equal to itself |
| `Entries.IsEqualSymmetric` | src/HourEntry.ts:16-21 | `isEqual` is symmetric |
| `Entries.IsEqualTransitive` | src/HourEntry.ts:16-21 | `isEqual` is transitive |
| `Params.DefaultTiersAscending` | src/paymentCalculator/CalculationParams.ts:32-48 | every default tier starts before it ends; each tier ends where the next begins; the first tier starts at 8 hours and the last has no end |
| `Params.DefaultEveningWraps` | src/paymentCalculator/CalculationParams.ts:26-30 | the default evening end 8:00 is before its start 16:00, so the window runs past midnight |
| `Params.DefaultTariff` | src/paymentCalculator/CalculationParams.ts:23-49 | the default rate is 3.75 and the evening extra 1.15 from 16:00 to 8:00; there are three overtime tiers, and their multipliers rise from tier to tier |
| `Money.RoundHalfUp` | src/paymentCalculator/calculateWage.ts:119 | the result has the requested number of decimals; it lies within half a unit of the input, ties going away from zero; it keeps the input's sign |
| `Money.Round2` | src/paymentCalculator/calculateWage.ts:104-106 | `round(2)` gives whole cents within half a cent of the input, ties going away from zero |
| `Money.Div60` | src/paymentCalculator/calculateWage.ts:118-119 | `div(60)` keeps 20 decimal places; for non-negative minutes it is non-negative and within half a unit of the 20th place of the exact quotient; it is never positive for non-positive minutes; it is the exact quotient whenever that has at most 20 decimals |
| `Money.PayWithinDivisionError` | src/paymentCalculator/calculateWage.ts:118-119 | for non-negative minutes and factors, hours from `div(60)` times two factors are non-negative and within the factors' product times half a unit of the 20th decimal of the exact pay |
| `Money.ThirdsHaveDecimals` | src/paymentCalculator/calculateWage.ts:118-119 | a whole minute count divisible by 3 gives an hour count with at most two decimals, which `div(60)` therefore keeps exactly |
| `Money.RoundHalfUpKeepsDecimals` | src/paymentCalculator/calculateWage.ts:104-106 | rounding a value that already has the requested decimals leaves it unchanged |
| `Money.Div60WholeHours` | src/paymentCalculator/calculateWage.ts:118-119 | a whole number of hours' minutes divided by 60 is exactly that number of hours |
| `Money.CentsSum` | src/paymentCalculator/calculateWage.ts:107 | the sum of two whole-cent amounts is a whole-cent amount, so adding the rounded figures needs no further rounding |
| `Grouping.Select` | src/paymentCalculator/calculateWage.ts:42 | a group's members are exactly the input items with that key, and there are no more of them than items in the input |
| `Grouping.SelectOne` | src/paymentCalculator/calculateWage.ts:42 | a single item is kept exactly when its key is the group's key |
| `Grouping.SelectAppend` | src/paymentCalculator/calculateWage.ts:42 | selection distributes over concatenation, so members keep input order and an item that occurs twice is kept twice |
| `Grouping.Dedup` | src/paymentCalculator/calculateWage.ts:42-43 | the group keys are distinct and are exactly the keys that occur in the input |
| `Grouping.DedupFirstOccurrence` | src/paymentCalculator/calculateWage.ts:42-43 | a key that comes before another in the output first occurs earlier in the input |
| `Grouping.GroupBy` | src/paymentCalculator/calculateWage.ts:41-43 | `groupBy` gives one group per distinct key in first-occurrence order, each holding the input items with that key |
| `Grouping.GroupByPartitions` | src/paymentCalculator/calculateWage.ts:41-43 | the groups have distinct keys and are never empty; every item lies in the group of its key and in no other group |
| `Grouping.GroupOfKey` | src/paymentCalculator/calculateWage.ts:41-43 | an input item is in a group exactly when its key is that group's key |
| `Grouping.SelectFirst` | src/paymentCalculator/calculateWage.ts:60-61 | a group's first member is an input item with the group's key |
| `Grouping.SelectBoth` | src/paymentCalculator/calculateWage.ts:53-54 | grouping a month's entries by person selects exactly the entries with that month and that person |
| `Grouping.EnumerationOrder` | src/paymentCalculator/calculateWage.ts:54-55 | the same distinct ids as the input; ids below 2^32 − 1 come first, in ascending order; the other ids keep their insertion order |
| `Grouping.EnumerationSingle` | src/paymentCalculator/calculateWage.ts:54-55 | a single key enumerates as itself |
| `Wages.TotalMinutesAppend` | src/paymentCalculator/calculateWage.ts:101-102 | the day's minutes are additive over its entries |
| `Wages.DuplicateEntryCountsTwice` | src/paymentCalculator/calculateWage.ts:101-102 | overlapping entries are not merged: the same shift twice counts twice |
| `Wages.TotalMinutes` | src/paymentCalculator/calculateWage.ts:101-102 | the day's minutes are never negative when no entry ends before it starts |
| `Wages.RegularWage` | src/paymentCalculator/calculateWage.ts:117-121 | regular pay is never negative for non-negative minutes and rate; for a minute count divisible by 3 (7 h 30 min, say) it is exactly minutes / 60 times the rate; otherwise it is within the rate times half a unit of the 20th decimal of that product |
| `Wages.EveningEnd` | src/paymentCalculator/calculateWage.ts:124-130 | the window's end is the end time on the first entry's day or on the next day, at the same minute of the day; it is no earlier than the start unless even a day's shift leaves it before the start |
| `Wages.EveningWindowOfInRangeTimes` | src/paymentCalculator/calculateWage.ts:124-130 | for in-range times the end moves to the next day exactly when the end time is before the start time; the window lasts less than a day, and its length is the end's minute of the day less the start's, counted around the clock |
| `Wages.EveningOverlap` | src/paymentCalculator/calculateWage.ts:132-137 | an entry's evening minutes are never negative and exceed neither its length nor the window's; they are its whole length when it lies inside the window and zero when it lies outside; an entry crossing the window's start counts from the start, one crossing its end counts up to the end, and one covering the window counts the window's length |
| `Wages.EveningMinutes` | src/paymentCalculator/calculateWage.ts:139 | the day's evening minutes are never negative and do not exceed its total minutes when no entry ends before it starts; a single entry contributes exactly its overlap |
| `Wages.EveningMinutesAppend` | src/paymentCalculator/calculateWage.ts:139 | evening minutes add over concatenated entry lists, so the day's evening minutes are the sum of every entry's overlap, repeats counted twice |
| `Wages.EveningPay` | src/paymentCalculator/calculateWage.ts:141-144 | evening minutes turned into pay are never negative for non-negative rates and zero for no minutes; for minutes divisible by 3 they pay exactly minutes / 60 × rate × evening extra, and for any non-negative minutes and rates the pay is within rate × extra times half a unit of the 20th decimal of that product |
| `Wages.EveningWage` | src/paymentCalculator/calculateWage.ts:123-145 | the evening premium is never negative for non-negative rates and zero when no minute falls in the window; for evening minutes divisible by 3 it is exactly minutes / 60 × rate × evening extra, and otherwise it is within rate × extra times half a unit of the 20th decimal of that product |
| `Wages.NoEveningBeforeWindow` | src/paymentCalculator/calculateWage.ts:132-139 | entries that all end by the window's start have no evening minutes |
| `Wages.MorningEarnsNoEvening` | src/paymentCalculator/calculateWage.ts:123-139 | a day whose entries all end before the first entry's window start earns no evening premium |
| `Wages.TierMinutes` | src/paymentCalculator/calculateWage.ts:150-151 | a tier's minutes are never negative and at most its width; they are zero while the day's minutes stay below its start; inside a finite tier they are the minutes above its start, and past its end they are its full width; an open-ended tier counts every minute above its start |
| `Wages.OneTierPay` | src/paymentCalculator/calculateWage.ts:150-155 | one tier's pay is never negative for non-negative rate and multiplier, and it is zero while the day's minutes stay below the tier's start; it is within rate × multiplier times half a unit of the 20th decimal of the tier's minutes / 60 × rate × multiplier |
| `Wages.TierPayOfMinutes` | src/paymentCalculator/calculateWage.ts:150-155 | a tier holding a minute count divisible by 3 pays exactly those minutes / 60 × rate × multiplier |
| `Wages.TierPay` | src/paymentCalculator/calculateWage.ts:148-157 | the summed tier pay is never negative for non-negative rates and multipliers, and it is zero while the day's minutes stay below every tier's start; a one-tier list pays that tier's minutes / 60 × rate × multiplier |
| `Wages.TierPayWithinDivisionError` | src/paymentCalculator/calculateWage.ts:148-157 | for a non-negative rate and tiers with proper bounds and non-negative multipliers, the summed tier pay is within the summed rate × multiplier factors times half a unit of the 20th decimal of the exact pay, each tier's minutes / 60 × rate × multiplier |
| `Wages.TierPayAppend` | src/paymentCalculator/calculateWage.ts:148-157 | tiers are independent: the pay of a tier list is the sum of the pays of its parts, so each tier adds its own clamped minutes' pay |
| `Wages.OvertimeWage` | src/paymentCalculator/calculateWage.ts:147-158 | overtime pay is never negative for non-negative rates and multipliers, and it is zero while the day's minutes stay below every tier's start; for proper tiers it is within the division error of the exact pay of all tiers |
| `Wages.CalculateForDay` | src/paymentCalculator/calculateWage.ts:100-115 | each of regular, evening and overtime is its unrounded pay rounded to cents once; the total is their plain sum and is itself whole cents |
| `Wages.DefaultOvertime` | src/paymentCalculator/calculateWage.ts:147-158 | under the default tariff a day of 12 or more hours earns 2 h at 0.25, 2 h at 0.5 and the rest at 1 times the rate |
| `Wages.DefaultOvertimeWholeHours` | src/paymentCalculator/calculateWage.ts:147-158 | a default day of 12 + h whole hours earns 3.75 · (0.5 + 1 + h) in overtime |
| `Wages.DefaultOvertimeUpToTwelve` | src/paymentCalculator/calculateWage.ts:147-158 | under the default tariff a day of 8 to 12 hours earns 0.25 × 3.75 per hour past 8 up to 10 and 0.5 × 3.75 per hour past 10: exactly when its minutes are divisible by 3, and within the three tiers' division error for every minute count |
| `Wages.ThreeTierPayOfMinutes` | src/paymentCalculator/calculateWage.ts:148-157 | three tiers holding minute counts divisible by 3 pay exactly the sum of each count / 60 × rate × multiplier |
| `Wages.TwoTierOvertime` | src/paymentCalculator/calculateWage.overtime.spec.ts:65-110 | with tiers 4–8 h at 1 and 8 h on at 2, rate 1, a 4-hour day earns no overtime, a 5-hour day 1 and a 10-hour day 8 |
| `Wages.EveningShiftAcrossWindowEnd` | src/paymentCalculator/calculateWage.evening.spec.ts:76-83 | under a 16:00–23:00 window a 22:30–02:00 shift earns a rounded premium of 0.50 at rate and extra 1 |
| `Wages.EveningShiftPastMidnight` | src/paymentCalculator/calculateWage.evening.spec.ts:35-42 | under a 16:00–08:00 window a 23:00–02:00 shift lies wholly in the evening and earns 3.00 |
| `Wages.SumWages` | src/paymentCalculator/calculateWage.ts:69-87 | no days sum to zero in every component and one day sums to that day's figures; when every day's total is the sum of its components, the monthly total is the sum of the monthly components |
| `Wages.SumWagesAppend` | src/paymentCalculator/calculateWage.ts:69-80 | the sum over concatenated day lists is the component-wise sum of the two sums, so with the one-day case every monthly component is the sum of that component over the days |
| `Wages.SumWagesWellFormed` | src/paymentCalculator/calculateWage.ts:69-87 | summing well-formed days gives whole cents in every component and a total equal to regular + evening + overtime |
| `Wages.CalculateForPerson` | src/paymentCalculator/calculateWage.ts:90-98 | one record per distinct start day, in first-occurrence order, each holding `calculateForDay` of that day's non-empty list of entries |
| `Wages.CalculateForMonth` | src/paymentCalculator/calculateWage.ts:52-67 | one record per person id, in enumeration order, each computed from that person's non-empty list of entries |
| `Wages.MonthRecord` | src/paymentCalculator/calculateWage.ts:44-48 | a month record's year, and its month counted from 0, are those of the month key |
| `Wages.CalculateWage` | src/paymentCalculator/calculateWage.ts:40-50 | one record per distinct start month, in first-occurrence order, with that month's year and 0-based month and the persons computed from that month's entries |
| `Wages.PersonRecordOf` | src/paymentCalculator/calculateWage.ts:52-64 | a person's record of a month is computed from exactly the entries with that month and that person; their id is a digit string |
| `Wages.DayCell` | src/paymentCalculator/calculateWage.ts:90-98 | each day cell is `calculateForDay` of the entries with that month, person and day, and there is at least one such entry; the day lies in the cell's month |
| `Wages.EntryCounted` | src/paymentCalculator/calculateWage.ts:40-50 | every entry is counted in some day cell of the report |
| `Wages.CellIndices` | src/paymentCalculator/calculateWage.ts:42-60 | the cell that counts an entry has the entry's start month, the decimal string of its id and its start day |
| `Wages.CellsDisjoint` | src/paymentCalculator/calculateWage.ts:42-92 | no entry is counted in two different cells |
| `Wages.CellKeysDiffer` | src/paymentCalculator/calculateWage.ts:42-92 | different cells stand for different (month, person, day) keys |
| `Wages.MonthsDiffer` | src/paymentCalculator/calculateWage.ts:42-43 | no month appears twice in the report |
| `Wages.PersonsDiffer` | src/paymentCalculator/calculateWage.ts:54-55 | no person appears twice in a month |
| `Wages.DaysDiffer` | src/paymentCalculator/calculateWage.ts:92-93 | no day appears twice for a person |
| `Wages.MonthlyFigures` | src/paymentCalculator/calculateWage.ts:62 | a person's monthly figures are the sums of their daily figures; every figure is whole cents, and every total is regular + evening + overtime |
| `Wages.PersonNameIsFirst` | src/paymentCalculator/calculateWage.ts:61 | a person's name is the name on their first entry of the month in input order |
| `Wages.RecordNameIsFirst` | src/paymentCalculator/calculateWage.ts:61 | a person record carries the name of the first input entry in its group |
| `Wages.MonthsInFirstOccurrenceOrder` | src/paymentCalculator/calculateWage.ts:42-43 | a month listed before another first occurs earlier in the input |
| `Wages.FirstMonthFirst` | src/paymentCalculator/calculateWage.ts:42-46 | the report's first month is the month of the first entry |
| `Wages.PersonsAscending` | src/paymentCalculator/calculateWage.ts:54-55 | persons with ids below 2^32 − 1 come first, in ascending order of id |
| `Wages.DaysInFirstOccurrenceOrder` | src/paymentCalculator/calculateWage.ts:92-93 | a day listed before another first occurs earlier among that person's entries of the month |
| `Wages.SingleDay` | src/paymentCalculator/calculateWage.ts:90-98 | one entry gives one day record, on its start day |
| `Wages.SinglePerson` | src/paymentCalculator/calculateWage.ts:52-67 | one entry gives one person record, for its id |
| `Wages.SingleEntry` | src/paymentCalculator/calculateWage.ts:42-61 | one entry, even one that ends after midnight, gives one month, one person and one day: the month and day of its start, with its id as a string and its name |
| `Parser.ParseDate` | src/hourEntry/parseHourEntryCSV.ts:66-70 | a date is returned only for a real calendar date written day, month and year with dots, in 1–2, 1–2 and 4 digits |
| `Parser.ParseDateOfForm` | src/hourEntry/parseHourEntryCSV.ts:66-70 | a dotted string of that form is accepted exactly when it names a real date, and then as that date |
| `Parser.ParseDateMatches` | src/hourEntry/parseHourEntryCSV.ts:66-70 | the parser returns a date exactly when the string is in one of the four strict formats and names that date |
| `Parser.ParseDateRejects` | src/hourEntry/parseHourEntryCSV.ts:67-70 | when no date is returned, the string names no date in any of the formats |
| `Parser.ParseDateRoundTrip` | src/hourEntry/parseHourEntryCSV.ts:66-67 | a real date with a four-digit year, written as `D.M.YYYY`, reads back as itself |
| `Parser.ParseDateRejectsFebruary30` | src/hourEntry/parseHourEntryCSV.ts:67-68 | the well-formed `30.2.2016` is rejected, since February has no 30th |
| `Parser.EndRollsOver` | src/hourEntry/parseHourEntryCSV.ts:87-90 | an end time earlier in the day than the start gives an entry one day minus the difference long; otherwise the entry lasts the plain difference |
| `Parser.EqualTimesZeroLength` | src/hourEntry/parseHourEntryCSV.ts:84-90 | equal start and end times give an entry of zero length |
| `Parser.InRangeEntry` | src/hourEntry/parseHourEntryCSV.ts:84-92 | for in-range times, the entry keeps the row's name and id, starts on the row's date at the start time, and lasts at least nothing and less than a day |
| `Parser.EndMayPrecedeStart` | src/hourEntry/parseHourEntryCSV.ts:84-90 | with start `30:00` and end `1:00`, the entry ends before it starts |
| `Parser.ParseHourEntryRow` | src/hourEntry/parseHourEntryCSV.ts:46-93 | checks run in the order columns, name, id, date, times, each on trimmed fields; each error kind is returned exactly when its check is the first to fail; a parsed entry is the one that the trimmed fields describe |
| `Parser.DescribesUnique` | src/hourEntry/parseHourEntryCSV.ts:51-92 | a row describes at most one entry |
| `Parser.Rows` | src/hourEntry/parseHourEntryCSV.ts:97-98 | there are no rows exactly when the trimmed text is empty; every row has a field; no field holds a comma or a line break; rows rejoined with commas and line breaks give back the trimmed text |
| `Parser.RowsOfJoin` | src/hourEntry/parseHourEntryCSV.ts:97-98 | rows whose fields hold no comma or line break, written out with commas and line breaks and with no padding at either end, read back as the same rows |
| `Parser.ErrorsOf` | src/hourEntry/parseHourEntryCSV.ts:110-115 | one error per failing row, with its zero-based index and its kind, in ascending row order; there is none exactly when no row failed |
| `Parser.EntriesOf` | src/hourEntry/parseHourEntryCSV.ts:117 | when no row failed, the entries correspond one-to-one with the rows, in order |
| `Parser.ParseHourEntryCsv` | src/hourEntry/parseHourEntryCSV.ts:95-119 | exactly one of entries and errors is present; `hasErrors` holds exactly when some row failed; errors are as above and there are some; otherwise there is one entry per row, in order |
| `Parser.ParseIgnoresPadding` | src/hourEntry/parseHourEntryCSV.ts:96-97 | whitespace and blank lines around the text change nothing |
| `Parser.BlankInputHasNoEntries` | src/hourEntry/parseHourEntryCSV.ts:97-117 | a text of whitespace only gives an empty entry list and no errors |
| `Parser.OneLine` | src/hourEntry/parseHourEntryCSV.ts:97-98 | a one-line text of fields with no commas, no line breaks and no padding is a single row of those fields |
| `Parser.OneLineParses` | src/hourEntry/parseHourEntryCSV.ts:99-117 | a one-line text whose row parses gives exactly that row's entry and no errors |
| `Parser.OneLineFails` | src/hourEntry/parseHourEntryCSV.ts:99-115 | a one-line text whose row fails gives one error, on row 0 with its kind, and no entries |
| `Worker.Run` | src/frontend/wageCalculationWorker/worker.ts:12-26 | exactly one of errors and wages is present; errors come exactly when some row failed, and they are the parse errors; otherwise the wages are `calculateWage` of the parsed entries under the default tariff |
| `Worker.RunIgnoresPadding` | src/frontend/wageCalculationWorker/worker.ts:13 | whitespace around the text does not change the worker's answer |
| `Worker.EveryRowPaid` | src/frontend/wageCalculationWorker/worker.ts:20-24 | when wages are returned, every row of the text has an entry, and that entry is counted in some day cell of the report |

## Left out

- CSV tokenisation by babyparse is not modelled: quoting, `\r\n` line ends and delimiter detection. Rows are the trimmed text cut at `\n`, and each row is cut at `,`. A trailing `\r` ends up in the last field, where trimming removes it.
- Local time zones and daylight saving in moment are not modelled. Instants are whole minutes on a uniform timeline, so `add(1, "days")` adds 1440 minutes and `diff` is a subtraction. Seconds are always zero, so `asMinutes` is exact.
- Printing is not modelled:
  - `toFixed(2)` is left out; figures are kept as `real` values that are proved to be whole cents;
  - the `YYYY-MM` and `YYYY-MM-DD` keys are left out; the model keys on the year and month, or on the date, that those strings spell;
  - a day's `date` field is a `Date` value rather than its `YYYY-MM-DD` string.
- `Number(idToken)` loses precision for ids above 2^53. Ids are exact natural numbers here.
- Error messages are not modelled; an error keeps only its kind.
- Wages.TierMinutes: tier bounds are JavaScript numbers, and the engine computes `(end - start) * 60`, `start * 60` and `minutesTotal - start * 60` in double precision before `new Big(...)`. The model takes tier hours as exact reals, so it leaves out any rounding those products could cause for fractional tier hours; the default tariff and the tests use whole hours, where doubles are exact.
- The `Time` and `HourEntry` constructors and the readonly fields are Dafny datatype constructors, which store their arguments unchanged.
- `momentDateOnTime` clones its argument before setting the time. That is implicit in a value model.
- The evening rate field: the engine reads the evening rate as `.multiplier`, a field the params record does not declare. The model reads the declared `extraWage` instead, as one field.
- The React user interface and the promise-worker dispatch are not modelled. Only the worker's handler is modelled, as `Worker.Run`.
- `src/HourEntryParser.spec.ts` imports a module that is not part of this model.
- The stale test expectations listed above are described, not proved.
