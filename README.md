# createGraph data pipeline, in Dafny

A model of the data pipeline inside `createGraph` (`src/App.tsx`), the only
logic of the d3svg chart demo that is not DOM, SVG or React plumbing. The
embedded text of `src/dateAmount.ts` runs through four steps:

1. **Record split**: the text is split on `"\n"` and each row on `","`. The
   first field is the date string and the second the close string; any
   further fields are dropped.
2. **Point parse**: a `forEach` loop pushes one `IDateAmount` per record.
   Its date comes from `d3.timeParse("%d-%b-%y")` and is `null` on a
   mismatch. Its close comes from `parseFloat` and is NaN for text that is
   not a number.
3. **Null-tolerant sort**: `Array.prototype.sort` runs in place. Its
   comparator gives the date difference when both dates are present and
   0 ("equal") when either is `null`.
4. **Domain calculation**: `d3.min`/`d3.max` skip `null` and NaN. The time
   scale's domain is set to `[minDate, maxDate]` only when both are
   defined. The value scale's domain is set to `[0, maxClose]` only when
   `maxClose` is truthy, so it is left alone when `maxClose` is undefined
   and also when it is 0.

The Dafny modules follow the pipeline:

- `Text`: `String.prototype.split` with a one-character separator, and `join`.
- `Chars`: digits and the white-space characters of JavaScript's `\s`, shared by the date parser and `parseFloat`.
- `Dates`: the `%d-%b-%y` parser of d3-time-format.
  - Dates are day numbers: days since 1 January 1970 in the proleptic
    Gregorian calendar. They are ordered as the local-midnight `getTime()`
    values are.
  - `%d` and `%y` read d3-time-format's `numberRe`, the regular expression
    `^\s*\d+`, over a two-character window: two digits, one digit, or a
    white-space character and a digit. No sign is accepted. `%b` matches an
    English month name ignoring ASCII case.
  - `%y` pivots at 68: `00`–`68` are 20yy and `69`–`99` are 19yy.
  - Day numbers roll over like `new Date(y, m, d)`, so `31-Apr-20` is 1 May 2020.
- `Numbers`: `parseFloat`. It skips leading white space and then reads the
  longest prefix that is a signed decimal literal (with an optional
  exponent) or `Infinity`. Otherwise the result is NaN. Values are exact
  rationals: `Close = NaN | Num(real) | PosInf | NegInf`.
- `Records`: the row split, `IDateAmount` as `Point`, and the parse loop
  `ParseAll`, a method whose loop appends to a sequence.
- `Sorting`: the comparator and the sort. `SortByDate` is the
  specification, a stable insertion sort on sequences. `SortInPlace` is
  the in-place method on an `array`, proved equal to it.
- `Domains`: `d3.min`/`d3.max` as left-to-right reductions, the two
  truthiness guards, and the scales after fitting.
- `Graph`: `CreateGraph`, the four steps end to end, with lemmas about the
  whole pipeline.
- `DateAmount`: the embedded text of `src/dateAmount.ts`. It is a table of
  sixteen rows (day, month, close in hundredths), each printed as
  `%d-%b-%y`, a comma and a close with two decimals, joined by newlines.
  The lemmas cover what the pipeline makes of it.

## Model

| member | source | states |
|---|---|---|
| `Text.Split` | src/App.tsx:47-48 | `s.split(sep)` yields exactly one piece per separator plus one, empty pieces included, and no piece contains the separator |
| `Text.JoinSplit` | src/App.tsx:47 | joining the pieces with the separator restores the text, so no character is lost by the split |
| `Text.SplitJoin` | src/App.tsx:47 | any separator-free pieces are what splitting their join gives back, so the pieces of a text are unique |
| `Text.SplitHead` | src/App.tsx:48 | the first piece is the text up to the first separator, and the remaining pieces split the text after it |
| `Records.SplitRow` | src/App.tsx:48-52 | the date field is the row up to the first comma; the close field lies between the first and second comma (or the end of the row) and is missing exactly when the row has no comma |
| `Records.ExtraFieldsIgnored` | src/App.tsx:48 | fields after the second are ignored |
| `Records.NoCommaIsNaN` | src/App.tsx:48-59 | a row without a comma has an undefined close, which `parseFloat` turns into NaN |
| `Records.SplitData` | src/App.tsx:47-53 | one record per `"\n"`-separated piece of the text: the number of newlines plus one |
| `Records.ParseAll` | src/App.tsx:55-61 | the `forEach`/`push` loop produces one point per record, in order, each the parse of its record |
| `Records.ParsedText` | src/App.tsx:47-61 | the text yields newlines-plus-one points; no row is dropped |
| `Records.ExampleRow` | src/App.tsx:56-60 | `"01-May-20,58.13"` gives date 1 May 2020 (day 18383) and close 58.13 |
| `Records.ExampleBadDate` | src/App.tsx:58 | `"not-a-date,58.13"` gives a `null` date and the point is kept |
| `Records.ExampleBadClose` | src/App.tsx:59 | `"01-May-20,abc"` gives close NaN |
| `Records.ParsePoint` | src/App.tsx:57-60 | a point has a date exactly when its date field is laid out as `%d-%b-%y`; a missing close field gives NaN; a present one gives NaN exactly when no number starts it |
| `Dates.ParseDate` | src/App.tsx:58 | `d3.timeParse("%d-%b-%y")` is total; it returns a date only for strings of 7 to 9 characters and `null` otherwise |
| `Dates.ReadFields` | src/App.tsx:58 | the directives read a day field, a dash, a month name, a dash and a year field that ends the string; a match has 7 to 9 characters and a month from 1 to 12 |
| `Dates.ParseDateLayout` | src/App.tsx:58 | a string parses to a date exactly when it is a day field that `^\s*\d+` matches within two characters (two digits, one digit, or a JavaScript white-space character then a digit; no sign), a dash, a month name in any letter case, a dash and a year field of the same kind that ends the string; the date is the day of that month of the pivoted year |
| `Dates.ParseTwoChars` | src/App.tsx:58 | `%d` and `%y` read one or two characters, as `^\s*\d+` over a two-character window does, and give a number from 0 to 99 |
| `Dates.ReadField` | src/App.tsx:58 | what `%d` or `%y` reads is a numeric field and the number it spells; a one-character field is never followed by a digit (the match is greedy) |
| `Dates.FieldParses` | src/App.tsx:58 | a numeric field that a non-digit or the end of the string follows is read whole |
| `Dates.ParseMonth` | src/App.tsx:58 | `%b` reads three characters that name a month from 1 to 12, ignoring letter case |
| `Dates.MonthParses` | src/App.tsx:58 | three letters that name a month in any letter case are read as that month |
| `Dates.CenturyPivot` | src/App.tsx:58 | a two-digit year from 0 to 99 becomes a year from 1969 to 2068 with the same last two digits |
| `Dates.SlashRejected` | src/App.tsx:58 | `"01/May-20"`, with a slash for a dash, gives `null` |
| `Dates.SignedDayRejected` | src/App.tsx:58 | `"+1-May-20"` and `"-1-May-20"` give `null`: `%d` takes no sign |
| `Dates.SignedYearRejected` | src/App.tsx:58 | `"01-May--5"` gives `null`: `%y` takes no sign |
| `Dates.SpacedDayAccepted` | src/App.tsx:58 | `" 1-May-20"`, white space then a one-digit day, is 1 May 2020 |
| `Dates.LowerCaseDate` | src/App.tsx:58 | `"1-may-20"`, with a one-digit day and a lower-case month, is 1 May 2020 |
| `Dates.ParseFormat` | src/App.tsx:58 | parsing a date printed as `%d-%b-%y` gives back the same calendar date for every year from 1969 to 2068 (the `%y` pivot window) |
| `Dates.ParseFirstOfMay` | src/App.tsx:58 | `"01-May-20"` parses to 1 May 2020, day 18383 |
| `Dates.NextMonth` | src/App.tsx:58 | day numbers follow the Gregorian calendar (month lengths, leap years), and a day past the end of a month rolls over into the next month as `Date` does |
| `Dates.DayNumberOrder` | src/App.tsx:58-65 | within one year, an earlier month, or the same month and an earlier day, gives a smaller day number |
| `Dates.DateOrder` | src/App.tsx:58-65 | across years, an earlier date (year, then month, then day) gives a smaller day number, so the comparator orders parsed dates as `getTime()` does |
| `Dates.DayNumberEpoch` | src/App.tsx:58 | day numbers count days from 1 January 1970, which is day 0, as `getTime()` counts from that midnight |
| `Dates.MarchYearLength` | src/App.tsx:58 | the year from 1 March has 366 days exactly when the February in it is a leap February |
| `Numbers.ParseDecimal` | src/App.tsx:59 | `parseFloat` of `w.f` followed by text that cannot continue a number is the value of `w.f`; the trailing text is ignored |
| `Numbers.ParseInteger` | src/App.tsx:59 | `parseFloat` of digits followed by text that cannot continue a number is the value of the digits |
| `Numbers.ParseSkipsSpace` | src/App.tsx:59 | leading white space does not change what `parseFloat` reads |
| `Numbers.ParseNegative` | src/App.tsx:59 | a leading minus negates the value read after it |
| `Numbers.ParseFloat` | src/App.tsx:59 | `parseFloat` is NaN exactly when no sign-optional `Infinity`, digit or point-digit follows the white space |
| `Numbers.ParseUndefined` | src/App.tsx:59 | `parseFloat(undefined)`, which reads the string "undefined", is NaN |
| `Sorting.Compare` | src/App.tsx:63-69 | the comparator is 0 whenever either date is `null`; otherwise its sign is that of the date difference |
| `Sorting.CompareAntisymmetric` | src/App.tsx:63-69 | swapping the two points negates the comparator |
| `Sorting.Insert` | src/App.tsx:63 | one insertion step adds one point |
| `Sorting.InsertPermutes` | src/App.tsx:63 | one insertion step adds exactly the inserted point |
| `Sorting.InsertNeighbours` | src/App.tsx:63-69 | an insertion keeps every two neighbouring dated points in date order |
| `Sorting.SortByDate` | src/App.tsx:63-69 | the sort gives one point per point, and every two neighbouring points that both have dates are in date order, wherever the `null` dates sit |
| `Sorting.SortPermutes` | src/App.tsx:63 | the sort returns a permutation of its input: the same points, as often as before |
| `Sorting.SortSorted` | src/App.tsx:63-65 | when every point has a date, the sorted points are in non-decreasing date order |
| `Sorting.SortStable` | src/App.tsx:63-69 | the sort is stable: points with the same date, and points without a date, keep their relative order |
| `Sorting.UndatedStays` | src/App.tsx:66-68 | a point without a date keeps its index; the points before it and after it are sorted separately |
| `Sorting.DescendingReversed` | src/App.tsx:63-69 | points whose dates strictly decrease, as the embedded data lists them, come out of the sort reversed |
| `Sorting.InsertInPlace` | src/App.tsx:63-69 | one pass of the in-place sort turns the first `i + 1` array elements into the insertion of `a[i]` into the first `i`, leaving the rest alone |
| `Sorting.SortInPlace` | src/App.tsx:63-69 | the in-place sort leaves the array holding `SortByDate` of its old contents, a permutation of them |
| `Domains.MinDate` | src/App.tsx:71 | `d3.min` of the dates is undefined exactly when no date is present; otherwise it is a date that occurs and is at most every date |
| `Domains.MaxDate` | src/App.tsx:72 | `d3.max` of the dates is undefined exactly when no date is present; otherwise it is a date that occurs and is at least every date |
| `Domains.MaxClose` | src/App.tsx:77 | `d3.max` of the closes is undefined exactly when every close is NaN; otherwise it is a non-NaN close that no close exceeds |
| `Domains.XDomain` | src/App.tsx:71-75 | the time domain is set exactly when some point has a date; it is then `[earliest, latest]` with earliest <= latest, both dates that occur |
| `Domains.YDomain` | src/App.tsx:77-80 | the value domain starts at 0 and ends at the largest close; it is left unset exactly when every close is NaN or the largest number among them is 0 |
| `Domains.MaxCloseIs` | src/App.tsx:77 | when every close is a number, `d3.max` of the closes is the largest of them |
| `Domains.FitScales` | src/App.tsx:71-80 | a scale whose guard fails keeps its previous domain; one whose guard holds gets the computed domain |
| `Domains.DomainsIgnoreOrder` | src/App.tsx:63-80 | the domains depend only on which points there are, not on their order |
| `Domains.LessTotal` | src/App.tsx:77 | numbers other than NaN are totally and strictly ordered by `<`, so the maximum close is well defined |
| `Graph.CreateGraph` | src/App.tsx:47-80 | the pipeline returns the sorted parsed points and the scales fitted to them |
| `Graph.PipelinePoints` | src/App.tsx:47-69 | the pipeline gives newlines-plus-one points, a permutation of the parsed rows, in date order when every date parsed |
| `Graph.PipelineScales` | src/App.tsx:63-80 | fitting the scales after the sort gives the same domains as fitting them before it |
| `Graph.SortedXDomain` | src/App.tsx:63-75 | once every point is dated and in date order, the time domain is the first point's date to the last one's |
| `Graph.EmptyText` | src/App.tsx:47-80 | empty text gives one point with a `null` date and a NaN close, and neither scale is changed |
| `Graph.UntouchedScales` | src/App.tsx:71-80 | points with neither a date nor a number leave both scales as they were |
| `Graph.ExampleValueDomain` | src/App.tsx:77-80 | the closes 58.13, 53.98, 67.00 give the value domain `[0, 67.00]` |
| `DateAmount.Digits` | src/dateAmount.ts:1-16 | the digits printed for a whole number read back as that number |
| `DateAmount.ParseClose` | src/dateAmount.ts:1-16 | a close printed with two decimals is read back by `parseFloat` as its exact value |
| `DateAmount.FirstLine` | src/dateAmount.ts:1 | the first row of the table prints as the first line of the data, `01-May-20,58.13` |
| `DateAmount.LastLine` | src/dateAmount.ts:16 | the last row of the table prints as the last line of the data, `10-Apr-20,628.44` |
| `DateAmount.ParseLine` | src/App.tsx:48-60 | a printed row parses back to its day and its close |
| `DateAmount.ParseTable` | src/App.tsx:47-61 | any table printed one row per line parses back to its rows' points, in order |
| `DateAmount.TableDescending` | src/dateAmount.ts:1-16 | the data lists its days newest first, each a real day of 2020 |
| `DateAmount.DataPoints` | src/App.tsx:47-61 | the data parses to sixteen dated points, newest first |
| `DateAmount.DataSorted` | src/App.tsx:63-69 | the sort reverses the data: sixteen points in date order, from 10 April 2020 (628.44) to 1 May 2020 (58.13) |
| `DateAmount.DataMaxClose` | src/App.tsx:77 | the largest close of the data is 628.44 |
| `DateAmount.TableMaxClose` | src/App.tsx:77 | the points of the table's rows have 628.44 as their largest close |
| `DateAmount.DataScales` | src/App.tsx:71-80 | on the data, the time domain is 10 April to 1 May 2020 and the value domain is `[0, 628.44]` |

## Left out

- SVG canvas, line path, dots, axes and tooltip handlers (`src/App.tsx:82-121`): DOM rendering through d3 selections.
- The pixel mapping of `d3.scaleTime`, `d3.scaleLinear` and `d3.line` (`src/App.tsx:38-45`). Only which domain each scale gets is modelled. `DefaultScales` is the domain d3-scale starts with; d3-scale is not part of this model.
- The React component, `useEffect`, the `async` wrapper and the styled-components styles (`src/App.tsx:9-31`, `src/App.tsx:124-136`, `src/index.tsx`): UI lifecycle, styling and bootstrapping.
- Numbers.ParseFloat: values are exact rationals. IEEE-754 rounding, overflow to `Infinity` (as in `1e400`), underflow to 0 and the sign of `-0` are not modelled. `-0` and `0` are both falsy, so the value-domain guard is unaffected.
- Dates.ParseTwoChars: d3-time-format's `src/locale.js` is not part of this model. The numeric directives follow its `numberRe`, `^\s*\d+`, as that library publishes it; the version the application bundles is not pinned by any file of the repository.
- Dates.ParseDate: local time zones and daylight-saving shifts inside `Date` are not modelled. Day numbers order dates as local-midnight `getTime()` values do.
- Sorting.Compare: returns the difference in days. The source returns it in milliseconds, which has the same sign.
- Sorting.SortInPlace: `Array.prototype.sort` must be stable, but which algorithm it runs is left to the engine, and so is its result under a comparator that is inconsistent, as this one is once a `null` date is present. The model fixes a stable insertion sort. When every date is present, the comparator is a consistent order and any stable sort gives the same result. When a `null` date is present, an engine may order the points differently from `UndatedStays`.
- DateAmount.Data: the template literal of `src/dateAmount.ts:1-16` is built by printing the rows of `Table`, one per line. `FirstLine` and `LastLine` prove that the first and last printed rows match the literal character by character; for the fourteen rows between them, no proof compares the table with the literal.
- Behaviour of the code worth knowing:
  - Empty text gives one point with a `null` date and a NaN close, because `"".split("\n")` is `[""]`.
  - The point count is the number of newlines plus one, empty lines included.
