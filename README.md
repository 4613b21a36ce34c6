# Curseiro front-end logic, modelled in Dafny

Curseiro is a React front-end that lists public-service competitions (*concursos*) and the
published stages (*etapas*) of each one. This project models the three pieces of sequential
logic in the front-end and proves what they compute.

- **The competition list** (`Home`). `filteredConcursos` keeps the competitions that pass four
  filters and then sorts them stably with the comparator that the `sortBy` key selects. The
  four filters are a case-insensitive name search, an exact status, and an inclusive minimum
  and maximum on the top salary. `handleFilterChange` rewrites one field of the filter state.
- **The stages of one competition** (`ConcursoDetails`):
  - `filteredEtapas` filters the stages by section, by a case-insensitive search on the stage
    name, and by inclusive first and last dates.
  - The `etapasPorSecao` reduce groups the filtered stages by section. It is modelled as a
    loop over a dictionary of sequences whose keys are kept in creation order.
  - `uniqueSecoes` is the sorted list of distinct sections of all stages.
- **The stage calendar** (`Calendar`):
  - month lengths and the weekday of the first of a month;
  - month stepping with year carry;
  - the grid of blank and day cells;
  - the stages of a day, and the list view with the month's stages in date order;
  - the 24-month selector;
  - the component state (shown month, view, selected day), modelled as a class whose handler
    methods update it.

The JavaScript built-ins these rely on are modelled in their own modules:

- `Sequences`: `Array.prototype.filter`, and the first-occurrence order of a `Set`.
- `Sorting`: the stable `Array.prototype.sort`, as an insertion sort.
- `Text`: `toLowerCase`, `includes`, string order, and `Number` on a filter's text.
- `Dates`: day numbers on the proleptic Gregorian calendar, weekdays, the carry of
  `new Date(y, m, 1)`, and parsing and formatting the `YYYY-MM-DD` text of a date input.

Where the code and its description disagree, the model follows the code:

- A salary bound that is not a number becomes `NaN`. Every comparison with `NaN` is false, so
  such a bound removes every competition; it is not ignored.
- Neither the board filter nor a sort-direction toggle exists in the code.

## Model

| member | source | states |
|---|---|---|
| Home.HandleFilterChange | src/pages/Home.tsx:39-41 | The named field becomes the new value and every other field keeps its value. A name the state does not hold changes nothing. |
| Home.FilterConcursos | src/pages/Home.tsx:49-57 | The result is an order-preserving subsequence of the input. Every element passes all four filters. Every passing input element is kept, with its multiplicity, and every failing one is dropped. |
| Home.SearchIgnoresCase | src/pages/Home.tsx:51 | An empty query matches every name, the query's case makes no difference, and any substring of the name matches. |
| Home.SalaryBoundsInclusive | src/pages/Home.tsx:53-54 | An integer typed as a bound keeps exactly the salaries `>=` it (minimum) or `<=` it (maximum). |
| Home.MinAboveMaxIsEmpty | src/pages/Home.tsx:53-54 | Two numeric bounds, the minimum above the maximum, leave an empty list, decimals included. |
| Home.DecimalBoundExact | src/pages/Home.tsx:53-54 | The decimal bound "1500.5" keeps salaries from 1501 as a minimum and up to 1500 as a maximum. |
| Home.ExponentBoundExact | src/pages/Home.tsx:53 | The exponent bound "1e3" keeps salaries from 1000 as a minimum. |
| Home.NonNumericBoundIsEmpty | src/pages/Home.tsx:53-54 | A non-empty bound that is not a number leaves an empty list. |
| Home.ComparatorIsConsistent | src/pages/Home.tsx:58-71 | Every sort key selects a consistent comparator: swapping the arguments flips the sign, and "no later than" is transitive. |
| Home.SortConcursos | src/pages/Home.tsx:58-71 | The sort returns a permutation of its input. |
| Home.FilteredConcursos | src/pages/Home.tsx:49-71 | Each competition occurs in the page's list as often as in the input when it passes the filters, and otherwise not at all. |
| Home.FilteredConcursosOrdered | src/pages/Home.tsx:58-71 | The list is sorted by the chosen comparator. Competitions that the comparator ties keep their filtered order. |
| Home.SortByNome | src/pages/Home.tsx:60-61 | Sorting by "nome" gives names in ascending string order. |
| Home.SortByVagas | src/pages/Home.tsx:62-63 | Sorting by "vagas" gives non-increasing position counts. |
| Home.SortBySalario | src/pages/Home.tsx:64-65 | Sorting by "salario" gives non-increasing top salaries. |
| Home.SortByStatus | src/pages/Home.tsx:66-67 | Sorting by "status" gives statuses in ascending string order. |
| Home.SortByUnknownKey | src/pages/Home.tsx:68-69 | An empty or unknown key returns the filtered list unchanged. |
| Home.InitialFiltersShowAll | src/pages/Home.tsx:11-17 | With the initial, all-empty filters the page lists every loaded competition in load order. |
| Home.StatusFilterPair | src/pages/Home.tsx:52 | Of two competitions, a non-empty status filter keeps exactly the one whose status equals it. |
| Home.SalarySortPair | src/pages/Home.tsx:64-65 | Sorting by "salario" swaps two competitions listed with the lower maximum salary first. |
| ConcursoDetails.HandleFilterChange | src/pages/ConcursoDetails.tsx:56-58 | Only the named stage-filter field changes, and it becomes the new value. |
| ConcursoDetails.FilterEtapas | src/pages/ConcursoDetails.tsx:66-73 | The result is an order-preserving subsequence of the stages. Every element passes the section, name and date checks, and every passing stage is kept with its multiplicity. |
| ConcursoDetails.InitialFiltersShowAll | src/pages/ConcursoDetails.tsx:67-70 | With all four fields empty the filtered stages equal the input. |
| ConcursoDetails.DateBoundsInclusive | src/pages/ConcursoDetails.tsx:69-70 | A date typed as the first date keeps exactly the stages published on or after it in calendar order. As the last date it keeps those published on or before it. A stage dated exactly on a bound is kept. |
| ConcursoDetails.InvalidDateBoundIsEmpty | src/pages/ConcursoDetails.tsx:69-70 | A non-empty bound that is not a date leaves no stage. |
| ConcursoDetails.SectionsStep | src/pages/ConcursoDetails.tsx:76-78 | One reduce step adds a stage's section to the key list exactly when no earlier stage had that section. |
| ConcursoDetails.CreateStep | src/pages/ConcursoDetails.tsx:76-79 | A new section's group holds exactly the one stage, which is all the stages seen so far in that section. |
| ConcursoDetails.PushStep | src/pages/ConcursoDetails.tsx:79 | Pushing onto an existing group keeps each group equal to the stages seen so far in its section. |
| ConcursoDetails.GroupBySecao | src/pages/ConcursoDetails.tsx:75-81 | The keys are the distinct sections, in first-occurrence order. Each group is exactly the stages of its section, in input order. |
| ConcursoDetails.GroupsHaveTheirSecao | src/pages/ConcursoDetails.tsx:75-81 | Every stage in the group of a section belongs to that section. |
| ConcursoDetails.GroupSizesSum | src/pages/ConcursoDetails.tsx:75-81 | The group sizes add up to the number of grouped stages, so the groups partition them. |
| ConcursoDetails.EtapasPorSecao | src/pages/ConcursoDetails.tsx:66-81 | Over the filtered stages: the keys are the distinct sections in first-occurrence order, and every grouped stage is in its key's section and passes the filters. The sizes sum to the filtered count. Each group is the filtered stages of its section. |
| ConcursoDetails.StringOrderIsConsistent | src/pages/ConcursoDetails.tsx:83 | The default string order used by `.sort()` is a consistent comparator. |
| ConcursoDetails.UniqueSecoes | src/pages/ConcursoDetails.tsx:83 | The section list is strictly ascending, so it has no duplicates. It holds exactly the sections of the unfiltered stages. |
| ConcursoDetails.GroupsAreOffered | src/pages/ConcursoDetails.tsx:75-83 | The section of every group of the filtered stages is one the section filter offers. |
| ConcursoDetails.ReduceAsWrittenBehaviour | src/pages/ConcursoDetails.tsx:75-81 | The reduce over `{}` throws exactly when some section is a property name inherited from `Object.prototype`. Otherwise it builds the same groups as GroupBySecao. |
| ConcursoDetails.ToStringSecaoThrows | src/pages/ConcursoDetails.tsx:75-81 | A single stage in a section named "toString" makes the reduce over `{}` throw, although that section has a non-empty group. |
| Calendar.GetDaysInMonth | src/components/Calendar.tsx:21-23 | The result lies in 28..31, and February has 29 days exactly in Gregorian leap years. It is the last valid day of the month, and the day after it is the first of the next month. |
| Calendar.GetFirstDayOfMonth | src/components/Calendar.tsx:25-27 | The weekday of the first of the month, in 0..6 with 0 = Sunday. |
| Calendar.NextGridStart | src/components/Calendar.tsx:21-27 | The next month's first weekday is this month's first weekday plus its length, modulo 7. |
| Calendar.EtapasForDate | src/components/Calendar.tsx:29-36 | Exactly the stages with the same day, month and year, each as often as in the input, as an order-preserving subsequence of the input. |
| Calendar.ShiftMonth | src/components/Calendar.tsx:38-41 | The result is the first of a month, exactly `increment` months from the shown month. |
| Calendar.ShiftMonthForward | src/components/Calendar.tsx:38-41 | One step forward from December gives January of the next year; from any other month it gives the next month of the same year. |
| Calendar.ShiftMonthBackward | src/components/Calendar.tsx:38-41 | One step back from January gives December of the previous year; from any other month it gives the previous month of the same year. |
| Calendar.ShiftMonthInverse | src/components/Calendar.tsx:38-41 | Stepping `k` months and then `-k` months returns to the first of the original month. |
| Calendar.CalendarState.constructor | src/components/Calendar.tsx:11-13 | The component opens on today, in the calendar view, with no day selected. |
| Calendar.CalendarState.ChangeMonth | src/components/Calendar.tsx:38-41 | The shown month moves by `increment` months with year carry, the selection is cleared, the view is unchanged, and the state invariant holds. |
| Calendar.CalendarState.RenderCalendarDays | src/components/Calendar.tsx:43-82 | The grid has firstDay blank cells, then exactly daysInMonth day cells numbered 1..daysInMonth. Each day cell is marked when its day has stages and when it is the selected day. The grid has at most 37 cells. |
| Calendar.CalendarState.RenderDays | src/components/Calendar.tsx:54-79 | The day loop keeps the cells it was given and appends exactly daysInMonth cells, the cell of day d in position d after them. |
| Calendar.CalendarState.RenderDay | src/components/Calendar.tsx:55-62 | The cell of one day is marked as having stages exactly when some stage falls on that date, and as selected exactly when that date is the selected day. |
| Calendar.CalendarState.ClickDay | src/components/Calendar.tsx:66 | A click selects the day only when the day has stages, and otherwise changes nothing. |
| Calendar.EtapasInMonth | src/components/Calendar.tsx:84-89 | Exactly the stages of the shown month and year, in input order, each kept with its multiplicity. |
| Calendar.ByDateIsConsistent | src/components/Calendar.tsx:227 | The publication-time difference is a consistent comparator. |
| Calendar.ListStages | src/components/Calendar.tsx:227 | The list view holds a permutation of the month's stages. |
| Calendar.ListStagesOrdered | src/components/Calendar.tsx:84-89 | The list view shows exactly the stages of the shown month, by date ascending. Stages of the same day keep their input order. |
| Calendar.CalendarState.ShownEtapas | src/components/Calendar.tsx:84-92 | The list view shows the month's stages. The calendar view with no selected day shows nothing, and with a selected day it shows only stages of that day. |
| Calendar.CalendarState.SelectedDayShowsStages | src/components/Calendar.tsx:84-92 | Under the state invariant, a selected day shows its own non-empty list of stages. |
| Calendar.CalendarState.ShowCalendar | src/components/Calendar.tsx:103-106 | The view becomes the calendar, the selection is cleared, and the month is kept. |
| Calendar.CalendarState.ShowList | src/components/Calendar.tsx:116-119 | The view becomes the list, the selection is cleared, and the month is kept. |
| Calendar.CalendarState.SelectMonth | src/components/Calendar.tsx:158-162 | Choosing an option shows the first of that month and clears the selection. |
| Calendar.MonthOptions | src/components/Calendar.tsx:165-173 | There are 24 options; option `i` is the first of the month `i - 6` months from today's month. |
| Calendar.MonthOptionsWindow | src/components/Calendar.tsx:165-167 | The seventh option is the current month and each option is one month after the previous. The window runs from 6 months before to 17 months after, and no option repeats. |
| Dates.DaysInMonth | src/components/Calendar.tsx:21-23 | A month has 28 to 31 days. February has 29 exactly in leap years, and every other month has 30 or 31. |
| Dates.LastDayPrecedesNextMonth | src/components/Calendar.tsx:22 | Day 0 of the next month, which is what `new Date(y, m + 1, 0)` builds, is the last day of month `m`, one day before the first of the next month. |
| Dates.FirstOfMonth | src/components/Calendar.tsx:39 | `new Date(y, m, 1)` gives the first of a month, `y * 12 + m` months from year 0. A month in 0..11 is kept as it is. |
| Dates.NextMonthWeekday | src/components/Calendar.tsx:25-27 | The first of the next month falls on the weekday that follows the last day of this month. |
| Dates.EpochIsThursday | src/components/Calendar.tsx:15 | Day zero of the time value, 1 January 1970, is a Thursday in the Sunday-first numbering of the weekday header. |
| Dates.KnownWeekdays | src/components/Calendar.tsx:15 | 1 January 2000 is day 6 (Saturday) and 29 February 2024 is day 4 (Thursday) in that numbering. |
| Dates.YearLength | src/components/Calendar.tsx:21-23 | Consecutive New Year's days are one year's length apart. |
| Dates.DayNumberOrder | src/pages/ConcursoDetails.tsx:69-70 | For valid dates, comparing day numbers (as `Date` objects compare) is calendar order, and equal day numbers mean the same date. |
| Dates.ParseFormat | src/pages/ConcursoDetails.tsx:69-70 | Parsing the `YYYY-MM-DD` text of a valid date gives that date back. |
| Dates.FormatParse | src/pages/ConcursoDetails.tsx:69-70 | Any text that parses to a date is that date's `YYYY-MM-DD` text, and the date is valid. |
| Text.ToLower | src/pages/Home.tsx:51 | Lower-casing keeps the length and lowers each character independently. |
| Text.ToLowerIdempotent | src/pages/Home.tsx:51 | Lower-casing twice is the same as lower-casing once. |
| Text.ContainsAt | src/pages/Home.tsx:51 | `includes` holds exactly when the needle occurs at some position. |
| Text.ContainsLower | src/pages/Home.tsx:51 | A substring stays a substring after both strings are lower-cased. |
| Text.LexCompareZero | src/pages/Home.tsx:61 | The string order ties only equal strings. |
| Text.LexCompareFlip | src/pages/Home.tsx:61 | Swapping the arguments of the string order flips its sign. |
| Text.LexCompareTransitive | src/pages/Home.tsx:67 | "No later than" in the string order is transitive. |
| Text.NumberOfRendering | src/pages/Home.tsx:53-54 | `Number` reads back any integer written in decimal, as that integer. |
| Text.DigitsNumber | src/pages/Home.tsx:53-54 | A string of digits reads as the integer it writes. |
| Text.PointNumber | src/pages/Home.tsx:53-54 | Digits, a point and digits read as the exact fraction: the digits without the point over ten to the number of decimals. |
| Text.ExponentNumber | src/pages/Home.tsx:53-54 | Digits, `e` and digits read as the first integer times ten to the second. |
| Text.NotNumbers | src/pages/Home.tsx:53-54 | Text that is not a decimal literal ("abc", ".", "1e", "-") reads as NaN. |
| Text.NoIntegerBetween | src/pages/Home.tsx:53-54 | No integer is at or above one decimal and at or below a smaller one. |
| Sequences.FilterMembers | src/pages/Home.tsx:50-57 | The filter returns only elements of the input that satisfy the predicate, and every satisfying element. |
| Sequences.FilterCount | src/pages/Home.tsx:50-57 | The filter keeps each satisfying element with its multiplicity and drops the others. |
| Sequences.FilterIsSubsequence | src/pages/Home.tsx:50-57 | The filter keeps the input's relative order. |
| Sequences.Distinct | src/pages/ConcursoDetails.tsx:83 | The `Set` built from a sequence has no duplicates and holds exactly the sequence's elements. |
| Sequences.DistinctOrder | src/pages/ConcursoDetails.tsx:83 | The `Set` iterates its elements in the order of their first occurrence. |
| Sorting.Sort | src/pages/Home.tsx:58 | The sort returns a permutation of its input. |
| Sorting.SortSorted | src/pages/Home.tsx:58 | Under a consistent comparator the output is sorted. |
| Sorting.SortStable | src/pages/Home.tsx:58 | For every key, the elements tied with it appear in the output in their input order. |
| Sorting.SortAllTied | src/pages/Home.tsx:68-69 | A comparator that ties everything leaves the order unchanged. |
| Sorting.SortPair | src/pages/Home.tsx:58 | Of two elements, the sort swaps them exactly when the comparator puts the second strictly first. |

## Left out

- Loading data from the remote database, the theme toggle and its storage, routing, and all
  markup are not modelled. The loaded lists are inputs. The query's date order of the stages
  is not assumed anywhere.
- Home.HandleFilterChange: in the code an unknown control name, such as the board select's
  "banca", adds a key that no filter reads. The model holds only the five fields the filter
  reads, so it leaves them all unchanged.
- ConcursoDetails.HandleFilterChange: in the code an unknown control name adds a key that no
  filter reads. The stage filter form sends only the four names the state holds, and the model
  leaves all four fields unchanged for any other name.
- There is no board filter, because the filter state has no board field and no board predicate.
- Text.LexCompare: `localeCompare` and the default order of `.sort()` are modelled as
  character-code order; locale collation is a foreign service.
- Text.ToLower: lowers ASCII and Latin-1 capitals only, which cover Portuguese text. Other
  scripts keep their case.
- Text.ToNumber: reads the empty text as 0 and an optional sign followed by a decimal literal
  (digits, an optional point and digits, an optional exponent) as its exact value, without the
  rounding to a double. Surrounding blanks, `Infinity` and hexadecimal, octal or binary
  literals, which `Number` also accepts, read as NaN here; a number input never holds them.
  Salaries and position counts are integers.
- Home.NonNumericBoundIsEmpty: the text it counts as not a number includes the blank-padded,
  `Infinity` and radix-prefixed text that `Number` reads as a number; a number input never
  holds such text.
- Dates.ParseIsoDate: reads only the `YYYY-MM-DD` text that a date input produces. The other
  formats `new Date(text)` accepts are not modelled.
- Dates are (year, month, day) triples. Stage dates are parsed as UTC while the calendar reads
  local-time components; that time-zone shift is not modelled.
- Dates.FirstOfMonth: `new Date(y, m, 1)` maps the years 0..99 to 1900..1999; the model keeps
  the year as given.
- Calendar.MonthOptions: `setMonth` on today's date rolls over when today is the 29th to 31st
  and the target month is shorter. The model gives the exact target month.
- ConcursoDetails.GroupBySecao: `Object.entries` lists integer-like keys first. The model keeps
  every key in creation order.
- Calendar.CalendarState.ClickDay: it requires the calendar view, because day cells exist only
  there.
- Number and date rendering (`Intl.NumberFormat`, `toLocaleDateString`), the month names, and
  the calendar's open and close handlers are presentation and are not modelled.

## Findings

| source | as written | input that shows it | evidently intended | confidence | as-written member | corrected member |
|---|---|---|---|---|---|---|
| src/pages/ConcursoDetails.tsx:75-81 | The reduce starts from `{}`, so `acc[secao]` also finds the properties inherited from `Object.prototype`. For such a name the test `!acc[secao]` fails, no array is created, and `.push` on the inherited value throws a TypeError. | A stage whose section is "toString" (or "constructor", "valueOf", "__proto__", …) | Every section gets its own group, whatever its label | not executed; follows from the JavaScript property lookup rules, but such section labels are unlikely in practice | ConcursoDetails.ToStringSecaoThrows | ConcursoDetails.GroupBySecao |
