# Status page builder, modelled in Dafny

The builder turns a JSON log of days into one static HTML page. Each day key has the form `YYYY-MM-DD` and maps to an array of `{ time, message }` entries. The page says whether there is an entry for today and how many:

- `yes`;
- `yes, multiple (n)`;
- `no`;
- `no, it's the weekend`.

It also lists the whole history:

- days newest first;
- each day's entries sorted by time, in place;
- every time printed as a 12-hour clock;
- a version letter (`y`/`n`), which also selects the favicon.

The three texts go into the HTML template's `{{ message }}`, `{{ history }}` and `{{ version }}` placeholders, in that order. Each one replaces the first occurrence of its placeholder.

Modules, in dependency order:

- `Wrappers`: `Option`.
- `Strings`, the JavaScript string operations the builder relies on:
  - character (code-point) order (`localeCompare` on zero-padded `HH:MM` times);
  - `split` and its inverse `Join`;
  - `padStart`;
  - `indexOf`/`includes`;
  - `replace` with a string pattern, both with literal insertion (`ReplaceFirst`) and with the `$`-pattern expansion JavaScript performs (`ReplaceFirstJs`).
- `Decimal`: `Number` on digit strings and `toString` on non-negative integers, read as exact integers (see "## Left out" for where a double differs).
- `Sorting`: `Array.prototype.sort` as an in-place insertion sort on an `array` under a total preorder.
- `Log`: entries and the map from day keys to their arrays.
- `DayKeys`: the newest-first order on keys.
- `Clock`: the 12-hour time of an entry.
- `Message`: `determineMessage` and `determineVersion`, with the favicon choice.
- `History`: `assembleHistory`. It is imperative: a string accumulator over two nested loops, and each day's array sorted in place.
- `Page`: the replace chain and the whole build.

## Model

| member | source | states |
|---|---|---|
| Message.DetermineMessage | src/build.ts:53-79 | more than one entry today gives `yes, multiple (n)` with n in decimal; exactly one gives `yes`; an absent key or an empty array gives `no, it's the weekend` on a Saturday or Sunday and `no` otherwise |
| Message.MessageIdentifiesOutcome | src/build.ts:68-79 | two outcomes give the same message exactly when their counts agree and, when the count is zero, their weekend flags agree |
| Message.MessageIsPlain | src/build.ts:68-79 | no message holds `$` or `{`, so inserting it cannot expand a pattern or create a placeholder |
| Message.DetermineVersion | src/build.ts:133 | the version is `y` or `n`, and `y` exactly when `yes` occurs somewhere in the message |
| Message.VersionReportsEntries | src/build.ts:133-139 | the version of today's message is `y` exactly when today's key is present with at least one entry; the favicon copied is `yes.svg` in that case and `no.svg` otherwise |
| Strings.IndexOf | src/build.ts:133 | a found index is an occurrence with no occurrence before it; none found means no occurrence anywhere |
| Strings.SplitJoin | src/build.ts:113 | splitting fields joined by a separator they do not hold gives back exactly those fields |
| Strings.JoinSplit | src/build.ts:113 | joining the fields of a split on the same separator gives back the string |
| Strings.PadStartShape | src/build.ts:117 | padding gives max(width, length) characters: the fill characters followed by the original text |
| Strings.LexLeTotal | src/build.ts:107-109 | any two times are comparable under character (code-point) order |
| Strings.LexLeTransitive | src/build.ts:107-109 | character (code-point) order is transitive |
| Strings.LexLeAntisymmetric | src/build.ts:107-109 | two strings each at most the other are equal |
| Decimal.ValueOfNatToString | src/build.ts:70 | the decimal text of n is a run of digits that has value n |
| Decimal.NatToStringInjective | src/build.ts:70 | different counts print differently |
| Decimal.NatToStringOfValue | src/build.ts:70 | a digit run without a leading zero is the decimal text of its own value |
| Decimal.DigitsOrderIsLexicographic | src/build.ts:85 | for digit runs of one length, numeric order and character (code-point) order agree, in both directions |
| DayKeys.DateOrderIsLexicographic | src/build.ts:84-86 | on well-formed keys, ordering by calendar value is character (code-point) order on the key strings, both ways |
| DayKeys.DateValueInjective | src/build.ts:84-86 | distinct well-formed keys have distinct calendar values, so newest-first order has no ties between them |
| History.KeyOrderIsTotalPreorder | src/build.ts:84-86 | the newest-first comparison is total and transitive |
| History.EntryOrderIsTotalPreorder | src/build.ts:107-109 | the by-time comparison on entries is total and transitive |
| Sorting.SortBy | src/build.ts:107-109 | after the sort the array is ordered by the comparison and holds the same multiset of elements |
| Sorting.InsertLast | src/build.ts:107-109 | one insertion step leaves the first i+1 elements ordered and the multiset unchanged |
| Sorting.DistinctPermutation | src/build.ts:84 | a permutation of a sequence without repetitions has none |
| History.SortedDayKeys | src/build.ts:84-86 | the keys come out without repetitions, exactly the keys of the log, newest first |
| Clock.HourTextValue | src/build.ts:115-116 | the printed hour is a numeral from 1 to 12 congruent to the hour modulo 12, with no leading zero |
| Clock.MinuteTextValue | src/build.ts:117 | the printed minute has at least two digits and denotes the minute |
| Clock.ReadFields | src/build.ts:116-118 | an `h:mm am`/`h:mm pm` text splits back into its hour, minute and suffix |
| Clock.ReadFormatClock | src/build.ts:113-118 | reading a printed time back gives the hour modulo 12, plus 12 exactly for `pm`, and the minute |
| Clock.TwentyFourHourRoundTrip | src/build.ts:114-118 | for hours 0 to 23 the 12-hour text determines the 24-hour time |
| Clock.FormatTimeRoundTrip | src/build.ts:113-118 | the 12-hour text of a well-formed `HH:MM` time reads back as that hour and minute |
| Clock.FormatWellFormedTime | src/build.ts:113 | a well-formed time is printed from the numbers of its two fields |
| Clock.TimeOrderIsChronological | src/build.ts:107-109 | on well-formed `HH:MM` times, character (code-point) order is time-of-day order, both ways |
| Clock.MidnightIsTwelveAm | src/build.ts:114-115 | hour 0 prints as `12:00 am` |
| Clock.NoonIsTwelvePm | src/build.ts:114-115 | hour 12 prints as `12:00 pm` |
| Clock.AfternoonHasNoLeadingZero | src/build.ts:115-117 | 13:05 prints as `1:05 pm`: no padding on the hour, padding on the minute |
| Clock.MorningKeepsItsHour | src/build.ts:114-115 | hour 10 prints as `10:00 am` |
| Clock.NotANumberHour | src/build.ts:113-115 | an hour field that is not a number prints as `NaN` and falls on the `am` side |
| History.RenderHistory | src/build.ts:88-127 | the history starts with `<ul>\n` and ends with `</ul>\n` |
| History.RenderEmptyHistory | src/build.ts:88-127 | an empty log gives `<ul>\n</ul>\n` |
| History.EntriesHtmlConcat | src/build.ts:111-122 | the lines of two runs of entries are the lines of each, one after the other |
| History.DaysHtmlConcat | src/build.ts:90-125 | the blocks of two runs of days are the blocks of each, one after the other |
| History.DaysHtmlAgree | src/build.ts:106 | a day's block depends only on that day's entries |
| History.ExtendRendering | src/build.ts:90-125 | rendering one more day appends exactly that day's block |
| History.AppendEntries | src/build.ts:111-122 | the inner loop appends one line per entry, in array order |
| History.AppendDay | src/build.ts:103-124 | one day's pass sorts its array in place by time, keeps its elements, and appends heading, lines and close |
| History.RenderNextDay | src/build.ts:90-125 | one outer pass changes only that day's array and appends its block |
| History.RenderDays | src/build.ts:88-127 | after the outer loop every day is sorted with the same elements, and the text is the history of the keys in the order given |
| History.AssembleHistory | src/build.ts:82-130 | days come newest first, each day's array is sorted in place by time with the same elements, and the result is the history of those days in that order |
| Strings.ReplaceFirstAtFirstMatch | src/build.ts:28-31 | a replacement puts the text at the first occurrence, and nothing before it was an occurrence |
| Strings.ReplaceFirstKeepsLater | src/build.ts:28-31 | only the first occurrence is replaced; later occurrences survive, shifted by the change in length |
| Strings.ReplaceFirstAfterFree | src/build.ts:28-31 | for a non-overlapping pattern first met after `a`, the replacement yields `a`, the text, then the rest |
| Page.SubstituteInPlace | src/build.ts:28-31 | a template with each placeholder in order gets message, history and version in their places, provided no placeholder appears earlier in the template or in a text inserted before it |
| Page.SubstituteWithoutSlots | src/build.ts:28-31 | a template without placeholders is left as it is, both with and without `$` expansion |
| Page.AsWrittenWithoutDollar | src/build.ts:28-31 | when the history and the version hold no `$`, the chain with JavaScript's `$` expansion equals literal insertion |
| Page.DollarInHistoryIsExpanded | src/build.ts:30 | a `$&` in the history is replaced by the placeholder text under JavaScript's expansion, and kept under literal insertion |
| Page.DollarHistoryPage | src/build.ts:28-31 | the template `{{ history }}` with history `$&` gives the placeholder itself as written, and `$&` with literal insertion |
| Message.EntryCount | src/build.ts:54-56 | the number of today's entries, 0 when the key is absent; Message.DetermineMessage's ensures states the message for each count |
| Message.IsWeekend | src/build.ts:59-66 | the weekend is Saturday or Sunday; Message.DetermineMessage's ensures states the message it selects when there is no entry |
| Message.FaviconAsset | src/build.ts:135-139 | the yes favicon for version `y`, the no favicon otherwise; stated by Message.VersionReportsEntries |
| DayKeys.DateValue | src/build.ts:85 | the calendar value of a key, YYYYMMDD for a well-formed key; stated by DayKeys.DateOrderIsLexicographic and DayKeys.DateValueInjective |
| DayKeys.NewerOrSame | src/build.ts:84-86 | the newest-first comparison of keys; stated by History.KeyOrderIsTotalPreorder and History.SortedDayKeys |
| History.EarlierOrSame | src/build.ts:107-109 | the by-time comparison of entries; stated by History.EntryOrderIsTotalPreorder and Clock.TimeOrderIsChronological |
| Decimal.ToNumber | src/build.ts:113 | a number exactly for a digit run, NaN otherwise; its value is stated by Clock.FormatWellFormedTime and Decimal.DigitsOrderIsLexicographic |
| Decimal.NatToString | src/build.ts:70 | `toString` of a count (and of a minute, line 117): a non-empty digit run without a leading zero; stated further by Decimal.ValueOfNatToString, Decimal.NatToStringOfValue and Decimal.NatToStringInjective |
| Clock.HourText | src/build.ts:115-116 | the printed hour, `NaN` for NaN; stated by Clock.HourTextValue |
| Clock.MinuteText | src/build.ts:116-117 | the printed minute, padded to two digits, `NaN` for NaN; stated by Clock.MinuteTextValue |
| Clock.Meridiem | src/build.ts:114 | `pm` from hour 12 up, `am` below and for NaN; stated by Clock.ReadFormatClock and Clock.NotANumberHour |
| Strings.Split | src/build.ts:113 | at least one field, and two or more exactly when the separator occurs; stated further by Strings.SplitFieldsFree, Strings.JoinSplit and Strings.SplitJoin |
| Strings.SplitFieldsFree | src/build.ts:113 | no field of a split holds the separator |
| Strings.PadStart | src/build.ts:117 | `padStart` with one fill character; stated by Strings.PadStartShape |
| Strings.LexLe | src/build.ts:108 | the character (code-point) order `localeCompare` gives on zero-padded times; stated by Strings.LexLeTotal, Strings.LexLeTransitive and Strings.LexLeAntisymmetric |
| Strings.Contains | src/build.ts:133 | `includes`: the pattern occurs somewhere; stated by Strings.ContainsIff |
| Strings.ContainsIff | src/build.ts:133 | a string contains a pattern exactly when the pattern occurs at some position |
| Strings.ReplaceFirst | src/build.ts:29-31 | replace with literal insertion: a string without the pattern is unchanged; otherwise stated by Strings.ReplaceFirstAtFirstMatch and Strings.ReplaceFirstKeepsLater |
| History.OneEntryHistory | src/build.ts:88-127 | the history of one day with one entry is the list, day and entry markup around that entry's line |
| Page.OneDollarEntryHistory | src/build.ts:88-127 | the history of one day whose single entry has message `$&` is markup, then `$&`, then markup |
| Page.DollarEntryShowsPlaceholder | src/build.ts:30 | put into a template, the history of that log shows `{{ history }}` where its message was under JavaScript's replace, and the history itself under literal insertion |
| Page.BuildPage | src/build.ts:24-31 | the version is the one `determineVersion` gives for today's message: `y` when today has an entry and `n` otherwise; the favicon goes with the version; the days are sorted newest first and each day by time; the output is the template filled in by JavaScript's replace chain (with `$` expansion) with the message, the history and the version, and when no heading and no entry message holds `$` it equals literal insertion |
| Page.PlainPage | src/build.ts:28-31 | without `$` in the headings and the entry messages, the replace chain as written gives the page of literal insertion |
| Page.Substitute | src/build.ts:28-31 | the three first-occurrence replacements with literal insertion, in the order message, history, version; what it gives is stated by Page.SubstituteInPlace and Page.SubstituteWithoutSlots |
| Page.SubstituteAsWritten | src/build.ts:28-31 | the same three replacements as JavaScript evaluates them, `$` patterns expanded; stated by Page.AsWrittenWithoutDollar, Page.DollarInHistoryIsExpanded and Page.DollarHistoryPage |
| Strings.ReplaceFirstJs | src/build.ts:29-31 | a string without the pattern is left unchanged; otherwise the expanded replacement lands at the first occurrence (Strings.ReplaceFirstJsAfterFree) |
| Strings.Expand | src/build.ts:29-31 | the replacement-pattern expansion of a string replacement: `$$`, `$&`, `` $` ``, `$'`; stated by Strings.ExpandWithoutDollar and Strings.ExpandMatchedText |
| Strings.ExpandWithoutDollar | src/build.ts:29-31 | a replacement without `$` is inserted literally |
| Strings.ExpandMatchedText | src/build.ts:30 | a `$&` between `$`-free texts brings back the matched text |
| Strings.ReplaceFirstJsAfterFree | src/build.ts:29-31 | for a non-overlapping pattern first met after `a`, JavaScript's replace yields `a`, the expanded replacement, then the rest |
| Strings.ReplaceFirstJsWithoutDollar | src/build.ts:29-31 | with no `$` in the replacement, JavaScript's replace and literal insertion agree |
| Message.SelectMessage | src/build.ts:68-79 | the four answers in priority order from the count and the weekend flag; stated by Message.DetermineMessage, Message.MessageIdentifiesOutcome and Message.MessageIsPlain |
| Clock.FormatClock | src/build.ts:114-118 | the 12-hour text `h:mm am`/`h:mm pm` of a numeric hour and minute; stated by Clock.ReadFormatClock, Clock.HourTextValue, Clock.MinuteTextValue and the fixed examples |
| Clock.FormatTime | src/build.ts:113-118 | the 12-hour text of an entry time after splitting on `:` and reading both fields as numbers; stated by Clock.FormatTimeRoundTrip, Clock.FormatWellFormedTime and Clock.FormatTimeIsPlain |
| Clock.FormatClockIsPlain | src/build.ts:114-118 | a printed time holds no `$`, whatever the hour and minute, NaN included |
| Clock.FormatTimeIsPlain | src/build.ts:113-118 | no entry time prints with a `$` |
| History.EntryLine | src/build.ts:120-121 | one entry's list item: the printed time in bold, then the message; its lines add up as stated by History.EntriesHtmlConcat |
| History.DayBlock | src/build.ts:103-124 | one day's heading, its entry lines and the closing tags; History.AppendDay and History.ExtendRendering state that the loop appends exactly this |
| History.DaysHtml | src/build.ts:90-125 | one block per day in the order given; stated by History.DaysHtmlConcat and History.DaysHtmlAgree |
| History.EntriesHtmlIsPlain | src/build.ts:111-122 | entry lines hold no `$` when no message does and the clock prints none |
| History.DaysHtmlIsPlain | src/build.ts:90-125 | day blocks hold no `$` when no heading, no message and no printed time does |
| History.RenderHistoryIsPlain | src/build.ts:88-127 | the history holds no `$` when no heading, no message and no printed time does |

## Left out

- File system I/O: the working directory, the `../www` directory, reading the template, writing `index.html`, copying the stylesheet and the favicon. The template is an input. `Message.FaviconAsset` gives the path of the favicon that would be copied.
- `async`/`await` and the JSON import: the log is the `days` map of arrays.
- The log's `timezone` field, `Date`, and `Intl.DateTimeFormat`. Today's key and today's weekday name (lines 39-51 and 60-63) are inputs of `DetermineMessage` and `BuildPage`.
- The day heading (`toLocaleDateString(...).toLowerCase()`, lines 92-101): the function `heading`, because locale data is not modelled.
- History.AssembleHistory: the 12-hour clock is a parameter, `clock`. `BuildPage` passes `Clock.FormatTime`, whose own lemmas state what it prints.
- DayKeys.DateValue: a key that is not `YYYY-MM-DD` goes to the engine's own fallback date parser. That parser accepts forms such as `2024/01/05` or `2024-1-5` and gives NaN for others, and the key sorts where that implementation-defined parse puts it. The model gives every such key the value 0, so it sorts last.
- DayKeys.DateValue: for well-formed keys the model compares the number YYYYMMDD and does not check that the date exists in the calendar.
- Decimal.ToNumber: `Number` is modelled only on plain digit runs; the empty string is 0, as in JavaScript. Anything else is NaN, so signs, spaces, fractions and exponents are not modelled.
- Decimal.ToNumber: a digit run is read as an exact integer, while JavaScript's `Number` is a double. Above 2^53 the double loses precision; for example, hour `99999999999999999999` rounds to 1e20 and prints hour 4 where the model prints 3. This is not modelled.
- Decimal.NatToString: prints plain decimal, while JavaScript prints values from 1e21 up in exponent form (a minute field `1000000000000000000000` prints as `1e+21`). This is not modelled; the count of a day's entries and real clock fields are far below that.
- History.AssembleHistory: a time without `:` makes the source throw a TypeError (`toString` of `undefined`). The model requires every time to have a `:`.
- Sorting.SortBy: states sortedness and the permutation, not stability. The insertion sort is stable, and engines' `Array.prototype.sort` is stable too.
- History.EarlierOrSame: `localeCompare` is modelled as character (code-point) order. For zero-padded `HH:MM` times the two agree. Locale collation of other strings is not modelled.
- Log.SeparateArrays: every day has its own array, as parsing JSON gives. Shared arrays between days are not modelled.

## Findings

| source | as written | input that shows it | evidently intended | confidence | as-written member | corrected member |
|---|---|---|---|---|---|---|
| src/build.ts:28-31 | `String.prototype.replace` with a string replacement expands `$&`, `` $` ``, `$'` and `$$` in the inserted history | a log of one day whose one entry has the message `$&`: the page shows `{{ history }}` inside that entry's list item | the history inserted literally | medium; not executed | Page.SubstituteAsWritten, Page.DollarEntryShowsPlaceholder, Page.DollarHistoryPage | Page.Substitute, Page.SubstituteInPlace |

`Page.BuildPage` computes the page as written, with `Page.SubstituteAsWritten`. Its last ensures, proved by `Page.PlainPage`, says when that page is the corrected one: whenever no heading and no entry message holds a `$`.
