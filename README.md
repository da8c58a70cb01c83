# Personal-finance ledger, modelled in Dafny

The ledger keeps deposits and payments as lines of a flat file, one
`Transaction` per line. A transaction has five fields: date, time,
description, vendor and a signed amount. `toCSV` joins them with the delimiter `|`.
Loading splits each line on the delimiter and keeps the lines with exactly five fields.
The ledger screen sorts the loaded list newest first by the text
`date + time`. The screen also offers:

- deposits-only and payments-only views;
- month and year reports relative to today;
- a case-insensitive vendor search.

This project models that core. It proves:

- the storage round trip;
- how the storage format fails when a field contains the delimiter;
- how a load fails;
- the contracts of every view;
- the sort;
- that, for ISO dates and times, the text order of the sort is the chronological order.

Modules, one per file:

- `Wrappers`: `Option` and `Result`.
- `JavaStrings`: the `java.lang.String` operations the program relies on. They are:
  - `split("\\|")`, which drops trailing empty strings;
  - `String.join`;
  - `compareTo`, which returns the difference of the first differing characters or of the lengths;
  - `trim`, which removes code units up to U+0020;
  - ASCII `toLowerCase`/`toUpperCase`;
  - `contains`.
- `Decimal`: digit strings, zero-padded numbers, and how `compareTo` orders them.
- `Amounts`: the amount, as a whole number of cents. It covers:
  - `String.valueOf(double)` for cent values (`150.0`, `12.5`, `-3.05`);
  - `%.2f`;
  - `Double.parseDouble` on plain decimal texts.
- `Transactions`: the record, `toCSV` (`ToCsv`) and `toString` (`Display`).
  The record is a datatype. Its destructors are the getters, and nothing can change a record after it is built.
- `Storage`: `loadTransactions` as the pure `Load` and as the loop method `LoadTransactions`. Also the append of `writeTransactionToFile`, and `recordTransaction` as `Record`.
- `Sequences`: the order-preserving `Filter` behind every `stream().filter(...)` and the `Subsequence` relation.
- `Calendar`:
  - `LocalDate.parse` for `YYYY-MM-DD` (ISO 8601:2004, section 4.1.2.2);
  - the `HH:MM:SS` time of day (ISO 8601:2004, section 4.2.2.2);
  - `YearMonth.minusMonths(1)`;
  - a count of seconds since 0000-01-01T00:00:00, which defines chronological order independently of the text.
- `Queries`: `filterTransactions`, the vendor search, `filterByMonth` and `filterByYear`. "Today" is a parameter.
- `Recency`: the in-place sort of line 70, as an insertion sort on an `array` that takes the comparator as a parameter (as `List.sort` does), and the ledger screen's load-then-sort.
- `Menus`: the three menus as a transition function from a screen and an input line to the next screen and an action.

A five-field line whose amount is not a number does not get skipped.
`Double.parseDouble` throws there, and only `IOException` is caught, so the
whole load fails. The model follows the code: `Load` returns
`Err(MalformedAmount(line, text))` for the first such line. In the same way,
a date that `LocalDate.parse` rejects fails the whole month or year report.

## Model

| member | source | states |
|---|---|---|
| Transactions.ToCsv | src/main/java/Transaction.java:38-40 | definition: the five storage fields joined by the delimiter; its properties are stated by CsvSplitRoundTrip, CsvPieces and CsvDelimiterCount |
| Transactions.Display | src/main/java/Transaction.java:35-37 | definition: the five fields with the two-decimal amount, joined by a blank, the delimiter and a blank; DisplayFields states how it splits |
| Transactions.CsvSplitRoundTrip | src/main/java/Transaction.java:38-40 | if no text field contains the delimiter, splitting `toCSV` as the load does yields exactly the five fields in order: date, time, description, vendor, amount text |
| Transactions.CsvHasFourDelimiters | src/main/java/Transaction.java:39 | if no text field contains the delimiter, the storage line holds exactly four delimiters |
| Transactions.CsvDelimiterCount | src/main/java/Transaction.java:39 | a storage line holds four delimiters more than its text fields hold together |
| Transactions.CsvSplitLength | src/main/java/Transaction.java:39 | splitting a storage line gives 5 fields plus one more for each delimiter inside the text fields |
| Transactions.CsvPieces | src/main/java/Transaction.java:39 | the pieces of a storage line are the pieces of each text field in order, then the amount text |
| Transactions.CsvIsLine | src/main/java/Transaction.java:39 | a transaction whose text fields hold no line terminator has a storage line without one, so it is one line of the file |
| Transactions.PiecesOfFive | src/main/java/Transaction.java:39 | five fields joined by a separator the last one lacks split into the pieces of the first four, then the last |
| Transactions.DisplayFields | src/main/java/Transaction.java:36 | `toString` shows date, time, description, vendor and the two-decimal amount in that order, separated by a blank, the delimiter and a blank |
| Amounts.AmountText | src/main/java/Transaction.java:39 | definition: `String.valueOf` of the amount, with at least one fraction digit and no trailing zero; AmountTextRoundTrip and AmountTextIsField state its properties |
| Amounts.FixedText | src/main/java/Transaction.java:36 | definition: the `%.2f` rendering; FixedTextRoundTrip and FixedTextIsField state its properties |
| Amounts.ParseAmount | src/main/java/LedgerApp.java:195 | definition: `Double.parseDouble` on a trimmed, optionally signed decimal with at most two fraction digits, `None` where it throws; the round-trip lemmas state what it reads |
| Amounts.AmountTextRoundTrip | src/main/java/Transaction.java:39 | the amount text written by `toCSV` parses back to the same amount |
| Amounts.AmountTextIsField | src/main/java/Transaction.java:39 | the amount text is never empty and never contains the delimiter, so it is never a dropped trailing field |
| Amounts.FixedTextRoundTrip | src/main/java/Transaction.java:36 | the two-decimal rendering of `toString` also parses back to the amount |
| Amounts.ParseAmountOfRendering | src/main/java/LedgerApp.java:195 | an optional minus sign, whole digits, a point and one or two fraction digits parse to the value they denote |
| Amounts.ParseAmountOfSigned | src/main/java/LedgerApp.java:195 | an optional minus sign before any unsigned decimal that ParseUnsigned accepts (including `5.` and `.5`) parses to the value, negated after a minus |
| Amounts.ParseUnsignedOfText | src/main/java/LedgerApp.java:195 | digits, a point and one or two fraction digits parse to whole * 100 + fraction cents |
| JavaStrings.Join | src/main/java/Transaction.java:39 | definition: `String.join`, the fields with the separator between neighbours; SplitOfJoin states that splitting inverts it |
| JavaStrings.Split | src/main/java/LedgerApp.java:193 | definition: the pieces between delimiters with trailing empty pieces dropped, or the whole text when it has no delimiter; SplitOfJoin and DropTrailingEmpty state its properties |
| JavaStrings.CompareTo | src/main/java/LedgerApp.java:70 | definition: the difference of the first differing characters, else of the lengths; the CompareTo lemmas state that it is an antisymmetric, transitive order |
| JavaStrings.Trim | src/main/java/LedgerApp.java:25 | the result neither starts nor ends with a code unit up to U+0020, and it sits inside the input with only such code units around it |
| JavaStrings.TrimAddsNothing | src/main/java/LedgerApp.java:48-57 | a character absent from a text is absent from its trimmed form |
| JavaStrings.TrimOfSurrounded | src/main/java/LedgerApp.java:25 | any run of code units up to U+0020 before and after a text is removed again by trimming |
| JavaStrings.ToLower | src/main/java/LedgerApp.java:141 | definition: ASCII lower-casing, character by character; LowerIgnoresCase and TrimOfCase state its properties |
| JavaStrings.ToUpper | src/main/java/LedgerApp.java:25 | definition: ASCII upper-casing, character by character; UpperIgnoresCase and TrimOfCase state its properties |
| JavaStrings.Contains | src/main/java/LedgerApp.java:143 | definition: the keyword is a prefix of some suffix; ContainsIff states it as an occurrence at a position |
| JavaStrings.SplitOfJoin | src/main/java/LedgerApp.java:193 | splitting the delimiter-join of separator-free fields, the last one non-empty, gives back those fields |
| JavaStrings.PiecesCount | src/main/java/LedgerApp.java:193 | a text splits into one more piece than it has separators, and no piece contains the separator |
| JavaStrings.JoinOfPieces | src/main/java/LedgerApp.java:193 | joining the pieces of a text with the separator gives back the text |
| JavaStrings.DropTrailingEmpty | src/main/java/LedgerApp.java:193 | the fields `split` keeps are a prefix of the pieces; it ends in a non-empty field and only empty pieces are dropped |
| Storage.ParseLine | src/main/java/LedgerApp.java:193-196 | definition: a line is skipped unless it splits into five fields, then it is the record or the amount text that does not parse; ParseLineOfCsv and ParseLineOfCollidingCsv state its properties |
| Storage.Load | src/main/java/LedgerApp.java:188-198 | a successful load never yields more transactions than the file has lines |
| Storage.LoadTransactions | src/main/java/LedgerApp.java:188-203 | the reading loop computes `Load` of the file's lines; a missing file gives the empty list |
| Storage.LoadNext | src/main/java/LedgerApp.java:192-197 | after the lines before it load, a line either extends the list by its record, leaves it as it is, or fails the whole file with its own index and amount text |
| Storage.LoadFailure | src/main/java/LedgerApp.java:194-199 | the load fails exactly when some five-field line has an unreadable amount, and the error names the first such line and its amount text |
| Storage.CollectFailure | src/main/java/LedgerApp.java:192-198 | collecting line outcomes fails exactly at the first bad amount |
| Storage.LoadConcat | src/main/java/LedgerApp.java:192-198 | loading two runs of lines one after the other is loading the first, then the second, with line numbers shifted |
| Storage.CollectConcat | src/main/java/LedgerApp.java:192-198 | collecting a concatenation of outcomes combines the two collections |
| Storage.CombineExtend | src/main/java/LedgerApp.java:192-198 | extending the second half of a combination by one outcome extends the combination |
| Storage.LoadStep | src/main/java/LedgerApp.java:192-197 | loading one more line keeps, skips or fails on that line alone |
| Storage.LoadSingle | src/main/java/LedgerApp.java:192-197 | a single line loads as its own outcome |
| Storage.LoadStopsAtError | src/main/java/LedgerApp.java:195 | once a prefix of the file fails, the lines after it do not matter |
| Storage.ParseLineOfCsv | src/main/java/LedgerApp.java:193-195 | the storage line of a delimiter-free transaction reads back as that transaction |
| Storage.ParseLineOfCollidingCsv | src/main/java/LedgerApp.java:194 | if a text field contains the delimiter, its storage line splits into more than five fields and is skipped |
| Storage.CorruptLineSkipped | src/main/java/LedgerApp.java:194 | a good line followed by a line that does not split into five fields loads as just the good transaction |
| Storage.LoadOfStored | src/main/java/LedgerApp.java:188-198 | a file of storage lines of transactions whose text fields hold neither the delimiter nor a line terminator loads back as exactly those transactions, in order |
| Storage.Append | src/main/java/LedgerApp.java:179-186 | writing a transaction whose text fields hold no line terminator adds exactly one line, its storage line, after the existing lines, which stay unchanged |
| Storage.LoadAfterAppend | src/main/java/LedgerApp.java:179-198 | after appending a transaction whose text fields hold no line terminator, the ledger reloads with it at the end, or unchanged if a text field contains the delimiter |
| Storage.Record | src/main/java/LedgerApp.java:46-63 | a record is made exactly when the trimmed amount text parses; it holds the trimmed texts; a deposit keeps the amount and a payment negates it |
| Storage.RecordThenLoad | src/main/java/LedgerApp.java:46-66 | recording a transaction from lines read at the prompts (no line terminator in them) whose trimmed texts are delimiter-free, then reloading, yields the old ledger plus that transaction |
| Queries.RecordedEntryView | src/main/java/LedgerApp.java:61 | a deposit of a positive amount appears among the deposits and not the payments; a payment of one appears among the payments and not the deposits |
| Sequences.Filter | src/main/java/LedgerApp.java:104-106 | a filter keeps every element that passes, as often as it occurs, and nothing else |
| Sequences.FilterIsSubsequence | src/main/java/LedgerApp.java:104-106 | a filter keeps the input order |
| Sequences.FilterKeepsAll | src/main/java/LedgerApp.java:142-144 | a filter that every element passes returns the whole list |
| Queries.InSignView | src/main/java/LedgerApp.java:105 | definition: the filter of a view, amount > 0 for deposits and amount < 0 for payments; FilterTransactions and SignViewsPartition state its properties |
| Queries.FilterTransactions | src/main/java/LedgerApp.java:103-107 | the deposits view holds exactly the entries with amount > 0 and the payments view those with amount < 0, in input order, with repetitions |
| Queries.ZeroEntries | src/main/java/LedgerApp.java:103-107 | the zero-amount entries, which neither view shows |
| Queries.SignViewsPartition | src/main/java/LedgerApp.java:103-107 | the deposits and payments views are disjoint, and with the zero-amount entries they make up the whole list |
| Queries.VendorKeyword | src/main/java/LedgerApp.java:141 | definition: the keyword trimmed and lower-cased; BlankKeywordKeepsAll and SearchIgnoresKeywordCase state its properties |
| Queries.SearchVendor | src/main/java/LedgerApp.java:141-144 | the search keeps, in order, exactly the entries whose lower-cased vendor contains the trimmed, lower-cased keyword |
| Queries.SearchVendorFinds | src/main/java/LedgerApp.java:141-144 | an entry is found exactly when the keyword occurs at some position of its lower-cased vendor |
| Queries.BlankKeywordKeepsAll | src/main/java/LedgerApp.java:141-144 | an empty or blank keyword keeps every entry |
| Queries.SearchIgnoresKeywordCase | src/main/java/LedgerApp.java:141 | upper- or lower-casing the keyword does not change the result |
| Queries.SearchIgnoresVendorCase | src/main/java/LedgerApp.java:143 | upper-casing a vendor does not change whether it is found |
| JavaStrings.ContainsIff | src/main/java/LedgerApp.java:143 | `contains` holds exactly when the keyword occurs at some position |
| JavaStrings.TrimOfCase | src/main/java/LedgerApp.java:141 | trimming commutes with ASCII case mapping |
| Queries.FirstUnparsable | src/main/java/LedgerApp.java:158 | finds the first entry whose date `LocalDate.parse` rejects, if there is one; every earlier date parses |
| Queries.TargetMonth | src/main/java/LedgerApp.java:156 | the month report's target is today's month or the month immediately before it |
| Queries.TargetYear | src/main/java/LedgerApp.java:163 | definition: today's year, or the year before it; FilterByYear states the report built on it |
| Queries.InMonth | src/main/java/LedgerApp.java:158 | definition: the entry's date parses and falls in the target month; FilterByMonth states the report built on it |
| Queries.FilterByMonth | src/main/java/LedgerApp.java:155-160 | it fails exactly when some date does not parse, and the error names the first such date. Otherwise it keeps, in order, exactly the entries dated in the target month |
| Queries.InYear | src/main/java/LedgerApp.java:165 | definition: the entry's date parses and falls in the target year; FilterByYear states the report built on it |
| Queries.FilterByYear | src/main/java/LedgerApp.java:162-167 | it fails exactly when some date does not parse. Otherwise it keeps, in order, exactly the entries dated in today's year or the year before |
| Queries.BadDateFailsReports | src/main/java/LedgerApp.java:158-165 | one unreadable date anywhere fails all four date reports |
| Queries.MonthWithinYear | src/main/java/LedgerApp.java:155-167 | every entry of the month-to-date report is also in the year-to-date report |
| Queries.JanuaryLooksBackAYear | src/main/java/LedgerApp.java:156 | in January the previous-month report shows December of the previous year, and those entries are in the previous-year report |
| Queries.LastDayOfPreviousMonth | src/main/java/LedgerApp.java:155-160 | the last day of the previous month is in the previous-month report and not in the month-to-date one |
| Calendar.PreviousMonth | src/main/java/LedgerApp.java:156 | the month before in the running month count; January goes to December of the previous year |
| Calendar.NextMonth | src/main/java/LedgerApp.java:156 | the month after in the running month count |
| Calendar.NextOfPrevious | src/main/java/LedgerApp.java:156 | stepping back a month and forward again returns to the start |
| Calendar.MonthIndexInjective | src/main/java/LedgerApp.java:158 | a year-month is determined by its running month count |
| Calendar.LastDay | src/main/java/LedgerApp.java:158 | the last day of a month is a valid date of that month |
| Calendar.ParseIsoDate | src/main/java/LedgerApp.java:158 | a parsed date has a month in 1..12 and a day within the month's Gregorian length, leap years included |
| Calendar.DateRoundTrip | src/main/java/LedgerApp.java:47 | every valid date with a four-digit year parses back from its `YYYY-MM-DD` text |
| Calendar.DateCanonical | src/main/java/LedgerApp.java:47 | a date text that parses is the zero-padded text of its date |
| Calendar.ParseIsoTime | src/main/java/LedgerApp.java:50 | a parsed time has hours below 24 and minutes and seconds below 60 |
| Calendar.TimeRoundTrip | src/main/java/LedgerApp.java:50 | every valid time parses back from its `HH:MM:SS` text |
| Calendar.TimeCanonical | src/main/java/LedgerApp.java:50 | a time text that parses is the zero-padded text of its time |
| Calendar.DayNumberOrder | src/main/java/LedgerApp.java:158 | later dates in (year, month, day) order have larger day counts |
| Calendar.SecondOfDayOrder | src/main/java/LedgerApp.java:50 | later times in (hour, minute, second) order have larger second counts |
| Calendar.InstantOrder | src/main/java/LedgerApp.java:70 | the (date, time) tuple order is the order of instants |
| Calendar.ThreeBlockOrder | src/main/java/LedgerApp.java:70 | three zero-padded numbers with fixed separators, then a rest, compare number by number and then by the rest |
| Calendar.DateTextOrder | src/main/java/LedgerApp.java:70 | a date text followed by anything compares by year, month and day first |
| Calendar.TimeTextOrder | src/main/java/LedgerApp.java:70 | time texts compare by hour, minute and second |
| Calendar.StampTextOrder | src/main/java/LedgerApp.java:70 | `compareTo` on date text + time text orders field by field from year down to second |
| Calendar.TextOrderIsChronological | src/main/java/LedgerApp.java:70 | for ISO dates and times, `compareTo` on date + time has the sign of the difference of the instants |
| JavaStrings.CompareToAntisymmetric | src/main/java/LedgerApp.java:70 | swapping the arguments of `compareTo` negates it |
| JavaStrings.CompareToZero | src/main/java/LedgerApp.java:70 | `compareTo` is zero exactly for equal strings |
| JavaStrings.CompareToTransitive | src/main/java/LedgerApp.java:70 | the order `compareTo` defines is transitive |
| JavaStrings.CompareToBlocks | src/main/java/LedgerApp.java:70 | equally long leading blocks decide `compareTo` unless they are equal |
| Decimal.CompareDigits | src/main/java/LedgerApp.java:70 | equally long digit strings compare as their values |
| Recency.Key | src/main/java/LedgerApp.java:70 | definition: the date text followed by the time text |
| Recency.AtLeastAsRecent | src/main/java/LedgerApp.java:70 | definition: the comparator of line 70 does not put the first entry after the second; RecencyIsTotalPreorder and NewestFirstIsChronological state its properties |
| Recency.SortByRecency | src/main/java/LedgerApp.java:70 | afterwards the array holds the same entries, each not older by `date + time` than the ones after it |
| Recency.RecencyIsTotalPreorder | src/main/java/LedgerApp.java:70 | the comparator relates every pair of entries one way or the other, and transitively |
| Recency.InsertionSort | src/main/java/LedgerApp.java:70 | for any comparator that is a total preorder, `sort` leaves the array ordered by it and holding the same entries |
| Recency.Insert | src/main/java/LedgerApp.java:70 | inserting the next entry sorts the prefix up to it, rearranging only that prefix; the entries after it stay where they are |
| Recency.SwapWithinPrefix | src/main/java/LedgerApp.java:70 | a swap inside the prefix rearranges the prefix and leaves the rest alone |
| Recency.InsertionStart | src/main/java/LedgerApp.java:70 | before any swap, only the entry being inserted can be out of order |
| Recency.SwapStep | src/main/java/LedgerApp.java:70 | swapping an entry past an earlier one that may not precede it keeps the insertion invariant |
| Recency.InsertionDone | src/main/java/LedgerApp.java:70 | once the moved entry meets one that may precede it, the prefix is sorted |
| Recency.LoadSorted | src/main/java/LedgerApp.java:69-70 | the ledger screen's list is the loaded list, sorted newest first and holding the same entries, or the load's error |
| Recency.NewestFirstIsChronological | src/main/java/LedgerApp.java:70 | for ISO dates and times, the sorted order is non-increasing in time |
| Menus.Choice | src/main/java/LedgerApp.java:25 | definition: the line trimmed and upper-cased, as the home and ledger menus read it; ChoiceIgnoresCase and ChoiceIgnoresBlanks state its properties |
| Menus.HomeStep | src/main/java/LedgerApp.java:27-42 | definition: D and P record, L opens the ledger, X exits, anything else is invalid and stays home |
| Menus.LedgerStep | src/main/java/LedgerApp.java:82-99 | definition: A, D and P show the lists, R opens the reports, H goes home, anything else is invalid |
| Menus.ReportsStep | src/main/java/LedgerApp.java:122-151 | definition: 1 to 5 run the reports and the search, 0 goes back to the ledger, anything else is invalid |
| Menus.Step | src/main/java/LedgerApp.java:122-151 | invalid input stays on the same screen, and only the exited program does nothing |
| Menus.ExitOnlyFromHome | src/main/java/LedgerApp.java:27-42 | the program ends exactly on `X` at the home screen |
| Menus.ScreensAreNested | src/main/java/LedgerApp.java:82-99 | home reaches the ledger or the exit, the ledger reaches home or the reports, and the reports reach only the ledger |
| Menus.ChoiceIgnoresCase | src/main/java/LedgerApp.java:25-27 | home and ledger choices are accepted in either letter case |
| Menus.ChoiceIgnoresBlanks | src/main/java/LedgerApp.java:119 | any run of blanks, tabs or other code units up to U+0020 before and after a choice does not change the transition on any screen |

## Left out

- Amounts are whole cents, not `double`. Binary floating point, rounding of amounts with more than two decimals, and `-0.0` are not modelled.
- Amounts.AmountText: the model renders the plain decimal form. `String.valueOf(double)` switches to E notation from 10^7 upward.
- Amounts.ParseAmount: it accepts only an optional sign, digits and at most two fraction digits. The model does not capture exponents, `NaN`, `Infinity`, hexadecimal forms or the `d`/`f` suffixes that `Double.parseDouble` also accepts. So for an amount such as `1.234` or `1e3`, the model's `Record` gives no record, and a stored line with such an amount makes `Load` fail. Java records and loads it.
- Transactions.Display: `%.2f` is modelled without locale; a locale with a decimal comma is not captured.
- Characters are Unicode scalar values, not UTF-16 code units. Outside the Basic Multilingual Plane Java sees a surrogate pair where the model sees one character, so `compareTo` can differ there. For example, Java orders U+FFFF after U+1F600, and the model orders it before. The sort of free-text dates and times with such characters is not captured.
- Case mapping is ASCII only. Unicode and locale-specific `toLowerCase`/`toUpperCase` are not captured.
- Calendar.ParseIsoDate: only four-digit years 0000-9999 are modelled, which is the form the date prompt asks for. Signed and expanded years that `LocalDate.parse` also accepts are not captured.
- Calendar.ParseIsoTime: the time text is never parsed by the program itself. It exists to state the text-order lemma.
- The clock: `YearMonth.now()` and `LocalDate.now()` become the `today` parameter of the reports.
- Console I/O: prompts, `printTransactions` and the lines read after a menu choice are not modelled. `Menus` covers only the choice-to-screen transition.
- File handles: the file is a sequence of lines, and a missing file is `None`. An `IOException` in the middle of reading, after some lines were read, is not modelled.
- Recency.SortByRecency: the contract states the order and the permutation, not stability. `List.sort` keeps equal keys in input order, and the insertion sort does too, but no contract says so.
- Storage.Record: the NumberFormatException of a bad amount is `None`, and the crash it causes in the program is not modelled.
- Storage.Append: text fields never contain a line break. Every text comes from `Scanner.nextLine`, which strips the line terminator, so the requires on `Append`, `StoredLines`, `LoadAfterAppend`, `LoadOfStored` and `RecordThenLoad` always holds in the program. If a text did hold `\n` or `\r`, `readLine` would cut the stored record into several lines. The model does not capture that.
- Writing to the file can fail with an `IOException`, which the program only reports. The model's `Append` always succeeds.
