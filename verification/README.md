# Textree export builders in Dafny

This project models three stream processors of the Textree toolkit. Each one
consumes the start/text/end/comment/message events that Textree documents are
parsed into.

- **The ledger builder** (`Accounting`, `AccountingQueries`).
  - It handles the `accounting:account`, `accounting:sheet-column` and `accounting:sheet-row` commands.
  - The commands build a ledger of declared accounts, account numbers, sheets and their columns, and dated entries. An entry carries a label and an assignment of signed amounts to accounts.
  - The read side sorts ("seals") the entries once by date. It then answers `getAccounts`, `getAccount`, `isAccountValid`, `getAccountEntries` (running balances) and `getAccountStats`.
- **The chronology builder** (`ChronologyBuilder`).
  - It handles the `chrono:inventory` and `chrono:event` commands, which collect class-grouped inventory items and dated, tagged events.
  - On the first query it seals the collection: it sorts the events by date, files them into per-day buckets, and sorts every inventory class by `index`.
  - It answers `getEvents`/`getEvent` (filtering by tag and by attribute values) and `getDays` (one day per calendar day of a range). It also provides the date helpers `numberOfDays`, `daysAfter` and `isWeekEnd`.
- **The Textree printer** (`PrintTextree`). It turns the event stream back into Textree's indented syntax. It keeps a stack of open element names, a "tag line still open" flag and an output buffer. The buffer is pushed downstream once it grows past 128 characters.

Supporting modules:
- `Results`: `Option` and `Result`.
- `Strings`: `split`/`join` on one separator character, and JavaScript string comparison.
- `Seqs`: `Array.prototype.filter`.
- `Sorting`: insertion sort over a total preorder. It stands for `Array.prototype.sort` with the source's comparators.
- `EventData`: attribute maps, JavaScript truthiness of an attribute, and instants and calendar days.

Modelling conventions:
- A command handler is a pure function from the builder state and the start event's attribute map to the new state.
- A thrown `Error` becomes `Failure`.
- A `this.warn` call appends to a `warnings` list, and processing goes on.
- An attribute counts as present when it is in the map and not the empty string. That is JavaScript truthiness for string values.
- Amounts are `real`.
- Instants are integer milliseconds since the epoch. A calendar day is `t / 86400000`. For years 0000 to 9999 this is the UTC day that `toISOString().substr(0, 10)` names.
- Parsing a date (`new Date(s)`) and parsing an amount (`parseFloat`) are function parameters.
- Rendering an instant as text, for `getEvents` matches on `date`, is also a function parameter.
- Maps whose order the source relies on (`Object.keys(this.accounts)`, a sheet's columns, an entry's assignment) are sequences in insertion order. Re-assigning a key keeps its position.

The ledger's state invariant is `Accounting.Valid`:
- account paths are unique and start with `/`;
- every account number names a declared account;
- sheets have uniquely named columns, and every value column has a `+`/`-`/`*` account spec;
- every entry has a non-empty label and at least one posting, with distinct account names.

`EmptyLedger` satisfies it (`EmptyLedgerValid`), and each command keeps it (`CommandAccountValid`, `CommandSheetColumnValid`, the contract of `CommandSheetRow`, `SealEntriesValid`). The chronology's inventory invariant, every item filed under its own class, holds for `EmptyChronology` (`EmptyChronologyValid`) and is kept by `CommandInventoryValid` and `SealEventsInventoryValid`.

Behaviour of the code as written, which the model keeps:
- **An empty cell on a `-` column.** The cell first takes minus the sum of the postings so far, and the column's `-` prefix then negates that. The entry's imbalance therefore doubles instead of vanishing (`EmptyCellOnMinusColumn`). On `+` and `*` columns an empty cell does balance the entry (`EmptyCellBalances`).
- **Leading empty label cells.** The label fold writes `entry.label ? entry.label + "\n" : ""`, so label cells that are empty before the first non-empty one leave no newline (`LabelJoin`).
- **Multi-line text.** It prints `.` and its lines without clearing the "still open" flag, so a following end event prints one more newline (`TextBlockRoundTrip`).
- **Day count.** Over a whole number of days, `getDays` returns `numberOfDays + 1` days (`GetDaysCount`). Otherwise the two can disagree: `numberOfDays` rounds a partial day up, while the day loop stops at the last step not after `end` (`DaysFromLength`).

## Model

| member | source | states |
|---|---|---|
| EventData.DayKey | lib/stream/export/Chronology.js:124-126 | the day key of an instant is the unique day number whose 24-hour span contains it; for years 0000 to 9999 this is the day the ISO date text names |
| Accounting.FindAccount | lib/stream/export/Accounting.js:46 | looking a path up finds an account exactly when one with that path was declared, and the account found has that path |
| Accounting.CommandAccount | lib/stream/export/Accounting.js:38-57 | no `path`: nothing changes; a path without leading `/`: only a warning is added; failure exactly when the path is already declared or a given number is already taken; otherwise exactly the account is appended and, with a number, exactly that number is mapped to the path, everything else unchanged |
| Accounting.CommandAccountValid | lib/stream/export/Accounting.js:41-56 | declaring an account keeps the ledger invariant: paths unique and `/`-rooted, numbers naming declared accounts |
| Accounting.CommandAccountDeclares | lib/stream/export/Accounting.js:53-55 | after a successful declaration of a `/`-rooted path that path is a valid account and can be found |
| Accounting.Assign | lib/stream/export/Accounting.js:160 | after assigning, the account maps to the amount, every other account keeps its amount, and the posting list grows only when the account was new |
| Accounting.AssignDistinct | lib/stream/export/Accounting.js:160 | assigning keeps account names in an entry distinct |
| Accounting.SumAssign | lib/stream/export/Accounting.js:160 | assigning changes the entry's total by the new amount minus the account's former amount |
| Accounting.SetColumn | lib/stream/export/Accounting.js:82 | setting a column slot stores the new column, keeps every differently named column and introduces nothing else |
| Accounting.SetColumnLength | lib/stream/export/Accounting.js:82 | setting a column slot adds a column only when no column of that name existed |
| Accounting.SetColumnDistinct | lib/stream/export/Accounting.js:82 | setting a column slot keeps column names unique and the slot of that name holds the new column |
| Accounting.CommandSheetColumn | lib/stream/export/Accounting.js:65-86 | no `sheet`: nothing changes; failure exactly when `column` is missing or a value column's account spec does not start with `+`, `-` or `*`; otherwise the sheet is created with row counter 1 when absent, only that sheet's one column slot is set, nothing else changes |
| Accounting.CommandSheetColumnValid | lib/stream/export/Accounting.js:68-82 | declaring a column keeps every sheet well formed |
| Accounting.FillValue | lib/stream/export/Accounting.js:121-162 | a value cell fails exactly when its amount does not parse; `+` keeps and `-` negates the amount; `*X` posts to the account named by field `X`; no target account means no posting; the posting overwrites only its own account; the cell adds exactly an invalid-prefix warning when the account spec does not start with `+`, `-` or `*`, then an invalid-account warning when the target is not a valid account, and no other warning |
| Accounting.FillColumn | lib/stream/export/Accounting.js:104-166 | one column's cell fails exactly when it is missing or is a non-empty value cell whose amount does not parse; a date column sets the date to the parsed cell; a value column naming an account gives it a posting, the signed parsed amount when the cell is non-empty, and leaves every other account's posting as it was; the cell adds exactly its own warnings: those of a value cell, or an invalid-type warning for a column of unknown type |
| Accounting.FillColumns | lib/stream/export/Accounting.js:104-167 | reading a row fails when any declared column's cell is missing; on success a date is set exactly when a date column exists, the label is the fold of the label cells, and postings have distinct, non-empty account names |
| Accounting.FillColumnsOutcome | lib/stream/export/Accounting.js:104-167 | reading the cells fails exactly when some column's cell is missing or some non-empty value cell does not parse |
| Accounting.FillColumnsDate | lib/stream/export/Accounting.js:111-113 | the date is the parsed cell of the last date column, and stays as it was when there is no date column |
| Accounting.FillColumnsPostings | lib/stream/export/Accounting.js:121-160 | an account no value column names keeps its posting; one that is named gets a posting, the signed amount of the last column naming it when that cell is non-empty |
| Accounting.FillColumnsPosts | lib/stream/export/Accounting.js:156-172 | after the cells something is posted exactly when something already was or some value column names an account |
| Accounting.FillColumnsWarnings | lib/stream/export/Accounting.js:104-167 | the warnings the cells add are the warnings of each cell in column order, and nothing else |
| Accounting.RowEntryFacts | lib/stream/export/Accounting.js:101-172 | a row fails exactly when a cell is missing, a non-empty amount does not parse, there is no date column, the label is empty or no value column names an account; otherwise its entry has the sheet's name and row number, the folded label, the date of the last date column, a posting for exactly the accounts some value column names, each the signed amount of the last such column when its cell is non-empty; its warnings are exactly those of its cells, in column order |
| Accounting.CommandSheetRow | lib/stream/export/Accounting.js:91-180 | no `sheet`: failure; an unknown sheet: only a warning; on a known sheet failure exactly when the row's entry fails, otherwise exactly that entry is appended after the existing ones, the sheet's row counter goes up by one, the cells' warnings are added, accounts and numbers are unchanged, and a valid ledger stays valid |
| Accounting.AddEntryValid | lib/stream/export/Accounting.js:101-175 | counting a row of a declared sheet and appending a well-formed entry keeps the ledger invariant |
| Accounting.LabelJoin | lib/stream/export/Accounting.js:116-119 | the label is the label cells joined with newlines once leading empty cells are dropped, and it is empty (rejected) exactly when every label cell is empty |
| Accounting.EmptyCellBalances | lib/stream/export/Accounting.js:124-160 | an empty cell on a `+` or `*` column posting to a fresh account makes the entry's amounts sum to zero |
| Accounting.EmptyCellOnMinusColumn | lib/stream/export/Accounting.js:124-160 | an empty cell on a `-` column posting to a fresh account makes the entry's total twice the total before it |
| Accounting.EmptyLedgerValid | lib/stream/export/Accounting.js:6-17 | the constructor's empty ledger satisfies the invariant |
| Accounting.SealEntries | lib/stream/export/Accounting.js:391-398 | sealing sets the flag and permutes the entries; the first seal orders them by date and a later one changes nothing; nothing but the entries and the flag changes |
| Accounting.SealEntriesIdempotent | lib/stream/export/Accounting.js:392 | sealing twice is sealing once |
| Accounting.SealEntriesValid | lib/stream/export/Accounting.js:391-398 | sealing keeps the ledger invariant |
| Accounting.ByDateIsTotalPreorder | lib/stream/export/Accounting.js:395-396 | the entry comparator is a total preorder, so sorting by it is well defined |
| Sorting.SortBy | lib/stream/export/Accounting.js:394-396 | the sort result is ordered by the comparator and is a permutation of the input |
| AccountingQueries.BreakLines | lib/stream/export/Accounting.js:215 | replacing newlines by `<br/>` leaves no newline, grows the text by four characters per newline, and leaves newline-free text alone |
| AccountingQueries.FormatLabel | lib/stream/export/Accounting.js:213-218 | outside html mode the label is unchanged; in html mode it has no newline left and grows by four characters per newline |
| AccountingQueries.FormatLabelLines | lib/stream/export/Accounting.js:213-218 | in html mode each label line is followed by `<br/>` instead of a newline, the lines themselves unchanged |
| AccountingQueries.BreakLinesAppend | lib/stream/export/Accounting.js:215 | the `<br/>` replacement distributes over concatenation |
| AccountingQueries.CommonPrefixLength | lib/stream/export/Accounting.js:242-243 | the loop stops at the length of the longest common prefix of the two path segment lists |
| AccountingQueries.AccountRowSplits | lib/stream/export/Accounting.js:252-255 | an account's own item splits its path into a `/`-terminated common path and a last segment |
| AccountingQueries.AncestorPaths | lib/stream/export/Accounting.js:244-250 | the k-th synthesized ancestor item from `from` segments on is the `/`-terminated join of the first `from + k` segments and carries no account |
| AccountingQueries.AncestorsFacts | lib/stream/export/Accounting.js:244-250 | every synthesized ancestor item is a `/`-terminated prefix of the account's path, carries no account, and its common and relative paths make up its path |
| AccountingQueries.AccountItemsBlock | lib/stream/export/Accounting.js:237-258 | an account's block of `getAccounts` is one `/`-terminated item per segment count beyond the segments shared with the previous account and short of the whole path, in increasing order, then the account's own item, then the listing of the remaining accounts |
| AccountingQueries.AccountItemsListed | lib/stream/export/Accounting.js:237-258 | the accounts listed by `getAccounts` are exactly the declared accounts, each once, in declaration order |
| AccountingQueries.AccountItemsOk | lib/stream/export/Accounting.js:237-258 | every item's common and relative paths make up its path; an account item has its account's path; a synthesized item is a `/`-terminated prefix of some declared path |
| AccountingQueries.GetAccountsFacts | lib/stream/export/Accounting.js:231-262 | on a valid ledger the listed accounts are the declared ones in order, every item's path is its common path plus its relative path, and every synthesized item ends with `/` |
| AccountingQueries.Members | lib/stream/export/Accounting.js:277-281 | an aggregate's member map holds exactly the declared accounts under the prefix, keyed by the rest of their path, and is empty exactly when none is |
| AccountingQueries.GetAccount | lib/stream/export/Accounting.js:264-302 | a `/`-terminated path resolves exactly when some declared path starts with it and then matches by prefix; an aggregate's members are exactly the declared accounts under the path, each keyed by the rest of its path; any other path resolves exactly when declared and then matches by equality |
| AccountingQueries.ValidAccountResolves | lib/stream/export/Accounting.js:286-315 | `isAccountValid(path, true)` holds exactly when the path is not `/`-terminated and `getAccount` resolves it, and such a path resolves to the concrete account declared with that path |
| AccountingQueries.CreditMinusDebit | lib/stream/export/Accounting.js:339-348 | credit minus debit of an entry is the sum of its matching postings, both non-negative |
| AccountingQueries.Annotate | lib/stream/export/Accounting.js:329-353 | one line per entry in order; each line's debit and credit are the sums of its negative (negated) and positive matching postings, its value is the sum of its matching postings and equals credit minus debit, and its balance is the opening balance plus the values of the lines so far |
| AccountingQueries.MatchingEntriesFacts | lib/stream/export/Accounting.js:323-330 | the listed entries are exactly the ledger's entries touching the account, and in date order when this query seals the ledger |
| AccountingQueries.GetAccountEntries | lib/stream/export/Accounting.js:323-354 | fails exactly when the account does not resolve; otherwise the ledger is sealed and there is one line per matching sealed entry, in order, with the entry's debit and credit sums (both non-negative), value credit minus debit, and the running sum of the values as balance |
| AccountingQueries.AggregateContainsConcrete | lib/stream/export/Accounting.js:269-299 | every entry listed for a declared account is also listed for any aggregate path that prefixes it |
| AccountingQueries.Accumulate | lib/stream/export/Accounting.js:372-382 | debit grows by the negated negative entry values, credit by the non-negative ones, the balance by their sum, which is credit minus debit, and one entry is counted per entry |
| AccountingQueries.LinesValueIsValueSum | lib/stream/export/Accounting.js:339-378 | the per-entry values of `getAccountEntries` add up to the values `getAccountStats` sums |
| AccountingQueries.GetAccountStats | lib/stream/export/Accounting.js:359-385 | fails exactly when the account does not resolve; otherwise the ledger is sealed, debit is the sum of the negated negative entry values and credit the sum of the non-negative ones, balance is credit minus debit, the entry count is the number of listed entries and the balance is the sum of their values |
| AccountingQueries.StatsBalanceIsLastBalance | lib/stream/export/Accounting.js:349-382 | the reported balance equals the running balance of the last listed entry |
| ChronologyBuilder.EmptyChronologyValid | lib/stream/export/Chronology.js:6-16 | the constructor's empty inventory satisfies the inventory invariant |
| ChronologyBuilder.CommandInventory | lib/stream/export/Chronology.js:31-46 | without `class` only a warning is added; otherwise the item is appended to its class list, created when absent, and every other class and field is unchanged |
| ChronologyBuilder.CommandInventoryValid | lib/stream/export/Chronology.js:41-44 | every inventory item stays in the list of its own class |
| ChronologyBuilder.MakeEvent | lib/stream/export/Chronology.js:54-62 | the event keeps its attributes and parsed date; it has tags exactly when a `tags` attribute exists, and the tags are comma-free pieces that join back to it |
| Strings.JoinSplit | lib/stream/export/Chronology.js:61 | joining the pieces of a split with the separator gives back the string |
| Strings.SplitJoin | lib/stream/export/Chronology.js:61 | splitting a join of separator-free pieces gives back the pieces |
| ChronologyBuilder.CommandEvent | lib/stream/export/Chronology.js:51-67 | without `date` only a warning is added; otherwise exactly one event is appended after the others: the event built from the attributes, with the parsed date and tags exactly when a `tags` attribute exists, joining back to it; nothing else changes |
| ChronologyBuilder.GetEvents | lib/stream/export/Chronology.js:89-101 | the result holds exactly the events that carry the tag (when one is given) and agree with every key of the match, and is no longer than the input |
| ChronologyBuilder.GetEventsSnoc | lib/stream/export/Chronology.js:89-101 | no events give no result, and one more event at the end is appended to the result exactly when it matches, so the result keeps the events' order and multiplicity |
| ChronologyBuilder.GetEvent | lib/stream/export/Chronology.js:78-80 | none exactly when no event matches; otherwise the first matching event |
| ChronologyBuilder.GetEventsUnfiltered | lib/stream/export/Chronology.js:91-99 | with no tag and no match every event is returned in order |
| ChronologyBuilder.GetEventsByTag | lib/stream/export/Chronology.js:91-93 | filtering by a tag keeps exactly the events whose tag list contains it |
| ChronologyBuilder.MatchTagsIsAttribute | lib/stream/export/Chronology.js:60-62 | matching on `tags` compares with the original comma-separated attribute |
| ChronologyBuilder.ByDateIsTotalPreorder | lib/stream/export/Chronology.js:151-160 | the event comparator is a total preorder |
| ChronologyBuilder.ByIndexIsTotalPreorder | lib/stream/export/Chronology.js:177-179 | the inventory comparator, JavaScript string order on `index`, is a total preorder |
| ChronologyBuilder.BucketedSnoc | lib/stream/export/Chronology.js:164-173 | filing one more event keeps the buckets a partition by day of the events read so far |
| ChronologyBuilder.Buckets | lib/stream/export/Chronology.js:163-173 | the buckets exist exactly for the days of the events and each holds that day's events in their order |
| ChronologyBuilder.SortInventory | lib/stream/export/Chronology.js:176-180 | every class list is permuted into `index` order and no class is added or lost |
| ChronologyBuilder.SealEvents | lib/stream/export/Chronology.js:148-184 | sealing sets the flag, permutes events and class lists, and on the first call orders events by date, builds the day buckets and orders every class by index; a later call changes nothing |
| ChronologyBuilder.SealEventsIdempotent | lib/stream/export/Chronology.js:148-184 | sealing twice is sealing once |
| ChronologyBuilder.SealedBuckets | lib/stream/export/Chronology.js:163-173 | after the first seal an event sits in a bucket exactly when the bucket is its day, every event has its bucket, and every bucket is in date order |
| ChronologyBuilder.SealEventsInventoryValid | lib/stream/export/Chronology.js:176-180 | sealing keeps every inventory item in the list of its own class |
| ChronologyBuilder.DaysFrom | lib/stream/export/Chronology.js:114-119 | the days step by one day from the start while not after the end, stop at the first step past it, and each holds its bucket's events or none |
| ChronologyBuilder.GetDays | lib/stream/export/Chronology.js:106-122 | fails exactly when a bound is missing and there are no events; otherwise it seals and covers the range from the given bounds or the first and last sealed event dates |
| ChronologyBuilder.DaysAreConsecutive | lib/stream/export/Chronology.js:115 | the days produced are consecutive calendar days |
| ChronologyBuilder.DaysFromLength | lib/stream/export/Chronology.js:115 | the number of days is the number of whole days from start to end plus one, none when the end precedes the start |
| ChronologyBuilder.DayKeyShift | lib/stream/export/Chronology.js:124-126 | moving an instant by whole days moves its day key by as many |
| ChronologyBuilder.NumberOfDays | lib/stream/export/Chronology.js:128-134 | the result is the distance in days rounded up: the smallest count of days covering it |
| ChronologyBuilder.NumberOfDaysSymmetric | lib/stream/export/Chronology.js:131 | the distance does not depend on argument order |
| ChronologyBuilder.NumberOfDaysZero | lib/stream/export/Chronology.js:131-133 | the distance is zero exactly for equal instants |
| ChronologyBuilder.NumberOfDaysWhole | lib/stream/export/Chronology.js:128-134 | a span of n whole days counts as n days |
| ChronologyBuilder.GetDaysCount | lib/stream/export/Chronology.js:114-134 | over n whole days `getDays` lists `numberOfDays + 1` days |
| ChronologyBuilder.DaysAfter | lib/stream/export/Chronology.js:135-139 | the result is the day n days after the instant's day |
| ChronologyBuilder.Weekday | lib/stream/export/Chronology.js:141 | the weekday is in 0..6 |
| ChronologyBuilder.WeekdayNextDay | lib/stream/export/Chronology.js:141 | the next day has the next weekday, Saturday wrapping to Sunday |
| ChronologyBuilder.TwoWeekEndDaysAWeek | lib/stream/export/Chronology.js:140-142 | any seven consecutive days hold exactly two week-end days |
| ChronologyBuilder.WeekEndExamples | lib/stream/export/Chronology.js:140-142 | 1970-01-01 (a Thursday) and 1970-01-05 are week days, 1970-01-03 and 1970-01-04 are week-end days |
| PrintTextree.FlushBuffer | lib/stream/export/PrintTextree.js:148-154 | flushing never changes the output so far, empties the buffer and pushes it as a chunk only when non-empty |
| PrintTextree.Print | lib/stream/export/PrintTextree.js:163-169 | printing appends exactly the text to the output; the buffer is pushed once it exceeds 128 characters and otherwise keeps growing |
| PrintTextree.PrintLN | lib/stream/export/PrintTextree.js:171-173 | printing a line appends the text and one newline |
| PrintTextree.Indent | lib/stream/export/PrintTextree.js:174-181 | an indentation of level l is exactly 2l spaces |
| PrintTextree.PrintIndent | lib/stream/export/PrintTextree.js:174-181 | printing an indentation appends exactly that indentation |
| PrintTextree.EnsureNotStillOpen | lib/stream/export/PrintTextree.js:156-161 | afterwards no tag line is open, and one newline was printed exactly when one was |
| PrintTextree.EnsureNotStillOpenIdempotent | lib/stream/export/PrintTextree.js:156-161 | closing an open tag line twice is closing it once |
| PrintTextree.EscapeArrowsRemovesArrows | lib/stream/export/PrintTextree.js:139 | after replacing every `->` by `- >` no `->` is left |
| PrintTextree.EscapeArrowsNoArrow | lib/stream/export/PrintTextree.js:139 | text without `->` is left alone |
| PrintTextree.CommentsHaveNoArrow | lib/stream/export/PrintTextree.js:122-140 | a comment or message line is the indentation, `// ` and the escaped comment, which contains no `->` |
| PrintTextree.TextBlockRoundTrip | lib/stream/export/PrintTextree.js:26-45 | a multi-line text prints `.` and a block whose lines, with their indentation removed, join back to the text, and leaves the still-open flag as it was |
| PrintTextree.TextLineSingle | lib/stream/export/PrintTextree.js:26-45 | a one-line text prints exactly one newline-terminated line ending with the text, and closes the open tag line |
| PrintTextree.AttributesPartition | lib/stream/export/PrintTextree.js:77-85 | every attribute other than `id` and `class` is laid out either inline or on its own line, never both |
| PrintTextree.PrintAll | lib/stream/export/PrintTextree.js:163-169 | a run of print calls appends the concatenation of their arguments and keeps the buffer under the flush bound |
| PrintTextree.Transform | lib/stream/export/PrintTextree.js:47-135 | an event appends its reference rendering at the current depth, sets the still-open flag accordingly, pushes a start's name (or `div`) and pops on an end |
| PrintTextree.EndIsEnsureNotStillOpen | lib/stream/export/PrintTextree.js:116-120 | an end event pops one name and otherwise only closes an open tag line |
| PrintTextree.Finish | lib/stream/export/PrintTextree.js:142-146 | at end of stream the open tag line is closed, the buffer is empty and the pushed chunks are the whole output |
| PrintTextree.TransformAllOutput | lib/stream/export/PrintTextree.js:47-135 | the printer's output after a stream of events is its output before plus the reference rendering of the stream |
| PrintTextree.TransformAllHealthy | lib/stream/export/PrintTextree.js:163-169 | over any stream the buffer never exceeds 128 characters and no empty chunk is pushed |
| PrintTextree.SerializeOutput | lib/stream/export/PrintTextree.js:142-169 | from a fresh printer the pushed chunks of a whole stream are exactly its reference rendering plus a final newline when a tag line is still open |
| PrintTextree.NestingDepth | lib/stream/export/PrintTextree.js:60-118 | when no prefix closes more elements than are open, the depth moves by starts minus ends and the names below stay in place |
| PrintTextree.WellNestedRestoresNames | lib/stream/export/PrintTextree.js:65-117 | a well-nested stream leaves the element stack as it found it |
| PrintTextree.StartThenEnd | lib/stream/export/PrintTextree.js:60-120 | a start without attributes prints its name at the depth before the push and leaves its line open; the matching end pops it and prints one newline |

## Left out

- `NodeProcessor` is not part of this model. Its `captureLevelEvents`, dispatch of commands and `warn` are not modelled: a handler acts at once on the start event's attributes, and the capture has no effect on the state.
- `stream.Transform` plumbing is not modelled: back-pressure, the `done` callbacks, `push` (chunks are collected in a list), and the `lastEvent` field, which nothing reads.
- `parseFloat` with the comma replacement and `new Date(s)` are function parameters. The amount parser answers `None` where `parseFloat` gives `NaN`. An Invalid Date is not modelled.
- `formatValue` and `formatDate` of the ledger are not modelled (floating-point rendering and `toFixed`). `getSheets` and `getEntries` are plain accessors and are not modelled separately; `getEntries` is `SealEntries(l).entries`.
- A thrown error is fatal in the model, and the ledger it was thrown from is dropped. The source has already incremented the sheet's `nthRow` before a row's cells can throw; that partly updated state is not modelled.
- `getAccounts` merges the declared account's attributes over its computed `commonPath`/`relativePath`. An account declared with its own `commonPath` or `relativePath` attribute would override them. The model keeps the computed values.
- `getAccounts`' `withAggregate` parameter is unused in the source and not modelled.
- `getAccountEntries` and `getAccountStats` also accept an already resolved account object; the model takes a path.
- JavaScript `Date` semantics are not modelled.
  - Instants are integers and days are UTC days.
  - `setDate`/`getDate`/`getDay` work in local time in the source; the model uses UTC, i.e. a zone with no offset and no daylight saving.
  - The `date == b.date` test in both seal comparators compares `Date` objects by reference. The model compares the instants, so that the comparators are total preorders.
- The unbound `this.warn` inside the `sealEvents` comparator, and its "not a date" warning, are not modelled. Every sealed event has a date.
- `EventData.DayKey`, `ChronologyBuilder.SealEvents` and `ChronologyBuilder.GetDays`: outside years 0000 to 9999 `toISOString()` writes an expanded year such as `+010000`, and the source's 10-character key then names a year and month. There the source files a whole month's events under one key, and `getDays` gives each day of that month all of them. The model keeps the days apart.
- Names that collide with inherited `Object.prototype` properties (`constructor`, `toString`, …) are not modelled. The source's maps are plain objects, so such a name already counts as present as an account number, sheet, row field or inventory class. The model's maps start empty.
- JavaScript object key order is not modelled. A map whose order matters is a sequence in insertion order. An integer-like key that JavaScript would list first keeps its insertion position.
- Attribute values are strings. The printer's attribute values are strings or word lists. Other JSON values are not modelled.
- The printer's attribute lists are assumed to have distinct names, as a JavaScript object's keys do.
- `tags` given as something other than a string is not modelled.
- Strings are sequences of characters, with no UTF-16 code units: they are counted and compared by character. `Strings.LexLe` orders characters by code point, while JavaScript `<` compares code units, so the two orders differ when a character above U+FFFF meets one in U+E000 to U+FFFF (the inventory `index` sort). The printer's 128-character flush threshold counts characters.
- `getDays` with a bound that is present but falsy (the instant 0) falls back to the event dates in the source. The model uses any given bound.
- A missing inventory `index` compares as the empty string. In JavaScript `undefined` compares false against every string, which is not a consistent order.
- Buffer events are printed as text in the source. The model has only text events for them.
- `JSON.stringify` of an unknown event is a given string in the model.
- `Accounting.SetColumn`: its length and distinct-names facts are stated in `SetColumnLength` and `SetColumnDistinct`, not in its own contract.
- `Accounting.Assign`: its distinct-accounts fact is stated in `AssignDistinct`, not in its own contract.
