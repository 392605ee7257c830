# IBKR trade ingestion, modelled in Dafny

This project models the data pipeline of a small Interactive Brokers PnL
viewer. The pipeline has two versions:

- the React application, `src/ui/App.jsx`;
- the older vanilla script, `main.js`.

Both versions turn a parsed CSV table into closed trades. They read either a
Flex-Query execution export or the `Transaktionen` section of a German
Activity Statement. The React application then:

- groups the trades of each symbol into trading sessions, cutting at an
  inclusive gap;
- draws cumulative realized PnL over a range that ends at "now", resampled to
  hourly, daily or weekly buckets;
- sums the profit and the loss.

The script does the same reconstruction for the statement layout and draws
the cumulative line over a range.

Modules, one concern each:

| module | file | what it holds |
|---|---|---|
| `Js` | `jsvalues.dfy` | The JavaScript values the code relies on: cells that may be `undefined`, numbers that may be NaN, dates that may be invalid, and `split`, `trim`, `indexOf`, `replaceAll`. |
| `Order` | `order.dfy` | The keep-and-convert loop (`Collect`), the index scan, and `sort((a, b) => a.t - b.t)`, modelled as a stable insertion sort. |
| `Folds` | `folds.dfy` | Sums and concatenations. |
| `IbTime` | `ibtime.dfy` | `parseIbTime`, which both versions share. |
| `Statement` | `statement.dfy` | The `Transaktionen` section layout, which both versions share. |
| `Trades` | `trades.dfy` | The React application's `findSectionIndices` and `buildClosedTrades`. |
| `Curve` | `curve.dfy` | The running total and the `p.t >= start` filter, which both versions share. |
| `Sessions` | `sessions.dfy` | `groupTradesIntoSessions`. |
| `Series` | `series.dfy` | `cumulativePnL`, the range filter of `useSeries`, `getGrainForSpan`, `startOfBucket`, `resampleSeries`, the totals loop, and `formatDuration`. |
| `Legacy` | `legacy.dfy` | The script's `findSectionIndices`, `extractTransactions`, `buildClosedTrades`, `rollingSeriesFromTrades`, `filterRange` and `update`. |

The loops of the source are methods, proved against specification functions:

- `BuildClosedTrades`, `GroupTradesIntoSessions`, `ResampleSeries`, `Totals` and `RunningTotal` in the React application;
- `ExtractTransactions`, `BuildClosedTrades` and `RollingSeriesFromTrades` in the script.

Each of these methods ensures that its result equals its specification
function. The lemmas then state what the source promises about those
functions.

Collaborators the code calls, but whose behaviour is not modelled, are
parameters:

- `Env.now` stands for every `new Date()` that reads the wall clock;
- `Env.parseIso` stands for `new Date(iso)`;
- `Env.num` stands for `Number(string)`;
- `Calendar` stands for date-fns' `startOfHour`, `startOfDay`, `startOfWeek` and `startOfMonth`.

The lemmas about bucket placement assume `ValidCalendar`: each floor is not
after its date, is its own floor, and is monotone.

Dates are integer milliseconds (`Instant = Invalid | At(ms)`). Amounts are
`Num = NaN | Fin(real)`.

### Where the code and the design description differ

The model follows the code in each of these cases:

- **Session direction.** A session is `Long` exactly when the summed quantity of its trades is negative (`src/ui/App.jsx:181`, `:187`). It is not taken from the first trade's side. A buy of 100 and a sell of 100 five minutes later give one session with direction `Short` (`Sessions.RoundTripIsShort`), not `Long`.
- **Unparseable dates on the statement path.** The statement path keeps trades whose date does not parse (`src/ui/App.jsx:114-120`). Only the Flex path drops them. Invalid dates then make comparisons false and differences NaN downstream.
- **Missing comma in a timestamp.** A timestamp with no comma becomes the current time (`src/ui/App.jsx:130-131`), rather than being dropped (`IbTime.NoCommaIsNow`).
- **No fallbacks.** Realized PnL has no proceeds/cost-basis fallback, and trades have no `side` field.
- **Malformed numbers.** Malformed numeric cells become NaN (`Number("x")`), not 0. Empty cells become 0, because `Number("")` is 0: an empty quantity, realized or fee cell on the Flex path (`src/ui/App.jsx:92-94`) and every empty cell the script converts (`main.js:99-103`). On the Flex path a missing realized or fee cell is read as `'0'`. On the statement path an empty fee or realized cell is replaced by 0 before conversion (`src/ui/App.jsx:118-119`). The model keeps `Number` as the parameter `Env.num` and does not constrain it, so it leaves the value of `Number("")` abstract.
- **Resampling.** The resampling test `prev.t < p.t` compares a point with the stored bucket start, not with the previous point. For ascending input, a bucket therefore keeps its last point's value, except when that point lies exactly on the bucket start. In that case the bucket keeps the first point's value (`Series.ResampleSortedValue`, `Series.ResampleTieKeepsFirst`).
- **Range keys.** In the React application, every range key other than `24h`, `1w` and `all` means 30 days. In the script, an unknown key means the epoch.

## Model

| member | source | states |
|---|---|---|
| Js.CellAt | src/ui/App.jsx:109 | `r[i]` is a value exactly for an index inside the row, and that value is the row's cell. |
| Js.IndexOf | src/ui/App.jsx:79 | `header.indexOf(name)` is -1 exactly when the name is absent; otherwise it is the first position holding the name. |
| Js.RemoveCommas | src/ui/App.jsx:92 | `replaceAll(',', '')` leaves no comma, never lengthens the text, leaves comma-free text unchanged, and keeps every other character as often as the input has it. |
| Js.RemoveCommasAppend | src/ui/App.jsx:92 | Removing commas works character by character: it distributes over concatenation. |
| Js.Trim | src/ui/App.jsx:129 | `trim()` gives a slice of the input that neither starts nor ends with white space, with only white space before and after it in the input. |
| Js.TrimIdempotent | src/ui/App.jsx:129 | Trimming twice is trimming once. |
| Js.Fields | src/ui/App.jsx:128 | `split(',')` gives at least one field, and no field holds a comma. |
| Js.JoinFields | src/ui/App.jsx:128 | Joining the fields of `split(',')` with commas gives back the text. |
| Js.FieldsOfJoin | src/ui/App.jsx:128 | Splitting comma-free fields joined with commas gives back the fields. |
| Js.Add | src/ui/App.jsx:137 | A floating-point sum is a number exactly when both terms are, and is then their sum. |
| Js.Minus | src/ui/App.jsx:172 | The difference of two dates is a number exactly when both are valid, and is then the difference in milliseconds. |
| Order.CollectMembers | src/ui/App.jsx:106-121 | A keep-and-convert loop over a range of indices keeps exactly the converted elements of that range for which the conversion succeeds. |
| Order.OrderedSnoc | src/ui/App.jsx:122 | Appending an element no earlier than the last keeps a sequence in comparator order. |
| Order.SortIsPermutation | src/ui/App.jsx:98 | `sort((a, b) => a.t - b.t)` only reorders: same length, same multiset. |
| Order.SortOrdered | src/ui/App.jsx:122 | Whatever the dates, no element of the sorted sequence is directly followed by one the comparator calls earlier. |
| Order.SortSorted | src/ui/App.jsx:122 | When every date is valid, the sort returns the elements in ascending date order. |
| Order.SortStable | src/ui/App.jsx:98 | The sort is stable: the elements sharing any one date, valid or invalid, keep their input order. |
| Order.SortIdempotent | src/ui/App.jsx:216 | Sorting sorted output changes nothing. |
| IbTime.ParseIbTime | src/ui/App.jsx:126-133 | A value without a comma gives the caller's current time (main.js:123-132 is the same function). |
| IbTime.ParseDateAndTime | src/ui/App.jsx:128-129 | `"date, time"`, possibly followed by more comma-led text, parses as the trimmed date and time joined by `T`; the further fields are ignored. |
| IbTime.NoCommaIsNow | src/ui/App.jsx:130-131 | A missing cell, or text without a comma, gives the current time: `.trim()` of the missing time part throws and the handler returns `new Date()`. |
| Statement.SectionEnd | src/ui/App.jsx:107-110 | The section scan stops at the first row whose first cell is non-empty and not `Transaktionen`, or at the end of the table; no row before that stops it. |
| Trades.FindSectionIndices | src/ui/App.jsx:66-70 | The listed indices are ascending, are exactly the rows whose first cell starts with the prefix, and equal the index-scan specification. |
| Trades.SectionStartFrom | src/ui/App.jsx:103-105 | The section starts at the first row opening a `Transaktionen` section, and no earlier row opens one. |
| Trades.SignedQty | src/ui/App.jsx:95-96 | The quantity is `-abs(qty)`, never positive, when the side upper-cases to `SELL`; otherwise it is `abs(qty)`, never negative. NaN stays NaN. |
| Trades.FlexTrade | src/ui/App.jsx:88-96 | An export row gives a trade exactly when it is non-empty and its date is valid. The trade carries that date and the row's symbol cell. Its quantity is the comma-free quantity cell (empty when missing) signed by the side cell. Its realized and fee amounts are the comma-free cells, read as `'0'` when missing. |
| Trades.NumberOrZero | src/ui/App.jsx:118-119 | `Number(c \|\| 0)`: an empty or missing cell is 0. |
| Trades.ClosedTrades | src/ui/App.jsx:72-124 | No trades for something that is not an array, for an empty table, or for a table with neither a Flex header nor a `Transaktionen` row. |
| Trades.BuildClosedTrades | src/ui/App.jsx:72-124 | The method computes the Flex or statement reconstruction followed by the date sort. |
| Trades.ReadFlexRows | src/ui/App.jsx:87-97 | The Flex loop keeps, in row order, the trade of every row after the header that `FlexTrade` accepts. |
| Trades.StartsGiveSectionStart | src/ui/App.jsx:103-106 | The first index `findSectionIndices` reports is the first row opening a `Transaktionen` section; an empty list means there is none. |
| Statement.ScanSection | src/ui/App.jsx:107-121 | The section loop (the same in both versions, `main.js:70-82`) keeps, in row order, what the row selector makes of each row from the one after the section start up to the section end. |
| Statement.SectionEndFirst | src/ui/App.jsx:107-110 | No row between the section start and the section end stops the scan. |
| Trades.FlexOrder | src/ui/App.jsx:86-99 | Flex path: at most one trade per row after the header; every date is valid, in ascending order. |
| Trades.FlexMembers | src/ui/App.jsx:87-97 | Flex path: the trades are exactly those `FlexTrade` gives for rows after the header; the header is never a trade. |
| Trades.StatementOrder | src/ui/App.jsx:106-123 | Statement path: at most as many trades as rows after the section start; ordered by the comparator, and ascending when every date is valid. |
| Trades.StatementSelectInSection | src/ui/App.jsx:108-113 | Inside the section, a row is selected exactly when its first cell is `Transaktionen`, `r[1]` is `Data` and `r[13]` contains `C`. |
| Trades.StatementMembersSound | src/ui/App.jsx:107-120 | Every statement trade comes from a closing data row of the section, built from columns 4, 5, 6, 9 and 11. |
| Trades.StatementMembersComplete | src/ui/App.jsx:107-120 | Every closing data row of the section gives its trade. |
| Trades.StatementMembers | src/ui/App.jsx:105-121 | A trade is in the result exactly when some closing data row between the section start and its end describes it. |
| Curve.Running | src/ui/App.jsx:135-138 | The running-total line has one point per item. |
| Curve.RunningTotal | src/ui/App.jsx:135-138 | The `sum +=` loop gives point `i` the date of item `i` and the total of items `0..i`. |
| Curve.RunningLast | src/ui/App.jsx:137 | The last point carries the total of all items. |
| Curve.RunningStep | src/ui/App.jsx:137 | Each point adds the next item's amount to the previous point's value. |
| Curve.TotalNaN | src/ui/App.jsx:137 | The running total is NaN exactly when some amount is NaN. |
| Curve.TotalIsSum | src/ui/App.jsx:137 | A total that is a number equals the sum of the amounts. |
| Curve.KeepFrom | src/ui/App.jsx:243 | The date filter never lengthens the line. |
| Curve.KeepFromMembers | src/ui/App.jsx:243 | A point passes the filter exactly when it is dated at or after the start; invalid dates never pass. |
| Curve.KeepFromNested | main.js:165-174 | Filtering from a later start after an earlier one equals filtering from the later start. |
| Curve.KeepFromAll | src/ui/App.jsx:243 | A line whose points are all at or after the start passes unchanged. |
| Sessions.Clusters | src/ui/App.jsx:166-184 | Every run of the inner loop is non-empty. |
| Sessions.Summaries | src/ui/App.jsx:180-187 | One session record is pushed per run. |
| Sessions.GroupBySymbol | src/ui/App.jsx:157-161 | `bySymbol` lists the symbols in order of first appearance, and maps each to that symbol's trades in input order. |
| Sessions.ClusterSymbol | src/ui/App.jsx:165-188 | The sweep with a mutable `current` pushes exactly the sessions of the runs of the sorted trades. |
| Sessions.GroupTradesIntoSessions | src/ui/App.jsx:155-191 | The whole function returns the sessions of each symbol, symbol by symbol, with the gap `gapMinutes * 60 * 1000`. |
| Sessions.ClustersFlatten | src/ui/App.jsx:167-188 | The runs, concatenated, give back the trades. |
| Sessions.ClustersChained | src/ui/App.jsx:172 | Consecutive trades of a run are within the inclusive gap. |
| Sessions.ClustersSeparated | src/ui/App.jsx:172-182 | The first trade of a run is not within the gap of the last trade of the previous run. |
| Sessions.ClustersSplit | src/ui/App.jsx:166-188 | The runs form a split: non-empty, covering the trades in order, chained inside, separated between. |
| Sessions.SplitIsClusters | src/ui/App.jsx:166-188 | Any such split is the one the loop computes: the cut points are forced. |
| Sessions.ClustersOrdered | src/ui/App.jsx:165-178 | Runs cut from date-ordered trades are date-ordered. |
| Sessions.KeysMembers | src/ui/App.jsx:159 | A symbol is a key exactly when some trade carries it. |
| Sessions.KeysDistinct | src/ui/App.jsx:159 | No symbol is a key twice. |
| Sessions.TradesOfMembers | src/ui/App.jsx:160 | A symbol's group holds exactly the trades that carry the symbol. |
| Sessions.SymbolSessionsTrades | src/ui/App.jsx:164-188 | The sessions of one symbol carry, together and in order, exactly the trades given to the sweep. |
| Sessions.SessionsPartitionSymbol | src/ui/App.jsx:155-191 | Per symbol, concatenating the trades of its sessions gives that symbol's trades sorted by date, each exactly once. |
| Sessions.SessionsApart | src/ui/App.jsx:172 | Per symbol, the next session starts more than the gap after the previous one ends, or a date is invalid. |
| Sessions.SessionsWellFormed | src/ui/App.jsx:169-187 | Every session: `fills` is the number of trades and at least 1; start and end are the first and last trade's dates; duration is `end - start`; `realized` and `fees` are the sums over its trades; `net = realized - fees`; the direction is `Long` exactly when the summed quantity is negative; its trades share its symbol, are in date order and are chained within the gap. |
| Sessions.SessionDuration | src/ui/App.jsx:180 | A session with a valid start has a numeric duration of at least 0. |
| Sessions.SessionsConserveTrades | src/ui/App.jsx:157-188 | Across all symbols, the sessions hold every trade exactly once (multiset equality). |
| Sessions.SessionsConserveSums | src/ui/App.jsx:176-177 | The sessions' realized PnL and fees add up to those of all trades. |
| Sessions.RoundTripIsShort | src/ui/App.jsx:181 | A buy of 100 and a sell of 100 five minutes later form one session (realized 30, fees 2, net 28, fills 2) whose direction is `Short`. |
| Series.CumulativePnL | src/ui/App.jsx:135-138 | Point `i` is trade `i`'s date with the running sum of `realized` over trades `0..i`. |
| Series.RangeStart | src/ui/App.jsx:238-242 | The range start lies before now: exactly 24 hours back for `24h`, 7 days back for `1w`, and 30 days back for any other key. |
| Series.InRangeMembers | src/ui/App.jsx:243 | `all` keeps the line; any other key keeps exactly the points dated at or after its start. |
| Series.InRangeNested | src/ui/App.jsx:237-243 | For one now, the `24h` line is the `1w` line filtered again, and the `1w` line is the 30-day line filtered again. |
| Series.GrainForSpan | src/ui/App.jsx:193-198 | The grain is never `month`. |
| Series.GrainChoice | src/ui/App.jsx:193-198 | `hour` exactly for `24h`, whatever the span; otherwise `week` exactly when the span is a number above 90 days (strict); otherwise `day`. |
| Series.GrainMonotone | src/ui/App.jsx:196 | A longer span never gives a finer grain. |
| Series.StartOfBucket | src/ui/App.jsx:200-205 | The bucket start is valid exactly when the date is. |
| Series.BucketProperties | src/ui/App.jsx:200-205 | With a valid calendar, a bucket start is not after its date, is its own bucket start, and grows with the date. |
| Series.Values | src/ui/App.jsx:216 | `values()` has at most one entry per key. |
| Series.ResampleSeries | src/ui/App.jsx:207-217 | The loop over a `Map` followed by the sort computes the resampled series; empty input is returned as is. |
| Series.BucketedWellFormed | src/ui/App.jsx:209-215 | The map's keys are distinct and are its domain; each entry is dated at its key; there are no more keys than points. |
| Series.ValuesOfKeys | src/ui/App.jsx:216 | For a well-formed map, `values()` lists each key's entry in key order. |
| Series.BucketedDomain | src/ui/App.jsx:210-214 | The map has an entry for exactly the buckets that some point falls into. |
| Series.BucketedSlots | src/ui/App.jsx:211-214 | Each entry is dated at its bucket start and holds the value of its kept point: the last point of the bucket dated after the bucket start, or else the bucket's first point. |
| Series.ResampleMembers | src/ui/App.jsx:207-217 | A point is in the output exactly when it is a bucket start with the value of that bucket's kept point. |
| Series.ResampleShape | src/ui/App.jsx:207-217 | The output is no longer than the input, has distinct dates, is ordered, and is ascending when every input date is valid. |
| Series.ResampleLastValue | src/ui/App.jsx:213-214 | When a bucket's last point is after the bucket start, the bucket holds that point's value, whatever the input order. |
| Series.ResampleFirstValue | src/ui/App.jsx:214 | When no point of a bucket is after the bucket start, the bucket holds its first point's value. |
| Series.ResampleSortedValue | src/ui/App.jsx:213-214 | For ascending input, a bucket holds its last point's value, unless that point lies exactly on the bucket start; then it holds its first point's value. |
| Series.ResampleIdempotent | src/ui/App.jsx:207-217 | Resampling resampled output at the same grain changes nothing. |
| Series.ResampleTieKeepsFirst | src/ui/App.jsx:214 | Two points, both exactly at an hour's start with values 1 and 2, resample to the single point with value 1. |
| Series.UseSeries | src/ui/App.jsx:233-247 | No rows give no points. Otherwise: the cumulative PnL of the closed trades, cut to the range, resampled at the grain of the cut line's span. |
| Series.SeriesShape | src/ui/App.jsx:243-246 | The chart has no more points than closed trades, and its dates are distinct and in order. |
| Series.TotalsSplit | src/ui/App.jsx:324-328 | Profit and loss are sums of non-negative terms, and their difference is the summed realized PnL. |
| Series.Totals | src/ui/App.jsx:320-330 | The totals loop (and its early return for no trades) gives profit >= 0 and loss >= 0, with profit - loss the sum of `Number(realized) \|\| 0`. |
| Series.FormatDurationParts | src/ui/App.jsx:144-153 | A dash exactly for NaN, 0 or a negative duration. Otherwise the printed days, hours (below 24) and minutes (below 60) add back up to the whole minutes, leading zero units omitted. |
| Legacy.FindSectionIndices | main.js:56-62 | The listed indices are ascending, and are exactly the rows whose first cell is non-empty and starts with the prefix. |
| Legacy.OpensAgree | main.js:59 | The script's row test agrees with the React application's for every non-empty prefix. |
| Legacy.ExtractTransactions | main.js:64-83 | The method computes the kept rows of the first `Transaktionen` section, or none. |
| Legacy.ScansAgree | main.js:56-62 | For the `Transaktionen` marker, the script's `findSectionIndices` reports the same rows as the React application's. |
| Legacy.TransactionsNone | main.js:66-67 | Without a `Transaktionen` row, nothing is extracted. |
| Legacy.TransactionFromRow | main.js:71-80 | Every extracted row lies inside the section, starts with the marker and is `Data`, `SubTotal` or `Total`. |
| Legacy.RowIsTransaction | main.js:71-80 | Every such row of the section is extracted. |
| Legacy.TransactionsMembers | main.js:64-83 | A row is extracted exactly when it lies after the first `Transaktionen` row and before the section end, starts with the marker, and is `Data`, `SubTotal` or `Total`. |
| Legacy.NumberOf | main.js:99-103 | `Number(undefined)` is NaN. |
| Legacy.BuildClosedTrades | main.js:85-121 | The loop followed by the sort computes the date-sorted trades of the closing data rows. |
| Legacy.ClosedTradesProperties | main.js:85-121 | At most one trade per row; a trade is produced exactly for each row with `r[1] === 'Data'` and `C` in `r[13]`, built from that row; ordered, and ascending when every date is valid. |
| Legacy.RollingSeriesFromTrades | main.js:134-142 | Same length as the trades; point `i` has trade `i`'s `dateTime` and the sum of `realized` over trades `0..i`. |
| Legacy.FilterRangeMembers | main.js:165-174 | `all` returns the line itself; any other key keeps exactly the points dated at or after its start, which is the epoch for an unknown key. |
| Legacy.FilterRangeNested | main.js:165-174 | For one now: `24h` ⊆ `1w` ⊆ `1m` ⊆ `all`, each range being the next one filtered again. |
| Legacy.Update | main.js:249-264 | In PnL mode, the table gets the closed trades of the extracted rows, and the chart gets their cumulative line cut to the range. |
| Legacy.ChartShape | main.js:249-257 | With `all`, the chart has one point per closed trade, at most one per extracted row, and its last value is the total realized PnL. |

## Left out

- The React component body, the JSX, the chart options and tooltips, the table sort comparators and the expansion state (`src/ui/App.jsx:250-593`) are user interface. So are the DOM rendering and the event listeners of the script (`main.js:181-305`).
- The in-place descending sort of the sessions for display (`src/ui/App.jsx:314`) is a presentation step after `groupTradesIntoSessions`.
- File reading, `fetch`, `FileReader` and `Papa.parse` (`src/ui/App.jsx:332-342`, `main.js:22-54`) are input/output. The model starts from the parsed table.
- `generateDemoRows` (`src/ui/App.jsx:21-55`) depends on `Math.random` and the wall clock.
- `accountSeries` and `accountValueFromSections` (`src/ui/App.jsx:219-231`, `main.js:144-163`) build a synthetic two-point line from `now`, scaled by 0.95. In the React application they never run, because the mode is fixed to PnL. `Legacy.Update` models only the PnL mode.
- The module-level state of the script (`rawRows`, `currentMode`, `currentRange`) is reassigned by event handlers. `Legacy.Update` takes the rows and the range as parameters instead.
- `Number(string)`, `new Date(iso)` and date-fns' start-of functions depend on JavaScript number syntax and on the local time zone. They are parameters (`Env.num`, `Env.parseIso`, `Calendar`), and bucket placement is proved under the stated `ValidCalendar` assumptions.
- Floating point is modelled as exact real arithmetic with NaN. Rounding and the infinities are not modelled, so sums are exact.
- `Intl.NumberFormat` and date formatting (`formatCurrency`, `fmtCurrency`) are not modelled. Neither is the rendering of `formatDuration`'s result as text: `Series.FormatDuration` returns the units it would print.
- Order.SortByTime: when a date is invalid, the comparator `a.t - b.t` returns NaN, and the language leaves the order of `Array.prototype.sort` to the engine. The model uses a stable insertion sort. Its contract promises a permutation that is ordered wherever neighbouring dates are comparable, and sorted only when every date is valid.
- `toUpperCase()` is modelled only as far as the `=== 'SELL'` test needs it (`Js.UppercasesToSell`). The Unicode case mapping of other text is not modelled.
- Sessions.GroupTradesIntoSessions: `gapMinutes` is an integer. The default of 15 minutes belongs to the caller, and a fractional gap is not modelled.
- Series.UseSeries: the `useMemo` caching of the hook is not modelled. The function is evaluated afresh.
