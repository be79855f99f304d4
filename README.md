# Trading dashboard: import transforms and the statistics page

This project models two pieces of a small MetaTrader 5 trading dashboard.

- The **import script** `mt5_data_import/collecting_mt5_data.py` reads the account's deal history. It keeps the earliest
  opening deal of every position (`open_info`) and aggregates the deals per position into one closed-position row.
  It then adds to each row its opening time and price, its weekday and its trading session, and writes the rows with
  an `INSERT … ON DUPLICATE KEY UPDATE` statement that updates every column except the primary key.
- The **statistics view** `overview/views.py` `statistics` renders one page:
  - the open and closed position counters;
  - a daily equity curve from 2025-08-01 to today, carried forward from the last account snapshot of each day,
    with its day-to-day changes;
  - four win-rate tables (weekday, session, month, year), each seeded with zero rows and then filled from a
    grouped query;
  - the total profit over the year table;
  - the label of the account's trade mode.

Modules, one per file:

| file | module | what |
|---|---|---|
| wrappers.dfy | Wrappers | `Option`, `Result` |
| calendar.dfy | Calendar | UTC day, hour, weekday, month and year of a time in epoch seconds |
| dicts.dfy | Dicts | Python dicts with their insertion order (`Dict`, `Put`) |
| tables.dfy | Tables | the stored closed position and the stored account snapshot |
| ingest.dfy | Ingest | the MT5 deal, `get_session`, `open_info`, the per-position aggregation and the enrichment |
| upsert.dfy | Upsert | the SQL text built by `upload_df_with_update` |
| equity.dfy | Equity | the equity block of the view |
| buckets.dfy | Buckets | the four win-rate tables and the all-years total |
| overview.dfy | Overview | the trade-mode label and the whole view |

Where the code behaves otherwise than a reader of the page would expect, the model follows the code:

- **Opening deals are aggregated too.** The aggregation groups every deal of the history, opening deals included
  (`df_closed` is built from all deals). A position with only an opening deal therefore still gets a row.
- **Session boundaries.** The session of 09:00 UTC is "London", because the code's London window is 08:00–11:00.
- **Line 180 raises.** The `open_info` loop compares an integer with a datetime (see Findings below). The model uses
  the evidently intended comparison, which keeps the earliest opening deal.
- **A missing opening time breaks the month table.** A closed position stored without `time_open` groups under the
  month `None`, and `month_names[None]` raises `KeyError`, so the whole page fails.
- **A history without an opening deal stops the import.** When no aggregated row gets an opening time (an empty
  history included), `time_open` holds no datetime at all, pandas leaves it as a plain object column, and
  `.dt.weekday` raises `AttributeError` before anything is uploaded.
- **Missing keys are kept, not dropped.** In the weekday, session and year tables a position without an opening deal
  adds an extra entry beside the seeded ones: `None` for the weekday, `"None"` for the year (`str(None)`), and
  `"Unknown"` for the session, which the import script stores when the opening deal is missing. A Saturday or
  Sunday opening also lands under the weekday `None`, since the weekday map stops at Friday.

## Model

| member | source | states |
|---|---|---|
| Calendar.DayOf | overview/views.py:39 | the day number is the floor of the time divided by 86400 |
| Calendar.HourOf | mt5_data_import/collecting_mt5_data.py:12 | the hour is the whole number of hours between the start of the day and the time |
| Calendar.WeekdayOf | mt5_data_import/collecting_mt5_data.py:203 | `.dt.weekday` counts from Monday as 0 to Sunday as 6, and the first day of the epoch, 1 January 1970, is a Thursday (3) |
| Calendar.WeekdayNextDay | mt5_data_import/collecting_mt5_data.py:203 | one day later the weekday moves on by one, Sunday wrapping to Monday |
| Calendar.MonthsFillYear | overview/views.py:203 | the twelve months, with February's length set by the leap-year rule, exactly fill the year |
| Calendar.YearOf | overview/views.py:241 | `ExtractYear` gives the year, from 1970 on, whose days contain the day of the time |
| Calendar.MonthOf | overview/views.py:203 | `ExtractMonth` gives the month of that year whose days contain the day of the time |
| Dicts.Dict.Put | overview/views.py:42 | assigning a key sets its value; a new key goes last, an existing key keeps its place; keys stay distinct and match the entries |
| Ingest.GetSession | mt5_data_import/collecting_mt5_data.py:11-24 | each session label holds exactly for its hour window, "Out of Session" for every other hour, and the result is one of the six sessions |
| Ingest.Openings | mt5_data_import/collecting_mt5_data.py:175 | a deal is kept exactly when it is in the history and is an opening deal (entry 0) |
| Ingest.OpeningsAppend | mt5_data_import/collecting_mt5_data.py:175 | the comprehension is a filter: the opening deals of a joined history are those of each part, in the history's order, repeats kept |
| Ingest.BuildOpenInfo | mt5_data_import/collecting_mt5_data.py:175-184 | the loop computes `open_info` over the opening deals, which is the fold `OpenInfoOf` |
| Ingest.OpenInfoValid | mt5_data_import/collecting_mt5_data.py:177-184 | `open_info` lists each position once, and exactly the positions it maps |
| Ingest.OpenInfoKeys | mt5_data_import/collecting_mt5_data.py:177-184 | `open_info` has an entry exactly for the positions that have an opening deal |
| Ingest.OpenInfoEarliest | mt5_data_import/collecting_mt5_data.py:178-184 | the entry of a position holds the time and price of its earliest opening deal; on a tie, of the first such deal |
| Ingest.AsWrittenRaisesOnRepeat | mt5_data_import/collecting_mt5_data.py:178-184 | the loop as written raises exactly when a position has two opening deals, and otherwise gives the intended `open_info` |
| Ingest.ScaledInPositionRaises | mt5_data_import/collecting_mt5_data.py:180 | two opening deals of one position: the loop as written raises, the intended loop keeps the earlier deal |
| Ingest.SessionOf | mt5_data_import/collecting_mt5_data.py:218 | the entry keeps its opening time and price and gains the session of its opening hour |
| Ingest.AttachSessions | mt5_data_import/collecting_mt5_data.py:217-218 | the loop keeps the dict's keys and their order and gives every entry the session of its own opening time |
| Ingest.Group | mt5_data_import/collecting_mt5_data.py:187 | a position's group holds exactly the history's deals of that position |
| Ingest.MaxTime | mt5_data_import/collecting_mt5_data.py:194 | the result is the time of a deal of the group and no deal of the group is later |
| Ingest.Aggregate | mt5_data_import/collecting_mt5_data.py:187-195 | there is one row per position id of the history, carrying that id |
| Ingest.AggregateTimeClose | mt5_data_import/collecting_mt5_data.py:194 | a row's `time_close` is the time of one of its position's deals, and no deal of the position is later |
| Ingest.AggregateAppendOther | mt5_data_import/collecting_mt5_data.py:187-195 | a deal appended to the history leaves the rows of other positions unchanged |
| Ingest.AggregateAppendOwn | mt5_data_import/collecting_mt5_data.py:188-194 | an appended deal starts its position's row, or adds to its sums, sets `close_price` and moves `time_close` to the later time |
| Ingest.AggregateAppend | mt5_data_import/collecting_mt5_data.py:187-195 | appending a deal adds its position id to the rows, changes only its own position's row, and changes that row as one step of the aggregation |
| Ingest.AggregateFirstLast | mt5_data_import/collecting_mt5_data.py:188-190 | `symbol` comes from the position's first deal in the history and `close_price` from its last |
| Ingest.WeekdayLabel | mt5_data_import/collecting_mt5_data.py:203-213 | a weekday name exists exactly for an opening time on Monday to Friday, and it is that day's name |
| Ingest.CollectClosedPositions | mt5_data_import/collecting_mt5_data.py:171-221 | fails (the `.dt` accessor raising) exactly when the history has no opening deal; otherwise one row per position of the history, with the aggregated columns of its deals and its open-side columns as its deals determine them |
| Ingest.NoTimeWithoutOpenings | mt5_data_import/collecting_mt5_data.py:198-203 | every row lacks an opening time exactly when the history has no opening deal, so the `.dt` accessor fails exactly then |
| Ingest.EnrichOpenSide | mt5_data_import/collecting_mt5_data.py:198-221 | given `open_info` with its sessions, the mapping keeps the aggregated columns and fills the open side as the deals determine it |
| Ingest.OpenSideFacts | mt5_data_import/collecting_mt5_data.py:198-221 | a row has an opening time exactly when its position has an opening deal, and that time is the earliest opening deal's; the session is "Unknown" exactly when there is none, and otherwise one of the six sessions |
| Upsert.SubstringAt | mt5_data_import/collecting_mt5_data.py:35 | `col in primary_key` on a string key holds exactly when `col` occurs at some offset of the key name |
| Upsert.SplitJoin | mt5_data_import/collecting_mt5_data.py:36 | joining parts that contain no separator can be undone by splitting at the separator |
| Upsert.PlaceholdersShape | mt5_data_import/collecting_mt5_data.py:31 | the placeholder list is `%s,` repeated, `3n-1` characters long (empty for no columns) |
| Upsert.PlaceholdersSplit | mt5_data_import/collecting_mt5_data.py:31 | the placeholder list splits back into exactly `n` copies of `%s` |
| Upsert.UpdateColumns | mt5_data_import/collecting_mt5_data.py:35 | a column is updated exactly when it is a frame column not in the primary key |
| Upsert.UpdateColumnsOrdered | mt5_data_import/collecting_mt5_data.py:35 | the update columns are a subsequence of the frame columns, and distinct if those are |
| Upsert.UpdateClauseLists | mt5_data_import/collecting_mt5_data.py:35-36 | the update clause splits back into one `col=VALUES(col)` per update column, in order, and no key column has one |
| Upsert.AssignmentInjective | mt5_data_import/collecting_mt5_data.py:36 | different columns give different assignments |
| Upsert.ActiveColumnsMatchOnlyKey | mt5_data_import/collecting_mt5_data.py:124-135 | of the open-positions columns, only `position_id` is a substring of "position_id" |
| Upsert.ActiveUpdateColumns | mt5_data_import/collecting_mt5_data.py:242 | the open-positions upload updates every column but `position_id`, as the key list `['position_id']` would |
| Upsert.ClosedColumnsMatchOnlyKey | mt5_data_import/collecting_mt5_data.py:187-221 | of the closed-positions columns, only `position_id` is a substring of "position_id" |
| Upsert.ClosedUpdateColumns | mt5_data_import/collecting_mt5_data.py:243 | the closed-positions upload updates every column but `position_id`, as the key list `['position_id']` would |
| Upsert.DropsOnlyHead | mt5_data_import/collecting_mt5_data.py:35 | a column list whose only key column is its first loses exactly that column |
| Upsert.DropsBothEnds | mt5_data_import/collecting_mt5_data.py:35 | a column list whose key columns are exactly its first and last loses exactly those two |
| Upsert.StringKeyActsAsList | mt5_data_import/collecting_mt5_data.py:35 | a string key acts as the one-element key list when no other column is a substring of it |
| Upsert.AccountUpdateColumns | mt5_data_import/collecting_mt5_data.py:244 | the account upload updates every column except `account_login_number` and `time_last_update` |
| Upsert.SubstringKeyDropsId | mt5_data_import/collecting_mt5_data.py:35 | with the string key "position_id", a column "id" is not updated, though the key list `['position_id']` would update it |
| Upsert.UpsertSqlColumns | mt5_data_import/collecting_mt5_data.py:40 | the statement starts with `INSERT INTO`, the table and ` (`, and its column list splits back into exactly the frame's columns, in order |
| Upsert.UpsertSqlPlaceholders | mt5_data_import/collecting_mt5_data.py:31-40 | after `)VALUES (` the statement holds exactly one `%s` per column |
| Upsert.UpsertSqlUpdates | mt5_data_import/collecting_mt5_data.py:35-40 | the statement ends with ` ON DUPLICATE KEY UPDATE` and one `col=VALUES(col)` per non-key column, none for a key column |
| Equity.EquityByDay | overview/views.py:38-42 | the loop over the snapshots builds `equity_by_day` as the fold `ByDay` |
| Equity.LastKnownEquity | overview/views.py:38-41 | `last_equity` is the equity of the latest snapshot whose equity is set and non-zero, or the starting capital if none is |
| Equity.ByDayKeys | overview/views.py:36-42 | `equity_by_day` has an entry exactly for the days with a snapshot, each listed once |
| Equity.ByDayLastSnapshot | overview/views.py:38-42 | a day's entry is `last_equity` as it stood after that day's last snapshot |
| Equity.StartDateIsAugustFirst2025 | overview/views.py:45 | the start day number of the curve is 1 August 2025 in the same calendar as `YearOf` and `MonthOf` |
| Equity.FillDaily | overview/views.py:44-61 | one row per day from the start date through the end date, each with the forward-filled equity of that day |
| Equity.FilledAtLatest | overview/views.py:52-54 | the filled equity is that of the latest day with an entry up to that day, or the starting capital if none |
| Equity.FilledIgnoresEarlyDays | overview/views.py:52-54 | entries before the start date never change the curve |
| Equity.Changes | overview/views.py:65 | one change per value (one for an empty series), the first being 0 |
| Equity.ChangesAt | overview/views.py:65 | each later change is the difference from the previous value |
| Equity.ChangesTelescope | overview/views.py:63-65 | the changes add up to the last value minus the first |
| Equity.RebuildChanges | overview/views.py:63-65 | the first value and the changes give back the whole series |
| Equity.AttachChanges | overview/views.py:64-67 | each row keeps its date and equity and gains its change from the previous day, 0 on the first |
| Equity.EquityData | overview/views.py:31-67 | the equity curve: one row per day from 2025-08-01 through today, with the forward-filled equity and its daily change |
| Buckets.Bucket | overview/views.py:92-93 | a group holds exactly the positions with that group value |
| Buckets.Winrate | overview/views.py:99-107 | the win rate is 0 for an empty group, otherwise wins × 100 / total, and it lies in 0..100 |
| Buckets.StatOf | overview/views.py:94-107 | the count is the group size, wins do not exceed it, the win rate is in 0..100, and the stats are zero exactly for an empty group |
| Buckets.ObservedKeys | overview/views.py:92-93 | the group values of the query: each observed value once, and only observed values |
| Buckets.GroupRows | overview/views.py:91-111 | one query row per observed value, with the stats of exactly that value's positions |
| Buckets.NatToStringInjective | overview/views.py:259 | different years give different `str(year)` keys |
| Buckets.MonthNamesDistinct | overview/views.py:184-197 | `month_names` maps different months to different names |
| Buckets.RenameInjective | overview/views.py:220-259 | two query rows are never stored under the same dict key |
| Buckets.BucketIsLabelBucket | overview/views.py:123-130 | the positions of a query row are exactly the positions counted under its dict key |
| Buckets.UniverseDistinct | overview/views.py:72-236 | no seeded name list (weekdays, sessions, month names, years) repeats a name |
| Buckets.Seeded | overview/views.py:74 | the seeded table has exactly the universe's names, each with zero stats |
| Buckets.SeededInOrder | overview/views.py:74 | a universe without repeated names is seeded in its own order: the table's keys are the universe |
| Buckets.Merge | overview/views.py:123-130 | the storing loop computes the fold `MergeOf` |
| Buckets.MergeFailure | overview/views.py:220-222 | the loop raises exactly at the first row without a dict key, with that row's value as the error |
| Buckets.MergeKeepsKeys | overview/views.py:123-130 | storing keeps the seeded names first, in their order, and keeps keys distinct |
| Buckets.MergeLookup | overview/views.py:123-130 | a name holds the stats of the last row stored under it, or keeps its seed value if no row is |
| Buckets.TableFor | overview/views.py:72-130 | one table is the merge of the grouped query into the seeded dict |
| Buckets.TableFails | overview/views.py:220-222 | only the month table raises, with `KeyError(None)`, and exactly when a position has no opening time |
| Buckets.TableContents | overview/views.py:72-265 | a table lists the seeded names first, in their order (Monday to Friday, the six sessions, January to December, 2025 to 2027), and besides them holds exactly the names some position is counted under, each entry with the stats of exactly its positions |
| Buckets.TableEntry | overview/views.py:72-265 | a name is in a table exactly when it is seeded or some position is counted under it, and then holds those positions' stats |
| Buckets.TableSane | overview/views.py:99-107 | every entry of a table has wins ≤ count, and a win rate in 0..100 that is 0 when the count is 0 |
| Buckets.UnusedLabelIsZero | overview/views.py:74 | a seeded name under which no position is counted keeps zero stats |
| Buckets.TotalIsLabelSums | overview/views.py:267 | summing the stored profits over the keys equals summing the profits counted under those keys |
| Buckets.LabelSumsPartition | overview/views.py:267 | if every position is counted under one of the distinct keys, the sums over the keys add up to all the profit |
| Buckets.YearTotalIsAllProfit | overview/views.py:235-267 | the year table never raises, and `total_profit_all_years` is the profit of every closed position |
| Buckets.LabelCountsPartition | overview/views.py:95 | if every position is counted under one of the distinct keys, the bucket sizes over the keys add up to the number of positions: none is lost or counted twice |
| Buckets.TotalIsLabelCounts | overview/views.py:95 | adding up the stored `total_positions` over the keys equals adding up the sizes of the buckets under those keys |
| Buckets.TableLabelsAll | overview/views.py:217-222 | a table that does not raise has a name for every position |
| Buckets.TableCountsAllPositions | overview/views.py:72-265 | in a table that does not raise, the `total_positions` of all its entries add up to the number of closed positions |
| Buckets.CountIsAllPositions | overview/views.py:72-265 | the weekday, session and year tables never raise, and their `total_positions`, extra keys included, add up to the number of closed positions |
| Overview.TradeModeLabel | overview/views.py:273-280 | codes 0..3 give "Demo", "Live", "Strategy Tester", "Contest Mode"; exactly the other codes give "Unknown" |
| Overview.TradeModeLabelsDistinct | overview/views.py:273-278 | the four codes have four different labels |
| Overview.ViewTables | overview/views.py:72-267 | the weekday, session and year tables never raise; the month table raises exactly when a position has no opening time; the year totals add up to all the profit |
| Overview.Statistics | overview/views.py:24-293 | the view raises exactly when a position has no opening time or there is no account, and otherwise renders the counters, the equity curve, the four tables, the total profit and the trade-mode label |
| Overview.SessionUniverseIsSessions | overview/views.py:135 | the session table is seeded with exactly the import script's session labels, in order |
| Overview.WeekdayUniverseIsWeekdayNames | overview/views.py:72 | the weekday table is seeded with exactly the import script's weekday names, in order |
| Overview.ImportedPositionKeys | mt5_data_import/collecting_mt5_data.py:203-221 | an imported position is counted under a seeded weekday or under None, and under a seeded session, or "Unknown" exactly when it has no opening deal |
| Overview.MonthRaisesWithoutOpening | overview/views.py:220-222 | a closed position without an opening deal in the history makes the month table raise with `KeyError(None)` |

## Left out

- Django plumbing (`index`, `dashboard`, `closed_positions`, templates, URLs, JavaScript): these only pass querysets
  to templates.
- MetaTrader 5, MySQL and matplotlib I/O (login, `positions_get`, `history_deals_get`, `executemany`, `commit`,
  `TRUNCATE`, printing). The deal history is a parameter. The upload is modelled as the SQL text it sends.
- pandas mechanics (`DataFrame`, `to_datetime`, `where(notnull)`, `to_numpy`). Rows are datatypes, and a missing value is
  `None`.
- Floating point and `round(..., 2)`: equity, profit and win rates are exact reals, so rounding is not modelled.
- Times: every time is whole seconds since the epoch, in UTC. `date.today()` is the parameter `today`. `strftime`
  formatting of the dates is not modelled; a row holds the day number.
- Row order of the ORM queries: grouped rows are taken in order of first occurrence. The `order_by` clauses only
  change the dict order of values outside the seeded names, and that order is not modelled.
- `Account.objects.last()` is the parameter `lastAccount` and is not tied to the history. The open position count is
  the parameter `openCount`.
- `json.dumps` of the equity rows, and the in-place update of each row dict with `equity_change`: each row is a new
  value.
- A nullable `profit` column: `Sum('profit')` over NULL profits is not modelled; every stored profit is a number.
- Calendar.YearOf: the year, month and weekday are pinned down by the Gregorian day counts `YearStart` and
  `MonthStart` defined here; those counts are not proved against a reference calendar such as Python's `datetime`.
- Ingest.Aggregate: states only the row keys and ids; the values of the rows are stated by the append lemmas and
  `AggregateFirstLast`.
- The active-positions and account frames of the import script are modelled only through their columns and upload
  statements, since those rows are copied field by field.

## Findings

| source | as written | input that shows it | evidently intended | confidence | as-written member | corrected member |
|---|---|---|---|---|---|---|
| mt5_data_import/collecting_mt5_data.py:180 | `deal.time < open_info[pid]['time_open']` compares an integer epoch time with the stored `datetime`, so it raises TypeError | two opening deals of one position (a position scaled into), e.g. times 1000 and 400 for position 7 | keep the earliest opening deal of each position: compare the deal time with the stored time | not executed | Ingest.ScaledInPositionRaises | Ingest.OpenInfoEarliest |
