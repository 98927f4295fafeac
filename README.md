# Hardpoint force aggregation and block filtering, modelled in Dafny

This project models the logic of a small analysis package for the telescope
mount (TMA) and the M1M3 hardpoints. The package works on slew events that an
external event classifier supplies and on answers from the telemetry archive
(the EFD). It has three pieces of logic:

- **Block-id row filter** (`filter_by_block_id`). It finds the first run of
  decimal digits in a block name and reads it as an integer, so leading zeros
  are dropped. It writes that number with at least three digits (`f"{n:03d}"`)
  and keeps, in their original order, the rows of a Script table whose
  `blockId` contains that key. It fails when the table has no `blockId` column,
  and it fails when the name has no digit.
- **Concurrent per-slew aggregation** (`get_hp_minmax_forces` in the package).
  Each event first passes a gate:
  - an event of another type is dropped silently;
  - an event of the requested type that ended in a fault is dropped, and a
    notice is printed.

  For an event that passes, the azimuth and elevation answers (first and last
  position) and the hardpoint-force answer (minimum and maximum of each of six
  channels) are normalised. An empty answer becomes one row of nulls.
  Otherwise the derived columns are computed: end minus start, the smallest
  channel minimum and the largest channel maximum. The event's metadata is
  attached. Per-event tables that hold a null are dropped, and the rest are
  concatenated in event order. Concatenating an empty list fails.
- **Sequential aggregation** (`get_hp_minmax_forces` in the T227 notebook).
  It is a loop with the same gate. It skips an event whose azimuth or
  elevation data lacks `actualPosition`. For every other event it appends one
  row to an accumulator: sequence number, last minus first azimuth and
  elevation, and the minimum and maximum force over all channels and samples.

The package's `script_states` and `block_status` filters, and the notebook's
`query_block_status`, are modelled too.

Modules, one per source file or shared concern:

- `Frames` (`frames.dfy`): nullable cells, the failures the helpers raise, and
  tables of rows.
- `Seqs` (`seqs.dfy`): order-preserving selection (`df[mask]`), selection with
  a transformation (a loop that appends one value per accepted element),
  concatenation, and the minimum and maximum of a sequence.
- `BlockFilter` (`block_filter.dfy`): `python/lsst/sitcom/tn092/utils.py`.
  The notebook's `filter_by_block_id` (`notebooks/BLOCK_T227_utils.py:38-58`)
  is a verbatim copy and is modelled by the same function.
- `Tma` (`tma.dfy`): slew events and the type and fault gate both
  aggregators share.
- `SlewQuery` (`slew_query.dfy`): `python/lsst/sitcom/tn092/query.py`.
- `T227Notebook` (`t227_notebook.dfy`): `notebooks/BLOCK_T227_utils.py`.

The archive is an input. In `SlewQuery` it is a function from an event's time
window `(begin, end)` to the three query answers. In `T227Notebook` it is a
function from an event to the raw samples `getEfdData` returns. Numbers are
`real`. `asyncio.gather` returns its results in the order of its awaitables,
so the batch is an ordered map over the events. Each coroutine prints its
fault notice before its first `await`, so the notices also come out in event
order.

The per-event helpers of `query.py` assign derived columns into a frame they
have just built and never share. They are therefore modelled as functions
that return the finished row. The notebook's loop reassigns its accumulator on
every iteration, so it is modelled as a method with a loop, proved against the
function `SummaryTable`.

Three behaviours of the code worth stating:

- The batch result is in input-event order, because `gather` returns its
  results in the order of its awaitables, whatever order they finish in.
- The sequential variant stores one force minimum and one force maximum per
  event, computed with `forces.min().min()` / `forces.max().max()`.
- The block key is padded to at least three digits, and never truncated.

## Model

| member | source | states |
|---|---|---|
| `BlockFilter.FirstDigitRun` | python/lsst/sitcom/tn092/utils.py:45 | the result is None exactly when the name has no digit; otherwise it is the first maximal run of digits (no digit before it, none right after it) |
| `BlockFilter.Value` | python/lsst/sitcom/tn092/utils.py:45 | `int` of a digit string, read most significant digit first; a string of k digits denotes less than 10^k |
| `BlockFilter.Decimal` | python/lsst/sitcom/tn092/utils.py:46 | the decimal form of n is a non-empty digit string with no leading zero whose value is n |
| `BlockFilter.DecimalOfValue` | python/lsst/sitcom/tn092/utils.py:45-46 | reading a digit string without leading zeros as an integer and writing it back gives the same string |
| `BlockFilter.ValuePositive` | python/lsst/sitcom/tn092/utils.py:45 | a digit string that starts with a non-zero digit denotes a positive integer |
| `BlockFilter.ValueAfterZeros` | python/lsst/sitcom/tn092/utils.py:45 | leading zeros do not change the integer a digit string denotes, so `int("0007") == int("7")` |
| `BlockFilter.Pad3` | python/lsst/sitcom/tn092/utils.py:46 | `f"{n:03d}"` is all digits and denotes n; its length is max(3, number of digits of n); it is the decimal form of n preceded only by '0's, so numbers of 1000 or more are not truncated |
| `BlockFilter.LeadingDigits` | python/lsst/sitcom/tn092/utils.py:45 | the longest prefix made of digits: a digit prefix followed by a non-digit or by the end |
| `BlockFilter.FirstDigitPosition` | python/lsst/sitcom/tn092/utils.py:45 | the position of the first digit, None exactly when there is none |
| `BlockFilter.BlockKey` | python/lsst/sitcom/tn092/utils.py:45-46 | the key is None exactly when the name has no digit; otherwise it has at least three digits and is the padded value of the first maximal digit run |
| `BlockFilter.Contains` | python/lsst/sitcom/tn092/utils.py:47 | `str.contains` with a digit-only key: the key is a prefix of the id or is contained in its tail; a string never contains a longer one |
| `BlockFilter.ContainsIffOccurs` | python/lsst/sitcom/tn092/utils.py:47 | `str.contains` with the digit-only key holds exactly when the key occurs as a literal substring |
| `BlockFilter.HasKey` | python/lsst/sitcom/tn092/utils.py:47 | the row mask holds exactly when the key occurs at some position of the row's `blockId`, which is then at least as long as the key |
| `BlockFilter.FilterByBlockId` | python/lsst/sitcom/tn092/utils.py:44-48 | fails with a missing-column error when there is no `blockId` column (checked first); fails when the name has no digit; succeeds in every other case; keeps the columns; every kept row is an input row containing the key (sound); every input row containing the key is kept (complete) |
| `BlockFilter.FilterByBlockIdKeepsOrder` | python/lsst/sitcom/tn092/utils.py:47 | the result is exactly the input rows at the increasing positions whose `blockId` contains the key: a subsequence, with order kept and rows unchanged |
| `BlockFilter.FilterByBlockIdIdempotent` | python/lsst/sitcom/tn092/utils.py:47 | filtering the result again by the same name returns it unchanged |
| `BlockFilter.BlockKeyLeadingZeros` | python/lsst/sitcom/tn092/utils.py:45-46 | the name "T0007" gives the key "007" |
| `BlockFilter.FilterByBlockIdExample` | python/lsst/sitcom/tn092/utils.py:44-48 | the name "B7" keeps the row "007_abc" and drops "017_xyz" |
| `Seqs.Filter` | python/lsst/sitcom/tn092/utils.py:47 | a boolean-mask selection keeps only input elements that satisfy the mask, keeps every one that does, and is no longer than its input |
| `Seqs.KeptPositions` | python/lsst/sitcom/tn092/utils.py:47 | the positions the mask keeps are increasing, in range, and are exactly those whose element satisfies the mask |
| `Seqs.FilterIsSelection` | python/lsst/sitcom/tn092/utils.py:47 | a selection equals the input elements at the kept positions, in order |
| `Seqs.FilterKeepsAll` | python/lsst/sitcom/tn092/utils.py:47 | selecting with a mask that every element satisfies returns the input |
| `Seqs.FilterMap` | notebooks/BLOCK_T227_utils.py:85-122 | a loop that appends at most one value per element, in element order, never yields more values than elements |
| `Seqs.ProducingPositions` | notebooks/BLOCK_T227_utils.py:85-122 | the events a loop appends a row for are at increasing positions, and are exactly those for which it produces one |
| `Seqs.FilterMapIsSelection` | notebooks/BLOCK_T227_utils.py:85-122 | appending one value per accepted element yields, in order, the value of each accepted element and nothing for the others |
| `Seqs.FilterMapSnoc` | notebooks/BLOCK_T227_utils.py:121-122 | one more iteration appends at most one value, at the end |
| `Seqs.Concat` | python/lsst/sitcom/tn092/query.py:54 | every concatenated row comes from one of the tables, and every row of every table is in the result |
| `Seqs.ConcatAppend` | python/lsst/sitcom/tn092/query.py:54 | concatenating two lists of tables is concatenating their concatenations |
| `Seqs.ConcatFilterCons` | python/lsst/sitcom/tn092/query.py:51-54 | filtering a list of tables and concatenating the survivors goes table by table from the front: the first table contributes its rows when it passes and nothing otherwise |
| `Seqs.Min` | python/lsst/sitcom/tn092/query.py:155 | the minimum is one of the values and no value is below it |
| `Seqs.Max` | python/lsst/sitcom/tn092/query.py:156 | the maximum is one of the values and no value is above it |
| `Seqs.MinIsLowest` | python/lsst/sitcom/tn092/query.py:155 | a value no larger than any other is what the row minimum reports |
| `Seqs.MaxIsHighest` | python/lsst/sitcom/tn092/query.py:156 | a value no smaller than any other is what the row maximum reports |
| `Tma.Admit` | python/lsst/sitcom/tn092/query.py:80-85 | the type check comes first: a wrong type is rejected whatever the end reason; a right-type event is rejected as faulted exactly when it ended in FAULT |
| `Tma.NoticeFor` | python/lsst/sitcom/tn092/query.py:83-84 | a notice naming the event's seqNum and dayObs is printed exactly for a right-type event that ended in FAULT, so a faulted event of the wrong type prints nothing |
| `SlewQuery.AxisColumnsOf` | python/lsst/sitcom/tn092/query.py:212-261 | an empty azimuth or elevation answer becomes exactly one row of three nulls; otherwise there is no null, start and end are the answer's first and last positions, and start + diff = end |
| `SlewQuery.ForceColumnsOf` | python/lsst/sitcom/tn092/query.py:139-158 | an empty force answer becomes one row of 14 nulls (6 + 6 channel columns and 2 totals); otherwise there is no null, the channel columns are the answer's values, and `min_forces` is at most every channel minimum and equal to one of them (`max_forces` dually) |
| `SlewQuery.ForceExtremesAreChannels` | python/lsst/sitcom/tn092/query.py:155-156 | a channel minimum no larger than any other channel's is `min_forces`, and a channel maximum no smaller than any other's is `max_forces` |
| `SlewQuery.CombinedRow` | python/lsst/sitcom/tn092/query.py:91-95 | the combined row carries the event's begin, end, seq_num and day_obs, and holds a null exactly when one of the three answers is empty |
| `SlewQuery.HpForcesAndAzimuthElevationPerEvent` | python/lsst/sitcom/tn092/query.py:80-97 | a wrong-type event gives an empty table and no notice; a faulted event of the right type gives an empty table and its notice; any other event gives exactly one combined row for its own window; the table holds a null exactly when the event passed the gate with an empty answer |
| `SlewQuery.EventTables` | python/lsst/sitcom/tn092/query.py:43-50 | the gathered tables are one per event, in event order |
| `SlewQuery.GetHpMinMaxForces` | python/lsst/sitcom/tn092/query.py:43-56 | concatenation fails (nothing to concatenate) exactly when every event passed the gate but had an empty answer, which includes an empty event list; a successful result contains no null |
| `SlewQuery.CompleteRow` | python/lsst/sitcom/tn092/query.py:51 | reference definition: an event has a surviving row exactly when it passes the gate and all three answers are present; that row has no null and carries the event's metadata |
| `SlewQuery.SurvivorsAreCompleteRows` | python/lsst/sitcom/tn092/query.py:51-54 | dropping the tables with a null and concatenating the rest gives exactly the reference rows, in event order; empty tables from skipped events contribute nothing |
| `SlewQuery.SurvivorOfEvent` | python/lsst/sitcom/tn092/query.py:51 | an event's table survives the null filter exactly when the event has a reference row, and it then holds just that row |
| `SlewQuery.TableHasNull` | python/lsst/sitcom/tn092/query.py:51 | `isnull().any().any()`: a table has a null exactly when one of its rows holds a null cell, so an empty table has none |
| `SlewQuery.NullFree` | python/lsst/sitcom/tn092/query.py:51 | a table is kept by the null filter exactly when none of its rows holds a null cell |
| `SlewQuery.BatchRowsAreCompleteRows` | python/lsst/sitcom/tn092/query.py:43-56 | a successful batch table is the sequence of reference rows of the events, in event order |
| `SlewQuery.CompleteRowsFollowEvents` | python/lsst/sitcom/tn092/query.py:43-54 | the reference rows are the combined rows of the events at increasing positions that pass the gate with all answers present, and of no other event |
| `SlewQuery.BatchRowsFollowEvents` | python/lsst/sitcom/tn092/query.py:43-54 | the result rows are, in order and numbered from 0, the combined rows of the events at increasing positions that pass the gate with all answers present, and of no other event |
| `SlewQuery.BatchNoticesFollowEvents` | python/lsst/sitcom/tn092/query.py:43-50 | the batch prints one notice per right-type faulted event, in event order, naming that event, and nothing for any other event |
| `SlewQuery.ScriptStates` | python/lsst/sitcom/tn092/query.py:381-384 | without a block id the fetched table is returned as it is; with one, the result is `filter_by_block_id` of the fetched table |
| `SlewQuery.BlockStatus` | python/lsst/sitcom/tn092/query.py:415-418 | with no name the fetched table is returned as it is; with a name the call fails exactly when there is no `id` column, and otherwise keeps exactly the rows whose `id` equals the name |
| `SlewQuery.HasId` | python/lsst/sitcom/tn092/query.py:416 | the row mask holds exactly when the row's `id` equals the block name |
| `SlewQuery.BlockStatusKeepsOrder` | python/lsst/sitcom/tn092/query.py:416 | the kept rows are the fetched rows at the increasing positions whose `id` equals the name |
| `SlewQuery.AxisDifferenceExample` | python/lsst/sitcom/tn092/query.py:220 | azimuth 10.0 to 15.0 gives a difference of exactly 5.0 |
| `SlewQuery.ForceExtremesExample` | python/lsst/sitcom/tn092/query.py:155-156 | channel minimums -100, -50, -900, -20, -10, -30 and maximums 100, 50, 30, 20, 900, 30 give `min_forces` -900 and `max_forces` 900 |
| `T227Notebook.ChannelMins` | notebooks/BLOCK_T227_utils.py:117 | `forces.min()`: six values, the minimum of each channel's samples |
| `T227Notebook.ChannelMaxs` | notebooks/BLOCK_T227_utils.py:118 | `forces.max()`: six values, the maximum of each channel's samples |
| `T227Notebook.MinOfMinsIsSample` | notebooks/BLOCK_T227_utils.py:117 | the smallest per-channel minimum is the force of some channel at some sample |
| `T227Notebook.MinOfMinsIsLowest` | notebooks/BLOCK_T227_utils.py:117 | no force of any channel at any sample is below the smallest per-channel minimum |
| `T227Notebook.MaxOfMaxsIsSample` | notebooks/BLOCK_T227_utils.py:118 | the largest per-channel maximum is the force of some channel at some sample |
| `T227Notebook.MaxOfMaxsIsHighest` | notebooks/BLOCK_T227_utils.py:118 | no force of any channel at any sample is above the largest per-channel maximum |
| `T227Notebook.OverallMin` | notebooks/BLOCK_T227_utils.py:117 | `forces.min().min()` is null exactly when there is no sample; otherwise it is the smallest force over all channels and samples, and is one of them |
| `T227Notebook.OverallMax` | notebooks/BLOCK_T227_utils.py:118 | `forces.max().max()` is null exactly when there is no sample; otherwise it is the largest force over all channels and samples, and is one of them |
| `T227Notebook.OverallMinAtMostMax` | notebooks/BLOCK_T227_utils.py:117-118 | on a non-empty sample set `min_forces <= max_forces` |
| `T227Notebook.Travel` | notebooks/BLOCK_T227_utils.py:99-100 | the first position plus the travel is the last position, so the travel is last minus first |
| `T227Notebook.Summarise` | notebooks/BLOCK_T227_utils.py:87-119 | an event yields a row exactly when it has the right type, did not fault, and both axes have `actualPosition`; the row's seq_num is the event's; first + delta = last for azimuth and elevation; its force extremes are the overall ones |
| `T227Notebook.SummaryTable` | notebooks/BLOCK_T227_utils.py:83-122 | the accumulator after the given events, each processed event's row appended after the earlier ones; at most one row per event, and every row's force extremes are ordered |
| `T227Notebook.FaultNotices` | notebooks/BLOCK_T227_utils.py:85-92 | the notices printed after the given events, in order; at most one per event, and each names the seqNum and dayObs of a faulted event of the requested type |
| `T227Notebook.SummaryExtremesOrdered` | notebooks/BLOCK_T227_utils.py:117-118 | a processed event's row has both force extremes or neither, and min_forces <= max_forces |
| `T227Notebook.SummaryTableIsSelection` | notebooks/BLOCK_T227_utils.py:85-122 | the table the loop builds, one row appended after another, is the order-preserving selection of the events' summaries |
| `T227Notebook.FaultNoticesIsSelection` | notebooks/BLOCK_T227_utils.py:85-92 | the notices the loop prints, one after another, are the order-preserving selection of the events' notices |
| `T227Notebook.SummaryStep` | notebooks/BLOCK_T227_utils.py:121-122 | processing one more event appends at most that event's row, at the end |
| `T227Notebook.NoticeStep` | notebooks/BLOCK_T227_utils.py:90-92 | processing one more event prints at most that event's notice, after the earlier ones |
| `T227Notebook.SkipStep` | notebooks/BLOCK_T227_utils.py:87-102 | an event of another type, or one whose azimuth or elevation lacks `actualPosition`, leaves the table and the notices unchanged |
| `T227Notebook.FaultStep` | notebooks/BLOCK_T227_utils.py:90-92 | a faulted event of the requested type adds no row and prints its notice with its seqNum and dayObs |
| `T227Notebook.RowStep` | notebooks/BLOCK_T227_utils.py:94-122 | any other event appends the row of its seqNum, both travels and the overall force extremes, and prints nothing |
| `T227Notebook.SummaryRowsFollowEvents` | notebooks/BLOCK_T227_utils.py:83-122 | the table has one row per processed event, at increasing event positions, none for a skipped event, never more rows than events; each row is its event's summary, with its seq_num and with min_forces <= max_forces |
| `T227Notebook.GetHpMinMaxForces` | notebooks/BLOCK_T227_utils.py:83-124 | the loop, starting from an empty table, builds exactly the summary table and prints exactly the fault notices, so SummaryRowsFollowEvents describes its result: an empty event list gives an empty table without error, there is at most one row per event, and every row's force extremes are ordered |
| `T227Notebook.QueryBlockStatus` | notebooks/BLOCK_T227_utils.py:414-415 | fails exactly when there is no `id` column; otherwise keeps exactly the rows whose `id` equals the block name |

## Left out

- `convert_script_state` (both copies): a lookup into the external `ScriptState` enumeration, which is not part of this model.
- `python/lsst/sitcom/tn092/plot.py` and the notebook's `plot_histogram_hp_minmax_forces`: plotting, directory creation and file saving.
- All archive access is left out and its answers are inputs. This covers `getEfdData`, `influx_client.query`, the query strings, and the pass-through fetchers (`script_configuration`, `script_description`, `script_log_message`, `m1m3_hp_measured_forces` and the notebook's `query_*` fetchers). `script_description` accepts a block id and ignores it.
- The notebook's `query_script_states` is identical to the package's `script_states` and is modelled by `SlewQuery.ScriptStates`.
- Event-loop scheduling (`asyncio.get_event_loop`, `gather`): the coroutines share no state, so the batch is an ordered map.
- Floating point and NaN: numbers are `real`. pandas' NaN-skipping in `min`/`max` is not modelled. Inside a non-empty force answer every channel value is taken to be present.
- Index alignment in `pd.concat(..., axis=1)`: each partial answer is taken to be a single row. Misaligned indexes can only arise when some answer is empty, and such a table holds a null and is dropped either way.
- `T227Notebook.Summarise`: an `actualPosition` column with no rows (an `IndexError` in the source) is excluded, because positions are a non-empty sequence type.
- Python's `\d` also matches non-ASCII decimal digits; the model matches ASCII digits only.
- `BlockFilter.FilterByBlockId`: every `blockId` is taken to be a string; a missing value, which pandas' `str.contains` turns into NaN, is not modelled.
- `BlockFilter.Value`: Python's `int` refuses a digit run longer than `sys.int_max_str_digits` (4300 by default) with a `ValueError`; the model reads digit runs of any length.
- The text of printed messages and the notebook's `verbose` output are left out. A fault notice is recorded as its `seqNum` and `dayObs`.
- `Tma.TmaState` is a closed set of the external mount states. Only equality between them is used.

