/** Tabular values as the telemetry archive hands them to the analysis helpers:
    optional cells, failures the helpers raise, and tables of typed rows. */
module Frames {

  /** A cell that may be null (pandas `None`/NaN). */
  datatype Option<+T> = None | Some(value: T)

  /** The exceptions the modelled helpers can raise. */
  datatype Failure =
    | MissingColumn(column: string)  // `assert "blockId" in df.columns`, or `df.id` on a frame without `id`
    | NoBlockNumber                  // `re.search(r"\d+", name)` found nothing, so `.group()` fails
    | NothingToConcatenate           // `pd.concat([])`

  datatype Result<+T> = Ok(value: T) | Err(failure: Failure)

  /** A data frame: its column names and its rows, in index order. */
  datatype Table<R> = Table(columns: set<string>, rows: seq<R>)

  /** A row of the Script SAL component's `logevent_state` topic. */
  datatype StateRow = StateRow(blockId: string, salIndex: int, state: int)

  /** A row of the Scheduler's `logevent_blockStatus` topic. */
  datatype BlockStatusRow = BlockStatusRow(id: string, statusId: int, executionsCompleted: int)
}
