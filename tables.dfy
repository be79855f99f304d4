/**
 * Rows of the two database tables that the statistics page reads.  The
 * column set of `closed_positions` is the frame that the import script
 * uploads; `account` rows are the account snapshots it appends.
 */
module Tables {
  import opened Wrappers
  import opened Calendar

  /** One row of `closed_positions`: a position aggregated from its deals. */
  datatype ClosedPosition = ClosedPosition(
    positionId: int,
    symbol: string,
    volume: real,
    closePrice: real,
    profit: real,
    swap: real,
    fee: real,
    timeClose: Time,
    timeOpen: Option<Time>,
    openPrice: Option<real>,
    weekday: Option<string>,
    session: string)

  /** One row of `account`: a snapshot of the trading account (only the columns the statistics read). */
  datatype Snapshot = Snapshot(timeLastUpdate: Time, equity: Option<real>, tradeMode: int)
}
