/**
 * The transforms of the import script (mt5_data_import/collecting_mt5_data.py)
 * that turn the terminal's deal history into `closed_positions` rows:
 * the session classifier, the earliest-opening-deal selector, the
 * per-position aggregation of deals and the open-side enrichment.
 */
module Ingest {
  import opened Wrappers
  import opened Calendar
  import opened Tables
  import opened Dicts

  /** A deal as `history_deals_get` reports it; `entry == 0` marks an opening deal. */
  datatype Deal = Deal(
    positionId: int,
    symbol: string,
    volume: real,
    price: real,
    swap: real,
    profit: real,
    fee: real,
    entry: int,
    time: Time)

  // ---------------------------------------------------------------------------
  // Session classifier (`get_session`)
  // ---------------------------------------------------------------------------

  const Sessions: seq<string> := ["Asia", "London", "Lunch", "New York", "London Close", "Out of Session"]

  /** The trading session an hour of the day falls in; hours outside every window are "Out of Session". */
  function GetSession(hour: Hour): (s: string)
    ensures s in Sessions
    ensures s == "Asia" <==> 2 <= hour < 6
    ensures s == "London" <==> 8 <= hour < 11
    ensures s == "Lunch" <==> 11 <= hour < 13
    ensures s == "New York" <==> 13 <= hour < 16
    ensures s == "London Close" <==> 16 <= hour < 18
    ensures s == "Out of Session" <==> hour < 2 || 6 <= hour < 8 || 18 <= hour
  {
    if 2 <= hour < 6 then "Asia"
    else if 8 <= hour < 11 then "London"
    else if 11 <= hour < 13 then "Lunch"
    else if 13 <= hour < 16 then "New York"
    else if 16 <= hour < 18 then "London Close"
    else "Out of Session"
  }

  // ---------------------------------------------------------------------------
  // Opening deals and the earliest one per position (`open_deals`, `open_info`)
  // ---------------------------------------------------------------------------

  /** The opening deals, in input order. */
  function Openings(deals: seq<Deal>): (opens: seq<Deal>)
    ensures forall d :: d in opens <==> d in deals && d.entry == 0
    ensures |opens| <= |deals|
  {
    if deals == [] then []
    else
      var n := |deals|;
      assert deals == deals[..n - 1] + [deals[n - 1]];
      var rest := Openings(deals[..n - 1]);
      if deals[n - 1].entry == 0 then rest + [deals[n - 1]] else rest
  }

  /** Selecting the opening deals commutes with concatenation: the filter keeps the history's order and repeats. */
  lemma {:induction false} OpeningsAppend(xs: seq<Deal>, ys: seq<Deal>)
    ensures Openings(xs + ys) == Openings(xs) + Openings(ys)
    decreases |ys|
  {
    if ys != [] {
      var n := |ys|;
      OpeningsAppend(xs, ys[..n - 1]);
      assert (xs + ys)[..|xs + ys| - 1] == xs + ys[..n - 1];
      assert (xs + ys)[|xs + ys| - 1] == ys[n - 1];
    } else {
      assert xs + ys == xs;
    }
  }

  /** What `open_info` holds for a position; `session` is filled in by AttachSessions. */
  datatype OpenRef = OpenRef(timeOpen: Time, openPrice: real, session: Option<string>)

  type OpenInfo = Dict<int, OpenRef>

  /** One step of the `open_info` loop: keep `d` unless an opening deal of its position that is not later is already kept. */
  function KeepEarliest(info: OpenInfo, d: Deal): OpenInfo {
    if d.positionId !in info.entries || d.time < info.entries[d.positionId].timeOpen
    then info.Put(d.positionId, OpenRef(d.time, d.price, None))
    else info
  }

  /** `open_info` after the loop has visited every deal of `opens`, in order. */
  function OpenInfoOf(opens: seq<Deal>): OpenInfo {
    if opens == [] then Empty()
    else KeepEarliest(OpenInfoOf(opens[..|opens| - 1]), opens[|opens| - 1])
  }

  /** `open_info` lists each position once, and exactly the positions it maps. */
  lemma {:induction false} OpenInfoValid(opens: seq<Deal>)
    ensures OpenInfoOf(opens).Valid()
  {
    if opens != [] {
      OpenInfoValid(opens[..|opens| - 1]);
    }
  }

  /** The `open_info` loop, over the opening deals of the history. */
  method BuildOpenInfo(deals: seq<Deal>) returns (info: OpenInfo)
    ensures info == OpenInfoOf(Openings(deals))
  {
    var opens := Openings(deals);
    info := Empty();
    var i := 0;
    while i < |opens|
      invariant 0 <= i <= |opens|
      invariant info == OpenInfoOf(opens[..i])
    {
      var deal := opens[i];
      var pid := deal.positionId;
      OpenInfoStep(opens, i);
      if pid !in info.entries || deal.time < info.entries[pid].timeOpen {
        info := info.Put(pid, OpenRef(deal.time, deal.price, None));
      }
      i := i + 1;
    }
    assert opens[..|opens|] == opens;
  }

  /** One more turn of the `open_info` loop. */
  lemma OpenInfoStep(opens: seq<Deal>, i: nat)
    requires i < |opens|
    ensures OpenInfoOf(opens[..i + 1]) == KeepEarliest(OpenInfoOf(opens[..i]), opens[i])
  {
    assert opens[..i + 1][..i] == opens[..i];
  }

  /** `open_info` has an entry exactly for the positions that have an opening deal. */
  lemma {:induction false} OpenInfoKeys(opens: seq<Deal>)
    ensures forall pid :: pid in OpenInfoOf(opens).entries <==> exists k :: 0 <= k < |opens| && opens[k].positionId == pid
  {
    if opens != [] {
      var n := |opens|;
      var prev := opens[..n - 1];
      OpenInfoKeys(prev);
      forall pid
        ensures pid in OpenInfoOf(opens).entries <==> exists k :: 0 <= k < n && opens[k].positionId == pid
      {
        if pid in OpenInfoOf(opens).entries && pid != opens[n - 1].positionId {
          assert pid in OpenInfoOf(prev).entries;
          var k :| 0 <= k < n - 1 && prev[k].positionId == pid;
          assert opens[k].positionId == pid;
        }
        if exists k :: 0 <= k < n && opens[k].positionId == pid {
          var k :| 0 <= k < n && opens[k].positionId == pid;
          if k < n - 1 {
            assert prev[k].positionId == pid;
          }
        }
      }
    }
  }

  /**
   * Index `k` of `opens` holds the deal kept for its position: every other
   * opening deal of that position is not earlier, and those before it are
   * strictly later (ties keep the first one met).
   */
  ghost predicate KeptAt(opens: seq<Deal>, k: int) {
    0 <= k < |opens| &&
    forall j :: 0 <= j < |opens| && opens[j].positionId == opens[k].positionId ==>
      (j < k ==> opens[k].time < opens[j].time) && (k < j ==> opens[k].time <= opens[j].time)
  }

  /** The entry of `open_info` for a position is its earliest opening deal, the first one on a tie. */
  lemma {:induction false} OpenInfoEarliest(opens: seq<Deal>, pid: int) returns (k: nat)
    requires pid in OpenInfoOf(opens).entries
    ensures KeptAt(opens, k) && opens[k].positionId == pid
    ensures OpenInfoOf(opens).entries[pid] == OpenRef(opens[k].time, opens[k].price, None)
  {
    var n := |opens|;
    var prev := opens[..n - 1];
    var d := opens[n - 1];
    var info := OpenInfoOf(prev).entries;
    assert forall j :: 0 <= j < n - 1 ==> prev[j] == opens[j];
    if d.positionId != pid {
      k := OpenInfoEarliest(prev, pid);
    } else if pid !in info {
      OpenInfoKeys(prev);
      k := n - 1;
    } else if d.time < info[pid].timeOpen {
      var k' := OpenInfoEarliest(prev, pid);
      assert KeptAt(prev, k');
      k := n - 1;
      forall j | 0 <= j < n && opens[j].positionId == pid && j < k
        ensures opens[k].time < opens[j].time
      {
        assert prev[j].positionId == prev[k'].positionId;
      }
    } else {
      k := OpenInfoEarliest(prev, pid);
      assert KeptAt(prev, k);
    }
  }

  /** Two opening deals belong to the same position. */
  ghost predicate RepeatsPosition(opens: seq<Deal>) {
    exists i, j :: 0 <= i < j < |opens| && opens[i].positionId == opens[j].positionId
  }

  /**
   * Line 180 as written: `open_info[pid]['time_open']` holds a datetime while
   * `deal.time` is an integer, so the comparison raises TypeError (None here)
   * as soon as a position has a second opening deal.
   */
  function KeepAsWritten(info: OpenInfo, d: Deal): Option<OpenInfo> {
    if d.positionId !in info.entries then Some(info.Put(d.positionId, OpenRef(d.time, d.price, None)))
    else None
  }

  /** The `open_info` loop as written; None when it raises. */
  function OpenInfoAsWritten(opens: seq<Deal>): Option<OpenInfo> {
    if opens == [] then Some(Empty())
    else
      match OpenInfoAsWritten(opens[..|opens| - 1])
      case None => None
      case Some(info) => KeepAsWritten(info, opens[|opens| - 1])
  }

  /** The loop as written raises exactly when some position has two opening deals, and otherwise agrees with the intended one. */
  lemma {:induction false} AsWrittenRaisesOnRepeat(opens: seq<Deal>)
    ensures OpenInfoAsWritten(opens).None? <==> RepeatsPosition(opens)
    ensures !RepeatsPosition(opens) ==> OpenInfoAsWritten(opens) == Some(OpenInfoOf(opens))
  {
    if opens != [] {
      var n := |opens|;
      var prev := opens[..n - 1];
      var d := opens[n - 1];
      AsWrittenRaisesOnRepeat(prev);
      if RepeatsPosition(prev) {
        RepeatsGrow(opens);
      } else {
        var info := OpenInfoOf(prev);
        assert OpenInfoAsWritten(prev) == Some(info);
        OpenInfoKeys(prev);
        if d.positionId in info.entries {
          var k :| 0 <= k < n - 1 && prev[k].positionId == d.positionId;
          RepeatsAtLast(opens, k);
        } else {
          AsWrittenStep(opens);
          NoRepeatGrows(opens);
        }
      }
    }
  }

  /** While no position repeats, both loops take the same step. */
  lemma AsWrittenStep(opens: seq<Deal>)
    requires opens != []
    requires OpenInfoAsWritten(opens[..|opens| - 1]) == Some(OpenInfoOf(opens[..|opens| - 1]))
    requires opens[|opens| - 1].positionId !in OpenInfoOf(opens[..|opens| - 1]).entries
    ensures OpenInfoAsWritten(opens) == Some(OpenInfoOf(opens))
  {
  }

  /** A repeat among the first deals is a repeat of the whole list. */
  lemma RepeatsGrow(opens: seq<Deal>)
    requires opens != [] && RepeatsPosition(opens[..|opens| - 1])
    ensures RepeatsPosition(opens)
  {
    var prev := opens[..|opens| - 1];
    var i, j :| 0 <= i < j < |prev| && prev[i].positionId == prev[j].positionId;
    assert opens[i] == prev[i] && opens[j] == prev[j];
  }

  /** The last deal repeating an earlier one's position is a repeat. */
  lemma RepeatsAtLast(opens: seq<Deal>, k: nat)
    requires k < |opens| - 1 && opens[k].positionId == opens[|opens| - 1].positionId
    ensures RepeatsPosition(opens)
  {
  }

  /** No repeat among the first deals and a new position last: no repeat at all. */
  lemma NoRepeatGrows(opens: seq<Deal>)
    requires opens != [] && !RepeatsPosition(opens[..|opens| - 1])
    requires forall k :: 0 <= k < |opens| - 1 ==> opens[k].positionId != opens[|opens| - 1].positionId
    ensures !RepeatsPosition(opens)
  {
    var n := |opens|;
    var prev := opens[..n - 1];
    forall i, j | 0 <= i < j < n
      ensures opens[i].positionId != opens[j].positionId
    {
      if j < n - 1 {
        assert prev[i] == opens[i] && prev[j] == opens[j];
      }
    }
  }

  /** A position scaled into with two opening deals: the script as written raises, the intended loop keeps the earlier deal. */
  lemma ScaledInPositionRaises()
    ensures var first := Deal(7, "EURUSD", 1.0, 1.10, 0.0, 0.0, 0.0, 0, 1000);
            var second := Deal(7, "EURUSD", 1.0, 1.05, 0.0, 0.0, 0.0, 0, 400);
            OpenInfoAsWritten([first, second]).None? &&
            OpenInfoOf([first, second]).entries == map[7 := OpenRef(400, 1.05, None)]
  {
    var first := Deal(7, "EURUSD", 1.0, 1.10, 0.0, 0.0, 0.0, 0, 1000);
    var second := Deal(7, "EURUSD", 1.0, 1.05, 0.0, 0.0, 0.0, 0, 400);
    assert [first, second][..1] == [first];
    assert [first][..0] == [];
    assert OpenInfoOf([first]).entries == map[7 := OpenRef(1000, 1.10, None)];
  }

  /** An `open_info` entry with the session of its opening time added. */
  function SessionOf(r: OpenRef): (r': OpenRef)
    ensures r'.timeOpen == r.timeOpen && r'.openPrice == r.openPrice
    ensures r'.session == Some(GetSession(HourOf(r.timeOpen)))
  {
    r.(session := Some(GetSession(HourOf(r.timeOpen))))
  }

  /** The loop that adds `info['session']` to every entry of `open_info`, in the dict's order. */
  method AttachSessions(info: OpenInfo) returns (out: OpenInfo)
    requires info.Valid()
    ensures out.Valid() && out.keys == info.keys && out.entries.Keys == info.entries.Keys
    ensures forall pid :: pid in out.entries ==> out.entries[pid] == SessionOf(info.entries[pid])
  {
    out := info;
    var i := 0;
    while i < |info.keys|
      invariant 0 <= i <= |info.keys|
      invariant out.keys == info.keys && out.entries.Keys == info.entries.Keys
      invariant forall pid :: pid in out.entries ==>
        out.entries[pid] == if pid in info.keys[..i] then SessionOf(info.entries[pid]) else info.entries[pid]
    {
      var pid := info.keys[i];
      assert info.keys[..i + 1] == info.keys[..i] + [pid];
      out := out.Put(pid, SessionOf(out.entries[pid]));
      i := i + 1;
    }
    assert info.keys[..i] == info.keys;
  }

  // ---------------------------------------------------------------------------
  // Deal-to-position aggregation (`groupby('position_id').agg(...)`)
  // ---------------------------------------------------------------------------

  /** The deals of one position, in input order. */
  function Group(deals: seq<Deal>, pid: int): (g: seq<Deal>)
    ensures forall d :: d in g <==> d in deals && d.positionId == pid
    ensures |g| <= |deals|
  {
    if deals == [] then []
    else
      var n := |deals|;
      assert deals == deals[..n - 1] + [deals[n - 1]];
      var rest := Group(deals[..n - 1], pid);
      if deals[n - 1].positionId == pid then rest + [deals[n - 1]] else rest
  }

  function PositionIds(deals: seq<Deal>): set<int> {
    set d | d in deals :: d.positionId
  }

  /** The summed columns of the aggregation. */
  datatype Column = Volume | Profit | Swap | Fee

  function ColumnOf(d: Deal, c: Column): real {
    match c
    case Volume => d.volume
    case Profit => d.profit
    case Swap => d.swap
    case Fee => d.fee
  }

  function SumColumn(g: seq<Deal>, c: Column): real {
    if g == [] then 0.0 else SumColumn(g[..|g| - 1], c) + ColumnOf(g[|g| - 1], c)
  }

  /** The latest deal time of a non-empty group. */
  function MaxTime(g: seq<Deal>): (t: Time)
    requires g != []
    ensures exists d :: d in g && d.time == t
    ensures forall d :: d in g ==> d.time <= t
  {
    var n := |g|;
    assert g == g[..n - 1] + [g[n - 1]];
    if n == 1 then g[0].time
    else
      var m := MaxTime(g[..n - 1]);
      if g[n - 1].time > m then g[n - 1].time else m
  }

  /** One row of `df_closed_agg` before the open side is added. */
  datatype AggregatedDeals = AggregatedDeals(
    positionId: int,
    symbol: string,
    volume: real,
    closePrice: real,
    profit: real,
    swap: real,
    fee: real,
    timeClose: Time)

  /** `symbol` first, `price` last (input order), the four sums, `time_close` max. */
  function AggregateGroup(pid: int, g: seq<Deal>): AggregatedDeals
    requires g != []
  {
    AggregatedDeals(pid, g[0].symbol, SumColumn(g, Volume), g[|g| - 1].price,
                    SumColumn(g, Profit), SumColumn(g, Swap), SumColumn(g, Fee), MaxTime(g))
  }

  /** One aggregated row per distinct position id of the whole history, opening-only positions included. */
  function Aggregate(deals: seq<Deal>): (rows: map<int, AggregatedDeals>)
    ensures rows.Keys == PositionIds(deals)
    ensures forall pid :: pid in rows ==> rows[pid].positionId == pid
  {
    map pid | pid in PositionIds(deals) ::
      GroupNonEmpty(deals, pid);
      AggregateGroup(pid, Group(deals, pid))
  }

  lemma GroupNonEmpty(deals: seq<Deal>, pid: int)
    requires pid in PositionIds(deals)
    ensures Group(deals, pid) != []
  {
    var d :| d in deals && d.positionId == pid;
    assert d in Group(deals, pid);
  }

  /** `time_close` is the latest time among the position's deals. */
  lemma AggregateTimeClose(deals: seq<Deal>, pid: int)
    requires pid in PositionIds(deals)
    ensures exists d :: d in deals && d.positionId == pid && d.time == Aggregate(deals)[pid].timeClose
    ensures forall d :: d in deals && d.positionId == pid ==> d.time <= Aggregate(deals)[pid].timeClose
  {
    GroupNonEmpty(deals, pid);
    var g := Group(deals, pid);
    assert Aggregate(deals)[pid].timeClose == MaxTime(g);
  }

  /** A new row started by a position's first deal. */
  function StartRow(d: Deal): AggregatedDeals {
    AggregatedDeals(d.positionId, d.symbol, d.volume, d.price, d.profit, d.swap, d.fee, d.time)
  }

  /** A row extended by one more deal of its position. */
  function ExtendRow(row: AggregatedDeals, d: Deal): AggregatedDeals {
    row.(volume := row.volume + d.volume, closePrice := d.price,
         profit := row.profit + d.profit, swap := row.swap + d.swap, fee := row.fee + d.fee,
         timeClose := if d.time > row.timeClose then d.time else row.timeClose)
  }

  /** Appending a deal appends it to its own position's group and leaves the other groups alone. */
  lemma GroupAppend(deals: seq<Deal>, d: Deal, pid: int)
    ensures Group(deals + [d], pid) == Group(deals, pid) + (if d.positionId == pid then [d] else [])
  {
    assert (deals + [d])[..|deals|] == deals;
  }

  lemma PositionIdsAppend(deals: seq<Deal>, d: Deal)
    ensures PositionIds(deals + [d]) == PositionIds(deals) + {d.positionId}
  {
    var all := deals + [d];
    forall pid | pid in PositionIds(deals) ensures pid in PositionIds(all) {
      var e :| e in deals && e.positionId == pid;
      assert e in all;
    }
    assert d in all;
  }

  lemma AggregateAppendOther(deals: seq<Deal>, d: Deal, pid: int)
    requires pid in PositionIds(deals) && pid != d.positionId
    ensures pid in Aggregate(deals + [d]) && Aggregate(deals + [d])[pid] == Aggregate(deals)[pid]
  {
    PositionIdsAppend(deals, d);
    GroupAppend(deals, d, pid);
  }

  lemma AggregateGroupSnoc(pid: int, g: seq<Deal>, d: Deal)
    requires g != []
    ensures AggregateGroup(pid, g + [d]) == ExtendRow(AggregateGroup(pid, g), d)
  {
    assert (g + [d])[..|g|] == g;
    assert (g + [d])[0] == g[0];
  }

  lemma AggregateGroupSingle(d: Deal)
    ensures AggregateGroup(d.positionId, [d]) == StartRow(d)
  {
    assert [d][..0] == [];
    assert SumColumn([d], Volume) == d.volume;
    assert SumColumn([d], Profit) == d.profit;
    assert SumColumn([d], Swap) == d.swap;
    assert SumColumn([d], Fee) == d.fee;
  }

  lemma AggregateAppendOwn(deals: seq<Deal>, d: Deal)
    ensures d.positionId in Aggregate(deals + [d])
    ensures Aggregate(deals + [d])[d.positionId] ==
      if d.positionId in Aggregate(deals) then ExtendRow(Aggregate(deals)[d.positionId], d) else StartRow(d)
  {
    var pid := d.positionId;
    PositionIdsAppend(deals, d);
    var g := Group(deals, pid);
    GroupAppend(deals, d, pid);
    assert Aggregate(deals + [d])[pid] == AggregateGroup(pid, g + [d]);
    if pid in PositionIds(deals) {
      GroupNonEmpty(deals, pid);
      AggregateGroupSnoc(pid, g, d);
    } else {
      assert g == [];
      assert g + [d] == [d];
      AggregateGroupSingle(d);
    }
  }

  /**
   * The aggregation read one deal at a time: appending a deal changes only
   * its own position's row, which it starts or extends.
   */
  lemma AggregateAppend(deals: seq<Deal>, d: Deal)
    ensures Aggregate(deals + [d]).Keys == Aggregate(deals).Keys + {d.positionId}
    ensures forall pid :: pid in Aggregate(deals) && pid != d.positionId ==>
      Aggregate(deals + [d])[pid] == Aggregate(deals)[pid]
    ensures Aggregate(deals + [d])[d.positionId] ==
      if d.positionId in Aggregate(deals) then ExtendRow(Aggregate(deals)[d.positionId], d) else StartRow(d)
  {
    PositionIdsAppend(deals, d);
    forall pid | pid in Aggregate(deals) && pid != d.positionId
      ensures Aggregate(deals + [d])[pid] == Aggregate(deals)[pid]
    {
      AggregateAppendOther(deals, d, pid);
    }
    AggregateAppendOwn(deals, d);
  }

  /** The last member of a group is the position's last deal in the history. */
  lemma {:induction false} GroupLast(deals: seq<Deal>, pid: int) returns (last: nat)
    requires Group(deals, pid) != []
    ensures last < |deals| && deals[last].positionId == pid
    ensures forall i :: last < i < |deals| ==> deals[i].positionId != pid
    ensures Group(deals, pid)[|Group(deals, pid)| - 1] == deals[last]
  {
    var n := |deals|;
    var prev := deals[..n - 1];
    if deals[n - 1].positionId == pid {
      last := n - 1;
    } else {
      last := GroupLast(prev, pid);
    }
  }

  /** The first member of a group is the position's first deal in the history. */
  lemma {:induction false} GroupFirst(deals: seq<Deal>, pid: int) returns (first: nat)
    requires Group(deals, pid) != []
    ensures first < |deals| && deals[first].positionId == pid
    ensures forall i :: 0 <= i < first ==> deals[i].positionId != pid
    ensures Group(deals, pid)[0] == deals[first]
  {
    var n := |deals|;
    var prev := deals[..n - 1];
    if Group(prev, pid) != [] {
      first := GroupFirst(prev, pid);
    } else {
      first := n - 1;
      forall i | 0 <= i < n - 1 ensures deals[i].positionId != pid {
        assert prev[i] in prev;
      }
    }
  }

  /** The row's symbol is the position's first deal's and its close price the last deal's, in input order. */
  lemma AggregateFirstLast(deals: seq<Deal>, pid: int) returns (first: nat, last: nat)
    requires pid in PositionIds(deals)
    ensures first < |deals| && deals[first].positionId == pid
    ensures forall i :: 0 <= i < first ==> deals[i].positionId != pid
    ensures last < |deals| && deals[last].positionId == pid
    ensures forall i :: last < i < |deals| ==> deals[i].positionId != pid
    ensures Aggregate(deals)[pid].symbol == deals[first].symbol
    ensures Aggregate(deals)[pid].closePrice == deals[last].price
  {
    GroupNonEmpty(deals, pid);
    first := GroupFirst(deals, pid);
    last := GroupLast(deals, pid);
  }

  // ---------------------------------------------------------------------------
  // Open-side enrichment (time_open, open_price, weekday, session)
  // ---------------------------------------------------------------------------

  const WeekdayNames: seq<string> := ["Monday", "Tuesday", "Wednesday", "Thursday", "Friday"]

  /** `time_open.dt.weekday` mapped through `weekday_map`: weekends and a missing time give null. */
  function WeekdayLabel(timeOpen: Option<Time>): (w: Option<string>)
    ensures w.Some? <==> timeOpen.Some? && WeekdayOf(timeOpen.value) < 5
    ensures w.Some? ==> w.value in WeekdayNames && w.value == WeekdayNames[WeekdayOf(timeOpen.value)]
  {
    match timeOpen
    case None => None
    case Some(t) =>
      var n := WeekdayOf(t);
      if n < 5 then Some(WeekdayNames[n]) else None
  }

  /** The column mappings for one aggregated row, given `open_info` after sessions are attached. */
  function Enrich(row: AggregatedDeals, info: map<int, OpenRef>): ClosedPosition {
    var pid := row.positionId;
    var timeOpen := if pid in info then Some(info[pid].timeOpen) else None;
    var openPrice := if pid in info then Some(info[pid].openPrice) else None;
    var session := if pid in info && info[pid].session.Some? then info[pid].session.value else "Unknown";
    ClosedPosition(pid, row.symbol, row.volume, row.closePrice, row.profit, row.swap, row.fee,
                   row.timeClose, timeOpen, openPrice, WeekdayLabel(timeOpen), session)
  }

  /** The aggregated columns of `p` are those of `row`. */
  ghost predicate CarriesAggregate(p: ClosedPosition, row: AggregatedDeals) {
    p.positionId == row.positionId && p.symbol == row.symbol && p.volume == row.volume &&
    p.closePrice == row.closePrice && p.profit == row.profit && p.swap == row.swap &&
    p.fee == row.fee && p.timeClose == row.timeClose
  }

  /** The open-side columns of `p` as the deals determine them. */
  ghost predicate OpenSide(p: ClosedPosition, deals: seq<Deal>) {
    var info := OpenInfoOf(Openings(deals)).entries;
    var pid := p.positionId;
    (pid in info ==> p.timeOpen == Some(info[pid].timeOpen) && p.openPrice == Some(info[pid].openPrice)) &&
    (pid !in info ==> p.timeOpen.None? && p.openPrice.None?) &&
    p.weekday == WeekdayLabel(p.timeOpen) &&
    p.session == (match p.timeOpen case Some(t) => GetSession(HourOf(t)) case None => "Unknown")
  }

  /**
   * Why the import script stops before uploading: `.dt.weekday` needs a
   * datetime column, and when no row got an opening time pandas keeps
   * `time_open` as plain objects, so the accessor raises AttributeError.
   */
  datatype ImportError = NoDatetimeColumn

  /**
   * The import script from the deal history to the `closed_positions` rows it
   * uploads, keyed by position id. It fails exactly when the history has no
   * opening deal, an empty history included.
   */
  method CollectClosedPositions(deals: seq<Deal>) returns (r: Result<map<int, ClosedPosition>, ImportError>)
    ensures r.Failure? <==> Openings(deals) == []
    ensures r.Success? ==> r.value.Keys == PositionIds(deals)
    ensures r.Success? ==> forall pid :: pid in r.value ==>
      r.value[pid].positionId == pid &&
      CarriesAggregate(r.value[pid], Aggregate(deals)[pid]) &&
      OpenSide(r.value[pid], deals)
  {
    var info := BuildOpenInfo(deals);
    var rows := Aggregate(deals);
    OpenInfoValid(Openings(deals));
    var withSessions := AttachSessions(info);
    var positions := map pid | pid in rows :: Enrich(rows[pid], withSessions.entries);
    forall pid | pid in positions
      ensures positions[pid].positionId == pid
      ensures CarriesAggregate(positions[pid], rows[pid])
      ensures OpenSide(positions[pid], deals)
    {
      EnrichOpenSide(rows[pid], deals, withSessions.entries);
    }
    NoTimeWithoutOpenings(deals, positions);
    if forall pid | pid in positions :: positions[pid].timeOpen.None? {
      return Failure(NoDatetimeColumn);
    }
    return Success(positions);
  }

  /** Some row gets an opening time exactly when the history has an opening deal. */
  lemma NoTimeWithoutOpenings(deals: seq<Deal>, positions: map<int, ClosedPosition>)
    requires positions.Keys == PositionIds(deals)
    requires forall pid :: pid in positions ==> positions[pid].positionId == pid && OpenSide(positions[pid], deals)
    ensures (forall pid :: pid in positions ==> positions[pid].timeOpen.None?) <==> Openings(deals) == []
  {
    if Openings(deals) != [] {
      var d := Openings(deals)[0];
      assert d in Openings(deals);
      assert d.positionId in PositionIds(deals);
      OpenSideFacts(positions[d.positionId], deals);
    } else {
      forall pid | pid in positions
        ensures positions[pid].timeOpen.None?
      {
        OpenSideFacts(positions[pid], deals);
      }
    }
  }

  /** Enrich fills the open side as OpenSide states, given `open_info` with its sessions attached. */
  lemma EnrichOpenSide(row: AggregatedDeals, deals: seq<Deal>, info: map<int, OpenRef>)
    requires info.Keys == OpenInfoOf(Openings(deals)).entries.Keys
    requires forall pid :: pid in info ==> info[pid] == SessionOf(OpenInfoOf(Openings(deals)).entries[pid])
    ensures CarriesAggregate(Enrich(row, info), row)
    ensures OpenSide(Enrich(row, info), deals)
  {
  }

  /** A position has an opening deal in the history. */
  ghost predicate HasOpening(deals: seq<Deal>, pid: int) {
    exists d :: d in deals && d.entry == 0 && d.positionId == pid
  }

  /**
   * The open side of a row: it has an open time exactly when the position has
   * an opening deal, that time is the earliest opening deal's, and the session
   * is "Unknown" exactly when there is none.
   */
  lemma OpenSideFacts(p: ClosedPosition, deals: seq<Deal>)
    requires OpenSide(p, deals)
    ensures p.timeOpen.Some? <==> HasOpening(deals, p.positionId)
    ensures p.session == "Unknown" <==> !HasOpening(deals, p.positionId)
    ensures p.session in Sessions || p.session == "Unknown"
    ensures p.timeOpen.Some? ==>
      exists k :: KeptAt(Openings(deals), k) &&
        Openings(deals)[k].positionId == p.positionId && Openings(deals)[k].time == p.timeOpen.value
  {
    var opens := Openings(deals);
    OpenInfoKeys(opens);
    if HasOpening(deals, p.positionId) {
      var d :| d in deals && d.entry == 0 && d.positionId == p.positionId;
      assert d in opens;
      var i :| 0 <= i < |opens| && opens[i] == d;
    }
    if p.positionId in OpenInfoOf(opens).entries {
      var k := OpenInfoEarliest(opens, p.positionId);
      assert opens[k] in opens;
    }
  }
}
