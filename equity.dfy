/**
 * The equity curve of the statistics page: account snapshots reduced to one
 * equity value per day, a day-by-day walk from the start date to today that
 * carries the last known value forward, and the day-over-day changes.
 * Equity is an exact real; the page's rounding to cents is not modelled.
 */
module Equity {
  import opened Wrappers
  import opened Calendar
  import opened Tables
  import opened Dicts

  /** `starting_capital`: the equity assumed before any snapshot. */
  const StartingCapital: real := 100000.0

  /** `start_date`, 2025-08-01, as a day number (days since 1970-01-01). */
  const StartDate: Day := 20301

  /** `date(2025, 8, 1)` is day 20301: 1 August of 2025. */
  lemma StartDateIsAugustFirst2025()
    ensures StartDate == YearStart(2025) + MonthStart(2025, 8)
  {
    FourYearBlocks(13);
    assert YearStart(2022) == 18993;
    assert YearStart(2025) == YearStart(2022) + 365 + 365 + 366;
    assert MonthStart(2025, 8) == 212;
  }

  /** Between 1970 and 2098 every four years, starting from 1970, hold one leap year. */
  lemma {:induction false} FourYearBlocks(k: nat)
    requires k <= 32
    ensures YearStart(1970 + 4 * k) == 1461 * k
  {
    if k > 0 {
      FourYearBlocks(k - 1);
      var y := 1970 + 4 * (k - 1);
      assert !IsLeap(y) && !IsLeap(y + 1) && IsLeap(y + 2) && !IsLeap(y + 3);
      assert YearStart(y + 1) == YearStart(y) + 365;
      assert YearStart(y + 2) == YearStart(y + 1) + 365;
      assert YearStart(y + 3) == YearStart(y + 2) + 366;
      assert YearStart(y + 4) == YearStart(y + 3) + 365;
    }
  }

  // ---------------------------------------------------------------------------
  // Snapshot reduction
  // ---------------------------------------------------------------------------

  /** Python truthiness of `a.equity`: a missing value and 0 are both false. */
  predicate Truthy(e: Option<real>) {
    e.Some? && e.value != 0.0
  }

  /** `a.equity or last_equity`. */
  function Resolve(e: Option<real>, last: real): real {
    if Truthy(e) then e.value else last
  }

  /** `last_equity` once the loop has visited `history`, in order. */
  function LastEquity(history: seq<Snapshot>): real {
    if history == [] then StartingCapital
    else Resolve(history[|history| - 1].equity, LastEquity(history[..|history| - 1]))
  }

  /** `equity_by_day` once the loop has visited `history`, in order. */
  function ByDay(history: seq<Snapshot>): Dict<Day, real> {
    if history == [] then Empty()
    else ByDay(history[..|history| - 1]).Put(DayOf(history[|history| - 1].timeLastUpdate), LastEquity(history))
  }

  /** The loop over the account history ordered by update time. */
  method EquityByDay(history: seq<Snapshot>) returns (byDay: Dict<Day, real>)
    ensures byDay == ByDay(history)
  {
    var lastEquity := StartingCapital;
    byDay := Empty();
    var i := 0;
    while i < |history|
      invariant 0 <= i <= |history|
      invariant lastEquity == LastEquity(history[..i])
      invariant byDay == ByDay(history[..i])
    {
      var a := history[i];
      var day := DayOf(a.timeLastUpdate);
      lastEquity := if Truthy(a.equity) then a.equity.value else lastEquity;
      byDay := byDay.Put(day, lastEquity);
      assert history[..i + 1][..i] == history[..i];
      i := i + 1;
    }
    assert history[..|history|] == history;
  }

  /**
   * `last_equity` is the equity of the last snapshot that has a truthy one,
   * or the starting capital when there is none.
   */
  lemma {:induction false} LastKnownEquity(history: seq<Snapshot>) returns (k: Option<nat>)
    ensures k.None? ==> LastEquity(history) == StartingCapital &&
                        forall j :: 0 <= j < |history| ==> !Truthy(history[j].equity)
    ensures k.Some? ==> k.value < |history| && Truthy(history[k.value].equity) &&
                        LastEquity(history) == history[k.value].equity.value &&
                        forall j :: k.value < j < |history| ==> !Truthy(history[j].equity)
  {
    if history == [] {
      k := None;
    } else {
      var n := |history|;
      var prev := history[..n - 1];
      if Truthy(history[n - 1].equity) {
        k := Some(n - 1);
      } else {
        k := LastKnownEquity(prev);
        assert forall j :: 0 <= j < n - 1 ==> prev[j] == history[j];
      }
    }
  }

  /** `equity_by_day` lists each day once, and has an entry exactly for the days with a snapshot. */
  lemma {:induction false} ByDayKeys(history: seq<Snapshot>)
    ensures ByDay(history).Valid()
    ensures forall d :: d in ByDay(history).entries <==>
      exists i :: 0 <= i < |history| && DayOf(history[i].timeLastUpdate) == d
  {
    if history != [] {
      var n := |history|;
      var prev := history[..n - 1];
      ByDayKeys(prev);
      forall d
        ensures d in ByDay(history).entries <==> exists i :: 0 <= i < n && DayOf(history[i].timeLastUpdate) == d
      {
        if d in ByDay(prev).entries {
          var i :| 0 <= i < n - 1 && DayOf(prev[i].timeLastUpdate) == d;
          assert history[i] == prev[i];
        }
        if exists i :: 0 <= i < n && DayOf(history[i].timeLastUpdate) == d {
          var i :| 0 <= i < n && DayOf(history[i].timeLastUpdate) == d;
          if i < n - 1 {
            assert prev[i] == history[i];
          }
        }
      }
    }
  }

  /**
   * The entry for a day is `last_equity` as resolved at the last snapshot of
   * that day: later snapshots of the same day overwrite earlier ones.
   */
  lemma {:induction false} ByDayLastSnapshot(history: seq<Snapshot>, d: Day) returns (i: nat)
    requires d in ByDay(history).entries
    ensures i < |history| && DayOf(history[i].timeLastUpdate) == d
    ensures forall j :: i < j < |history| ==> DayOf(history[j].timeLastUpdate) != d
    ensures ByDay(history).entries[d] == LastEquity(history[..i + 1])
  {
    var n := |history|;
    var prev := history[..n - 1];
    if DayOf(history[n - 1].timeLastUpdate) == d {
      i := n - 1;
      assert history[..n] == history;
    } else {
      i := ByDayLastSnapshot(prev, d);
      assert history[..i + 1] == prev[..i + 1];
    }
  }

  // ---------------------------------------------------------------------------
  // Forward-filled daily walk
  // ---------------------------------------------------------------------------

  /** One point of `equity_data` before its change is attached. */
  datatype EquityPoint = EquityPoint(date: Day, equity: real)

  /**
   * `previous_equity` as the walk leaves `day`: the entry of the latest day
   * from `start` through `day` that has one, else the starting capital.
   */
  function FilledAt(byDay: map<Day, real>, start: Day, day: Day): real
    decreases day - start
  {
    if day < start then StartingCapital
    else if day in byDay then byDay[day]
    else FilledAt(byDay, start, day - 1)
  }

  /** The `while current <= end_date` walk. */
  method FillDaily(byDay: map<Day, real>, start: Day, end: Day) returns (series: seq<EquityPoint>)
    ensures |series| == if start <= end then end - start + 1 else 0
    ensures forall i :: 0 <= i < |series| ==> series[i].date == start + i
    ensures forall i :: 0 <= i < |series| ==> series[i].equity == FilledAt(byDay, start, start + i)
  {
    series := [];
    var previous := StartingCapital;
    var current := start;
    while current <= end
      invariant start <= current && (current <= end + 1 || current == start)
      invariant |series| == current - start
      invariant previous == FilledAt(byDay, start, current - 1)
      invariant forall i :: 0 <= i < |series| ==> series[i].date == start + i
      invariant forall i :: 0 <= i < |series| ==> series[i].equity == FilledAt(byDay, start, start + i)
      decreases end - current
    {
      if current in byDay {
        previous := byDay[current];
      }
      series := series + [EquityPoint(current, previous)];
      current := current + 1;
    }
  }

  /**
   * Each point carries the entry of the latest day from the start date through
   * its own date, or the starting capital when no such day has an entry.
   */
  lemma {:induction false} FilledAtLatest(byDay: map<Day, real>, start: Day, day: Day) returns (latest: Option<Day>)
    requires start <= day
    ensures latest.None? ==> FilledAt(byDay, start, day) == StartingCapital &&
                             forall d :: start <= d <= day ==> d !in byDay
    ensures latest.Some? ==> start <= latest.value <= day && latest.value in byDay &&
                             FilledAt(byDay, start, day) == byDay[latest.value] &&
                             forall d :: latest.value < d <= day ==> d !in byDay
    decreases day - start
  {
    if day in byDay {
      latest := Some(day);
    } else if day == start {
      latest := None;
    } else {
      latest := FilledAtLatest(byDay, start, day - 1);
    }
  }

  /** Entries dated before the start date never reach the series. */
  lemma {:induction false} FilledIgnoresEarlyDays(byDay: map<Day, real>, start: Day, day: Day, early: Day, v: real)
    requires early < start
    ensures FilledAt(byDay[early := v], start, day) == FilledAt(byDay, start, day)
    decreases day - start
  {
    if start <= day && day !in byDay {
      FilledIgnoresEarlyDays(byDay, start, day - 1, early, v);
    }
  }

  // ---------------------------------------------------------------------------
  // Day-over-day changes
  // ---------------------------------------------------------------------------

  /** `equity_change`: 0 first, then each value minus the one before it (the list is `[0]` for an empty series). */
  function Changes(values: seq<real>): (c: seq<real>)
    ensures |c| == if values == [] then 1 else |values|
    ensures c[0] == 0.0
  {
    if |values| <= 1 then [0.0]
    else Changes(values[..|values| - 1]) + [values[|values| - 1] - values[|values| - 2]]
  }

  /** Entry `i > 0` of the changes is value `i` minus value `i - 1`. */
  lemma {:induction false} ChangesAt(values: seq<real>, i: int)
    requires 0 < i < |values|
    ensures Changes(values)[i] == values[i] - values[i - 1]
  {
    var n := |values|;
    if i < n - 1 {
      ChangesAt(values[..n - 1], i);
    }
  }

  function Sum(xs: seq<real>): real {
    if xs == [] then 0.0 else Sum(xs[..|xs| - 1]) + xs[|xs| - 1]
  }

  /** The changes add up to the last value minus the first. */
  lemma {:induction false} ChangesTelescope(values: seq<real>)
    requires values != []
    ensures Sum(Changes(values)) == values[|values| - 1] - values[0]
  {
    var n := |values|;
    if n > 1 {
      var prev := values[..n - 1];
      ChangesTelescope(prev);
    }
  }

  /** Running sums from a first value: the series the changes were taken from. */
  function Rebuild(first: real, changes: seq<real>): (values: seq<real>)
    requires changes != []
    ensures |values| == |changes|
  {
    if |changes| == 1 then [first]
    else
      var prev := Rebuild(first, changes[..|changes| - 1]);
      prev + [prev[|prev| - 1] + changes[|changes| - 1]]
  }

  /** The changes with the first value determine the series again. */
  lemma {:induction false} RebuildChanges(values: seq<real>)
    requires values != []
    ensures Rebuild(values[0], Changes(values)) == values
  {
    var n := |values|;
    if n > 1 {
      var prev := values[..n - 1];
      var c := Changes(values);
      assert c[..n - 1] == Changes(prev);
      assert Rebuild(values[0], c[..n - 1]) == prev by {
        RebuildChanges(prev);
        assert prev[0] == values[0];
      }
      RebuildSnoc(values[0], c);
      assert prev + [values[n - 1]] == values;
    }
  }

  /** Rebuild unfolded once. */
  lemma RebuildSnoc(first: real, changes: seq<real>)
    requires |changes| > 1
    ensures var prev := Rebuild(first, changes[..|changes| - 1]);
            Rebuild(first, changes) == prev + [prev[|changes| - 2] + changes[|changes| - 1]]
  {
  }

  /** One entry of `equity_data` as the page serialises it. */
  datatype EquityRow = EquityRow(date: Day, equity: real, equityChange: real)

  /** `equity_values`. */
  function Equities(series: seq<EquityPoint>): (values: seq<real>)
    ensures |values| == |series|
  {
    seq(|series|, i requires 0 <= i < |series| => series[i].equity)
  }

  /** The `for i, d in enumerate(equity_data)` loop that attaches each point's change. */
  method AttachChanges(series: seq<EquityPoint>) returns (rows: seq<EquityRow>)
    ensures |rows| == |series|
    ensures forall i :: 0 <= i < |rows| ==> rows[i].date == series[i].date && rows[i].equity == series[i].equity
    ensures forall i :: 0 < i < |rows| ==> rows[i].equityChange == rows[i].equity - rows[i - 1].equity
    ensures |rows| > 0 ==> rows[0].equityChange == 0.0
  {
    var changes := Changes(Equities(series));
    rows := [];
    var i := 0;
    while i < |series|
      invariant 0 <= i <= |series|
      invariant |rows| == i
      invariant forall j :: 0 <= j < i ==> rows[j] == EquityRow(series[j].date, series[j].equity, changes[j])
    {
      rows := rows + [EquityRow(series[i].date, series[i].equity, changes[i])];
      i := i + 1;
    }
    forall i | 0 < i < |rows|
      ensures rows[i].equityChange == rows[i].equity - rows[i - 1].equity
    {
      ChangesAt(Equities(series), i);
    }
  }

  /**
   * `equity_data` as the view builds it from `history` on `today`: one row per
   * day from `start_date` through `today`, each carrying the forward-filled
   * equity and its change from the day before.
   */
  predicate IsEquityCurve(rows: seq<EquityRow>, history: seq<Snapshot>, today: Day) {
    |rows| == (if StartDate <= today then today - StartDate + 1 else 0) &&
    (forall i :: 0 <= i < |rows| ==>
      rows[i].date == StartDate + i && rows[i].equity == FilledAt(ByDay(history).entries, StartDate, StartDate + i)) &&
    (forall i :: 0 < i < |rows| ==> rows[i].equityChange == rows[i].equity - rows[i - 1].equity) &&
    (|rows| > 0 ==> rows[0].equityChange == 0.0)
  }

  /**
   * The whole equity block of the view: reduction, walk from `start_date` to
   * `today`, and changes.
   */
  method EquityData(history: seq<Snapshot>, today: Day) returns (rows: seq<EquityRow>)
    ensures IsEquityCurve(rows, history, today)
  {
    var byDay := EquityByDay(history);
    var series := FillDaily(byDay.entries, StartDate, today);
    rows := AttachChanges(series);
  }
}
