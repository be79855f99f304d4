/**
 * The `statistics` view: the dashboard counters, the equity curve, the four
 * win-rate tables, the all-years profit total and the account's trade mode,
 * computed from the rows the view reads.
 */
module Overview {
  import opened Wrappers
  import opened Calendar
  import opened Tables
  import opened Dicts
  import opened Ingest
  import opened Equity
  import opened Buckets

  /** `stats_dict_account.get(code, 'Unknown')`. */
  function TradeModeLabel(code: int): (s: string)
    ensures s == "Unknown" <==> !(0 <= code <= 3)
    ensures code == 0 ==> s == "Demo"
    ensures code == 1 ==> s == "Live"
    ensures code == 2 ==> s == "Strategy Tester"
    ensures code == 3 ==> s == "Contest Mode"
  {
    if code == 0 then "Demo"
    else if code == 1 then "Live"
    else if code == 2 then "Strategy Tester"
    else if code == 3 then "Contest Mode"
    else "Unknown"
  }

  /** The four codes have four different labels. */
  lemma TradeModeLabelsDistinct(a: int, b: int)
    requires 0 <= a <= 3 && 0 <= b <= 3 && TradeModeLabel(a) == TradeModeLabel(b)
    ensures a == b
  {
    var la, lb := TradeModeLabel(a), TradeModeLabel(b);
    assert |la| == |lb| && la[0] == lb[0];
  }

  /** Why the view raises instead of rendering. */
  datatype StatsError =
    | KeyError(key: Key)  // `month_names[month_num]` for a month it does not list
    | NoAccount           // `Account.objects.last()` is None, so `.trade_mode` raises

  /** The template context the view renders. */
  datatype Page = Page(
    openCount: nat,
    closedCount: nat,
    equityData: seq<EquityRow>,
    weekdayStats: Dict<Key, Stat>,
    sessionsStats: Dict<Key, Stat>,
    monthlyStats: Dict<Key, Stat>,
    yearlyStats: Dict<Key, Stat>,
    tradeMode: string,
    totalProfitAllYears: real)

  /** Some closed position has no opening time. */
  predicate MissingOpenTime(closed: seq<ClosedPosition>) {
    exists i :: 0 <= i < |closed| && closed[i].timeOpen.None?
  }

  /**
   * Of the four tables only the month table can raise, with `KeyError(None)`,
   * and exactly when a position has no opening time; the year table's totals
   * add up to the profit of every closed position.
   */
  lemma ViewTables(ps: seq<ClosedPosition>)
    ensures Table(ps, WeekdayDim).Success? && Table(ps, SessionDim).Success?
    ensures Table(ps, MonthDim).Failure? <==> MissingOpenTime(ps)
    ensures Table(ps, MonthDim).Failure? ==> Table(ps, MonthDim).error == Null
    ensures Table(ps, YearDim).Success? && Table(ps, YearDim).value.Valid()
    ensures TotalProfit(Table(ps, YearDim).value.keys, Table(ps, YearDim).value.entries) == ProfitSum(ps)
  {
    TableFails(ps, WeekdayDim);
    TableFails(ps, SessionDim);
    TableFails(ps, MonthDim);
    YearTotalIsAllProfit(ps);
  }

  /**
   * The view.  `openCount` is the number of open positions, `closed` the
   * closed positions, `history` the account snapshots ordered by update time,
   * `lastAccount` the result of `Account.objects.last()` and `today` the
   * date `date.today()` returns.
   */
  method Statistics(openCount: nat, closed: seq<ClosedPosition>, history: seq<Snapshot>,
                    lastAccount: Option<Snapshot>, today: Day)
    returns (r: Result<Page, StatsError>)
    ensures r.Failure? <==> MissingOpenTime(closed) || lastAccount.None?
    ensures MissingOpenTime(closed) ==> r == Failure(KeyError(Null))
    ensures !MissingOpenTime(closed) && lastAccount.None? ==> r == Failure(NoAccount)
    ensures r.Success? ==> r.value.openCount == openCount && r.value.closedCount == |closed|
    ensures r.Success? ==> IsEquityCurve(r.value.equityData, history, today)
    ensures r.Success? ==> Table(closed, WeekdayDim) == Success(r.value.weekdayStats)
    ensures r.Success? ==> Table(closed, SessionDim) == Success(r.value.sessionsStats)
    ensures r.Success? ==> Table(closed, MonthDim) == Success(r.value.monthlyStats)
    ensures r.Success? ==> Table(closed, YearDim) == Success(r.value.yearlyStats)
    ensures r.Success? ==> r.value.totalProfitAllYears == ProfitSum(closed)
    ensures r.Success? ==> r.value.tradeMode == TradeModeLabel(lastAccount.value.tradeMode)
  {
    var equityData := EquityData(history, today);
    ViewTables(closed);
    var weekday := TableFor(closed, WeekdayDim);
    var sessions := TableFor(closed, SessionDim);
    var monthly := TableFor(closed, MonthDim);
    if monthly.Failure? {
      return Failure(KeyError(monthly.error));
    }
    var yearly := TableFor(closed, YearDim);
    var years := yearly.value;
    var total := TotalProfit(years.keys, years.entries);
    if lastAccount.None? {
      return Failure(NoAccount);
    }
    var tradeMode := TradeModeLabel(lastAccount.value.tradeMode);
    r := Success(Page(openCount, |closed|, equityData, weekday.value, sessions.value, monthly.value,
                      years, tradeMode, total));
  }

  // ---------------------------------------------------------------------------
  // The import script's labels against the view's universes
  // ---------------------------------------------------------------------------

  /** The view seeds the session table with exactly the import script's session labels, in order. */
  lemma SessionUniverseIsSessions()
    ensures Universe(SessionDim) == seq(|Sessions|, i requires 0 <= i < |Sessions| => Str(Sessions[i]))
  {
  }

  /** The view seeds the weekday table with exactly the import script's weekday labels, in order. */
  lemma WeekdayUniverseIsWeekdayNames()
    ensures Universe(WeekdayDim) == seq(|WeekdayNames|, i requires 0 <= i < |WeekdayNames| => Str(WeekdayNames[i]))
  {
  }

  /**
   * For a position the import script produced, the weekday table files it
   * under a seeded weekday or under None, and the session table under a seeded
   * session or under "Unknown" exactly when it has no opening deal.
   */
  lemma ImportedPositionKeys(p: ClosedPosition, deals: seq<Deal>)
    requires OpenSide(p, deals)
    ensures LabelOf(p, WeekdayDim) == Some(Null) || LabelOf(p, WeekdayDim).value in Universe(WeekdayDim)
    ensures LabelOf(p, SessionDim).value in Universe(SessionDim) <==> HasOpening(deals, p.positionId)
    ensures LabelOf(p, SessionDim) == Some(Str("Unknown")) <==> !HasOpening(deals, p.positionId)
  {
    OpenSideFacts(p, deals);
    SessionInUniverse(p.session);
    if p.weekday.Some? {
      WeekdayInUniverse(p.weekday.value);
    }
  }

  /** A session name is seeded exactly when the import script can produce it from an hour; "Unknown" is not. */
  lemma SessionInUniverse(s: string)
    ensures Str(s) in Universe(SessionDim) <==> s in Sessions
    ensures s == "Unknown" ==> s !in Sessions
  {
    SessionUniverseIsSessions();
    var u := Universe(SessionDim);
    if s in Sessions {
      var i :| 0 <= i < |Sessions| && Sessions[i] == s;
      assert u[i] == Str(s);
    }
  }

  /** Every weekday name the import script stores is seeded. */
  lemma WeekdayInUniverse(w: string)
    requires w in WeekdayNames
    ensures Str(w) in Universe(WeekdayDim)
  {
    WeekdayUniverseIsWeekdayNames();
    var i :| 0 <= i < |WeekdayNames| && WeekdayNames[i] == w;
    assert Universe(WeekdayDim)[i] == Str(w);
  }

  /**
   * Storing a position whose deals have no opening deal makes the month table
   * raise: its `time_open` is null, so its month is None.
   */
  lemma MonthRaisesWithoutOpening(closed: seq<ClosedPosition>, deals: seq<Deal>, i: nat)
    requires i < |closed| && OpenSide(closed[i], deals) && !HasOpening(deals, closed[i].positionId)
    ensures Table(closed, MonthDim) == Failure(Null)
  {
    OpenSideFacts(closed[i], deals);
    TableFails(closed, MonthDim);
  }
}
