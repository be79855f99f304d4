/**
 * The win-rate tables of the statistics page.  Each table is a dict seeded
 * with zero stats for every name of a fixed universe and then overwritten,
 * group by group, with the result of a grouped query over the closed
 * positions: by weekday, by session, by month of the opening time and by year
 * of the opening time.
 */
module Buckets {
  import opened Wrappers
  import opened Calendar
  import opened Tables
  import opened Dicts

  /** A dict key or a grouped value: a string, a whole number, or None. */
  datatype Key = Str(s: string) | Num(n: nat) | Null

  /** `{'total_positions': .., 'wins': .., 'total_profit': .., 'winrate': ..}`. */
  datatype Stat = Stat(totalPositions: nat, wins: nat, totalProfit: real, winrate: real)

  /** The stats every name is seeded with. */
  const ZeroStat: Stat := Stat(0, 0, 0.0, 0.0)

  /** The four tables. */
  datatype Dimension = WeekdayDim | SessionDim | MonthDim | YearDim

  /**
   * The value a position is grouped by: its `weekday` column, its `session`
   * column, or `ExtractMonth`/`ExtractYear` of its `time_open` (None when the
   * position has no opening time).
   */
  function GroupKey(p: ClosedPosition, dim: Dimension): Key {
    match dim
    case WeekdayDim => (match p.weekday case Some(w) => Str(w) case None => Null)
    case SessionDim => Str(p.session)
    case MonthDim => (match p.timeOpen case Some(t) => Num(MonthOf(t)) case None => Null)
    case YearDim => (match p.timeOpen case Some(t) => Num(YearOf(t)) case None => Null)
  }

  /** The kinds of value each dimension's query can group by. */
  predicate KeyFits(dim: Dimension, k: Key) {
    match dim
    case WeekdayDim => !k.Num?
    case SessionDim => k.Str?
    case MonthDim => k.Num? ==> 1 <= k.n <= 12
    case YearDim => !k.Str?
  }

  lemma GroupKeyFits(p: ClosedPosition, dim: Dimension)
    ensures KeyFits(dim, GroupKey(p, dim))
  {
  }

  // ---------------------------------------------------------------------------
  // Per-bucket statistics
  // ---------------------------------------------------------------------------

  /** The positions of one group, in order. */
  function Bucket(ps: seq<ClosedPosition>, dim: Dimension, k: Key): (g: seq<ClosedPosition>)
    ensures |g| <= |ps|
    ensures forall p :: p in g <==> p in ps && GroupKey(p, dim) == k
  {
    if ps == [] then []
    else
      var prev := Bucket(ps[..|ps| - 1], dim, k);
      var p := ps[|ps| - 1];
      assert ps == ps[..|ps| - 1] + [p];
      if GroupKey(p, dim) == k then prev + [p] else prev
  }

  /** `Count('position_id', filter=Q(profit__gt=0))`: the positions with a strictly positive profit. */
  function Wins(g: seq<ClosedPosition>): (n: nat)
    ensures n <= |g|
  {
    if g == [] then 0
    else Wins(g[..|g| - 1]) + (if g[|g| - 1].profit > 0.0 then 1 else 0)
  }

  /** `Sum('profit')`. */
  function ProfitSum(g: seq<ClosedPosition>): real {
    if g == [] then 0.0 else ProfitSum(g[..|g| - 1]) + g[|g| - 1].profit
  }

  /** The `winrate` case expression: 0.0 for an empty group, else `wins * 100.0 / total_positions`. */
  function Winrate(wins: nat, total: nat): (w: real)
    requires wins <= total
    ensures 0.0 <= w <= 100.0
    ensures total == 0 ==> w == 0.0
    ensures total > 0 ==> w * total as real == wins as real * 100.0
  {
    if total == 0 then 0.0 else wins as real * 100.0 / total as real
  }

  /** The annotated aggregates of one group. */
  function StatOf(g: seq<ClosedPosition>): (s: Stat)
    ensures s.totalPositions == |g| && s.wins <= s.totalPositions
    ensures 0.0 <= s.winrate <= 100.0
    ensures s == ZeroStat <==> g == []
  {
    Stat(|g|, Wins(g), ProfitSum(g), Winrate(Wins(g), |g|))
  }

  /** A table entry the page can show: wins within the count and a win rate between 0 and 100. */
  predicate Sane(s: Stat) {
    s.wins <= s.totalPositions && 0.0 <= s.winrate <= 100.0 &&
    (s.totalPositions == 0 ==> s.winrate == 0.0)
  }

  // ---------------------------------------------------------------------------
  // The grouped query
  // ---------------------------------------------------------------------------

  /** One row of a grouped query: the group value and its aggregates. */
  datatype GroupRow = GroupRow(key: Key, stat: Stat)

  /** No key is listed twice. */
  predicate DistinctKeys(ks: seq<Key>) {
    forall i, j :: 0 <= i < j < |ks| ==> ks[i] != ks[j]
  }

  /** The distinct group values of the positions, in order of first occurrence. */
  function ObservedKeys(ps: seq<ClosedPosition>, dim: Dimension): (keys: seq<Key>)
    ensures DistinctKeys(keys)
    ensures forall k :: k in keys <==> exists i :: 0 <= i < |ps| && GroupKey(ps[i], dim) == k
  {
    if ps == [] then []
    else
      var n := |ps|;
      var prev := ObservedKeys(ps[..n - 1], dim);
      var k := GroupKey(ps[n - 1], dim);
      assert forall i :: 0 <= i < n - 1 ==> ps[..n - 1][i] == ps[i];
      if k in prev then prev else prev + [k]
  }

  /** `.values(<dimension>).annotate(...)`: one row per group value. */
  function GroupRows(ps: seq<ClosedPosition>, dim: Dimension): (rows: seq<GroupRow>)
    ensures |rows| == |ObservedKeys(ps, dim)|
    ensures forall i :: 0 <= i < |rows| ==> rows[i].key == ObservedKeys(ps, dim)[i]
    ensures forall i :: 0 <= i < |rows| ==> rows[i].stat == StatOf(Bucket(ps, dim, rows[i].key))
  {
    var keys := ObservedKeys(ps, dim);
    seq(|keys|, i requires 0 <= i < |keys| => GroupRow(keys[i], StatOf(Bucket(ps, dim, keys[i]))))
  }

  // ---------------------------------------------------------------------------
  // Labels
  // ---------------------------------------------------------------------------

  /** `month_names`. */
  const MonthNames: seq<string> :=
    ["January", "February", "March", "April", "May", "June",
     "July", "August", "September", "October", "November", "December"]

  /** The character of a decimal digit. */
  function Digit(d: nat): char
    requires d < 10
  {
    "0123456789"[d]
  }

  /** Python's `str(n)` for a whole number. */
  function NatToString(n: nat): (s: string)
    ensures s != [] && (|s| == 1 <==> n < 10)
    ensures forall i :: 0 <= i < |s| ==> '0' <= s[i] <= '9'
  {
    if n < 10 then [Digit(n)] else NatToString(n / 10) + [Digit(n % 10)]
  }

  /** Different numbers print differently. */
  lemma {:induction false} NatToStringInjective(a: nat, b: nat)
    requires NatToString(a) == NatToString(b)
    ensures a == b
  {
    if a >= 10 && b >= 10 {
      var sa := NatToString(a);
      assert sa[..|sa| - 1] == NatToString(a / 10);
      assert NatToString(b)[..|sa| - 1] == NatToString(b / 10);
      NatToStringInjective(a / 10, b / 10);
      assert Digit(a % 10) == Digit(b % 10);
    }
  }

  /** Python's `str(...)` of a grouped value. */
  function PyStr(k: Key): string {
    match k
    case Str(s) => s
    case Num(n) => NatToString(n)
    case Null => "None"
  }

  /**
   * The dict key a group row is stored under, or None where the loop raises
   * KeyError: weekdays and sessions are used as they are, a month number is
   * looked up in `month_names`, a year goes through `str`.
   */
  function Rename(dim: Dimension, k: Key): Option<Key> {
    match dim
    case WeekdayDim => Some(k)
    case SessionDim => Some(k)
    case MonthDim => if k.Num? && 1 <= k.n <= 12 then Some(Str(MonthNames[k.n - 1])) else None
    case YearDim => Some(Str(PyStr(k)))
  }

  lemma MonthNamesDistinct(a: int, b: int)
    requires 1 <= a <= 12 && 1 <= b <= 12 && MonthNames[a - 1] == MonthNames[b - 1]
    ensures a == b
  {
    var names := MonthNames;
    assert |names[a - 1]| == |names[b - 1]| && names[a - 1][0] == names[b - 1][0];
    if names[a - 1][0] == 'J' || names[a - 1][0] == 'M' || names[a - 1][0] == 'A' {
      assert names[a - 1][|names[a - 1]| - 1] == names[b - 1][|names[b - 1]| - 1];
      assert names[a - 1][1] == names[b - 1][1];
      assert names[a - 1][2] == names[b - 1][2];
    }
  }

  /** Two group values a query can produce are stored under the same key only if they are equal. */
  lemma RenameInjective(dim: Dimension, k1: Key, k2: Key)
    requires KeyFits(dim, k1) && KeyFits(dim, k2)
    requires Rename(dim, k1).Some? && Rename(dim, k1) == Rename(dim, k2)
    ensures k1 == k2
  {
    match dim
    case WeekdayDim =>
    case SessionDim =>
    case MonthDim =>
      MonthNamesDistinct(k1.n, k2.n);
    case YearDim =>
      assert PyStr(Null)[0] == 'N';
      if k1.Num? && k2.Num? {
        NatToStringInjective(k1.n, k2.n);
      }
  }

  /** The key a position ends up counted under, if the loop gets that far. */
  function LabelOf(p: ClosedPosition, dim: Dimension): Option<Key> {
    Rename(dim, GroupKey(p, dim))
  }

  /** The positions counted under one key of a table. */
  function LabelBucket(ps: seq<ClosedPosition>, dim: Dimension, name: Key): (g: seq<ClosedPosition>)
    ensures |g| <= |ps|
    ensures forall p :: p in g <==> p in ps && LabelOf(p, dim) == Some(name)
  {
    if ps == [] then []
    else
      var prev := LabelBucket(ps[..|ps| - 1], dim, name);
      var p := ps[|ps| - 1];
      assert ps == ps[..|ps| - 1] + [p];
      if LabelOf(p, dim) == Some(name) then prev + [p] else prev
  }

  /** A group's positions are the positions of the key it is stored under. */
  lemma {:induction false} BucketIsLabelBucket(ps: seq<ClosedPosition>, dim: Dimension, k: Key)
    requires KeyFits(dim, k) && Rename(dim, k).Some?
    ensures Bucket(ps, dim, k) == LabelBucket(ps, dim, Rename(dim, k).value)
  {
    if ps != [] {
      var p := ps[|ps| - 1];
      BucketIsLabelBucket(ps[..|ps| - 1], dim, k);
      GroupKeyFits(p, dim);
      if LabelOf(p, dim) == Rename(dim, k) {
        RenameInjective(dim, GroupKey(p, dim), k);
      }
    }
  }

  // ---------------------------------------------------------------------------
  // Seeding and merging
  // ---------------------------------------------------------------------------

  /** The name universes the tables are seeded with. */
  function Universe(dim: Dimension): seq<Key> {
    match dim
    case WeekdayDim => [Str("Monday"), Str("Tuesday"), Str("Wednesday"), Str("Thursday"), Str("Friday")]
    case SessionDim => [Str("Asia"), Str("London"), Str("Lunch"), Str("New York"), Str("London Close"), Str("Out of Session")]
    case MonthDim => seq(12, i requires 0 <= i < 12 => Str(MonthNames[i]))
    case YearDim => [Str("2025"), Str("2026"), Str("2027")]
  }

  /** No name of a universe is listed twice, so seeding keeps each in its place. */
  lemma UniverseDistinct(dim: Dimension)
    ensures DistinctKeys(Universe(dim))
  {
    if dim == MonthDim {
      forall i, j | 0 <= i < j < 12
        ensures Universe(dim)[i] != Universe(dim)[j]
      {
        if MonthNames[i] == MonthNames[j] {
          MonthNamesDistinct(i + 1, j + 1);
        }
      }
    }
  }

  /** `{name: {zero stats} for name in universe}`. */
  function Seeded(universe: seq<Key>): (d: Dict<Key, Stat>)
    ensures d.Valid()
    ensures forall k :: k in d.entries <==> k in universe
    ensures forall k :: k in d.entries ==> d.entries[k] == ZeroStat
  {
    if universe == [] then Empty()
    else
      var n := |universe|;
      assert forall k :: k in universe <==> k in universe[..n - 1] || k == universe[n - 1];
      Seeded(universe[..n - 1]).Put(universe[n - 1], ZeroStat)
  }

  /** Dropping the last of distinct keys leaves distinct keys, none of them the dropped one. */
  lemma DistinctInit(ks: seq<Key>)
    requires ks != [] && DistinctKeys(ks)
    ensures DistinctKeys(ks[..|ks| - 1]) && ks[|ks| - 1] !in ks[..|ks| - 1]
  {
  }

  /** A non-empty sequence is its front followed by its last element. */
  lemma InitAndLast(ks: seq<Key>)
    requires ks != []
    ensures ks == ks[..|ks| - 1] + [ks[|ks| - 1]]
  {
  }

  /** Seeding one more, new name puts it last. */
  lemma SeededSnoc(universe: seq<Key>)
    requires universe != [] && universe[|universe| - 1] !in universe[..|universe| - 1]
    ensures Seeded(universe).keys == Seeded(universe[..|universe| - 1]).keys + [universe[|universe| - 1]]
  {
    var d := Seeded(universe[..|universe| - 1]);
    assert universe[|universe| - 1] !in d.entries;
  }

  /** Seeding a universe without repeated names lists the names in the universe's order. */
  lemma {:induction false} SeededInOrder(universe: seq<Key>)
    requires DistinctKeys(universe)
    ensures Seeded(universe).keys == universe
  {
    if universe != [] {
      var n := |universe|;
      DistinctInit(universe);
      SeededInOrder(universe[..n - 1]);
      SeededSnoc(universe);
      InitAndLast(universe);
    }
  }

  /** The merge loop over the rows so far; Failure carries the key that raised KeyError. */
  function MergeOf(d: Dict<Key, Stat>, rows: seq<GroupRow>, dim: Dimension): Result<Dict<Key, Stat>, Key> {
    if rows == [] then Success(d)
    else
      var row := rows[|rows| - 1];
      match MergeOf(d, rows[..|rows| - 1], dim)
      case Failure(e) => Failure(e)
      case Success(acc) =>
        match Rename(dim, row.key)
        case None => Failure(row.key)
        case Some(name) => Success(acc.Put(name, row.stat))
  }

  /** A merge that got through all rows got through all but the last, and stored the last row under its name. */
  lemma MergeLast(d: Dict<Key, Stat>, rows: seq<GroupRow>, dim: Dimension)
    requires rows != [] && MergeOf(d, rows, dim).Success?
    ensures var n := |rows|;
            MergeOf(d, rows[..n - 1], dim).Success? && Rename(dim, rows[n - 1].key).Some? &&
            MergeOf(d, rows, dim).value ==
              MergeOf(d, rows[..n - 1], dim).value.Put(Rename(dim, rows[n - 1].key).value, rows[n - 1].stat)
  {
  }

  /** `for stats in <query>: table[<key of stats>] = {...}`. */
  method Merge(seed: Dict<Key, Stat>, rows: seq<GroupRow>, dim: Dimension) returns (r: Result<Dict<Key, Stat>, Key>)
    ensures r == MergeOf(seed, rows, dim)
  {
    var acc := seed;
    var i := 0;
    while i < |rows|
      invariant 0 <= i <= |rows|
      invariant MergeOf(seed, rows[..i], dim) == Success(acc)
    {
      assert rows[..i + 1][..i] == rows[..i];
      assert rows[..i + 1][i] == rows[i];
      var name := Rename(dim, rows[i].key);
      if name.None? {
        MergeFailsFrom(seed, rows, dim, i + 1);
        return Failure(rows[i].key);
      }
      acc := acc.Put(name.value, rows[i].stat);
      i := i + 1;
    }
    assert rows[..|rows|] == rows;
    return Success(acc);
  }

  /** Once the merge has failed, later rows leave the failure as it is. */
  lemma {:induction false} MergeFailsFrom(d: Dict<Key, Stat>, rows: seq<GroupRow>, dim: Dimension, i: nat)
    requires i <= |rows| && MergeOf(d, rows[..i], dim).Failure?
    ensures MergeOf(d, rows, dim) == MergeOf(d, rows[..i], dim)
    decreases |rows| - i
  {
    if i < |rows| {
      assert rows[..i + 1][..i] == rows[..i];
      MergeFailsFrom(d, rows, dim, i + 1);
    } else {
      assert rows[..i] == rows;
    }
  }

  /**
   * The merge raises exactly when some row's key has no name, and then it
   * raises at the first such row.
   */
  lemma {:induction false} MergeFailure(d: Dict<Key, Stat>, rows: seq<GroupRow>, dim: Dimension) returns (first: Option<nat>)
    ensures MergeOf(d, rows, dim).Failure? <==> first.Some?
    ensures first.None? ==> forall i :: 0 <= i < |rows| ==> Rename(dim, rows[i].key).Some?
    ensures first.Some? ==> first.value < |rows| && Rename(dim, rows[first.value].key).None? &&
                            MergeOf(d, rows, dim).error == rows[first.value].key &&
                            forall i :: 0 <= i < first.value ==> Rename(dim, rows[i].key).Some?
  {
    if rows == [] {
      first := None;
    } else {
      var n := |rows|;
      var prev := rows[..n - 1];
      first := MergeFailure(d, prev, dim);
      assert forall i :: 0 <= i < n - 1 ==> prev[i] == rows[i];
      if first.None? && Rename(dim, rows[n - 1].key).None? {
        first := Some(n - 1);
      }
    }
  }

  /** The merge never drops a key and keeps the seeded keys first, in their order. */
  lemma {:induction false} MergeKeepsKeys(d: Dict<Key, Stat>, rows: seq<GroupRow>, dim: Dimension)
    requires d.Valid() && MergeOf(d, rows, dim).Success?
    ensures MergeOf(d, rows, dim).value.Valid()
    ensures |d.keys| <= |MergeOf(d, rows, dim).value.keys|
    ensures MergeOf(d, rows, dim).value.keys[..|d.keys|] == d.keys
    ensures forall k :: k in d.entries ==> k in MergeOf(d, rows, dim).value.entries
  {
    if rows != [] {
      MergeKeepsKeys(d, rows[..|rows| - 1], dim);
      var acc := MergeOf(d, rows[..|rows| - 1], dim).value;
      var r := MergeOf(d, rows, dim).value;
      assert r.keys[..|acc.keys|] == acc.keys;
      assert r.keys[..|d.keys|] == acc.keys[..|d.keys|];
    }
  }

  /**
   * Looking up a key after the merge: the stats of the last row stored under
   * it, or the seeded value when no row is.
   */
  lemma {:induction false} MergeLookup(d: Dict<Key, Stat>, rows: seq<GroupRow>, dim: Dimension, name: Key) returns (w: Option<nat>)
    requires MergeOf(d, rows, dim).Success?
    ensures w.None? ==> (forall i :: 0 <= i < |rows| ==> Rename(dim, rows[i].key) != Some(name)) &&
                        (name in MergeOf(d, rows, dim).value.entries <==> name in d.entries) &&
                        (name in d.entries ==> MergeOf(d, rows, dim).value.entries[name] == d.entries[name])
    ensures w.Some? ==> w.value < |rows| && Rename(dim, rows[w.value].key) == Some(name) &&
                        (forall j :: w.value < j < |rows| ==> Rename(dim, rows[j].key) != Some(name)) &&
                        name in MergeOf(d, rows, dim).value.entries &&
                        MergeOf(d, rows, dim).value.entries[name] == rows[w.value].stat
  {
    if rows != [] {
      var n := |rows|;
      var prev := rows[..n - 1];
      MergeLast(d, rows, dim);
      var stored := Rename(dim, rows[n - 1].key).value;
      if stored == name {
        w := Some(n - 1);
      } else {
        w := MergeLookup(d, prev, dim, name);
        assert forall i :: 0 <= i < n - 1 ==> prev[i] == rows[i];
        if w.Some? {
          forall j | w.value < j < n
            ensures Rename(dim, rows[j].key) != Some(name)
          {
            if j < n - 1 {
              assert Rename(dim, prev[j].key) != Some(name);
            }
          }
        }
      }
    } else {
      w := None;
    }
  }

  /** One table of the page: the grouped query merged into the dict seeded with the universe. */
  function Table(ps: seq<ClosedPosition>, dim: Dimension): Result<Dict<Key, Stat>, Key> {
    MergeOf(Seeded(Universe(dim)), GroupRows(ps, dim), dim)
  }

  /** Builds one table of the page. */
  method TableFor(ps: seq<ClosedPosition>, dim: Dimension) returns (r: Result<Dict<Key, Stat>, Key>)
    ensures r == Table(ps, dim)
  {
    var rows := GroupRows(ps, dim);
    r := Merge(Seeded(Universe(dim)), rows, dim);
  }

  // ---------------------------------------------------------------------------
  // What the tables hold
  // ---------------------------------------------------------------------------

  /** Only the month table can raise, and it does exactly when a position has no opening time. */
  lemma TableFails(ps: seq<ClosedPosition>, dim: Dimension)
    ensures Table(ps, dim).Failure? <==>
            dim == MonthDim && exists i :: 0 <= i < |ps| && ps[i].timeOpen.None?
    ensures Table(ps, dim).Failure? ==>
            Table(ps, dim).error == Null
  {
    var rows := GroupRows(ps, dim);
    var keys := ObservedKeys(ps, dim);
    var first := MergeFailure(Seeded(Universe(dim)), rows, dim);
    if first.Some? {
      var i := first.value;
      assert keys[i] in keys;
      var j :| 0 <= j < |ps| && GroupKey(ps[j], dim) == keys[i];
      GroupKeyFits(ps[j], dim);
    }
    if dim == MonthDim && exists i :: 0 <= i < |ps| && ps[i].timeOpen.None? {
      var i :| 0 <= i < |ps| && ps[i].timeOpen.None?;
      assert Null in keys;
      var j :| 0 <= j < |keys| && keys[j] == Null;
      assert rows[j].key == Null;
    }
  }

  /**
   * The table lists the names of the universe first, in the universe's order
   * (Monday to Friday, the six sessions, January to December, 2025 to 2027);
   * every other key in it is the name of some position, and each entry holds the stats of exactly the
   * positions counted under its key: zero stats for a name without positions.
   */
  lemma TableContents(ps: seq<ClosedPosition>, dim: Dimension)
    requires Table(ps, dim).Success?
    ensures var t := Table(ps, dim).value;
            t.Valid() &&
            |Universe(dim)| <= |t.keys| && t.keys[..|Universe(dim)|] == Universe(dim) &&
            (forall k :: k in Universe(dim) ==> k in t.entries) &&
            (forall k :: k in t.entries <==> k in Universe(dim) || exists p :: p in ps && LabelOf(p, dim) == Some(k)) &&
            (forall k :: k in t.entries ==> t.entries[k] == StatOf(LabelBucket(ps, dim, k)))
  {
    var seed := Seeded(Universe(dim));
    var rows := GroupRows(ps, dim);
    var keys := ObservedKeys(ps, dim);
    var t := MergeOf(seed, rows, dim).value;
    UniverseDistinct(dim);
    SeededInOrder(Universe(dim));
    MergeKeepsKeys(seed, rows, dim);
    forall k
      ensures k in t.entries <==> k in Universe(dim) || exists p :: p in ps && LabelOf(p, dim) == Some(k)
      ensures k in t.entries ==> t.entries[k] == StatOf(LabelBucket(ps, dim, k))
    {
      TableEntry(ps, dim, k);
    }
  }

  /** TableContents for one key. */
  lemma TableEntry(ps: seq<ClosedPosition>, dim: Dimension, k: Key)
    requires Table(ps, dim).Success?
    ensures var t := Table(ps, dim).value;
            (k in t.entries <==> k in Universe(dim) || exists p :: p in ps && LabelOf(p, dim) == Some(k)) &&
            (k in t.entries ==> t.entries[k] == StatOf(LabelBucket(ps, dim, k)))
  {
    var seed := Seeded(Universe(dim));
    var rows := GroupRows(ps, dim);
    var keys := ObservedKeys(ps, dim);
    var w := MergeLookup(seed, rows, dim, k);
    if w.Some? {
      var i := w.value;
      assert keys[i] in keys;
      var j :| 0 <= j < |ps| && GroupKey(ps[j], dim) == keys[i];
      GroupKeyFits(ps[j], dim);
      BucketIsLabelBucket(ps, dim, keys[i]);
      assert LabelOf(ps[j], dim) == Some(k);
    } else {
      forall p | p in ps
        ensures LabelOf(p, dim) != Some(k)
      {
        var j :| 0 <= j < |ps| && ps[j] == p;
        assert GroupKey(p, dim) in keys;
        var i :| 0 <= i < |keys| && keys[i] == GroupKey(p, dim);
        assert rows[i].key == GroupKey(p, dim);
      }
      NoLabelNoBucket(ps, dim, k);
    }
  }

  /** Every entry of every table has wins within its count and a win rate from 0 to 100. */
  lemma TableSane(ps: seq<ClosedPosition>, dim: Dimension)
    requires Table(ps, dim).Success?
    ensures var t := Table(ps, dim).value;
            forall k :: k in t.entries ==> Sane(t.entries[k])
  {
    TableContents(ps, dim);
  }

  /** A name of the universe that no position is counted under keeps its zero stats. */
  lemma UnusedLabelIsZero(ps: seq<ClosedPosition>, dim: Dimension, k: Key)
    requires Table(ps, dim).Success?
    requires k in Universe(dim)
    requires forall p :: p in ps ==> LabelOf(p, dim) != Some(k)
    ensures var t := Table(ps, dim).value;
            k in t.entries && t.entries[k] == ZeroStat
  {
    var t := Table(ps, dim).value;
    TableEntry(ps, dim, k);
    assert k in t.entries;
    NoLabelNoBucket(ps, dim, k);
    assert StatOf([]) == ZeroStat;
  }

  /** A key no position is counted under has an empty bucket. */
  lemma {:induction false} NoLabelNoBucket(ps: seq<ClosedPosition>, dim: Dimension, k: Key)
    requires forall p :: p in ps ==> LabelOf(p, dim) != Some(k)
    ensures LabelBucket(ps, dim, k) == []
  {
    if ps != [] {
      assert forall p :: p in ps[..|ps| - 1] ==> p in ps;
      assert ps[|ps| - 1] in ps;
      NoLabelNoBucket(ps[..|ps| - 1], dim, k);
    }
  }

  // ---------------------------------------------------------------------------
  // Year total
  // ---------------------------------------------------------------------------

  /** `sum(stats['total_profit'] for stats in table.values())`, in the dict's order. */
  function TotalProfit(keys: seq<Key>, entries: map<Key, Stat>): real
    requires forall i :: 0 <= i < |keys| ==> keys[i] in entries
  {
    if keys == [] then 0.0
    else TotalProfit(keys[..|keys| - 1], entries) + entries[keys[|keys| - 1]].totalProfit
  }

  /** The profit of the positions counted under each of `keys`, added up. */
  function LabelSums(ps: seq<ClosedPosition>, dim: Dimension, keys: seq<Key>): real {
    if keys == [] then 0.0
    else LabelSums(ps, dim, keys[..|keys| - 1]) + ProfitSum(LabelBucket(ps, dim, keys[|keys| - 1]))
  }

  /** `v` once for each of `keys` that `x` names. */
  function Indicator(keys: seq<Key>, x: Option<Key>, v: real): real {
    if keys == [] then 0.0
    else Indicator(keys[..|keys| - 1], x, v) + (if x == Some(keys[|keys| - 1]) then v else 0.0)
  }

  lemma {:induction false} IndicatorOnce(keys: seq<Key>, x: Option<Key>, v: real)
    requires DistinctKeys(keys)
    ensures Indicator(keys, x, v) == if x.Some? && x.value in keys then v else 0.0
  {
    if keys != [] {
      var n := |keys|;
      var prev := keys[..n - 1];
      assert DistinctKeys(prev);
      IndicatorOnce(prev, x, v);
      assert forall k :: k in keys <==> k in prev || k == keys[n - 1];
      assert keys[n - 1] !in prev;
    }
  }

  /** Adding one position adds its profit under its own key only. */
  lemma {:induction false} LabelSumsSnoc(ps: seq<ClosedPosition>, dim: Dimension, keys: seq<Key>)
    requires ps != []
    ensures LabelSums(ps, dim, keys) ==
            LabelSums(ps[..|ps| - 1], dim, keys) + Indicator(keys, LabelOf(ps[|ps| - 1], dim), ps[|ps| - 1].profit)
  {
    if keys != [] {
      LabelSumsSnoc(ps, dim, keys[..|keys| - 1]);
      var g := LabelBucket(ps[..|ps| - 1], dim, keys[|keys| - 1]);
      assert (g + [ps[|ps| - 1]])[..|g|] == g;
    }
  }

  /** Keys that list every position's key once split the total profit without loss or double counting. */
  lemma {:induction false} LabelSumsPartition(ps: seq<ClosedPosition>, dim: Dimension, keys: seq<Key>)
    requires DistinctKeys(keys)
    requires forall p :: p in ps ==> LabelOf(p, dim).Some? && LabelOf(p, dim).value in keys
    ensures LabelSums(ps, dim, keys) == ProfitSum(ps)
  {
    if ps == [] {
      EmptyLabelSums(dim, keys);
    } else {
      var n := |ps|;
      assert forall p :: p in ps[..n - 1] ==> p in ps;
      LabelSumsPartition(ps[..n - 1], dim, keys);
      LabelSumsSnoc(ps, dim, keys);
      assert ps[n - 1] in ps;
      IndicatorOnce(keys, LabelOf(ps[n - 1], dim), ps[n - 1].profit);
    }
  }

  lemma {:induction false} EmptyLabelSums(dim: Dimension, keys: seq<Key>)
    ensures LabelSums([], dim, keys) == 0.0
  {
    if keys != [] {
      EmptyLabelSums(dim, keys[..|keys| - 1]);
    }
  }

  /** A table whose entries hold their keys' stats totals the profit under those keys. */
  lemma {:induction false} TotalIsLabelSums(ps: seq<ClosedPosition>, dim: Dimension, keys: seq<Key>, entries: map<Key, Stat>)
    requires forall i :: 0 <= i < |keys| ==> keys[i] in entries
    requires forall k :: k in entries ==> entries[k] == StatOf(LabelBucket(ps, dim, k))
    ensures TotalProfit(keys, entries) == LabelSums(ps, dim, keys)
  {
    if keys != [] {
      TotalIsLabelSums(ps, dim, keys[..|keys| - 1], entries);
    }
  }

  /**
   * `total_profit_all_years`: the year table never raises, and its profits,
   * extra keys such as "None" or "2028" included, add up to the profit of
   * every closed position.
   */
  lemma YearTotalIsAllProfit(ps: seq<ClosedPosition>)
    ensures Table(ps, YearDim).Success?
    ensures var t := Table(ps, YearDim).value;
            t.Valid() && TotalProfit(t.keys, t.entries) == ProfitSum(ps)
  {
    TableFails(ps, YearDim);
    TableContents(ps, YearDim);
    var t := Table(ps, YearDim).value;
    assert forall i :: 0 <= i < |t.keys| ==> t.keys[i] in t.entries;
    TotalIsLabelSums(ps, YearDim, t.keys, t.entries);
    LabelSumsPartition(ps, YearDim, t.keys);
  }

  // ---------------------------------------------------------------------------
  // Position counts
  // ---------------------------------------------------------------------------

  /** The `total_positions` of a table, added up over `keys`. */
  function TotalPositions(keys: seq<Key>, entries: map<Key, Stat>): nat
    requires forall i :: 0 <= i < |keys| ==> keys[i] in entries
  {
    if keys == [] then 0
    else TotalPositions(keys[..|keys| - 1], entries) + entries[keys[|keys| - 1]].totalPositions
  }

  /** The number of positions counted under each of `keys`, added up. */
  function LabelCounts(ps: seq<ClosedPosition>, dim: Dimension, keys: seq<Key>): nat {
    if keys == [] then 0
    else LabelCounts(ps, dim, keys[..|keys| - 1]) + |LabelBucket(ps, dim, keys[|keys| - 1])|
  }

  /** How many of `keys` `x` names. */
  function Hits(keys: seq<Key>, x: Option<Key>): nat {
    if keys == [] then 0
    else Hits(keys[..|keys| - 1], x) + (if x == Some(keys[|keys| - 1]) then 1 else 0)
  }

  lemma {:induction false} HitsOnce(keys: seq<Key>, x: Option<Key>)
    requires DistinctKeys(keys)
    ensures Hits(keys, x) == if x.Some? && x.value in keys then 1 else 0
  {
    if keys != [] {
      var n := |keys|;
      var prev := keys[..n - 1];
      assert DistinctKeys(prev);
      HitsOnce(prev, x);
      assert forall k :: k in keys <==> k in prev || k == keys[n - 1];
      assert keys[n - 1] !in prev;
    }
  }

  /** Adding one position adds one to the count of its own key only. */
  lemma {:induction false} LabelCountsSnoc(ps: seq<ClosedPosition>, dim: Dimension, keys: seq<Key>)
    requires ps != []
    ensures LabelCounts(ps, dim, keys) == LabelCounts(ps[..|ps| - 1], dim, keys) + Hits(keys, LabelOf(ps[|ps| - 1], dim))
  {
    if keys != [] {
      LabelCountsSnoc(ps, dim, keys[..|keys| - 1]);
    }
  }

  lemma {:induction false} EmptyLabelCounts(dim: Dimension, keys: seq<Key>)
    ensures LabelCounts([], dim, keys) == 0
  {
    if keys != [] {
      EmptyLabelCounts(dim, keys[..|keys| - 1]);
    }
  }

  /** Keys that list every position's key once count every position exactly once. */
  lemma {:induction false} LabelCountsPartition(ps: seq<ClosedPosition>, dim: Dimension, keys: seq<Key>)
    requires DistinctKeys(keys)
    requires forall p :: p in ps ==> LabelOf(p, dim).Some? && LabelOf(p, dim).value in keys
    ensures LabelCounts(ps, dim, keys) == |ps|
  {
    if ps == [] {
      EmptyLabelCounts(dim, keys);
    } else {
      var n := |ps|;
      assert forall p :: p in ps[..n - 1] ==> p in ps;
      LabelCountsPartition(ps[..n - 1], dim, keys);
      LabelCountsSnoc(ps, dim, keys);
      assert ps[n - 1] in ps;
      HitsOnce(keys, LabelOf(ps[n - 1], dim));
    }
  }

  /** A table whose entries hold their keys' stats counts the positions under those keys. */
  lemma {:induction false} TotalIsLabelCounts(ps: seq<ClosedPosition>, dim: Dimension, keys: seq<Key>, entries: map<Key, Stat>)
    requires forall i :: 0 <= i < |keys| ==> keys[i] in entries
    requires forall k :: k in entries ==> entries[k] == StatOf(LabelBucket(ps, dim, k))
    ensures TotalPositions(keys, entries) == LabelCounts(ps, dim, keys)
  {
    if keys != [] {
      TotalIsLabelCounts(ps, dim, keys[..|keys| - 1], entries);
    }
  }

  /** A table that does not raise has a name for every position. */
  lemma TableLabelsAll(ps: seq<ClosedPosition>, dim: Dimension)
    requires Table(ps, dim).Success?
    ensures forall p :: p in ps ==> LabelOf(p, dim).Some?
  {
    TableFails(ps, dim);
    forall p | p in ps
      ensures LabelOf(p, dim).Some?
    {
      var i :| 0 <= i < |ps| && ps[i] == p;
    }
  }

  /** A table that does not raise files every position under exactly one of its keys. */
  lemma TableCountsAllPositions(ps: seq<ClosedPosition>, dim: Dimension)
    requires Table(ps, dim).Success?
    ensures var t := Table(ps, dim).value;
            t.Valid() && TotalPositions(t.keys, t.entries) == |ps|
  {
    TableLabelsAll(ps, dim);
    TableContents(ps, dim);
    var t := Table(ps, dim).value;
    assert forall i :: 0 <= i < |t.keys| ==> t.keys[i] in t.entries;
    assert forall p :: p in ps ==> LabelOf(p, dim).value in t.keys;
    TotalIsLabelCounts(ps, dim, t.keys, t.entries);
    LabelCountsPartition(ps, dim, t.keys);
  }

  /**
   * The weekday, session and year tables never raise, and their
   * `total_positions`, extra keys such as None, "Unknown" or "None" included,
   * add up to the number of closed positions.
   */
  lemma CountIsAllPositions(ps: seq<ClosedPosition>, dim: Dimension)
    requires dim != MonthDim
    ensures Table(ps, dim).Success?
    ensures var t := Table(ps, dim).value;
            t.Valid() && TotalPositions(t.keys, t.entries) == |ps|
  {
    TableFails(ps, dim);
    TableCountsAllPositions(ps, dim);
  }
}
