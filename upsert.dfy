/**
 * The SQL text built by `upload_df_with_update`: an `INSERT ... ON DUPLICATE
 * KEY UPDATE` statement over a frame's columns, with one `%s` placeholder per
 * column and an update clause that skips the primary-key columns.
 */
module Upsert {

  /**
   * The `primary_key` argument: a single column name (a Python string, so
   * `col not in primary_key` is a substring test) or a list of column names.
   */
  datatype PrimaryKey = KeyName(name: string) | KeyColumns(columns: seq<string>)

  /** `needle` begins `hay`. */
  predicate IsPrefix(needle: string, hay: string) {
    |needle| <= |hay| && hay[..|needle|] == needle
  }

  /** Python's `needle in hay` on two strings. */
  predicate IsSubstring(needle: string, hay: string)
    decreases |hay|
  {
    IsPrefix(needle, hay) || (hay != [] && IsSubstring(needle, hay[1..]))
  }

  /** `needle` occurs in `hay` starting at offset `i`. */
  predicate OccursAt(needle: string, hay: string, i: int) {
    0 <= i && i + |needle| <= |hay| && hay[i..i + |needle|] == needle
  }

  /** IsSubstring holds exactly when `needle` occurs at some offset of `hay`. */
  lemma {:induction false} SubstringAt(needle: string, hay: string)
    ensures IsSubstring(needle, hay) <==> exists i :: OccursAt(needle, hay, i)
    decreases |hay|
  {
    if IsPrefix(needle, hay) {
      assert OccursAt(needle, hay, 0);
    } else if hay != [] {
      SubstringAt(needle, hay[1..]);
      if IsSubstring(needle, hay[1..]) {
        var i :| OccursAt(needle, hay[1..], i);
        assert hay[i + 1..i + 1 + |needle|] == hay[1..][i..i + |needle|];
        assert OccursAt(needle, hay, i + 1);
      }
      forall i | OccursAt(needle, hay, i)
        ensures i > 0 ==> OccursAt(needle, hay[1..], i - 1)
      {
        if i > 0 {
          assert hay[1..][i - 1..i - 1 + |needle|] == hay[i..i + |needle|];
        }
      }
    }
  }

  /** A string with a character that `hay` lacks does not occur in `hay`. */
  lemma NotSubstringByChar(needle: string, hay: string, k: nat)
    requires k < |needle| && needle[k] !in hay
    ensures !IsSubstring(needle, hay)
  {
    forall i | 0 <= i && i + |needle| <= |hay|
      ensures !OccursAt(needle, hay, i)
    {
      assert hay[i..i + |needle|][k] == hay[i + k];
    }
    SubstringAt(needle, hay);
  }

  /** `col in primary_key`, with Python's meaning for either kind of key. */
  predicate InKey(col: string, key: PrimaryKey) {
    match key
    case KeyName(name) => IsSubstring(col, name)
    case KeyColumns(columns) => col in columns
  }

  /** `sep.join(xs)`. */
  function Join(sep: string, xs: seq<string>): string {
    if xs == [] then ""
    else if |xs| == 1 then xs[0]
    else xs[0] + sep + Join(sep, xs[1..])
  }

  /** Splits a string at every occurrence of `sep`, like Python's `s.split(sep)`. */
  function Split(sep: char, s: string): (parts: seq<string>)
    ensures |parts| >= 1
  {
    if s == [] then [""]
    else
      var rest := Split(sep, s[1..]);
      if s[0] == sep then [""] + rest else [[s[0]] + rest[0]] + rest[1..]
  }

  lemma {:induction false} SplitNoSep(sep: char, s: string)
    requires sep !in s
    ensures Split(sep, s) == [s]
  {
    if s != [] {
      SplitNoSep(sep, s[1..]);
      assert [s[0]] + s[1..] == s;
    }
  }

  lemma {:induction false} SplitAtSep(sep: char, a: string, b: string)
    requires sep !in a
    ensures Split(sep, a + [sep] + b) == [a] + Split(sep, b)
  {
    if a == [] {
      assert a + [sep] + b == [sep] + b;
      assert ([sep] + b)[1..] == b;
    } else {
      SplitAtSep(sep, a[1..], b);
      assert (a + [sep] + b)[1..] == a[1..] + [sep] + b;
      assert [a[0]] + a[1..] == a;
    }
  }

  /** Joining with a one-character separator that no part contains is undone by splitting at it. */
  lemma {:induction false} SplitJoin(sep: char, xs: seq<string>)
    requires xs != []
    requires forall i :: 0 <= i < |xs| ==> sep !in xs[i]
    ensures Split(sep, Join([sep], xs)) == xs
  {
    if |xs| == 1 {
      SplitNoSep(sep, xs[0]);
    } else {
      SplitJoin(sep, xs[1..]);
      SplitAtSep(sep, xs[0], Join([sep], xs[1..]));
      assert xs[0] + [sep] + Join([sep], xs[1..]) == Join([sep], xs);
      assert [xs[0]] + xs[1..] == xs;
    }
  }

  /** `",".join(["%s"] * n)`. */
  function Placeholders(n: nat): string {
    Join(",", seq(n, _ => "%s"))
  }

  /** The placeholder list is `n` copies of `%s` separated by commas: `%s,%s,...,%s`. */
  lemma {:induction false} PlaceholdersShape(n: nat)
    ensures |Placeholders(n)| == if n == 0 then 0 else 3 * n - 1
    ensures forall i :: 0 <= i < |Placeholders(n)| ==> Placeholders(n)[i] == "%s,"[i % 3]
  {
    if n > 1 {
      PlaceholdersShape(n - 1);
      var tail := seq(n - 1, _ => "%s");
      assert seq(n, _ => "%s")[1..] == tail;
      assert Placeholders(n) == "%s" + "," + Placeholders(n - 1);
      forall i | 0 <= i < |Placeholders(n)|
        ensures Placeholders(n)[i] == "%s,"[i % 3]
      {
        if i >= 3 {
          assert Placeholders(n)[i] == Placeholders(n - 1)[i - 3];
        }
      }
    }
  }

  /** Splitting the placeholder list at the commas gives exactly `n` placeholders. */
  lemma PlaceholdersSplit(n: nat)
    requires n > 0
    ensures Split(',', Placeholders(n)) == seq(n, _ => "%s")
  {
    SplitJoin(',', seq(n, _ => "%s"));
  }

  /** `[col for col in cols if col not in primary_key]`. */
  function UpdateColumns(cols: seq<string>, key: PrimaryKey): (update: seq<string>)
    ensures forall c :: c in update <==> c in cols && !InKey(c, key)
    ensures |update| <= |cols|
  {
    if cols == [] then []
    else
      var rest := UpdateColumns(cols[..|cols| - 1], key);
      var c := cols[|cols| - 1];
      assert cols == cols[..|cols| - 1] + [c];
      if InKey(c, key) then rest else rest + [c]
  }

  /** No two entries of `xs` are equal. */
  predicate Distinct(xs: seq<string>) {
    forall i, j :: 0 <= i < j < |xs| ==> xs[i] != xs[j]
  }

  /** `xs` is `ys` with some entries left out, the rest in their order. */
  predicate IsSubsequence(xs: seq<string>, ys: seq<string>)
    decreases |ys|
  {
    if ys == [] then xs == []
    else
      (xs != [] && xs[|xs| - 1] == ys[|ys| - 1] && IsSubsequence(xs[..|xs| - 1], ys[..|ys| - 1]))
      || IsSubsequence(xs, ys[..|ys| - 1])
  }

  /** The update columns keep the order of the frame's columns and, if those are distinct, list each of them once. */
  lemma {:induction false} UpdateColumnsOrdered(cols: seq<string>, key: PrimaryKey)
    ensures IsSubsequence(UpdateColumns(cols, key), cols)
    ensures Distinct(cols) ==> Distinct(UpdateColumns(cols, key))
  {
    if cols != [] {
      var prev := cols[..|cols| - 1];
      var c := cols[|cols| - 1];
      UpdateColumnsOrdered(prev, key);
      var rest := UpdateColumns(prev, key);
      var u := UpdateColumns(cols, key);
      if InKey(c, key) {
        assert u == rest;
      } else {
        assert u == rest + [c] && u[..|u| - 1] == rest;
      }
    }
  }

  /** `f"{col}=VALUES({col})"`. */
  function Assignment(col: string): string {
    col + "=VALUES(" + col + ")"
  }

  /** The assignments of the update clause, one per update column. */
  function Assignments(cols: seq<string>, key: PrimaryKey): seq<string> {
    var update := UpdateColumns(cols, key);
    seq(|update|, i requires 0 <= i < |update| => Assignment(update[i]))
  }

  /** `update_stmt`. */
  function UpdateClause(cols: seq<string>, key: PrimaryKey): string {
    Join(",", Assignments(cols, key))
  }

  /** `sql`, the statement handed to `executemany`. */
  function UpsertSql(table: string, cols: seq<string>, key: PrimaryKey): string {
    "INSERT INTO " + table + " (" + Join(",", cols) + ")VALUES (" + Placeholders(|cols|)
      + ") ON DUPLICATE KEY UPDATE " + UpdateClause(cols, key)
  }

  /** A column name the statement can carry without breaking the comma-separated lists. */
  predicate PlainName(col: string) {
    ',' !in col
  }

  /**
   * The update clause splits back, at its commas, into one `col=VALUES(col)`
   * per non-key column, in column order; a key column never has one.
   */
  lemma UpdateClauseLists(cols: seq<string>, key: PrimaryKey)
    requires forall i :: 0 <= i < |cols| ==> PlainName(cols[i])
    requires UpdateColumns(cols, key) != []
    ensures Split(',', UpdateClause(cols, key)) == Assignments(cols, key)
    ensures forall c :: c in cols && InKey(c, key) ==> Assignment(c) !in Split(',', UpdateClause(cols, key))
  {
    var update := UpdateColumns(cols, key);
    var assigns := Assignments(cols, key);
    forall i | 0 <= i < |assigns|
      ensures ',' !in assigns[i]
    {
      assert update[i] in cols;
      assert assigns[i] == update[i] + "=VALUES(" + update[i] + ")";
    }
    SplitJoin(',', assigns);
    forall c | c in cols && InKey(c, key)
      ensures Assignment(c) !in assigns
    {
      if Assignment(c) in assigns {
        var i :| 0 <= i < |assigns| && assigns[i] == Assignment(c);
        AssignmentInjective(c, update[i]);
      }
    }
  }

  /** Different columns get different assignments. */
  lemma AssignmentInjective(a: string, b: string)
    requires Assignment(a) == Assignment(b)
    ensures a == b
  {
    var n := |a|;
    assert |Assignment(a)| == 2 * |a| + 9;
    assert |b| == n;
    assert a == Assignment(a)[..n];
    assert b == Assignment(b)[..n];
  }

  /** The middle part of `a + b + c` sits right after `a`. */
  lemma MiddleSlice(a: string, b: string, c: string)
    ensures |a| + |b| <= |a + b + c| && (a + b + c)[..|a|] == a && (a + b + c)[|a|..|a| + |b|] == b
  {
    assert a + b + c == a + (b + c);
  }

  /**
   * The statement opens with `INSERT INTO`, the table name and the column list,
   * which names exactly the frame's columns in order.
   *
   * The three `UpsertSql…` lemmas name the fixed text before their section
   * (`head`, `front`) as a parameter pinned by `requires`: handed a string
   * literal directly, the verifier spells it out character by character in
   * every slice, which makes the proof far more expensive.
   */
  lemma UpsertSqlColumns(table: string, cols: seq<string>, key: PrimaryKey, head: string)
    requires cols != []
    requires forall i :: 0 <= i < |cols| ==> PlainName(cols[i])
    requires head == "INSERT INTO " + table + " ("
    ensures var sql := UpsertSql(table, cols, key);
            var j := |head| + |Join(",", cols)|;
            j <= |sql| && sql[..|head|] == head && Split(',', sql[|head|..j]) == cols
  {
    var sql := UpsertSql(table, cols, key);
    var names := Join(",", cols);
    var rest := ")VALUES (" + Placeholders(|cols|) + ") ON DUPLICATE KEY UPDATE " + UpdateClause(cols, key);
    assert sql == head + names + rest;
    MiddleSlice(head, names, rest);
    assert Split(',', names) == cols by {
      SplitJoin(',', cols);
    }
  }

  /** After `)VALUES (` come the placeholders, exactly one `%s` per column. */
  lemma UpsertSqlPlaceholders(table: string, cols: seq<string>, key: PrimaryKey, front: string)
    requires cols != []
    requires front == "INSERT INTO " + table + " (" + Join(",", cols) + ")VALUES ("
    ensures var sql := UpsertSql(table, cols, key);
            var l := |front| + |Placeholders(|cols|)|;
            l <= |sql| && sql[..|front|] == front && Split(',', sql[|front|..l]) == seq(|cols|, _ => "%s")
  {
    var sql := UpsertSql(table, cols, key);
    var marks := Placeholders(|cols|);
    var rest := ") ON DUPLICATE KEY UPDATE " + UpdateClause(cols, key);
    assert sql == front + marks + rest;
    MiddleSlice(front, marks, rest);
    assert Split(',', marks) == seq(|cols|, _ => "%s") by {
      PlaceholdersSplit(|cols|);
    }
  }

  /**
   * The statement ends with `) ON DUPLICATE KEY UPDATE` and one assignment per
   * column outside the key; no key column is assigned.
   */
  lemma UpsertSqlUpdates(table: string, cols: seq<string>, key: PrimaryKey, front: string)
    requires forall i :: 0 <= i < |cols| ==> PlainName(cols[i])
    requires UpdateColumns(cols, key) != []
    requires front == "INSERT INTO " + table + " (" + Join(",", cols) + ")VALUES (" + Placeholders(|cols|)
      + ") ON DUPLICATE KEY UPDATE "
    ensures var sql := UpsertSql(table, cols, key);
            |front| <= |sql| && sql[..|front|] == front
            && Split(',', sql[|front|..]) == Assignments(cols, key)
            && forall c :: c in cols && InKey(c, key) ==> Assignment(c) !in Split(',', sql[|front|..])
  {
    var sql := UpsertSql(table, cols, key);
    var clause := UpdateClause(cols, key);
    assert sql == front + clause;
    assert sql[..|front|] == front && sql[|front|..] == clause;
    UpdateClauseLists(cols, key);
  }

  /** The frame columns of `open_positions` (collecting_mt5_data.py, `columns_active`). */
  const ActiveColumns: seq<string> :=
    ["position_id", "symbol", "volume", "price_open", "sl", "tp", "swap", "profit", "time_open", "time_last_update"]

  /** The frame columns of `closed_positions` once enriched (`weekday_num` dropped). */
  const ClosedColumns: seq<string> :=
    ["position_id", "symbol", "volume", "close_price", "profit", "swap", "fee", "time_close",
     "time_open", "open_price", "weekday", "session"]

  /** The frame columns of `account`. */
  const AccountColumns: seq<string> :=
    ["account_login_number", "trade_mode", "balance", "equity", "profit", "company", "currency", "time_last_update"]

  /**
   * "tp" is no substring of "position_id": its only `t` is followed by `i`.
   *
   * Here and in the column lemmas below the strings come in as parameters
   * pinned by `requires` to their literal values: with the literals written
   * into the contract, the verifier unfolds `IsSubstring` over every suffix at
   * once and runs out of resource, while a parameter lets the proof take the
   * suffixes one at a time.
   */
  lemma TpNotInPositionId(needle: string, hay: string)
    requires needle == "tp" && hay == "position_id"
    ensures !IsSubstring(needle, hay)
  {
    forall i | 0 <= i && i + 2 <= |hay|
      ensures !OccursAt("tp", hay, i)
    {
      assert hay[i..i + 2][0] == hay[i] && hay[i..i + 2][1] == hay[i + 1];
      if i == 4 {
        assert hay[i + 1] == 'i';
      } else {
        assert hay[i] != 't';
      }
    }
    SubstringAt("tp", hay);
  }

  /** A list with no key column is left as it is. */
  lemma {:induction false} FilterFrontKeepsAll(cols: seq<string>, key: PrimaryKey)
    requires forall i :: 0 <= i < |cols| ==> !InKey(cols[i], key)
    ensures FilterFront(cols, key) == cols
  {
    if cols != [] {
      FilterFrontKeepsAll(cols[1..], key);
    }
  }

  /** A list whose only key column is its first one loses exactly that column. */
  lemma DropsOnlyHead(cols: seq<string>, key: PrimaryKey)
    requires cols != [] && InKey(cols[0], key)
    requires forall i :: 1 <= i < |cols| ==> !InKey(cols[i], key)
    ensures UpdateColumns(cols, key) == cols[1..]
  {
    FilterFrontKeepsAll(cols[1..], key);
    UpdateColumnsUnroll(cols, key);
  }

  /**
   * A string key behaves as the one-element key list when the only column it
   * contains as a substring is the key column itself.
   */
  lemma {:induction false} StringKeyActsAsList(cols: seq<string>, name: string)
    requires forall i :: 0 <= i < |cols| ==> (IsSubstring(cols[i], name) <==> cols[i] == name)
    ensures UpdateColumns(cols, KeyName(name)) == UpdateColumns(cols, KeyColumns([name]))
  {
    if cols != [] {
      StringKeyActsAsList(cols[..|cols| - 1], name);
    }
  }

  /** Of the open-positions columns, only the first, "position_id", is a substring of "position_id" (`hay`). */
  lemma ActiveColumnsMatchOnlyKey(hay: string, cols: seq<string>)
    requires hay == "position_id" && cols == ActiveColumns
    ensures forall i :: 0 <= i < |cols| ==> (IsSubstring(cols[i], hay) <==> i == 0)
  {
    assert IsPrefix(hay, hay);
    forall i | 1 <= i < |cols|
      ensures !IsSubstring(cols[i], hay)
    {
      if i == 1 {
        NotSubstringByChar(cols[1], hay, 1);
      } else if i == 2 {
        NotSubstringByChar(cols[2], hay, 0);
      } else if i == 3 {
        NotSubstringByChar(cols[3], hay, 1);
      } else if i == 4 {
        NotSubstringByChar(cols[4], hay, 1);
      } else if i == 5 {
        TpNotInPositionId(cols[5], hay);
      } else if i == 6 {
        NotSubstringByChar(cols[6], hay, 1);
      } else if i == 7 {
        NotSubstringByChar(cols[7], hay, 1);
      } else if i == 8 {
        NotSubstringByChar(cols[8], hay, 2);
      } else {
        NotSubstringByChar(cols[9], hay, 2);
      }
    }
  }

  /** Of the closed-positions columns, only the first, "position_id", is a substring of "position_id" (`hay`). */
  lemma ClosedColumnsMatchOnlyKey(hay: string, cols: seq<string>)
    requires hay == "position_id" && cols == ClosedColumns
    ensures forall i :: 0 <= i < |cols| ==> (IsSubstring(cols[i], hay) <==> i == 0)
  {
    assert IsPrefix(hay, hay);
    forall i | 1 <= i < |cols|
      ensures !IsSubstring(cols[i], hay)
    {
      if i == 1 {
        NotSubstringByChar(cols[1], hay, 1);
      } else if i == 2 {
        NotSubstringByChar(cols[2], hay, 0);
      } else if i == 3 {
        NotSubstringByChar(cols[3], hay, 0);
      } else if i == 4 {
        NotSubstringByChar(cols[4], hay, 1);
      } else if i == 5 {
        NotSubstringByChar(cols[5], hay, 1);
      } else if i == 6 {
        NotSubstringByChar(cols[6], hay, 0);
      } else if i == 7 {
        NotSubstringByChar(cols[7], hay, 2);
      } else if i == 8 {
        NotSubstringByChar(cols[8], hay, 2);
      } else if i == 9 {
        NotSubstringByChar(cols[9], hay, 2);
      } else if i == 10 {
        NotSubstringByChar(cols[10], hay, 0);
      } else {
        NotSubstringByChar(cols[11], hay, 1);
      }
    }
  }

  /**
   * For the open-positions upload, the string key "position_id" leaves out
   * exactly the key column, as a one-element key list would.
   */
  lemma ActiveUpdateColumns()
    ensures UpdateColumns(ActiveColumns, KeyName("position_id")) == ActiveColumns[1..]
    ensures UpdateColumns(ActiveColumns, KeyName("position_id")) == UpdateColumns(ActiveColumns, KeyColumns(["position_id"]))
  {
    ActiveColumnsMatchOnlyKey("position_id", ActiveColumns);
    DropsOnlyHead(ActiveColumns, KeyName("position_id"));
    StringKeyActsAsList(ActiveColumns, "position_id");
  }

  /**
   * For the closed-positions upload, the string key "position_id" likewise
   * leaves out exactly the key column.
   */
  lemma ClosedUpdateColumns()
    ensures UpdateColumns(ClosedColumns, KeyName("position_id")) == ClosedColumns[1..]
    ensures UpdateColumns(ClosedColumns, KeyName("position_id")) == UpdateColumns(ClosedColumns, KeyColumns(["position_id"]))
  {
    ClosedColumnsMatchOnlyKey("position_id", ClosedColumns);
    DropsOnlyHead(ClosedColumns, KeyName("position_id"));
    StringKeyActsAsList(ClosedColumns, "position_id");
  }

  /** A list whose key columns are exactly its first and its last loses exactly those two. */
  lemma DropsBothEnds(cols: seq<string>, key: PrimaryKey)
    requires |cols| >= 2 && InKey(cols[0], key) && InKey(cols[|cols| - 1], key)
    requires forall i :: 1 <= i < |cols| - 1 ==> !InKey(cols[i], key)
    ensures UpdateColumns(cols, key) == cols[1..|cols| - 1]
  {
    var n := |cols|;
    FilterFrontKeepsAll(cols[1..n - 1], key);
    FilterFrontSnoc(cols[..n - 1], cols[n - 1], key);
    assert cols[..n - 1] + [cols[n - 1]] == cols;
    assert cols[..n - 1][1..] == cols[1..n - 1];
    UpdateColumnsUnroll(cols, key);
  }

  /** For the account upload, both key columns are left out and every other column is updated. */
  lemma AccountUpdateColumns()
    ensures UpdateColumns(AccountColumns, KeyColumns(["account_login_number", "time_last_update"]))
         == ["trade_mode", "balance", "equity", "profit", "company", "currency"]
  {
    DropsBothEnds(AccountColumns, KeyColumns(["account_login_number", "time_last_update"]));
  }

  /**
   * With a string key, a column whose name occurs inside the key name is also
   * left out: a column "id" would never be updated under "position_id".
   * The strings are parameters for the reason given at `TpNotInPositionId`.
   */
  lemma SubstringKeyDropsId(hay: string, cols: seq<string>)
    requires hay == "position_id" && cols == [hay, "id", "symbol"]
    ensures UpdateColumns(cols, KeyName(hay)) == ["symbol"]
    ensures UpdateColumns(cols, KeyColumns([hay])) == ["id", "symbol"]
  {
    assert IsPrefix(hay, hay);
    assert OccursAt(cols[1], hay, 9);
    SubstringAt(cols[1], hay);
    NotSubstringByChar(cols[2], hay, 1);
    var byName, byList := KeyName(hay), KeyColumns([hay]);
    assert cols[1..][1..] == cols[2..] && cols[2..][1..] == [];
    assert FilterFront(cols[2..], byName) == [cols[2]];
    assert FilterFront(cols, byName) == [cols[2]];
    assert FilterFront(cols[2..], byList) == [cols[2]];
    assert FilterFront(cols, byList) == [cols[1], cols[2]];
    UpdateColumnsUnroll(cols, byName);
    UpdateColumnsUnroll(cols, byList);
  }

  /** UpdateColumns read front to back: one column at a time from the start. */
  lemma {:induction false} UpdateColumnsUnroll(cols: seq<string>, key: PrimaryKey)
    ensures UpdateColumns(cols, key) == FilterFront(cols, key)
  {
    if cols != [] {
      var prev := cols[..|cols| - 1];
      UpdateColumnsUnroll(prev, key);
      FilterFrontSnoc(prev, cols[|cols| - 1], key);
      assert prev + [cols[|cols| - 1]] == cols;
    }
  }

  /** The same filter, recursing on the first column (Dafny unrolls it on literal lists). */
  function FilterFront(cols: seq<string>, key: PrimaryKey): seq<string> {
    if cols == [] then []
    else (if InKey(cols[0], key) then [] else [cols[0]]) + FilterFront(cols[1..], key)
  }

  lemma {:induction false} FilterFrontSnoc(cols: seq<string>, c: string, key: PrimaryKey)
    ensures FilterFront(cols + [c], key) == FilterFront(cols, key) + (if InKey(c, key) then [] else [c])
  {
    if cols == [] {
      assert [c][1..] == [];
    } else {
      assert (cols + [c])[1..] == cols[1..] + [c];
      FilterFrontSnoc(cols[1..], c, key);
    }
  }
}
