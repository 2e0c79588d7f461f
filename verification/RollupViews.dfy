/** The month and year views over both rollup tables (backend/app/api/pages.py, `rollup_rows`)
    do not change when rows are compacted. */
module RollupViews {
  import opened Rollups

  /** A row as the grouped queries return it: a stored key and its sum. */
  type Row = (string, nat)

  /** Sums over the period of `n` months from `first`: 1 for a month view, 12 for a year view. */
  function MonthlySum(db: Db, first: nat, n: nat, s: Series): nat {
    if n == 0 then 0 else MonthlySum(db, first, n - 1, s) + At(db.monthly, (first + n - 1, s))
  }

  function DailySum(db: Db, first: nat, n: nat, s: Series): nat {
    if n == 0 then 0 else DailySum(db, first, n - 1, s) + DaySum(db.daily, first + n - 1, s, LAST_DAY)
  }

  function Total(db: Db, first: nat, n: nat, s: Series): nat {
    if n == 0 then 0 else Total(db, first, n - 1, s) + Count(db, first + n - 1, s)
  }

  ghost predicate InMonthly(db: Db, first: nat, n: nat, s: Series) {
    exists m: nat :: first <= m < first + n && (m, s) in db.monthly
  }

  ghost predicate InDaily(db: Db, first: nat, n: nat, s: Series) {
    exists row :: row in db.daily && first <= row.0.month < first + n && row.1 == s
  }

  ghost predicate Distinct(rows: seq<Row>) {
    forall i, j :: 0 <= i < j < |rows| ==> rows[i].0 != rows[j].0
  }

  ghost predicate Lists(rows: seq<Row>, key: string) {
    exists i :: 0 <= i < |rows| && rows[i].0 == key
  }

  /** The two grouped queries of a view: each lists the keys that have a row in the period, once,
      with its sum, in an order the database chooses. */
  ghost predicate Query(db: Db, first: nat, n: nat, metric: string, monthly: seq<Row>, daily: seq<Row>) {
    && Distinct(monthly) && Distinct(daily)
    && (forall key :: Lists(monthly, key) <==> InMonthly(db, first, n, Series(metric, key)))
    && (forall key :: Lists(daily, key) <==> InDaily(db, first, n, Series(metric, key)))
    && (forall i :: 0 <= i < |monthly| ==> monthly[i].1 == MonthlySum(db, first, n, Series(metric, monthly[i].0)))
    && (forall i :: 0 <= i < |daily| ==> daily[i].1 == DailySum(db, first, n, Series(metric, daily[i].0)))
  }

  // ---- combine_rollup_values -----------------------------------------------------------------------

  function RowSum(rows: seq<Row>, metric: string, group: Grouping, shown: string): nat {
    if rows == [] then 0
    else (if group(metric, rows[0].0) == shown then rows[0].1 else 0) + RowSum(rows[1..], metric, group, shown)
  }

  lemma {:induction false} RowSumConcat(a: seq<Row>, b: seq<Row>, metric: string, group: Grouping, shown: string)
    ensures RowSum(a + b, metric, group, shown) == RowSum(a, metric, group, shown) + RowSum(b, metric, group, shown)
  {
    if a == [] {
      assert a + b == b;
    } else {
      assert (a + b)[1..] == a[1..] + b;
      RowSumConcat(a[1..], b, metric, group, shown);
    }
  }

  ghost predicate ShowsKey(rows: seq<Row>, metric: string, group: Grouping, shown: string) {
    exists i :: 0 <= i < |rows| && group(metric, rows[i].0) == shown
  }

  lemma ShowsKeyAppend(rows: seq<Row>, row: Row, metric: string, group: Grouping, shown: string)
    ensures ShowsKey(rows + [row], metric, group, shown) <==>
            ShowsKey(rows, metric, group, shown) || group(metric, row.0) == shown
  {
    var all := rows + [row];
    assert all[|rows|] == row;
    assert forall i :: 0 <= i < |rows| ==> all[i] == rows[i];
  }

  method CombineRollupValues(metric: string, rows: seq<Row>, group: Grouping) returns (totals: map<string, nat>)
    ensures forall shown :: shown in totals <==> ShowsKey(rows, metric, group, shown)
    ensures forall shown :: shown in totals ==> totals[shown] == RowSum(rows, metric, group, shown)
  {
    totals := map[];
    for i := 0 to |rows|
      invariant forall shown :: shown in totals <==> ShowsKey(rows[..i], metric, group, shown)
      invariant forall shown :: At(totals, shown) == RowSum(rows[..i], metric, group, shown)
    {
      var shown := group(metric, rows[i].0);
      assert rows[..i + 1] == rows[..i] + [rows[i]];
      forall other
        ensures RowSum(rows[..i + 1], metric, group, other) ==
                RowSum(rows[..i], metric, group, other) + if other == shown then rows[i].1 else 0
      {
        RowSumConcat(rows[..i], [rows[i]], metric, group, other);
      }
      forall other
        ensures ShowsKey(rows[..i + 1], metric, group, other) <==> ShowsKey(rows[..i], metric, group, other) || other == shown
      {
        ShowsKeyAppend(rows[..i], rows[i], metric, group, other);
      }
      ghost var before := totals;
      totals := totals[shown := At(totals, shown) + rows[i].1];
      forall other ensures At(totals, other) == RowSum(rows[..i + 1], metric, group, other) {
        assert At(before, other) == RowSum(rows[..i], metric, group, other);
      }
    }
    assert rows[..|rows|] == rows;
    forall shown | shown in totals ensures totals[shown] == RowSum(rows, metric, group, shown) {
      assert At(totals, shown) == totals[shown];
    }
  }

  // ---- Sums over keys ------------------------------------------------------------------------------

  ghost function KeySum(keys: set<string>, v: string -> nat): nat {
    if keys == {} then 0 else var k :| k in keys; v(k) + KeySum(keys - {k}, v)
  }

  lemma {:induction false} KeySumTake(keys: set<string>, key: string, v: string -> nat)
    requires key in keys
    ensures KeySum(keys, v) == v(key) + KeySum(keys - {key}, v)
  {
    var k :| k in keys && KeySum(keys, v) == v(k) + KeySum(keys - {k}, v);
    if k != key {
      KeySumTake(keys - {k}, key, v);
      KeySumTake(keys - {key}, k, v);
      assert keys - {k} - {key} == keys - {key} - {k};
    }
  }

  lemma {:induction false} KeySumAdd(keys: set<string>, a: string -> nat, b: string -> nat, c: string -> nat)
    requires forall k :: k in keys ==> c(k) == a(k) + b(k)
    ensures KeySum(keys, c) == KeySum(keys, a) + KeySum(keys, b)
  {
    if keys != {} {
      var k :| k in keys;
      KeySumTake(keys, k, a);
      KeySumTake(keys, k, b);
      KeySumTake(keys, k, c);
      KeySumAdd(keys - {k}, a, b, c);
    }
  }

  /** A listing adds up, per shown key, to the sum over the stored keys grouped under it. */
  lemma {:induction false} RowSumIsKeySum(rows: seq<Row>, keys: set<string>, v: string -> nat,
                                          metric: string, group: Grouping, shown: string)
    requires Distinct(rows)
    requires forall i :: 0 <= i < |rows| && group(metric, rows[i].0) == shown ==> rows[i].0 in keys
    requires forall k :: k in keys ==> group(metric, k) == shown
    requires forall i :: 0 <= i < |rows| ==> rows[i].1 == v(rows[i].0)
    requires forall k :: k in keys && !Lists(rows, k) ==> v(k) == 0
    ensures RowSum(rows, metric, group, shown) == KeySum(keys, v)
  {
    if rows == [] {
      KeySumZero(keys, v);
    } else {
      var key, rest := rows[0].0, rows[1..];
      forall k | k in keys && k != key && !Lists(rest, k) ensures v(k) == 0 {
        assert !Lists(rows, k);
      }
      assert !Lists(rest, key);
      if group(metric, key) == shown {
        KeySumTake(keys, key, v);
        RowSumIsKeySum(rest, keys - {key}, v, metric, group, shown);
      } else {
        RowSumIsKeySum(rest, keys, v, metric, group, shown);
      }
    }
  }

  lemma {:induction false} KeySumZero(keys: set<string>, v: string -> nat)
    requires forall k :: k in keys ==> v(k) == 0
    ensures KeySum(keys, v) == 0
  {
    if keys != {} {
      var k :| k in keys;
      KeySumTake(keys, k, v);
      KeySumZero(keys - {k}, v);
    }
  }

  // ---- The views ------------------------------------------------------------------------------------

  lemma {:induction false} TotalSplits(db: Db, first: nat, n: nat, s: Series)
    ensures Total(db, first, n, s) == MonthlySum(db, first, n, s) + DailySum(db, first, n, s)
    ensures !InMonthly(db, first, n, s) ==> MonthlySum(db, first, n, s) == 0
    ensures !InDaily(db, first, n, s) ==> DailySum(db, first, n, s) == 0
  {
    if n > 0 {
      TotalSplits(db, first, n - 1, s);
      var m := first + n - 1;
      assert InMonthly(db, first, n - 1, s) ==> InMonthly(db, first, n, s);
      if !InDaily(db, first, n, s) {
        DaySumZero(db.daily, m, s, LAST_DAY);
      }
    }
  }

  lemma {:induction false} TotalKept(db: Db, gone: set<nat>, first: nat, n: nat, s: Series)
    requires db.Valid()
    ensures Total(Compacted(db, gone), first, n, s) == Total(db, first, n, s)
  {
    if n > 0 {
      TotalKept(db, gone, first, n - 1, s);
      CompactionKeeps(db, gone, first + n - 1, s);
    }
  }

  ghost predicate Anywhere(db: Db, first: nat, n: nat, s: Series) {
    InMonthly(db, first, n, s) || InDaily(db, first, n, s)
  }

  lemma AnywherePresent(db: Db, first: nat, n: nat, s: Series)
    ensures Anywhere(db, first, n, s) <==> exists m: nat :: first <= m < first + n && Present(db, m, s)
  {
    if InDaily(db, first, n, s) {
      var row :| row in db.daily && first <= row.0.month < first + n && row.1 == s;
      assert Present(db, row.0.month, s);
    }
    if InMonthly(db, first, n, s) {
      var m: nat :| first <= m < first + n && (m, s) in db.monthly;
      assert Present(db, m, s);
    }
  }

  lemma AnywhereKept(db: Db, gone: set<nat>, first: nat, n: nat, s: Series)
    ensures Anywhere(Compacted(db, gone), first, n, s) <==> Anywhere(db, first, n, s)
  {
    AnywherePresent(db, first, n, s);
    AnywherePresent(Compacted(db, gone), first, n, s);
    forall m: nat | first <= m < first + n
      ensures Present(Compacted(db, gone), m, s) <==> Present(db, m, s)
    {
      PresentAfter(db, gone, m, s);
    }
  }

  function KeysUnder(rows: seq<Row>, metric: string, group: Grouping, shown: string): set<string> {
    set i | 0 <= i < |rows| && group(metric, rows[i].0) == shown :: rows[i].0
  }

  function Totals(db: Db, first: nat, n: nat, metric: string): string -> nat {
    k => Total(db, first, n, Series(metric, k))
  }

  /** What a view shows under a key is the sum of the period's counts of the stored keys grouped
      under it, whichever table holds them. */
  lemma {:induction false} ViewShowsTotals(db: Db, first: nat, n: nat, metric: string, group: Grouping, shown: string,
                        monthly: seq<Row>, daily: seq<Row>, keys: set<string>)
    requires Query(db, first, n, metric, monthly, daily)
    requires KeysUnder(monthly, metric, group, shown) <= keys && KeysUnder(daily, metric, group, shown) <= keys
    requires forall k :: k in keys ==> group(metric, k) == shown
    ensures RowSum(monthly + daily, metric, group, shown) == KeySum(keys, Totals(db, first, n, metric))
  {
    var m: string -> nat := k => MonthlySum(db, first, n, Series(metric, k));
    var d: string -> nat := k => DailySum(db, first, n, Series(metric, k));
    forall k ensures Total(db, first, n, Series(metric, k)) == m(k) + d(k)
             ensures !Lists(monthly, k) ==> m(k) == 0
             ensures !Lists(daily, k) ==> d(k) == 0
    {
      TotalSplits(db, first, n, Series(metric, k));
    }
    RowSumConcat(monthly, daily, metric, group, shown);
    RowSumIsKeySum(monthly, keys, m, metric, group, shown);
    RowSumIsKeySum(daily, keys, d, metric, group, shown);
    KeySumAdd(keys, m, d, Totals(db, first, n, metric));
  }

  /** Compaction, also the one retention runs, changes no month or year view: the same keys are
      shown with the same values. */
  lemma {:induction false} CompactionKeepsViews(db: Db, gone: set<nat>, first: nat, n: nat, metric: string,
        group: Grouping, shown: string, monthly: seq<Row>, daily: seq<Row>, monthly': seq<Row>, daily': seq<Row>)
    requires db.Valid()
    requires Query(db, first, n, metric, monthly, daily)
    requires Query(Compacted(db, gone), first, n, metric, monthly', daily')
    ensures RowSum(monthly' + daily', metric, group, shown) == RowSum(monthly + daily, metric, group, shown)
    ensures ShowsKey(monthly' + daily', metric, group, shown) <==> ShowsKey(monthly + daily, metric, group, shown)
  {
    SumsKept(db, gone, first, n, metric, group, shown, monthly, daily, monthly', daily');
    KeysShown(db, first, n, metric, group, shown, monthly, daily);
    KeysShown(Compacted(db, gone), first, n, metric, group, shown, monthly', daily');
    forall k
      ensures Anywhere(Compacted(db, gone), first, n, Series(metric, k)) <==> Anywhere(db, first, n, Series(metric, k))
    {
      AnywhereKept(db, gone, first, n, Series(metric, k));
    }
  }

  lemma KeysTogether(a: seq<Row>, b: seq<Row>, c: seq<Row>, d: seq<Row>, metric: string, group: Grouping, shown: string)
    returns (keys: set<string>)
    ensures KeysUnder(a, metric, group, shown) <= keys && KeysUnder(b, metric, group, shown) <= keys
    ensures KeysUnder(c, metric, group, shown) <= keys && KeysUnder(d, metric, group, shown) <= keys
    ensures forall k :: k in keys ==> group(metric, k) == shown
  {
    keys := KeysUnder(a, metric, group, shown) + KeysUnder(b, metric, group, shown)
            + KeysUnder(c, metric, group, shown) + KeysUnder(d, metric, group, shown);
  }

  lemma {:induction false} SumsKept(db: Db, gone: set<nat>, first: nat, n: nat, metric: string, group: Grouping,
        shown: string, monthly: seq<Row>, daily: seq<Row>, monthly': seq<Row>, daily': seq<Row>)
    requires db.Valid()
    requires Query(db, first, n, metric, monthly, daily)
    requires Query(Compacted(db, gone), first, n, metric, monthly', daily')
    ensures RowSum(monthly' + daily', metric, group, shown) == RowSum(monthly + daily, metric, group, shown)
  {
    var keys := KeysTogether(monthly, daily, monthly', daily', metric, group, shown);
    ViewShowsTotals(db, first, n, metric, group, shown, monthly, daily, keys);
    ViewShowsTotals(Compacted(db, gone), first, n, metric, group, shown, monthly', daily', keys);
    KeyTotalsKept(db, gone, first, n, metric, keys);
  }

  lemma {:induction false} KeyTotalsKept(db: Db, gone: set<nat>, first: nat, n: nat, metric: string, keys: set<string>)
    requires db.Valid()
    ensures KeySum(keys, Totals(Compacted(db, gone), first, n, metric)) == KeySum(keys, Totals(db, first, n, metric))
  {
    var after := Compacted(db, gone);
    forall k ensures Total(after, first, n, Series(metric, k)) == Total(db, first, n, Series(metric, k)) {
      TotalKept(db, gone, first, n, Series(metric, k));
    }
    KeySumSame(keys, Totals(after, first, n, metric), Totals(db, first, n, metric));
  }

  lemma {:induction false} KeySumSame(keys: set<string>, a: string -> nat, b: string -> nat)
    requires forall k :: k in keys ==> a(k) == b(k)
    ensures KeySum(keys, a) == KeySum(keys, b)
  {
    if keys != {} {
      var k :| k in keys;
      KeySumTake(keys, k, a);
      KeySumTake(keys, k, b);
      KeySumSame(keys - {k}, a, b);
    }
  }

  lemma KeysShown(db: Db, first: nat, n: nat, metric: string, group: Grouping, shown: string,
                  monthly: seq<Row>, daily: seq<Row>)
    requires Query(db, first, n, metric, monthly, daily)
    ensures ShowsKey(monthly + daily, metric, group, shown) <==>
            exists k :: group(metric, k) == shown && Anywhere(db, first, n, Series(metric, k))
  {
    var rows := monthly + daily;
    if ShowsKey(rows, metric, group, shown) {
      var i :| 0 <= i < |rows| && group(metric, rows[i].0) == shown;
      if i < |monthly| {
        assert Lists(monthly, rows[i].0);
      } else {
        assert daily[i - |monthly|] == rows[i];
        assert Lists(daily, rows[i].0);
      }
    }
    if k :| group(metric, k) == shown && Anywhere(db, first, n, Series(metric, k)) {
      if Lists(monthly, k) {
        var i :| 0 <= i < |monthly| && monthly[i].0 == k;
        assert rows[i].0 == k;
      } else {
        assert Lists(daily, k);
        var i :| 0 <= i < |daily| && daily[i].0 == k;
        assert rows[|monthly| + i].0 == k;
      }
    }
  }
}
