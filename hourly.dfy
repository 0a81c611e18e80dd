/** Pieces shared by the May travel-time scripts: the kept days of May 2017,
    the records of one hour of the day, the per-hour column names, and one step
    of the 24 left merges that widen the TMC table hour by hour. */
module Hourly {
  import opened Wrappers
  import opened Frames

  /** The kept days of May 2017: the Tuesdays, Wednesdays and Thursdays before
      Memorial Day. */
  const MayDays: set<int> := {2, 3, 4, 9, 10, 11, 16, 17, 18, 23, 24, 25}

  /** May 1, 2017 fell on a Monday, so day d of that month is weekday
      (d - 1) % 7 with Monday as 0; Memorial Day was the 29th. The kept days
      are exactly the Tuesdays, Wednesdays and Thursdays up to the 28th. */
  lemma MayDaysMidweek(d: int)
    ensures d in MayDays <==> 1 <= d <= 28 && (d - 1) % 7 in {1, 2, 3}
  {
    if 1 <= d <= 28 {
      var w := (d - 1) / 7;
      assert d - 1 == 7 * w + (d - 1) % 7;
      assert 0 <= w <= 3;
    }
  }

  /** `df[df['measurement_tstamp'].dt.hour.isin([hour])]`. */
  function HourSlice(t: seq<Record>, h: int): (r: seq<Record>)
    ensures forall x :: x in r <==> x in t && x.stamp.hour == h
  {
    Isin(t, Hour, {h})
  }

  /** Records of other hours never reach the hour-h slice. */
  lemma HourSliceIgnoresOtherHours(t: seq<Record>, u: seq<Record>, h: int)
    requires forall i :: 0 <= i < |u| ==> u[i].stamp.hour != h
    ensures HourSlice(t + u, h) == HourSlice(t, h)
  {
    IsinConcat(t, u, Hour, {h});
    var none := Isin(u, Hour, {h});
    MembersOf(none);
    assert HourSlice(t, h) + none == HourSlice(t, h);
  }

  /** A sequence with an element has that element as a member. */
  lemma MembersOf<T>(s: seq<T>)
    ensures s != [] <==> exists x :: x in s
  {
    if s != [] {
      assert s[0] in s;
    }
  }

  /** The present travel times of TMC k in hour h: the group a NaN-skipping aggregation sees. */
  function HourTimes(t: seq<Record>, h: int, k: string): seq<real>
  {
    TimesOf(HourSlice(t, h), k)
  }

  /** A TMC with a time has a record: one without a record has no times. */
  lemma NoRecordNoTimes(t: seq<Record>, k: string)
    ensures TimesOf(t, k) != [] ==> k in Tmcs(t)
  {
    if TimesOf(t, k) != [] {
      assert TimesOf(t, k)[0] in TimesOf(t, k);
      var i :| 0 <= i < |t| && t[i].tmc == k && t[i].travelTime == Some(TimesOf(t, k)[0]);
      assert Tmcs(t)[i] == k;
    }
  }

  /** The names `'hour_{h}_<suffix>'` of the hours h below n. */
  function HourColumns(n: int, suffix: string): (r: set<string>)
    requires 0 <= n <= 24
    ensures forall h :: 0 <= h < 24 ==> (HourColumn(h, suffix) in r <==> h < n)
  {
    if n == 0 then {}
    else
      var r := HourColumns(n - 1, suffix) + {HourColumn(n - 1, suffix)};
      forall h | 0 <= h < 24 && HourColumn(h, suffix) == HourColumn(n - 1, suffix)
        ensures h == n - 1
      {
        HourColumnInjective(h, suffix, n - 1, suffix);
      }
      r
  }

  /** Every member of HourColumns(n, suffix) is the name of one of the first n hours. */
  lemma {:induction false} HourColumnsName(n: int, suffix: string, c: string)
    requires 0 <= n <= 24 && c in HourColumns(n, suffix)
    ensures exists h :: 0 <= h < n && c == HourColumn(h, suffix)
  {
    if c != HourColumn(n - 1, suffix) {
      HourColumnsName(n - 1, suffix, c);
    }
  }

  /** One hour's columns with different suffixes have different names. */
  lemma HourColumnSuffixes(h: int, a: string, b: string)
    requires 0 <= h < 24 && a != b
    ensures HourColumn(h, a) != HourColumn(h, b)
  {
    if HourColumn(h, a) == HourColumn(h, b) {
      HourColumnInjective(h, a, h, b);
    }
  }

  /** Column names with different suffixes never coincide, whatever the hours. */
  lemma HourColumnsApart(n: int, a: string, m: int, b: string, c: string)
    requires 0 <= n <= 24 && 0 <= m <= 24 && a != b
    ensures !(c in HourColumns(n, a) && c in HourColumns(m, b))
  {
    if c in HourColumns(n, a) && c in HourColumns(m, b) {
      HourColumnsName(n, a, c);
      HourColumnsName(m, b, c);
      var i :| 0 <= i < n && c == HourColumn(i, a);
      var j :| 0 <= j < m && c == HourColumn(j, b);
      HourColumnInjective(i, a, j, b);
    }
  }

  /** One left merge of the hour loop against a table with one row per TMC whose
      cells all fall in names: a cell outside names keeps its value, a cell in
      names that the row lacked comes from the row's match (missing without
      one), and no column other than names appears. */
  lemma JoinHour(x: Row, right: seq<Row>, names: set<string>, c: string)
    requires forall j :: 0 <= j < |right| ==> right[j].cols.Keys <= names
    ensures JoinRow(x, right).cols.Keys <= x.cols.Keys + names
    ensures c !in names ==> Cell(JoinRow(x, right), c) == Cell(x, c)
    ensures c !in x.cols ==> Cell(JoinRow(x, right), c) == MatchCell(right, x.tmc, c)
  {
    var look := Lookup(right, x.tmc);
    if look.Some? {
      var m := look.value;
      var j :| 0 <= j < |right| && right[j] == m;
      assert m.cols.Keys <= names;
      assert JoinRow(x, right).cols == x.cols + m.cols;
    } else {
      assert JoinRow(x, right) == x;
    }
  }

  /** Cell c of the row of TMC k in right, missing when k has no row there. */
  function MatchCell(right: seq<Row>, k: string, c: string): Option<real>
  {
    match Lookup(right, k)
    case Some(m) => Cell(m, c)
    case None => None
  }

  /** The match of a TMC in a table with one row per TMC is the row that names it. */
  lemma LookupAt(right: seq<Row>, k: string) returns (j: int)
    requires Lookup(right, k).Some?
    ensures 0 <= j < |right| && right[j] == Lookup(right, k).value && right[j].tmc == k
  {
    j :| 0 <= j < |right| && right[j] == Lookup(right, k).value;
  }
}
