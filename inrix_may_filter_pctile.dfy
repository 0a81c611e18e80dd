/** `inrix_may_filter_pctile.py`: for every TMC of the metadata with records
    on the kept days, its length and, for each hour of the day, the mean and
    the 5th and 95th percentiles of its travel times. */
module InrixMayFilterPctile {
  import opened Wrappers
  import opened Stats
  import opened Frames
  import opened Hourly
  import InrixMayFilter

  const MeanSuffix: string := "mean_tt_seconds"
  const LowSuffix: string := "5th_pct"
  const HighSuffix: string := "95th_pct"

  /** The `np.percentile(x, p)` aggregation of TMC k's hour-h travel times:
      missing when the TMC has no time in that hour, otherwise a value between
      the group's smallest and largest time. */
  function HourPct(t: seq<Record>, h: int, k: string, p: int): (r: Option<real>)
    requires 0 <= p <= 100
    ensures r.Some? <==> HourTimes(t, h, k) != []
    ensures r.Some? ==> Min(HourTimes(t, h, k)) <= r.value <= Max(HourTimes(t, h, k))
  {
    var s := HourTimes(t, h, k);
    if s != [] then
      Some(Percentile(s, p))
    else None
  }

  /** The 5th percentile never exceeds the 95th. */
  lemma LowBelowHigh(t: seq<Record>, h: int, k: string)
    requires HourTimes(t, h, k) != []
    ensures HourPct(t, h, k, 5).value <= HourPct(t, h, k, 95).value
  {
    PercentileMonotone(HourTimes(t, h, k), 5, 95);
  }

  /** The three columns hour h contributes. */
  function HourNames(h: int): set<string>
    requires 0 <= h < 24
  {
    {HourColumn(h, MeanSuffix), HourColumn(h, LowSuffix), HourColumn(h, HighSuffix)}
  }

  /** `tt_by_hour(df, hour)`: one row per TMC with a record in hour h, in
      order of first appearance, with its mean under `hour_{h}_mean_tt_seconds`
      (the renamed travel-time column) and its percentiles under
      `hour_{h}_5th_pct` and `hour_{h}_95th_pct`. */
  function TtByHour(t: seq<Record>, h: int): (r: seq<Row>)
    requires 0 <= h < 24
    ensures RowTmcs(r) == Distinct(Tmcs(HourSlice(t, h)))
    ensures forall i :: 0 <= i < |r| ==> r[i].cols.Keys <= HourNames(h)
    ensures forall i :: 0 <= i < |r| ==> Cell(r[i], HourColumn(h, MeanSuffix)) == InrixMayFilter.HourMean(t, h, r[i].tmc)
    ensures forall i :: 0 <= i < |r| ==> Cell(r[i], HourColumn(h, LowSuffix)) == HourPct(t, h, r[i].tmc, 5)
    ensures forall i :: 0 <= i < |r| ==> Cell(r[i], HourColumn(h, HighSuffix)) == HourPct(t, h, r[i].tmc, 95)
  {
    var ks := Distinct(Tmcs(HourSlice(t, h)));
    seq(|ks|, i requires 0 <= i < |ks| => StatsRow(t, h, ks[i]))
  }

  function StatsRow(t: seq<Record>, h: int, k: string): (r: Row)
    requires 0 <= h < 24
    ensures r.tmc == k && r.cols.Keys <= HourNames(h)
    ensures Cell(r, HourColumn(h, MeanSuffix)) == InrixMayFilter.HourMean(t, h, k)
    ensures Cell(r, HourColumn(h, LowSuffix)) == HourPct(t, h, k, 5)
    ensures Cell(r, HourColumn(h, HighSuffix)) == HourPct(t, h, k, 95)
  {
    HourColumnSuffixes(h, MeanSuffix, LowSuffix);
    HourColumnSuffixes(h, MeanSuffix, HighSuffix);
    HourColumnSuffixes(h, LowSuffix, HighSuffix);
    var x := Put(Row(k, map[]), HourColumn(h, MeanSuffix), InrixMayFilter.HourMean(t, h, k));
    var y := Put(x, HourColumn(h, LowSuffix), HourPct(t, h, k, 5));
    Put(y, HourColumn(h, HighSuffix), HourPct(t, h, k, 95))
  }

  /** The per-hour columns are never the metadata's `miles`. */
  lemma NotMiles(h: int, s: string)
    requires 0 <= h < 24
    ensures HourColumn(h, s) != "miles"
  {
    assert HourColumn(h, s)[0] == 'h';
  }

  /** Row x merged with the hour-h table: cell c of hour h, which x lacked, is
      the one of x's TMC in the table (missing without a record in that hour);
      every other cell is unchanged. */
  lemma JoinedStats(x: Row, t: seq<Record>, h: int, c: string)
    requires 0 <= h < 24 && c in HourNames(h) && c !in x.cols
    ensures Cell(JoinRow(x, TtByHour(t, h)), c) == Cell(StatsRow(t, h, x.tmc), c)
  {
    var table := TtByHour(t, h);
    JoinHour(x, table, HourNames(h), c);
    if Lookup(table, x.tmc).Some? {
      var j := LookupAt(table, x.tmc);
      var ks := Distinct(Tmcs(HourSlice(t, h)));
      assert table[j] == StatsRow(t, h, ks[j]);
    } else {
      NoRecordNoTimes(HourSlice(t, h), x.tmc);
    }
  }

  /** The records `main` aggregates: those on the kept days with a present
      travel time, in any month (this script applies no month filter). */
  function DayRecords(t: seq<Record>): (r: seq<Record>)
    ensures forall x :: x in r <==> x in t && x.stamp.day in MayDays && x.travelTime.Some?
  {
    DropNa(Isin(t, Day, MayDays))
  }

  /** The metadata rows of x's TMC, each merged into the columns of x. */
  function Matches(x: Row, meta: seq<Row>): (r: seq<Row>)
    ensures forall i :: 0 <= i < |r| ==> r[i].tmc == x.tmc
    ensures r != [] <==> x.tmc in RowTmcs(meta)
  {
    if meta == [] then []
    else
      assert RowTmcs(meta) == [meta[0].tmc] + RowTmcs(meta[1..]);
      (if meta[0].tmc == x.tmc then [Row(x.tmc, x.cols + meta[0].cols)] else []) + Matches(x, meta[1..])
  }

  /** A merged row holds the columns of x and of its metadata row, and no other. */
  lemma {:induction false} MatchColumns(x: Row, meta: seq<Row>, names: set<string>)
    requires forall j :: 0 <= j < |meta| ==> meta[j].cols.Keys <= names
    ensures forall y :: y in Matches(x, meta) ==> y.cols.Keys <= x.cols.Keys + names
  {
    if meta != [] {
      assert forall j :: 0 <= j < |meta[1..]| ==> meta[1..][j] == meta[j + 1];
      MatchColumns(x, meta[1..], names);
    }
  }

  /** `pd.merge(df_tmc, df_meta, left_on='tmc_code', right_on='tmc', how='inner')`
      and the drop of `tmc`: every left row once per metadata row of its TMC,
      in left order, carrying both rows' columns. The metadata key is the row's
      TMC, so no second key column remains. */
  function InnerJoin(left: seq<Row>, meta: seq<Row>): (r: seq<Row>)
    ensures forall y :: y in r ==> y.tmc in RowTmcs(left) && y.tmc in RowTmcs(meta)
    ensures forall i :: 0 <= i < |left| && left[i].tmc in RowTmcs(meta) ==> left[i].tmc in RowTmcs(r)
  {
    if left == [] then []
    else
      var here := Matches(left[0], meta);
      var rest := InnerJoin(left[1..], meta);
      assert RowTmcs(left) == [left[0].tmc] + RowTmcs(left[1..]);
      assert forall y :: y in here ==> y.tmc == left[0].tmc;
      JoinedTmcs(here, rest);
      forall i | 0 <= i < |left| && left[i].tmc in RowTmcs(meta)
        ensures left[i].tmc in RowTmcs(here + rest)
      {
        if i == 0 {
          assert here[0] in here;
          assert (here + rest)[0] == here[0];
        } else {
          assert left[1..][i - 1] == left[i];
        }
      }
      here + rest
  }

  lemma JoinedTmcs(a: seq<Row>, b: seq<Row>)
    ensures RowTmcs(a + b) == RowTmcs(a) + RowTmcs(b)
  {
  }

  /** Joined to the TMC list, the metadata contributes at most `miles`, as
      `main` reads only the `tmc` and `miles` columns of the metadata file. */
  lemma {:induction false} SpineJoinColumns(ks: seq<string>, meta: seq<Row>)
    requires forall j :: 0 <= j < |meta| ==> meta[j].cols.Keys <= {"miles"}
    ensures forall y :: y in InnerJoin(Spine(ks), meta) ==> y.cols.Keys <= {"miles"}
  {
    if ks != [] {
      var s := Spine(ks);
      assert s[0].cols == map[];
      MatchColumns(s[0], meta, {"miles"});
      assert s[1..] == Spine(ks[1..]);
      SpineJoinColumns(ks[1..], meta);
    }
  }

  /** The columns the table may hold after the merges of the hours below n. */
  function Widened(n: int): set<string>
    requires 0 <= n <= 24
  {
    {"miles"} + HourColumns(n, MeanSuffix) + HourColumns(n, LowSuffix) + HourColumns(n, HighSuffix)
  }

  /** The columns of hour n are not yet among those of the hours below it. */
  lemma HourNamesFresh(n: int)
    requires 0 <= n < 24
    ensures HourNames(n) * Widened(n) == {}
    ensures Widened(n) + HourNames(n) == Widened(n + 1)
  {
    NotMiles(n, MeanSuffix);
    NotMiles(n, LowSuffix);
    NotMiles(n, HighSuffix);
    HourColumnsApart(n + 1, MeanSuffix, n, LowSuffix, HourColumn(n, MeanSuffix));
    HourColumnsApart(n + 1, MeanSuffix, n, HighSuffix, HourColumn(n, MeanSuffix));
    HourColumnsApart(n + 1, LowSuffix, n, MeanSuffix, HourColumn(n, LowSuffix));
    HourColumnsApart(n + 1, LowSuffix, n, HighSuffix, HourColumn(n, LowSuffix));
    HourColumnsApart(n + 1, HighSuffix, n, MeanSuffix, HourColumn(n, HighSuffix));
    HourColumnsApart(n + 1, HighSuffix, n, LowSuffix, HourColumn(n, HighSuffix));
  }

  /** `main` after loading: the distinct TMCs of the kept records that the
      metadata knows, with their length, then the hour table over them. */
  method PctileByHour(t: seq<Record>, meta: seq<Row>) returns (r: seq<Row>)
    requires forall j :: 0 <= j < |meta| ==> meta[j].cols.Keys <= {"miles"}
    ensures RowTmcs(r) == RowTmcs(InnerJoin(Spine(Distinct(Tmcs(DayRecords(t)))), meta))
    ensures forall i :: 0 <= i < |r| ==> r[i].cols.Keys <= Widened(24)
    ensures forall i :: 0 <= i < |r| ==>
      Cell(r[i], "miles") == Cell(InnerJoin(Spine(Distinct(Tmcs(DayRecords(t)))), meta)[i], "miles")
    ensures forall i, h, c :: 0 <= i < |r| && 0 <= h < 24 && c in HourNames(h) ==>
      Cell(r[i], c) == Cell(StatsRow(DayRecords(t), h, r[i].tmc), c)
  {
    var df := DayRecords(t);
    var start := InnerJoin(Spine(Distinct(Tmcs(df))), meta);
    SpineJoinColumns(Distinct(Tmcs(df)), meta);
    r := HourTable(start, df);
  }

  /** One merge of the hour loop: the columns of the hours below h and
      `miles` keep their values, and the columns of hour h take those of the
      row's TMC in the hour-h table. */
  lemma WidenRow(x: Row, df: seq<Record>, h: int)
    requires 0 <= h < 24 && x.cols.Keys <= Widened(h)
    ensures JoinRow(x, TtByHour(df, h)).cols.Keys <= Widened(h + 1)
    ensures forall c :: c in Widened(h) ==> Cell(JoinRow(x, TtByHour(df, h)), c) == Cell(x, c)
    ensures forall c :: c in HourNames(h) ==> Cell(JoinRow(x, TtByHour(df, h)), c) == Cell(StatsRow(df, h, x.tmc), c)
  {
    var table := TtByHour(df, h);
    HourNamesFresh(h);
    JoinHour(x, table, HourNames(h), "miles");
    forall c | c in Widened(h) ensures Cell(JoinRow(x, table), c) == Cell(x, c) {
      JoinHour(x, table, HourNames(h), c);
    }
    forall c | c in HourNames(h) ensures Cell(JoinRow(x, table), c) == Cell(StatsRow(df, h, x.tmc), c) {
      JoinedStats(x, df, h, c);
    }
  }

  /** The columns of an earlier hour are among those already merged. */
  lemma EarlierHour(h: int, n: int)
    requires 0 <= h < n <= 24
    ensures HourNames(h) <= Widened(n)
  {
    assert HourColumn(h, MeanSuffix) in HourColumns(n, MeanSuffix);
    assert HourColumn(h, LowSuffix) in HourColumns(n, LowSuffix);
    assert HourColumn(h, HighSuffix) in HourColumns(n, HighSuffix);
  }

  /** The 24 left merges: every row keeps its TMC, its position and its
      `miles`; the cells of hour h are those of its TMC's hour-h statistics,
      missing when the TMC has no record in that hour. */
  method HourTable(start: seq<Row>, df: seq<Record>) returns (r: seq<Row>)
    requires forall y :: y in start ==> y.cols.Keys <= {"miles"}
    ensures RowTmcs(r) == RowTmcs(start)
    ensures forall i :: 0 <= i < |r| ==> r[i].cols.Keys <= Widened(24)
    ensures forall i :: 0 <= i < |r| ==> Cell(r[i], "miles") == Cell(start[i], "miles")
    ensures forall i, h, c :: 0 <= i < |r| && 0 <= h < 24 && c in HourNames(h) ==>
      Cell(r[i], c) == Cell(StatsRow(df, h, r[i].tmc), c)
  {
    r := start;
    var hour := 0;
    while hour < 24
      invariant 0 <= hour <= 24
      invariant RowTmcs(r) == RowTmcs(start)
      invariant forall i :: 0 <= i < |r| ==> r[i].cols.Keys <= Widened(hour)
      invariant forall i :: 0 <= i < |r| ==> Cell(r[i], "miles") == Cell(start[i], "miles")
      invariant forall i, h, c :: 0 <= i < |r| && 0 <= h < hour && c in HourNames(h) ==>
        Cell(r[i], c) == Cell(StatsRow(df, h, r[i].tmc), c)
    {
      var table := TtByHour(df, hour);
      var next := LeftJoin(r, table);
      forall i | 0 <= i < |next|
        ensures next[i].cols.Keys <= Widened(hour + 1)
        ensures Cell(next[i], "miles") == Cell(start[i], "miles")
        ensures forall h, c :: 0 <= h <= hour && c in HourNames(h) ==>
          Cell(next[i], c) == Cell(StatsRow(df, h, next[i].tmc), c)
      {
        assert next[i] == JoinRow(r[i], table);
        WidenRow(r[i], df, hour);
        forall h | 0 <= h < hour ensures HourNames(h) <= Widened(hour) {
          EarlierHour(h, hour);
        }
      }
      r := next;
      hour := hour + 1;
    }
  }
}
