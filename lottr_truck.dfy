/** Truck Travel Time Reliability and the freight reliability index
    (lottr_truck.py): truck travel times with all-vehicle fallback, per-window
    95th/50th percentile ratios stacked over the windows of weekdays and
    weekends, the maximum ratio per TMC, the truck AADT split, and the
    length-weighted index over the interstate network. */
module LottrTruck {
  import opened Wrappers
  import opened Stats
  import opened Rounding
  import opened Frames
  import opened Reductions

  /** A truck reading joined with the all-vehicle reading of the same TMC and
      timestamp (`travel_time_seconds` and `travel_time_seconds_all`). */
  datatype TruckRecord = TruckRecord(tmc: string, stamp: Stamp, truckTime: Option<real>, allTime: Option<real>)

  /** The fallback of `main`: a truck time that is missing or zero is replaced by the all-vehicle time. */
  function Substitute(x: TruckRecord): (r: Record)
    ensures r.tmc == x.tmc && r.stamp == x.stamp
    ensures x.truckTime.None? || x.truckTime == Some(0.0) ==> r.travelTime == x.allTime
    ensures x.truckTime.Some? && x.truckTime.value != 0.0 ==> r.travelTime == x.truckTime
  {
    var keep := x.truckTime.Some? && x.truckTime.value != 0.0;
    Record(x.tmc, x.stamp, if keep then x.truckTime else x.allTime)
  }

  function SubstituteAll(t: seq<TruckRecord>): (r: seq<Record>)
    ensures |r| == |t| && forall i :: 0 <= i < |t| ==> r[i] == Substitute(t[i])
  {
    seq(|t|, i requires 0 <= i < |t| => Substitute(t[i]))
  }

  /** Non-negative truck times and positive all-vehicle times give positive times throughout. */
  lemma SubstitutedPositive(t: seq<TruckRecord>)
    requires forall i :: 0 <= i < |t| ==> t[i].truckTime.None? || t[i].truckTime.value >= 0.0
    requires forall i :: 0 <= i < |t| ==> t[i].allTime.Some? && t[i].allTime.value > 0.0
    ensures forall i :: 0 <= i < |t| ==> SubstituteAll(t)[i].travelTime.Some? && SubstituteAll(t)[i].travelTime.value > 0.0
  {
    forall i | 0 <= i < |t|
      ensures SubstituteAll(t)[i].travelTime.Some? && SubstituteAll(t)[i].travelTime.value > 0.0
    {
      var x := t[i];
      if x.truckTime.Some? && x.truckTime.value != 0.0 {
        assert x.truckTime.value > 0.0;
      }
    }
  }

  datatype Days = MF | SATSUN

  /** Hours 20 .. 23 and 0 .. 6: `range(20, 24)` followed by `range(0, 7)`. */
  const Overnight: set<int> := {20, 21, 22, 23, 0, 1, 2, 3, 4, 5, 6}

  /** The windows `agg_travel_times` builds, in the order it stacks them: hours
      of the day, the overnight window last. */
  function Windows(days: Days): (r: seq<set<int>>)
    ensures |r| == if days == MF then 4 else 2
    ensures r[|r| - 1] == Overnight
    ensures forall j, h :: 0 <= j < |r| && h in r[j] ==> 0 <= h < 24
  {
    match days
    case MF => [{6, 7, 8, 9}, {10, 11, 12, 13, 14, 15}, {16, 17, 18, 19}, Overnight]
    case SATSUN => [{6, 7, 8, 9, 10, 11, 12, 13, 14, 15, 16, 17, 18, 19}, Overnight]
  }

  /** Every hour of the day falls in some window, on weekdays and at weekends. */
  lemma WindowsCoverDay(days: Days, h: int) returns (j: int)
    requires 0 <= h < 24
    ensures 0 <= j < |Windows(days)| && h in Windows(days)[j]
  {
    var ws := Windows(days);
    if h in Overnight {
      j := |ws| - 1;
    } else if days == SATSUN {
      j := 0;
    } else if h <= 9 {
      j := 0;
    } else if h <= 15 {
      j := 1;
    } else {
      j := 2;
    }
  }

  /** Hour 6 belongs to two weekday windows and to both weekend windows, so a
      6 o'clock record feeds two ratios; every other hour feeds at most one. */
  lemma HourSixCountedTwice()
    ensures 6 in Windows(MF)[0] && 6 in Windows(MF)[3]
    ensures 6 in Windows(SATSUN)[0] && 6 in Windows(SATSUN)[1]
    ensures forall h :: h != 6 ==> !(h in Windows(MF)[0] && h in Windows(MF)[3])
  {
  }

  /** `calc_lottr(df)`: one row per TMC of the window with `95_pct_tt`,
      `50_pct_tt` and their ratio `tttr`. */
  function CalcLottr(t: seq<Record>): (r: seq<Row>)
    ensures RowTmcs(r) == Distinct(Tmcs(t))
    ensures forall i :: 0 <= i < |r| ==> Cell(r[i], "tttr") == GroupRatio(t, r[i].tmc, 95)
  {
    RatioTable(t, 95, "95_pct_tt", "tttr")
  }

  /** The ratio tables of the windows ws, one after the other. */
  function Stack(t: seq<Record>, ws: seq<set<int>>): seq<Row>
  {
    if ws == [] then []
    else Stack(t, ws[..|ws| - 1]) + CalcLottr(Isin(t, Hour, ws[|ws| - 1]))
  }

  /** Every stacked row belongs to a TMC that has records. */
  lemma {:induction false} StackTmcs(t: seq<Record>, ws: seq<set<int>>)
    ensures forall i :: 0 <= i < |Stack(t, ws)| ==> Stack(t, ws)[i].tmc in Tmcs(t)
  {
    if ws != [] {
      var n := |ws| - 1;
      StackTmcs(t, ws[..n]);
      WindowTmcs(t, ws[n]);
    }
  }

  /** A window's ratio table only holds TMCs that have records. */
  lemma WindowTmcs(t: seq<Record>, w: set<int>)
    ensures forall i :: 0 <= i < |CalcLottr(Isin(t, Hour, w))| ==> CalcLottr(Isin(t, Hour, w))[i].tmc in Tmcs(t)
  {
    var s := Isin(t, Hour, w);
    var df := CalcLottr(s);
    forall i | 0 <= i < |df| ensures df[i].tmc in Tmcs(t) {
      assert RowTmcs(df)[i] == df[i].tmc;
      var j :| 0 <= j < |s| && Tmcs(s)[j] == df[i].tmc;
      assert s[j] in s;
      var m :| 0 <= m < |t| && t[m] == s[j];
      assert Tmcs(t)[m] == df[i].tmc;
    }
  }

  /** A row is stacked exactly when it is a row of one window's table. */
  lemma StackMembership(t: seq<Record>, ws: seq<set<int>>, x: Row)
    ensures x in Stack(t, ws) <==> exists j :: 0 <= j < |ws| && x in CalcLottr(Isin(t, Hour, ws[j]))
  {
    if x in Stack(t, ws) {
      var j := StackFromWindow(t, ws, x);
    }
    if exists j :: 0 <= j < |ws| && x in CalcLottr(Isin(t, Hour, ws[j])) {
      var j :| 0 <= j < |ws| && x in CalcLottr(Isin(t, Hour, ws[j]));
      WindowInStack(t, ws, x, j);
    }
  }

  /** Every row of a window's table is stacked. */
  lemma {:induction false} WindowInStack(t: seq<Record>, ws: seq<set<int>>, x: Row, j: int)
    requires 0 <= j < |ws| && x in CalcLottr(Isin(t, Hour, ws[j]))
    ensures x in Stack(t, ws)
  {
    var n := |ws| - 1;
    assert Stack(t, ws) == Stack(t, ws[..n]) + CalcLottr(Isin(t, Hour, ws[n]));
    if j < n {
      assert ws[..n][j] == ws[j];
      WindowInStack(t, ws[..n], x, j);
    }
  }

  /** Every stacked row comes from one window's table. */
  lemma {:induction false} StackFromWindow(t: seq<Record>, ws: seq<set<int>>, x: Row) returns (j: int)
    requires x in Stack(t, ws)
    ensures 0 <= j < |ws| && x in CalcLottr(Isin(t, Hour, ws[j]))
  {
    var n := |ws| - 1;
    assert Stack(t, ws) == Stack(t, ws[..n]) + CalcLottr(Isin(t, Hour, ws[n]));
    if x in Stack(t, ws[..n]) {
      j := StackFromWindow(t, ws[..n], x);
      assert ws[..n][j] == ws[j];
    } else {
      j := n;
    }
  }

  /** `agg_travel_times(df, days)`: concatenates the ratio table of each window
      of days onto an initially empty table. */
  method AggTravelTimes(t: seq<Record>, days: Days) returns (r: seq<Row>)
    ensures r == Stack(t, Windows(days))
  {
    var ws := Windows(days);
    r := [];
    var w := 0;
    while w < |ws|
      invariant 0 <= w <= |ws|
      invariant r == Stack(t, ws[..w])
    {
      assert ws[..w + 1][..w] == ws[..w];
      r := r + CalcLottr(Isin(t, Hour, ws[w]));
      w := w + 1;
    }
    assert ws[..|ws|] == ws;
  }

  /** `get_max_ttr` for one TMC: the largest present `tttr` among its rows. */
  function MaxRow(s: seq<Row>, k: string): (r: Row)
    ensures r.tmc == k
    ensures Cell(r, "tttr").Some? <==> exists i :: 0 <= i < |s| && s[i].tmc == k && Cell(s[i], "tttr").Some?
    ensures Cell(r, "tttr").Some? ==>
      (forall i :: 0 <= i < |s| && s[i].tmc == k && Cell(s[i], "tttr").Some? ==> Cell(s[i], "tttr").value <= Cell(r, "tttr").value)
      && exists i :: 0 <= i < |s| && s[i].tmc == k && Cell(s[i], "tttr") == Cell(r, "tttr")
  {
    Put(Row(k, map[]), "tttr", GroupMax(s, k, "tttr"))
  }

  /** `get_max_ttr(df)`: one row per TMC of the stacked table, holding its maximum `tttr`. */
  function GetMaxTtr(s: seq<Row>): (r: seq<Row>)
    ensures RowTmcs(r) == Distinct(RowTmcs(s))
    ensures forall i :: 0 <= i < |r| ==> r[i] == MaxRow(s, r[i].tmc)
  {
    var ks := Distinct(RowTmcs(s));
    seq(|ks|, i requires 0 <= i < |ks| => MaxRow(s, ks[i]))
  }

  /** The combined table of `main`: the weekday stack followed by the weekend
      stack, reduced to maxima, so one row per TMC. */
  function MaxTttr(weekday: seq<Record>, weekend: seq<Record>): (r: seq<Row>)
    ensures NoDups(RowTmcs(r))
  {
    GetMaxTtr(Stack(weekday, Windows(MF)) + Stack(weekend, Windows(SATSUN)))
  }

  /** Every TMC of the combined table has weekday or weekend records. */
  lemma MaxTttrTmcs(weekday: seq<Record>, weekend: seq<Record>)
    ensures forall i :: 0 <= i < |MaxTttr(weekday, weekend)| ==>
      MaxTttr(weekday, weekend)[i].tmc in Tmcs(weekday) || MaxTttr(weekday, weekend)[i].tmc in Tmcs(weekend)
  {
    var a, b := Stack(weekday, Windows(MF)), Stack(weekend, Windows(SATSUN));
    StackTmcs(weekday, Windows(MF));
    StackTmcs(weekend, Windows(SATSUN));
    var ks := RowTmcs(MaxTttr(weekday, weekend));
    assert ks == Distinct(RowTmcs(a + b));
    forall i | 0 <= i < |ks| ensures ks[i] in Tmcs(weekday) || ks[i] in Tmcs(weekend) {
      StackedTmc(a, b, ks[i]);
    }
  }

  lemma StackedTmc(a: seq<Row>, b: seq<Row>, k: string)
    requires k in RowTmcs(a + b)
    ensures (exists i :: 0 <= i < |a| && a[i].tmc == k) || (exists i :: 0 <= i < |b| && b[i].tmc == k)
  {
    var m :| 0 <= m < |a + b| && RowTmcs(a + b)[m] == k;
    if m >= |a| {
      assert (a + b)[m] == b[m - |a|];
    } else {
      assert (a + b)[m] == a[m];
    }
  }

  /** A TMC's maximum `tttr` is at least its ratio in every weekday and weekend window. */
  lemma MaxDominatesWindows(weekday: seq<Record>, weekend: seq<Record>, i: int, days: Days, j: int)
    requires 0 <= i < |MaxTttr(weekday, weekend)|
    requires 0 <= j < |Windows(days)|
    requires GroupRatio(Isin(if days == MF then weekday else weekend, Hour, Windows(days)[j]), MaxTttr(weekday, weekend)[i].tmc, 95).Some?
    ensures Cell(MaxTttr(weekday, weekend)[i], "tttr").Some?
    ensures GroupRatio(Isin(if days == MF then weekday else weekend, Hour, Windows(days)[j]), MaxTttr(weekday, weekend)[i].tmc, 95).value
      <= Cell(MaxTttr(weekday, weekend)[i], "tttr").value
  {
    var s := Stack(weekday, Windows(MF)) + Stack(weekend, Windows(SATSUN));
    var k := MaxTttr(weekday, weekend)[i].tmc;
    assert MaxTttr(weekday, weekend)[i] == MaxRow(s, k);
    var m := WindowRatioStacked(weekday, weekend, k, days, j);
    MaxRowDominates(s, m);
  }

  /** A window ratio of TMC k is a row of the combined stack. */
  lemma WindowRatioStacked(weekday: seq<Record>, weekend: seq<Record>, k: string, days: Days, j: int) returns (m: int)
    requires 0 <= j < |Windows(days)|
    requires GroupRatio(Isin(if days == MF then weekday else weekend, Hour, Windows(days)[j]), k, 95).Some?
    ensures 0 <= m < |Stack(weekday, Windows(MF)) + Stack(weekend, Windows(SATSUN))|
    ensures (Stack(weekday, Windows(MF)) + Stack(weekend, Windows(SATSUN)))[m].tmc == k
    ensures Cell((Stack(weekday, Windows(MF)) + Stack(weekend, Windows(SATSUN)))[m], "tttr")
      == GroupRatio(Isin(if days == MF then weekday else weekend, Hour, Windows(days)[j]), k, 95)
  {
    var t := if days == MF then weekday else weekend;
    var s := Stack(weekday, Windows(MF)) + Stack(weekend, Windows(SATSUN));
    var x := RatioRowOf(Isin(t, Hour, Windows(days)[j]), k);
    StackMembership(t, Windows(days), x);
    assert x in s;
    m :| 0 <= m < |s| && s[m] == x;
  }

  /** A TMC with a window ratio has a row carrying it in that window's table. */
  lemma RatioRowOf(window: seq<Record>, k: string) returns (x: Row)
    requires GroupRatio(window, k, 95).Some?
    ensures x in CalcLottr(window) && x.tmc == k && Cell(x, "tttr") == GroupRatio(window, k, 95)
  {
    var df := CalcLottr(window);
    assert k in RowTmcs(df);
    var n :| 0 <= n < |df| && RowTmcs(df)[n] == k;
    x := df[n];
  }

  /** The maximum row of a TMC is at least each of its present ratios. */
  lemma MaxRowDominates(s: seq<Row>, m: int)
    requires 0 <= m < |s| && Cell(s[m], "tttr").Some?
    ensures Cell(MaxRow(s, s[m].tmc), "tttr").Some?
    ensures Cell(s[m], "tttr").value <= Cell(MaxRow(s, s[m].tmc), "tttr").value
  {
  }

  /** `AADT_splits` on one row: rounded directional AADT and the combination-truck share. */
  function AadtSplitsRow(x: Row): (r: Row)
    ensures r.tmc == x.tmc
    ensures forall c :: c !in {"dir_aadt", "pct_truck"} ==> Cell(r, c) == Cell(x, c)
  {
    var x1 := Put(x, "dir_aadt", RoundCell(Over(Cell(x, "aadt"), Cell(x, "faciltype"))));
    Put(x1, "pct_truck", Over(Cell(x1, "aadt_combi"), Cell(x1, "dir_aadt")))
  }

  method AadtSplits(df: Frame)
    modifies df
    ensures df.rows == MapRows(old(df.rows), AadtSplitsRow)
  {
    df.rows := MapRows(df.rows, AadtSplitsRow);
  }

  const TruckOccupancy: real := 1.0

  /** `calc_ttr` on one row: yearly truck volume and the volume-weighted length `ttr`. */
  function CalcTtrRow(x: Row): (r: Row)
    ensures r.tmc == x.tmc
    ensures forall c :: c !in {"VOLt", "ttr"} ==> Cell(r, c) == Cell(x, c)
  {
    var vol := Times(Times(Cell(x, "pct_truck"), Cell(x, "dir_aadt")), Some(365.0));
    var ttr := Times(Times(Cell(x, "miles"), vol), Some(TruckOccupancy));
    Put(Put(x, "VOLt", vol), "ttr", ttr)
  }

  method CalcTtr(df: Frame)
    modifies df
    ensures df.rows == MapRows(old(df.rows), CalcTtrRow)
  {
    df.rows := MapRows(df.rows, CalcTtrRow);
  }

  /** After `AADT_splits` and `calc_ttr`, `ttr` is the segment length times the
      yearly combination-truck volume: the rounding of the directional AADT cancels. */
  lemma TruckTtrFromAadt(x: Row)
    requires {"aadt", "faciltype", "aadt_combi", "miles"} <= x.cols.Keys
    requires x.cols["faciltype"] != 0.0 && DirAadt(x) != 0.0
    ensures Cell(CalcTtrRow(AadtSplitsRow(x)), "ttr").Some?
    ensures Cell(CalcTtrRow(AadtSplitsRow(x)), "ttr").value == x.cols["miles"] * (x.cols["aadt_combi"] * 365.0)
  {
    var y := AadtSplitsRow(x);
    var d, c, m := DirAadt(x), x.cols["aadt_combi"], x.cols["miles"];
    var x1 := Put(x, "dir_aadt", RoundCell(Over(Cell(x, "aadt"), Cell(x, "faciltype"))));
    assert Cell(x1, "dir_aadt") == Some(d);
    assert Cell(x1, "aadt_combi") == Some(c);
    assert Cell(y, "pct_truck").Some? && Cell(y, "pct_truck").value == c / d;
    assert Cell(y, "dir_aadt") == Some(d) && Cell(y, "miles") == Some(m);
    var vol := Times(Times(Cell(y, "pct_truck"), Cell(y, "dir_aadt")), Some(365.0));
    assert vol.Some? && vol.value == c / d * d * 365.0;
    assert c / d * d == c;
  }

  /** `weighted_ttr = miles * tttr` on one row; missing when either factor is. */
  function WeightedRow(x: Row): Row
  {
    Put(x, "weighted_ttr", Times(Cell(x, "miles"), Cell(x, "tttr")))
  }

  /** The sum of the products `miles * tttr` over the rows that have both. */
  function WeightedSum(t: seq<Row>): real
  {
    if t == [] then 0.0
    else
      (if "miles" in t[0].cols && "tttr" in t[0].cols then t[0].cols["miles"] * t[0].cols["tttr"] else 0.0)
      + WeightedSum(t[1..])
  }

  /** The weighted sum is the sum of the `weighted_ttr` column: a row lacking
      either factor has a missing product, which the sum skips. */
  lemma {:induction false} WeightedSumIsColumnSum(t: seq<Row>)
    ensures WeightedSum(t) == SumColumn(MapRows(t, WeightedRow), "weighted_ttr")
  {
    if t != [] {
      assert MapRows(t, WeightedRow)[1..] == MapRows(t[1..], WeightedRow);
      WeightedSumIsColumnSum(t[1..]);
    }
  }

  /** The freight reliability index: the length-weighted mean `tttr` of the
      interstate segments; missing when they have no length. */
  function FreightIndex(t: seq<Row>): (r: Option<real>)
    ensures r.Some? <==> SumColumn(Where(t, IsInterstate), "miles") != 0.0
    ensures r.Some? ==> r.value == WeightedSum(Where(t, IsInterstate)) / SumColumn(Where(t, IsInterstate), "miles")
  {
    var ints := Where(t, IsInterstate);
    var total := SumColumn(ints, "miles");
    if total == 0.0 then None else Some(WeightedSum(ints) / total)
  }

  /** `calc_freight_reliability(df)`: the table, unchanged, and the index. */
  function CalcFreightReliability(t: seq<Row>): (r: (seq<Row>, Option<real>))
    ensures r.0 == t
  {
    (t, FreightIndex(t))
  }

  /** Every row has a non-negative length and a `tttr` in [lo, hi]. */
  ghost predicate Bounded(t: seq<Row>, lo: real, hi: real)
  {
    forall i :: 0 <= i < |t| ==>
      "miles" in t[i].cols && "tttr" in t[i].cols && 0.0 <= t[i].cols["miles"] && lo <= t[i].cols["tttr"] <= hi
  }

  /** One segment of length m and ratio v in [lo, hi] keeps the weighted sum within bounds. */
  lemma StepBetween(m: real, v: real, lo: real, hi: real, rest: real, restWeighted: real, total: real, weighted: real)
    requires 0.0 <= m && lo <= v <= hi && rest * lo <= restWeighted <= rest * hi
    requires total == m + rest && weighted == m * v + restWeighted
    ensures total * lo <= weighted <= total * hi
  {
    assert m * lo <= m * v <= m * hi;
  }

  lemma BoundedTail(t: seq<Row>, lo: real, hi: real)
    requires t != [] && Bounded(t, lo, hi)
    ensures Bounded(t[1..], lo, hi)
    ensures "miles" in t[0].cols && "tttr" in t[0].cols
    ensures 0.0 <= t[0].cols["miles"] && lo <= t[0].cols["tttr"] <= hi
  {
    forall i | 0 <= i < |t[1..]| ensures "miles" in t[1..][i].cols && "tttr" in t[1..][i].cols
      && 0.0 <= t[1..][i].cols["miles"] && lo <= t[1..][i].cols["tttr"] <= hi {
      assert t[1..][i] == t[i + 1];
    }
  }

  lemma {:induction false} WeightedBetween(t: seq<Row>, lo: real, hi: real)
    requires Bounded(t, lo, hi)
    ensures 0.0 <= SumColumn(t, "miles")
    ensures SumColumn(t, "miles") * lo <= WeightedSum(t) <= SumColumn(t, "miles") * hi
  {
    if t != [] {
      BoundedTail(t, lo, hi);
      WeightedBetween(t[1..], lo, hi);
      var m, v := t[0].cols["miles"], t[0].cols["tttr"];
      StepBetween(m, v, lo, hi, SumColumn(t[1..], "miles"), WeightedSum(t[1..]), SumColumn(t, "miles"), WeightedSum(t));
    }
  }

  /** The index lies between the smallest and the largest interstate `tttr`. */
  lemma FreightIndexBetween(t: seq<Row>, lo: real, hi: real)
    requires Bounded(Where(t, IsInterstate), lo, hi)
    requires FreightIndex(t).Some?
    ensures lo <= FreightIndex(t).value <= hi
  {
    var ints := Where(t, IsInterstate);
    WeightedBetween(ints, lo, hi);
    DivBetween(WeightedSum(ints), SumColumn(ints, "miles"), lo, hi);
  }

  /** When every interstate segment has the same `tttr` k, the index is k. */
  lemma FreightIndexOfConstant(t: seq<Row>, k: real)
    requires Bounded(Where(t, IsInterstate), k, k)
    requires FreightIndex(t).Some?
    ensures FreightIndex(t) == Some(k)
  {
    FreightIndexBetween(t, k, k);
  }

  /** Adding segments that are not interstate leaves the index unchanged. */
  lemma NonInterstateIgnored(t: seq<Row>, u: seq<Row>)
    requires forall i :: 0 <= i < |u| ==> !IsInterstate(u[i])
    ensures FreightIndex(t + u) == FreightIndex(t)
  {
    WhereConcat(t, u, IsInterstate);
    WhereNone(u, IsInterstate);
    assert Where(t, IsInterstate) + [] == Where(t, IsInterstate);
  }
}
