/** Level of Travel Time Reliability for auto and bus traffic (lottr_calc.py):
    per-TMC 80th/50th percentile ratios in three weekday windows and one
    weekend window, the reliable flag, the AADT mode splits, the occupancy-
    weighted travel volume `ttr`, and the reliable shares of the interstate and
    non-interstate networks. */
module LottrCalc {
  import opened Wrappers
  import opened Stats
  import opened Rounding
  import opened Frames
  import opened Reductions

  const Weekdays: set<int> := {0, 1, 2, 3, 4}
  const Weekend: set<int> := {5, 6}

  /** The three weekday windows, in the order the merge loop visits them. */
  const MfWindows: seq<(string, set<int>)> :=
    [("6_9", {6, 7, 8, 9}), ("10_15", {10, 11, 12, 13, 14, 15}), ("16_19", {16, 17, 18, 19})]

  const WeekendHours: set<int> := {6, 7, 8, 9, 10, 11, 12, 13, 14, 15, 16, 17, 18, 19}

  /** The ratio column a window contributes: `'{days}_{time_period}'`. */
  function RatioColumn(days: string, period: string): string
  {
    days + "_" + period
  }

  /** `calc_lottr(days, time_period, df)`: one row per TMC of the window, in
      order of first appearance, with `80_pct_tt`, `50_pct_tt` and the window
      ratio under `'{days}_{time_period}'`. */
  function CalcLottr(days: string, period: string, t: seq<Record>): (r: seq<Row>)
    ensures RowTmcs(r) == Distinct(Tmcs(t))
    ensures forall i :: 0 <= i < |r| ==> Cell(r[i], RatioColumn(days, period)) == GroupRatio(t, r[i].tmc, 80)
    ensures forall i :: 0 <= i < |r| ==> r[i].cols.Keys <= {"80_pct_tt", "50_pct_tt", RatioColumn(days, period)}
  {
    RatioTable(t, 80, "80_pct_tt", RatioColumn(days, period))
  }

  /** The ratio cell a left merge with `calc_lottr`'s table gives a row that
      lacked it: the window ratio of the row's TMC, missing when the TMC has no
      record in the window. */
  lemma JoinedRatio(x: Row, days: string, period: string, w: seq<Record>)
    requires RatioColumn(days, period) !in x.cols
    ensures Cell(JoinRow(x, CalcLottr(days, period, w)), RatioColumn(days, period)) == GroupRatio(w, x.tmc, 80)
  {
    var df := CalcLottr(days, period, w);
    var name := RatioColumn(days, period);
    var look := Lookup(df, x.tmc);
    if look.Some? {
      var m := look.value;
      assert m in df && m.tmc == x.tmc;
      var j :| 0 <= j < |df| && df[j] == m;
      assert Cell(m, name) == GroupRatio(w, x.tmc, 80);
    } else {
      assert x.tmc !in RowTmcs(df);
      assert x.tmc !in Tmcs(w);
    }
  }

  /** A left merge with `calc_lottr`'s table leaves every cell other than its three columns as it was. */
  lemma JoinedOther(x: Row, days: string, period: string, w: seq<Record>, c: string)
    requires c !in {"80_pct_tt", "50_pct_tt", RatioColumn(days, period)}
    ensures Cell(JoinRow(x, CalcLottr(days, period, w)), c) == Cell(x, c)
  {
    var df := CalcLottr(days, period, w);
    assert forall i :: 0 <= i < |df| ==> c !in df[i].cols;
    JoinRowKeeps(x, df, c);
  }

  /** `agg_travel_time_sat_sun`: the distinct TMCs of the weekend records, each
      with the ratio of its hour 6 .. 19 records under `SATSUN_6_19`. */
  function AggTravelTimeSatSun(t: seq<Record>): (r: seq<Row>)
    ensures RowTmcs(r) == Distinct(Tmcs(t))
    ensures forall i :: 0 <= i < |r| ==>
      Cell(r[i], "SATSUN_6_19") == GroupRatio(Isin(t, Hour, WeekendHours), r[i].tmc, 80)
  {
    var spine := Spine(Distinct(Tmcs(t)));
    var w := Isin(t, Hour, WeekendHours);
    var df := CalcLottr("SATSUN", "6_19", w);
    var r := LeftJoin(spine, df);
    assert RatioColumn("SATSUN", "6_19") == "SATSUN_6_19";
    assert forall i :: 0 <= i < |r| ==> Cell(r[i], "SATSUN_6_19") == GroupRatio(w, r[i].tmc, 80) by {
      forall i | 0 <= i < |r| ensures Cell(r[i], "SATSUN_6_19") == GroupRatio(w, r[i].tmc, 80) {
        assert r[i] == JoinRow(spine[i], df);
        assert spine[i].cols == map[];
        JoinedRatio(spine[i], "SATSUN", "6_19", w);
      }
    }
    r
  }

  /** The ratio column of weekday window v: `MF_6_9`, `MF_10_15`, `MF_16_19`. */
  function MfColumn(v: int): string
    requires 0 <= v < |MfWindows|
  {
    RatioColumn("MF", MfWindows[v].0)
  }

  /** The three weekday ratio columns differ from one another and from the
      percentile columns, so no merge of the loop overwrites an earlier ratio. */
  lemma MfColumnsDistinct(v: int, w: int)
    requires 0 <= v < |MfWindows| && 0 <= w < |MfWindows| && v != w
    ensures MfColumn(v) !in {"80_pct_tt", "50_pct_tt", MfColumn(w)}
  {
    assert MfColumn(0) == "MF_6_9" && MfColumn(1) == "MF_10_15" && MfColumn(2) == "MF_16_19";
  }

  /** `agg_travel_times_mf`: starting from the distinct weekday TMCs, merge in
      the ratio table of each weekday window in turn. Every TMC keeps exactly
      one row, and each window's column holds that TMC's ratio in the window
      (missing when it has no record there). */
  method AggTravelTimesMf(t: seq<Record>) returns (r: seq<Row>)
    ensures RowTmcs(r) == Distinct(Tmcs(t))
    ensures forall i, v :: 0 <= i < |r| && 0 <= v < |MfWindows| ==>
      Cell(r[i], MfColumn(v)) == GroupRatio(Isin(t, Hour, MfWindows[v].1), r[i].tmc, 80)
  {
    r := Spine(Distinct(Tmcs(t)));
    var w := 0;
    while w < |MfWindows|
      invariant 0 <= w <= |MfWindows|
      invariant RowTmcs(r) == Distinct(Tmcs(t))
      invariant forall i, v :: 0 <= i < |r| && 0 <= v < w ==>
        Cell(r[i], MfColumn(v)) == GroupRatio(Isin(t, Hour, MfWindows[v].1), r[i].tmc, 80)
      invariant forall i, v :: 0 <= i < |r| && w <= v < |MfWindows| ==> MfColumn(v) !in r[i].cols
    {
      var key := MfWindows[w].0;
      var window := Isin(t, Hour, MfWindows[w].1);
      var df := CalcLottr("MF", key, window);
      var next := LeftJoin(r, df);
      forall i, v | 0 <= i < |next| && 0 <= v < |MfWindows|
        ensures v < w ==> Cell(next[i], MfColumn(v)) == GroupRatio(Isin(t, Hour, MfWindows[v].1), next[i].tmc, 80)
        ensures v == w ==> Cell(next[i], MfColumn(v)) == GroupRatio(window, next[i].tmc, 80)
        ensures w < v ==> MfColumn(v) !in next[i].cols
      {
        assert next[i] == JoinRow(r[i], df);
        if v == w {
          assert MfColumn(w) == RatioColumn("MF", key);
          assert MfColumn(w) !in r[i].cols;
          JoinedRatio(r[i], "MF", key, window);
        } else {
          MfColumnsDistinct(v, w);
          JoinedOther(r[i], "MF", key, window, MfColumn(v));
        }
      }
      r := next;
      w := w + 1;
    }
  }

  /** The weekday windows do not overlap, and the weekend window is all of 6 .. 19. */
  lemma WindowsDisjoint()
    ensures MfWindows[0].1 * MfWindows[1].1 == {} && MfWindows[1].1 * MfWindows[2].1 == {}
    ensures MfWindows[0].1 * MfWindows[2].1 == {}
    ensures MfWindows[0].1 + MfWindows[1].1 + MfWindows[2].1 == WeekendHours
  {
  }

  /** `df_mf` and `df_sat_sun`: the weekday and weekend records split every
      table whose weekdays lie in 0 .. 6. */
  lemma SplitWeek(t: seq<Record>)
    requires forall i :: 0 <= i < |t| ==> 0 <= t[i].stamp.weekday <= 6
    ensures multiset(Isin(t, Weekday, Weekdays)) + multiset(Isin(t, Weekday, Weekend)) == multiset(t)
    ensures forall x :: x in Isin(t, Weekday, Weekdays) ==> x.stamp.weekday !in Weekend
  {
    forall i | 0 <= i < |t| ensures Part(t[i].stamp, Weekday) in Weekdays + Weekend {
      assert 0 <= t[i].stamp.weekday <= 6;
    }
    IsinPartition(t, Weekday, Weekdays, Weekend);
  }

  const ReliabilityColumns: seq<string> := ["MF_6_9", "MF_10_15", "MF_16_19", "SATSUN_6_19"]

  /** `check_reliable`'s flag: 1 when every window ratio is strictly below 1.5,
      0 otherwise; a missing ratio compares false and so gives 0. */
  function ReliableFlag(x: Row): (v: real)
    ensures v == 1.0 <==> forall j :: 0 <= j < |ReliabilityColumns| ==> Below(Cell(x, ReliabilityColumns[j]), 1.5)
    ensures v == 0.0 <==> exists j :: 0 <= j < |ReliabilityColumns| && !Below(Cell(x, ReliabilityColumns[j]), 1.5)
  {
    if Below(Cell(x, "MF_6_9"), 1.5) && Below(Cell(x, "MF_10_15"), 1.5)
       && Below(Cell(x, "MF_16_19"), 1.5) && Below(Cell(x, "SATSUN_6_19"), 1.5)
    then 1.0
    else
      assert !Below(Cell(x, ReliabilityColumns[0]), 1.5) || !Below(Cell(x, ReliabilityColumns[1]), 1.5)
        || !Below(Cell(x, ReliabilityColumns[2]), 1.5) || !Below(Cell(x, ReliabilityColumns[3]), 1.5);
      0.0
  }

  /** A ratio of exactly 1.5 in any window, or a missing one, makes the segment unreliable. */
  lemma BoundaryIsUnreliable(x: Row, j: int)
    requires 0 <= j < |ReliabilityColumns|
    requires Cell(x, ReliabilityColumns[j]) == Some(1.5) || Cell(x, ReliabilityColumns[j]) == None
    ensures ReliableFlag(x) == 0.0
  {
  }

  function CheckReliableRow(x: Row): (r: Row)
    ensures Cell(r, "reliable") == Some(ReliableFlag(x))
    ensures r.tmc == x.tmc && forall c :: c != "reliable" ==> Cell(r, c) == Cell(x, c)
  {
    Put(x, "reliable", Some(ReliableFlag(x)))
  }

  /** `check_reliable(df)`: writes the `reliable` column into the frame. */
  method CheckReliable(df: Frame)
    modifies df
    ensures df.rows == MapRows(old(df.rows), CheckReliableRow)
  {
    df.rows := MapRows(df.rows, CheckReliableRow);
  }

  /** `AADT_splits` on one row: directional AADT rounded half to even, auto
      AADT as the remainder after single-unit and combination trucks, and the
      auto and bus shares of the directional AADT. */
  function AadtSplitsRow(x: Row): (r: Row)
    ensures r.tmc == x.tmc
    ensures forall c :: c !in {"dir_aadt", "aadt_auto", "pct_auto", "pct_bus"} ==> Cell(r, c) == Cell(x, c)
  {
    var x1 := Put(x, "dir_aadt", RoundCell(Over(Cell(x, "aadt"), Cell(x, "faciltype"))));
    var x2 := Put(x1, "aadt_auto", Minus(Cell(x1, "dir_aadt"), Plus(Cell(x1, "aadt_singl"), Cell(x1, "aadt_combi"))));
    var x3 := Put(x2, "pct_auto", Over(Cell(x2, "aadt_auto"), Cell(x2, "dir_aadt")));
    Put(x3, "pct_bus", Over(Cell(x3, "aadt_singl"), Cell(x3, "dir_aadt")))
  }

  lemma ShareIdentity(d: real, s: real, c: real)
    requires d != 0.0
    ensures (d - (s + c)) / d + s / d == 1.0 - c / d
  {
    calc {
      (d - (s + c)) / d + s / d;
      (d - c) / d;
      d / d - c / d;
      { assert d / d == 1.0; }
      1.0 - c / d;
    }
  }

  /** The auto and bus shares add up to everything but the combination-truck share. */
  lemma AadtSharesSum(x: Row)
    requires {"aadt", "faciltype", "aadt_singl", "aadt_combi"} <= x.cols.Keys
    requires x.cols["faciltype"] != 0.0 && DirAadt(x) != 0.0
    ensures Cell(AadtSplitsRow(x), "dir_aadt") == Some(DirAadt(x))
    ensures Cell(AadtSplitsRow(x), "pct_auto").Some? && Cell(AadtSplitsRow(x), "pct_bus").Some?
    ensures Cell(AadtSplitsRow(x), "pct_auto").value + Cell(AadtSplitsRow(x), "pct_bus").value
      == 1.0 - x.cols["aadt_combi"] / DirAadt(x)
  {
    var d, s, c := DirAadt(x), x.cols["aadt_singl"], x.cols["aadt_combi"];
    SplitsCells(x);
    ShareIdentity(d, s, c);
  }

  /** The cells `AADT_splits` writes, when its inputs are present. */
  lemma SplitsCells(x: Row)
    requires {"aadt", "faciltype", "aadt_singl", "aadt_combi"} <= x.cols.Keys
    requires x.cols["faciltype"] != 0.0 && DirAadt(x) != 0.0
    ensures Cell(AadtSplitsRow(x), "dir_aadt") == Some(DirAadt(x))
    ensures Cell(AadtSplitsRow(x), "pct_auto")
      == Some((DirAadt(x) - (x.cols["aadt_singl"] + x.cols["aadt_combi"])) / DirAadt(x))
    ensures Cell(AadtSplitsRow(x), "pct_bus") == Some(x.cols["aadt_singl"] / DirAadt(x))
  {
    var d := DirAadt(x);
    var x1 := Put(x, "dir_aadt", RoundCell(Over(Cell(x, "aadt"), Cell(x, "faciltype"))));
    assert Cell(x1, "dir_aadt") == Some(d);
    assert Cell(x1, "aadt_singl") == Cell(x, "aadt_singl") && Cell(x1, "aadt_combi") == Cell(x, "aadt_combi");
  }

  /** More truck AADT than directional AADT drives the auto share below zero. */
  lemma AutoShareNegative(x: Row)
    requires {"aadt", "faciltype", "aadt_singl", "aadt_combi"} <= x.cols.Keys
    requires x.cols["faciltype"] != 0.0 && DirAadt(x) > 0.0
    requires x.cols["aadt_singl"] + x.cols["aadt_combi"] > DirAadt(x)
    ensures Cell(AadtSplitsRow(x), "pct_auto").Some? && Cell(AadtSplitsRow(x), "pct_auto").value < 0.0
  {
    SplitsCells(x);
  }

  /** `AADT_splits(df)`: writes the four split columns into the frame. */
  method AadtSplits(df: Frame)
    modifies df
    ensures df.rows == MapRows(old(df.rows), AadtSplitsRow)
  {
    df.rows := MapRows(df.rows, AadtSplitsRow);
  }

  const AutoOccupancy: real := 1.4
  const BusOccupancy: real := 12.6

  /** `calc_ttr` on one row: yearly auto and bus volumes and the person-volume
      weighted, NHS-share weighted length `ttr`. */
  function CalcTtrRow(x: Row): (r: Row)
    ensures r.tmc == x.tmc
    ensures forall c :: c !in {"VOLa", "VOLb", "ttr"} ==> Cell(r, c) == Cell(x, c)
  {
    var volA := Times(Times(Cell(x, "pct_auto"), Cell(x, "dir_aadt")), Some(365.0));
    var volB := Times(Times(Cell(x, "pct_bus"), Cell(x, "dir_aadt")), Some(365.0));
    var ttr :=
      if volA.Some? && volB.Some? && "miles" in x.cols && "nhs_pct" in x.cols then
        var miles, nhs := x.cols["miles"], x.cols["nhs_pct"] / 100.0;
        Some(miles * nhs * volA.value * AutoOccupancy + miles * nhs * volB.value * BusOccupancy)
      else None;
    Put(Put(Put(x, "VOLa", volA), "VOLb", volB), "ttr", ttr)
  }

  /** Length times NHS share times yearly directional volume, weighted by the
      occupancy of the auto and bus shares. */
  function TtrFormula(miles: real, nhsPct: real, dir: real, pctAuto: real, pctBus: real): real
  {
    miles * (nhsPct / 100.0) * 365.0 * dir * (AutoOccupancy * pctAuto + BusOccupancy * pctBus)
  }

  lemma WeightingIdentity(m: real, n: real, d: real, pa: real, pb: real)
    ensures m * (n / 100.0) * (pa * d * 365.0) * AutoOccupancy + m * (n / 100.0) * (pb * d * 365.0) * BusOccupancy
      == TtrFormula(m, n, d, pa, pb)
  {
  }

  /** `ttr` is length times NHS share times yearly directional volume, weighted by occupancy. */
  lemma TtrWeighting(x: Row)
    requires {"pct_auto", "pct_bus", "dir_aadt", "nhs_pct", "miles"} <= x.cols.Keys
    ensures Cell(CalcTtrRow(x), "ttr").Some?
    ensures Cell(CalcTtrRow(x), "ttr").value
      == TtrFormula(x.cols["miles"], x.cols["nhs_pct"], x.cols["dir_aadt"], x.cols["pct_auto"], x.cols["pct_bus"])
  {
    var m, n, d := x.cols["miles"], x.cols["nhs_pct"], x.cols["dir_aadt"];
    var pa, pb := x.cols["pct_auto"], x.cols["pct_bus"];
    var volA := Times(Times(Cell(x, "pct_auto"), Cell(x, "dir_aadt")), Some(365.0));
    var volB := Times(Times(Cell(x, "pct_bus"), Cell(x, "dir_aadt")), Some(365.0));
    assert volA.Some? && volA.value == pa * d * 365.0;
    assert volB.Some? && volB.value == pb * d * 365.0;
    WeightingIdentity(m, n, d, pa, pb);
  }

  /** The same weighting written with volumes: autos are the directional AADT
      less single-unit and combination trucks, buses are the single-unit trucks. */
  function VolumeTtr(miles: real, nhsPct: real, dir: real, singl: real, combi: real): real
  {
    miles * (nhsPct / 100.0) * 365.0 * (AutoOccupancy * (dir - singl - combi) + BusOccupancy * singl)
  }

  lemma VolumeIdentity(m: real, n: real, d: real, s: real, c: real)
    requires d != 0.0
    ensures TtrFormula(m, n, d, (d - (s + c)) / d, s / d) == VolumeTtr(m, n, d, s, c)
  {
    var k := m * (n / 100.0) * 365.0;
    assert d * ((d - (s + c)) / d) == d - s - c;
    assert d * (s / d) == s;
    assert k * d * (AutoOccupancy * ((d - (s + c)) / d) + BusOccupancy * (s / d))
      == k * (AutoOccupancy * (d * ((d - (s + c)) / d)) + BusOccupancy * (d * (s / d)));
  }

  /** After `AADT_splits` and `calc_ttr`, a segment's `ttr` is its length times
      its NHS share times the yearly person volume of its autos and buses,
      counted from the directional AADT less the trucks. */
  lemma TtrFromAadt(x: Row)
    requires {"aadt", "faciltype", "aadt_singl", "aadt_combi", "miles", "nhs_pct"} <= x.cols.Keys
    requires x.cols["faciltype"] != 0.0 && DirAadt(x) != 0.0
    ensures Cell(CalcTtrRow(AadtSplitsRow(x)), "ttr").Some?
    ensures Cell(CalcTtrRow(AadtSplitsRow(x)), "ttr").value
      == VolumeTtr(x.cols["miles"], x.cols["nhs_pct"], DirAadt(x), x.cols["aadt_singl"], x.cols["aadt_combi"])
  {
    var y := AadtSplitsRow(x);
    var d, s, c := DirAadt(x), x.cols["aadt_singl"], x.cols["aadt_combi"];
    SplitsCells(x);
    assert Cell(y, "miles") == Cell(x, "miles") && Cell(y, "nhs_pct") == Cell(x, "nhs_pct");
    assert y.cols["pct_auto"] == (d - (s + c)) / d;
    assert y.cols["pct_bus"] == s / d;
    assert y.cols["dir_aadt"] == d;
    assert y.cols["miles"] == x.cols["miles"] && y.cols["nhs_pct"] == x.cols["nhs_pct"];
    TtrWeighting(y);
    assert Cell(CalcTtrRow(y), "ttr").value
      == TtrFormula(x.cols["miles"], x.cols["nhs_pct"], d, (d - (s + c)) / d, s / d);
    VolumeIdentity(x.cols["miles"], x.cols["nhs_pct"], d, s, c);
  }

  /** `calc_ttr(df)`: writes `VOLa`, `VOLb` and `ttr` into the frame. */
  method CalcTtr(df: Frame)
    modifies df
    ensures df.rows == MapRows(old(df.rows), CalcTtrRow)
  {
    df.rows := MapRows(df.rows, CalcTtrRow);
  }

  predicate IsReliable(x: Row)
  {
    Cell(x, "reliable") == Some(1.0)
  }

  /** `df.loc[df['interstate'] != 1]`; a missing flag counts as not interstate. */
  function NonInterstate(t: seq<Row>): seq<Row>
  {
    Where(t, (x: Row) => !IsInterstate(x))
  }

  /** The share of a network's `ttr` carried by its reliable segments; missing
      when the network's `ttr` sums to zero. */
  function ReliableShare(g: seq<Row>): (r: Option<real>)
    ensures r.Some? <==> SumColumn(g, "ttr") != 0.0
    ensures r.Some? ==> r.value == SumColumn(Where(g, IsReliable), "ttr") / SumColumn(g, "ttr")
  {
    var total := SumColumn(g, "ttr");
    if total == 0.0 then None else Some(SumColumn(Where(g, IsReliable), "ttr") / total)
  }

  /** `calc_pct_reliability`: the reliable shares of the interstate and the non-interstate network. */
  function CalcPctReliability(t: seq<Row>): (r: (Option<real>, Option<real>))
    ensures r.0.Some? <==> SumColumn(Where(t, IsInterstate), "ttr") != 0.0
    ensures r.1.Some? <==> SumColumn(NonInterstate(t), "ttr") != 0.0
    ensures r.0.Some? ==>
      r.0.value == SumColumn(Where(Where(t, IsInterstate), IsReliable), "ttr") / SumColumn(Where(t, IsInterstate), "ttr")
    ensures r.1.Some? ==>
      r.1.value == SumColumn(Where(NonInterstate(t), IsReliable), "ttr") / SumColumn(NonInterstate(t), "ttr")
  {
    (ReliableShare(Where(t, IsInterstate)), ReliableShare(NonInterstate(t)))
  }

  /** The two networks partition the table. */
  lemma NetworksPartition(t: seq<Row>)
    ensures multiset(Where(t, IsInterstate)) + multiset(NonInterstate(t)) == multiset(t)
  {
    WherePartition(t, IsInterstate, (x: Row) => !IsInterstate(x));
  }

  /** With no negative `ttr`, each share is a fraction. */
  lemma ReliableShareBetween(g: seq<Row>)
    requires NonNegativeColumn(g, "ttr") && ReliableShare(g).Some?
    ensures 0.0 <= ReliableShare(g).value <= 1.0
  {
    WhereSumBetween(g, IsReliable, "ttr");
    var part, total := SumColumn(Where(g, IsReliable), "ttr"), SumColumn(g, "ttr");
    DivBetween(part, total, 0.0, 1.0);
  }

  lemma PctReliabilityBetween(t: seq<Row>)
    requires NonNegativeColumn(t, "ttr")
    ensures CalcPctReliability(t).0.Some? ==> 0.0 <= CalcPctReliability(t).0.value <= 1.0
    ensures CalcPctReliability(t).1.Some? ==> 0.0 <= CalcPctReliability(t).1.value <= 1.0
  {
    var a, b := Where(t, IsInterstate), NonInterstate(t);
    WhereNonNegative(t, IsInterstate, "ttr");
    WhereNonNegative(t, (x: Row) => !IsInterstate(x), "ttr");
    if ReliableShare(a).Some? {
      ReliableShareBetween(a);
    }
    if ReliableShare(b).Some? {
      ReliableShareBetween(b);
    }
  }
}
