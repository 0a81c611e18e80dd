/** `phed_calc_pd0.23.4.py`: peak hour excessive delay (PHED) per capita.
    Each 15-minute record of an urban TMC carries its travel time, the TMC's
    length, AADT by vehicle class, its posted speed limit and the hour's
    peaking factor; the script turns travel time beyond the threshold speed
    into person-hours of delay and divides the yearly total by the population. */
module PhedCalcPd {
  import opened Wrappers
  import opened Stats
  import opened Rounding
  import opened Frames

  const Weekdays: set<int> := {0, 1, 2, 3, 4}
  const PeakHours: set<int> := {6, 7, 8, 9, 10, 15, 16, 17, 18, 19}

  /** The two filters of `main`: weekday records first, then peak-hour records.
      `Phed.load_metro_data` in `phed_plus_plus.py` applies the same two. */
  function PeakPeriod(t: seq<Record>): (r: seq<Record>)
    ensures forall x :: x in r <==> x in t && x.stamp.weekday in Weekdays && x.stamp.hour in PeakHours
  {
    Isin(Isin(t, Weekday, Weekdays), Hour, PeakHours)
  }

  /** The two filters together are one mask: they keep the records of weekday
      peak hours and nothing else, in their original order. */
  lemma {:induction false} PeakPeriodIsOneMask(t: seq<Record>)
    ensures PeakPeriod(t) == Where(t, (x: Record) => x.stamp.weekday in Weekdays && x.stamp.hour in PeakHours)
  {
    if t != [] {
      PeakPeriodIsOneMask(t[1..]);
      var x := t[0];
      var h := if x.stamp.weekday in Weekdays then [x] else [];
      assert Isin(t, Weekday, Weekdays) == h + Isin(t[1..], Weekday, Weekdays);
      IsinConcat(h, Isin(t[1..], Weekday, Weekdays), Hour, PeakHours);
      if x.stamp.weekday in Weekdays {
        assert Isin(h, Hour, PeakHours) == (if x.stamp.hour in PeakHours then [x] else []) + Isin([], Hour, PeakHours);
      }
    }
  }

  /** `threshold_speed` on one row: `posted_mult` is 0.6 times the posted speed
      limit, and `TS` is the larger of that and 20 mph. A missing limit gives
      20, because the comparison with NaN is false. */
  function ThresholdSpeedRow(x: Row): (r: Row)
    ensures r.tmc == x.tmc
    ensures forall c :: c !in {"posted_mult", "TS"} ==> Cell(r, c) == Cell(x, c)
    ensures r.cols.Keys <= x.cols.Keys + {"posted_mult", "TS"}
    ensures Cell(r, "posted_mult") == Times(Cell(x, "SPEED_LIMIT"), Some(0.6))
    ensures Cell(r, "TS").Some? && Cell(r, "TS").value >= 20.0
    ensures "SPEED_LIMIT" in x.cols ==>
      Cell(r, "TS").value >= 0.6 * x.cols["SPEED_LIMIT"]
      && (Cell(r, "TS").value == 20.0 || Cell(r, "TS").value == 0.6 * x.cols["SPEED_LIMIT"])
    ensures "SPEED_LIMIT" !in x.cols ==> Cell(r, "TS").value == 20.0
  {
    var pm := Times(Cell(x, "SPEED_LIMIT"), Some(0.6));
    var ts := if pm.Some? && pm.value > 20.0 then pm.value else 20.0;
    Put(Put(x, "posted_mult", pm), "TS", Some(ts))
  }

  /** A posted limit of 30 mph gives the 20 mph floor. */
  lemma ThirtyMphGivesFloor(x: Row)
    requires Cell(x, "SPEED_LIMIT") == Some(30.0)
    ensures Cell(ThresholdSpeedRow(x), "TS") == Some(20.0)
  {
  }

  lemma QuotientScale(m: real, ts: real, k: real)
    requires ts != 0.0
    ensures (m / ts) * k * ts == m * k
  {
    assert (m / ts) * ts == m;
  }

  /** `segment_delay` on one row: `SD`, the seconds a vehicle takes over the
      segment at threshold speed. */
  function SegmentDelayRow(x: Row): (r: Row)
    ensures r.tmc == x.tmc
    ensures forall c :: c != "SD" ==> Cell(r, c) == Cell(x, c)
    ensures r.cols.Keys <= x.cols.Keys + {"SD"}
    ensures Cell(r, "SD").Some? <==> "miles" in x.cols && "TS" in x.cols && x.cols["TS"] != 0.0
    ensures Cell(r, "SD").Some? ==> Cell(r, "SD").value * x.cols["TS"] == x.cols["miles"] * 3600.0
  {
    var sd := Times(Over(Cell(x, "miles"), Cell(x, "TS")), Some(3600.0));
    if sd.Some? then
      QuotientScale(x.cols["miles"], x.cols["TS"], 3600.0);
      Put(x, "SD", sd)
    else Put(x, "SD", sd)
  }

  lemma PositiveFactor(a: real, b: real)
    requires b > 0.0
    ensures a * b >= 0.0 ==> a >= 0.0
  {
    if a < 0.0 {
      assert a * b < 0.0;
    }
  }

  lemma ThresholdTimeBound(m: real, ts: real, sd: real)
    requires m >= 0.0 && ts >= 20.0 && sd * ts == m * 3600.0
    ensures 0.0 <= sd <= m * 180.0
  {
    PositiveFactor(sd, ts);
    assert (m * 180.0 - sd) * ts == m * 180.0 * (ts - 20.0);
    PositiveFactor(m * 180.0 - sd, ts);
  }

  /** With the threshold speed in place, a segment's threshold time is
      never more than its time at the 20 mph floor. */
  lemma SegmentDelayAtMostFloorTime(x: Row)
    requires "miles" in x.cols && x.cols["miles"] >= 0.0
    ensures Cell(SegmentDelayRow(ThresholdSpeedRow(x)), "SD").Some?
    ensures 0.0 <= Cell(SegmentDelayRow(ThresholdSpeedRow(x)), "SD").value <= x.cols["miles"] * 180.0
  {
    var y := ThresholdSpeedRow(x);
    assert Cell(y, "miles") == Cell(x, "miles");
    var sd := Cell(SegmentDelayRow(y), "SD");
    ThresholdTimeBound(x.cols["miles"], y.cols["TS"], sd.value);
  }

  /** `RSD` on one row: the travel time beyond the threshold time, clamped at
      zero. A missing operand gives 0 too, because NaN fails the `>= 0` test. */
  function RsdRow(x: Row): (r: Row)
    ensures r.tmc == x.tmc
    ensures forall c :: c != "RSD" ==> Cell(r, c) == Cell(x, c)
    ensures r.cols.Keys <= x.cols.Keys + {"RSD"}
    ensures Cell(r, "RSD").Some? && Cell(r, "RSD").value >= 0.0
    ensures Cell(r, "RSD").value > 0.0 ==>
      "travel_time_seconds" in x.cols && "SD" in x.cols
      && Cell(r, "RSD").value == x.cols["travel_time_seconds"] - x.cols["SD"]
    ensures "travel_time_seconds" in x.cols && "SD" in x.cols ==>
      (Cell(r, "RSD").value == 0.0 <==> x.cols["travel_time_seconds"] <= x.cols["SD"])
  {
    var d := Minus(Cell(x, "travel_time_seconds"), Cell(x, "SD"));
    Put(x, "RSD", Some(if d.Some? && d.value >= 0.0 then d.value else 0.0))
  }

  /** `excessive_delay` on one row: `ED`, the residual delay in hours, clamped
      at zero; a missing `RSD` gives 0. */
  function ExcessiveDelayRow(x: Row): (r: Row)
    ensures r.tmc == x.tmc
    ensures forall c :: c != "ED" ==> Cell(r, c) == Cell(x, c)
    ensures r.cols.Keys <= x.cols.Keys + {"ED"}
    ensures Cell(r, "ED").Some? && Cell(r, "ED").value >= 0.0
    ensures "RSD" in x.cols && x.cols["RSD"] >= 0.0 ==> Cell(r, "ED").value * 3600.0 == x.cols["RSD"]
    ensures "RSD" !in x.cols || x.cols["RSD"] < 0.0 ==> Cell(r, "ED").value == 0.0
  {
    var e := Over(Cell(x, "RSD"), Some(3600.0));
    Put(x, "ED", Some(if e.Some? && e.value >= 0.0 then e.value else 0.0))
  }

  /** The AADT columns every PHED script writes, given the directional AADT:
      auto AADT as the remainder after single-unit and combination trucks, and
      the share of each vehicle class. */
  function SplitsGiven(x: Row, dir: Option<real>): (r: Row)
    ensures r.tmc == x.tmc
    ensures forall c :: c !in {"dir_aadt", "aadt_auto", "pct_auto", "pct_bus", "pct_truck"} ==> Cell(r, c) == Cell(x, c)
    ensures r.cols.Keys <= x.cols.Keys + {"dir_aadt", "aadt_auto", "pct_auto", "pct_bus", "pct_truck"}
    ensures Cell(r, "dir_aadt") == dir
    ensures Cell(r, "aadt_auto") == Minus(dir, Plus(Cell(x, "aadt_singl"), Cell(x, "aadt_combi")))
    ensures Cell(r, "pct_auto") == Over(Cell(r, "aadt_auto"), dir)
    ensures Cell(r, "pct_bus") == Over(Cell(x, "aadt_singl"), dir)
    ensures Cell(r, "pct_truck") == Over(Cell(x, "aadt_combi"), dir)
  {
    var x1 := Put(x, "dir_aadt", dir);
    var x2 := Put(x1, "aadt_auto", Minus(Cell(x1, "dir_aadt"), Plus(Cell(x1, "aadt_singl"), Cell(x1, "aadt_combi"))));
    var x3 := Put(x2, "pct_auto", Over(Cell(x2, "aadt_auto"), Cell(x2, "dir_aadt")));
    var x4 := Put(x3, "pct_bus", Over(Cell(x3, "aadt_singl"), Cell(x3, "dir_aadt")));
    Put(x4, "pct_truck", Over(Cell(x4, "aadt_combi"), Cell(x4, "dir_aadt")))
  }

  lemma ThreeShares(d: real, s: real, c: real)
    requires d != 0.0
    ensures (d - (s + c)) / d + s / d + c / d == 1.0
  {
    assert (d - (s + c)) / d + s / d + c / d == d / d;
  }

  /** The auto, bus and truck shares of a nonzero directional AADT add up to one. */
  lemma SharesSumToOne(x: Row, d: real)
    requires "aadt_singl" in x.cols && "aadt_combi" in x.cols && d != 0.0
    ensures Cell(SplitsGiven(x, Some(d)), "pct_auto").Some?
    ensures Cell(SplitsGiven(x, Some(d)), "pct_bus").Some?
    ensures Cell(SplitsGiven(x, Some(d)), "pct_truck").Some?
    ensures Cell(SplitsGiven(x, Some(d)), "pct_auto").value + Cell(SplitsGiven(x, Some(d)), "pct_bus").value
      + Cell(SplitsGiven(x, Some(d)), "pct_truck").value == 1.0
  {
    var s, c := x.cols["aadt_singl"], x.cols["aadt_combi"];
    var x1 := Put(x, "dir_aadt", Some(d));
    assert Cell(x1, "aadt_singl") == Some(s) && Cell(x1, "aadt_combi") == Some(c);
    var x2 := Put(x1, "aadt_auto", Minus(Cell(x1, "dir_aadt"), Plus(Cell(x1, "aadt_singl"), Cell(x1, "aadt_combi"))));
    assert Cell(x2, "aadt_auto") == Some(d - (s + c));
    ThreeShares(d, s, c);
  }

  /** `AADT_splits` on one row, with the directional AADT left unrounded. */
  function AadtSplitsRow(x: Row): (r: Row)
    ensures r.tmc == x.tmc
    ensures forall c :: c !in {"dir_aadt", "aadt_auto", "pct_auto", "pct_bus", "pct_truck"} ==> Cell(r, c) == Cell(x, c)
    ensures r.cols.Keys <= x.cols.Keys + {"dir_aadt", "aadt_auto", "pct_auto", "pct_bus", "pct_truck"}
    ensures Cell(r, "dir_aadt") == Over(Cell(x, "aadt"), Cell(x, "faciltype"))
    ensures Cell(r, "aadt_auto") == Minus(Cell(r, "dir_aadt"), Plus(Cell(x, "aadt_singl"), Cell(x, "aadt_combi")))
    ensures Cell(r, "pct_auto") == Over(Cell(r, "aadt_auto"), Cell(r, "dir_aadt"))
    ensures Cell(r, "pct_bus") == Over(Cell(x, "aadt_singl"), Cell(r, "dir_aadt"))
    ensures Cell(r, "pct_truck") == Over(Cell(x, "aadt_combi"), Cell(r, "dir_aadt"))
  {
    SplitsGiven(x, Over(Cell(x, "aadt"), Cell(x, "faciltype")))
  }

  /** The directional AADT is the AADT shared out over the facility's
      directions, exactly, whenever the facility type is present and nonzero. */
  lemma DirAadtUnrounded(x: Row)
    ensures Cell(AadtSplitsRow(x), "dir_aadt").Some? <==> "aadt" in x.cols && "faciltype" in x.cols && x.cols["faciltype"] != 0.0
    ensures Cell(AadtSplitsRow(x), "dir_aadt").Some? ==>
      Cell(AadtSplitsRow(x), "dir_aadt").value * x.cols["faciltype"] == x.cols["aadt"]
  {
    var dir := Cell(AadtSplitsRow(x), "dir_aadt");
    if dir.Some? {
      assert dir.value == x.cols["aadt"] / x.cols["faciltype"];
    }
  }

  /** Here the three shares of a TMC with nonzero AADT add up to exactly one. */
  lemma AadtSharesSumToOne(x: Row)
    requires {"aadt", "faciltype", "aadt_singl", "aadt_combi"} <= x.cols.Keys
    requires x.cols["faciltype"] != 0.0 && x.cols["aadt"] != 0.0
    ensures Cell(AadtSplitsRow(x), "pct_auto").Some?
    ensures Cell(AadtSplitsRow(x), "pct_bus").Some?
    ensures Cell(AadtSplitsRow(x), "pct_truck").Some?
    ensures Cell(AadtSplitsRow(x), "pct_auto").value + Cell(AadtSplitsRow(x), "pct_bus").value
      + Cell(AadtSplitsRow(x), "pct_truck").value == 1.0
  {
    var d := x.cols["aadt"] / x.cols["faciltype"];
    assert d != 0.0;
    SharesSumToOne(x, d);
  }

  const PeakFactor: string := "2015_15-min_Combined"

  /** `peak_hr` on one row: `PK_HR`, the directional AADT scaled by the hour's peaking factor. */
  function PeakHrRow(x: Row): (r: Row)
    ensures r.tmc == x.tmc
    ensures forall c :: c != "PK_HR" ==> Cell(r, c) == Cell(x, c)
    ensures r.cols.Keys <= x.cols.Keys + {"PK_HR"}
    ensures Cell(r, "PK_HR").Some? <==> "dir_aadt" in x.cols && PeakFactor in x.cols
    ensures Cell(r, "PK_HR").Some? ==> Cell(r, "PK_HR").value == x.cols["dir_aadt"] * x.cols[PeakFactor]
    ensures Cell(r, "PK_HR").Some? && x.cols["dir_aadt"] >= 0.0 && x.cols[PeakFactor] >= 0.0 ==>
      Cell(r, "PK_HR").value >= 0.0
  {
    Put(x, "PK_HR", Times(Cell(x, "dir_aadt"), Cell(x, PeakFactor)))
  }

  /** The first line of `total_excessive_delay`: `TED_seg`, the delay in hours
      times the peak hour volume. */
  function TedSegRow(x: Row): (r: Row)
    ensures r.tmc == x.tmc
    ensures forall c :: c != "TED_seg" ==> Cell(r, c) == Cell(x, c)
    ensures r.cols.Keys <= x.cols.Keys + {"TED_seg"}
    ensures Cell(r, "TED_seg").Some? <==> "ED" in x.cols && "PK_HR" in x.cols
    ensures Cell(r, "TED_seg").Some? ==> Cell(r, "TED_seg").value == x.cols["ED"] * x.cols["PK_HR"]
    ensures Cell(r, "TED_seg").Some? && x.cols["ED"] >= 0.0 && x.cols["PK_HR"] >= 0.0 ==>
      Cell(r, "TED_seg").value >= 0.0
  {
    Put(x, "TED_seg", Times(Cell(x, "ED"), Cell(x, "PK_HR")))
  }

  const Shares: set<string> := {"pct_auto", "pct_bus", "pct_truck"}
  const TedColumns: set<string> := {"TED_seg", "pct_auto", "pct_bus", "pct_truck"}

  /** The row of TMC k that the groupby of `total_excessive_delay` builds: the
      sum of `TED_seg` over its rows and the maximum of each share. */
  function TedGroupRow(t: seq<Row>, k: string): (r: Row)
    ensures r.tmc == k
    ensures r.cols.Keys <= TedColumns
    ensures Cell(r, "TED_seg") == Some(GroupSum(t, k, "TED_seg"))
    ensures Cell(r, "pct_auto") == GroupMax(t, k, "pct_auto")
    ensures Cell(r, "pct_bus") == GroupMax(t, k, "pct_bus")
    ensures Cell(r, "pct_truck") == GroupMax(t, k, "pct_truck")
  {
    var auto, bus, truck := GroupMax(t, k, "pct_auto"), GroupMax(t, k, "pct_bus"), GroupMax(t, k, "pct_truck");
    var m0 := map["TED_seg" := GroupSum(t, k, "TED_seg")];
    var m1 := if auto.Some? then m0["pct_auto" := auto.value] else m0;
    var m2 := if bus.Some? then m1["pct_bus" := bus.value] else m1;
    var m3 := if truck.Some? then m2["pct_truck" := truck.value] else m2;
    Row(k, m3)
  }

  /** The groupby rows for the keys ks, in that order. */
  function TedGroups(t: seq<Row>, ks: seq<string>): (r: seq<Row>)
    ensures RowTmcs(r) == ks
    ensures forall i :: 0 <= i < |r| ==> r[i] == TedGroupRow(t, ks[i])
  {
    seq(|ks|, i requires 0 <= i < |ks| => TedGroupRow(t, ks[i]))
  }

  /** `groupby('tmc_code', as_index=False).agg(ted_operations)`: one row per
      TMC, holding only the summed delay and the maximal shares. */
  function GroupTed(t: seq<Row>): (r: seq<Row>)
    ensures RowTmcs(r) == Distinct(RowTmcs(t))
    ensures forall i :: 0 <= i < |r| ==> r[i] == TedGroupRow(t, r[i].tmc)
  {
    TedGroups(t, Distinct(RowTmcs(t)))
  }

  lemma {:induction false} TedGroupsSum(t: seq<Row>, ks: seq<string>)
    ensures SumColumn(TedGroups(t, ks), "TED_seg") == SumOfGroups(t, ks, "TED_seg")
  {
    if ks != [] {
      var g := TedGroups(t, ks);
      assert g[1..] == TedGroups(t, ks[1..]);
      assert "TED_seg" in g[0].cols && g[0].cols["TED_seg"] == GroupSum(t, ks[0], "TED_seg");
      TedGroupsSum(t, ks[1..]);
    }
  }

  /** Grouping moves delay between rows but neither loses nor duplicates any:
      the grouped `TED_seg` column sums to the ungrouped one. */
  lemma GroupTedConservesDelay(t: seq<Row>)
    ensures SumColumn(GroupTed(t), "TED_seg") == SumColumn(t, "TED_seg")
  {
    var ks := Distinct(RowTmcs(t));
    TedGroupsSum(t, ks);
    assert forall i :: 0 <= i < |t| ==> t[i].tmc in ks by {
      forall i | 0 <= i < |t| ensures t[i].tmc in ks {
        assert RowTmcs(t)[i] == t[i].tmc;
      }
    }
    GroupSumsConserve(t, ks, "TED_seg");
  }

  /** Non-negative row delays give non-negative per-TMC delays. */
  lemma GroupTedNonNegative(t: seq<Row>, i: int)
    requires NonNegativeColumn(t, "TED_seg")
    requires 0 <= i < |GroupTed(t)|
    ensures Cell(GroupTed(t)[i], "TED_seg").Some? && Cell(GroupTed(t)[i], "TED_seg").value >= 0.0
  {
    var k := GroupTed(t)[i].tmc;
    GroupSumNonNegative(t, k, "TED_seg");
  }

  /** A share that is the same on every row of a TMC (it comes from the TMC's
      metadata) passes through the `max` unchanged. */
  lemma SharePassesThrough(t: seq<Row>, k: string, c: string, v: real)
    requires c in Shares && k in RowTmcs(t)
    requires forall i :: 0 <= i < |t| && t[i].tmc == k ==> Cell(t[i], c) == Some(v)
    ensures Cell(TedGroupRow(t, k), c) == Some(v)
  {
    var j :| 0 <= j < |t| && t[j].tmc == k;
    assert Cell(t[j], c).Some?;
  }

  const AutoOccupancy: real := 1.4
  const BusOccupancy: real := 12.6
  const TruckOccupancy: real := 1.0

  /** Persons per vehicle for a traffic mix with the given class shares. */
  function Occupancy(pa: real, pb: real, pt: real): real
  {
    AutoOccupancy * pa + BusOccupancy * pb + TruckOccupancy * pt
  }

  /** A mix of autos, buses and trucks carries between 1 and 12.6 persons per vehicle. */
  lemma OccupancyBetween(pa: real, pb: real, pt: real)
    requires pa >= 0.0 && pb >= 0.0 && pt >= 0.0 && pa + pb + pt == 1.0
    ensures TruckOccupancy <= Occupancy(pa, pb, pt) <= BusOccupancy
  {
  }

  /** `TED_summation` on one row: the occupancy of each vehicle class and `TED`,
      the vehicle delay turned into person delay. */
  function TedSummationRow(x: Row): (r: Row)
    ensures r.tmc == x.tmc
    ensures forall c :: c !in {"AVOc", "AVOb", "AVOt", "TED"} ==> Cell(r, c) == Cell(x, c)
    ensures r.cols.Keys <= x.cols.Keys + {"AVOc", "AVOb", "AVOt", "TED"}
    ensures Cell(r, "TED").Some? <==> TedColumns <= x.cols.Keys
    ensures Cell(r, "TED").Some? ==>
      Cell(r, "TED").value == x.cols["TED_seg"] * Occupancy(x.cols["pct_auto"], x.cols["pct_bus"], x.cols["pct_truck"])
  {
    var avoC := Times(Cell(x, "pct_auto"), Some(AutoOccupancy));
    var avoB := Times(Cell(x, "pct_bus"), Some(BusOccupancy));
    var avoT := Times(Cell(x, "pct_truck"), Some(TruckOccupancy));
    var ted := Times(Cell(x, "TED_seg"), Plus(Plus(avoC, avoB), avoT));
    assert ted.Some? <==> TedColumns <= x.cols.Keys;
    PutFour(x, "AVOc", avoC, "AVOb", avoB, "AVOt", avoT, "TED", ted)
  }

  /** Four column assignments in a row. */
  function PutFour(x: Row, a: string, va: Option<real>, b: string, vb: Option<real>,
                   c: string, vc: Option<real>, d: string, vd: Option<real>): (r: Row)
    requires d !in {a, b, c}
    ensures r.tmc == x.tmc
    ensures forall e :: e !in {a, b, c, d} ==> Cell(r, e) == Cell(x, e)
    ensures r.cols.Keys <= x.cols.Keys + {a, b, c, d}
    ensures Cell(r, d) == vd
  {
    Put(Put(Put(Put(x, a, va), b, vb), c, vc), d, vd)
  }

  lemma ScaleBetween(d: real, o: real, lo: real, hi: real)
    requires d >= 0.0 && lo <= o <= hi
    ensures d * lo <= d * o <= d * hi
  {
  }

  /** With shares that form a mix, the person delay of a TMC lies between its
      vehicle delay and 12.6 times it. */
  lemma TedBetween(x: Row)
    requires TedColumns <= x.cols.Keys && x.cols["TED_seg"] >= 0.0
    requires x.cols["pct_auto"] >= 0.0 && x.cols["pct_bus"] >= 0.0 && x.cols["pct_truck"] >= 0.0
    requires x.cols["pct_auto"] + x.cols["pct_bus"] + x.cols["pct_truck"] == 1.0
    ensures Cell(TedSummationRow(x), "TED").Some?
    ensures x.cols["TED_seg"] <= Cell(TedSummationRow(x), "TED").value <= BusOccupancy * x.cols["TED_seg"]
  {
    var o := Occupancy(x.cols["pct_auto"], x.cols["pct_bus"], x.cols["pct_truck"]);
    OccupancyBetween(x.cols["pct_auto"], x.cols["pct_bus"], x.cols["pct_truck"]);
    ScaleBetween(x.cols["TED_seg"], o, 1.0, BusOccupancy);
  }

  const Population: real := 1577456.0

  /** `per_capita_TED`: the yearly delay shared out over the region's population. */
  function PerCapitaTed(sum: real): (r: real)
    ensures r * Population == sum
    ensures sum >= 0.0 ==> r >= 0.0
  {
    sum / Population
  }

  /** The figure `main` reports: per-capita delay over the `TED` column, to two decimals. */
  function PhedResult(t: seq<Row>): (r: real)
    ensures IsWhole(r * 100.0)
    ensures SumColumn(t, "TED") / Population * 100.0 - 0.5 <= r * 100.0 <= SumColumn(t, "TED") / Population * 100.0 + 0.5
    ensures (r * 100.0 - SumColumn(t, "TED") / Population * 100.0 == 0.5
             || SumColumn(t, "TED") / Population * 100.0 - r * 100.0 == 0.5) ==> IsWhole(r * 50.0)
    ensures NonNegativeColumn(t, "TED") ==> r >= 0.0
  {
    var s := SumColumn(t, "TED");
    assert NonNegativeColumn(t, "TED") ==> s >= 0.0 by {
      if NonNegativeColumn(t, "TED") {
        SumColumnNonNegative(t, "TED");
      }
    }
    RoundToHundredths(PerCapitaTed(s));
    RoundTo(PerCapitaTed(s), 2)
  }

  /** A record that makes its trip within the threshold time has no excess delay. */
  lemma NoDelayWithinThreshold(x: Row)
    requires "travel_time_seconds" in x.cols && "SD" in x.cols
    requires x.cols["travel_time_seconds"] <= x.cols["SD"]
    ensures Cell(ExcessiveDelayRow(RsdRow(x)), "ED") == Some(0.0)
  {
    assert Cell(RsdRow(x), "RSD") == Some(0.0);
  }

  /** A record slower than its threshold time is delayed by exactly the
      difference, in hours. */
  lemma DelayBeyondThreshold(x: Row)
    requires "travel_time_seconds" in x.cols && "SD" in x.cols
    requires x.cols["travel_time_seconds"] > x.cols["SD"]
    ensures Cell(ExcessiveDelayRow(RsdRow(x)), "ED").Some?
    ensures Cell(ExcessiveDelayRow(RsdRow(x)), "ED").value * 3600.0 == x.cols["travel_time_seconds"] - x.cols["SD"]
  {
    assert Cell(RsdRow(x), "RSD") == Some(x.cols["travel_time_seconds"] - x.cols["SD"]);
  }

  /** The formula columns `main` writes into the joined records, step by step, up to `TED_seg`. */
  function Calculated(t: seq<Row>): seq<Row>
  {
    var t1 := MapRows(t, ThresholdSpeedRow);
    var t2 := MapRows(t1, AadtSplitsRow);
    var t3 := MapRows(t2, SegmentDelayRow);
    var t4 := MapRows(t3, RsdRow);
    var t5 := MapRows(t4, ExcessiveDelayRow);
    var t6 := MapRows(t5, PeakHrRow);
    MapRows(t6, TedSegRow)
  }

  method ThresholdSpeed(df: Frame)
    modifies df
    ensures df.rows == MapRows(old(df.rows), ThresholdSpeedRow)
  {
    df.rows := MapRows(df.rows, ThresholdSpeedRow);
  }

  method AadtSplits(df: Frame)
    modifies df
    ensures df.rows == MapRows(old(df.rows), AadtSplitsRow)
  {
    df.rows := MapRows(df.rows, AadtSplitsRow);
  }

  method SegmentDelay(df: Frame)
    modifies df
    ensures df.rows == MapRows(old(df.rows), SegmentDelayRow)
  {
    df.rows := MapRows(df.rows, SegmentDelayRow);
  }

  method Rsd(df: Frame)
    modifies df
    ensures df.rows == MapRows(old(df.rows), RsdRow)
  {
    df.rows := MapRows(df.rows, RsdRow);
  }

  method ExcessiveDelay(df: Frame)
    modifies df
    ensures df.rows == MapRows(old(df.rows), ExcessiveDelayRow)
  {
    df.rows := MapRows(df.rows, ExcessiveDelayRow);
  }

  method PeakHr(df: Frame)
    modifies df
    ensures df.rows == MapRows(old(df.rows), PeakHrRow)
  {
    df.rows := MapRows(df.rows, PeakHrRow);
  }

  /** `total_excessive_delay(df)`: writes `TED_seg` into the caller's frame and
      returns a new frame grouped by TMC. */
  method TotalExcessiveDelay(df: Frame) returns (grouped: Frame)
    modifies df
    ensures df.rows == MapRows(old(df.rows), TedSegRow)
    ensures fresh(grouped) && grouped.rows == GroupTed(df.rows)
  {
    df.rows := MapRows(df.rows, TedSegRow);
    grouped := new Frame(GroupTed(df.rows));
  }

  method TedSummation(df: Frame)
    modifies df
    ensures df.rows == MapRows(old(df.rows), TedSummationRow)
  {
    df.rows := MapRows(df.rows, TedSummationRow);
  }

  /** The calculation steps of `main` on the filtered and joined records: the
      caller's frame receives every formula column up to `TED_seg`, and the
      result is the per-capita delay of the grouped table. */
  method CalculatePhed(df: Frame) returns (result: real)
    modifies df
    ensures df.rows == Calculated(old(df.rows))
    ensures result == PhedResult(MapRows(GroupTed(df.rows), TedSummationRow))
  {
    ThresholdSpeed(df);
    AadtSplits(df);
    SegmentDelay(df);
    Rsd(df);
    ExcessiveDelay(df);
    PeakHr(df);
    var grouped := TotalExcessiveDelay(df);
    TedSummation(grouped);
    result := PhedResult(grouped.rows);
  }
}
