/** `phed_calc.py`: the earliest PHED calculation, following ODOT's
    spreadsheet. Directional volumes by vehicle class are given per record,
    the threshold travel time `2017_EDT` is given too, intermediate values are
    rounded as the spreadsheet rounds them, and a bus carries 10 persons. */
module PhedCalc {
  import opened Wrappers
  import opened Rounding
  import opened Frames
  import P = PhedCalcPd
  import PhedPlusPlus

  const Weekdays: set<int> := {0, 1, 2, 3, 4}
  const PeakHours: set<int> := {6, 7, 8, 9, 16, 17, 18, 19}

  /** The two filters of `main`: weekday records, then the morning and evening peaks. */
  function PeakPeriod(t: seq<Record>): (r: seq<Record>)
    ensures forall x :: x in r <==> x in t && x.stamp.weekday in Weekdays && x.stamp.hour in PeakHours
  {
    Isin(Isin(t, Weekday, Weekdays), Hour, PeakHours)
  }

  /** `AADT_splits` on one row: each class's share of the summed directional volumes. */
  function AadtSplitsRow(x: Row): (r: Row)
    ensures r.tmc == x.tmc
    ensures forall c :: c !in {"TOTAL_AADT", "pct_auto", "pct_bus", "pct_truck"} ==> Cell(r, c) == Cell(x, c)
    ensures r.cols.Keys <= x.cols.Keys + {"TOTAL_AADT", "pct_auto", "pct_bus", "pct_truck"}
    ensures Cell(r, "TOTAL_AADT") == Plus(Plus(Cell(x, "DirAADT_AUTO"), Cell(x, "DirAADT_BUS")), Cell(x, "DirAADT_TRK"))
    ensures Cell(r, "pct_auto") == Over(Cell(x, "DirAADT_AUTO"), Cell(r, "TOTAL_AADT"))
    ensures Cell(r, "pct_bus") == Over(Cell(x, "DirAADT_BUS"), Cell(r, "TOTAL_AADT"))
    ensures Cell(r, "pct_truck") == Over(Cell(x, "DirAADT_TRK"), Cell(r, "TOTAL_AADT"))
  {
    var total := Plus(Plus(Cell(x, "DirAADT_AUTO"), Cell(x, "DirAADT_BUS")), Cell(x, "DirAADT_TRK"));
    var x1 := Put(x, "TOTAL_AADT", total);
    var x2 := Put(x1, "pct_auto", Over(Cell(x1, "DirAADT_AUTO"), Cell(x1, "TOTAL_AADT")));
    var x3 := Put(x2, "pct_bus", Over(Cell(x2, "DirAADT_BUS"), Cell(x2, "TOTAL_AADT")));
    Put(x3, "pct_truck", Over(Cell(x3, "DirAADT_TRK"), Cell(x3, "TOTAL_AADT")))
  }

  lemma ShareOfTotal(a: real, b: real, c: real)
    requires a >= 0.0 && b >= 0.0 && c >= 0.0 && a + b + c > 0.0
    ensures 0.0 <= a / (a + b + c) <= 1.0
    ensures a / (a + b + c) + b / (a + b + c) + c / (a + b + c) == 1.0
  {
    var s := a + b + c;
    assert a / s + b / s + c / s == s / s;
    assert a / s <= s / s;
  }

  /** With non-negative volumes and some traffic, each share lies in [0, 1]
      and the three add up to one. */
  lemma SharesFormMix(x: Row)
    requires {"DirAADT_AUTO", "DirAADT_BUS", "DirAADT_TRK"} <= x.cols.Keys
    requires x.cols["DirAADT_AUTO"] >= 0.0 && x.cols["DirAADT_BUS"] >= 0.0 && x.cols["DirAADT_TRK"] >= 0.0
    requires x.cols["DirAADT_AUTO"] + x.cols["DirAADT_BUS"] + x.cols["DirAADT_TRK"] > 0.0
    ensures Cell(AadtSplitsRow(x), "pct_auto").Some?
    ensures Cell(AadtSplitsRow(x), "pct_bus").Some?
    ensures Cell(AadtSplitsRow(x), "pct_truck").Some?
    ensures 0.0 <= Cell(AadtSplitsRow(x), "pct_auto").value <= 1.0
    ensures 0.0 <= Cell(AadtSplitsRow(x), "pct_bus").value <= 1.0
    ensures 0.0 <= Cell(AadtSplitsRow(x), "pct_truck").value <= 1.0
    ensures Cell(AadtSplitsRow(x), "pct_auto").value + Cell(AadtSplitsRow(x), "pct_bus").value
      + Cell(AadtSplitsRow(x), "pct_truck").value == 1.0
  {
    var a, b, c := x.cols["DirAADT_AUTO"], x.cols["DirAADT_BUS"], x.cols["DirAADT_TRK"];
    var s := a + b + c;
    var x1 := Put(x, "TOTAL_AADT", Some(s));
    assert Cell(x1, "DirAADT_AUTO") == Some(a) && Cell(x1, "DirAADT_BUS") == Some(b) && Cell(x1, "DirAADT_TRK") == Some(c);
    ShareOfTotal(a, b, c);
    ShareOfTotal(b, c, a);
    ShareOfTotal(c, a, b);
  }

  /** `segment_delay` on one row: `SD` is the travel time rounded to whole seconds. */
  function SegmentDelayRow(x: Row): (r: Row)
    ensures r.tmc == x.tmc
    ensures forall c :: c != "SD" ==> Cell(r, c) == Cell(x, c)
    ensures r.cols.Keys <= x.cols.Keys + {"SD"}
    ensures Cell(r, "SD").Some? <==> "travel_time_seconds" in x.cols
    ensures Cell(r, "SD").Some? ==>
      IsWhole(Cell(r, "SD").value)
      && x.cols["travel_time_seconds"] - 0.5 <= Cell(r, "SD").value <= x.cols["travel_time_seconds"] + 0.5
    ensures Cell(r, "SD").Some? ==>
      var t := x.cols["travel_time_seconds"];
      (Cell(r, "SD").value - t == 0.5 || t - Cell(r, "SD").value == 0.5) ==> IsWhole(Cell(r, "SD").value / 2.0)
  {
    Put(x, "SD", RoundCell(Cell(x, "travel_time_seconds")))
  }

  /** `RSD` on one row: the rounded travel time beyond the threshold time
      `2017_EDT`, clamped at zero; a missing operand gives 0. */
  function RsdRow(x: Row): (r: Row)
    ensures r.tmc == x.tmc
    ensures forall c :: c != "RSD" ==> Cell(r, c) == Cell(x, c)
    ensures r.cols.Keys <= x.cols.Keys + {"RSD"}
    ensures Cell(r, "RSD").Some? && Cell(r, "RSD").value >= 0.0
    ensures Cell(r, "RSD").value > 0.0 ==>
      "SD" in x.cols && "2017_EDT" in x.cols && Cell(r, "RSD").value == x.cols["SD"] - x.cols["2017_EDT"]
    ensures "SD" in x.cols && "2017_EDT" in x.cols ==>
      (Cell(r, "RSD").value == 0.0 <==> x.cols["SD"] <= x.cols["2017_EDT"])
  {
    var d := Minus(Cell(x, "SD"), Cell(x, "2017_EDT"));
    Put(x, "RSD", Some(if d.Some? && d.value >= 0.0 then d.value else 0.0))
  }

  /** `peak_hr` on one row: a quarter of the auto volume, rounded to a whole number. */
  function PeakHrRow(x: Row): (r: Row)
    ensures r.tmc == x.tmc
    ensures forall c :: c != "PK_HR" ==> Cell(r, c) == Cell(x, c)
    ensures r.cols.Keys <= x.cols.Keys + {"PK_HR"}
    ensures Cell(r, "PK_HR").Some? <==> "DirAADT_AUTO" in x.cols
    ensures Cell(r, "PK_HR").Some? ==>
      IsWhole(Cell(r, "PK_HR").value)
      && x.cols["DirAADT_AUTO"] - 2.0 <= 4.0 * Cell(r, "PK_HR").value <= x.cols["DirAADT_AUTO"] + 2.0
    ensures Cell(r, "PK_HR").Some? ==>
      var q := x.cols["DirAADT_AUTO"] / 4.0;
      (Cell(r, "PK_HR").value - q == 0.5 || q - Cell(r, "PK_HR").value == 0.5) ==> IsWhole(Cell(r, "PK_HR").value / 2.0)
  {
    Put(x, "PK_HR", RoundCell(Over(Cell(x, "DirAADT_AUTO"), Some(4.0))))
  }

  /** The first two lines of `total_excessive_delay`: `TED_seg` is the delay
      times the peak volume, rounded to hundredths and then to a whole number. */
  function TedSegRow(x: Row): (r: Row)
    ensures r.tmc == x.tmc
    ensures forall c :: c != "TED_seg" ==> Cell(r, c) == Cell(x, c)
    ensures r.cols.Keys <= x.cols.Keys + {"TED_seg"}
    ensures Cell(r, "TED_seg").Some? <==> "ED" in x.cols && "PK_HR" in x.cols
    ensures Cell(r, "TED_seg").Some? ==> Cell(r, "TED_seg").value == Round(RoundTo(x.cols["ED"] * x.cols["PK_HR"], 2))
    ensures Cell(r, "TED_seg").Some? ==>
      IsWhole(Cell(r, "TED_seg").value)
      && x.cols["ED"] * x.cols["PK_HR"] - 0.505 <= Cell(r, "TED_seg").value <= x.cols["ED"] * x.cols["PK_HR"] + 0.505
  {
    if "ED" in x.cols && "PK_HR" in x.cols then
      var v := x.cols["ED"] * x.cols["PK_HR"];
      DoubleRoundingBound(v);
      Put(x, "TED_seg", Some(Round(RoundTo(v, 2))))
    else Put(x, "TED_seg", None)
  }

  /** Rounding to hundredths and then to units stays within 0.505 of the exact value. */
  lemma DoubleRoundingBound(v: real)
    ensures IsWhole(Round(RoundTo(v, 2)))
    ensures v - 0.505 <= Round(RoundTo(v, 2)) <= v + 0.505
  {
    var h := RoundTo(v, 2);
    RoundToHundredths(v);
    assert v * 100.0 - 0.5 <= h * 100.0 <= v * 100.0 + 0.5;
    assert v - 0.005 <= h <= v + 0.005;
  }

  /** Rounding twice is not rounding once: a product of 1.496 becomes 1.5 and then 2. */
  lemma DoubleRounding()
    ensures Round(RoundTo(1.496, 2)) == 2.0 && Round(1.496) == 1.0
  {
    Hundredfold(1.496);
    assert RoundHalfEven(149.6) == 150;
    assert Unscale(150.0, 2) == 1.5;
    assert RoundTo(1.496, 2) == 1.5;
    assert RoundHalfEven(1.5) == 2;
    assert RoundHalfEven(1.496) == 1;
  }

  ghost predicate WholeColumn(t: seq<Row>, c: string)
  {
    forall i :: 0 <= i < |t| ==> c in t[i].cols ==> IsWhole(t[i].cols[c])
  }

  lemma WholeSum(a: real, b: real)
    requires IsWhole(a) && IsWhole(b)
    ensures IsWhole(a + b)
  {
    assert a + b == (a.Floor + b.Floor) as real;
  }

  /** Whole numbers sum to a whole number, group by group. */
  lemma {:induction false} WholeGroupSum(t: seq<Row>, k: string, c: string)
    requires WholeColumn(t, c)
    ensures IsWhole(GroupSum(t, k, c))
  {
    if t == [] {
      assert IsWhole(0.0);
    } else {
      assert WholeColumn(t[1..], c) by {
        forall i | 0 <= i < |t[1..]| ensures c in t[1..][i].cols ==> IsWhole(t[1..][i].cols[c]) {
          assert t[1..][i] == t[i + 1];
        }
      }
      WholeGroupSum(t[1..], k, c);
      var head := if t[0].tmc == k then Contribution(t[0], c) else 0.0;
      assert IsWhole(head);
      WholeSum(head, GroupSum(t[1..], k, c));
    }
  }

  /** Every TMC's summed delay is a whole number of vehicle-hours. */
  lemma GroupedDelayWhole(t: seq<Row>, i: int)
    requires 0 <= i < |P.GroupTed(MapRows(t, TedSegRow))|
    ensures IsWhole(Cell(P.GroupTed(MapRows(t, TedSegRow))[i], "TED_seg").value)
  {
    var s := MapRows(t, TedSegRow);
    assert WholeColumn(s, "TED_seg") by {
      forall j | 0 <= j < |s| ensures "TED_seg" in s[j].cols ==> IsWhole(s[j].cols["TED_seg"]) {
        assert Cell(s[j], "TED_seg") == Cell(TedSegRow(t[j]), "TED_seg");
      }
    }
    WholeGroupSum(s, P.GroupTed(s)[i].tmc, "TED_seg");
  }

  const AutoOccupancy: real := 1.4
  const BusOccupancy: real := 10.0
  const TruckOccupancy: real := 1.0

  /** Persons per vehicle for a traffic mix, with 10 persons on a bus. */
  function Occupancy(pa: real, pb: real, pt: real): real
  {
    AutoOccupancy * pa + BusOccupancy * pb + TruckOccupancy * pt
  }

  /** `TED_summation` on one row: the occupancy of each class and `TED`, the
      person delay rounded to thousandths. */
  function TedSummationRow(x: Row): (r: Row)
    ensures r.tmc == x.tmc
    ensures forall c :: c !in {"AVOc", "AVOb", "AVOt", "TED"} ==> Cell(r, c) == Cell(x, c)
    ensures r.cols.Keys <= x.cols.Keys + {"AVOc", "AVOb", "AVOt", "TED"}
    ensures Cell(r, "TED").Some? <==> P.TedColumns <= x.cols.Keys
    ensures Cell(r, "TED").Some? ==>
      var exact := x.cols["TED_seg"] * Occupancy(x.cols["pct_auto"], x.cols["pct_bus"], x.cols["pct_truck"]);
      IsWhole(Cell(r, "TED").value * 1000.0)
      && exact * 1000.0 - 0.5 <= Cell(r, "TED").value * 1000.0 <= exact * 1000.0 + 0.5
      && (Cell(r, "TED").value * 1000.0 - exact * 1000.0 == 0.5 || exact * 1000.0 - Cell(r, "TED").value * 1000.0 == 0.5
          ==> IsWhole(Cell(r, "TED").value * 500.0))
    ensures Cell(r, "AVOc") == Times(Cell(x, "pct_auto"), Some(AutoOccupancy))
    ensures Cell(r, "AVOb") == Times(Cell(x, "pct_bus"), Some(BusOccupancy))
    ensures Cell(r, "AVOt") == Times(Cell(x, "pct_truck"), Some(TruckOccupancy))
  {
    var avoC := Times(Cell(x, "pct_auto"), Some(AutoOccupancy));
    var avoB := Times(Cell(x, "pct_bus"), Some(BusOccupancy));
    var avoT := Times(Cell(x, "pct_truck"), Some(TruckOccupancy));
    var ted := Times(Cell(x, "TED_seg"), Plus(Plus(avoC, avoB), avoT));
    assert ted.Some? <==> P.TedColumns <= x.cols.Keys;
    assert ted.Some? ==> (IsWhole(RoundTo(ted.value, 3) * 1000.0)
      && ted.value * 1000.0 - 0.5 <= RoundTo(ted.value, 3) * 1000.0 <= ted.value * 1000.0 + 0.5
      && (RoundTo(ted.value, 3) * 1000.0 - ted.value * 1000.0 == 0.5 || ted.value * 1000.0 - RoundTo(ted.value, 3) * 1000.0 == 0.5
          ==> IsWhole(RoundTo(ted.value, 3) * 500.0))) by {
      if ted.Some? { RoundToThousandths(ted.value); }
    }
    P.PutFour(x, "AVOc", avoC, "AVOb", avoB, "AVOt", avoT, "TED", if ted.Some? then Some(RoundTo(ted.value, 3)) else None)
  }

  method AadtSplits(df: Frame)
    modifies df
    ensures df.rows == MapRows(old(df.rows), AadtSplitsRow)
  {
    df.rows := MapRows(df.rows, AadtSplitsRow);
  }

  method SegmentDelay(df: Frame)
    modifies df
    ensures df.rows == MapRows(old(df.rows), SegmentDelayRow)
  {
    df.rows := MapRows(df.rows, SegmentDelayRow);
  }

  method Rsd(df: Frame)
    modifies df
    ensures df.rows == MapRows(old(df.rows), RsdRow)
  {
    df.rows := MapRows(df.rows, RsdRow);
  }

  /** `excessive_delay` rounds `ED` to thousandths and clamps it, exactly as `phed_plus_plus.py` does. */
  method ExcessiveDelay(df: Frame)
    modifies df
    ensures df.rows == MapRows(old(df.rows), PhedPlusPlus.ExcessiveDelayRow)
  {
    df.rows := MapRows(df.rows, PhedPlusPlus.ExcessiveDelayRow);
  }

  method PeakHr(df: Frame)
    modifies df
    ensures df.rows == MapRows(old(df.rows), PeakHrRow)
  {
    df.rows := MapRows(df.rows, PeakHrRow);
  }

  /** `total_excessive_delay(df)`: writes the rounded `TED_seg` into the
      caller's frame and returns a new frame grouped by TMC. */
  method TotalExcessiveDelay(df: Frame) returns (grouped: Frame)
    modifies df
    ensures df.rows == MapRows(old(df.rows), TedSegRow)
    ensures fresh(grouped) && grouped.rows == P.GroupTed(df.rows)
  {
    df.rows := MapRows(df.rows, TedSegRow);
    grouped := new Frame(P.GroupTed(df.rows));
  }

  method TedSummation(df: Frame)
    modifies df
    ensures df.rows == MapRows(old(df.rows), TedSummationRow)
  {
    df.rows := MapRows(df.rows, TedSummationRow);
  }
}
