/** `phed_plus_plus.py`: the PHED calculation written as a class. A `Phed`
    object owns one table; each method reads columns earlier methods wrote and
    adds its own, and `main` calls them in a fixed order. The formulas are
    those of `phed_calc_pd0.23.4.py` except that the directional AADT is
    rounded to a whole number and the excessive delay to three decimals. */
module PhedPlusPlus {
  import opened Wrappers
  import opened Rounding
  import opened Frames
  import P = PhedCalcPd
  import opened Reductions

  /** `AADT_splits` here: the directional AADT is rounded half to even before
      the class shares are taken. */
  function AadtSplitsRow(x: Row): (r: Row)
    ensures r.tmc == x.tmc
    ensures forall c :: c !in {"dir_aadt", "aadt_auto", "pct_auto", "pct_bus", "pct_truck"} ==> Cell(r, c) == Cell(x, c)
    ensures r.cols.Keys <= x.cols.Keys + {"dir_aadt", "aadt_auto", "pct_auto", "pct_bus", "pct_truck"}
    ensures Cell(r, "dir_aadt").Some? <==> "aadt" in x.cols && "faciltype" in x.cols && x.cols["faciltype"] != 0.0
    ensures Cell(r, "dir_aadt").Some? ==>
      IsWhole(Cell(r, "dir_aadt").value)
      && x.cols["aadt"] / x.cols["faciltype"] - 0.5 <= Cell(r, "dir_aadt").value <= x.cols["aadt"] / x.cols["faciltype"] + 0.5
    ensures Cell(r, "dir_aadt").Some? ==>
      (Cell(r, "dir_aadt").value - x.cols["aadt"] / x.cols["faciltype"] == 0.5
       || x.cols["aadt"] / x.cols["faciltype"] - Cell(r, "dir_aadt").value == 0.5) ==> IsWhole(Cell(r, "dir_aadt").value / 2.0)
    ensures Cell(r, "aadt_auto") == Minus(Cell(r, "dir_aadt"), Plus(Cell(x, "aadt_singl"), Cell(x, "aadt_combi")))
    ensures Cell(r, "pct_auto") == Over(Cell(r, "aadt_auto"), Cell(r, "dir_aadt"))
    ensures Cell(r, "pct_bus") == Over(Cell(x, "aadt_singl"), Cell(r, "dir_aadt"))
    ensures Cell(r, "pct_truck") == Over(Cell(x, "aadt_combi"), Cell(r, "dir_aadt"))
  {
    var dir := if "aadt" in x.cols && "faciltype" in x.cols && x.cols["faciltype"] != 0.0 then Some(DirAadt(x)) else None;
    assert dir == RoundCell(Over(Cell(x, "aadt"), Cell(x, "faciltype")));
    P.SplitsGiven(x, dir)
  }

  /** The three shares still add up to one when the rounded directional AADT is not zero. */
  lemma AadtSharesSumToOne(x: Row)
    requires {"aadt", "faciltype", "aadt_singl", "aadt_combi"} <= x.cols.Keys
    requires x.cols["faciltype"] != 0.0 && Round(x.cols["aadt"] / x.cols["faciltype"]) != 0.0
    ensures Cell(AadtSplitsRow(x), "pct_auto").Some?
    ensures Cell(AadtSplitsRow(x), "pct_bus").Some?
    ensures Cell(AadtSplitsRow(x), "pct_truck").Some?
    ensures Cell(AadtSplitsRow(x), "pct_auto").value + Cell(AadtSplitsRow(x), "pct_bus").value
      + Cell(AadtSplitsRow(x), "pct_truck").value == 1.0
  {
    P.SharesSumToOne(x, Round(x.cols["aadt"] / x.cols["faciltype"]));
  }

  /** `excessive_delay` here: `ED` is the residual delay in hours rounded to
      three decimals, then clamped at zero; a missing or negative `RSD` gives 0. */
  function ExcessiveDelayRow(x: Row): (r: Row)
    ensures r.tmc == x.tmc
    ensures forall c :: c != "ED" ==> Cell(r, c) == Cell(x, c)
    ensures r.cols.Keys <= x.cols.Keys + {"ED"}
    ensures Cell(r, "ED").Some? && Cell(r, "ED").value >= 0.0
    ensures IsWhole(Cell(r, "ED").value * 1000.0)
    ensures "RSD" in x.cols && x.cols["RSD"] >= 0.0 ==>
      x.cols["RSD"] / 3.6 - 0.5 <= Cell(r, "ED").value * 1000.0 <= x.cols["RSD"] / 3.6 + 0.5
    ensures "RSD" in x.cols && x.cols["RSD"] >= 0.0 ==>
      var q := x.cols["RSD"] / 3.6;
      (Cell(r, "ED").value * 1000.0 - q == 0.5 || q - Cell(r, "ED").value * 1000.0 == 0.5) ==> IsWhole(Cell(r, "ED").value * 500.0)
    ensures "RSD" !in x.cols || x.cols["RSD"] < 0.0 ==> Cell(r, "ED").value == 0.0
  {
    var e := Over(Cell(x, "RSD"), Some(3600.0));
    var ed := if e.Some? then RoundTo(e.value, 3) else 0.0;
    assert e.Some? ==> (IsWhole(RoundTo(e.value, 3) * 1000.0)
      && e.value * 1000.0 - 0.5 <= RoundTo(e.value, 3) * 1000.0 <= e.value * 1000.0 + 0.5
      && (RoundTo(e.value, 3) * 1000.0 - e.value * 1000.0 == 0.5 || e.value * 1000.0 - RoundTo(e.value, 3) * 1000.0 == 0.5
          ==> IsWhole(RoundTo(e.value, 3) * 500.0))) by {
      if e.Some? { RoundToThousandths(e.value); }
    }
    assert e.Some? ==> e.value * 1000.0 == x.cols["RSD"] / 3.6;
    Put(x, "ED", Some(if ed >= 0.0 then ed else 0.0))
  }

  /** Rounding to thousandths of an hour drops a residual delay shorter than
      1.8 seconds altogether. */
  lemma ShortDelayRoundsAway(x: Row)
    requires "RSD" in x.cols && 0.0 <= x.cols["RSD"] < 1.8
    ensures Cell(ExcessiveDelayRow(x), "ED") == Some(0.0)
  {
    var ed := Cell(ExcessiveDelayRow(x), "ED").value * 1000.0;
    assert ed.Floor as real == ed;
    assert -0.5 <= ed < 1.0;
  }

  const PeakInputs: set<string> := {"dir_aadt", P.PeakFactor}

  /** Columns `load_metro_data` leaves in the table that the calculations read:
      the travel time, the hour's peaking factor, the TMC's length and AADT by
      vehicle class, and its posted speed limit. */
  const Loaded: set<string> :=
    {"travel_time_seconds", P.PeakFactor, "miles", "faciltype", "aadt", "aadt_singl", "aadt_combi", "SPEED_LIMIT"}

  /** The PHED calculator: `df` is the table, `columns` its column labels. A
      cell outside the labels cannot exist; a cell inside them may be missing. */
  class Phed {
    var df: seq<Row>
    var columns: set<string>

    predicate Valid()
      reads this
    {
      forall i :: 0 <= i < |df| ==> df[i].cols.Keys <= columns
    }

    /** `Phed()`: an empty table. */
    constructor ()
      ensures Valid() && df == [] && columns == {}
    {
      df := [];
      columns := {};
    }

    method ThresholdSpeed()
      requires Valid() && "SPEED_LIMIT" in columns
      modifies this
      ensures Valid() && columns == old(columns) + {"posted_mult", "TS"}
      ensures df == MapRows(old(df), P.ThresholdSpeedRow)
    {
      df := MapRows(df, P.ThresholdSpeedRow);
      columns := columns + {"posted_mult", "TS"};
    }

    method AadtSplits()
      requires Valid() && {"aadt", "faciltype", "aadt_singl", "aadt_combi"} <= columns
      modifies this
      ensures Valid() && columns == old(columns) + {"dir_aadt", "aadt_auto", "pct_auto", "pct_bus", "pct_truck"}
      ensures df == MapRows(old(df), AadtSplitsRow)
    {
      df := MapRows(df, AadtSplitsRow);
      columns := columns + {"dir_aadt", "aadt_auto", "pct_auto", "pct_bus", "pct_truck"};
    }

    method SegmentDelay()
      requires Valid() && {"miles", "TS"} <= columns
      modifies this
      ensures Valid() && columns == old(columns) + {"SD"}
      ensures df == MapRows(old(df), P.SegmentDelayRow)
    {
      df := MapRows(df, P.SegmentDelayRow);
      columns := columns + {"SD"};
    }

    method Rsd()
      requires Valid() && {"travel_time_seconds", "SD"} <= columns
      modifies this
      ensures Valid() && columns == old(columns) + {"RSD"}
      ensures df == MapRows(old(df), P.RsdRow)
    {
      df := MapRows(df, P.RsdRow);
      columns := columns + {"RSD"};
    }

    method ExcessiveDelay()
      requires Valid() && "RSD" in columns
      modifies this
      ensures Valid() && columns == old(columns) + {"ED"}
      ensures df == MapRows(old(df), ExcessiveDelayRow)
    {
      df := MapRows(df, ExcessiveDelayRow);
      columns := columns + {"ED"};
    }

    method PeakHr()
      requires Valid() && PeakInputs <= columns
      modifies this
      ensures Valid() && columns == old(columns) + {"PK_HR"}
      ensures df == MapRows(old(df), P.PeakHrRow)
    {
      df := MapRows(df, P.PeakHrRow);
      columns := columns + {"PK_HR"};
    }

    /** Writes `TED_seg`, then replaces the table by its groupby on `tmc_code`,
        which keeps only the summed delay and the maximal shares. */
    method TotalExcessiveDelay()
      requires Valid() && {"ED", "PK_HR", "pct_auto", "pct_bus", "pct_truck"} <= columns
      modifies this
      ensures Valid() && columns == P.TedColumns
      ensures df == P.GroupTed(MapRows(old(df), P.TedSegRow))
    {
      df := P.GroupTed(MapRows(df, P.TedSegRow));
      columns := P.TedColumns;
    }

    method TedSummation()
      requires Valid() && P.TedColumns <= columns
      modifies this
      ensures Valid() && columns == old(columns) + {"AVOc", "AVOb", "AVOt", "TED"}
      ensures df == MapRows(old(df), P.TedSummationRow)
    {
      df := MapRows(df, P.TedSummationRow);
      columns := columns + {"AVOc", "AVOb", "AVOt", "TED"};
    }
  }

  /** The formula columns, up to `TED_seg`, in the order `main` applies them. */
  function Calculated(t: seq<Row>): seq<Row>
  {
    var t1 := MapRows(t, P.ThresholdSpeedRow);
    var t2 := MapRows(t1, AadtSplitsRow);
    var t3 := MapRows(t2, P.SegmentDelayRow);
    var t4 := MapRows(t3, P.RsdRow);
    var t5 := MapRows(t4, ExcessiveDelayRow);
    var t6 := MapRows(t5, P.PeakHrRow);
    MapRows(t6, P.TedSegRow)
  }

  /** `main` after loading: every method finds the columns it reads, because
      the loaded table or an earlier method supplies them, and the table ends
      up with one row per TMC holding its person delay. */
  method Run(calcs: Phed) returns (result: real)
    requires calcs.Valid() && Loaded <= calcs.columns
    modifies calcs
    ensures calcs.Valid() && calcs.columns == P.TedColumns + {"AVOc", "AVOb", "AVOt", "TED"}
    ensures calcs.df == MapRows(P.GroupTed(Calculated(old(calcs.df))), P.TedSummationRow)
    ensures result == P.PhedResult(calcs.df)
  {
    calcs.ThresholdSpeed();
    calcs.AadtSplits();
    calcs.SegmentDelay();
    calcs.Rsd();
    calcs.ExcessiveDelay();
    calcs.PeakHr();
    calcs.TotalExcessiveDelay();
    calcs.TedSummation();
    result := P.PhedResult(calcs.df);
  }
}
