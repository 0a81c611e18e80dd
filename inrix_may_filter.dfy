/** `inrix_may_filter.py`: the mean travel time of every TMC in each hour of
    the day, over the kept days of May 2017, as one wide row per TMC. */
module InrixMayFilter {
  import opened Wrappers
  import opened Stats
  import opened Frames
  import opened Hourly

  const Suffix: string := "tt_seconds"

  /** The `'mean'` aggregation of TMC k's hour-h travel times: missing when
      the TMC has no time in that hour, otherwise a value between the group's
      smallest and largest time. */
  function HourMean(t: seq<Record>, h: int, k: string): (r: Option<real>)
    ensures r.Some? <==> HourTimes(t, h, k) != []
    ensures r.Some? ==> Min(HourTimes(t, h, k)) <= r.value <= Max(HourTimes(t, h, k))
  {
    var s := HourTimes(t, h, k);
    if s != [] then
      Some(Mean(s))
    else None
  }

  /** `tt_by_hour(df, hour)`: one row per TMC with a record in hour h, in
      order of first appearance, carrying only `hour_{h}_tt_seconds`. */
  function TtByHour(t: seq<Record>, h: int): (r: seq<Row>)
    requires 0 <= h < 24
    ensures RowTmcs(r) == Distinct(Tmcs(HourSlice(t, h)))
    ensures forall i :: 0 <= i < |r| ==> r[i].cols.Keys <= {HourColumn(h, Suffix)}
    ensures forall i :: 0 <= i < |r| ==> Cell(r[i], HourColumn(h, Suffix)) == HourMean(t, h, r[i].tmc)
  {
    var ks := Distinct(Tmcs(HourSlice(t, h)));
    seq(|ks|, i requires 0 <= i < |ks| => Put(Row(ks[i], map[]), HourColumn(h, Suffix), HourMean(t, h, ks[i])))
  }

  /** A row merged with the hour-h table gets the hour-h mean of its TMC:
      missing when the TMC has no record in that hour. */
  lemma JoinedMean(x: Row, t: seq<Record>, h: int)
    requires 0 <= h < 24 && HourColumn(h, Suffix) !in x.cols
    ensures Cell(JoinRow(x, TtByHour(t, h)), HourColumn(h, Suffix)) == HourMean(t, h, x.tmc)
    ensures JoinRow(x, TtByHour(t, h)).cols.Keys <= x.cols.Keys + {HourColumn(h, Suffix)}
    ensures forall c :: c != HourColumn(h, Suffix) ==> Cell(JoinRow(x, TtByHour(t, h)), c) == Cell(x, c)
  {
    var table := TtByHour(t, h);
    var name := HourColumn(h, Suffix);
    forall c ensures c != name ==> Cell(JoinRow(x, table), c) == Cell(x, c) {
      JoinHour(x, table, {name}, c);
    }
    JoinHour(x, table, {name}, name);
    if Lookup(table, x.tmc).Some? {
      var j := LookupAt(table, x.tmc);
    } else {
      NoRecordNoTimes(HourSlice(t, h), x.tmc);
    }
  }

  /** The records `main` aggregates: May, the kept days, and a present travel time. */
  function MayRecords(t: seq<Record>): (r: seq<Record>)
    ensures forall x :: x in r <==> x in t && x.stamp.month == 5 && x.stamp.day in MayDays && x.travelTime.Some?
  {
    DropNa(Isin(Isin(t, Month, {5}), Day, MayDays))
  }

  /** `main` after loading: a table of the distinct TMCs of the kept records,
      widened by 24 left merges, one per hour. Every TMC keeps exactly one row;
      its `hour_{h}_tt_seconds` is its mean time in hour h, missing when it has
      no record in that hour, and it carries no other column. */
  method MeanByHour(t: seq<Record>) returns (r: seq<Row>)
    ensures RowTmcs(r) == Distinct(Tmcs(MayRecords(t)))
    ensures forall i :: 0 <= i < |r| ==> r[i].cols.Keys <= HourColumns(24, Suffix)
    ensures forall i, h :: 0 <= i < |r| && 0 <= h < 24 ==>
      Cell(r[i], HourColumn(h, Suffix)) == HourMean(MayRecords(t), h, r[i].tmc)
  {
    var df := MayRecords(t);
    r := Spine(Distinct(Tmcs(df)));
    var hour := 0;
    while hour < 24
      invariant 0 <= hour <= 24
      invariant RowTmcs(r) == Distinct(Tmcs(df))
      invariant forall i :: 0 <= i < |r| ==> r[i].cols.Keys <= HourColumns(hour, Suffix)
      invariant forall i, h :: 0 <= i < |r| && 0 <= h < hour ==>
        Cell(r[i], HourColumn(h, Suffix)) == HourMean(df, h, r[i].tmc)
    {
      var table := TtByHour(df, hour);
      var next := LeftJoin(r, table);
      forall i | 0 <= i < |next|
        ensures next[i].cols.Keys <= HourColumns(hour + 1, Suffix)
        ensures forall h :: 0 <= h <= hour ==> Cell(next[i], HourColumn(h, Suffix)) == HourMean(df, h, next[i].tmc)
      {
        assert next[i] == JoinRow(r[i], table);
        JoinedMean(r[i], df, hour);
      }
      r := next;
      hour := hour + 1;
    }
  }
}
