/** `inrix_may_filter_chunk.py`: the same wide table as `inrix_may_filter.py`,
    but each hour holds the minimum travel time, and the file is read and
    filtered in chunks of rows that are concatenated afterwards. */
module InrixMayFilterChunk {
  import opened Wrappers
  import opened Stats
  import opened Frames
  import opened Hourly

  const Suffix: string := "tt_seconds"

  /** The `'min'` aggregation of TMC k's hour-h travel times: missing when
      the TMC has no time in that hour. */
  function HourMin(t: seq<Record>, h: int, k: string): (r: Option<real>)
    ensures r.Some? <==> HourTimes(t, h, k) != []
  {
    var s := HourTimes(t, h, k);
    if s != [] then Some(Min(s)) else None
  }

  /** The minimum is one of the TMC's hour-h record times and no such time is below it. */
  lemma HourMinIsLeast(t: seq<Record>, h: int, k: string)
    requires HourMin(t, h, k).Some?
    ensures exists i :: 0 <= i < |t| && t[i].tmc == k && t[i].stamp.hour == h && t[i].travelTime == HourMin(t, h, k)
    ensures forall i :: 0 <= i < |t| && t[i].tmc == k && t[i].stamp.hour == h && t[i].travelTime.Some? ==>
      HourMin(t, h, k).value <= t[i].travelTime.value
  {
    var slice := HourSlice(t, h);
    var s := HourTimes(t, h, k);
    var m := HourMin(t, h, k).value;
    assert m in s;
    var j :| 0 <= j < |slice| && slice[j].tmc == k && slice[j].travelTime == Some(m);
    assert slice[j] in slice;
    var i :| 0 <= i < |t| && t[i] == slice[j];
    forall i | 0 <= i < |t| && t[i].tmc == k && t[i].stamp.hour == h && t[i].travelTime.Some?
      ensures m <= t[i].travelTime.value
    {
      assert t[i] in slice;
      var j :| 0 <= j < |slice| && slice[j] == t[i];
      assert t[i].travelTime.value in s;
    }
  }

  /** `tt_by_hour(df, hour)`: one row per TMC with a record in hour h, in
      order of first appearance, carrying only `hour_{h}_tt_seconds`. */
  function TtByHour(t: seq<Record>, h: int): (r: seq<Row>)
    requires 0 <= h < 24
    ensures RowTmcs(r) == Distinct(Tmcs(HourSlice(t, h)))
    ensures forall i :: 0 <= i < |r| ==> r[i].cols.Keys <= {HourColumn(h, Suffix)}
    ensures forall i :: 0 <= i < |r| ==> Cell(r[i], HourColumn(h, Suffix)) == HourMin(t, h, r[i].tmc)
  {
    var ks := Distinct(Tmcs(HourSlice(t, h)));
    seq(|ks|, i requires 0 <= i < |ks| => Put(Row(ks[i], map[]), HourColumn(h, Suffix), HourMin(t, h, ks[i])))
  }

  /** A row merged with the hour-h table gets the hour-h minimum of its TMC. */
  lemma JoinedMin(x: Row, t: seq<Record>, h: int)
    requires 0 <= h < 24 && HourColumn(h, Suffix) !in x.cols
    ensures Cell(JoinRow(x, TtByHour(t, h)), HourColumn(h, Suffix)) == HourMin(t, h, x.tmc)
    ensures JoinRow(x, TtByHour(t, h)).cols.Keys <= x.cols.Keys + {HourColumn(h, Suffix)}
    ensures forall c :: c != HourColumn(h, Suffix) ==> Cell(JoinRow(x, TtByHour(t, h)), c) == Cell(x, c)
  {
    var table := TtByHour(t, h);
    var name := HourColumn(h, Suffix);
    forall c ensures c != name ==> Cell(JoinRow(x, table), c) == Cell(x, c) {
      JoinHour(x, table, {name}, c);
    }
    JoinHour(x, table, {name}, name);
    if Lookup(table, x.tmc).Some? {
      var j := LookupAt(table, x.tmc);
    } else {
      NoRecordNoTimes(HourSlice(t, h), x.tmc);
    }
  }

  /** The two list comprehensions over the chunks: the May records of each
      chunk, then the records of each of those on a kept day. */
  function MonthChunks(chunks: seq<seq<Record>>): (r: seq<seq<Record>>)
    ensures |r| == |chunks| && forall i :: 0 <= i < |r| ==> r[i] == Isin(chunks[i], Month, {5})
    ensures forall i, x :: 0 <= i < |r| ==> (x in r[i] <==> x in chunks[i] && x.stamp.month == 5)
  {
    seq(|chunks|, i requires 0 <= i < |chunks| => Isin(chunks[i], Month, {5}))
  }

  function DayChunks(chunks: seq<seq<Record>>): (r: seq<seq<Record>>)
    ensures |r| == |chunks| && forall i :: 0 <= i < |r| ==> r[i] == Isin(chunks[i], Day, MayDays)
    ensures forall i, x :: 0 <= i < |r| ==> (x in r[i] <==> x in chunks[i] && x.stamp.day in MayDays)
  {
    seq(|chunks|, i requires 0 <= i < |chunks| => Isin(chunks[i], Day, MayDays))
  }

  /** `pd.concat(chunks)`: the chunks' rows one after another. */
  function Concat(chunks: seq<seq<Record>>): (r: seq<Record>)
    ensures forall x :: x in r <==> exists i :: 0 <= i < |chunks| && x in chunks[i]
  {
    if chunks == [] then []
    else
      var rest := Concat(chunks[1..]);
      assert forall x :: (exists i :: 1 <= i < |chunks| && x in chunks[i]) <==> x in rest by {
        forall x ensures (exists i :: 1 <= i < |chunks| && x in chunks[i]) <==> x in rest {
          if x in rest {
            var i :| 0 <= i < |chunks[1..]| && x in chunks[1..][i];
            assert chunks[i + 1] == chunks[1..][i];
          }
        }
      }
      chunks[0] + rest
  }

  /** The filter the chunks apply, stated on one table. */
  function KeptDays(t: seq<Record>): seq<Record>
  {
    Isin(Isin(t, Month, {5}), Day, MayDays)
  }

  /** Chunking changes nothing: filtering every chunk and concatenating the
      pieces gives the same rows, in the same order, as filtering the whole file. */
  lemma {:induction false} ChunkedFilter(chunks: seq<seq<Record>>)
    ensures Concat(DayChunks(MonthChunks(chunks))) == KeptDays(Concat(chunks))
  {
    if chunks != [] {
      var head, tail := chunks[0], chunks[1..];
      assert MonthChunks(chunks)[1..] == MonthChunks(tail);
      assert DayChunks(MonthChunks(chunks))[1..] == DayChunks(MonthChunks(tail));
      ChunkedFilter(tail);
      IsinConcat(head, Concat(tail), Month, {5});
      IsinConcat(Isin(head, Month, {5}), Isin(Concat(tail), Month, {5}), Day, MayDays);
    }
  }

  /** The rows `main` aggregates: the concatenated filtered chunks, then `dropna()`. */
  function MayRecords(chunks: seq<seq<Record>>): (r: seq<Record>)
    ensures r == DropNa(KeptDays(Concat(chunks)))
  {
    ChunkedFilter(chunks);
    DropNa(Concat(DayChunks(MonthChunks(chunks))))
  }

  /** The kept records are those of some chunk that fall in May, on a kept
      day, with a present travel time. */
  lemma MayRecordsMembers(chunks: seq<seq<Record>>, x: Record)
    ensures x in MayRecords(chunks) <==>
      (exists i :: 0 <= i < |chunks| && x in chunks[i]) && x.stamp.month == 5 && x.stamp.day in MayDays && x.travelTime.Some?
  {
    assert x in Concat(chunks) <==> exists i :: 0 <= i < |chunks| && x in chunks[i];
  }

  /** `main` after loading: the records of the filtered chunks without a
      missing field, then the hour table over them. */
  method MinByHour(chunks: seq<seq<Record>>) returns (r: seq<Row>)
    ensures RowTmcs(r) == Distinct(Tmcs(MayRecords(chunks)))
    ensures forall i :: 0 <= i < |r| ==> r[i].cols.Keys <= HourColumns(24, Suffix)
    ensures forall i, h :: 0 <= i < |r| && 0 <= h < 24 ==>
      Cell(r[i], HourColumn(h, Suffix)) == HourMin(MayRecords(chunks), h, r[i].tmc)
  {
    var df := DropNa(Concat(DayChunks(MonthChunks(chunks))));
    r := HourTable(df);
  }

  /** The distinct TMCs of the kept records, widened by 24 left merges. Every
      TMC keeps exactly one row; its `hour_{h}_tt_seconds` is its least time in
      hour h, missing when it has no record in that hour, and it carries no
      other column. */
  method HourTable(df: seq<Record>) returns (r: seq<Row>)
    ensures RowTmcs(r) == Distinct(Tmcs(df))
    ensures forall i :: 0 <= i < |r| ==> r[i].cols.Keys <= HourColumns(24, Suffix)
    ensures forall i, h :: 0 <= i < |r| && 0 <= h < 24 ==> Cell(r[i], HourColumn(h, Suffix)) == HourMin(df, h, r[i].tmc)
  {
    r := Spine(Distinct(Tmcs(df)));
    var hour := 0;
    while hour < 24
      invariant 0 <= hour <= 24
      invariant RowTmcs(r) == Distinct(Tmcs(df))
      invariant forall i :: 0 <= i < |r| ==> r[i].cols.Keys <= HourColumns(hour, Suffix)
      invariant forall i, h :: 0 <= i < |r| && 0 <= h < hour ==>
        Cell(r[i], HourColumn(h, Suffix)) == HourMin(df, h, r[i].tmc)
    {
      var table := TtByHour(df, hour);
      var next := LeftJoin(r, table);
      forall i | 0 <= i < |next|
        ensures next[i].cols.Keys <= HourColumns(hour + 1, Suffix)
        ensures forall h :: 0 <= h <= hour ==> Cell(next[i], HourColumn(h, Suffix)) == HourMin(df, h, next[i].tmc)
      {
        assert next[i] == JoinRow(r[i], table);
        JoinedMin(r[i], df, hour);
      }
      r := next;
      hour := hour + 1;
    }
  }
}
