/** Pieces shared by the reliability scripts: the percentile ratio of a TMC's
    travel times, the groupby table that carries it, the interstate flag and
    the rounded directional AADT. */
module Reductions {
  import opened Wrappers
  import opened Stats
  import opened Rounding
  import opened Frames

  /** The ratio of TMC k's hi-th to its 50th travel-time percentile. Missing when
      k has no record, when one of its records lacks a time (the percentile of a
      group holding NaN is NaN), or when the median is zero. */
  function GroupRatio(t: seq<Record>, k: string, hi: int): (r: Option<real>)
    requires 0 <= hi <= 100
    ensures r.Some? ==> k in Tmcs(t) && Complete(t, k)
  {
    if k in Tmcs(t) && Complete(t, k) then
      CompleteGroupNonEmpty(t, k);
      PercentileRatio(TimesOf(t, k), hi)
    else None
  }

  /** For positive travel times and hi at least 50, the ratio is a number no smaller than 1. */
  lemma GroupRatioAtLeastOne(t: seq<Record>, k: string, hi: int)
    requires 50 <= hi <= 100
    requires k in Tmcs(t) && Complete(t, k)
    requires forall i :: 0 <= i < |t| && t[i].tmc == k ==> t[i].travelTime.value > 0.0
    ensures GroupRatio(t, k, hi).Some? && GroupRatio(t, k, hi).value >= 1.0
  {
    CompleteGroupNonEmpty(t, k);
    var s := TimesOf(t, k);
    forall j | 0 <= j < |s| ensures s[j] > 0.0 {
      assert s[j] in s;
    }
    RatioAtLeastOne(s, hi);
  }

  /** A TMC whose travel times are all the same positive value has ratio exactly 1. */
  lemma GroupRatioOfConstant(t: seq<Record>, k: string, hi: int, c: real)
    requires 0 <= hi <= 100
    requires k in Tmcs(t) && Complete(t, k) && c > 0.0
    requires forall i :: 0 <= i < |t| && t[i].tmc == k ==> t[i].travelTime == Some(c)
    ensures GroupRatio(t, k, hi) == Some(1.0)
  {
    CompleteGroupNonEmpty(t, k);
    var s := TimesOf(t, k);
    forall j | 0 <= j < |s| ensures s[j] == c {
      assert s[j] in s;
    }
    RatioOfConstant(s, hi, c);
  }

  /** One row of the groupby: the hi-th percentile under hiColumn, the median
      under `50_pct_tt`, and their ratio under name. */
  function RatioRow(t: seq<Record>, k: string, hi: int, hiColumn: string, name: string): (r: Row)
    requires 0 <= hi <= 100
    ensures r.tmc == k
    ensures Cell(r, name) == GroupRatio(t, k, hi)
    ensures r.cols.Keys <= {hiColumn, "50_pct_tt", name}
  {
    var pcts :=
      if k in Tmcs(t) && Complete(t, k) then
        CompleteGroupNonEmpty(t, k);
        var s := TimesOf(t, k);
        map[hiColumn := Percentile(s, hi), "50_pct_tt" := Percentile(s, 50)]
      else map[];
    Put(Row(k, pcts), name, GroupRatio(t, k, hi))
  }

  /** `df.groupby('tmc_code').agg({hiColumn: pct(hi), '50_pct_tt': pct(50)})`
      followed by the ratio column: one row per TMC of t, in order of first appearance. */
  function RatioTable(t: seq<Record>, hi: int, hiColumn: string, name: string): (r: seq<Row>)
    requires 0 <= hi <= 100
    ensures RowTmcs(r) == Distinct(Tmcs(t))
    ensures forall i :: 0 <= i < |r| ==> Cell(r[i], name) == GroupRatio(t, r[i].tmc, hi)
    ensures forall i :: 0 <= i < |r| ==> r[i].cols.Keys <= {hiColumn, "50_pct_tt", name}
  {
    var ks := Distinct(Tmcs(t));
    seq(|ks|, i requires 0 <= i < |ks| => RatioRow(t, ks[i], hi, hiColumn, name))
  }

  /** `interstate == 1`; a missing flag is not interstate. */
  predicate IsInterstate(x: Row)
    ensures "interstate" !in x.cols ==> !IsInterstate(x)
    ensures IsInterstate(x) ==> "interstate" in x.cols && x.cols["interstate"] == 1.0
  {
    Cell(x, "interstate") == Some(1.0)
  }

  /** `(aadt / faciltype).round()`: the directional AADT of a segment whose
      inputs are present and whose facility type is not zero. */
  function DirAadt(x: Row): (r: real)
    requires {"aadt", "faciltype"} <= x.cols.Keys && x.cols["faciltype"] != 0.0
    ensures IsWhole(r)
    ensures x.cols["aadt"] / x.cols["faciltype"] - 0.5 <= r <= x.cols["aadt"] / x.cols["faciltype"] + 0.5
    ensures var q := x.cols["aadt"] / x.cols["faciltype"]; (r - q == 0.5 || q - r == 0.5) ==> IsWhole(r / 2.0)
  {
    Round(x.cols["aadt"] / x.cols["faciltype"])
  }
}
