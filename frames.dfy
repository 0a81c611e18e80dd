/** The tabular vocabulary the scripts share: probe records with a decomposed
    timestamp, boolean-mask filters (`df[mask]`), the distinct TMC list that
    seeds every per-segment table, per-TMC groups, and wide per-TMC rows whose
    named cells are filled in by left merges. A cell that a row does not hold is
    a missing value (NaN). */
module Frames {
  import opened Wrappers
  import opened Stats
  import opened Rounding

  /** The parts of `measurement_tstamp` the scripts read through `.dt`:
      weekday (0 = Monday .. 6 = Sunday), hour (0 .. 23), month and day of month. */
  datatype Stamp = Stamp(weekday: int, hour: int, month: int, day: int)

  datatype Field = Weekday | Hour | Month | Day

  function Part(s: Stamp, f: Field): int
  {
    match f
    case Weekday => s.weekday
    case Hour => s.hour
    case Month => s.month
    case Day => s.day
  }

  /** One probe measurement; the travel time is None where the extract holds NaN. */
  datatype Record = Record(tmc: string, stamp: Stamp, travelTime: Option<real>)

  /** `df[mask]`: the rows that satisfy keep, in their original order. */
  function Where<T(!new)>(t: seq<T>, keep: T -> bool): (r: seq<T>)
    ensures |r| <= |t|
    ensures forall x :: x in r <==> x in t && keep(x)
  {
    if t == [] then []
    else (if keep(t[0]) then [t[0]] else []) + Where(t[1..], keep)
  }

  /** Filtering a concatenation is concatenating the filtered parts. */
  lemma {:induction false} WhereConcat<T(!new)>(a: seq<T>, b: seq<T>, keep: T -> bool)
    ensures Where(a + b, keep) == Where(a, keep) + Where(b, keep)
  {
    if a == [] {
      assert a + b == b;
    } else {
      assert (a + b)[1..] == a[1..] + b;
      WhereConcat(a[1..], b, keep);
    }
  }

  /** Filtering twice with the same mask filters once. */
  lemma {:induction false} WhereIdempotent<T(!new)>(t: seq<T>, keep: T -> bool)
    ensures Where(Where(t, keep), keep) == Where(t, keep)
  {
    if t != [] {
      WhereIdempotent(t[1..], keep);
      var h := if keep(t[0]) then [t[0]] else [];
      WhereConcat(h, Where(t[1..], keep), keep);
      if keep(t[0]) {
        assert Where(h, keep) == [t[0]] + Where([], keep);
      }
    }
  }

  /** A mask that no row satisfies selects nothing. */
  lemma {:induction false} WhereNone<T(!new)>(t: seq<T>, keep: T -> bool)
    requires forall i :: 0 <= i < |t| ==> !keep(t[i])
    ensures Where(t, keep) == []
  {
    if t != [] {
      assert forall i :: 0 <= i < |t[1..]| ==> t[1..][i] == t[i + 1];
      WhereNone(t[1..], keep);
    }
  }

  /** A mask and its negation split a table: every row lands in exactly one part. */
  lemma {:induction false} WherePartition<T(!new)>(t: seq<T>, keep: T -> bool, drop: T -> bool)
    requires forall x :: drop(x) == !keep(x)
    ensures multiset(Where(t, keep)) + multiset(Where(t, drop)) == multiset(t)
  {
    if t != [] {
      WherePartition(t[1..], keep, drop);
      WhereHead(t, keep);
      WhereHead(t, drop);
      assert drop(t[0]) == !keep(t[0]);
      assert t == [t[0]] + t[1..];
      assert multiset(t) == multiset{t[0]} + multiset(t[1..]);
    }
  }

  /** The rows a mask keeps from a non-empty table: the head, if kept, and those kept from the rest. */
  lemma WhereHead<T(!new)>(t: seq<T>, keep: T -> bool)
    requires t != []
    ensures multiset(Where(t, keep)) == (if keep(t[0]) then multiset{t[0]} else multiset{}) + multiset(Where(t[1..], keep))
  {
  }

  /** Two masks applied one after the other keep what their conjunction keeps, in the same order. */
  lemma {:induction false} WhereWhere<T(!new)>(t: seq<T>, p: T -> bool, q: T -> bool)
    ensures Where(Where(t, p), q) == Where(t, (x: T) => p(x) && q(x))
  {
    if t != [] {
      WhereWhere(t[1..], p, q);
      var h := if p(t[0]) then [t[0]] else [];
      WhereConcat(h, Where(t[1..], p), q);
      if p(t[0]) {
        assert h[1..] == [];
      }
    }
  }

  /** `df[df['measurement_tstamp'].dt.<field>.isin(vals)]`. */
  function Isin(t: seq<Record>, f: Field, vals: set<int>): (r: seq<Record>)
    ensures forall x :: x in r <==> x in t && Part(x.stamp, f) in vals
  {
    Where(t, (x: Record) => Part(x.stamp, f) in vals)
  }

  lemma IsinConcat(a: seq<Record>, b: seq<Record>, f: Field, vals: set<int>)
    ensures Isin(a + b, f, vals) == Isin(a, f, vals) + Isin(b, f, vals)
  {
    WhereConcat(a, b, (x: Record) => Part(x.stamp, f) in vals);
  }

  /** Two disjoint value sets that together cover a field split a table. */
  lemma IsinPartition(t: seq<Record>, f: Field, a: set<int>, b: set<int>)
    requires a * b == {}
    requires forall i :: 0 <= i < |t| ==> Part(t[i].stamp, f) in a + b
    ensures multiset(Isin(t, f, a)) + multiset(Isin(t, f, b)) == multiset(t)
  {
    var inA := (x: Record) => Part(x.stamp, f) in a;
    var inB := (x: Record) => Part(x.stamp, f) in b;
    var notA := (x: Record) => !inA(x);
    WherePartition(t, inA, notA);
    forall i | 0 <= i < |t| ensures inB(t[i]) == notA(t[i]) {
      var p := Part(t[i].stamp, f);
      assert p in a + b;
      assert p in a && p in b ==> p in a * b;
    }
    WhereAgree(t, inB, notA);
  }

  /** Two masks that agree on every row of t select the same rows. */
  lemma {:induction false} WhereAgree<T(!new)>(t: seq<T>, p: T -> bool, q: T -> bool)
    requires forall i :: 0 <= i < |t| ==> p(t[i]) == q(t[i])
    ensures Where(t, p) == Where(t, q)
  {
    if t != [] {
      WhereAgree(t[1..], p, q);
    }
  }

  /** `df.dropna()`: the records whose travel time is present. */
  function DropNa(t: seq<Record>): (r: seq<Record>)
    ensures forall x :: x in r <==> x in t && x.travelTime.Some?
  {
    Where(t, (x: Record) => x.travelTime.Some?)
  }

  lemma DropNaConcat(a: seq<Record>, b: seq<Record>)
    ensures DropNa(a + b) == DropNa(a) + DropNa(b)
  {
    WhereConcat(a, b, (x: Record) => x.travelTime.Some?);
  }

  function Tmcs(t: seq<Record>): (r: seq<string>)
    ensures |r| == |t| && forall i :: 0 <= i < |t| ==> r[i] == t[i].tmc
  {
    seq(|t|, i requires 0 <= i < |t| => t[i].tmc)
  }

  ghost predicate NoDups(ks: seq<string>)
  {
    forall i, j :: 0 <= i < j < |ks| ==> ks[i] != ks[j]
  }

  /** `drop_duplicates()`: each key of ks exactly once. It keeps them in order
      of first appearance; the contract states the keys, not their order. */
  function Distinct(ks: seq<string>): (r: seq<string>)
    ensures NoDups(r)
    ensures forall k :: k in r <==> k in ks
  {
    if ks == [] then []
    else
      var d := Distinct(ks[..|ks| - 1]);
      var k := ks[|ks| - 1];
      assert ks == ks[..|ks| - 1] + [k];
      if k in d then d else d + [k]
  }

  /** The present travel times of TMC k, in record order: the group that
      `groupby('tmc_code')` hands to a NaN-skipping aggregation. */
  function TimesOf(t: seq<Record>, k: string): (r: seq<real>)
    ensures |r| <= |t|
    ensures forall v :: v in r <==> exists i :: 0 <= i < |t| && t[i].tmc == k && t[i].travelTime == Some(v)
  {
    if t == [] then []
    else
      var rest := TimesOf(t[1..], k);
      assert forall v :: v in rest <==> exists i :: 1 <= i < |t| && t[i].tmc == k && t[i].travelTime == Some(v) by {
        forall v ensures v in rest <==> exists i :: 1 <= i < |t| && t[i].tmc == k && t[i].travelTime == Some(v) {
          if v in rest {
            var i :| 0 <= i < |t[1..]| && t[1..][i].tmc == k && t[1..][i].travelTime == Some(v);
            assert t[i + 1] == t[1..][i];
          }
          if exists i :: 1 <= i < |t| && t[i].tmc == k && t[i].travelTime == Some(v) {
            var i :| 1 <= i < |t| && t[i].tmc == k && t[i].travelTime == Some(v);
            assert t[1..][i - 1] == t[i];
          }
        }
      }
      if t[0].tmc == k && t[0].travelTime.Some? then [t[0].travelTime.value] + rest else rest
  }

  /** One record contributes its time to its own TMC's group, and only when the time is present. */
  lemma TimesOfOne(x: Record, k: string)
    ensures TimesOf([x], k) == if x.tmc == k && x.travelTime.Some? then [x.travelTime.value] else []
  {
    assert [x][1..] == [];
  }

  /** The group of a concatenation is the first part's group followed by the
      second's: with TimesOfOne, each record adds its time, once and in order. */
  lemma {:induction false} TimesOfConcat(a: seq<Record>, b: seq<Record>, k: string)
    ensures TimesOf(a + b, k) == TimesOf(a, k) + TimesOf(b, k)
  {
    if a != [] {
      assert (a + b)[1..] == a[1..] + b;
      TimesOfConcat(a[1..], b, k);
    } else {
      assert a + b == b;
    }
  }

  /** Every record of TMC k carries a travel time, so a percentile of its group is a number, not NaN. */
  predicate Complete(t: seq<Record>, k: string)
  {
    forall i :: 0 <= i < |t| && t[i].tmc == k ==> t[i].travelTime.Some?
  }

  /** A TMC that has a record, all of whose records carry a time, has a nonempty group. */
  lemma CompleteGroupNonEmpty(t: seq<Record>, k: string)
    requires Complete(t, k) && k in Tmcs(t)
    ensures |TimesOf(t, k)| > 0
  {
    var i :| 0 <= i < |t| && Tmcs(t)[i] == k;
    assert t[i].travelTime.value in TimesOf(t, k);
  }

  /** A wide row keyed by `tmc_code`. A column absent from cols is a missing value. */
  datatype Row = Row(tmc: string, cols: map<string, real>)

  function Cell(r: Row, c: string): Option<real>
  {
    if c in r.cols then Some(r.cols[c]) else None
  }

  /** The `tmc_code` column of a table of rows: `Tmcs` for `Row`s rather than `Record`s. */
  function RowTmcs(t: seq<Row>): (r: seq<string>)
    ensures |r| == |t| && forall i :: 0 <= i < |t| ==> r[i] == t[i].tmc
  {
    seq(|t|, i requires 0 <= i < |t| => t[i].tmc)
  }

  /** `pd.DataFrame.from_dict({'tmc_code': tmc_list})`: one row per listed TMC, no other column. */
  function Spine(ks: seq<string>): (r: seq<Row>)
    ensures |r| == |ks|
    ensures forall i :: 0 <= i < |r| ==> r[i] == Row(ks[i], map[])
  {
    seq(|ks|, i requires 0 <= i < |ks| => Row(ks[i], map[]))
  }

  /** The row of t whose TMC is k, if any (the first one). */
  function Lookup(t: seq<Row>, k: string): (r: Option<Row>)
    ensures r.Some? <==> k in RowTmcs(t)
    ensures r.Some? ==> r.value in t && r.value.tmc == k
  {
    if t == [] then None
    else if t[0].tmc == k then Some(t[0])
    else
      assert RowTmcs(t) == [t[0].tmc] + RowTmcs(t[1..]);
      Lookup(t[1..], k)
  }

  /** With distinct TMCs on the right, Lookup finds the one row that carries k. */
  lemma {:induction false} LookupUnique(t: seq<Row>, i: int)
    requires NoDups(RowTmcs(t)) && 0 <= i < |t|
    ensures Lookup(t, t[i].tmc) == Some(t[i])
  {
    if i > 0 {
      var ks := RowTmcs(t);
      assert ks[0] != ks[i];
      assert RowTmcs(t[1..]) == ks[1..];
      assert t[1..][i - 1] == t[i];
      LookupUnique(t[1..], i - 1);
    }
  }

  /** One left row after the merge: the cells of its match on the right, if
      there is one, win over its own; the cells the match lacks are kept. */
  function JoinRow(x: Row, right: seq<Row>): (r: Row)
    ensures r.tmc == x.tmc
    ensures Lookup(right, x.tmc).None? ==> r == x
    ensures Lookup(right, x.tmc).Some? ==> forall c ::
      Cell(r, c) == if c in Lookup(right, x.tmc).value.cols then Cell(Lookup(right, x.tmc).value, c) else Cell(x, c)
  {
    match Lookup(right, x.tmc)
    case Some(m) => Row(x.tmc, x.cols + m.cols)
    case None => x
  }

  /** A column no right row carries passes through the merge unchanged. */
  lemma JoinRowKeeps(x: Row, right: seq<Row>, c: string)
    requires forall i :: 0 <= i < |right| ==> c !in right[i].cols
    ensures Cell(JoinRow(x, right), c) == Cell(x, c)
  {
    var look := Lookup(right, x.tmc);
    if look.Some? {
      var j :| 0 <= j < |right| && right[j] == look.value;
    }
  }

  /** `pd.merge(left, right, on='tmc_code', how='left')` against a right table
      with one row per TMC: the left rows, in order, each joined with its match. */
  function LeftJoin(left: seq<Row>, right: seq<Row>): (r: seq<Row>)
    requires NoDups(RowTmcs(right))
    ensures |r| == |left| && RowTmcs(r) == RowTmcs(left)
    ensures forall i :: 0 <= i < |r| ==> r[i] == JoinRow(left[i], right)
  {
    seq(|left|, i requires 0 <= i < |left| => JoinRow(left[i], right))
  }

  /** The present values of column c, in row order (what a NaN-skipping reduction sees). */
  function Column(t: seq<Row>, c: string): (r: seq<real>)
    ensures forall v :: v in r <==> exists i :: 0 <= i < |t| && Cell(t[i], c) == Some(v)
  {
    if t == [] then []
    else
      var rest := Column(t[1..], c);
      assert forall v :: v in rest <==> exists i :: 1 <= i < |t| && Cell(t[i], c) == Some(v) by {
        forall v ensures v in rest <==> exists i :: 1 <= i < |t| && Cell(t[i], c) == Some(v) {
          if v in rest {
            var i :| 0 <= i < |t[1..]| && Cell(t[1..][i], c) == Some(v);
            assert t[i + 1] == t[1..][i];
          }
          if exists i :: 1 <= i < |t| && Cell(t[i], c) == Some(v) {
            var i :| 1 <= i < |t| && Cell(t[i], c) == Some(v);
            assert t[1..][i - 1] == t[i];
          }
        }
      }
      (if c in t[0].cols then [t[0].cols[c]] else []) + rest
  }

  /** Every present value of column c is at least zero. */
  ghost predicate NonNegativeColumn(t: seq<Row>, c: string)
  {
    forall i :: 0 <= i < |t| ==> (c in t[i].cols ==> 0.0 <= t[i].cols[c])
  }

  /** `df[c].sum()`, which skips missing values. */
  function SumColumn(t: seq<Row>, c: string): real
  {
    if t == [] then 0.0
    else (if c in t[0].cols then t[0].cols[c] else 0.0) + SumColumn(t[1..], c)
  }

  /** A column's sum is the sum of its present values: missing cells add nothing. */
  lemma {:induction false} SumColumnIsSum(t: seq<Row>, c: string)
    ensures SumColumn(t, c) == Sum(Column(t, c))
  {
    if t != [] {
      var head: seq<real> := if c in t[0].cols then [t[0].cols[c]] else [];
      assert Column(t, c) == head + Column(t[1..], c);
      SumConcat(head, Column(t[1..], c));
      SumColumnIsSum(t[1..], c);
      if c in t[0].cols {
        assert head[1..] == [];
      }
    }
  }

  lemma {:induction false} SumColumnConcat(a: seq<Row>, b: seq<Row>, c: string)
    ensures SumColumn(a + b, c) == SumColumn(a, c) + SumColumn(b, c)
  {
    if a == [] {
      assert a + b == b;
    } else {
      assert (a + b)[0] == a[0];
      assert (a + b)[1..] == a[1..] + b;
      SumColumnConcat(a[1..], b, c);
    }
  }

  /** A column with no negative value sums to at least zero. */
  lemma {:induction false} SumColumnNonNegative(t: seq<Row>, c: string)
    requires NonNegativeColumn(t, c)
    ensures SumColumn(t, c) >= 0.0
  {
    if t != [] {
      assert NonNegativeColumn(t[1..], c) by {
        forall i | 0 <= i < |t[1..]| ensures c in t[1..][i].cols ==> 0.0 <= t[1..][i].cols[c] {
          assert t[1..][i] == t[i + 1];
        }
      }
      SumColumnNonNegative(t[1..], c);
    }
  }

  /** Dropping the first row keeps a column free of negative values. */
  lemma NonNegativeTail(t: seq<Row>, c: string)
    requires t != []
    ensures NonNegativeColumn(t, c) ==> NonNegativeColumn(t[1..], c)
  {
    if NonNegativeColumn(t, c) {
      forall i | 0 <= i < |t[1..]| ensures c in t[1..][i].cols ==> 0.0 <= t[1..][i].cols[c] {
        assert t[1..][i] == t[i + 1];
      }
    }
  }

  lemma WhereNonNegative(t: seq<Row>, keep: Row -> bool, c: string)
    requires NonNegativeColumn(t, c)
    ensures NonNegativeColumn(Where(t, keep), c)
  {
    var w := Where(t, keep);
    forall i | 0 <= i < |w| ensures c in w[i].cols ==> 0.0 <= w[i].cols[c] {
      assert w[i] in w;
    }
  }

  /** Over a column with no negative value, the rows a mask keeps sum to at
      least zero and at most the whole column. */
  lemma {:induction false} WhereSumBetween(t: seq<Row>, keep: Row -> bool, c: string)
    requires NonNegativeColumn(t, c)
    ensures 0.0 <= SumColumn(Where(t, keep), c) <= SumColumn(t, c)
  {
    if t != [] {
      var h := if keep(t[0]) then [t[0]] else [];
      var w := Where(t[1..], keep);
      assert NonNegativeColumn(t[1..], c) by {
        forall i | 0 <= i < |t[1..]| ensures c in t[1..][i].cols ==> 0.0 <= t[1..][i].cols[c] {
          assert t[1..][i] == t[i + 1];
        }
      }
      WhereSumBetween(t[1..], keep, c);
      SumColumnConcat(h, w, c);
      var head := if c in t[0].cols then t[0].cols[c] else 0.0;
      assert head >= 0.0;
      if keep(t[0]) {
        assert SumColumn(h, c) == head + SumColumn([], c);
      } else {
        assert SumColumn(h, c) == 0.0;
      }
    }
  }

  /** The rows of TMC k, in order: one group of `groupby('tmc_code')`. */
  function RowsOf(t: seq<Row>, k: string): (r: seq<Row>)
    ensures forall x :: x in r <==> x in t && x.tmc == k
  {
    Where(t, (x: Row) => x.tmc == k)
  }

  /** The `max` aggregation of column c over the rows of TMC k, skipping
      missing cells; missing when no row of k has a value. */
  function GroupMax(t: seq<Row>, k: string, c: string): (r: Option<real>)
    ensures r.Some? <==> exists i :: 0 <= i < |t| && t[i].tmc == k && Cell(t[i], c).Some?
    ensures r.Some? ==>
      (forall i :: 0 <= i < |t| && t[i].tmc == k && Cell(t[i], c).Some? ==> Cell(t[i], c).value <= r.value)
      && exists i :: 0 <= i < |t| && t[i].tmc == k && Cell(t[i], c) == r
  {
    if t == [] then None
    else
      var rest := GroupMax(t[1..], k, c);
      var here := if t[0].tmc == k then Cell(t[0], c) else None;
      ShiftGroup(t, k, c, rest);
      if here.None? then rest
      else if rest.None? || here.value >= rest.value then here
      else rest
  }

  /** What the rows after the first say about a group's cells, restated with
      indices into the whole table. */
  lemma ShiftGroup(t: seq<Row>, k: string, c: string, rest: Option<real>)
    requires t != []
    requires rest.Some? <==> exists i :: 0 <= i < |t[1..]| && t[1..][i].tmc == k && Cell(t[1..][i], c).Some?
    requires rest.Some? ==>
      (forall i :: 0 <= i < |t[1..]| && t[1..][i].tmc == k && Cell(t[1..][i], c).Some? ==> Cell(t[1..][i], c).value <= rest.value)
      && exists i :: 0 <= i < |t[1..]| && t[1..][i].tmc == k && Cell(t[1..][i], c) == rest
    ensures rest.Some? <==> exists i :: 1 <= i < |t| && t[i].tmc == k && Cell(t[i], c).Some?
    ensures rest.Some? ==>
      (forall i :: 1 <= i < |t| && t[i].tmc == k && Cell(t[i], c).Some? ==> Cell(t[i], c).value <= rest.value)
      && exists i :: 1 <= i < |t| && t[i].tmc == k && Cell(t[i], c) == rest
  {
    if exists i :: 1 <= i < |t| && t[i].tmc == k && Cell(t[i], c).Some? {
      var i :| 1 <= i < |t| && t[i].tmc == k && Cell(t[i], c).Some?;
      assert t[1..][i - 1] == t[i];
    }
    if rest.Some? {
      var i :| 0 <= i < |t[1..]| && t[1..][i].tmc == k && Cell(t[1..][i], c) == rest;
      assert t[i + 1] == t[1..][i];
      forall j | 1 <= j < |t| && t[j].tmc == k && Cell(t[j], c).Some? ensures Cell(t[j], c).value <= rest.value {
        assert t[1..][j - 1] == t[j];
      }
    }
  }

  /** The value column c contributes for one row to a sum: missing counts as nothing. */
  function Contribution(x: Row, c: string): real
  {
    if c in x.cols then x.cols[c] else 0.0
  }

  /** The `sum` aggregation of column c over the rows of TMC k, skipping missing cells. */
  function GroupSum(t: seq<Row>, k: string, c: string): real
  {
    if t == [] then 0.0
    else (if t[0].tmc == k then Contribution(t[0], c) else 0.0) + GroupSum(t[1..], k, c)
  }

  /** A group's sum is the sum of the column over the group's rows. */
  lemma {:induction false} GroupSumOfRows(t: seq<Row>, k: string, c: string)
    ensures GroupSum(t, k, c) == SumColumn(RowsOf(t, k), c)
  {
    if t != [] {
      GroupSumOfRows(t[1..], k, c);
      var keep := (x: Row) => x.tmc == k;
      var h := if keep(t[0]) then [t[0]] else [];
      assert RowsOf(t, k) == h + Where(t[1..], keep);
      SumColumnConcat(h, Where(t[1..], keep), c);
      if keep(t[0]) {
        assert SumColumn(h, c) == Contribution(t[0], c) + SumColumn([], c);
      }
    }
  }

  /** Over a column with no negative value, every group sums to at least zero. */
  lemma {:induction false} GroupSumNonNegative(t: seq<Row>, k: string, c: string)
    requires NonNegativeColumn(t, c)
    ensures GroupSum(t, k, c) >= 0.0
  {
    if t != [] {
      assert NonNegativeColumn(t[1..], c) by {
        forall i | 0 <= i < |t[1..]| ensures c in t[1..][i].cols ==> 0.0 <= t[1..][i].cols[c] {
          assert t[1..][i] == t[i + 1];
        }
      }
      GroupSumNonNegative(t[1..], k, c);
    }
  }

  /** The group sums of column c for the keys ks, added up. */
  function SumOfGroups(t: seq<Row>, ks: seq<string>, c: string): real
  {
    if ks == [] then 0.0 else GroupSum(t, ks[0], c) + SumOfGroups(t, ks[1..], c)
  }

  /** Peeling the first row off every group: it lands in exactly one group when its key is listed once. */
  lemma {:induction false} SumOfGroupsStep(t: seq<Row>, ks: seq<string>, c: string)
    requires t != [] && NoDups(ks)
    ensures SumOfGroups(t, ks, c)
      == (if t[0].tmc in ks then Contribution(t[0], c) else 0.0) + SumOfGroups(t[1..], ks, c)
  {
    if ks != [] {
      var k := ks[0];
      assert NoDups(ks[1..]) by {
        forall i, j | 0 <= i < j < |ks[1..]| ensures ks[1..][i] != ks[1..][j] {
          assert ks[1..][i] == ks[i + 1] && ks[1..][j] == ks[j + 1];
        }
      }
      SumOfGroupsStep(t, ks[1..], c);
      if t[0].tmc == k {
        assert t[0].tmc !in ks[1..] by {
          forall j | 0 <= j < |ks[1..]| ensures ks[1..][j] != k {
            assert ks[1..][j] == ks[j + 1];
          }
        }
      } else {
        assert t[0].tmc in ks <==> t[0].tmc in ks[1..] by {
          assert ks == [k] + ks[1..];
        }
      }
    }
  }

  /** Grouping neither loses nor double-counts: when every TMC of t is listed
      exactly once in ks, the group sums of column c add up to the column's sum. */
  lemma {:induction false} GroupSumsConserve(t: seq<Row>, ks: seq<string>, c: string)
    requires NoDups(ks) && forall i :: 0 <= i < |t| ==> t[i].tmc in ks
    ensures SumOfGroups(t, ks, c) == SumColumn(t, c)
  {
    if t == [] {
      EmptyGroups(ks, c);
    } else {
      SumOfGroupsStep(t, ks, c);
      GroupSumsConserve(t[1..], ks, c);
    }
  }

  lemma {:induction false} EmptyGroups(ks: seq<string>, c: string)
    ensures SumOfGroups([], ks, c) == 0.0
  {
    if ks != [] {
      EmptyGroups(ks[1..], c);
    }
  }

  /** A column-wise vectorised assignment: every row replaced by f of itself. */
  function MapRows(t: seq<Row>, f: Row -> Row): (r: seq<Row>)
    ensures |r| == |t| && forall i :: 0 <= i < |t| ==> r[i] == f(t[i])
  {
    seq(|t|, i requires 0 <= i < |t| => f(t[i]))
  }

  /** `df[c] = v` for one row: a present value is stored, a missing one (NaN)
      leaves the cell missing. Every other cell keeps its value. */
  function Put(x: Row, c: string, v: Option<real>): (r: Row)
    ensures r.tmc == x.tmc
    ensures Cell(r, c) == v
    ensures forall d :: d != c ==> Cell(r, d) == Cell(x, d)
    ensures r.cols.Keys <= x.cols.Keys + {c}
  {
    match v
    case Some(y) => Row(x.tmc, x.cols[c := y])
    case None => Row(x.tmc, x.cols - {c})
  }

  /** Cell arithmetic: a missing operand makes the result missing, and so does
      a zero divisor (pandas yields inf or NaN there). */
  function Plus(a: Option<real>, b: Option<real>): Option<real>
  {
    if a.Some? && b.Some? then Some(a.value + b.value) else None
  }

  function Minus(a: Option<real>, b: Option<real>): Option<real>
  {
    if a.Some? && b.Some? then Some(a.value - b.value) else None
  }

  function Times(a: Option<real>, b: Option<real>): Option<real>
  {
    if a.Some? && b.Some? then Some(a.value * b.value) else None
  }

  function Over(a: Option<real>, b: Option<real>): Option<real>
  {
    if a.Some? && b.Some? && b.value != 0.0 then Some(a.value / b.value) else None
  }

  /** `.round()` of a cell: half to even, a missing value stays missing. */
  function RoundCell(a: Option<real>): Option<real>
  {
    if a.Some? then Some(Round(a.value)) else None
  }

  /** A comparison with a missing value is false, as for NaN. */
  predicate Below(a: Option<real>, bound: real)
  {
    a.Some? && a.value < bound
  }

  /** A pandas DataFrame that functions update in place by assigning columns. */
  class Frame {
    var rows: seq<Row>

    constructor (rows: seq<Row>)
      ensures this.rows == rows
    {
      this.rows := rows;
    }
  }

  /** The decimal text of an hour of the day, as `'{}'.format(hour)` writes it. */
  function HourText(h: int): (r: string)
    requires 0 <= h < 24
    ensures 1 <= |r| <= 2
    ensures forall i :: 0 <= i < |r| ==> '0' <= r[i] <= '9'
  {
    var digits := "0123456789";
    if h < 10 then [digits[h]] else [digits[h / 10], digits[h % 10]]
  }

  lemma HourTextInjective(a: int, b: int)
    requires 0 <= a < 24 && 0 <= b < 24 && HourText(a) == HourText(b)
    ensures a == b
  {
    var digits := "0123456789";
    assert forall i, j :: 0 <= i < j < 10 ==> digits[i] != digits[j];
    if a < 10 && b < 10 {
      assert HourText(a)[0] == digits[a];
      assert HourText(b)[0] == digits[b];
    } else if a >= 10 && b >= 10 {
      assert HourText(a)[0] == digits[a / 10] && HourText(a)[1] == digits[a % 10];
      assert HourText(b)[0] == digits[b / 10] && HourText(b)[1] == digits[b % 10];
    }
  }

  /** The per-hour column name `'hour_{h}_<suffix>'`. */
  function HourColumn(h: int, suffix: string): string
    requires 0 <= h < 24
  {
    "hour_" + HourText(h) + "_" + suffix
  }

  /** Past its end, a digit run is followed by the underscore. */
  lemma UnderscoreAt(t: string, s: string, i: int)
    requires i == |t|
    ensures (t + "_" + s)[i] == '_'
  {
  }

  /** A run of digits ends where the first underscore is. */
  lemma DigitsThenUnderscore(ta: string, sa: string, tb: string, sb: string)
    requires forall i :: 0 <= i < |ta| ==> '0' <= ta[i] <= '9'
    requires forall i :: 0 <= i < |tb| ==> '0' <= tb[i] <= '9'
    requires ta + "_" + sa == tb + "_" + sb
    ensures ta == tb && sa == sb
  {
    var ya, yb := ta + "_" + sa, tb + "_" + sb;
    if |ta| < |tb| {
      UnderscoreAt(ta, sa, |ta|);
      assert false;
    } else if |tb| < |ta| {
      UnderscoreAt(tb, sb, |tb|);
      assert false;
    }
    assert ta == ya[..|ta|] && tb == yb[..|tb|];
    assert sa == ya[|ta| + 1..] && sb == yb[|tb| + 1..];
  }

  /** Distinct hours or distinct suffixes give distinct column names, so the
      24 merges of an hour loop never overwrite one another's columns. */
  lemma HourColumnInjective(a: int, sa: string, b: int, sb: string)
    requires 0 <= a < 24 && 0 <= b < 24
    requires HourColumn(a, sa) == HourColumn(b, sb)
    ensures a == b && sa == sb
  {
    var ta, tb := HourText(a), HourText(b);
    var x := HourColumn(a, sa);
    assert x == "hour_" + (ta + "_" + sa);
    assert HourColumn(b, sb) == "hour_" + (tb + "_" + sb);
    assert ta + "_" + sa == x[5..] == tb + "_" + sb;
    DigitsThenUnderscore(ta, sa, tb, sb);
    HourTextInjective(a, b);
  }
}
