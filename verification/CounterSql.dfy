/** What the counter queries of the IR-to-SQL compiler compute: `rate_sql` and `increase_sql` without group-by. */
module CounterSql {
  import opened Basics
  import Decimal
  import Durations

  /* ----- sums over finite sets ----- */

  ghost function Sum<T(!new)>(s: set<T>, f: T -> real): real
    decreases s
  {
    if s == {} then 0.0 else var x :| x in s; f(x) + Sum(s - {x}, f)
  }

  lemma {:induction false} SumWithout<T(!new)>(s: set<T>, f: T -> real, x: T)
    requires x in s
    ensures Sum(s, f) == f(x) + Sum(s - {x}, f)
    decreases s
  {
    var y :| y in s && Sum(s, f) == f(y) + Sum(s - {y}, f);
    if y != x {
      SumWithout(s - {y}, f, x);
      SumWithout(s - {x}, f, y);
      assert s - {y} - {x} == s - {x} - {y};
    }
  }

  lemma {:induction false} SumSame<T(!new)>(s: set<T>, f: T -> real, g: T -> real)
    requires forall x | x in s :: f(x) == g(x)
    ensures Sum(s, f) == Sum(s, g)
    decreases s
  {
    if s != {} {
      var x :| x in s;
      SumWithout(s, f, x);
      SumWithout(s, g, x);
      SumSame(s - {x}, f, g);
    }
  }

  lemma {:induction false} SumSplit<T(!new)>(a: set<T>, b: set<T>, f: T -> real)
    requires a !! b
    ensures Sum(a + b, f) == Sum(a, f) + Sum(b, f)
    decreases a
  {
    if a == {} {
      assert a + b == b;
    } else {
      var x :| x in a;
      SumWithout(a, f, x);
      SumWithout(a + b, f, x);
      SumSplit(a - {x}, b, f);
      assert (a + b) - {x} == (a - {x}) + b;
    }
  }

  ghost function Class<T(!new), K(!new)>(s: set<T>, key: T -> K, k: K): set<T> {
    set x | x in s && key(x) == k
  }

  ghost function ClassSum<T(!new), K(!new)>(s: set<T>, key: T -> K, f: T -> real): K -> real {
    k => Sum(Class(s, key, k), f)
  }

  /** Grouping by a key and adding up the groups gives the whole sum. */
  lemma {:induction false} SumByClass<T(!new), K(!new)>(s: set<T>, key: T -> K, f: T -> real, keys: set<K>)
    requires forall x | x in s :: key(x) in keys
    ensures Sum(keys, ClassSum(s, key, f)) == Sum(s, f)
    decreases keys
  {
    if keys == {} {
      assert s == {};
    } else {
      var k :| k in keys;
      var own := Class(s, key, k);
      var rest := s - own;
      SumWithout(keys, ClassSum(s, key, f), k);
      SumByClass(rest, key, f, keys - {k});
      forall j | j in keys - {k} ensures ClassSum(s, key, f)(j) == ClassSum(rest, key, f)(j) {
        assert Class(s, key, j) == Class(rest, key, j);
      }
      SumSame(keys - {k}, ClassSum(s, key, f), ClassSum(rest, key, f));
      SumSplit(own, rest, f);
      assert own + rest == s;
    }
  }

  /* ----- the window query ----- */

  datatype Row = Row(series: int, time: int, value: real)

  /** Rows of one series carry distinct timestamps. */
  ghost predicate DistinctTimes(rows: set<Row>) {
    forall a, b | a in rows && b in rows && a.series == b.series && a.time == b.time :: a == b
  }

  /** `p` is the row before `r` in `PARTITION BY metric_series_id ORDER BY time_unix_nano`. */
  ghost predicate IsBefore(rows: set<Row>, r: Row, p: Row) {
    p in rows && p.series == r.series && p.time < r.time
    && forall q | q in rows && q.series == r.series && q.time < r.time :: q.time <= p.time
  }

  /** `lagInFrame(value, 1, value)`: the value before, or the row's own value on the first row. */
  ghost function Lag(rows: set<Row>, r: Row): real {
    if HasBefore(rows, r) then Before(rows, r).value else r.value
  }

  ghost predicate HasBefore(rows: set<Row>, r: Row) { exists p :: IsBefore(rows, r, p) }

  ghost function Before(rows: set<Row>, r: Row): (p: Row)
    requires HasBefore(rows, r)
    ensures IsBefore(rows, r, p)
  {
    var p :| IsBefore(rows, r, p); p
  }

  /** `if(delta < 0, value, delta)` */
  ghost function Part(rows: set<Row>, r: Row): real {
    var delta := r.value - Lag(rows, r);
    if delta < 0.0 then r.value else delta
  }

  ghost function Contribution(rows: set<Row>): Row -> real { (r: Row) => Part(rows, r) }

  /** `increase_sql` */
  ghost function Increase(rows: set<Row>): real {
    Sum(rows, Contribution(rows))
  }

  ghost function Buckets(rows: set<Row>, bucket: int -> int): set<int> {
    set r | r in rows :: bucket(r.time)
  }

  ghost function BucketOf(bucket: int -> int): Row -> int { (r: Row) => bucket(r.time) }

  /** A quotient, if it is a number. */
  function Quotient(x: real, y: real): Option<real> { if y == 0.0 then None else Some(x / y) }

  /** `rate_sql`: one row per bucket. The interval is the resolution in seconds, and a resolution of zero, like `0m`, is
      accepted. */
  ghost function Rate(rows: set<Row>, bucket: int -> int, secs: real): map<int, Option<real>> {
    map b | b in Buckets(rows, bucket) :: Quotient(Sum(Class(rows, BucketOf(bucket), b), Contribution(rows)), secs)
  }

  /* ----- telescoping ----- */

  ghost predicate OneSeries(rows: set<Row>) {
    forall a, b | a in rows && b in rows :: a.series == b.series
  }

  ghost predicate IsFirst(rows: set<Row>, r: Row) { r in rows && forall q | q in rows :: r.time <= q.time }

  ghost predicate IsLast(rows: set<Row>, r: Row) { r in rows && forall q | q in rows :: q.time <= r.time }

  /** The rows at which the counter restarted. */
  ghost function Resets(rows: set<Row>): set<Row> {
    set r | r in rows && r.value < Lag(rows, r)
  }

  lemma {:induction false} LastExists(rows: set<Row>) returns (r: Row)
    requires rows != {}
    ensures IsLast(rows, r)
    decreases rows
  {
    var x :| x in rows;
    if rows == {x} {
      r := x;
    } else {
      var y := LastExists(rows - {x});
      r := if x.time < y.time then y else x;
    }
  }

  lemma LagIs(rows: set<Row>, r: Row, p: Row)
    requires DistinctTimes(rows) && IsBefore(rows, r, p)
    ensures Lag(rows, r) == p.value
  {
    assert HasBefore(rows, r);
    assert Before(rows, r) == p;
  }

  /** A later row does not change what comes before an earlier one. */
  lemma LagWithoutLast(rows: set<Row>, last: Row, r: Row)
    requires DistinctTimes(rows) && OneSeries(rows) && IsLast(rows, last) && r in rows - {last}
    ensures Lag(rows - {last}, r) == Lag(rows, r)
  {
    var before := rows - {last};
    forall p ensures IsBefore(rows, r, p) <==> IsBefore(before, r, p) {
      assert r.time < last.time;
    }
    if p :| IsBefore(rows, r, p) {
      LagIs(rows, r, p);
      LagIs(before, r, p);
    }
  }

  lemma ResetsWithoutLast(rows: set<Row>, last: Row)
    requires DistinctTimes(rows) && OneSeries(rows) && IsLast(rows, last)
    ensures Resets(rows - {last}) == Resets(rows) - {last}
    ensures forall r | r in rows - {last} :: Lag(rows - {last}, r) == Lag(rows, r)
  {
    forall r | r in rows - {last} ensures Lag(rows - {last}, r) == Lag(rows, r) { LagWithoutLast(rows, last, r); }
  }

  ghost function LagOf(rows: set<Row>): Row -> real { (r: Row) => Lag(rows, r) }

  lemma IncreaseWithoutLast(rows: set<Row>, last: Row)
    requires DistinctTimes(rows) && OneSeries(rows) && IsLast(rows, last)
    ensures Increase(rows) == Increase(rows - {last}) + Part(rows, last)
  {
    SumWithout(rows, Contribution(rows), last);
    forall r | r in rows - {last} ensures Contribution(rows)(r) == Contribution(rows - {last})(r) {
      LagWithoutLast(rows, last, r);
    }
    SumSame(rows - {last}, Contribution(rows), Contribution(rows - {last}));
  }

  lemma ResetSumWithoutLast(rows: set<Row>, last: Row)
    requires DistinctTimes(rows) && OneSeries(rows) && IsLast(rows, last)
    ensures Sum(Resets(rows), LagOf(rows)) ==
              Sum(Resets(rows - {last}), LagOf(rows - {last})) + if last in Resets(rows) then Lag(rows, last) else 0.0
  {
    var before := rows - {last};
    ResetsWithoutLast(rows, last);
    if last in Resets(rows) {
      SumWithout(Resets(rows), LagOf(rows), last);
    } else {
      assert Resets(rows) - {last} == Resets(rows);
    }
    SumSame(Resets(before), LagOf(rows), LagOf(before));
  }

  lemma SingleRow(r: Row)
    ensures Increase({r}) == 0.0 && Sum(Resets({r}), LagOf({r})) == 0.0
  {
    assert forall p :: !IsBefore({r}, r, p);
    assert Resets({r}) == {};
    SumWithout({r}, Contribution({r}), r);
    assert {r} - {r} == {};
  }

  /** In one series the reset-aware sum is the last value minus the first, plus every value just before a reset. */
  lemma {:induction false} IncreaseTelescopes(rows: set<Row>, first: Row, last: Row)
    requires DistinctTimes(rows) && OneSeries(rows) && IsFirst(rows, first) && IsLast(rows, last)
    ensures Increase(rows) == last.value - first.value + Sum(Resets(rows), LagOf(rows))
    decreases rows
  {
    var before := rows - {last};
    if before == {} {
      assert rows == {last};
      SingleRow(last);
    } else {
      var p := LastExists(before);
      PreviousOfLast(rows, last, p);
      assert first != last;
      IncreaseTelescopes(before, first, p);
      IncreaseWithoutLast(rows, last);
      ResetSumWithoutLast(rows, last);
    }
  }

  lemma PreviousOfLast(rows: set<Row>, last: Row, p: Row)
    requires DistinctTimes(rows) && OneSeries(rows) && IsLast(rows, last) && IsLast(rows - {last}, p)
    ensures Lag(rows, last) == p.value
    ensures forall q | IsFirst(rows, q) :: q != last && IsFirst(rows - {last}, q)
  {
    assert IsBefore(rows, last, p);
    LagIs(rows, last, p);
  }

  /* ----- several series, and buckets ----- */

  ghost function SeriesOf(): Row -> int { (r: Row) => r.series }

  lemma ContributionOwnSeries(rows: set<Row>, r: Row)
    requires DistinctTimes(rows) && r in rows
    ensures Part(Class(rows, SeriesOf(), r.series), r) == Part(rows, r)
  {
    var own := Class(rows, SeriesOf(), r.series);
    forall p ensures IsBefore(rows, r, p) <==> IsBefore(own, r, p) {}
    if p :| IsBefore(rows, r, p) {
      LagIs(rows, r, p);
      LagIs(own, r, p);
    }
  }

  ghost function SeriesIds(rows: set<Row>): set<int> { set r | r in rows :: r.series }

  ghost function SeriesIncrease(rows: set<Row>): int -> real {
    k => Increase(Class(rows, SeriesOf(), k))
  }

  lemma SeriesSum(rows: set<Row>, k: int)
    requires DistinctTimes(rows)
    ensures ClassSum(rows, SeriesOf(), Contribution(rows))(k) == SeriesIncrease(rows)(k)
  {
    var own := Class(rows, SeriesOf(), k);
    forall r | r in own ensures Contribution(rows)(r) == Contribution(own)(r) { ContributionOwnSeries(rows, r); }
    SumSame(own, Contribution(rows), Contribution(own));
  }

  /** Over several series the increase is the sum of the increases of each. */
  lemma IncreaseBySeries(rows: set<Row>)
    requires DistinctTimes(rows)
    ensures Increase(rows) == Sum(SeriesIds(rows), SeriesIncrease(rows))
  {
    var keys := SeriesIds(rows);
    SumByClass(rows, SeriesOf(), Contribution(rows), keys);
    forall k | k in keys ensures ClassSum(rows, SeriesOf(), Contribution(rows))(k) == SeriesIncrease(rows)(k) {
      SeriesSum(rows, k);
    }
    SumSame(keys, ClassSum(rows, SeriesOf(), Contribution(rows)), SeriesIncrease(rows));
  }

  ghost function BucketTotal(rates: map<int, Option<real>>, secs: real): int -> real {
    b => if b in rates && rates[b].Some? then rates[b].value * secs else 0.0
  }

  lemma DivideMultiply(x: real, y: real)
    requires y != 0.0
    ensures x / y * y == x
  {
  }

  lemma BucketSum(rows: set<Row>, bucket: int -> int, secs: real, b: int)
    requires secs != 0.0 && b in Buckets(rows, bucket)
    ensures ClassSum(rows, BucketOf(bucket), Contribution(rows))(b) == BucketTotal(Rate(rows, bucket, secs), secs)(b)
  {
    DivideMultiply(Sum(Class(rows, BucketOf(bucket), b), Contribution(rows)), secs);
  }

  lemma RatesSum(rows: set<Row>, bucket: int -> int, secs: real)
    requires secs != 0.0
    ensures Sum(Rate(rows, bucket, secs).Keys, BucketTotal(Rate(rows, bucket, secs), secs)) == Increase(rows)
  {
    var key, keys, rates := BucketOf(bucket), Buckets(rows, bucket), Rate(rows, bucket, secs);
    SumByClass(rows, key, Contribution(rows), keys);
    forall b | b in keys ensures ClassSum(rows, key, Contribution(rows))(b) == BucketTotal(rates, secs)(b) {
      BucketSum(rows, bucket, secs, b);
    }
    SumSame(keys, ClassSum(rows, key, Contribution(rows)), BucketTotal(rates, secs));
    assert rates.Keys == keys;
  }

  /** Every bucket has a rate that is a number. */
  ghost predicate AllNumbers(rates: map<int, Option<real>>) { forall b | b in rates :: rates[b].Some? }

  /** For every resolution that the query accepts and whatever the buckets are, the rates are numbers exactly if the
      resolution is not zero or there is no row, and then the rates times the interval add up to the increase over the
      same rows. */
  lemma RatesSumToIncrease(rows: set<Row>, bucket: int -> int, resolution: string)
    requires Durations.IntervalToSecs(resolution).Ok?
    ensures var secs := Durations.IntervalToSecs(resolution).value;
      var rates := Rate(rows, bucket, secs);
      && (AllNumbers(rates) <==> secs != 0.0 || rows == {})
      && (AllNumbers(rates) ==> Sum(rates.Keys, BucketTotal(rates, secs)) == Increase(rows))
  {
    var secs := Durations.IntervalToSecs(resolution).value;
    NumbersIff(rows, bucket, secs);
    if secs != 0.0 { RatesSum(rows, bucket, secs); }
  }

  lemma NumbersIff(rows: set<Row>, bucket: int -> int, secs: real)
    ensures AllNumbers(Rate(rows, bucket, secs)) <==> secs != 0.0 || rows == {}
    ensures rows == {}
            ==> Sum(Rate(rows, bucket, secs).Keys, BucketTotal(Rate(rows, bucket, secs), secs)) == Increase(rows)
  {
    var rates := Rate(rows, bucket, secs);
    assert rates.Keys == Buckets(rows, bucket);
    forall b | b in rates ensures rates[b].Some? <==> secs != 0.0 {
      assert rates[b] == Quotient(Sum(Class(rows, BucketOf(bucket), b), Contribution(rows)), secs);
    }
    if rows != {} {
      var r :| r in rows;
      var b := bucket(r.time);
      assert b in rates;
      assert rates[b].Some? <==> secs != 0.0;
      assert AllNumbers(rates) ==> rates[b].Some?;
      if secs != 0.0 { assert AllNumbers(rates); }
    }
  }

  /** The resolution `0m` is accepted and gives an interval of zero. */
  lemma ZeroAccepted()
    ensures Durations.IntervalToSecs("0m") == Durations.Ok(0.0)
  {
    var s := "0m";
    assert Durations.TrimStart(s) == s && Durations.TrimEnd(s) == s;
    assert s[1..] == "m" && s[..1] == "0" && "0"[..0] == "";
    assert Decimal.DigitRun("m") == 0 && Decimal.DigitRun(s) == 1;
    assert Decimal.Value("0") == 0;
    assert Durations.ParseU64(s[..1]) == Some(0);
    assert Durations.ParseDurationStr(s) == Some((0, "m"));
  }

  /** A query at that resolution over a single row: its bucket has no number for a rate. */
  lemma ZeroResolutionHasNoRate(r: Row, bucket: int -> int)
    ensures var secs := Durations.IntervalToSecs("0m").value;
      var rates := Rate({r}, bucket, secs);
      bucket(r.time) in rates && rates[bucket(r.time)] == None && !AllNumbers(rates)
  {
    ZeroAccepted();
    hide Durations.IntervalToSecs;
    NumbersIff({r}, bucket, 0.0);
    assert r in {r} && bucket(r.time) in Buckets({r}, bucket);
    assert {r} != {};
  }
}
