/**
  The statistics panel: the present readings, their average, minimum and
  maximum, and how many fall below, inside and above the target range.
 */
module Statistics {
  import opened Wrappers
  import opened ReadingSet

  /** The summary the panel shows, or the empty state when no hour has a reading. */
  datatype Stats =
    | NoReadings
    | Summary(count: nat, average: real, min: real, max: real, below: nat, inRange: nat, above: nat)

  /** The non-null slots, in hour order. */
  function Present(s: Slots): (xs: seq<real>)
    ensures |xs| <= |s|
  {
    if |s| == 0 then []
    else (if s[0].Some? then [s[0].value] else []) + Present(s[1..])
  }

  /** The present readings are exactly the values of the non-null slots. */
  lemma {:induction false} PresentMembers(s: Slots)
    ensures forall v :: v in Present(s) <==> exists h :: 0 <= h < |s| && s[h] == Some(v)
  {
    if |s| > 0 {
      var rest := Present(s[1..]);
      PresentMembers(s[1..]);
      forall v | v in rest ensures exists h :: 1 <= h < |s| && s[h] == Some(v) {
        var h' :| 0 <= h' < |s[1..]| && s[1..][h'] == Some(v);
        assert s[h' + 1] == Some(v);
      }
      forall v | (exists h :: 1 <= h < |s| && s[h] == Some(v)) ensures v in rest {
        var h :| 1 <= h < |s| && s[h] == Some(v);
        assert s[1..][h - 1] == Some(v);
      }
    }
  }

  /** `Array.prototype.filter` on readings: the elements satisfying `p`, order kept. */
  function Filter(xs: seq<real>, p: real -> bool): (ys: seq<real>)
    ensures |ys| <= |xs|
    ensures forall v {:trigger v in ys} :: v in ys <==> v in xs && p(v)
    ensures forall v {:trigger multiset(ys)[v]} :: multiset(ys)[v] == if p(v) then multiset(xs)[v] else 0
  {
    if |xs| == 0 then []
    else
      var rest := Filter(xs[1..], p);
      FilterStep(xs, rest, p);
      (if p(xs[0]) then [xs[0]] else []) + rest
  }

  /** One step of `Filter`: keeping or dropping the head preserves the multiplicity law. */
  lemma FilterStep(xs: seq<real>, rest: seq<real>, p: real -> bool)
    requires |xs| > 0
    requires forall v :: multiset(rest)[v] == if p(v) then multiset(xs[1..])[v] else 0
    ensures forall v :: multiset((if p(xs[0]) then [xs[0]] else []) + rest)[v]
                        == if p(v) then multiset(xs)[v] else 0
    ensures forall v :: v in (if p(xs[0]) then [xs[0]] else []) + rest <==> v in xs && p(v)
  {
    var head := if p(xs[0]) then [xs[0]] else [];
    var ys := head + rest;
    assert xs == [xs[0]] + xs[1..];
    assert multiset(xs) == multiset{xs[0]} + multiset(xs[1..]);
    assert multiset(ys) == multiset(head) + multiset(rest);
    assert forall v :: multiset(ys)[v] == if p(v) then multiset(xs)[v] else 0;
    assert forall v :: (v in ys <==> multiset(ys)[v] > 0) && (v in xs <==> multiset(xs)[v] > 0);
  }


  /** `Filter` unfolded once: the head is kept exactly when it satisfies `p`. */
  lemma FilterCons(xs: seq<real>, p: real -> bool)
    requires |xs| > 0
    ensures Filter(xs, p) == (if p(xs[0]) then [xs[0]] else []) + Filter(xs[1..], p)
  {
  }

  /** The arithmetic sum of the readings, the reference the average is stated against. */
  function Sum(xs: seq<real>): real {
    if |xs| == 0 then 0.0 else xs[0] + Sum(xs[1..])
  }

  /** `reduce((sum, val) => sum + val, acc)`: the left fold, one reading at a time. */
  function Reduce(acc: real, xs: seq<real>): (r: real)
    ensures r == acc + Sum(xs)
    decreases |xs|
  {
    if |xs| == 0 then acc else Reduce(acc + xs[0], xs[1..])
  }

  /** `Math.min` over a non-empty list of readings. */
  function MinOf(xs: seq<real>): (m: real)
    requires |xs| > 0
    ensures m in xs
    ensures forall v :: v in xs ==> m <= v
  {
    if |xs| == 1 then xs[0]
    else
      assert xs == [xs[0]] + xs[1..];
      var m := MinOf(xs[1..]);
      if xs[0] < m then xs[0] else m
  }

  /** `Math.max` over a non-empty list of readings. */
  function MaxOf(xs: seq<real>): (m: real)
    requires |xs| > 0
    ensures m in xs
    ensures forall v :: v in xs ==> v <= m
  {
    if |xs| == 1 then xs[0]
    else
      assert xs == [xs[0]] + xs[1..];
      var m := MaxOf(xs[1..]);
      if xs[0] > m then xs[0] else m
  }

  /** The three range filters as the panel writes them. */
  predicate IsBelow(v: real) {
    v < LowThreshold
  }

  predicate InTarget(v: real) {
    v >= LowThreshold && v <= HighThreshold
  }

  predicate IsAbove(v: real) {
    v > HighThreshold
  }

  /** Readings bounded by `lo` and `hi` sum to between `|xs| * lo` and `|xs| * hi`. */
  lemma {:induction false} SumBounds(xs: seq<real>, lo: real, hi: real)
    requires forall v :: v in xs ==> lo <= v <= hi
    ensures |xs| as real * lo <= Sum(xs) <= |xs| as real * hi
  {
    if |xs| > 0 {
      assert forall v :: v in xs[1..] ==> v in xs;
      SumBounds(xs[1..], lo, hi);
      assert xs[0] in xs;
      AddBounded(|xs[1..]| as real, lo, hi, xs[0], Sum(xs[1..]));
    }
  }

  /** One more reading between `lo` and `hi` extends the bounds of a sum by one term. */
  lemma AddBounded(n: real, lo: real, hi: real, x: real, rest: real)
    requires lo <= x <= hi
    requires n * lo <= rest <= n * hi
    ensures (n + 1.0) * lo <= x + rest <= (n + 1.0) * hi
  {
    assert (n + 1.0) * lo == n * lo + lo;
    assert (n + 1.0) * hi == n * hi + hi;
  }

  /** Every reading passes exactly one of the three range filters. */
  lemma {:induction false} RangesPartition(xs: seq<real>)
    ensures |Filter(xs, IsBelow)| + |Filter(xs, InTarget)| + |Filter(xs, IsAbove)| == |xs|
  {
    if |xs| > 0 {
      RangesPartition(xs[1..]);
    }
  }

  /** The average of readings lying between `lo` and `hi` lies there too. */
  lemma AverageBetween(xs: seq<real>, lo: real, hi: real)
    requires |xs| > 0
    requires forall v :: v in xs ==> lo <= v <= hi
    ensures lo <= Sum(xs) / |xs| as real <= hi
  {
    var n := |xs| as real;
    SumBounds(xs, lo, hi);
    DivideBounds(Sum(xs), n, lo, hi);
  }

  /** Dividing `n * lo <= t <= n * hi` by a positive `n`. */
  lemma DivideBounds(t: real, n: real, lo: real, hi: real)
    requires n > 0.0
    requires n * lo <= t <= n * hi
    ensures lo <= t / n <= hi
  {
    var a := t / n;
    assert a * n == t;
    assert n * (a - lo) >= 0.0;
    assert n * (hi - a) >= 0.0;
  }

  /** The summary of a non-empty list of readings. */
  function SummaryOf(xs: seq<real>): (st: Stats)
    requires |xs| > 0
    ensures st.Summary? && st.count == |xs|
    ensures st.average == Sum(xs) / st.count as real
    ensures st.min in xs && st.max in xs
    ensures forall v :: v in xs ==> st.min <= v <= st.max
    ensures st.min <= st.average <= st.max
    ensures st.below + st.inRange + st.above == st.count
    ensures st.below == |Filter(xs, IsBelow)|
    ensures st.inRange == |Filter(xs, InTarget)|
    ensures st.above == |Filter(xs, IsAbove)|
  {
    var lo, hi := MinOf(xs), MaxOf(xs);
    var n := |xs| as real;
    var average := Reduce(0.0, xs) / n;
    AverageBetween(xs, lo, hi);
    RangesPartition(xs);
    Summary(|xs|, average, lo, hi,
            |Filter(xs, IsBelow)|, |Filter(xs, InTarget)|, |Filter(xs, IsAbove)|)
  }

  /**
    The panel's computation: the empty state when no slot has a reading,
    otherwise count, average, minimum, maximum and the three range counts
    of the present readings.
   */
  function Summarize(s: Slots): (st: Stats)
    ensures st.NoReadings? <==> |Present(s)| == 0
    ensures st.Summary? ==> st.count == |Present(s)| > 0
    ensures st.Summary? ==> st.average == Sum(Present(s)) / st.count as real
    ensures st.Summary? ==> st.min in Present(s) && st.max in Present(s)
    ensures st.Summary? ==> forall v :: v in Present(s) ==> st.min <= v <= st.max
    ensures st.Summary? ==> st.min <= st.average <= st.max
    ensures st.Summary? ==> st.below + st.inRange + st.above == st.count
    ensures st.Summary? ==>
      && st.below == |Filter(Present(s), IsBelow)|
      && st.inRange == |Filter(Present(s), InTarget)|
      && st.above == |Filter(Present(s), IsAbove)|
  {
    var xs := Present(s);
    if |xs| == 0 then NoReadings else SummaryOf(xs)
  }

  /** `(part / total) * 100`, one of the three range percentages. */
  function Percent(part: nat, total: nat): (r: real)
    requires total > 0
    ensures 0.0 <= r
    ensures part <= total ==> r <= 100.0
    ensures part == 0 ==> r == 0.0
    ensures part == total ==> r == 100.0
  {
    PercentBounds(part, total);
    part as real / total as real * 100.0
  }

  /** The quotient behind `Percent`: never negative, at most 1 for a part of the whole, 0 and 1 at the ends. */
  lemma PercentBounds(part: nat, total: nat)
    requires total > 0
    ensures 0.0 <= part as real / total as real
    ensures part <= total ==> part as real / total as real <= 1.0
    ensures part == 0 ==> part as real / total as real == 0.0
    ensures part == total ==> part as real / total as real == 1.0
  {
    NonNegativeQuotient(part as real, total as real);
    if part <= total {
      DivideBounds(part as real, total as real, 0.0, 1.0);
    }
    if part == total {
      DivideSelf(total as real);
    }
  }

  /** Each range percentage lies in [0, 100] and the three add up to 100. */
  lemma PercentagesPartition(s: Slots)
    requires Summarize(s).Summary?
    ensures var st := Summarize(s);
      && 0.0 <= Percent(st.below, st.count) <= 100.0
      && 0.0 <= Percent(st.inRange, st.count) <= 100.0
      && 0.0 <= Percent(st.above, st.count) <= 100.0
      && Percent(st.below, st.count) + Percent(st.inRange, st.count) + Percent(st.above, st.count) == 100.0
  {
    var st := Summarize(s);
    ThreePercentages(st.below, st.inRange, st.above, st.count);
  }

  /** Three parts of a positive total give percentages in [0, 100] that add up to 100. */
  lemma ThreePercentages(a: nat, b: nat, c: nat, n: nat)
    requires n > 0 && a + b + c == n
    ensures 0.0 <= Percent(a, n) <= 100.0
    ensures 0.0 <= Percent(b, n) <= 100.0
    ensures 0.0 <= Percent(c, n) <= 100.0
    ensures Percent(a, n) + Percent(b, n) + Percent(c, n) == 100.0
  {
    var t, x, y, z := n as real, a as real, b as real, c as real;
    AddQuotients(x, y, t);
    AddQuotients(x + y, z, t);
    assert x + y + z == t;
    DivideSelf(t);
  }

  lemma NonNegativeQuotient(x: real, t: real)
    requires x >= 0.0 && t > 0.0
    ensures x / t >= 0.0
  {
  }

  lemma DivideSelf(t: real)
    requires t > 0.0
    ensures t / t == 1.0
  {
  }

  lemma AddQuotients(x: real, y: real, t: real)
    requires t > 0.0
    ensures x / t + y / t == (x + y) / t
  {
  }

  /** The colour of the average card: the band of the average. */
  function AverageColor(st: Stats): (b: Band)
    requires st.Summary?
    ensures b == Low <==> st.average < LowThreshold
    ensures b == High <==> st.average > HighThreshold
  {
    Classify(st.average)
  }

  /** When every reading of the day falls in one band, so does the average card. */
  lemma UniformDayAverage(s: Slots, b: Band)
    requires Summarize(s).Summary?
    requires forall v :: v in Present(s) ==> Classify(v) == b
    ensures AverageColor(Summarize(s)) == b
  {
    var st := Summarize(s);
    assert Classify(st.min) == b && Classify(st.max) == b;
  }

  /** A day with no reading shows the empty state. */
  lemma AllAbsentHasNoReadings(s: Slots)
    requires forall h :: 0 <= h < |s| ==> s[h] == None
    ensures Summarize(s) == NoReadings
  {
    var xs := Present(s);
    PresentMembers(s);
    if |xs| > 0 {
      assert xs[0] in xs;
    }
  }

  /** Filtering distributes over concatenation of slot lists. */
  lemma {:induction false} PresentAppend(a: Slots, b: Slots)
    ensures Present(a + b) == Present(a) + Present(b)
    decreases |a|
  {
    if |a| == 0 {
      assert a + b == b;
    } else {
      var ab := a + b;
      assert ab[0] == a[0] && ab[1..] == a[1..] + b;
      PresentAppend(a[1..], b);
      PresentCons(ab);
      PresentCons(a);
    }
  }

  /** One unfolding of `Present`, stated on its own so that callers stay cheap. */
  lemma PresentCons(s: Slots)
    requires |s| > 0
    ensures Present(s) == (if s[0].Some? then [s[0].value] else []) + Present(s[1..])
  {
  }

  /** Four readings, 70, 180, 50 and 200, at hours 0 to 3 and none elsewhere. */
  lemma ExampleDay()
    ensures var s := [Some(70.0), Some(180.0), Some(50.0), Some(200.0)] + seq(Hours - 4, _ => None);
      var st := Summarize(s);
      && st == Summary(4, 125.0, 50.0, 200.0, 1, 2, 1)
      && Percent(st.below, st.count) == 25.0
      && Percent(st.inRange, st.count) == 50.0
      && Percent(st.above, st.count) == 25.0
  {
    var s := [Some(70.0), Some(180.0), Some(50.0), Some(200.0)] + seq(Hours - 4, _ => None);
    var xs := [70.0, 180.0, 50.0, 200.0];
    ExamplePresent(s);
    ExampleSummary(xs);
  }

  lemma ExamplePresent(s: Slots)
    requires s == [Some(70.0), Some(180.0), Some(50.0), Some(200.0)] + seq(Hours - 4, _ => None)
    ensures Present(s) == [70.0, 180.0, 50.0, 200.0]
  {
    var head: Slots := [Some(70.0), Some(180.0), Some(50.0), Some(200.0)];
    var tail: Slots := seq(Hours - 4, _ => None);
    PresentAppend(head, tail);
    AllAbsentHasNoReadings(tail);
    assert Present(head[3..]) == [200.0];
    assert Present(head[2..]) == [50.0, 200.0] by { assert head[2..][1..] == head[3..]; }
    assert Present(head[1..]) == [180.0, 50.0, 200.0] by { assert head[1..][1..] == head[2..]; }
  }

  lemma ExampleSummary(xs: seq<real>)
    requires xs == [70.0, 180.0, 50.0, 200.0]
    ensures SummaryOf(xs) == Summary(4, 125.0, 50.0, 200.0, 1, 2, 1)
    ensures Percent(1, 4) == 25.0 && Percent(2, 4) == 50.0
  {
    assert xs[1..][1..] == xs[2..];
    assert xs[2..][1..] == xs[3..];
    assert Sum(xs[3..]) == 200.0;
    assert Sum(xs[2..]) == 250.0;
    assert Sum(xs[1..]) == 430.0;
    assert MinOf(xs[2..]) == 50.0;
    assert MinOf(xs[1..]) == 50.0;
    assert MaxOf(xs[2..]) == 200.0;
    assert MaxOf(xs[1..]) == 200.0;
    FilterExample(xs);
  }

  lemma FilterExample(xs: seq<real>)
    requires xs == [70.0, 180.0, 50.0, 200.0]
    ensures |Filter(xs, IsBelow)| == 1
    ensures |Filter(xs, InTarget)| == 2
    ensures |Filter(xs, IsAbove)| == 1
  {
    assert xs[1..][1..] == xs[2..];
    assert xs[2..][1..] == xs[3..];
    FilterBelowExample(xs);
    FilterTargetExample(xs);
    FilterAboveExample(xs);
  }

  lemma FilterBelowExample(xs: seq<real>)
    requires xs == [70.0, 180.0, 50.0, 200.0]
    requires xs[1..][1..] == xs[2..] && xs[2..][1..] == xs[3..]
    ensures Filter(xs, IsBelow) == [50.0]
  {
    assert Filter(xs[3..], IsBelow) == [];
    assert Filter(xs[2..], IsBelow) == [50.0];
  }

  lemma FilterTargetExample(xs: seq<real>)
    requires xs == [70.0, 180.0, 50.0, 200.0]
    requires xs[1..][1..] == xs[2..] && xs[2..][1..] == xs[3..]
    ensures Filter(xs, InTarget) == [70.0, 180.0]
  {
    assert !InTarget(200.0) && !InTarget(50.0) && InTarget(180.0) && InTarget(70.0);
    FilterCons(xs[3..], InTarget);
    assert Filter(xs[3..], InTarget) == [];
    FilterCons(xs[2..], InTarget);
    assert Filter(xs[2..], InTarget) == [];
    FilterCons(xs[1..], InTarget);
    assert Filter(xs[1..], InTarget) == [180.0];
    FilterCons(xs, InTarget);
  }

  lemma FilterAboveExample(xs: seq<real>)
    requires xs == [70.0, 180.0, 50.0, 200.0]
    requires xs[1..][1..] == xs[2..] && xs[2..][1..] == xs[3..]
    ensures Filter(xs, IsAbove) == [200.0]
  {
    assert Filter(xs[3..], IsAbove) == [200.0];
    assert Filter(xs[2..], IsAbove) == [200.0];
  }
}
