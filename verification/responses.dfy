/** Response-time summaries (src/lib.rs `resp_times`, `ResponseTimes`): the
    median and mean of a collection of durations, and their human-friendly
    rendering. Durations are whole seconds. */
module Responses {
  import opened Wrappers
  import opened Collections
  import opened Sorting
  import opened Text

  /** 2^64: `as u64` reads an `i64` modulo this. */
  const U64Modulus: int := 0x1_0000_0000_0000_0000

  /** `lib::ResponseTimes`, both fields `std::time::Duration` in seconds. */
  datatype ResponseTimes = ResponseTimes(median: nat, mean: nat)
  {
    /** `median_time`: the median as `period` renders it. */
    function MedianTime(): (s: string)
      ensures Renders(s, median)
    {
      Period(median)
    }

    /** `average_time`: the mean as `period` renders it. */
    function AverageTime(): (s: string)
      ensures Renders(s, mean)
    {
      Period(mean)
    }
  }

  /** The natural order on durations, the key of `sorted()`. */
  function Identity(d: int): int
  {
    d
  }

  /** Durations strictly shorter than `m`. */
  function Under(m: int): int -> bool
  {
    d => d < m
  }

  /** Σ ds, exact (see README for the `i64` accumulator). */
  function Sum(ds: seq<int>): int
  {
    if |ds| == 0 then 0 else ds[0] + Sum(ds[1..])
  }

  lemma {:induction false} SumAppend(xs: seq<int>, ys: seq<int>)
    ensures Sum(xs + ys) == Sum(xs) + Sum(ys)
  {
    if |xs| == 0 {
      assert xs + ys == ys;
    } else {
      assert (xs + ys)[1..] == xs[1..] + ys;
      SumAppend(xs[1..], ys);
    }
  }

  /** A sum depends only on the multiset of its terms. */
  lemma {:induction false} SumPermutation(xs: seq<int>, ys: seq<int>)
    requires multiset(xs) == multiset(ys)
    ensures Sum(xs) == Sum(ys)
    decreases |xs|
  {
    if |xs| == 0 {
      assert |ys| == |multiset(ys)| == 0;
    } else {
      var j := PermutationSplit(xs, ys);
      var pre, post := ys[..j], ys[j + 1..];
      SumPermutation(xs[1..], pre + post);
      SumAppend(pre + [xs[0]], post);
      SumAppend(pre, [xs[0]]);
      SumAppend(pre, post);
      assert Sum([xs[0]]) == xs[0];
    }
  }

  /** In a sorted sequence, at most h elements are below the h-th. */
  lemma BelowRank(s: seq<int>, h: nat)
    requires SortedBy(s, Identity) && h < |s|
    ensures Count(s, Under(s[h])) <= h
  {
    var below := Under(s[h]);
    var post := s[h..];
    assert s == s[..h] + post;
    CountAppend(s[..h], post, below);
    forall i | 0 <= i < |post|
      ensures !below(post[i])
    {
      assert post[i] == s[h + i];
      assert i > 0 ==> Identity(s[h]) <= Identity(s[h + i]);
    }
    CountNone(post, below);
  }

  /** In a sorted sequence, at least h + 1 elements are no greater than the h-th. */
  lemma UpToRank(s: seq<int>, h: nat)
    requires SortedBy(s, Identity) && h < |s|
    ensures Count(s, Under(s[h] + 1)) >= h + 1
  {
    var upTo := Under(s[h] + 1);
    var pre := s[..h + 1];
    assert s == pre + s[h + 1..];
    CountAppend(pre, s[h + 1..], upTo);
    forall i | 0 <= i < |pre|
      ensures upTo(pre[i])
    {
      assert pre[i] == s[i];
      assert i < h ==> Identity(s[i]) <= Identity(s[h]);
    }
    CountAll(pre, upTo);
  }

  /** The rank of a median: at most half the durations lie below `m`, more
      than half at or below it. */
  ghost predicate IsMedian(ds: seq<int>, m: int)
  {
    m in ds && Count(ds, Under(m)) <= |ds| / 2 < Count(ds, Under(m + 1))
  }

  /** Fewer durations lie below a smaller bound. */
  lemma CountUnderMonotone(ds: seq<int>, a: int, b: int)
    ensures a <= b ==> Count(ds, Under(a)) <= Count(ds, Under(b))
  {
    if a <= b {
      CountMonotone(ds, Under(a), Under(b));
    }
  }

  /** The rank pins the median down: no two values have it. */
  lemma MedianUnique(ds: seq<int>, m1: int, m2: int)
    requires IsMedian(ds, m1) && IsMedian(ds, m2)
    ensures m1 == m2
  {
    CountUnderMonotone(ds, m1 + 1, m2);
    CountUnderMonotone(ds, m2 + 1, m1);
  }

  /** The element `resp_times` takes as the median, at index `len / 2`
      of the sorted durations: one of the durations, at its rank, and
      negative exactly when more than half the durations are. */
  function Median(ds: seq<int>): (m: int)
    requires |ds| > 0
    ensures IsMedian(ds, m)
    ensures m < 0 <==> Count(ds, Under(0)) > |ds| / 2
  {
    var sorted := SortBy(ds, Identity);
    var h := |ds| / 2;
    var m := sorted[h];
    BelowRank(sorted, h);
    UpToRank(sorted, h);
    CountPermutation(sorted, ds, Under(m));
    CountPermutation(sorted, ds, Under(m + 1));
    assert m in multiset(sorted);
    if m < 0 then
      CountMonotone(ds, Under(m + 1), Under(0));
      m
    else
      CountMonotone(ds, Under(0), Under(m));
      m
  }

  /** The sum of the sorted durations, as `resp_times` accumulates it, is
      the sum of the durations. */
  function SortedSum(ds: seq<int>): (total: int)
    ensures total == Sum(ds)
  {
    var sorted := SortBy(ds, Identity);
    SumPermutation(sorted, ds);
    Sum(sorted)
  }

  /** `as u64` on an `i64`: non-negative values unchanged, negative ones
      read as their two's-complement bit pattern. */
  function AsU64(x: int): (r: nat)
    ensures r < U64Modulus
    ensures 0 <= x < U64Modulus ==> r == x
    ensures -U64Modulus <= x < 0 ==> r == U64Modulus + x
  {
    x % U64Modulus
  }

  /** `u64` division. */
  function Quotient(a: nat, n: nat): (q: nat)
    requires n > 0
    ensures q == a / n
  {
    a / n
  }

  /** `resp_times` on the durations already collected: nothing when there
      are none or when the element at index `len / 2` of the sorted
      durations is negative (`to_std` fails); otherwise that element as the
      median, and the sum read as `u64` divided by the count as the mean. */
  function RespTimes(ds: seq<int>): (r: Option<ResponseTimes>)
    ensures r.None? <==> |ds| == 0 || Count(ds, Under(0)) > |ds| / 2
    ensures r.Some? ==> IsMedian(ds, r.value.median)
    ensures r.Some? && 0 <= Sum(ds) < U64Modulus ==> r.value.mean == Sum(ds) / |ds|
    ensures r.Some? && -U64Modulus <= Sum(ds) < 0 ==> r.value.mean == (U64Modulus + Sum(ds)) / |ds|
  {
    if |ds| == 0 then None
    else
      var median := Median(ds);
      if median < 0 then None
      else Some(ResponseTimes(median, Quotient(AsU64(SortedSum(ds)), |ds|)))
  }

  lemma {:induction false} SumBounds(ds: seq<int>, lo: int, hi: int)
    requires forall i :: 0 <= i < |ds| ==> lo <= ds[i] <= hi
    ensures lo * |ds| <= Sum(ds) <= hi * |ds|
  {
    if |ds| > 0 {
      SumBounds(ds[1..], lo, hi);
    }
  }

  /** A product with a positive factor has the other factor's sign. */
  lemma ProductSign(a: int, n: int)
    requires n > 0
    ensures a * n < 0 ==> a < 0
    ensures a * n <= 0 ==> a <= 0
  {
    if a >= 0 {
      assert a * n >= 0;
    }
    if a > 0 {
      assert a * n >= n;
    }
  }

  lemma DivBounds(s: int, n: int, lo: int, hi: int)
    requires n > 0 && lo * n <= s <= hi * n
    ensures lo <= s / n <= hi
  {
    var q := s / n;
    assert q * n <= s < q * n + n;
    assert (lo - q - 1) * n == lo * n - q * n - n;
    assert (q - hi) * n == q * n - hi * n;
    ProductSign(lo - q - 1, n);
    ProductSign(q - hi, n);
  }

  /** Durations all within [lo, hi] (and not so many that the sum leaves
      `u64`) have a median and a mean within [lo, hi] too. */
  lemma SummaryWithinRange(ds: seq<int>, lo: nat, hi: nat)
    requires |ds| > 0 && hi * |ds| < U64Modulus
    requires forall i :: 0 <= i < |ds| ==> lo <= ds[i] <= hi
    ensures RespTimes(ds).Some?
    ensures lo <= RespTimes(ds).value.median <= hi
    ensures lo <= RespTimes(ds).value.mean <= hi
  {
    forall i | 0 <= i < |ds|
      ensures !Under(0)(ds[i])
    {
    }
    CountNone(ds, Under(0));
    var r := RespTimes(ds);
    assert r.Some?;
    assert IsMedian(ds, r.value.median);
    var i :| 0 <= i < |ds| && ds[i] == r.value.median;
    SumBounds(ds, lo, hi);
    ProductSign(lo, |ds|);
    DivBounds(Sum(ds), |ds|, lo, hi);
  }

  /** An even count takes the upper of the two middle values; the mean
      truncates. */
  lemma EvenExample()
    ensures RespTimes([300, 61]) == Some(ResponseTimes(300, 180))
  {
    var ds := [300, 61];
    assert Count(ds, Under(0)) == 0;
    assert IsMedian(ds, 300);
    MedianUnique(ds, 300, RespTimes(ds).value.median);
    assert Sum(ds) == 361;
  }

  /** A negative median yields no summary at all. */
  lemma NegativeMedianExample()
    ensures RespTimes([-5, 3, -1]) == None
  {
    assert Count([-5, 3, -1], Under(0)) == 2;
  }

  /** A negative duration that leaves the median alone but makes the sum
      negative turns the mean into a value near 2^64 / n. */
  lemma NegativeSumExample()
    ensures RespTimes([-100, 7]) == Some(ResponseTimes(7, 9223372036854775761))
  {
    var ds := [-100, 7];
    assert Count(ds, Under(0)) == 1;
    assert IsMedian(ds, 7);
    MedianUnique(ds, 7, RespTimes(ds).value.median);
    assert Sum(ds) == -93;
  }

  /** The unit a period is reported in. */
  datatype Unit = Minutes | Hour | Hours | Days

  function UnitName(u: Unit): string
  {
    match u
    case Minutes => "minutes"
    case Hour => "hour"
    case Hours => "hours"
    case Days => "days"
  }

  /** The number and unit `period` chooses for a duration of `secs` seconds,
      from its whole hours: days past 48 hours, hours past 1, a lone
      "hour" at exactly 1, minutes below. */
  function Bucket(secs: nat): (r: (nat, Unit))
    ensures r.1 == Days <==> secs >= 49 * 3600
    ensures r.1 == Hours <==> 2 * 3600 <= secs < 49 * 3600
    ensures r.1 == Hour <==> 3600 <= secs < 2 * 3600
    ensures r.1 == Minutes <==> secs < 3600
    ensures r.1 == Days ==> r.0 == secs / 86400 && r.0 >= 2
    ensures r.1 == Hours ==> 2 <= r.0 <= 48 && r.0 * 3600 <= secs < (r.0 + 1) * 3600
    ensures r.1 == Hour ==> r.0 == 1
    ensures r.1 == Minutes ==> r.0 < 60 && r.0 * 60 <= secs < (r.0 + 1) * 60
  {
    var hours := secs / 3600;
    if hours > 48 then
      assert hours / 24 == secs / 86400;
      (hours / 24, Days)
    else if hours > 1 then (hours, Hours)
    else if hours == 1 then (1, Hour)
    else (secs / 60, Minutes)
  }

  /** `s` reports a duration of `secs` seconds: a number in shortest
      decimal form, a space, the unit; the number reads back as the one
      the bucket chose. */
  ghost predicate Renders(s: string, secs: nat)
  {
    exists i ::
      && 0 < i < |s| && s[i] == ' '
      && (forall j :: 0 <= j < i ==> IsDigit(s[j]))
      && (i > 1 ==> s[0] != '0')
      && ParseDecimal(s[..i]) == Bucket(secs).0
      && s[i + 1..] == UnitName(Bucket(secs).1)
  }

  /** `period`: the number, a space, the unit. */
  function Period(secs: nat): (s: string)
    ensures Renders(s, secs)
  {
    var num := Decimal(Bucket(secs).0);
    var s := num + " " + UnitName(Bucket(secs).1);
    DecimalRoundTrip(Bucket(secs).0);
    assert s[..|num|] == num && s[|num|] == ' ' && s[|num| + 1..] == UnitName(Bucket(secs).1);
    s
  }

  /** Under an hour, whole minutes, rounded down. */
  lemma MinutesExample()
    ensures Period(59) == "0 minutes"
    ensures Period(3599) == "59 minutes"
  {
    assert Decimal(0) == "0";
    assert Decimal(59) == "59" by {
      assert Decimal(5) == "5";
    }
  }

  /** From one hour up to two, the singular unit. */
  lemma HourExample()
    ensures Period(5400) == "1 hour"
  {
    assert Decimal(1) == "1";
  }

  /** 48 hours are still reported in hours. */
  lemma HoursExample()
    ensures Period(48 * 3600) == "48 hours"
  {
    assert Decimal(48) == "48" by {
      assert Decimal(4) == "4";
    }
  }

  /** Past 48 hours, whole days. */
  lemma DaysExample()
    ensures Period(3 * 86400) == "3 days"
  {
    assert Decimal(3) == "3";
  }
}
