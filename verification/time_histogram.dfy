/**
  The time-by-speed histogram screen's update: at most every 200 ms it takes
  the analyzer's bucket tick counts, finds the largest, scales every bucket to
  a percentage of it with unsigned integer arithmetic, and marks any non-empty
  bucket that rounds to 0 as 1.
 */
module TimeHistogram {
  import opened Wrappers

  /** Minimum time between two updates (`kUpdateIntervalMillis`). */
  const UpdateIntervalMillis: nat := 200

  const U64Modulus: nat := 0x1_0000_0000_0000_0000
  const U16Modulus: nat := 0x1_0000

  /** A bucket's `total_ticks_in_steps`, a `uint64_t`. */
  type U64 = x: int | 0 <= x < 0x1_0000_0000_0000_0000

  function Max(a: U64, b: U64): U64 { if a < b then b else a }

  /** The largest tick count among the buckets. */
  function MaxTicks(buckets: seq<U64>): (m: U64)
    requires |buckets| > 0
    ensures forall i :: 0 <= i < |buckets| ==> buckets[i] <= m
    ensures m in buckets
  {
    if |buckets| == 1 then buckets[0] else Max(MaxTicks(DropLast(buckets)), Last(buckets))
  }

  /** The maximum search as written: start from bucket 0 and take every later
      bucket that is strictly larger. */
  method FindMaxTicks(buckets: seq<U64>) returns (maxTicks: U64)
    requires |buckets| > 0
    ensures forall i :: 0 <= i < |buckets| ==> buckets[i] <= maxTicks
    ensures maxTicks in buckets
    ensures maxTicks == MaxTicks(buckets)
  {
    maxTicks := buckets[0];
    var i := 1;
    while i < |buckets|
      invariant 1 <= i <= |buckets|
      invariant maxTicks == MaxTicks(buckets[..i])
    {
      assert DropLast(buckets[..i + 1]) == buckets[..i];
      var ticks := buckets[i];
      if ticks > maxTicks {
        maxTicks := ticks;
      }
      i := i + 1;
    }
    assert buckets[..i] == buckets;
  }

  /** One histogram point as the screen computes it: `ticks * 100` in 64-bit
      arithmetic, divided by the maximum (0 when the maximum is 0), stored in
      a `uint16_t`, and raised to 1 for a non-empty bucket that came out as 0. */
  function Scale(ticks: U64, maxTicks: U64): (val: nat)
    ensures val < U16Modulus
    ensures ticks == 0 ==> val == 0
    ensures ticks > 0 ==> val >= 1
  {
    var q := if maxTicks > 0 then ((ticks * 100) % U64Modulus) / maxTicks % U16Modulus else 0;
    if ticks > 0 && q == 0 then 1 else q
  }

  /** The intended value: the bucket's share of the maximum in whole percent,
      rounded down, but at least 1 for a non-empty bucket. */
  function Percent(ticks: nat, maxTicks: nat): nat
    requires ticks <= maxTicks
  {
    if ticks == 0 then 0
    else
      var p := ticks * 100 / maxTicks;
      if p == 0 then 1 else p
  }

  lemma MulStrict(a: int, b: int, m: int)
    requires m > 0 && a * m < b * m
    ensures a < b
  {
    assert (b - a) * m == b * m - a * m;
  }

  lemma DivMonotone(x: nat, y: nat, m: nat)
    requires m > 0 && x <= y
    ensures x / m <= y / m
  {
    var qx, qy := x / m, y / m;
    assert qx * m <= x;
    assert y < qy * m + m;
    assert qy * m + m == (qy + 1) * m;
    MulStrict(qx, qy + 1, m);
  }

  lemma DivUnique(x: nat, q: nat, r: nat, m: nat)
    requires m > 0 && r < m && x == q * m + r
    ensures x / m == q
  {
    var q', r' := x / m, x % m;
    assert (q - q') * m == q * m - q' * m;
    MulStrict(q - q', 1, m);
    MulStrict(q' - q, 1, m);
  }

  lemma MulDivCancel(k: nat, m: nat)
    requires m > 0
    ensures k * m / m == k
  {
    DivUnique(k * m, k, 0, m);
  }

  lemma DivAtMost(x: nat, k: nat, m: nat)
    requires m > 0 && x <= k * m
    ensures x / m <= k
  {
    DivMonotone(x, k * m, m);
    MulDivCancel(k, m);
  }

  /** When `ticks * 100` fits in 64 bits, the computed point is the intended
      percentage: the product does not wrap and the quotient, at most 100,
      survives the 16-bit store. */
  lemma ScaleIsPercent(ticks: U64, maxTicks: U64)
    requires ticks <= maxTicks
    requires ticks * 100 < U64Modulus
    ensures Scale(ticks, maxTicks) == Percent(ticks, maxTicks)
    ensures Percent(ticks, maxTicks) <= 100
  {
    if ticks > 0 {
      var p := ticks * 100;
      assert p % U64Modulus == p;
      StoredQuotientAtMost(p, maxTicks, 100);
    }
  }

  /** A bucket holding the maximum scales to exactly 100. */
  lemma ScaleOfMaximum(maxTicks: U64)
    requires maxTicks > 0 && maxTicks * 100 < U64Modulus
    ensures Scale(maxTicks, maxTicks) == 100
  {
    ScaleIsPercent(maxTicks, maxTicks);
    MulDivCancel(100, maxTicks);
    assert maxTicks * 100 == 100 * maxTicks;
  }

  /** A point never exceeds 100, for any tick counts up to the maximum: a
      wrapped product is below 2^64, which is at most 100 times a maximum
      large enough to wrap. */
  lemma ScaleAtMost100(ticks: U64, maxTicks: U64)
    requires ticks <= maxTicks
    ensures Scale(ticks, maxTicks) <= 100
  {
    if ticks * 100 < U64Modulus {
      ScaleIsPercent(ticks, maxTicks);
    } else {
      var p := (ticks * 100) % U64Modulus;
      assert p <= 100 * maxTicks by {
        assert p < U64Modulus <= ticks * 100;
        assert ticks * 100 <= 100 * maxTicks;
      }
      StoredQuotientAtMost(p, maxTicks, 100);
    }
  }

  /** A quotient of at most `k < 2^16` survives the 16-bit store. */
  lemma StoredQuotientAtMost(x: nat, m: nat, k: nat)
    requires m > 0 && x <= k * m && k < U16Modulus
    ensures x / m <= k && x / m % U16Modulus == x / m
  {
    DivAtMost(x, k, m);
  }

  /** Once the maximum times 100 wraps, the maximum no longer scales to 100
      and a smaller bucket can outrank it: with a maximum of
      2^64 / 100 + 1 ticks, the product wraps to 84, so the maximum shows 1
      while a bucket one tick lower shows 99. */
  lemma ScaleWrapBreaksOrder()
    ensures var m: U64 := 184467440737095517;
            m * 100 >= U64Modulus && Scale(m, m) == 1 && Scale(m - 1, m) == 99
  {
  }

  /** More ticks never give a lower point. */
  lemma ScaleMonotone(a: U64, b: U64, maxTicks: U64)
    requires a <= b <= maxTicks
    requires b * 100 < U64Modulus
    ensures Scale(a, maxTicks) <= Scale(b, maxTicks)
  {
    ScaleIsPercent(a, maxTicks);
    ScaleIsPercent(b, maxTicks);
    if a > 0 {
      DivMonotone(a * 100, b * 100, maxTicks);
    }
  }

  /** The points of all buckets, each scaled against the largest bucket. */
  function HistogramPoints(buckets: seq<U64>): (points: seq<nat>)
    requires |buckets| > 0
    ensures |points| == |buckets|
    ensures forall i :: 0 <= i < |buckets| ==> points[i] == Scale(buckets[i], MaxTicks(buckets))
    ensures forall i :: 0 <= i < |buckets| ==> points[i] <= 100
    ensures forall i :: 0 <= i < |buckets| ==> (points[i] == 0 <==> buckets[i] == 0)
  {
    var m := MaxTicks(buckets);
    var points := seq(|buckets|, i requires 0 <= i < |buckets| => Scale(buckets[i], m));
    forall i | 0 <= i < |buckets|
      ensures points[i] <= 100
    {
      ScaleAtMost100(buckets[i], m);
    }
    points
  }

  /** The point update loop as written: find the maximum, then write one
      point per bucket. */
  method UpdatePoints(buckets: seq<U64>) returns (points: seq<nat>)
    requires |buckets| > 0
    ensures points == HistogramPoints(buckets)
  {
    var maxTicks := FindMaxTicks(buckets);
    points := [];
    var i := 0;
    while i < |buckets|
      invariant 0 <= i <= |buckets|
      invariant points == HistogramPoints(buckets)[..i]
    {
      points := points + [Scale(buckets[i], maxTicks)];
      i := i + 1;
    }
  }

  /** What the screen shows for any bucket counts whose largest count times
      100 fits in 64 bits, beyond what holds for all counts: 100 for every
      bucket holding the maximum when it is not 0; all 0 when every bucket is
      empty; and ordered as the tick counts are. */
  lemma HistogramShape(buckets: seq<U64>)
    requires |buckets| > 0
    requires MaxTicks(buckets) * 100 < U64Modulus
    ensures forall i :: 0 <= i < |buckets| && buckets[i] == MaxTicks(buckets) > 0 ==> HistogramPoints(buckets)[i] == 100
    ensures MaxTicks(buckets) == 0 ==> forall i :: 0 <= i < |buckets| ==> HistogramPoints(buckets)[i] == 0
    ensures forall i, j :: 0 <= i < |buckets| && 0 <= j < |buckets| && buckets[i] <= buckets[j] ==>
              HistogramPoints(buckets)[i] <= HistogramPoints(buckets)[j]
  {
    var m := MaxTicks(buckets);
    var points := HistogramPoints(buckets);
    if m > 0 {
      ScaleOfMaximum(m);
    }
    forall i, j | 0 <= i < |buckets| && 0 <= j < |buckets| && buckets[i] <= buckets[j]
      ensures points[i] <= points[j]
    {
      ScaleMonotone(buckets[i], buckets[j], m);
    }
  }

  // ---------------------------------------------------------------------
  // Update throttle

  /** The screen's state: milliseconds since the last update, and the
      points on the chart. */
  datatype Screen = Screen(elapsedMillis: nat, points: seq<nat>)

  /** `on_load`: pretend the interval has passed so the next loop updates. */
  function OnLoad(s: Screen): (r: Screen)
    ensures r.elapsedMillis > UpdateIntervalMillis && r.points == s.points
  {
    s.(elapsedMillis := UpdateIntervalMillis + 1)
  }

  /** Time passing between two loops. */
  function Advance(s: Screen, millis: nat): Screen
  {
    s.(elapsedMillis := s.elapsedMillis + millis)
  }

  /** `loop`: nothing before the interval has passed; otherwise restart the
      interval and redraw the points from the sampled buckets. The flag says
      whether an update happened. */
  function Loop(s: Screen, buckets: seq<U64>): (r: (Screen, bool))
    requires |buckets| > 0
    ensures r.1 <==> s.elapsedMillis >= UpdateIntervalMillis
    ensures !r.1 ==> r.0 == s
    ensures r.1 ==> r.0.elapsedMillis == 0 && r.0.points == HistogramPoints(buckets)
  {
    if s.elapsedMillis < UpdateIntervalMillis then (s, false)
    else (Screen(0, HistogramPoints(buckets)), true)
  }

  /** The loop right after `on_load` always updates, however little time
      passed. */
  lemma LoadThenLoopUpdates(s: Screen, millis: nat, buckets: seq<U64>)
    requires |buckets| > 0
    ensures Loop(Advance(OnLoad(s), millis), buckets).1
    ensures Loop(Advance(OnLoad(s), millis), buckets).0 == Screen(0, HistogramPoints(buckets))
  {
  }

  /** One loop call after some time has passed. */
  datatype Tick = Tick(millis: nat, buckets: seq<U64>)

  ghost predicate Sampled(ticks: seq<Tick>)
  {
    forall i :: 0 <= i < |ticks| ==> |ticks[i].buckets| > 0
  }

  function TotalMillis(ticks: seq<Tick>): nat
  {
    if |ticks| == 0 then 0 else TotalMillis(DropLast(ticks)) + Last(ticks).millis
  }

  /** A run of loop calls: the final screen and the number of updates. */
  function Loops(s: Screen, ticks: seq<Tick>): (Screen, nat)
    requires Sampled(ticks)
  {
    if |ticks| == 0 then (s, 0)
    else
      var before := Loops(s, DropLast(ticks));
      var after := Loop(Advance(before.0, Last(ticks).millis), Last(ticks).buckets);
      (after.0, before.1 + if after.1 then 1 else 0)
  }

  /** The fixed rate: every update uses up a full interval of the time that
      passed, so a run of loops updates at most once per 200 ms (counting the
      time already elapsed when the run starts). */
  lemma {:induction false} UpdateRate(s: Screen, ticks: seq<Tick>)
    requires Sampled(ticks)
    ensures UpdateIntervalMillis * Loops(s, ticks).1 + Loops(s, ticks).0.elapsedMillis
              <= s.elapsedMillis + TotalMillis(ticks)
    decreases |ticks|
  {
    if |ticks| > 0 {
      assert Sampled(DropLast(ticks));
      UpdateRate(s, DropLast(ticks));
    }
  }
}
