/**
 * The time series store: one fixed-capacity circular buffer per key. The ghost
 * `log` of a ring is everything ever put; every read is specified on it.
 */
module Store {
  import opened Prelude

  type Int64 = x: int | -0x8000_0000_0000_0000 <= x < 0x8000_0000_0000_0000

  const MIN_INT64: Int64 := -0x8000_0000_0000_0000

  /** What a series measures: one metric of one interface, or the health of one service of an AS. */
  datatype MetricKey =
    | Rtt(asn: int, ifid: string)
    | OutBytes(asn: int, ifid: string)
    | InBytes(asn: int, ifid: string)
    | Up(asn: int, ifid: string)
    | Beacons(asn: int, ifid: string)
    | Health(asn: int, svc: string)

  datatype Sample = Sample(t: Int64, v: real)

  /** The last `n` samples of a log, or all of them. */
  function Tail(log: seq<Sample>, n: nat): seq<Sample> {
    if n <= |log| then log[|log| - n..] else log
  }

  // ---------------------------------------------------------------- remainders

  lemma MulAtLeast(k: int, c: int)
    requires k >= 1 && c > 0
    ensures k * c >= c
  {
    assert k * c == (k - 1) * c + c;
  }

  lemma DivisionUnique(q: int, r: int, q': int, r': int, c: int)
    requires 0 <= r < c && 0 <= r' < c && q * c + r == q' * c + r'
    ensures q == q' && r == r'
  {
    assert (q - q') * c == q * c - q' * c && (q' - q) * c == q' * c - q * c;
    if q > q' { MulAtLeast(q - q', c); }
    if q' > q { MulAtLeast(q' - q, c); }
  }

  lemma ModUnique(a: int, c: int, q: int, r: int)
    requires 0 <= r < c && a == q * c + r
    ensures a % c == r
  {
    DivisionUnique(a / c, a % c, q, r, c);
  }

  lemma ModAdd(a: int, b: int, c: int)
    requires c > 0
    ensures (a % c + b) % c == (a + b) % c
  {
    var q, r := (a + b) / c, (a + b) % c;
    assert (q - a / c) * c == q * c - (a / c) * c;
    ModUnique(a % c + b, c, q - a / c, r);
  }

  lemma NoMultipleBetween(k: int, c: int)
    requires c > 0
    ensures k * c <= 0 || c <= k * c
  {
    if k >= 1 { MulAtLeast(k, c); }
  }

  /** Numbers less than `c` apart have different remainders. */
  lemma ModApart(a: int, b: int, c: int)
    requires c > 0 && a < b < a + c
    ensures a % c != b % c
  {
    NoMultipleBetween(b / c - a / c, c);
    assert (b / c - a / c) * c == (b / c) * c - (a / c) * c;
  }

  function Rem(a: int, c: int): int
    requires c > 0
  {
    a % c
  }

  /** Go's remainder takes the sign of the dividend. */
  function GoMod(a: int, c: int): int
    requires c > 0
  {
    if a >= 0 then a % c else -((-a) % c)
  }

  lemma {:induction false} GoModWraps(a: int, c: int)
    requires c > 0
    ensures (GoMod(a, c) + c) % c == a % c
  {
    if a >= 0 {
      ModUnique(a % c + c, c, 1, a % c);
    } else {
      var q, r := (-a) / c, (-a) % c;
      if r == 0 {
        ModUnique(c, c, 1, 0);
        ModUnique(a, c, -q, 0);
      } else {
        ModUnique(c - r, c, 0, c - r);
        ModUnique(a, c, -q - 1, c - r);
      }
    }
  }

  // ---------------------------------------------------------------- one ring

  class Ring {
    const cap: nat
    const buf: array<Sample>
    var next: nat
    var count: nat
    ghost var log: seq<Sample>

    ghost predicate Valid()
      reads this, buf
    {
      cap > 0 && buf.Length == cap && next == |log| % cap && count == (if |log| < cap then |log| else cap)
      && forall k :: |log| - count <= k < |log| ==> buf[k % cap] == log[k]
    }

    constructor (capacity: int)
      ensures Valid() && fresh(buf) && log == [] && cap == if capacity <= 0 then 1 else capacity
    {
      cap := if capacity <= 0 then 1 else capacity;
      buf := new Sample[if capacity <= 0 then 1 else capacity](_ => Sample(0, 0.0));
      next, count, log := 0, 0, [];
    }

    method Put(t: Int64, v: real)
      requires Valid()
      modifies this, buf
      ensures Valid() && log == old(log) + [Sample(t, v)]
    {
      ModAdd(|log|, 1, cap);
      forall k | |log| - cap < k < |log| ensures k % cap != |log| % cap {
        ModApart(k, |log|, cap);
      }
      buf[next] := Sample(t, v);
      next := (next + 1) % cap;
      if count < cap {
        count := count + 1;
      }
      log := log + [Sample(t, v)];
    }

    method Last() returns (s: Sample)
      requires Valid() && count > 0
      ensures s == log[|log| - 1]
    {
      ModAdd(|log|, cap - 1, cap);
      ModAdd(|log| - 1, cap, cap);
      ModUnique((|log| - 1) % cap + cap, cap, 1, (|log| - 1) % cap);
      var idx := (next - 1 + cap) % cap;
      s := buf[idx];
    }

    /** The most recent `n` samples, oldest first, or fewer if fewer are held. */
    method LastN(n: int) returns (out: seq<Sample>)
      requires Valid()
      ensures out == Tail(log, if n < 0 then 0 else if n > cap then cap else n)
    {
      hide Rem, GoMod;
      var m := if n > count then count else n;
      if m <= 0 {
        return [];
      }
      var start := (GoMod(next - m, cap) + cap) % cap;
      ghost var first := |log| - m;
      StartOf(m);
      out := [];
      for i := 0 to m
        invariant out == log[first..first + i]
      {
        SlotOf(first, start, i);
        out := out + [buf[(start + i) % cap]];
      }
    }

    lemma StartOf(m: nat)
      requires Valid() && m <= count
      ensures (GoMod(next - m, cap) + cap) % cap == Rem(|log| - m, cap)
    {
      var n, c := |log|, cap;
      GoModWraps(next - m, c);
      ModAdd(n, 0 - m, c);
      assert n % c + (0 - m) == next - m;
    }

    lemma SlotOf(first: nat, start: nat, i: nat)
      requires Valid() && |log| - count <= first && first + i < |log| && start == Rem(first, cap)
      ensures (start + i) % cap < cap && buf[(start + i) % cap] == log[first + i]
    {
      ModAdd(first, i, cap);
    }
  }

  // ---------------------------------------------------------------- rates

  /** A pair of neighbouring samples that counts towards a rate: the counter rose and time passed. */
  predicate Rises(a: Sample, b: Sample) {
    b.v > a.v && b.t > a.t
  }

  /** Total rise over the counted intervals among the first `n` samples. */
  function Risen(s: seq<Sample>, n: nat): (r: real)
    requires n <= |s|
    ensures r >= 0.0
  {
    if n <= 1 then 0.0
    else Risen(s, n - 1) + (if Rises(s[n - 2], s[n - 1]) then s[n - 1].v - s[n - 2].v else 0.0)
  }

  /** Total time of the same intervals, in seconds. */
  function Elapsed(s: seq<Sample>, n: nat): (r: real)
    requires n <= |s|
    ensures r >= 0.0
  {
    if n <= 1 then 0.0
    else Elapsed(s, n - 1) + (if Rises(s[n - 2], s[n - 1]) then (s[n - 1].t - s[n - 2].t) as real / 1000.0 else 0.0)
  }

  function RateOf(s: seq<Sample>): (r: real)
    ensures r >= 0.0
  {
    if Elapsed(s, |s|) <= 0.0 then 0.0 else Risen(s, |s|) / Elapsed(s, |s|)
  }

  // ---------------------------------------------------------------- what a rate is

  /** Interval `i` counts: the counter rose and time passed. */
  predicate RisesAt(s: seq<Sample>, i: int) {
    1 <= i < |s| && s[i].v > s[i - 1].v && s[i].t > s[i - 1].t
  }

  /** No counted interval among the first `n` samples is steeper than `hi` per second. */
  ghost predicate AtMost(s: seq<Sample>, n: nat, hi: real) {
    forall i :: i < n && RisesAt(s, i) ==> (s[i].v - s[i - 1].v) * 1000.0 <= hi * (s[i].t - s[i - 1].t) as real
  }

  /** And none is less steep than `lo`. */
  ghost predicate AtLeast(s: seq<Sample>, n: nat, lo: real) {
    forall i :: i < n && RisesAt(s, i) ==> lo * (s[i].t - s[i - 1].t) as real <= (s[i].v - s[i - 1].v) * 1000.0
  }

  lemma {:induction false} ElapsedIff(s: seq<Sample>, n: nat)
    requires n <= |s|
    ensures Elapsed(s, n) > 0.0 <==> exists i :: i < n && RisesAt(s, i)
    ensures Elapsed(s, n) == 0.0 ==> Risen(s, n) == 0.0
  {
    if n > 1 {
      ElapsedIff(s, n - 1);
      assert RisesAt(s, n - 1) <==> Rises(s[n - 2], s[n - 1]);
    }
  }

  /** What a rate adds up to over some time, kept apart from linear arithmetic by hiding this definition. */
  function Over(r: real, seconds: real): real {
    r * seconds
  }

  lemma OverAdds(r: real, x: real, y: real)
    ensures Over(r, x + y) == Over(r, x) + Over(r, y) && Over(r, 0.0) == 0.0
  {
  }

  lemma OverMillis(r: real, ms: real)
    ensures Over(r, ms / 1000.0) * 1000.0 == r * ms
  {
  }

  /** Bounds on a rise so far and on one more interval add up. */
  lemma BoundsAdd(lo: real, hi: real, e: real, rise: real, ms: real, dv: real)
    requires Over(lo, e) <= rise <= Over(hi, e) && lo * ms <= dv * 1000.0 <= hi * ms
    ensures Over(lo, e + ms / 1000.0) <= rise + dv <= Over(hi, e + ms / 1000.0)
  {
    hide Over;
    BoundAdds(lo, e, ms);
    BoundAdds(hi, e, ms);
  }

  lemma BoundAdds(r: real, e: real, ms: real)
    ensures Over(r, e + ms / 1000.0) == Over(r, e) + r * ms / 1000.0
  {
    assert r * (ms / 1000.0) * 1000.0 == r * ms;
    OverAdds(r, e, ms / 1000.0);
  }

  lemma {:induction false} RisenBetween(s: seq<Sample>, n: nat, lo: real, hi: real)
    requires n <= |s| && AtLeast(s, |s|, lo) && AtMost(s, |s|, hi)
    ensures Over(lo, Elapsed(s, n)) <= Risen(s, n) <= Over(hi, Elapsed(s, n))
  {
    if n <= 1 {
      OverAdds(lo, 0.0, 0.0);
      OverAdds(hi, 0.0, 0.0);
    } else {
      hide Over, AtLeast, AtMost, Risen, Elapsed;
      RisenBetween(s, n - 1, lo, hi);
      StepBetween(s, n, lo, hi);
    }
  }

  lemma {:induction false} StepBetween(s: seq<Sample>, n: nat, lo: real, hi: real)
    requires 1 < n <= |s| && AtLeast(s, |s|, lo) && AtMost(s, |s|, hi)
    requires Over(lo, Elapsed(s, n - 1)) <= Risen(s, n - 1) <= Over(hi, Elapsed(s, n - 1))
    ensures Over(lo, Elapsed(s, n)) <= Risen(s, n) <= Over(hi, Elapsed(s, n))
  {
    hide Over, AtLeast, AtMost;
    var a, b := s[n - 2], s[n - 1];
    if Rises(a, b) {
      BoundsAt(s, lo, hi, n - 1);
      BoundsAdd(lo, hi, Elapsed(s, n - 1), Risen(s, n - 1), (b.t - a.t) as real, b.v - a.v);
    }
  }

  lemma BoundsAt(s: seq<Sample>, lo: real, hi: real, i: nat)
    requires AtLeast(s, |s|, lo) && AtMost(s, |s|, hi) && 1 <= i < |s| && Rises(s[i - 1], s[i])
    ensures var ms, dv := (s[i].t - s[i - 1].t) as real, s[i].v - s[i - 1].v; lo * ms <= dv * 1000.0 <= hi * ms
  {
    assert RisesAt(s, i);
  }

  lemma QuotientBetween(x: real, y: real, lo: real, hi: real)
    requires y > 0.0 && Over(lo, y) <= x <= Over(hi, y)
    ensures lo <= x / y <= hi
  {
    var q := x / y;
    assert q * y == x;
    assert (hi - q) * y >= 0.0 && (q - lo) * y >= 0.0;
  }

  /** A rate is zero exactly if nothing rose. */
  lemma {:induction false} RateZeroIff(s: seq<Sample>)
    ensures RateOf(s) == 0.0 <==> !exists i :: RisesAt(s, i)
  {
    ElapsedIff(s, |s|);
    if i :| RisesAt(s, i) {
      assert i < |s|;
      RisenPositive(s, |s|, i);
      var x, y := Risen(s, |s|), Elapsed(s, |s|);
      assert x / y * y == x;
    }
  }

  lemma {:induction false} RisenPositive(s: seq<Sample>, n: nat, i: int)
    requires n <= |s| && i < n && RisesAt(s, i)
    ensures Risen(s, n) > 0.0
  {
    if i < n - 1 { RisenPositive(s, n - 1, i); }
  }

  /** Per second: a rate lies between the least and the greatest slope of the intervals in which the counter rose. */
  lemma {:induction false} RateBetween(s: seq<Sample>, lo: real, hi: real)
    requires AtLeast(s, |s|, lo) && AtMost(s, |s|, hi) && exists i :: RisesAt(s, i)
    ensures lo <= RateOf(s) <= hi
  {
    hide Risen, Elapsed, AtLeast, AtMost, RisesAt, Over;
    var i :| RisesAt(s, i);
    RisesInside(s, i);
    ElapsedIff(s, |s|);
    RisenBetween(s, |s|, lo, hi);
    QuotientBetween(Risen(s, |s|), Elapsed(s, |s|), lo, hi);
  }

  lemma RisesInside(s: seq<Sample>, i: int)
    requires RisesAt(s, i)
    ensures i < |s|
  {
  }

  /** A counter that rises by `r` per second whenever it rises has rate `r`. */
  lemma {:induction false} RateIsSlope(s: seq<Sample>, r: real)
    requires exists i :: RisesAt(s, i)
    requires forall i :: RisesAt(s, i) ==> (s[i].v - s[i - 1].v) * 1000.0 == r * (s[i].t - s[i - 1].t) as real
    ensures RateOf(s) == r
  {
    RateBetween(s, r, r);
  }

  // ---------------------------------------------------------------- the store

  function Since(s: seq<Sample>, sinceMs: int): seq<Sample> {
    if s == [] then []
    else Since(s[..|s| - 1], sinceMs) + (if s[|s| - 1].t >= sinceMs then [s[|s| - 1]] else [])
  }

  /** `r` is the entries of `s` that are not older than `sinceMs`, in order: entry `k` of it stands at `at[k]`. */
  ghost predicate Keeps(s: seq<Sample>, sinceMs: int, r: seq<Sample>, at: seq<nat>) {
    |at| == |r|
    && (forall k, l :: 0 <= k < l < |at| ==> at[k] < at[l])
    && (forall k :: 0 <= k < |at| ==> at[k] < |s| && r[k] == s[at[k]] && r[k].t >= sinceMs)
    && forall i :: 0 <= i < |s| && s[i].t >= sinceMs ==> i in at
  }

  lemma {:induction false} KeepsMore(s: seq<Sample>, sinceMs: int, r: seq<Sample>, at: seq<nat>, x: Sample)
    requires Keeps(s, sinceMs, r, at)
    ensures x.t >= sinceMs ==> Keeps(s + [x], sinceMs, r + [x], at + [|s|])
    ensures x.t < sinceMs ==> Keeps(s + [x], sinceMs, r, at)
  {
    var more := at + [|s|];
    assert more[|at|] == |s|;
    assert forall i :: i in at ==> i in more;
  }

  lemma {:induction false} SinceKeeps(s: seq<Sample>, sinceMs: int) returns (at: seq<nat>)
    ensures Keeps(s, sinceMs, Since(s, sinceMs), at)
  {
    if s == [] {
      at := [];
    } else {
      hide Keeps;
      var init, x := s[..|s| - 1], s[|s| - 1];
      at := SinceKeeps(init, sinceMs);
      KeepsMore(init, sinceMs, Since(init, sinceMs), at, x);
      assert s == init + [x];
      if x.t >= sinceMs { at := at + [|init|]; }
    }
  }

  lemma {:induction false} SinceForever(s: seq<Sample>)
    ensures Since(s, MIN_INT64) == s
  {
    if s != [] { SinceForever(s[..|s| - 1]); }
  }

  method FilterSince(all: seq<Sample>, sinceMs: int) returns (out: seq<Sample>)
    ensures out == Since(all, sinceMs)
  {
    out := [];
    for i := 0 to |all|
      invariant out == Since(all[..i], sinceMs)
    {
      assert all[..i + 1][..i] == all[..i];
      if all[i].t >= sinceMs {
        out := out + [all[i]];
      }
    }
    assert all[..|all|] == all;
  }

  /** The accumulation of Rate: intervals without a rise are left out, time included. */
  method RateOver(samples: seq<Sample>) returns (rate: real)
    ensures rate == RateOf(samples)
  {
    if |samples| < 2 {
      return 0.0;
    }
    var sumV, sumSeconds := 0.0, 0.0;
    for i := 1 to |samples|
      invariant sumV == Risen(samples, i) && sumSeconds == Elapsed(samples, i)
    {
      var dv := samples[i].v - samples[i - 1].v;
      var dtMs := samples[i].t - samples[i - 1].t;
      if dv > 0.0 && dtMs > 0 {
        sumV := sumV + dv;
        sumSeconds := sumSeconds + dtMs as real / 1000.0;
      }
    }
    if sumSeconds <= 0.0 {
      return 0.0;
    }
    rate := sumV / sumSeconds;
    if rate < 0.0 {
      rate := 0.0;
    }
  }

  class Store {
    const cap: nat
    var data: map<MetricKey, Ring>

    /** The objects a store owns. */
    ghost function Footprint(): set<object>
      reads this
    {
      (set k | k in data :: data[k] as object) + set k | k in data :: data[k].buf as object
    }

    ghost predicate Valid()
      reads this, Footprint()
    {
      cap > 0
      && (forall k :: k in data ==> data[k].Valid() && data[k].cap == cap)
      && forall k, l :: k in data && l in data && k != l ==> data[k] != data[l] && data[k].buf != data[l].buf
    }

    /** Everything ever put under a key. */
    ghost function Log(k: MetricKey): seq<Sample>
      reads this, Footprint()
    {
      if k in data then data[k].log else []
    }

    constructor (capacity: int)
      ensures Valid() && fresh(this) && Footprint() == {} && data == map[]
      ensures cap == if capacity <= 0 then 1 else capacity
    {
      cap := if capacity <= 0 then 1 else capacity;
      data := map[];
    }

    method Put(key: MetricKey, t: Int64, v: real)
      requires Valid()
      modifies this, Footprint()
      ensures Valid() && fresh(Footprint() - old(Footprint()))
      ensures Log(key) == old(Log(key)) + [Sample(t, v)]
      ensures forall k :: k != key ==> Log(k) == old(Log(k))
    {
      if key !in data {
        var fresh' := new Ring(cap);
        data := data[key := fresh'];
      }
      var r := data[key];
      r.Put(t, v);
    }

    method Last(key: MetricKey) returns (s: Option<Sample>)
      requires Valid()
      ensures s == if Log(key) == [] then None else Some(Log(key)[|Log(key)| - 1])
    {
      if key !in data || data[key].count == 0 {
        return None;
      }
      var last := data[key].Last();
      s := Some(last);
    }

    method Series(key: MetricKey, sinceMs: int) returns (out: seq<Sample>)
      requires Valid()
      ensures out == Since(Tail(Log(key), cap), sinceMs)
    {
      if key !in data {
        return [];
      }
      var all := data[key].LastN(data[key].count);
      assert all == Tail(Log(key), cap);
      out := FilterSince(all, sinceMs);
    }

    /** Per-second increase over the last `window` samples. */
    method Rate(key: MetricKey, window: int) returns (rate: real)
      requires Valid()
      ensures rate == RateOf(Tail(Log(key), if window < 0 then 0 else if window > cap then cap else window))
    {
      if key !in data {
        return 0.0;
      }
      var r := data[key];
      var n := if window > r.count then r.count else window;
      if n < 2 {
        assert |Tail(Log(key), if window < 0 then 0 else if window > cap then cap else window)| < 2;
        return 0.0;
      }
      var samples := r.LastN(n);
      rate := RateOver(samples);
    }
  }
}
