/**
 The keyed token bucket of internal/ratelimit.

 Time is an integer number of nanoseconds since Go's zero `time.Time`; token counts are exact reals.
 The first half describes one call as a function on values, the second half proves what whole runs of
 calls do, and the class at the end is the code itself, tied to the function by `Limiter.Allow`.
 */
module RateLimit {

  const NS_PER_SEC := 1000000000.0
  const SWEEP_EVERY: int := 60000000000

  datatype BucketVal = BucketVal(tokens: real, last: int)
  datatype State = State(buckets: map<string, BucketVal>, lastSweep: int)
  datatype Call = Call(key: string, now: int)

  /** `burst` is at least 1 after clamping; `perSec` may be zero or negative (no refill). */
  datatype RawPolicy = RawPolicy(burst: real, perSec: real)
  type Policy = p: RawPolicy | p.burst >= 1.0 witness RawPolicy(1.0, 0.0)

  function Min(x: real, y: real): real { if x <= y then x else y }

  function Seconds(d: int): real { d as real / NS_PER_SEC }

  /** What `d` nanoseconds are worth at a given rate. */
  function Earned(perSec: real, d: int): real { Seconds(d) * perSec }

  // ---- one call ----

  function Refill(p: Policy, b: BucketVal, now: int): BucketVal {
    if now - b.last > 0 && p.perSec > 0.0 then
      BucketVal(Min(b.tokens + Earned(p.perSec, now - b.last), p.burst), now)
    else b
  }

  /** The bucket a call at `now` works on: a fresh full one, or the refilled old one. */
  function Touch(p: Policy, s: State, key: string, now: int): BucketVal {
    if key in s.buckets then Refill(p, s.buckets[key], now) else BucketVal(p.burst, now)
  }

  predicate Refilled(p: Policy, b: BucketVal, now: int) {
    Earned(p.perSec, now - b.last) >= p.burst
  }

  function Sweep(p: Policy, s: State, now: int): State {
    if now - s.lastSweep < SWEEP_EVERY then s
    else if p.perSec <= 0.0 then s.(lastSweep := now)
    else State(map k | k in s.buckets && !Refilled(p, s.buckets[k], now) :: s.buckets[k], now)
  }

  function Spend(b: BucketVal): BucketVal {
    if b.tokens < 1.0 then b else b.(tokens := b.tokens - 1.0)
  }

  /** The bucket is spent through a pointer, so a bucket that the sweep had dropped would stay dropped. */
  function Step(p: Policy, s: State, c: Call): State {
    var b := Touch(p, s, c.key, c.now);
    var swept := Sweep(p, s.(buckets := s.buckets[c.key := b]), c.now);
    if c.key in swept.buckets then swept.(buckets := swept.buckets[c.key := Spend(b)]) else swept
  }

  predicate Admits(p: Policy, s: State, c: Call) {
    Touch(p, s, c.key, c.now).tokens >= 1.0
  }

  // ---- runs of calls ----

  const INITIAL := State(map[], 0)

  /** The state after the first `n` calls. */
  function After(p: Policy, calls: seq<Call>, n: nat): State
    requires n <= |calls|
  {
    if n == 0 then INITIAL else Step(p, After(p, calls, n - 1), calls[n - 1])
  }

  /** Whether call `j` of the run is let through. */
  predicate Decision(p: Policy, calls: seq<Call>, j: nat)
    requires j < |calls|
  {
    Admits(p, After(p, calls, j), calls[j])
  }

  ghost predicate Monotone(calls: seq<Call>) {
    forall i, j :: 0 <= i < j < |calls| ==> calls[i].now <= calls[j].now
  }

  /** How many of the calls `i..n` of key `k` were let through. */
  function Admitted(p: Policy, calls: seq<Call>, k: string, i: nat, n: nat): nat
    requires i <= n <= |calls|
  {
    if i == n then 0
    else Admitted(p, calls, k, i, n - 1) + (if calls[n - 1].key == k && Decision(p, calls, n - 1) then 1 else 0)
  }

  // ---- the refill credit ----

  /** max(perSec, 0) times the duration: what a bucket earns over `d` nanoseconds. */
  function Credit(p: Policy, d: int): real {
    if p.perSec > 0.0 then Earned(p.perSec, d) else 0.0
  }

  /** A second earns the rate. */
  lemma SecondEarnsRate(p: Policy)
    ensures Credit(p, 1000000000) == if p.perSec > 0.0 then p.perSec else 0.0
  {
    assert Seconds(1000000000) == 1.0;
  }

  lemma CreditAdds(p: Policy, d: int, e: int)
    ensures Credit(p, d + e) == Credit(p, d) + Credit(p, e)
    ensures d >= 0 ==> Credit(p, d) >= 0.0
    ensures d == 0 ==> Credit(p, d) == 0.0
  {
    if p.perSec > 0.0 {
      assert Seconds(d + e) == Seconds(d) + Seconds(e);
    }
  }

  /** The tokens key `k` would find at time `now`; an absent key finds a full bucket. */
  function Level(p: Policy, s: State, k: string, now: int): real {
    Touch(p, s, k, now).tokens
  }

  /** Every bucket is capped, never negative and not from the future. */
  ghost predicate Sane(p: Policy, s: State, now: int) {
    forall k :: k in s.buckets ==> 0.0 <= s.buckets[k].tokens <= p.burst && s.buckets[k].last <= now
  }

  lemma StepSane(p: Policy, s: State, c: Call)
    requires Sane(p, s, c.now)
    ensures Sane(p, Step(p, s, c), c.now)
  {
    if c.key in s.buckets { CreditAdds(p, c.now - s.buckets[c.key].last, 0); }
  }

  /** Whatever the clock says, the sweep never takes the bucket of the call that triggers it. */
  lemma OwnBucketSurvives(p: Policy, s: State, c: Call)
    ensures c.key in Step(p, s, c).buckets
    ensures var b := Touch(p, s, c.key, c.now);
            var swept := Sweep(p, s.(buckets := s.buckets[c.key := b]), c.now);
            c.key in swept.buckets && Step(p, s, c) == swept.(buckets := swept.buckets[c.key := Spend(b)])
  {
    hide Earned;
    var b := Touch(p, s, c.key, c.now);
    if p.perSec > 0.0 && b.last >= c.now {
      CreditAdds(p, c.now - b.last, b.last - c.now);
      CreditAdds(p, b.last - c.now, 0);
    }
  }

  lemma BucketLevelShifts(p: Policy, b: BucketVal, now: int, later: int)
    requires b.tokens <= p.burst && b.last <= now <= later
    ensures Refill(p, b, later).tokens == Min(p.burst, Refill(p, b, now).tokens + Credit(p, later - now))
  {
    hide Earned;
    CreditAdds(p, now - b.last, later - now);
    CreditAdds(p, later - now, 0);
    assert now - b.last + (later - now) == later - b.last;
  }

  /** Between calls a level only grows by the credit earned, up to the burst. */
  lemma LevelShifts(p: Policy, s: State, k: string, now: int, later: int)
    requires Sane(p, s, now) && now <= later
    ensures Level(p, s, k, later) == Min(p.burst, Level(p, s, k, now) + Credit(p, later - now))
  {
    hide Earned;
    CreditAdds(p, later - now, 0);
    if k in s.buckets { BucketLevelShifts(p, s.buckets[k], now, later); }
  }

  /** Other keys' calls, and the sweeps they trigger, are invisible to `k`: eviction loses nothing. */
  lemma OtherKeyInvisible(p: Policy, s: State, c: Call, k: string, later: int)
    requires Sane(p, s, c.now) && c.now <= later && k != c.key
    ensures Level(p, Step(p, s, c), k, later) == Level(p, s, k, later)
  {
    hide Earned;
    if k in s.buckets && k !in Step(p, s, c).buckets {
      var b := s.buckets[k];
      assert Refilled(p, b, c.now);
      CreditAdds(p, c.now - b.last, later - c.now);
      CreditAdds(p, later - c.now, 0);
      assert c.now - b.last + (later - c.now) == later - b.last;
      assert Credit(p, later - b.last) >= p.burst;
      assert b.last == later ==> Credit(p, 0) == 0.0;
    }
  }

  /** A call takes one whole token exactly when there is one. */
  lemma OwnCall(p: Policy, s: State, c: Call, later: int)
    requires Sane(p, s, c.now) && c.now <= later
    ensures Admits(p, s, c) <==> Level(p, s, c.key, c.now) >= 1.0
    ensures Level(p, Step(p, s, c), c.key, later)
         == Min(p.burst, Level(p, s, c.key, c.now) - (if Admits(p, s, c) then 1.0 else 0.0) + Credit(p, later - c.now))
  {
    hide Earned;
    OwnBucketSurvives(p, s, c);
    if c.key in s.buckets { CreditAdds(p, c.now - s.buckets[c.key].last, 0); }
    BucketLevelShifts(p, Spend(Touch(p, s, c.key, c.now)), c.now, later);
  }

  lemma {:induction false} AfterSane(p: Policy, calls: seq<Call>, n: nat, now: int)
    requires n <= |calls| && Monotone(calls)
    requires n > 0 ==> calls[n - 1].now <= now
    ensures Sane(p, After(p, calls, n), now)
  {
    if n > 0 {
      AfterSane(p, calls, n - 1, calls[n - 1].now);
      StepSane(p, After(p, calls, n - 1), calls[n - 1]);
    }
  }

  // ---- exactly the greedy window policy ----

  lemma FreshLevel(p: Policy, calls: seq<Call>, k: string, now: int)
    ensures Level(p, After(p, calls, 0), k, now) == p.burst
  {
  }

  /** What the window that opens with call `i` still grants key `k` at time `now`, after `n` calls. */
  function Window(p: Policy, calls: seq<Call>, k: string, i: nat, n: nat, now: int): real
    requires i < n <= |calls|
  {
    p.burst + Credit(p, now - calls[i].now) - Admitted(p, calls, k, i, n) as real
  }

  lemma WindowGrows(p: Policy, calls: seq<Call>, k: string, i: nat, n: nat, now: int, later: int)
    requires i < n < |calls|
    ensures Window(p, calls, k, i, n + 1, later) == Window(p, calls, k, i, n, now) + Credit(p, later - now)
         - (if calls[n].key == k && Decision(p, calls, n) then 1.0 else 0.0)
  {
    CreditAdds(p, now - calls[i].now, later - now);
    assert now - calls[i].now + (later - now) == later - calls[i].now;
  }

  ghost predicate TightWindow(p: Policy, calls: seq<Call>, k: string, i: nat, n: nat, now: int, level: real)
    requires n <= |calls|
  {
    i < n && calls[i].key == k && Window(p, calls, k, i, n, now) == level
  }

  /** The level is the minimum, over the windows that opened with an earlier call of `k`, of what they grant. */
  lemma {:induction false} LevelIsTightestWindow(p: Policy, calls: seq<Call>, k: string, n: nat, now: int)
    requires n <= |calls| && Monotone(calls)
    requires n > 0 ==> calls[n - 1].now <= now
    ensures forall i: nat :: i < n && calls[i].key == k ==> Level(p, After(p, calls, n), k, now) <= Window(p, calls, k, i, n, now)
    ensures Level(p, After(p, calls, n), k, now) == p.burst
         || exists i: nat :: TightWindow(p, calls, k, i, n, now, Level(p, After(p, calls, n), k, now))
  {
    hide Earned, Credit, Step, Touch, Refill;
    if n == 0 { FreshLevel(p, calls, k, now); return; }
    var m := n - 1;
    var c, s := calls[m], After(p, calls, m);
    var before, after := Level(p, s, k, c.now), Level(p, After(p, calls, n), k, now);
    AfterSane(p, calls, m, c.now);
    LevelIsTightestWindow(p, calls, k, m, c.now);
    CreditAdds(p, now - c.now, 0);
    if c.key == k {
      OwnCall(p, s, c, now);
    } else {
      OtherKeyInvisible(p, s, c, k, now);
      LevelShifts(p, s, k, c.now, now);
    }
    var spent := if c.key == k && Decision(p, calls, m) then 1.0 else 0.0;
    assert after == Min(p.burst, before - spent + Credit(p, now - c.now));
    forall i: nat | i < n && calls[i].key == k
      ensures after <= Window(p, calls, k, i, n, now)
    {
      if i < m { WindowGrows(p, calls, k, i, m, c.now, now); }
      else { assert Admitted(p, calls, k, m, m) == 0; LevelAtMostBurst(p, s, k, c.now); }
    }
    if after != p.burst {
      if before == p.burst {
        assert c.key == k;
        assert Admitted(p, calls, k, m, m) == 0;
        assert TightWindow(p, calls, k, m, n, now, after);
      } else {
        var i: nat :| TightWindow(p, calls, k, i, m, c.now, before);
        WindowGrows(p, calls, k, i, m, c.now, now);
        assert TightWindow(p, calls, k, i, n, now, after);
      }
    }
  }

  lemma LevelAtMostBurst(p: Policy, s: State, k: string, now: int)
    requires Sane(p, s, now)
    ensures Level(p, s, k, now) <= p.burst
  {
  }

  /**
   A call is let through if and only if no window of its key, opened by an earlier call or by itself, would
   then hold more than burst + max(perSec, 0) * length admitted calls.  So no window is ever exceeded, and no
   call is turned away that could have been let through.
   */
  lemma GreedyWindowPolicy(p: Policy, calls: seq<Call>, j: nat)
    requires j < |calls| && Monotone(calls)
    ensures Decision(p, calls, j) <==>
            forall i: nat :: i <= j && calls[i].key == calls[j].key ==>
              Admitted(p, calls, calls[j].key, i, j) as real + 1.0 <= p.burst + Credit(p, calls[j].now - calls[i].now)
  {
    hide Earned, Credit, Step, Touch, After;
    var k, now := calls[j].key, calls[j].now;
    var level := Level(p, After(p, calls, j), k, now);
    LevelIsTightestWindow(p, calls, k, j, now);
    CreditAdds(p, 0, 0);
    forall i: nat | i <= j && calls[i].key == k && level >= 1.0
      ensures Admitted(p, calls, k, i, j) as real + 1.0 <= p.burst + Credit(p, now - calls[i].now)
    {
      if i < j { assert level <= Window(p, calls, k, i, j, now); } else { assert Admitted(p, calls, k, j, j) == 0; }
    }
    if level < 1.0 {
      var i: nat :| TightWindow(p, calls, k, i, j, now, level);
      assert calls[i].key == k && Window(p, calls, k, i, j, now) < 1.0;
    }
  }

  // ---- keys do not interfere ----

  /** The bucket of a limiter that serves one key only and never evicts, after calls at the given times. */
  function Solo(p: Policy, times: seq<int>): BucketVal
    requires |times| > 0
  {
    var n := |times| - 1;
    Spend(if n == 0 then BucketVal(p.burst, times[0]) else Refill(p, Solo(p, times[..n]), times[n]))
  }

  function SoloLevel(p: Policy, times: seq<int>, now: int): real {
    if |times| == 0 then p.burst else Refill(p, Solo(p, times), now).tokens
  }

  /** What that limiter would answer to one more call. */
  predicate SoloAdmits(p: Policy, times: seq<int>, now: int) {
    SoloLevel(p, times, now) >= 1.0
  }

  function TimesOf(calls: seq<Call>, k: string, n: nat): seq<int>
    requires n <= |calls|
  {
    if n == 0 then []
    else TimesOf(calls, k, n - 1) + (if calls[n - 1].key == k then [calls[n - 1].now] else [])
  }

  lemma SoloStep(p: Policy, times: seq<int>, now: int, later: int)
    requires now <= later
    requires |times| > 0 ==> 0.0 <= Solo(p, times).tokens <= p.burst && Solo(p, times).last <= now
    ensures var after := Solo(p, times + [now]);
            (0.0 <= after.tokens <= p.burst && after.last <= later)
    ensures SoloLevel(p, times + [now], later)
         == Min(p.burst, SoloLevel(p, times, now) - (if SoloAdmits(p, times, now) then 1.0 else 0.0) + Credit(p, later - now))
  {
    hide Earned;
    assert (times + [now])[..|times|] == times;
    if |times| > 0 { CreditAdds(p, now - Solo(p, times).last, 0); }
    BucketLevelShifts(p, Solo(p, times + [now]), now, later);
  }

  lemma {:induction false} SameLevelAsSolo(p: Policy, calls: seq<Call>, k: string, n: nat, now: int)
    requires n <= |calls| && Monotone(calls)
    requires n > 0 ==> calls[n - 1].now <= now
    ensures Level(p, After(p, calls, n), k, now) == SoloLevel(p, TimesOf(calls, k, n), now)
    ensures |TimesOf(calls, k, n)| > 0 ==>
              0.0 <= Solo(p, TimesOf(calls, k, n)).tokens <= p.burst && Solo(p, TimesOf(calls, k, n)).last <= now
  {
    hide Earned, Credit, Step, Touch, Refill;
    if n == 0 { FreshLevel(p, calls, k, now); return; }
    var c, s := calls[n - 1], After(p, calls, n - 1);
    AfterSane(p, calls, n - 1, c.now);
    var before := TimesOf(calls, k, n - 1);
    if c.key == k {
      SameLevelAsSolo(p, calls, k, n - 1, c.now);
      OwnCall(p, s, c, now);
      SoloStep(p, before, c.now, now);
    } else {
      assert TimesOf(calls, k, n) == before;
      SameLevelAsSolo(p, calls, k, n - 1, c.now);
      OtherKeyInvisible(p, s, c, k, now);
      SameLevelAsSolo(p, calls, k, n - 1, now);
    }
  }

  /** In every interleaving of keys, each call is answered as if its key had a limiter of its own that never evicts. */
  lemma KeysDoNotInterfere(p: Policy, calls: seq<Call>, j: nat)
    requires j < |calls| && Monotone(calls)
    ensures Decision(p, calls, j) <==> SoloAdmits(p, TimesOf(calls, calls[j].key, j), calls[j].now)
  {
    SameLevelAsSolo(p, calls, calls[j].key, j, calls[j].now);
  }

  // ---- memory ----

  /** The trailing window, in nanoseconds: one sweep interval plus the time to refill an empty bucket. */
  function Retention(p: Policy): real
    requires p.perSec > 0.0
  {
    60.0 * 1000000000.0 + p.burst / p.perSec * 1000000000.0
  }

  /** Some call of `k` among the first `n` is recent enough at `now` and is the one its bucket remembers. */
  ghost predicate RecentCall(p: Policy, calls: seq<Call>, n: nat, k: string, m: nat, last: int)
    requires n <= |calls|
  {
    m < n && calls[m].key == k && calls[m].now == last
  }

  /** After a call the last sweep is recent, and no bucket had refilled by then. */
  lemma SweepBounds(p: Policy, s: State, c: Call)
    requires Sane(p, s, c.now) && p.perSec > 0.0 && 0 <= s.lastSweep <= c.now
    ensures var t := Step(p, s, c);
            && s.lastSweep <= t.lastSweep <= c.now && c.now - t.lastSweep < SWEEP_EVERY
            && c.key in t.buckets && t.buckets[c.key].last == c.now
            && (forall k :: k in t.buckets && k != c.key ==>
                 && k in s.buckets && t.buckets[k] == s.buckets[k]
                 && (t.lastSweep == s.lastSweep || Credit(p, t.lastSweep - t.buckets[k].last) < p.burst))
            && Credit(p, t.lastSweep - c.now) < p.burst
  {
    hide Earned;
    var t := Step(p, s, c);
    OwnBucketSurvives(p, s, c);
    CreditAdds(p, t.lastSweep - c.now, c.now - t.lastSweep);
    CreditAdds(p, c.now - t.lastSweep, 0);
  }

  lemma AfterIsStep(p: Policy, calls: seq<Call>, n: nat)
    requires 0 < n <= |calls|
    ensures After(p, calls, n) == Step(p, After(p, calls, n - 1), calls[n - 1]) && After(p, calls, 0) == INITIAL
  {
    hide Step;
  }

  lemma {:induction false} SweepInvariant(p: Policy, calls: seq<Call>, n: nat)
    requires 0 < n <= |calls| && Monotone(calls) && calls[0].now >= 0 && p.perSec > 0.0
    ensures var s, now := After(p, calls, n), calls[n - 1].now;
            && 0 <= s.lastSweep <= now && now - s.lastSweep < SWEEP_EVERY
            && forall k :: k in s.buckets ==>
                 && (exists m: nat :: RecentCall(p, calls, n, k, m, s.buckets[k].last))
                 && Credit(p, s.lastSweep - s.buckets[k].last) < p.burst
  {
    hide Earned, Refill, Credit, Touch, Step, After, Sane;
    AfterIsStep(p, calls, n);
    var c, before, s := calls[n - 1], After(p, calls, n - 1), After(p, calls, n);
    if n > 1 { SweepInvariant(p, calls, n - 1); }
    AfterSane(p, calls, n - 1, c.now);
    SweepBounds(p, before, c);
    forall k | k in s.buckets
      ensures exists m: nat :: RecentCall(p, calls, n, k, m, s.buckets[k].last)
      ensures Credit(p, s.lastSweep - s.buckets[k].last) < p.burst
    {
      if k == c.key {
        assert RecentCall(p, calls, n, k, n - 1, c.now);
      } else {
        var m: nat :| RecentCall(p, calls, n - 1, k, m, s.buckets[k].last);
        assert RecentCall(p, calls, n, k, m, s.buckets[k].last);
      }
    }
  }

  /** With refill on, a bucket still held after a call was used within the trailing window. */
  lemma BucketsAreRecent(p: Policy, calls: seq<Call>, n: nat, k: string)
    requires 0 < n <= |calls| && Monotone(calls) && calls[0].now >= 0 && p.perSec > 0.0
    requires k in After(p, calls, n).buckets
    ensures (calls[n - 1].now - After(p, calls, n).buckets[k].last) as real < Retention(p)
    ensures exists m: nat :: RecentCall(p, calls, n, k, m, After(p, calls, n).buckets[k].last)
  {
    hide Earned;
    SweepInvariant(p, calls, n);
    var s := After(p, calls, n);
    EarnedBound(p.perSec, s.lastSweep - s.buckets[k].last, p.burst);
  }

  lemma EarnedBound(perSec: real, d: int, z: real)
    requires perSec > 0.0 && Earned(perSec, d) < z
    ensures d as real < z / perSec * NS_PER_SEC
  {
    assert z / perSec * perSec == z;
    if Seconds(d) >= z / perSec { assert Seconds(d) * perSec >= z / perSec * perSec; }
  }

  /** The keys called at most `Retention` before the last of `n` calls. */
  ghost function RecentKeys(p: Policy, calls: seq<Call>, n: nat): set<string>
    requires 0 < n <= |calls| && p.perSec > 0.0
  {
    set m: nat | m < n && (calls[n - 1].now - calls[m].now) as real < Retention(p) :: calls[m].key
  }

  /** The map never holds more buckets than there were distinct callers in the trailing window. */
  lemma MemoryBound(p: Policy, calls: seq<Call>, n: nat)
    requires 0 < n <= |calls| && Monotone(calls) && calls[0].now >= 0 && p.perSec > 0.0
    ensures After(p, calls, n).buckets.Keys <= RecentKeys(p, calls, n)
    ensures |After(p, calls, n).buckets| <= |RecentKeys(p, calls, n)|
  {
    var held := After(p, calls, n).buckets.Keys;
    forall k | k in held ensures k in RecentKeys(p, calls, n) {
      BucketsAreRecent(p, calls, n, k);
      var m: nat :| RecentCall(p, calls, n, k, m, After(p, calls, n).buckets[k].last);
    }
    SubsetSize(held, RecentKeys(p, calls, n));
  }

  lemma {:induction false} SubsetSize<T>(a: set<T>, b: set<T>)
    requires a <= b
    ensures |a| <= |b|
  {
    if a != {} {
      var x :| x in a;
      SubsetSize(a - {x}, b - {x});
    }
  }

  // ---- the code ----

  class Bucket {
    var tokens: real
    var last: int

    constructor (tokens: real, last: int)
      ensures this.tokens == tokens && this.last == last
    {
      this.tokens, this.last := tokens, last;
    }
  }

  class Limiter {
    var buckets: map<string, Bucket>
    const burst: real
    const perSec: real
    var lastSweep: int
    ghost var Repr: set<Bucket>
    ghost var calls: seq<Call>  // every call so far, in the order the mutex let them in

    ghost predicate Shape()
      reads this
    {
      && burst >= 1.0
      && (forall k :: k in buckets ==> buckets[k] in Repr)
      && (forall k, l :: k in buckets && l in buckets && k != l ==> buckets[k] != buckets[l])
    }

    ghost predicate Valid()
      reads this, Repr
    {
      Shape() && Mirrors(After(ThePolicy(), calls, |calls|))
    }

    ghost function ThePolicy(): Policy
      reads this
      requires Shape()
    {
      RawPolicy(burst, perSec)
    }

    /** The heap holds exactly the buckets of `s`. */
    ghost predicate Mirrors(s: State)
      requires Shape()
      reads this, Repr
    {
      && lastSweep == s.lastSweep
      && (forall k :: k in buckets <==> k in s.buckets)
      && (forall k :: k in buckets ==> BucketVal(buckets[k].tokens, buckets[k].last) == s.buckets[k])
    }

    predicate Idle(b: Bucket, now: int)
      reads b
    {
      Earned(perSec, now - b.last) >= burst
    }

    constructor (burst: int, perSec: real)
      ensures Valid() && calls == [] && Repr == {}
      ensures ThePolicy() == RawPolicy(if burst < 1 then 1.0 else burst as real, perSec)
    {
      buckets := map[];
      this.burst := if burst < 1 then 1.0 else burst as real;
      this.perSec := perSec;
      lastSweep := 0;
      calls, Repr := [], {};
    }

    method Allow(key: string, now: int) returns (ok: bool)
      requires Valid()
      modifies this, Repr
      ensures Valid() && fresh(Repr - old(Repr))
      ensures calls == old(calls) + [Call(key, now)]
      ensures ok <==> Decision(ThePolicy(), calls, |old(calls)|)
    {
      hide Earned, After, Step, Decision, Sweep, Touch;
      ghost var p, call := ThePolicy(), Call(key, now);
      ghost var before := After(p, calls, |calls|);
      AfterOneMore(p, calls, call);
      OwnBucketSurvives(p, before, call);

      var b := BucketFor(key, now, before);
      SweepLocked(now, before.(buckets := before.buckets[key := Touch(p, before, key, now)]));
      calls := calls + [call];
      assert key in buckets && buckets[key] == b;
      assert Shape();

      ok := b.tokens >= 1.0;
      if ok {
        b.tokens := b.tokens - 1.0;
      }
      forall k | k in buckets
        ensures BucketVal(buckets[k].tokens, buckets[k].last) == Step(p, before, call).buckets[k]
      {
        if k == key { assert buckets[k] == b; } else { assert buckets[k] != b; }
      }
      assert Shape();
    }

    /** The first half of `Allow`: finds or creates the key's bucket and brings it up to date. */
    method BucketFor(key: string, now: int, ghost s: State) returns (b: Bucket)
      requires Shape() && Mirrors(s)
      modifies this`buckets, this`Repr, Repr
      ensures Shape() && fresh(Repr - old(Repr))
      ensures Mirrors(s.(buckets := s.buckets[key := Touch(ThePolicy(), s, key, now)]))
      ensures key in buckets && buckets[key] == b
    {
      hide Earned;
      if key !in buckets {
        b := new Bucket(burst, now);
        buckets, Repr := buckets[key := b], Repr + {b};
      } else {
        b := buckets[key];
        var elapsed := now - b.last;
        if elapsed > 0 && perSec > 0.0 {
          b.tokens := b.tokens + Earned(perSec, elapsed);
          if b.tokens > burst {
            b.tokens := burst;
          }
          b.last := now;
        }
        assert BucketVal(b.tokens, b.last) == Touch(ThePolicy(), s, key, now);
      }
    }

    /** Drops the buckets idle long enough to be full again, at most once per sweep interval. */
    method SweepLocked(now: int, ghost s: State)
      requires Shape() && Mirrors(s)
      modifies this`buckets, this`lastSweep
      ensures Shape() && Mirrors(Sweep(ThePolicy(), s, now))
      ensures forall k :: k in buckets ==> k in old(buckets) && buckets[k] == old(buckets)[k]
    {
      hide Earned, After;
      if now - lastSweep < SWEEP_EVERY {
        return;
      }
      lastSweep := now;
      if perSec <= 0.0 {
        return;
      }
      var todo := buckets.Keys;
      while todo != {}
        invariant todo <= buckets.Keys <= old(buckets).Keys
        invariant forall k :: k in buckets ==> buckets[k] == old(buckets)[k]
        invariant forall k :: k in old(buckets) && k !in todo ==>
                    (k in buckets <==> !Idle(old(buckets)[k], now))
        invariant lastSweep == now
        decreases todo
      {
        var k :| k in todo;
        todo := todo - {k};
        if Idle(buckets[k], now) {
          buckets := buckets - {k};
        }
      }
      forall k
        ensures k in buckets <==> k in Sweep(ThePolicy(), s, now).buckets
        ensures k in buckets ==>
                  BucketVal(buckets[k].tokens, buckets[k].last) == Sweep(ThePolicy(), s, now).buckets[k]
      {
        if k in s.buckets {
          assert Refilled(ThePolicy(), s.buckets[k], now) == Idle(old(buckets)[k], now);
        }
      }
    }
  }

  lemma {:induction false} AfterPrefix(p: Policy, calls: seq<Call>, c: Call, n: nat)
    requires n <= |calls|
    ensures After(p, calls + [c], n) == After(p, calls, n)
  {
    hide Step;
    if n > 0 { AfterPrefix(p, calls, c, n - 1); }
  }

  lemma AfterOneMore(p: Policy, calls: seq<Call>, c: Call)
    ensures After(p, calls + [c], |calls| + 1) == Step(p, After(p, calls, |calls|), c)
    ensures Decision(p, calls + [c], |calls|) == Admits(p, After(p, calls, |calls|), c)
  {
    hide Step;
    AfterPrefix(p, calls, c, |calls|);
  }
}
