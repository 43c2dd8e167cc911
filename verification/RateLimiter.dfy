/**
 The token bucket that paces snapshot streams. Time and tokens are reals; the clock
 never goes back and a sleep lasts at least as long as asked.
 */
module RateLimiter {

  /** `bytes` were let through at `time`. */
  datatype Release = Release(time: real, bytes: real)

  function Total(h: seq<Release>): real {
    if h == [] then 0.0 else Total(h[..|h| - 1]) + h[|h| - 1].bytes
  }

  /** The tokens that `elapsed` seconds bring. */
  function Earned(rate: real, elapsed: real): real {
    elapsed * rate
  }

  /** What may pass in `elapsed` seconds, starting with a full bucket. */
  function Quota(burst: real, rate: real, elapsed: real): real {
    burst + Earned(rate, elapsed)
  }

  /** Between any two releases, both included, no more than the quota has passed. */
  ghost predicate Paced(h: seq<Release>, burst: real, rate: real) {
    forall i, j :: 0 <= i <= j < |h| ==> Total(h[i..j + 1]) <= Quota(burst, rate, h[j].time - h[i].time)
  }

  /** Tokens left were not used yet: what passed since a release and what is left are within the quota. */
  ghost predicate Budgeted(h: seq<Release>, burst: real, rate: real, allowance: real, last: real) {
    forall i :: 0 <= i < |h| ==> Total(h[i..]) + allowance <= Quota(burst, rate, last - h[i].time)
  }

  lemma EarnedGrows(rate: real, a: real, b: real)
    requires rate >= 0.0 && a <= b
    ensures Earned(rate, a) <= Earned(rate, b)
  {
    assert (b - a) * rate >= 0.0;
    assert b * rate == a * rate + (b - a) * rate;
  }

  lemma EarnedAdds(rate: real, a: real, b: real)
    ensures Earned(rate, a + b) == Earned(rate, a) + Earned(rate, b)
    ensures Earned(rate, 0.0) == 0.0
  {
  }

  lemma SleepIsEnough(rate: real, missing: real)
    requires rate > 0.0
    ensures Earned(rate, missing / rate) == missing
  {
  }

  lemma RefillKeepsBudget(
    h: seq<Release>, burst: real, rate: real, allowance: real, last: real, now: real, refilled: real)
    requires Budgeted(h, burst, rate, allowance, last) && refilled <= allowance + Earned(rate, now - last)
    ensures Budgeted(h, burst, rate, refilled, now)
  {
    hide Earned, Total;
    forall i | 0 <= i < |h|
      ensures Total(h[i..]) + refilled <= Quota(burst, rate, now - h[i].time)
    {
      EarnedAdds(rate, last - h[i].time, now - last);
      assert (last - h[i].time) + (now - last) == now - h[i].time;
    }
  }

  lemma TotalOneMore(h: seq<Release>, r: Release, i: nat)
    requires i <= |h|
    ensures Total((h + [r])[i..]) == Total(h[i..]) + r.bytes
  {
    var s := (h + [r])[i..];
    assert s[..|s| - 1] == h[i..];
  }

  lemma NothingTotal()
    ensures Total([]) == 0.0
  {
  }

  lemma ReleaseKeepsBudget(h: seq<Release>, burst: real, rate: real, allowance: real, now: real, need: real)
    requires Budgeted(h, burst, rate, allowance, now) && Paced(h, burst, rate)
    requires need <= allowance <= burst
    ensures Budgeted(h + [Release(now, need)], burst, rate, allowance - need, now)
    ensures Paced(h + [Release(now, need)], burst, rate)
  {
    hide Earned, Total;
    var r := Release(now, need);
    var h' := h + [r];
    EarnedAdds(rate, 0.0, 0.0);
    NothingTotal();
    forall i | 0 <= i < |h'|
      ensures Total(h'[i..]) + (allowance - need) <= Quota(burst, rate, now - h'[i].time)
    {
      TotalOneMore(h, r, i);
      assert i == |h| ==> h[i..] == [] && now - h'[i].time == 0.0;
    }
    forall i, j | 0 <= i <= j < |h'|
      ensures Total(h'[i..j + 1]) <= Quota(burst, rate, h'[j].time - h'[i].time)
    {
      if j == |h| {
        assert h'[i..j + 1] == h'[i..];
      } else {
        assert h'[i..j + 1] == h[i..j + 1];
      }
    }
  }

  // ---- The clock ---------------------------------------------------------------------

  class Clock {
    var now: real

    constructor (now: real)
      ensures this.now == now
    {
      this.now := now;
    }

    /** Some time passes. */
    method Tick()
      modifies this
      ensures now >= old(now)
    {
      var later: real := *;
      now := Max(now, later);
    }

    method Sleep(seconds: real)
      modifies this
      ensures now >= old(now) && now >= old(now) + seconds
    {
      var awake := now + seconds;
      Tick();
      now := Max(now, awake);
    }
  }

  function Min(a: real, b: real): real {
    if a <= b then a else b
  }

  function Max(a: real, b: real): real {
    if a <= b then b else a
  }

  // ---- The limiter ------------------------------------------------------------------

  class RateLimiter {
    const rate: nat
    const burst: real
    var allowance: real
    var last: real
    ghost var history: seq<Release>

    /** The bucket is never over- or underdrawn, and every window of releases is within its quota. */
    ghost predicate Valid()
      reads this
    {
      && 0.0 <= allowance <= burst
      && Budgeted(history, burst, rate as real, allowance, last)
      && Paced(history, burst, rate as real)
    }

    constructor (rate: nat, burst: nat, clock: Clock)
      ensures Valid() && this.rate == rate && this.burst == burst as real
      ensures history == [] && last == clock.now && fresh(this)
    {
      this.rate, this.burst, allowance, last := rate, burst as real, burst as real, clock.now;
      history := [];
    }

    /**
     Wait until `bytes` may be sent, and take the tokens for them. `naps` is how many sleeps
     are watched before the caller is still waiting: one is always enough, unless the
     bucket is too small for one token; then no number is.
     */
    method Acquire(bytes: nat, clock: Clock, naps: nat) returns (granted: bool)
      requires Valid() && last <= clock.now
      modifies this, clock
      ensures Valid() && old(last) <= last <= clock.now && old(clock.now) <= clock.now
      ensures rate == 0 || (burst >= 1.0 && naps > 0) ==> granted
      ensures rate > 0 && burst < 1.0 ==> !granted
      ensures rate == 0 || !granted ==> history == old(history)
      ensures rate > 0 && granted ==>
                history == old(history) + [Release(last, Max(Min(bytes as real, burst), 1.0))]
      ensures rate > 0 ==> last >= old(clock.now)
    {
      hide Paced, Budgeted, Earned;
      if rate == 0 {
        return true;
      }
      var need := Max(Min(bytes as real, burst), 1.0);
      var r := rate as real;
      var slept := 0;
      while true
        invariant Valid() && history == old(history)
        invariant old(last) <= last <= clock.now && old(clock.now) <= clock.now
        invariant slept <= naps && (slept > 0 ==> allowance + Earned(r, clock.now - last) >= need)
        decreases naps - slept
      {
        ghost var before := clock.now - last;
        clock.Tick();
        EarnedGrows(r, 0.0, before);
        EarnedGrows(r, before, clock.now - last);
        EarnedAdds(r, 0.0, 0.0);
        var refilled := Min(allowance + Earned(r, clock.now - last), burst);
        RefillKeepsBudget(history, burst, r, allowance, last, clock.now, refilled);
        allowance := refilled;
        last := clock.now;
        if allowance >= need {
          ReleaseKeepsBudget(history, burst, r, allowance, last, need);
          history := history + [Release(last, need)];
          allowance := allowance - need;
          return true;
        }
        if slept == naps {
          return false;
        }
        var missing := need - allowance;
        clock.Sleep(missing / r);
        SleepIsEnough(r, missing);
        EarnedGrows(r, missing / r, clock.now - last);
        slept := slept + 1;
      }
    }
  }

  /** With a bucket of less than one token no refill ever meets the least that is asked for. */
  lemma EmptyBucketNeverSuffices(bytes: nat, burst: real, allowance: real, rate: real, elapsed: real)
    requires burst < 1.0
    ensures Min(allowance + Earned(rate, elapsed), burst) < Max(Min(bytes as real, burst), 1.0)
  {
  }
}
