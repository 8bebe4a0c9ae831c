/** The token bucket that limits how fast a client may send. Times are in nanoseconds, tokens are
    real numbers. */
module TokenBucket {
  const SECOND: real := 1000000000.0
  const MILLISECOND := 1000000

  datatype Bucket = Bucket(tokens: real, lastUpdate: int)

  function Min(a: real, b: real): real {
    if a <= b then a else b
  }

  /** What `ns` nanoseconds add at a rate per second. */
  function Gain(rate: real, ns: int): real {
    ns as real / SECOND * rate
  }

  lemma GainAdds(rate: real, m: int, n: int)
    requires rate >= 0.0
    ensures Gain(rate, m + n) == Gain(rate, m) + Gain(rate, n)
    ensures m >= 0 ==> Gain(rate, m) >= 0.0
  {
    var x, y := m as real / SECOND, n as real / SECOND;
    assert (m + n) as real / SECOND == x + y;
    assert (x + y) * rate == x * rate + y * rate;
  }

  /** The tokens at a time; a clock that stepped back adds nothing. */
  function Refilled(rate: real, burst: real, b: Bucket, now: int): real {
    if now > b.lastUpdate then Min(burst, b.tokens + Gain(rate, now - b.lastUpdate)) else b.tokens
  }

  function AllowAt(rate: real, burst: real, b: Bucket, now: int): (Bucket, bool) {
    var tokens := Refilled(rate, burst, b, now);
    var last := if now > b.lastUpdate then now else b.lastUpdate;
    if tokens >= 1.0 then (Bucket(tokens - 1.0, last), true) else (Bucket(tokens, last), false)
  }

  predicate Level(burst: real, b: Bucket) {
    0.0 <= b.tokens <= burst
  }

  /** The bucket after calls at these times, and how many were allowed. */
  function AllowAll(rate: real, burst: real, b: Bucket, times: seq<int>): (Bucket, nat) {
    if times == [] then (b, 0)
    else
      var before := AllowAll(rate, burst, b, times[..|times| - 1]);
      var last := AllowAt(rate, burst, before.0, times[|times| - 1]);
      (last.0, before.1 + if last.1 then 1 else 0)
  }

  /** Over any run, with clocks that may step back: the level stays between nothing and the burst,
      and the calls allowed are paid for by what was there and what the elapsed time added. */
  lemma {:induction false} RateBound(rate: real, burst: real, b: Bucket, times: seq<int>)
    requires rate >= 0.0 && Level(burst, b)
    ensures var r := AllowAll(rate, burst, b, times);
            && Level(burst, r.0) && r.0.lastUpdate >= b.lastUpdate
            && r.1 as real + r.0.tokens <= b.tokens + Gain(rate, r.0.lastUpdate - b.lastUpdate)
            && r.1 as real <= burst + Gain(rate, r.0.lastUpdate - b.lastUpdate)
  {
    if times == [] {
      GainAdds(rate, 0, 0);
    } else {
      RateBound(rate, burst, b, times[..|times| - 1]);
      var m, now := AllowAll(rate, burst, b, times[..|times| - 1]).0, times[|times| - 1];
      var last := if now > m.lastUpdate then now else m.lastUpdate;
      GainAdds(rate, m.lastUpdate - b.lastUpdate, last - m.lastUpdate);
      GainAdds(rate, last - m.lastUpdate, 0);
      assert (m.lastUpdate - b.lastUpdate) + (last - m.lastUpdate) == last - b.lastUpdate;
      hide Gain;
    }
  }

  /** Of calls at one time as many are allowed as there are whole tokens: what was there and what the time
      since the last update added, at most the burst. Each takes one. */
  lemma BurstLaw(rate: real, burst: real, b: Bucket, now: int, calls: nat)
    requires rate >= 0.0 && Level(burst, b)
    ensures var since := if now >= b.lastUpdate then now - b.lastUpdate else 0;
            var full := b.tokens + rate * (since as real / 1000000000.0);
            var there := if full <= burst then full else burst;
            var r := AllowAll(rate, burst, b, seq(calls, _ => now));
            && there >= 0.0
            && r.1 == (if calls <= there.Floor then calls else there.Floor)
            && (r.1 == calls <==> calls as real <= there)
            && (calls > 0 ==> r.0 == Bucket(there - r.1 as real, b.lastUpdate + since))
  {
    hide Gain, Refilled, AllowAll;
    var since := if now >= b.lastUpdate then now - b.lastUpdate else 0;
    LevelNow(rate, burst, b, now, since);
    CallsAt(rate, burst, b, now, calls);
    WholeCalls(calls, Refilled(rate, burst, b, now));
  }

  lemma LevelNow(rate: real, burst: real, b: Bucket, now: int, since: int)
    requires rate >= 0.0 && Level(burst, b) && since == if now >= b.lastUpdate then now - b.lastUpdate else 0
    ensures var full := b.tokens + rate * (since as real / 1000000000.0);
            Refilled(rate, burst, b, now) == (if full <= burst then full else burst) >= 0.0
  {
    var x := since as real / SECOND;
    assert x >= 0.0 && rate * x >= 0.0;
    assert Gain(rate, since) == rate * x;
    if now == b.lastUpdate {
      assert x == 0.0 && rate * x == 0.0;
    }
    hide Gain;
  }

  lemma WholeCalls(calls: nat, there: real)
    ensures calls <= there.Floor <==> calls as real <= there
  {
  }

  lemma {:induction false} CallsAt(rate: real, burst: real, b: Bucket, now: int, calls: nat)
    requires Refilled(rate, burst, b, now) >= 0.0
    ensures var there := Refilled(rate, burst, b, now);
            var r := AllowAll(rate, burst, b, seq(calls, _ => now));
            && r.1 == (if calls <= there.Floor then calls else there.Floor)
            && (calls > 0 ==>
                  r.0 == Bucket(there - r.1 as real, if now > b.lastUpdate then now else b.lastUpdate))
  {
    if calls > 0 {
      CallsAt(rate, burst, b, now, calls - 1);
      var times := seq(calls, _ => now);
      assert times[..calls - 1] == seq(calls - 1, _ => now);
      var before := AllowAll(rate, burst, b, times[..calls - 1]);
      assert Refilled(rate, burst, before.0, now) == Refilled(rate, burst, b, now) - before.1 as real;
      hide Gain, Refilled;
    }
  }

  /** A refused call leaves no trace: a later call finds what it would have found without it. */
  lemma RefusalLeavesNoTrace(rate: real, burst: real, b: Bucket, now: int, later: int)
    requires rate >= 0.0 && !AllowAt(rate, burst, b, now).1 && later >= now
    ensures AllowAt(rate, burst, AllowAt(rate, burst, b, now).0, later) == AllowAt(rate, burst, b, later)
  {
    if now > b.lastUpdate {
      GainAdds(rate, now - b.lastUpdate, later - now);
      GainAdds(rate, later - now, 0);
      assert (now - b.lastUpdate) + (later - now) == later - b.lastUpdate;
      hide Gain;
    }
  }

  /** So for clocks that do not step back, leaving out a refused call changes no later answer. */
  lemma {:induction false} RefusalsDoNotMatter(rate: real, burst: real, b: Bucket, now: int, times: seq<int>)
    requires rate >= 0.0 && !AllowAt(rate, burst, b, now).1
    requires times != [] && times[0] >= now
    ensures AllowAll(rate, burst, AllowAt(rate, burst, b, now).0, times) == AllowAll(rate, burst, b, times)
  {
    hide AllowAt;
    if |times| == 1 {
      RefusalLeavesNoTrace(rate, burst, b, now, times[0]);
      assert times[..0] == [];
    } else {
      RefusalsDoNotMatter(rate, burst, b, now, times[..|times| - 1]);
    }
  }

  // ---------- How long to wait ----------

  function WaitTime(rate: real, burst: real, b: Bucket, now: int): real
    requires rate > 0.0
  {
    (1.0 - Refilled(rate, burst, b, now)) / rate * SECOND
  }

  /** In whole nanoseconds, rounded down; nothing when a token is there. */
  function WaitAt(rate: real, burst: real, b: Bucket, now: int): int
    requires rate > 0.0
  {
    if Refilled(rate, burst, b, now) >= 1.0 then 0 else WaitTime(rate, burst, b, now).Floor
  }

  lemma GainWaits(rate: real, missing: real, ns: int)
    requires rate > 0.0
    ensures Gain(rate, ns) >= missing <==> ns as real >= missing / rate * SECOND
  {
    var x, y := ns as real / SECOND, missing / rate;
    assert y * rate == missing;
    if x >= y {
      assert x * rate >= y * rate;
    } else {
      assert x * rate < y * rate;
    }
  }

  lemma RefillsFrom(rate: real, burst: real, b: Bucket, now: int, t: int)
    requires rate > 0.0 && burst >= 1.0 && b.tokens <= burst && Refilled(rate, burst, b, now) < 1.0
    requires t >= now && t >= b.lastUpdate
    ensures var base := if now > b.lastUpdate then now else b.lastUpdate;
            Refilled(rate, burst, b, t) == Min(burst, Refilled(rate, burst, b, now) + Gain(rate, t - base))
  {
    var base := if now > b.lastUpdate then now else b.lastUpdate;
    GainAdds(rate, base - b.lastUpdate, t - base);
    GainAdds(rate, t - base, 0);
    GainAdds(rate, 0, 0);
    assert (base - b.lastUpdate) + (t - base) == t - b.lastUpdate;
    hide Gain;
  }

  /** After a refusal at `now` the next token is there exactly from the end of the wait on, which is
      counted from `now`, or from the last update if the clock has stepped back behind it. Rounding
      down makes the announced wait up to one nanosecond short. */
  lemma WaitIsExact(rate: real, burst: real, b: Bucket, now: int, t: int)
    requires rate > 0.0 && burst >= 1.0 && b.tokens <= burst
    requires !AllowAt(rate, burst, b, now).1 && t >= now && t >= b.lastUpdate
    ensures var base := if now > b.lastUpdate then now else b.lastUpdate;
            var d := WaitAt(rate, burst, b, now);
            && (AllowAt(rate, burst, b, t).1 <==> (t - base) as real >= WaitTime(rate, burst, b, now))
            && d >= 0
            && (t < base + d ==> !AllowAt(rate, burst, b, t).1)
            && (t > base + d ==> AllowAt(rate, burst, b, t).1)
            && (t == base + d ==> (AllowAt(rate, burst, b, t).1 <==> d as real == WaitTime(rate, burst, b, now)))
  {
    var base := if now > b.lastUpdate then now else b.lastUpdate;
    var missing := 1.0 - Refilled(rate, burst, b, now);
    RefillsFrom(rate, burst, b, now, t);
    GainWaits(rate, missing, t - base);
    GainWaits(rate, missing, 0);
    assert Gain(rate, 0) == 0.0;
    hide Gain, Refilled;
    assert WaitTime(rate, burst, b, now) > 0.0;
  }

  /** With a clock at or after the last update: refused until the announced wait is over, allowed one
      nanosecond later at the latest; and if nothing is refused now, the wait is zero. */
  lemma WaitTells(rate: real, burst: real, b: Bucket, now: int)
    requires rate > 0.0 && burst >= 1.0 && b.tokens <= burst && now >= b.lastUpdate
    ensures var d := WaitAt(rate, burst, b, now);
            && (AllowAt(rate, burst, b, now).1 ==> d == 0)
            && (!AllowAt(rate, burst, b, now).1 ==>
                  (forall t :: now <= t < now + d ==> !AllowAt(rate, burst, b, t).1) &&
                  (forall t :: t > now + d ==> AllowAt(rate, burst, b, t).1))
  {
    if !AllowAt(rate, burst, b, now).1 {
      forall t | t >= now
        ensures t < now + WaitAt(rate, burst, b, now) ==> !AllowAt(rate, burst, b, t).1
        ensures t > now + WaitAt(rate, burst, b, now) ==> AllowAt(rate, burst, b, t).1
      {
        WaitIsExact(rate, burst, b, now, t);
      }
      WaitIsExact(rate, burst, b, now, now);
    }
    hide Gain;
  }

  lemma WaitShrinks(rate: real, burst: real, b: Bucket, now: int, later: int)
    requires rate > 0.0 && b.tokens <= burst && b.lastUpdate <= now <= later
    ensures WaitTime(rate, burst, b, later) <= WaitTime(rate, burst, b, now)
    ensures WaitTime(rate, burst, b, now) >= 0.0 ==>
              WaitAt(rate, burst, b, later) <= WaitTime(rate, burst, b, now).Floor
  {
    GainAdds(rate, now - b.lastUpdate, later - now);
    GainAdds(rate, later - now, 0);
    assert (now - b.lastUpdate) + (later - now) == later - b.lastUpdate;
    assert Gain(rate, 0) == 0.0;
    hide Gain;
    var x, y := 1.0 - Refilled(rate, burst, b, later), 1.0 - Refilled(rate, burst, b, now);
    assert x <= y;
    DivMonotone(x, y, rate);
  }

  lemma DivMonotone(x: real, y: real, rate: real)
    requires rate > 0.0 && x <= y
    ensures x / rate * SECOND <= y / rate * SECOND
  {
    assert (x / rate) * rate == x && (y / rate) * rate == y;
  }

  /** Sleeping as long as announced, but at least a millisecond, leaves less than a nanosecond to
      wait; if that was so before, the sleep is enough. */
  lemma SleepHelps(rate: real, burst: real, b: Bucket, asked: int, now: int)
    requires rate > 0.0 && burst >= 1.0 && b.tokens <= burst && asked >= b.lastUpdate
    requires var d := WaitAt(rate, burst, b, asked); now >= asked + if d <= 0 then MILLISECOND else d
    ensures WaitTime(rate, burst, b, asked) < 1.0 ==> AllowAt(rate, burst, b, now).1
    ensures !AllowAt(rate, burst, b, now).1 ==> WaitTime(rate, burst, AllowAt(rate, burst, b, now).0, now) < 1.0
  {
    if AllowAt(rate, burst, b, asked).1 {
      GainAdds(rate, asked - b.lastUpdate, now - asked);
      GainAdds(rate, now - asked, 0);
      assert (asked - b.lastUpdate) + (now - asked) == now - b.lastUpdate;
      hide Gain;
    } else {
      WaitIsExact(rate, burst, b, asked, now);
      if !AllowAt(rate, burst, b, now).1 {
        var d := WaitAt(rate, burst, b, asked);
        assert now == asked + d;
        RefillsFrom(rate, burst, b, asked, now);
        var missing := 1.0 - Refilled(rate, burst, b, asked);
        assert Refilled(rate, burst, b, now) == 1.0 - missing + Gain(rate, d);
        GainBack(rate, missing, d);
      }
    }
  }

  lemma GainBack(rate: real, missing: real, ns: int)
    requires rate > 0.0
    ensures (missing - Gain(rate, ns)) / rate * SECOND == missing / rate * SECOND - ns as real
  {
    var x := ns as real / SECOND;
    assert (missing - x * rate) / rate == missing / rate - x by {
      assert (missing / rate - x) * rate == missing - x * rate;
    }
  }

  // ---------- The limiter itself ----------

  class TokenBucket {
    const rate: real
    const burst: real
    var tokens: real
    var lastUpdate: int

    ghost function Value(): Bucket
      reads this
    {
      Bucket(tokens, lastUpdate)
    }

    /** The callers refuse to build a bucket that could never hold a token. */
    ghost predicate Valid()
      reads this
    {
      rate > 0.0 && burst >= 1.0 && Level(burst, Value())
    }

    constructor (rate: real, burst: int, now: int)
      ensures this.rate == rate && this.burst == burst as real && Value() == Bucket(burst as real, now)
      ensures rate > 0.0 && burst >= 1 ==> Valid()
    {
      this.rate := rate;
      this.burst := burst as real;
      tokens := burst as real;
      lastUpdate := now;
    }

    method Allow(now: int) returns (ok: bool)
      modifies this
      ensures (Value(), ok) == AllowAt(rate, burst, old(Value()), now)
      ensures old(Valid()) ==> Valid()
    {
      if rate > 0.0 && Level(burst, Value()) {
        RateBound(rate, burst, Value(), [now]);
        assert [now][..0] == [] && AllowAll(rate, burst, Value(), []) == (Value(), 0);
      }
      var elapsed := (now - lastUpdate) as real / SECOND;
      assert (elapsed > 0.0 <==> now > lastUpdate) && elapsed * rate == Gain(rate, now - lastUpdate);
      hide Gain;
      if elapsed > 0.0 {
        tokens := Min(burst, tokens + elapsed * rate);
        lastUpdate := now;
      }
      ok := tokens >= 1.0;
      if ok {
        tokens := tokens - 1.0;
      }
    }

    method WaitDuration(now: int) returns (d: int)
      requires rate > 0.0
      ensures d == WaitAt(rate, burst, Value(), now)
    {
      var elapsed := (now - lastUpdate) as real / SECOND;
      var available := tokens;
      if elapsed > 0.0 {
        available := Min(burst, tokens + elapsed * rate);
      }
      assert available == Refilled(rate, burst, Value(), now);
      if available >= 1.0 {
        return 0;
      }
      d := ((1.0 - available) / rate * SECOND).Floor;
    }
  }

  function SumOf(delay: nat -> nat, n: nat): nat {
    if n == 0 then 0 else SumOf(delay, n - 1) + delay(n - 1)
  }

  lemma SumStep(delay: nat -> nat, n: nat)
    ensures SumOf(delay, 0) == 0 && SumOf(delay, n + 2) == SumOf(delay, n) + delay(n) + delay(n + 1)
  {
  }

  /** Blocks until a token is there or the context is done. `delay` says how much later than asked
      each clock reading comes, `done` what each look at the context finds: the first on entry, the
      others one per sleep. Without a bucket nothing is limited. If a token comes, the whole wait
      amounts to one call that is allowed, takes at most two sleeps, and asks for at most a
      millisecond per sleep beyond the wait announced at the start. If not, it takes nothing: every
      later call finds what it would have found. */
  method ReadStall(bucket: TokenBucket?, start: int, delay: nat -> nat, done: nat -> bool)
      returns (ok: bool, end: int, stalls: nat, sleeps: nat)
    requires bucket != null ==> bucket.Valid() && start >= bucket.lastUpdate
    modifies bucket
    ensures bucket == null ==> ok && end == start && stalls == sleeps == 0
    ensures bucket != null ==> bucket.Valid() && end >= start && stalls <= 1 && sleeps <= 2
    ensures bucket != null && done(0) ==> !ok && end == start && bucket.Value() == old(bucket.Value()) && stalls == 0
    ensures bucket != null && !done(0) ==>
              && (stalls == 0 <==> AllowAt(bucket.rate, bucket.burst, old(bucket.Value()), start).1)
              && (stalls == 0 ==> ok && end == start && sleeps == 0)
              && (stalls == 1 && ok ==> sleeps > 0 && !done(sleeps))
              && (!ok ==> stalls == 1 && done(sleeps + 1))
              && (forall i :: 1 <= i <= sleeps ==> !done(i))
    ensures bucket != null && ok ==>
              (bucket.Value(), true) == AllowAt(bucket.rate, bucket.burst, old(bucket.Value()), end)
    ensures bucket != null && !ok ==> forall t :: t >= end ==>
              AllowAt(bucket.rate, bucket.burst, bucket.Value(), t) ==
              AllowAt(bucket.rate, bucket.burst, old(bucket.Value()), t)
    ensures bucket != null ==>
              end - start <= WaitAt(bucket.rate, bucket.burst, old(bucket.Value()), start)
                             + sleeps * MILLISECOND + SumOf(delay, 2 * sleeps)
  {
    ok, end, stalls, sleeps := true, start, 0, 0;
    if bucket == null {
      return;
    }
    hide AllowAt, WaitAt, WaitTime, SumOf;
    ghost var first := bucket.Value();
    WaitUnchanged(bucket.rate, bucket.burst, first, start);
    if done(0) {
      return false, start, 0, 0;
    }
    AllowAdvances(bucket.rate, bucket.burst, first, start);
    ok := bucket.Allow(start);
    if ok {
      return;
    }
    stalls := 1;
    ghost var announced := WaitAt(bucket.rate, bucket.burst, first, start);
    while !ok
      invariant bucket.Valid() && end >= start && end >= bucket.lastUpdate
      invariant sleeps <= 2 && (sleeps == 0 ==> !ok && end == start) && (sleeps == 2 ==> ok)
      invariant forall i :: 1 <= i <= sleeps ==> !done(i)
      invariant (bucket.Value(), ok) == AllowAt(bucket.rate, bucket.burst, first, end)
      invariant sleeps == 0 ==> WaitAt(bucket.rate, bucket.burst, bucket.Value(), start) == announced
      invariant !ok && sleeps == 1 ==> WaitTime(bucket.rate, bucket.burst, bucket.Value(), end) < 1.0
      invariant end - start <= announced + sleeps * MILLISECOND + SumOf(delay, 2 * sleeps)
      decreases 2 - sleeps
    {
      var asked := end + delay(2 * sleeps);
      var d := bucket.WaitDuration(asked);
      if d <= 0 {
        d := MILLISECOND;
      }
      if done(sleeps + 1) {
        NoLaterCallTells(bucket.rate, bucket.burst, first, bucket.Value(), end);
        return;
      }
      var now := asked + d + delay(2 * sleeps + 1);
      SumStep(delay, 2 * sleeps);
      ghost var b := bucket.Value();
      OneSleep(bucket.rate, bucket.burst, first, b, end, asked, now);
      AllowAdvances(bucket.rate, bucket.burst, b, now);
      ok := bucket.Allow(now);
      assert (bucket.Value(), ok) == AllowAt(bucket.rate, bucket.burst, b, now);
      end, sleeps := now, sleeps + 1;
    }
  }

  lemma WaitUnchanged(rate: real, burst: real, b: Bucket, now: int)
    requires rate > 0.0
    ensures WaitAt(rate, burst, b, now) >= 0
    ensures var (after, ok) := AllowAt(rate, burst, b, now);
            !ok ==> WaitAt(rate, burst, after, now) == WaitAt(rate, burst, b, now)
  {
    var missing := 1.0 - Refilled(rate, burst, b, now);
    assert missing / rate * rate == missing;
    assert missing > 0.0 ==> missing / rate > 0.0;
  }

  lemma AllowAdvances(rate: real, burst: real, b: Bucket, now: int)
    ensures b.lastUpdate <= now ==> AllowAt(rate, burst, b, now).0.lastUpdate == now
  {
  }

  lemma NoLaterCallTells(rate: real, burst: real, first: Bucket, b: Bucket, end: int)
    requires rate >= 0.0 && (b, false) == AllowAt(rate, burst, first, end)
    ensures forall t :: t >= end ==> AllowAt(rate, burst, b, t) == AllowAt(rate, burst, first, t)
  {
    forall t | t >= end ensures AllowAt(rate, burst, b, t) == AllowAt(rate, burst, first, t) {
      RefusalLeavesNoTrace(rate, burst, first, end, t);
    }
  }

  /** One sleep after a refusal at `end`: it is asked for no longer than announced then, and what
      follows is what would follow without the refusal. */
  lemma OneSleep(rate: real, burst: real, first: Bucket, b: Bucket, end: int, asked: int, now: int)
    requires rate > 0.0 && burst >= 1.0 && b.tokens <= burst && b.lastUpdate <= end <= asked
    requires (b, false) == AllowAt(rate, burst, first, end)
    requires var d := WaitAt(rate, burst, b, asked); now >= asked + if d <= 0 then MILLISECOND else d
    ensures AllowAt(rate, burst, b, now) == AllowAt(rate, burst, first, now)
    ensures WaitAt(rate, burst, b, asked) <= WaitAt(rate, burst, b, end)
    ensures WaitTime(rate, burst, b, end) < 1.0 ==>
              WaitAt(rate, burst, b, asked) <= 0 && AllowAt(rate, burst, b, now).1
    ensures !AllowAt(rate, burst, b, now).1 ==> WaitTime(rate, burst, AllowAt(rate, burst, b, now).0, now) < 1.0
  {
    WaitUnchanged(rate, burst, first, end);
    WaitUnchanged(rate, burst, b, asked);
    WaitShrinks(rate, burst, b, end, asked);
    RefusalLeavesNoTrace(rate, burst, first, end, now);
    SleepHelps(rate, burst, b, asked, now);
    hide Gain, AllowAt;
  }
}
