/** The token bucket rate limiter, over the reals. */
module TokenBucket {

  class TokenBucketRateLimiter {
    var lastTime: int
    var deficit: real

    constructor ()
      ensures lastTime == 0 && deficit == 0.0
    {
      lastTime, deficit := 0, 0.0;
    }

    /** Try to spend a token at time now, in microseconds. */
    method BCheck(now: int, rate: real, burst: real) returns (ok: bool)
      requires burst >= 1.0 && rate > 0.0
      modifies this
      ensures lastTime == now
      ensures var left := old(deficit) - (now - old(lastTime)) as real / 1000000.0 * rate;
              && (ok <==> left + 1.0 <= burst)
              && deficit == (if left > 0.0 then left else 0.0) + (if ok then 1.0 else 0.0)
      ensures ok <==> Refilled(old(deficit), old(lastTime), now, rate) + 1.0 <= burst
      ensures deficit == Refilled(old(deficit), old(lastTime), now, rate) + if ok then 1.0 else 0.0
    {
      var elapsed := (now - lastTime) as real / 1000000.0;
      lastTime := now;
      deficit := if deficit - elapsed * rate > 0.0 then deficit - elapsed * rate else 0.0;
      if deficit + 1.0 > burst {
        return false;
      }
      deficit := deficit + 1.0;
      ok := true;
    }
  }

  /** Tokens that come in between two times. */
  function Income(from: int, to: int, rate: real): real {
    (to - from) as real / 1000000.0 * rate
  }

  /** How far the bucket is from full after a wait. */
  function Refilled(deficit: real, from: int, to: int, rate: real): real {
    var d := deficit - Income(from, to, rate);
    if d > 0.0 then d else 0.0
  }

  predicate Nondecreasing(times: seq<int>) {
    forall i, j | 0 <= i < j < |times| :: times[i] <= times[j]
  }

  lemma IncomeAdds(a: int, b: int, c: int, rate: real)
    requires rate > 0.0 && a <= b <= c
    ensures Income(a, b, rate) + Income(b, c, rate) == Income(a, c, rate)
    ensures Income(a, b, rate) >= 0.0
  {
    var x, y := (b - a) as real / 1000000.0, (c - b) as real / 1000000.0;
    assert x + y == (c - a) as real / 1000000.0;
  }

  /** Calls of one bucket at given times, with a steady rate and burst, from the state it is in
      before the first of them. */
  datatype Calls = Calls(deficit: real, lastTime: int, times: seq<int>, rate: real, burst: real) {
    predicate Orderly() {
      && rate > 0.0 && burst >= 1.0 && 0.0 <= deficit <= burst
      && Nondecreasing(times) && (times != [] ==> lastTime <= times[0])
    }

    /** When the bucket was last called before call n. */
    function LastBefore(n: nat): int
      requires n <= |times|
    {
      if n == 0 then lastTime else times[n - 1]
    }

    /** The deficit that call n finds after the refill. */
    function Found(n: nat): real
      requires n < |times|
    {
      Refilled(DeficitBefore(n), LastBefore(n), times[n], rate)
    }

    /** Whether call n gets a token. */
    predicate Granted(n: nat)
      requires n < |times|
    {
      Found(n) + 1.0 <= burst
    }

    /** The deficit after the first n calls. */
    function DeficitBefore(n: nat): real
      requires n <= |times|
      decreases n, 0
    {
      if n == 0 then deficit
      else
        var found := Refilled(DeficitBefore(n - 1), LastBefore(n - 1), times[n - 1], rate);
        found + if found + 1.0 <= burst then 1.0 else 0.0
    }

    /** How many of the calls from i to j - 1 get a token. */
    function Spent(i: nat, j: nat): nat
      requires i <= j <= |times|
    {
      if i == j then 0 else Spent(i, j - 1) + if Granted(j - 1) then 1 else 0
    }
  }

  lemma {:induction false} DeficitInRange(c: Calls, n: nat)
    requires c.Orderly() && n <= |c.times|
    ensures 0.0 <= c.DeficitBefore(n) <= c.burst
    decreases n
  {
    if n > 0 {
      DeficitInRange(c, n - 1);
      IncomeAdds(c.LastBefore(n - 1), c.times[n - 1], c.times[n - 1], c.rate);
      hide Income;
    }
  }

  /** What was spent since call i is covered by the deficit and by what came in since then. */
  lemma {:induction false} Covered(c: Calls, i: nat, j: nat)
    requires c.Orderly() && i < j <= |c.times|
    ensures c.Spent(i, j) as real <= c.DeficitBefore(j) + Income(c.times[i], c.times[j - 1], c.rate)
    decreases j
  {
    DeficitInRange(c, j - 1);
    if i < j - 1 {
      Covered(c, i, j - 1);
      IncomeAdds(c.times[i], c.times[j - 2], c.times[j - 1], c.rate);
      hide Income;
    } else {
      IncomeAdds(c.times[i], c.times[i], c.times[i], c.rate);
      hide Income;
      assert c.Spent(i, i) == 0;
    }
  }

  /** No window of calls gets more tokens than the burst and what comes in between its first
      and its last call. */
  lemma WindowLimited(c: Calls, i: nat, j: nat)
    requires c.Orderly() && i < j <= |c.times|
    ensures c.Spent(i, j) as real <= c.burst + (c.times[j - 1] - c.times[i]) as real / 1000000.0 * c.rate
  {
    hide Income, Refilled, Calls.DeficitBefore, Calls.Spent;
    Covered(c, i, j);
    DeficitInRange(c, j);
    WithIncome(c.Spent(i, j) as real, c.DeficitBefore(j), c.burst, c.times[i], c.times[j - 1], c.rate);
  }

  lemma WithIncome(spent: real, deficit: real, burst: real, from: int, to: int, rate: real)
    requires spent <= deficit + Income(from, to, rate) && deficit <= burst
    ensures spent <= burst + (to - from) as real / 1000000.0 * rate
  {
  }

  /** A call always gets a token when a whole one has come in since the call before. */
  lemma WaitGranted(c: Calls, n: nat)
    requires c.Orderly() && n < |c.times| && (c.times[n] - c.LastBefore(n)) as real / 1000000.0 * c.rate >= 1.0
    ensures c.Granted(n)
  {
    hide Income, Refilled, Calls.DeficitBefore;
    DeficitInRange(c, n);
    EnoughIncome(c.DeficitBefore(n), c.burst, c.LastBefore(n), c.times[n], c.rate);
  }

  lemma EnoughIncome(deficit: real, burst: real, from: int, to: int, rate: real)
    requires deficit <= burst && burst >= 1.0 && (to - from) as real / 1000000.0 * rate >= 1.0
    ensures Refilled(deficit, from, to, rate) + 1.0 <= burst
  {
    var income := Income(from, to, rate);
    assert income >= 1.0;
    hide Income;
  }

  /** A full bucket with whole tokens lets a burst through: of n calls at one moment exactly as
      many get a token as the burst has room for. */
  lemma {:induction false} BurstGranted(c: Calls, n: nat)
    requires c.Orderly() && c.deficit == 0.0 && n <= |c.times|
             && forall k | 0 <= k < |c.times| :: c.times[k] == c.times[0]
    requires n as real <= c.burst
    ensures c.Spent(0, n) == n && c.DeficitBefore(n) == n as real
    decreases n
  {
    if n > 0 {
      BurstGranted(c, n - 1);
      if n == 1 {
        IncomeAdds(c.lastTime, c.times[0], c.times[0], c.rate);
      }
    }
  }

  /** The answers of a bucket, call by call, are those of the run. */
  method Run(bucket: TokenBucketRateLimiter, times: seq<int>, rate: real, burst: real) returns (oks: seq<bool>)
    requires burst >= 1.0 && rate > 0.0
    modifies bucket
    ensures var c := Calls(old(bucket.deficit), old(bucket.lastTime), times, rate, burst);
            && |oks| == |times| && (forall n | 0 <= n < |times| :: oks[n] == c.Granted(n))
            && bucket.deficit == c.DeficitBefore(|times|) && bucket.lastTime == c.LastBefore(|times|)
  {
    ghost var c := Calls(bucket.deficit, bucket.lastTime, times, rate, burst);
    oks := [];
    for n := 0 to |times|
      invariant |oks| == n && (forall k | 0 <= k < n :: oks[k] == c.Granted(k))
      invariant bucket.deficit == c.DeficitBefore(n) && bucket.lastTime == c.LastBefore(n)
    {
      hide Refilled;
      var ok := bucket.BCheck(times[n], rate, burst);
      oks := oks + [ok];
    }
  }
}
