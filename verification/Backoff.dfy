/** The randomised binary backoff between connection attempts. */
module Backoff {
  import opened Time

  function Pow2(n: nat): (p: nat)
    ensures p >= 1
  {
    if n == 0 then 1 else 2 * Pow2(n - 1)
  }

  lemma {:induction false} Pow2Grows(m: nat, n: nat)
    requires m <= n
    ensures Pow2(m) <= Pow2(n)
  {
    if m < n {
      Pow2Grows(m, n - 1);
    }
  }

  /** Bitwise and. */
  function And(a: nat, b: nat): (r: nat)
    ensures r <= a && r <= b
  {
    if a == 0 || b == 0 then 0 else 2 * And(a / 2, b / 2) + if a % 2 == 1 && b % 2 == 1 then 1 else 0
  }

  /** The number that the last c binary digits write. */
  function Low(a: nat, c: nat): nat {
    if c == 0 then 0 else 2 * Low(a / 2, c - 1) + a % 2
  }

  lemma AndStep(a: nat, half: nat)
    ensures And(a, 2 * half + 1) == 2 * And(a / 2, half) + a % 2
  {
    assert (2 * half + 1) / 2 == half && (2 * half + 1) % 2 == 1;
  }

  /** A mask of c ones keeps the last c binary digits. */
  lemma {:induction false} MaskIsLow(a: nat, c: nat, mask: nat)
    requires mask == Pow2(c) - 1
    ensures And(a, mask) == Low(a, c)
  {
    if c > 0 {
      var half := Pow2(c - 1) - 1;
      assert mask == 2 * half + 1;
      MaskIsLow(a / 2, c - 1, half);
      AndStep(a, half);
    }
  }

  lemma {:induction false} LowSplits(a: nat, c: nat) returns (q: nat)
    ensures Low(a, c) < Pow2(c) && a == q * Pow2(c) + Low(a, c)
  {
    if c == 0 {
      q := a;
    } else {
      q := LowSplits(a / 2, c - 1);
      Doubled(q, Pow2(c - 1));
    }
  }

  lemma Doubled(q: nat, m: nat)
    ensures 2 * (q * m) == q * (2 * m)
  {
  }

  /** So it leaves the remainder modulo 2^c. */
  lemma MaskIsMod(a: nat, c: nat)
    ensures And(a, Pow2(c) - 1) == a % Pow2(c)
  {
    MaskIsLow(a, c, Pow2(c) - 1);
    var q := LowSplits(a, c);
    ModIs(a, Pow2(c), q, Low(a, c));
  }

  lemma ModIs(a: nat, m: nat, q: nat, r: nat)
    requires m > 0 && r < m && a == q * m + r
    ensures a % m == r
  {
    SameQuotient(m, a / m, a % m, q, r);
  }

  /** Division with remainder has one answer. */
  lemma SameQuotient(m: nat, k: nat, s: nat, q: nat, r: nat)
    requires r < m && s < m && k * m + s == q * m + r
    ensures k == q && s == r
  {
    assert (k - q) * m == r - s;
    if k > q {
      Multiple(k - q, m);
    } else if q > k {
      assert (q - k) * m == s - r;
      Multiple(q - k, m);
    }
  }

  lemma Multiple(k: nat, m: nat)
    requires k >= 1
    ensures k * m >= m
  {
    assert k * m == m + (k - 1) * m;
  }

  /** Seconds to wait: a random value up to the mask, moved up by 3 when it is below 3. */
  function CalcRandomSecs(random: nat, maxSecs: nat): (secs: nat)
    ensures 3 <= secs && (secs <= maxSecs || secs <= 5)
  {
    var secs := And(random, maxSecs);
    if secs < 3 then secs + 3 else secs
  }

  /** With a mask that occurs, the seconds are what the random number leaves over, moved up by 3 when below 3. */
  lemma SecsFollowRandom(random: nat, c: nat)
    ensures var s := random % Pow2(c); CalcRandomSecs(random, Pow2(c) - 1) == if s < 3 then s + 3 else s
  {
    MaskIsMod(random, c);
  }

  /** Nanoseconds to add, from a 31-bit random number. */
  function CalcRandomNsecs(random: nat): (ns: nat)
    requires random < 0x8000_0000
    ensures ns == random / 2 % NS_PER_SEC
  {
    var n := random / 2;
    if n < NS_PER_SEC then n else n - NS_PER_SEC
  }

  function Min(a: int, b: int): int {
    if a < b then a else b
  }

  function Max(a: int, b: int): int {
    if a < b then b else a
  }

  class BackoffTimer {
    var count: int
    const maxCount: int
    var delay: int
    ghost var rounds: nat   // how often the delay has been updated

    /** After k rounds the delay is 2^c - 1 with c = min(k + 1, max(1, maxCount)). */
    ghost predicate Valid()
      reads this
    {
      count == Min(rounds + 1, Max(1, maxCount)) && delay == Pow2(count) - 1
    }

    constructor (maxCount: int)
      ensures Valid() && this.maxCount == maxCount && rounds == 0
    {
      this.maxCount := maxCount;
      count, delay, rounds := 1, 1, 0;
      new;
      assert Pow2(1) == 2 * Pow2(0);
    }

    method UpdateBackoffDelay() returns (d: nat)
      requires Valid()
      modifies this
      ensures Valid() && rounds == old(rounds) + 1
      ensures d == Pow2(Min(rounds + 1, Max(1, maxCount))) - 1
    {
      if count < maxCount {
        count := count + 1;
        delay := delay + delay + 1;
      }
      rounds := rounds + 1;
      return delay;
    }

    /**
     The deadline of one wait. It stays normalised and is the start plus the wait; the wait is exactly 3 s while
     the delay is at most 3, and then at least 3 s and less than delay + 1 s, as the random numbers say.
     */
    method CalcRandomExpiration(random1: nat, random2: nat, start: Timespec) returns (deadline: Timespec)
      requires Valid() && Normal(start) && random2 < 0x8000_0000
      modifies this
      ensures Valid() && rounds == old(rounds) + 1 && Normal(deadline)
      ensures delay <= 3 ==> Ns(deadline) == Ns(start) + 3 * NS_PER_SEC
      ensures delay > 3 ==> Ns(start) + 3 * NS_PER_SEC <= Ns(deadline) < Ns(start) + (delay + 1) * NS_PER_SEC
      ensures delay > 3 ==>
                var s := random1 % (delay + 1);
                Ns(deadline) == Ns(start) + (if s < 3 then s + 3 else s) * NS_PER_SEC + random2 / 2 % NS_PER_SEC
    {
      var maxSecs := UpdateBackoffDelay();
      var wait := Timespec(3, 0);
      if maxSecs > 3 {
        DelayIsLong();
        SecsFollowRandom(random1, count);
        wait := Timespec(CalcRandomSecs(random1, maxSecs), CalcRandomNsecs(random2));
      }
      deadline := AddTimespec(wait, start);
    }

    /** A delay above 3 is at least 7, so moving a small value up by 3 stays below it. */
    lemma DelayIsLong()
      requires Valid() && delay > 3
      ensures delay >= 7
    {
      assert Pow2(2) == 2 * Pow2(1) && Pow2(1) == 2 * Pow2(0) && Pow2(3) == 2 * Pow2(2);
      if count <= 2 {
        Pow2Grows(count, 2);
      } else {
        Pow2Grows(3, count);
      }
    }
  }

  /** Up to a maximum count of 31 the delay fits a 32-bit int; with 32 or more it does not after 31 rounds. */
  lemma DelayFits(maxCount: int, rounds: nat)
    ensures maxCount <= 31 ==> Pow2(Min(rounds + 1, Max(1, maxCount))) - 1 <= 0x7fff_ffff
    ensures maxCount >= 32 && rounds >= 31 ==> Pow2(Min(rounds + 1, Max(1, maxCount))) - 1 > 0x7fff_ffff
  {
    Pow2At31();
    var c := Min(rounds + 1, Max(1, maxCount));
    if maxCount <= 31 {
      Pow2Grows(c, 31);
    } else if rounds >= 31 {
      Pow2Grows(32, c);
    }
  }

  lemma Pow2At31()
    ensures Pow2(31) == 0x8000_0000 && Pow2(32) == 0x1_0000_0000
  {
    Pow2Adds(8, 8);
    Pow2Adds(16, 15);
    Pow2Adds(8, 7);
    assert Pow2(8) == 256 && Pow2(7) == 128 by {
      assert Pow2(3) == 8;
      Pow2Adds(3, 4);
      assert Pow2(4) == 2 * Pow2(3);
    }
    assert Pow2(32) == 2 * Pow2(31);
  }

  lemma {:induction false} Pow2Adds(m: nat, n: nat)
    ensures Pow2(m + n) == Pow2(m) * Pow2(n)
  {
    if n > 0 {
      Pow2Adds(m, n - 1);
      assert Pow2(m + n) == 2 * Pow2(m + (n - 1));
    }
  }
}
