/** The interval timer: a first firing derived from a hash of the check's name, so that restarts
    keep the rhythm, computed on 64-bit numbers that wrap. */
module CheckTimer {
  import Circle

  const M: int := 0x1_0000_0000_0000_0000
  const SECOND: int := 1_000_000_000

  /** Check intervals are unsigned 32-bit numbers of seconds. */
  type Seconds = s: int | 0 <= s < 0x1_0000_0000

  /** Nanoseconds from `now` to the first firing: (splay - now) % interval on uint64. */
  function InitialOffset(splay: int, now: int, interval: int): (offset: int)
    requires interval > 0
    ensures 0 <= offset < interval
  {
    ((splay - now) % M) % interval
  }

  /** The k-th firing of a timer started at `now`, when each is `interval` after the one before. */
  function Firing(splay: int, now: int, interval: int, k: nat): int
    requires interval > 0
  {
    now + InitialOffset(splay, now, interval) + k * interval
  }

  // ---- Remainders ----

  lemma ModOfSum(a: int, b: int, n: int)
    requires n > 0
    ensures (a + b % n) % n == (a + b) % n
  {
    var c := a + b % n;
    assert a + b == (c / n + b / n) * n + c % n by {
      assert b == (b / n) * n + b % n && c == (c / n) * n + c % n;
      assert (c / n + b / n) * n == (c / n) * n + (b / n) * n;
    }
    Circle.DivModUnique(a + b, n, c / n + b / n, c % n);
  }

  lemma ModOfMultiple(a: int, k: int, n: int)
    requires n > 0
    ensures (a + k * n) % n == a % n
  {
    assert a + k * n == (a / n + k) * n + a % n by {
      assert a == (a / n) * n + a % n && (a / n + k) * n == (a / n) * n + k * n;
    }
    Circle.DivModUnique(a + k * n, n, a / n + k, a % n);
  }

  lemma ShiftExactly(a: int, m: int, n: int)
    requires n > 0
    ensures (a + m) % n == a % n <==> m % n == 0
  {
    ModOfSum(a, m, n);
    var r := a % n + m % n;
    ModOfSum(m % n, a, n);
    if r < n { Circle.DivModUnique(r, n, 0, r); } else { Circle.DivModUnique(r, n, 1, r - n); }
  }

  lemma ScaledFives(q: int, k: int)
    ensures (q * (k * 5)) % 5 == 0
  {
    assert q * (k * 5) == (q * k) * 5;
    Circle.DivModUnique(q * (k * 5), 5, q * k, 0);
  }

  lemma FivesDoNotDivide(m: int, n: int)
    requires n > 0 && n % 5 == 0 && m % 5 == 1
    ensures m % n != 0
  {
    ScaledFives(m / n, n / 5);
    assert n / 5 * 5 == n;
    assert m == (m / n) * n + m % n;
  }

  /** No whole number of seconds divides 2^64 nanoseconds. */
  lemma SecondsDoNotDivide(seconds: int)
    requires seconds > 0
    ensures M % (seconds * SECOND) != 0
  {
    Circle.DivModUnique(seconds * SECOND, 5, seconds * 200_000_000, 0);
    FivesDoNotDivide(M, seconds * SECOND);
  }

  // ---- Splay ----

  /** Every firing falls on the splay's own beat, or on the beat 2^64 nanoseconds further on if
      the timer was started after the splay value. */
  lemma FiringBeat(splay: int, now: int, interval: int, k: nat)
    requires 0 <= splay < M && 0 <= now < M && interval > 0
    ensures Firing(splay, now, interval, k) % interval == (if now <= splay then splay else splay + M) % interval
  {
    var d := if now <= splay then splay - now else splay - now + M;
    assert (splay - now) % M == d;
    ModOfSum(now, d, interval);
    ModOfMultiple(now + d % interval, k, interval);
  }

  /** Two starts of a check, any number of firings on, keep the same beat if and only if both lie
      on the same side of the splay value: the wrap of the subtraction always costs the rhythm. */
  lemma RestartKeepsBeatExactly(splay: int, now: int, later: int, seconds: Seconds, j: nat, k: nat)
    requires 0 <= splay < M && 0 <= now < M && 0 <= later < M && seconds > 0
    ensures var interval := seconds * SECOND;
      Firing(splay, now, interval, j) % interval == Firing(splay, later, interval, k) % interval
      <==> (now <= splay <==> later <= splay)
  {
    var interval := seconds * SECOND;
    FiringBeat(splay, now, interval, j);
    FiringBeat(splay, later, interval, k);
    ShiftExactly(splay, M, interval);
    SecondsDoNotDivide(seconds);
  }

  // ---- The timer ----

  class IntervalTimer {
    const splay: int
    var interval: int
    // when the timer goes off next, in nanoseconds
    var deadline: int

    constructor (splay: int, seconds: Seconds)
      requires 0 <= splay < M
      ensures this.splay == splay && interval == seconds * SECOND
    {
      this.splay := splay;
      interval := seconds * SECOND;
      deadline := 0;
    }

    method SetDuration(seconds: Seconds)
      modifies this`interval
      ensures interval == seconds * SECOND
    {
      interval := SECOND * seconds;
    }

    /** A timer over zero seconds cannot be started. */
    method Start(now: int)
      requires interval > 0 && 0 <= now < M
      modifies this`deadline
      ensures deadline == Firing(splay, now, interval, 0) && now <= deadline < now + interval
    {
      var offset := ((splay - now) % M) % interval;
      deadline := now + offset;
    }

    /** Rearmed at the moment it goes off, the timer stays on its beat. */
    method Next(now: int)
      requires interval > 0
      modifies this`deadline
      ensures deadline == now + interval
      ensures now == old(deadline) ==> deadline % interval == old(deadline) % interval
    {
      deadline := now + interval;
      ModOfMultiple(now, 1, interval);
    }
  }
}
