/** Reading a microsecond clock made of a tick that an interrupt counts and a counter that the
    hardware runs: STM32 (SysTick and timer), CH32 and MSPM0.  Neither read is atomic with the other. */
module Timebase {
  import opened Arithmetic

  const TICKS := 0x1_0000_0000       // a tick is 32 bits wide
  const ROUND := TICKS * 1000        // microseconds until the tick wraps

  function U32(n: int): nat { n % TICKS }

  // CH32 and the STM32 timer count up; MSPM0 and the STM32 SysTick count down.
  datatype Kind = Up | Down | SysTick

  function Counter(kind: Kind, period: nat, t: nat): nat
    requires period > 0
  {
    if kind == Up then t % period else period - 1 - t % period
  }

  function Tick(period: nat, t: nat): nat
    requires period > 0
  {
    U32(t / period)
  }

  // What the driver makes of a tick and a counter value.
  function Micros(kind: Kind, period: nat, tick: nat, counter: nat): int
    requires period > 0
  {
    match kind
    case Up => tick * 1000 + counter * 1000 / period
    case Down => tick * 1000 + (period - 1 - counter) * 1000 / period
    case SysTick => tick * 1000 + 1000 - counter * 1000 / period
  }

  // What it would make of both, read at the instant `t`.
  function At(kind: Kind, period: nat, t: nat): int
    requires period > 0
  {
    Micros(kind, period, Tick(period, t), Counter(kind, period, t))
  }

  function CeilDiv(a: nat, b: nat): nat
    requires b > 0
  {
    (a + b - 1) / b
  }

  /** The time in microseconds: rounded down, or for the SysTick form, whose counter shows the cycle
      that is ending, rounded up at the end of the cycle. */
  function Exact(kind: Kind, period: nat, t: nat): nat
    requires period > 0
  {
    if kind == SysTick then CeilDiv(1000 * (t + 1), period) else 1000 * t / period
  }

  // 1000 (r + 1) / p rounded up is 1000 less 1000 (p - 1 - r) / p rounded down.
  lemma Complement(r: nat, p: nat)
    requires r < p
    ensures 1000 - (p - 1 - r) * 1000 / p == CeilDiv(1000 * (r + 1), p)
  {
    var x := (p - 1 - r) * 1000;
    var q := x / p;
    assert x == q * p + x % p;
    assert 1000 * (r + 1) == 1000 * p - x;
    DivBelow(x, 1000, p);
    assert (1000 - q) * p == 1000 * p - q * p;
    Quotient(1000 * (r + 1) + p - 1, 1000 - q, p);
  }

  /* ---------------- one instant ---------------- */

  // The exact time is a thousand for every whole period, and the part of the one under way.
  lemma ExactParts(kind: Kind, period: nat, n: nat, r: nat)
    requires r < period
    ensures Exact(kind, period, n * period + r) ==
            n * 1000 + if kind == SysTick then CeilDiv(1000 * (r + 1), period) else r * 1000 / period
  {
    var t := n * period + r;
    if kind == SysTick {
      assert 1000 * (t + 1) + period - 1 == (1000 * n) * period + (1000 * (r + 1) + period - 1);
      DivPlus(1000 * n, 1000 * (r + 1) + period - 1, period);
    } else {
      assert 1000 * t == (1000 * n) * period + r * 1000;
      DivPlus(1000 * n, r * 1000, period);
    }
  }

  lemma AtParts(kind: Kind, period: nat, t: nat)
    requires period > 0
    ensures var r := t % period;
            At(kind, period, t) == Tick(period, t) * 1000 + if kind == SysTick then CeilDiv(1000 * (r + 1), period)
                else r * 1000 / period
  {
    Complement(t % period, period);
  }

  /** A tick and a counter read at the same instant give the exact time, as long as the tick has not
      wrapped, and the exact time less whole rounds after that. */
  lemma AtIsExact(kind: Kind, period: nat, t: nat)
    requires period > 0
    ensures At(kind, period, t) + t / period / TICKS * ROUND == Exact(kind, period, t)
    ensures t / period < TICKS ==> At(kind, period, t) == Exact(kind, period, t)
  {
    hide At, Exact, CeilDiv;
    var n, r := t / period, t % period;
    assert t == n * period + r;
    ExactParts(kind, period, n, r);
    AtParts(kind, period, t);
    assert n == n / TICKS * TICKS + U32(n);
  }

  lemma ExactIsMonotone(kind: Kind, period: nat, t: nat, u: nat)
    requires period > 0 && t <= u
    ensures Exact(kind, period, t) <= Exact(kind, period, u)
  {
    DivMonotone(1000 * t, 1000 * u, period);
    DivMonotone(1000 * (t + 1) + period - 1, 1000 * (u + 1) + period - 1, period);
  }

  /** Why the tick must be counted when the counter starts over: with `ticks` periods counted so far,
      the same counter value reads a thousand microseconds early for every period not counted yet. */
  lemma LateTick(kind: Kind, period: nat, ticks: nat, t: nat)
    requires period > 0 && ticks <= t / period
    ensures var us := Micros(kind, period, U32(ticks), Counter(kind, period, t)) + ticks / TICKS * ROUND;
            && us == Exact(kind, period, t) - 1000 * (t / period - ticks)
            && (us == Exact(kind, period, t) <==> ticks == t / period)
  {
    hide Exact;
    var n := t / period;
    AtIsExact(kind, period, t);
    assert n == n / TICKS * TICKS + U32(n) && ticks == ticks / TICKS * TICKS + U32(ticks);
  }

  /* ---------------- one call ---------------- */

  // What the four reads of one pass lead to.
  datatype Reading = Again | Value(us: int)

  // The switch of one pass, in 32-bit arithmetic.
  function Pass(kind: Kind, period: nat, tickOld: nat, countOld: nat, tickNew: nat, countNew: nat): Reading
    requires period > 0
  {
    var diff := U32(tickNew - tickOld);
    if diff == 0 then Value(Micros(kind, period, tickNew, countOld))
    else if diff == 1 then Value(Micros(kind, period, tickNew, countNew))
    else Again
  }

  // Reads at these instants.
  function PassAt(kind: Kind, period: nat, t1: nat, t2: nat, t3: nat, t4: nat): Reading
    requires period > 0
  {
    Pass(kind, period, Tick(period, t1), Counter(kind, period, t2), Tick(period, t3), Counter(kind, period, t4))
  }

  // The 32-bit difference of two ticks is the number of periods between them, if that is not huge.
  lemma TickDifference(period: nat, t: nat, u: nat)
    requires period > 0 && t <= u && u / period - t / period < TICKS
    ensures U32(Tick(period, u) - Tick(period, t)) == u / period - t / period
  {
    DivMonotone(t, u, period);
    WrappedDifference(t / period, u / period);
  }

  lemma WrappedDifference(m: nat, n: nat)
    requires m <= n && n - m < TICKS
    ensures U32(U32(n) - U32(m)) == n - m
  {
  }

  // The instant in the period of `u` at which the counter shows what it shows at `v`.
  lemma SamePhase(kind: Kind, period: nat, u: nat, v: nat)
    requires period > 0 && u <= v
    ensures var w := u / period * period + v % period;
            w <= v && w / period == u / period && w % period == v % period
                && Counter(kind, period, w) == Counter(kind, period, v)
  {
    var n, w := u / period, u / period * period + v % period;
    DivMonotone(u, v, period);
    assert v == v / period * period + v % period;
    assert v / period * period - n * period == (v / period - n) * period;
    Quotient(w, n, period);
    assert w == n * period + w % period;
  }

  // The time at some instant between two others.
  ghost predicate Within(kind: Kind, period: nat, us: int, from: nat, upto: nat)
    requires period > 0
  {
    exists w :: from <= w <= upto && us == At(kind, period, w)
  }

  /** Whatever a pass returns is the exact time at an instant inside the call, wherever in between
      the tick was counted and however long the reads took, as long as fewer than 2^32 periods passed. */
  lemma PassIsExact(kind: Kind, period: nat, t1: nat, t2: nat, t3: nat, t4: nat)
    requires period > 0 && t1 <= t2 <= t3 <= t4 && t3 / period - t1 / period < TICKS
    requires PassAt(kind, period, t1, t2, t3, t4).Value?
    ensures Within(kind, period, PassAt(kind, period, t1, t2, t3, t4).us, t1, t4)
  {
    TickDifference(period, t1, t3);
    DivMonotone(t1, t2, period);
    DivMonotone(t2, t3, period);
    if t3 / period == t1 / period {
      assert PassAt(kind, period, t1, t2, t3, t4).us == At(kind, period, t2);
    } else {
      SamePhase(kind, period, t3, t4);
      var w := t3 / period * period + t4 % period;
      Starts(period, t1, t3);
      assert PassAt(kind, period, t1, t2, t3, t4).us == At(kind, period, w);
    }
  }

  // A later period starts after every instant of an earlier one.
  lemma Starts(period: nat, t: nat, u: nat)
    requires period > 0 && t / period < u / period
    ensures t < u / period * period
  {
    var d := u / period - t / period;
    assert u / period * period == t / period * period + d * period;
    Spread(d, period);
  }

  /** A pass is repeated exactly when two ticks or more went by between its tick reads; never when it
      took less than a period. */
  lemma RetryIsForSlowCalls(kind: Kind, period: nat, t1: nat, t2: nat, t3: nat, t4: nat)
    requires period > 0 && t1 <= t2 <= t3 <= t4 && t3 / period - t1 / period < TICKS
    ensures PassAt(kind, period, t1, t2, t3, t4) == Again <==> t3 / period - t1 / period >= 2
    ensures t4 - t1 < period ==> PassAt(kind, period, t1, t2, t3, t4) != Again
  {
    TickDifference(period, t1, t3);
    DivMonotone(t1, t3, period);
    if t3 - t1 < period {
      DivPlus(1, t1, period);
      DivMonotone(t3, period + t1, period);
    }
  }

  /* ---------------- a call with the tick counted late ---------------- */

  // Four reads at these instants, k1 and k3 periods having been counted when the tick is read.
  function LatePass(kind: Kind, period: nat, k1: nat, t2: nat, k3: nat, t4: nat): Reading
    requires period > 0
  {
    Pass(kind, period, U32(k1), Counter(kind, period, t2), U32(k3), Counter(kind, period, t4))
  }

  // The instant of the counter read that a pass goes by.
  function Used(k1: nat, t2: nat, k3: nat, t4: nat): nat {
    if k3 == k1 then t2 else t4
  }

  /** For every placement of the tick interrupt: a pass returns the exact time at the counter read it
      goes by, less a thousand microseconds for every period that was not counted at its second tick
      read.  It is repeated exactly when two or more were counted in between. */
  lemma LatePassReads(kind: Kind, period: nat, t1: nat, k1: nat, t2: nat, t3: nat, k3: nat, t4: nat)
    requires period > 0 && t1 <= t2 <= t3 <= t4 && k1 <= t1 / period && k1 <= k3 <= t3 / period && k3 - k1 < TICKS
    ensures var pass, t := LatePass(kind, period, k1, t2, k3, t4), Used(k1, t2, k3, t4);
            && (pass == Again <==> k3 >= k1 + 2)
            && (pass.Value? ==>
                  && k3 <= t / period
                  && pass.us + k3 / TICKS * ROUND == Exact(kind, period, t) - 1000 * (t / period - k3))
  {
    hide Micros, Counter, Exact;
    WrappedDifference(k1, k3);
    DivMonotone(t1, t2, period);
    DivMonotone(t3, t4, period);
    if k3 == k1 {
      LateTick(kind, period, k3, t2);
    } else if k3 == k1 + 1 {
      LateTick(kind, period, k3, t4);
    }
  }

  // The exact time at some instant between two others.
  ghost predicate ExactWithin(kind: Kind, period: nat, us: int, from: nat, upto: nat)
    requires period > 0
  {
    exists w :: from <= w <= upto && us == Exact(kind, period, w)
  }

  /** What a pass at least a microsecond shorter than a period returns is the exact time at an instant
      inside it if and only if the tick was up to date for the counter value it goes by. */
  lemma ExactIffCounted(kind: Kind, period: nat, t1: nat, k1: nat, t2: nat, t3: nat, k3: nat, t4: nat)
    requires period > 0 && t1 <= t2 <= t3 <= t4 && k1 <= t1 / period && k1 <= k3 <= t3 / period && k3 < k1 + 2
    requires 1000 * (t4 - t1) <= 999 * period
    ensures LatePass(kind, period, k1, t2, k3, t4).Value?
    ensures ExactWithin(kind, period, LatePass(kind, period, k1, t2, k3, t4).us + k3 / TICKS * ROUND, t1, t4)
       <==> k3 == Used(k1, t2, k3, t4) / period
  {
    hide Micros, Counter, Exact;
    LatePassReads(kind, period, t1, k1, t2, t3, k3, t4);
    var t := Used(k1, t2, k3, t4);
    var us := LatePass(kind, period, k1, t2, k3, t4).us + k3 / TICKS * ROUND;
    if k3 != t / period {
      ShortSpan(kind, period, t1, t);
      forall w | t1 <= w <= t4 ensures us != Exact(kind, period, w) {
        ExactIsMonotone(kind, period, t1, w);
      }
    }
  }

  // Less than a thousand microseconds go by in less than a period.
  lemma ShortSpan(kind: Kind, period: nat, t: nat, u: nat)
    requires period > 0 && t <= u && 1000 * (u - t) <= 999 * period
    ensures Exact(kind, period, u) < Exact(kind, period, t) + 1000
  {
    var a, b := 1000 * t, 1000 * (t + 1) + period - 1;
    DivPlus(999, a, period);
    DivPlus(999, b, period);
    DivMonotone(1000 * u, 999 * period + a, period);
    DivMonotone(1000 * (u + 1) + period - 1, 999 * period + b, period);
  }

  /** The clock running backwards: 999 microseconds are read before the counter starts over, and 1
      after that, while the interrupt that counts it waits. */
  lemma LateTickRunsBackwards()
    ensures LatePass(Up, 1000, 0, 999, 0, 999) == Value(999)
    ensures LatePass(Up, 1000, 0, 1001, 0, 1003) == Value(1)
  {
  }

  class Clock {
    const kind: Kind
    const period: nat
    const when: nat -> nat      // the instant of the n-th read
    const counted: nat -> nat   // how many periods the tick interrupt has counted by then
    const patience: nat         // the read from which on at most one is counted during a pass
    var looks: nat

    ghost predicate Valid() {
      && period > 0 && (forall n: nat :: when(n) <= when(n + 1))
      && (forall n: nat :: counted(n) <= counted(n + 1) && counted(n) <= when(n) / period)
      && (forall n: nat :: counted(n + 2) - counted(n) < if n >= patience then 2 else TICKS)
    }

    // Any clock whose counting keeps behind the counter, and not by ever more periods within a pass.
    constructor (kind: Kind, period: nat, when: nat -> nat, counted: nat -> nat, patience: nat)
      requires period > 0 && forall n: nat :: when(n) <= when(n + 1)
      requires forall n: nat :: counted(n) <= counted(n + 1) && counted(n) <= when(n) / period
      requires forall n: nat :: counted(n + 2) - counted(n) < if n >= patience then 2 else TICKS
      ensures Valid() && looks == 0 && this.period == period
    {
      this.kind, this.period, this.when, this.counted, this.patience, looks := kind, period, when, counted, patience, 0;
    }

    // The interrupt has come before each tick read of the pass that starts with the n-th read.
    ghost predicate InTime(n: nat)
      requires period > 0
    {
      counted(n) == when(n) / period && counted(n + 2) == when(n + 2) / period
    }

    // The instant that pass goes by.
    function UsedIn(n: nat): nat {
      Used(counted(n), when(n + 1), counted(n + 2), when(n + 3))
    }

    /** What a reading by that pass means: how far it is from the exact time; when it is the exact time
        at an instant inside the pass; and that it always is when the interrupt is in time. */
    ghost predicate Means(us: int, n: nat)
      requires period > 0
    {
      var k, t := counted(n + 2), UsedIn(n);
      && us + k / TICKS * ROUND == Exact(kind, period, t) - 1000 * (t / period - k)
      && (1000 * (when(n + 3) - when(n)) <= 999 * period ==>
            (ExactWithin(kind, period, us + k / TICKS * ROUND, when(n), when(n + 3)) <==> k == t / period))
      && (InTime(n) ==> Within(kind, period, us, when(n), when(n + 3)))
    }

    method GetTick() returns (tick: nat)
      modifies this
      ensures tick == U32(counted(old(looks))) && looks == old(looks) + 1
    {
      tick := U32(counted(looks));
      looks := looks + 1;
    }

    method GetCounter() returns (counter: nat)
      requires period > 0
      modifies this
      ensures counter == Counter(kind, period, when(old(looks))) && looks == old(looks) + 1
    {
      counter := Counter(kind, period, when(looks));
      looks := looks + 1;
    }

    lemma Instants(n: nat)
      requires Valid()
      ensures when(n) <= when(n + 1) <= when(n + 2) <= when(n + 3)
      ensures counted(n) <= when(n) / period && counted(n) <= counted(n + 2) <= when(n + 2) / period
      ensures counted(n + 2) - counted(n) < if n >= patience then 2 else TICKS
    {
      assert when(n + 1) <= when(n + 1 + 1) && when(n + 2) <= when(n + 2 + 1);
      assert counted(n) <= counted(n + 1) && counted(n + 1) <= counted(n + 1 + 1);
    }

    // What the pass that starts with the n-th read returns.
    function PassFrom(n: nat): Reading
      requires period > 0
    {
      LatePass(kind, period, counted(n), when(n + 1), counted(n + 2), when(n + 3))
    }

    lemma PassMeans(n: nat)
      requires Valid()
      ensures PassFrom(n) == Again ==> n < patience
      ensures PassFrom(n).Value? ==> Means(PassFrom(n).us, n)
    {
      hide Exact, Within, ExactWithin, Micros, Counter, Pass, U32;
      Instants(n);
      var t1, t2, t3, t4, k1, k3 := when(n), when(n + 1), when(n + 2), when(n + 3), counted(n), counted(n + 2);
      LatePassReads(kind, period, t1, k1, t2, t3, k3, t4);
      if PassFrom(n).Value? {
        if 1000 * (t4 - t1) <= 999 * period {
          ExactIffCounted(kind, period, t1, k1, t2, t3, k3, t4);
        }
        if InTime(n) {
          PassIsExact(kind, period, t1, t2, t3, t4);
        }
      }
    }

    // One turn of the loop of _get_microseconds; false when it is to be repeated.
    method OnePass() returns (done: bool, us: int)
      requires Valid() && period > 0
      modifies this
      ensures looks == old(looks) + 4
      ensures if done then Means(us, old(looks)) else old(looks) < patience
    {
      hide Valid, Micros, Counter, Means, U32;
      PassMeans(looks);
      var tickOld := GetTick();
      var countOld := GetCounter();
      var tickNew := GetTick();
      var countNew := GetCounter();
      var diff := U32(tickNew as int - tickOld as int);
      if diff == 0 {
        return true, Micros(kind, period, tickNew, countOld);
      } else if diff == 1 {
        return true, Micros(kind, period, tickNew, countNew);
      } else {
        return false, 0;
      }
    }

    /** _get_microseconds: the reading of its last pass. */
    method GetMicroseconds() returns (us: int)
      requires Valid()
      modifies this
      ensures Valid() && period > 0 && looks >= old(looks) + 4 && Means(us, looks - 4)
    {
      Sane();
      hide Valid, Means;
      while true
        invariant Valid() && period > 0 && looks >= old(looks)
        decreases if looks < patience then patience - looks else 0
      {
        var done;
        done, us := OnePass();
        if done {
          return;
        }
      }
    }

    lemma Sane()
      requires Valid()
      ensures period > 0
    {
    }

    lemma InOrder(m: nat, n: nat)
      requires Valid() && m <= n
      ensures when(m) <= when(n)
      decreases n - m
    {
      if m < n {
        InOrder(m, n - 1);
        assert when(n - 1) <= when(n - 1 + 1);
      }
    }

    // The interrupt is never late, and the tick does not wrap.
    ghost predicate Punctual()
      requires period > 0
    {
      forall n: nat :: InTime(n) && when(n) / period < TICKS
    }

    lemma PunctualAt(us: int, n: nat)
      requires period > 0 && Punctual() && Means(us, n)
      ensures Within(kind, period, us, when(n), when(n + 3)) && when(n + 3) / period < TICKS
    {
      hide Within, ExactWithin, Exact, Used;
      assert InTime(n) && InTime(n + 3);
    }

    /** Two calls one after the other never run backwards while the interrupt is in time, until the
        tick wraps. */
    method Twice() returns (first: int, second: int)
      requires Valid() && period > 0 && Punctual()
      modifies this
      ensures Valid() && first <= second
    {
      hide Valid, Within, Means, Punctual;
      first := GetMicroseconds();
      ghost var b := looks - 4;
      second := GetMicroseconds();
      ghost var c := looks - 4;
      PunctualAt(first, b);
      PunctualAt(second, c);
      InOrder(b + 3, c);
      NotBackwards(kind, period, first, when(b), when(b + 3), second, when(c), when(c + 3));
    }
  }

  /** Such a clock: eight cycles a tick, a read every other cycle, and the interrupt always in time. */
  method RegularClock() returns (clock: Clock)
    ensures clock.Valid() && clock.period == 8
  {
    forall n: nat ensures 2 * n / 8 <= 2 * (n + 1) / 8 && 2 * (n + 2) / 8 - 2 * n / 8 < 2 {
    }
    clock := new Clock(Down, 8, n => 2 * n, n => 2 * n / 8, 0);
  }

  lemma NotBackwards(kind: Kind, period: nat, first: int, a: nat, b: nat, second: int, c: nat, d: nat)
    requires period > 0 && b <= c && d / period < TICKS && Within(kind, period, first, a, b)
        && Within(kind, period, second, c, d)
    ensures first <= second
  {
    var v :| a <= v <= b && first == At(kind, period, v);
    var w :| c <= w <= d && second == At(kind, period, w);
    DivMonotone(v, w, period);
    DivMonotone(w, d, period);
    AtIsExact(kind, period, v);
    AtIsExact(kind, period, w);
    ExactIsMonotone(kind, period, v, w);
  }

  /* ---------------- across the wrap ---------------- */

  const MAX_US := ROUND - 1  // what the STM32 and MSPM0 clocks announce as their last value

  // UINT32_MAX * 1000 + 999 in 32 bits, as the CH32 clock announces it.
  const CH32_MAX_US := U32((TICKS - 1) * 1000 + 999)

  function U64(n: int): nat { n % 0x1_0000_0000_0000_0000 }

  // The difference of two timestamps, in 64-bit arithmetic.
  function Elapsed(now: nat, before: nat, maxValid: nat): nat {
    if now >= before then now - before else U64(now + U64(maxValid - before) + 1)
  }

  /** With the announced end of the round right, the difference of two readings less than a round
      apart is the true one, whether or not the tick wrapped in between; also where the SysTick form
      has left the announced range. */
  lemma ElapsedAcrossTheWrap(kind: Kind, period: nat, t: nat, u: nat)
    requires period > 0 && t <= u && Exact(kind, period, u) - Exact(kind, period, t) < ROUND
    ensures 0 <= At(kind, period, t) && 0 <= At(kind, period, u)
    ensures kind != SysTick ==> At(kind, period, t) <= MAX_US && At(kind, period, u) <= MAX_US
    ensures Elapsed(At(kind, period, u), At(kind, period, t), MAX_US) == Exact(kind, period, u) - Exact(kind, period, t)
  {
    hide At, Exact;
    AtIsExact(kind, period, t);
    AtIsExact(kind, period, u);
    ExactIsMonotone(kind, period, t, u);
    InRange(kind, period, t);
    InRange(kind, period, u);
    DivMonotone(t, u, period);
    DivMonotone(t / period, u / period, TICKS);
    Rounds(Exact(kind, period, t), t / period / TICKS, At(kind, period, t), Exact(kind, period, u),
        u / period / TICKS, At(kind, period, u));
  }

  lemma Rounds(e: nat, k: nat, a: nat, e': nat, k': nat, a': nat)
    requires a <= ROUND && a' <= ROUND && k <= k' && a + k * ROUND == e && a' + k' * ROUND == e' && e <= e' < e + ROUND
    ensures Elapsed(a', a, MAX_US) == e' - e
  {
    assert k' == k || k' == k + 1 || (k' == k + 2 && a == ROUND && a' == 0);
  }

  lemma InRange(kind: Kind, period: nat, t: nat)
    requires period > 0
    ensures 0 <= At(kind, period, t) <= (if kind == SysTick then ROUND else MAX_US)
  {
    hide At;
    var r := t % period;
    AtParts(kind, period, t);
    assert 0 <= Tick(period, t) <= TICKS - 1;
    DivBelow(r * 1000, 1000, period);
    DivBelow(1000 * (r + 1) + period - 1, 1001, period);
  }

  /** The STM32 SysTick form rounds up: it leaves the announced range exactly in the last moments of
      the last tick. */
  lemma SysTickLeavesTheRange(period: nat, t: nat)
    requires period > 0
    ensures At(SysTick, period, t) > MAX_US <==> Tick(period, t) == TICKS - 1 && 1000 * (t % period + 1) > 999 * period
  {
    var r := t % period;
    AtParts(SysTick, period, t);
    DivBelow(1000 * (r + 1) + period - 1, 1001, period);
    if 1000 * (r + 1) > 999 * period {
      Quotient(1000 * (r + 1) + period - 1, 1000, period);
    } else {
      DivBelow(1000 * (r + 1) + period - 1, 1000, period);
    }
  }

  /** The CH32 clock announces 2^32 - 1 instead.  Its differences are right exactly when the later
      reading is not the smaller one. */
  lemma Ch32LosesTheWrap(period: nat, t: nat, u: nat)
    requires period > 0 && t <= u && Exact(Up, period, u) - Exact(Up, period, t) < ROUND
    ensures CH32_MAX_US == TICKS - 1
    ensures 0 <= At(Up, period, t) && 0 <= At(Up, period, u)
    ensures Elapsed(At(Up, period, u), At(Up, period, t), CH32_MAX_US) == Exact(Up, period, u) - Exact(Up, period, t)
       <==> At(Up, period, u) >= At(Up, period, t)
  {
    hide At, Exact;
    ElapsedAcrossTheWrap(Up, period, t, u);
    Shortened(At(Up, period, u), At(Up, period, t));
  }

  lemma Shortened(now: nat, before: nat)
    requires now <= MAX_US && before <= MAX_US
    ensures Elapsed(now, before, CH32_MAX_US) == Elapsed(now, before, MAX_US) <==> now >= before
  {
  }

  /** Past the end of the announced range: the last cycle before the tick wraps. */
  lemma SysTickAtTheEnd()
    ensures At(SysTick, 1000, 1000 * TICKS - 1) == MAX_US + 1
  {
    var t: nat := 1000 * TICKS - 1;
    assert t == (TICKS - 1) * 1000 + 999;
    Quotient(t, TICKS - 1, 1000);
    assert t % 1000 == 999;
  }

  /** Two microseconds of the CH32 clock across the wrap of its tick come out as 2^64 less almost all
      of the round. */
  lemma Ch32AcrossTheWrap()
    ensures var t: nat := 1000 * TICKS - 1;
            At(Up, 1000, t) == MAX_US && At(Up, 1000, t + 2) == 1 && Exact(Up, 1000, t + 2) - Exact(Up, 1000, t) == 2
            && Elapsed(1, MAX_US, CH32_MAX_US) != 2
  {
    var t: nat := 1000 * TICKS - 1;
    Quotient(t, TICKS - 1, 1000);
    Quotient(t + 2, TICKS, 1000);
  }
}
