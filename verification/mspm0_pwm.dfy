/** How the MSPM0 PWM driver splits a period into clock divider, prescaler and timer load. */
module Mspm0Pwm {
  import opened Arithmetic

  datatype ErrorCode = OK | ARG_ERR | NOT_SUPPORT

  const WORD := 0x1_0000_0000
  const MAX_TIMER_LOAD := 65535
  const MAX_PRESCALER := 256
  const MAX_DIVIDE_RATIO := 8
  const LONGEST := 0x800_0000  // 8 * 256 * 65536 cycles

  function U32(n: nat): nat { n % WORD }

  lemma Regroup(q: nat, d: nat, f: nat)
    ensures (q * d) * f == q * (d * f) && ((q + 1) * d) * f == q * (d * f) + d * f
  {
    assert ((q + 1) * d) * f == (q * d + d) * f == (q * d) * f + d * f;
  }

  // Dividing by a product is dividing twice.
  lemma DivTwice(n: nat, f: nat, d: nat)
    requires f > 0 && d > 0
    ensures d * f > 0 && n / (d * f) == n / f / d
  {
    var t, q := n / f, n / f / d;
    MulLe(1, d, f);
    Bracket(n, f);
    Bracket(t, d);
    MulLe(q * d, t, f);
    MulLe(t + 1, (q + 1) * d, f);
    Regroup(q, d, f);
    Quotient(n, q, d * f);
  }

  // The least number of 65536 cycles that covers the period, split in two.
  lemma Split(total: nat)
    requires 1 <= total <= 2048
    ensures var div := (total + 255) / 256;
            var pre := (total + div - 1) / div;
            && 1 <= div <= 8 && 1 <= pre <= 256 && total <= div * pre < total + div && (pre - 1) * div < total
  {
    var div := (total + 255) / 256;
    var n := total + div - 1;
    var pre := n / div;
    Bracket(n, div);
    assert (pre + 1) * div == pre * div + div && (pre - 1) * div == pre * div - div && pre * div == div * pre;
    assert 257 * div == 256 * div + div;
    DivBelow(n, 257, div);
    DivAtLeast(n, 1, div);
  }

  /** Divider, prescaler and load realise the period as well as that divider and prescaler can: with
      the registers in range, the realised number of cycles is the largest multiple of their product
      that does not exceed the number asked for; and neither of them is larger than it must be. */
  predicate Realises(cycles: nat, div: nat, pre: nat, load: nat) {
    && 1 <= div <= MAX_DIVIDE_RATIO && 1 <= pre <= MAX_PRESCALER && load <= MAX_TIMER_LOAD
    && (load + 1) * (div * pre) <= cycles < (load + 2) * (div * pre)
    && (div - 1) * (MAX_PRESCALER * 65536) < cycles && (pre - 1) * div * 65536 < cycles
  }

  lemma LoadFits(cycles: nat, div: nat, pre: nat, total: nat)
    requires 1 <= cycles <= LONGEST && total == (cycles + MAX_TIMER_LOAD) / 65536
    requires div == (total + 255) / 256 && pre == (total + div - 1) / div
    ensures 1 <= total <= 2048 && div > 0 && pre > 0 && 0 < div * pre <= cycles
    ensures cycles / (div * pre) >= 1 && Realises(cycles, div, pre, cycles / (div * pre) - 1)
  {
    Split(total);
    var product := div * pre;
    var q := cycles / product;
    Bracket(cycles, product);
    DivAtLeast(cycles, 1, product);
    assert 65537 * product == 65536 * product + product;
    DivBelow(cycles, 65537, product);
    assert (q - 1 + 1) * product == q * product && (q - 1 + 2) * product == (q + 1) * product;
    MulLe((pre - 1) * div, total - 1, 65536);
  }

  // TOTAL_CYCLES rounded up to whole 65536s, in 32 bits.
  function MinTotal(cycles: nat): (r: nat)
    ensures 1 <= r <= 65536
    ensures cycles + MAX_TIMER_LOAD < WORD && cycles > 0 ==> r == (cycles + MAX_TIMER_LOAD) / 65536
    ensures WORD <= cycles + MAX_TIMER_LOAD && cycles < WORD ==> r == 1
  {
    var up := U32(cycles + MAX_TIMER_LOAD) / 0x1_0000;
    if up == 0 then 1 else up
  }

  function BestDiv(total: nat): (r: nat)
    requires 1 <= total <= 65536
    ensures r == (total + 255) / 256 >= 1
  {
    U32(total + MAX_PRESCALER - 1) / 0x100  // never 0, so that the driver's correction does nothing
  }

  function BestPrescaler(total: nat, div: nat): (r: nat)
    requires 1 <= total <= 65536 && 1 <= div <= 8
    ensures r == (total + div - 1) / div >= 1
  {
    DivAtLeast(total + div - 1, 1, div);
    U32(total + div - 1) / div  // never 0 either
  }

  class Mspm0Pwm {
    const clock: nat   // clock_freq_
    var divideRatio: nat
    var prescale: nat  // register value, one less than the prescaler
    var load: nat

    constructor (clock: nat)
      ensures this.clock == clock
    {
      this.clock, divideRatio, prescale, load := clock, 0, 0, 0;
    }

    /** SetConfig.  It accepts a frequency exactly when the period fits the timer, or when the period
        is so long that rounding it up runs out of 32 bits; and what it then programs is right exactly
        when it did not. */
    method SetConfig(frequency: nat) returns (ec: ErrorCode)
      requires 0 < clock < WORD && frequency < WORD
      modifies this
      ensures frequency == 0 || frequency > clock ==> ec == ARG_ERR
      ensures ec != OK ==> unchanged(this)
      ensures 0 < frequency <= clock ==>
        var cycles := clock / frequency;
        && (ec == OK <==> cycles <= LONGEST || cycles + MAX_TIMER_LOAD >= WORD)
        && (ec == OK ==> (Realises(cycles, divideRatio + 1, prescale + 1, load) <==> cycles + MAX_TIMER_LOAD < WORD))
        && (ec == OK ==> (divideRatio + 1) * (prescale + 1) * frequency <= clock)
    {
      if frequency > clock || frequency == 0 {
        return ARG_ERR;
      }
      hide MinTotal, Realises, U32;
      var totalCycles := clock / frequency;
      AtLeastOne(clock, frequency);
      Limit(totalCycles);
      var minTotal := MinTotal(totalCycles);
      var bestDiv := BestDiv(minTotal);
      if bestDiv > MAX_DIVIDE_RATIO {
        return NOT_SUPPORT;
      }
      var bestPrescaler := BestPrescaler(minTotal, bestDiv);
      Chosen(clock, frequency, minTotal, bestDiv, bestPrescaler);
      Program(frequency, bestDiv, bestPrescaler);
      return OK;
    }

    // The end of SetConfig: the load, and the registers.
    method Program(frequency: nat, div: nat, pre: nat)
      requires 0 < div * pre * frequency <= clock < WORD && div > 0 && pre > 0 && frequency > 0
      requires clock / (div * pre * frequency) >= 1
      modifies this
      ensures divideRatio + 1 == div && prescale + 1 == pre && load == clock / (div * pre * frequency) - 1
    {
      MulLe(1, frequency, div * pre);
      assert div * pre * frequency == frequency * (div * pre);
      var bestLoad := clock / U32(U32(div * pre) * frequency);
      if bestLoad > 0 {
        bestLoad := bestLoad - 1;
      }
      divideRatio := div - 1;
      prescale := pre - 1;
      load := bestLoad;
    }
  }

  /** A period of 2^32 - 1 cycles is accepted, and what is programmed does not realise it: the load is out of
      range. */
  method OneHertz() returns (pwm: Mspm0Pwm, ec: ErrorCode)
    ensures ec == OK && !Realises(0xFFFF_FFFF, pwm.divideRatio + 1, pwm.prescale + 1, pwm.load)
  {
    hide Realises;
    pwm := new Mspm0Pwm(0xFFFF_FFFF);
    ec := pwm.SetConfig(1);
  }

  lemma AtLeastOne(clock: nat, frequency: nat)
    requires 0 < frequency <= clock
    ensures 1 <= clock / frequency <= clock && clock / frequency * frequency <= clock
  {
    var t := clock / frequency;
    Bracket(clock, frequency);
    DivAtLeast(clock, 1, frequency);
    MulLe(1, frequency, t);
    assert t * frequency == frequency * t;
  }

  // A rounding that wraps asks for the undivided clock.
  lemma Wrapped(cycles: nat)
    requires cycles + MAX_TIMER_LOAD >= WORD && cycles < WORD
    ensures !Realises(cycles, 1, 1, cycles / 1 - 1)
  {
    assert cycles / 1 == cycles;
  }

  // The products stay below the clock, and the load is the quotient of the cycles.
  lemma Chosen(clock: nat, frequency: nat, total: nat, div: nat, pre: nat)
    requires 0 < frequency <= clock < WORD && total == MinTotal(clock / frequency)
    requires div == (total + 255) / 256 <= 8 && pre == (total + div - 1) / div
    ensures var cycles := clock / frequency; var product := div * pre;
            && 1 <= div && 1 <= pre && 0 < product * frequency <= clock
                && clock / (product * frequency) == cycles / product >= 1
            && (Realises(cycles, div, pre, cycles / product - 1) <==> cycles + MAX_TIMER_LOAD < WORD)
  {
    hide Realises, MinTotal;
    var cycles := clock / frequency;
    AtLeastOne(clock, frequency);
    if cycles + MAX_TIMER_LOAD < WORD {
      LoadFits(cycles, div, pre, total);
    } else {
      assert total == 1 && div == 1 && pre == 1 && div * pre == 1;
      Wrapped(cycles);
    }
    var product := div * pre;
    DivTwice(clock, frequency, product);
    MulLe(product, cycles, frequency);
    DivAtLeast(cycles, 1, product);
  }

  // Rounding up to whole 65536s keeps the limit: 2048 of them are the longest period.
  lemma Limit(cycles: nat)
    requires 0 < cycles < WORD
    ensures (MinTotal(cycles) + 255) / 256 <= 8 <==> cycles <= LONGEST || cycles + MAX_TIMER_LOAD >= WORD
  {
  }
}
