/** Why transmission on the MSPM0 UART goes on: a measure that no step of Mspm0UartMachine raises, and
    that every step lowers except those with which handler and hardware wait for a full FIFO. */
module Mspm0UartLiveness {
  import opened UartMessages
  import opened Mspm0UartMachine

  datatype Measure = Measure(budget: nat, submitter: nat, work: nat, requests: nat, alarm: nat, pc: nat)

  predicate Less(a: Measure, b: Measure) {
    || a.budget < b.budget
    || (a.budget == b.budget && (a.submitter < b.submitter
    || (a.submitter == b.submitter && (a.work < b.work
    || (a.work == b.work && (a.requests < b.requests
    || (a.requests == b.requests && (a.alarm < b.alarm
    || (a.alarm == b.alarm && a.pc < b.pc)))))))))
  }

  function SubRank(sub: Submitter): nat {
    match sub
    case DataPushed(_) => 3
    case InfoPushed => 2
    case EnabledTx => 1
    case Ready => 0
  }

  // The active request waits for room in the FIFO.
  predicate Waits(c: Config, s: State) {
    s.activeValid && s.remaining > 0 && s.fifo >= c.fifoSize
  }

  predicate Idles(s: State) { !s.activeValid && s.infos == [] }

  // With nothing to do, an enabled interrupt stands for one more turn of the handler, that disables it.
  function Alarm(s: State): nat {
    if Idles(s) && (s.im || s.pc.ReEnable?) then 1 else 0
  }

  function Rank(c: Config, s: State): nat {
    if Waits(c, s) then 0
    else if s.activeValid then ActiveRank(s.pc)
    else if s.infos != [] then QueuedRank(s.pc)
    else IdleRank(s)
  }

  function ActiveRank(pc: Pc): nat {
    match pc
    case Off => 6
    case Loop => 5
    case Fill => 4
    case PopByte => 3
    case Transmit(_) => 2
    case _ => 1
  }

  // On the way to the request that is popped next.
  function QueuedRank(pc: Pc): nat {
    match pc
    case Disable => 8
    case ClearStatus => 7
    case ClearNvic => 6
    case CheckSize => 5
    case ReEnable => 4
    case ReSet => 3
    case Off => 2
    case _ => 1
  }

  // On the way to a handler that does not run, by one more turn if the interrupt is enabled.
  function IdleRank(s: State): nat {
    match s.pc
    case ReEnable => 11
    case ReSet => 10
    case ClearStatus => if s.im then 9 else 3
    case ClearNvic => if s.im then 8 else 2
    case CheckSize => if s.im then 7 else 1
    case Off => if s.im then 6 else 0
    case Loop => 5
    case _ => 4
  }

  function MeasureOf(c: Config, s: State): Measure {
    Measure(s.budget, SubRank(s.sub), 2 * (|InHand(s)| + |s.data|) + s.fifo, 2 * |s.infos| + |Active(s)|, Alarm(s),
        Rank(c, s))
  }

  /** A step with which nothing gets nearer to the end: the handler looks at a full FIFO, or the
      hardware lowers the status of one above its threshold. */
  predicate Pauses(c: Config, s: State, step: Step) {
    step.Lower? || (step.Handle? && Waits(c, s))
  }

  lemma HandleDecreases(c: Config, s: State)
    requires Inv(c, s) && Enabled(c, s, Handle)
    ensures if Waits(c, s) then MeasureOf(c, Handled(c, s)) == MeasureOf(c, s)
        else Less(MeasureOf(c, Handled(c, s)), MeasureOf(c, s))
  {
    hide Counted, BytesKept, InOrder, Awake;
  }

  lemma StepDecreases(c: Config, s: State, step: Step)
    requires Inv(c, s) && Enabled(c, s, step)
    ensures var t := Apply(c, s, step);
            if Pauses(c, s, step) then MeasureOf(c, t) == MeasureOf(c, s) else Less(MeasureOf(c, t), MeasureOf(c, s))
  {
    hide Inv, Rank, Alarm, Handled;
    if step.Handle? {
      HandleDecreases(c, s);
    }
    if step.Lower? {
      LowerKeepsRank(c, s);
    }
  }

  lemma LowerKeepsRank(c: Config, s: State)
    ensures Rank(c, s.(ris := false)) == Rank(c, s) && Alarm(s.(ris := false)) == Alarm(s)
  {
  }

  /* ---------------- whole executions ---------------- */

  // Step after step, as long as anything but a submission can happen.
  ghost predicate IsExecution(c: Config, run: nat -> State, steps: nat -> Step) {
    forall n: nat :: Stuck(c, run(n)) || (Enabled(c, run(n), steps(n)) && Apply(c, run(n), steps(n)) == run(n + 1))
  }

  ghost predicate GoesOn(c: Config, run: nat -> State, steps: nat -> Step, m: nat) {
    Stuck(c, run(m)) || !Pauses(c, run(m), steps(m))
  }

  ghost predicate GoesOnAfter(c: Config, run: nat -> State, steps: nat -> Step, n: nat) {
    exists m :: n <= m && GoesOn(c, run, steps, m)
  }

  // The FIFO drains in the end: handler and hardware do not pause for ever.
  ghost predicate IsFair(c: Config, run: nat -> State, steps: nat -> Step) {
    forall n: nat :: GoesOnAfter(c, run, steps, n)
  }

  // From n to m, unless the execution gets stuck in between, the measure does not rise.
  lemma {:induction false} Walk(c: Config, run: nat -> State, steps: nat -> Step, n: nat, m: nat) returns (k: nat)
    requires IsExecution(c, run, steps) && Inv(c, run(n)) && n <= m
    ensures n <= k <= m && Inv(c, run(k)) && (k < m ==> Stuck(c, run(k)))
    ensures MeasureOf(c, run(k)) == MeasureOf(c, run(n)) || Less(MeasureOf(c, run(k)), MeasureOf(c, run(n)))
    decreases m - n
  {
    hide Inv, MeasureOf, Stuck;
    k := n;
    if n < m && !Stuck(c, run(n)) {
      OneStep(c, run, steps, n);
      k := Walk(c, run, steps, n + 1, m);
    }
  }

  lemma OneStep(c: Config, run: nat -> State, steps: nat -> Step, n: nat)
    requires IsExecution(c, run, steps) && Inv(c, run(n)) && !Stuck(c, run(n))
    ensures Inv(c, run(n + 1))
    ensures if Pauses(c, run(n), steps(n)) then MeasureOf(c, run(n + 1)) == MeasureOf(c, run(n))
            else Less(MeasureOf(c, run(n + 1)), MeasureOf(c, run(n)))
  {
    hide Inv, MeasureOf, Stuck, Enabled, Apply;
    assert Next(c, run(n), run(n + 1));
    NextInv(c, run(n), run(n + 1));
    StepDecreases(c, run(n), steps(n));
  }

  lemma {:induction false} Settles(c: Config, run: nat -> State, steps: nat -> Step, n: nat) returns (k: nat)
    requires IsExecution(c, run, steps) && IsFair(c, run, steps) && Inv(c, run(n))
    ensures Inv(c, run(k)) && Stuck(c, run(k))
    decreases MeasureOf(c, run(n)).budget, MeasureOf(c, run(n)).submitter, MeasureOf(c, run(n)).work,
        MeasureOf(c, run(n)).requests,
              MeasureOf(c, run(n)).alarm, MeasureOf(c, run(n)).pc
  {
    hide Inv, MeasureOf, Stuck, Pauses;
    assert GoesOnAfter(c, run, steps, n);
    var m :| n <= m && GoesOn(c, run, steps, m);
    k := Walk(c, run, steps, n, m);
    if !Stuck(c, run(k)) {
      OneStep(c, run, steps, k);
      k := Settles(c, run, steps, k + 1);
    }
  }

  /** Every execution in which the FIFO is not full for ever comes, after finitely many steps, to a
      state in which everything submitted is on the wire, in order, and finished, in order. */
  lemma EverythingIsSent(c: Config, budget: nat, run: nat -> State, steps: nat -> Step)
    requires c.threshold < c.fifoSize && run(0) == Init(budget) && IsExecution(c, run, steps) && IsFair(c, run, steps)
    ensures exists k: nat ::
          Stuck(c, run(k)) && run(k).wire == Bytes(run(k).submitted) && run(k).finished == Infos(run(k).submitted)
  {
    hide Bytes, Infos;
    InitInv(c, budget);
    var k := Settles(c, run, steps, 0);
    var s := run(k);
    assert !Enabled(c, s, Proceed) && !Enabled(c, s, Handle) && !Enabled(c, s, Drain);
    AllQuiet(c, s);
  }
}
