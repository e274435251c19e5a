/** Liveness of the CAN transmit service: with finitely many calls left to make, every run of the
    machine stops, and it stops with every accepted frame handed to the hardware. */
module CanTxLiveness {
  import opened CanTxMachine
  import opened CanTxSafety

  // Ordered lexicographically, first field first.
  datatype Measure = Measure(budget: nat, frames: nat, requests: nat, pend: nat, ranks: nat)

  predicate Less(a: Measure, b: Measure) {
    if a.budget != b.budget then a.budget < b.budget
    else if a.frames != b.frames then a.frames < b.frames
    else if a.requests != b.requests then a.requests < b.requests
    else if a.pend != b.pend then a.pend < b.pend
    else a.ranks < b.ranks
  }

  // How far a caller is from returning while the pend bit does not change.
  function Rank(pend: bool, pc: Pc): nat {
    match pc
    case Idle => 0
    case SecondPut => 1
    case Raise => 0
    case TryLock => if pend then 3 else 13
    case Relock => if pend then 3 else 13
    case ClearPend => if pend then 2 else 12
    case Check => 11
    case GetFd => 10
    case GetClassic => 9
    case Build(_) => 8
    case Hand(_) => 7
    case PutBack(_) => 6
    case Unlock => 5
    case Recheck => 4
  }

  // A frame weighs less the closer it is to the bus.
  function Burden(caller: Caller): nat {
    (if caller.retry.Some? then 3 else 0) + (if caller.pc.Build? || caller.pc.Hand? || caller.pc.PutBack? then 2 else 0)
  }

  function Weight(m: Shared): nat {
    2 * |m.pool| + 2 * |m.poolFd| + m.busy
  }

  function Raising(caller: Caller): nat {
    if caller.pc.Raise? then 1 else 0
  }

  function RankWith(pend: bool): Caller -> nat {
    (caller: Caller) => Rank(pend, caller.pc)
  }

  function MeasureOf(s: State): Measure {
    Measure(s.budget,
            Weight(s.mem) + Sum(s.callers, Burden),
            2 * s.irqs + Sum(s.callers, Raising),
            if s.mem.pend then 1 else 0,
            Sum(s.callers, RankWith(s.mem.pend)))
  }

  // The contribution of one caller together with the shared variables.
  function Share(m: Shared, caller: Caller): Measure {
    Measure(0, Weight(m) + Burden(caller), Raising(caller), if m.pend then 1 else 0, Rank(m.pend, caller.pc))
  }

  predicate Decreases(c: Config, m: Shared, caller: Caller, f: Frame) {
    var (m', caller') := Access(c, m, caller, f);
    Less(Share(m', caller'), Share(m, caller))
  }

  lemma GetDecreases(c: Config, m: Shared, caller: Caller, f: Frame)
    requires caller.pc.GetFd? || caller.pc.GetClassic?
    requires Offers(m, caller.pc, f)
    ensures Decreases(c, m, caller, f)
  {
    assert f in m.pool ==> |m.pool - multiset{f}| == |m.pool| - 1;
    assert f in m.poolFd ==> |m.poolFd - multiset{f}| == |m.poolFd| - 1;
  }

  lemma HandDecreases(c: Config, m: Shared, caller: Caller, f: Frame)
    requires caller.pc.Hand?
    ensures Decreases(c, m, caller, f)
  {
  }

  lemma PooledWeight(m: Shared, f: Frame)
    ensures Weight(Pooled(m, f)) == Weight(m) + 2 && Pooled(m, f).pend == m.pend
  {
    assert |m.pool + multiset{f}| == |m.pool| + 1 && |m.poolFd + multiset{f}| == |m.poolFd| + 1;
  }

  lemma PutBackDecreases(c: Config, m: Shared, caller: Caller, f: Frame)
    requires caller.pc.PutBack?
    ensures Decreases(c, m, caller, f)
  {
    hide Pooled, HasRoom;
    PooledWeight(m, caller.pc.frame);
  }

  lemma SecondPutDecreases(c: Config, m: Shared, caller: Caller, f: Frame)
    requires caller.pc.SecondPut? && caller.retry.Some?
    ensures Decreases(c, m, caller, f)
  {
  }

  lemma LockingDecreases(c: Config, m: Shared, caller: Caller, f: Frame)
    requires caller.pc.TryLock? || caller.pc.Relock? || caller.pc.Unlock? || caller.pc.Recheck?
    ensures Decreases(c, m, caller, f)
  {
  }

  lemma OtherwiseDecreases(c: Config, m: Shared, caller: Caller, f: Frame)
    requires caller.pc.Raise? || caller.pc.ClearPend? || caller.pc.Check? || caller.pc.Build?
    ensures Decreases(c, m, caller, f)
  {
  }

  lemma AccessDecreases(c: Config, m: Shared, caller: Caller, f: Frame)
    requires !caller.pc.Idle? && Offers(m, caller.pc, f) && (caller.pc.SecondPut? ==> caller.retry.Some?)
    ensures Decreases(c, m, caller, f)
  {
    match caller.pc {
      case GetFd => GetDecreases(c, m, caller, f);
      case GetClassic => GetDecreases(c, m, caller, f);
      case Hand(_) => HandDecreases(c, m, caller, f);
      case PutBack(_) => PutBackDecreases(c, m, caller, f);
      case SecondPut => SecondPutDecreases(c, m, caller, f);
      case TryLock => LockingDecreases(c, m, caller, f);
      case Relock => LockingDecreases(c, m, caller, f);
      case Unlock => LockingDecreases(c, m, caller, f);
      case Recheck => LockingDecreases(c, m, caller, f);
      case _ => OtherwiseDecreases(c, m, caller, f);
    }
  }

  lemma RunDecreases(c: Config, s: State, i: nat, f: Frame)
    requires WellKept(c, s) && Enabled(c, s, Run(i, f))
    ensures Less(MeasureOf(Apply(c, s, Run(i, f))), MeasureOf(s))
  {
    var (m, caller) := Access(c, s.mem, s.callers[i], f);
    AccessDecreases(c, s.mem, s.callers[i], f);
    SumUpdate(s.callers, i, caller, Burden);
    SumUpdate(s.callers, i, caller, Raising);
    SumUpdate(s.callers, i, caller, RankWith(m.pend));
  }

  /** Every step makes the measure smaller, whoever takes it. */
  lemma NextDecreases(c: Config, s: State, t: State)
    requires Inv(c, s) && Next(c, s, t)
    ensures Less(MeasureOf(t), MeasureOf(s))
  {
    var step :| Enabled(c, s, step) && Apply(c, s, step) == t;
    match step {
      case Run(i, f) => RunDecreases(c, s, i, f);
      case Submit(f) => assert t.budget < s.budget;
      case Kick => assert t.budget < s.budget;
      case Complete => assert t.callers == s.callers;
      case TakeIrq(n) =>
        SumAppend(s.callers, Caller(Raise, None), Burden);
        SumAppend(s.callers, Caller(Raise, None), Raising);
    }
  }

  // Nothing is left to do unless the application calls again.
  ghost predicate Stuck(c: Config, s: State) {
    !exists t :: Next(c, s, t)
  }

  // A relation that lowers a measure where `keeps` holds, and preserves `keeps`, stops.
  lemma {:induction false} StopsFrom(keeps: State -> bool, next: (State, State) -> bool, measure: State -> Measure,
                                     run: nat -> State, n: nat, m: Measure) returns (k: nat)
    requires forall s, t :: keeps(s) && next(s, t) ==> keeps(t) && Less(measure(t), measure(s))
    requires keeps(run(n)) && m == measure(run(n))
    ensures !next(run(k), run(k + 1)) && keeps(run(k))
    decreases m.budget, m.frames, m.requests, m.pend, m.ranks
  {
    if next(run(n), run(n + 1)) {
      k := StopsFrom(keeps, next, measure, run, n + 1, measure(run(n + 1)));
    } else {
      k := n;
    }
  }

  lemma NonEmpty(frames: multiset<Frame>) returns (f: Frame)
    ensures |frames| > 0 ==> f in frames
  {
    if g :| g in frames {
      f := g;
    } else {
      assert frames == multiset{};
      f := Classic(Standard, 0, []);
    }
  }

  lemma RunEnabled(c: Config, s: State, i: nat)
    requires i < |s.callers| && !s.callers[i].pc.Idle?
    ensures !Stuck(c, s)
  {
    var f := NonEmpty(if s.callers[i].pc.GetFd? then s.mem.poolFd else s.mem.pool);
    assert Enabled(c, s, Run(i, f));
    assert Next(c, s, Apply(c, s, Run(i, f)));
  }

  lemma {:induction false} NothingInHand(callers: seq<Caller>, f: Frame)
    requires forall i :: 0 <= i < |callers| ==> callers[i].pc.Idle?
    ensures Sum(callers, InHand(f)) == 0
  {
    if callers != [] {
      NothingInHand(callers[..|callers| - 1], f);
    }
  }

  lemma StuckIsQuiet(c: Config, s: State)
    requires Stuck(c, s)
    ensures s.irqs == 0 && s.mem.busy == 0 && s.budget == 0
        && forall i :: 0 <= i < |s.callers| ==> s.callers[i].pc.Idle?
  {
    if s.irqs > 0 {
      assert Enabled(c, s, TakeIrq(1));
      assert Next(c, s, Apply(c, s, TakeIrq(1)));
    }
    if s.mem.busy > 0 {
      assert Enabled(c, s, Complete);
      assert Next(c, s, Apply(c, s, Complete));
    }
    if s.budget > 0 {
      assert Enabled(c, s, Kick);
      assert Next(c, s, Apply(c, s, Kick));
    }
    forall i | 0 <= i < |s.callers| ensures s.callers[i].pc.Idle? {
      if !s.callers[i].pc.Idle? { RunEnabled(c, s, i); }
    }
  }

  /** No lost kick.  When no call is in progress and no completion interrupt is pending, the pools
      are empty or every mailbox is occupied. */
  lemma NoLostKick(c: Config, s: State)
    requires Inv(c, s) && s.irqs == 0 && forall i :: 0 <= i < |s.callers| ==> s.callers[i].pc.Idle?
    ensures !Waiting(s.mem) || s.mem.busy == c.mailboxes
  {
    assert !Kicked(s);
  }

  ghost predicate AllSent(c: Config, m: Shared) {
    m.accepted == multiset(m.sent) + m.lost && (c.variant != Ch ==> m.lost == multiset{})
  }

  /** Where a run stops, every accepted frame has been handed to the hardware exactly once, except
      those a put-back lost; and only the CH32 form can lose one. */
  lemma StuckMeansSent(c: Config, s: State)
    requires Inv(c, s) && Stuck(c, s) && c.mailboxes > 0
    ensures AllSent(c, s.mem)
  {
    StuckIsQuiet(c, s);
    NoLostKick(c, s);
    assert s.mem.pool == multiset{} && s.mem.poolFd == multiset{};
    forall f { NothingInHand(s.callers, f); }
  }

  /** Whatever the schedule, an execution that goes on whenever it can reaches a state in which
      every accepted frame has been handed to the hardware exactly once or was lost. */
  lemma EveryFrameIsSent(c: Config, run: nat -> State, budget: nat)
    requires c.mailboxes > 0 && run(0) == Init(budget)
    requires forall n: nat :: Next(c, run(n), run(n + 1)) || Stuck(c, run(n))
    ensures exists k: nat :: Stuck(c, run(k)) && AllSent(c, run(k).mem)
  {
    InitInv(c, budget);
    forall s, t | Inv(c, s) && Next(c, s, t) ensures Inv(c, t) && Less(MeasureOf(t), MeasureOf(s)) {
      NextInv(c, s, t);
      NextDecreases(c, s, t);
    }
    var k := StopsFrom(s => Inv(c, s), (s, t) => Next(c, s, t), MeasureOf, run, 0, MeasureOf(run(0)));
    StuckMeansSent(c, run(k));
  }
}
