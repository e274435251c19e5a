/** Safety of the CAN transmit service: every step of every caller keeps the invariant. */
module CanTxSafety {
  import opened CanTxMachine

  lemma {:induction false} SumUpdate(callers: seq<Caller>, i: nat, x: Caller, weight: Caller -> nat)
    requires i < |callers|
    ensures Sum(callers[i := x], weight) + weight(callers[i]) == Sum(callers, weight) + weight(x)
  {
    var n := |callers| - 1;
    if i == n {
      assert callers[i := x][..n] == callers[..n];
    } else {
      assert callers[i := x][..n] == callers[..n][i := x];
      SumUpdate(callers[..n], i, x, weight);
    }
  }

  lemma SumAppend(callers: seq<Caller>, x: Caller, weight: Caller -> nat)
    ensures Sum(callers + [x], weight) == Sum(callers, weight) + weight(x)
  {
    assert (callers + [x])[..|callers|] == callers;
  }

  lemma InitInv(c: Config, budget: nat)
    ensures Inv(c, Init(budget))
  {
  }

  /* ---------------- one access ---------------- */

  // The lock changes hands only with the caller that takes or releases it.
  lemma LockFollowsHolder(c: Config, m: Shared, caller: Caller, f: Frame)
    ensures var (m', caller') := Access(c, m, caller, f);
            if Holds(caller.pc) == Holds(caller'.pc) then m'.lock == m.lock
            else if Holds(caller'.pc) then !m.lock && m'.lock
            else caller.pc.Unlock? && !m'.lock
  {
  }

  // Only a lock holder touches the mailboxes and the message buffer.
  lemma HolderOwns(c: Config, m: Shared, caller: Caller, f: Frame)
    requires !Holds(caller.pc)
    ensures Access(c, m, caller, f).0.busy == m.busy
    ensures Access(c, m, caller, f).0.txMsg == m.txMsg
  {
  }

  lemma PutKept(c: Config, m: Shared, f: Frame)
    requires SharedOk(c, m) && Sendable(c, f) && HasRoom(c, m, f)
    ensures SharedOk(c, Pooled(m, f))
  {
  }

  lemma GetKept(c: Config, m: Shared, f: Frame)
    requires SharedOk(c, m)
    ensures f in m.poolFd ==> SharedOk(c, m.(poolFd := m.poolFd - multiset{f}))
    ensures f in m.pool ==> SharedOk(c, m.(pool := m.pool - multiset{f}))
  {
  }

  lemma PutSharedOk(c: Config, m: Shared, caller: Caller, f: Frame)
    requires SharedOk(c, m) && CallerOk(c, m, caller) && (caller.pc.SecondPut? || caller.pc.PutBack?)
    ensures SharedOk(c, Access(c, m, caller, f).0)
  {
    var g := if caller.pc.SecondPut? then caller.retry.value else caller.pc.frame;
    if HasRoom(c, m, g) {
      PutKept(c, m, g);
    }
  }

  lemma GetSharedOk(c: Config, m: Shared, caller: Caller, f: Frame)
    requires SharedOk(c, m) && CallerOk(c, m, caller) && (caller.pc.GetFd? || caller.pc.GetClassic?)
    requires Offers(m, caller.pc, f)
    ensures SharedOk(c, Access(c, m, caller, f).0)
  {
    hide HasRoom, Accept, Pooled, CallerOk, Sendable, SharedOk;
    GetKept(c, m, f);
    var m' := Access(c, m, caller, f).0;
    if caller.pc.GetFd? {
      assert m' == if |m.poolFd| == 0 then m else m.(poolFd := m.poolFd - multiset{f});
    } else {
      assert m' == if |m.pool| == 0 then m else m.(pool := m.pool - multiset{f});
    }
  }

  lemma OtherwiseSamePools(c: Config, m: Shared, caller: Caller, f: Frame)
    requires m.busy <= c.mailboxes
    requires !caller.pc.SecondPut? && !caller.pc.PutBack? && !caller.pc.GetFd? && !caller.pc.GetClassic?
    ensures Access(c, m, caller, f).0.pool == m.pool
    ensures Access(c, m, caller, f).0.poolFd == m.poolFd
    ensures Access(c, m, caller, f).0.lost == m.lost
    ensures Access(c, m, caller, f).0.busy <= c.mailboxes
  {
  }

  lemma SamePoolsOk(c: Config, m: Shared, m': Shared)
    requires SharedOk(c, m) && m'.pool == m.pool && m'.poolFd == m.poolFd && m'.lost == m.lost && m'.busy <= c.mailboxes
    ensures SharedOk(c, m')
  {
  }

  lemma AccessSharedOk(c: Config, m: Shared, caller: Caller, f: Frame)
    requires SharedOk(c, m) && CallerOk(c, m, caller) && Offers(m, caller.pc, f)
    ensures SharedOk(c, Access(c, m, caller, f).0)
  {
    if caller.pc.SecondPut? || caller.pc.PutBack? {
      PutSharedOk(c, m, caller, f);
    } else if caller.pc.GetFd? || caller.pc.GetClassic? {
      GetSharedOk(c, m, caller, f);
    } else {
      OtherwiseSamePools(c, m, caller, f);
      SamePoolsOk(c, m, Access(c, m, caller, f).0);
    }
  }

  lemma AccessCallerOk(c: Config, m: Shared, caller: Caller, f: Frame)
    requires SharedOk(c, m) && CallerOk(c, m, caller) && Offers(m, caller.pc, f)
    ensures var (m', caller') := Access(c, m, caller, f); CallerOk(c, m', caller')
  {
    match caller.pc {
      case GetFd =>
      case GetClassic =>
      case Check =>
      case Hand(g) =>
      case Build(g) =>
      case _ =>
    }
  }

  // How often `g` is pooled, handed out or lost.
  function Placed(m: Shared, g: Frame): nat {
    m.pool[g] + m.poolFd[g] + multiset(m.sent)[g] + m.lost[g]
  }

  lemma PlacedByPut(m: Shared, f: Frame, g: Frame)
    ensures Placed(Pooled(m, f), g) == Placed(m, g) + multiset{f}[g]
  {
  }

  lemma PlacedByLoss(m: Shared, f: Frame, g: Frame)
    ensures Placed(m.(lost := m.lost + multiset{f}), g) == Placed(m, g) + multiset{f}[g]
  {
  }

  lemma PlacedByGet(m: Shared, f: Frame, g: Frame)
    ensures f in m.poolFd ==> Placed(m.(poolFd := m.poolFd - multiset{f}), g) + multiset{f}[g] == Placed(m, g)
    ensures f in m.pool ==> Placed(m.(pool := m.pool - multiset{f}), g) + multiset{f}[g] == Placed(m, g)
  {
  }

  lemma PlacedByHand(m: Shared, f: Frame, g: Frame)
    ensures Placed(m.(busy := m.busy + 1, sent := m.sent + [f]), g) == Placed(m, g) + multiset{f}[g]
  {
    assert multiset(m.sent + [f])[g] == multiset(m.sent)[g] + multiset{f}[g];
  }

  ghost predicate Conserves(c: Config, m: Shared, caller: Caller, f: Frame, g: Frame) {
    var (m', caller') := Access(c, m, caller, f);
    m'.accepted[g] + Placed(m, g) + Carries(caller.pc, g) == m.accepted[g] + Placed(m', g) + Carries(caller'.pc, g)
  }

  lemma TakingConserves(c: Config, m: Shared, caller: Caller, f: Frame, g: Frame)
    requires (caller.pc.GetFd? || caller.pc.GetClassic?) && Offers(m, caller.pc, f)
    ensures Conserves(c, m, caller, f, g)
  {
    PlacedByGet(m, f, g);
  }

  lemma HandingConserves(c: Config, m: Shared, caller: Caller, f: Frame, g: Frame)
    requires caller.pc.Hand? && (c.variant == Ch ==> m.txMsg == Some(caller.pc.frame))
    ensures Conserves(c, m, caller, f, g)
  {
    PlacedByHand(m, caller.pc.frame, g);
  }

  lemma RetryConserves(c: Config, m: Shared, caller: Caller, f: Frame, g: Frame)
    requires caller.pc.SecondPut?
    ensures Conserves(c, m, caller, f, g)
  {
    if caller.retry.Some? {
      PlacedByPut(m, caller.retry.value, g);
    }
  }

  lemma PutBackConserves(c: Config, m: Shared, caller: Caller, f: Frame, g: Frame)
    requires caller.pc.PutBack?
    ensures Conserves(c, m, caller, f, g)
  {
    var h := caller.pc.frame;
    if HasRoom(c, m, h) {
      PlacedByPut(m, h, g);
      assert Access(c, m, caller, f) == (Pooled(m, h), caller.(pc := Unlock));
    } else {
      PlacedByLoss(m, h, g);
      assert Access(c, m, caller, f) == (m.(lost := m.lost + multiset{h}), caller.(pc := Unlock));
    }
  }

  lemma OtherwiseConserves(c: Config, m: Shared, caller: Caller, f: Frame, g: Frame)
    requires caller.pc.Idle? || caller.pc.Raise? || caller.pc.TryLock? || caller.pc.ClearPend? || caller.pc.Check?
          || caller.pc.Build? || caller.pc.Unlock? || caller.pc.Recheck? || caller.pc.Relock?
    ensures Conserves(c, m, caller, f, g)
  {
  }

  lemma AccessConserves(c: Config, m: Shared, caller: Caller, f: Frame, g: Frame)
    requires caller.pc.Hand? && c.variant == Ch ==> m.txMsg == Some(caller.pc.frame)
    requires Offers(m, caller.pc, f)
    ensures Conserves(c, m, caller, f, g)
  {
    match caller.pc {
      case GetFd => TakingConserves(c, m, caller, f, g);
      case GetClassic => TakingConserves(c, m, caller, f, g);
      case Hand(h) => HandingConserves(c, m, caller, f, g);
      case PutBack(h) => PutBackConserves(c, m, caller, f, g);
      case SecondPut => RetryConserves(c, m, caller, f, g);
      case _ => OtherwiseConserves(c, m, caller, f, g);
    }
  }

  /* ---------------- one step of the whole machine ---------------- */

  lemma RunExclusive(c: Config, s: State, i: nat, f: Frame)
    requires Exclusive(s) && Enabled(c, s, Run(i, f))
    ensures Exclusive(Apply(c, s, Run(i, f)))
  {
    LockFollowsHolder(c, s.mem, s.callers[i], f);
    var t := Apply(c, s, Run(i, f));
    if t.mem.lock && !Holds(t.callers[i].pc) {
      var j :| 0 <= j < |s.callers| && Holds(s.callers[j].pc);
      assert Holds(t.callers[j].pc);
    }
  }

  lemma SpawnExclusive(s: State, retry: Option<Frame>)
    requires Exclusive(s)
    ensures Exclusive(Spawn(s, retry))
  {
    var t := Spawn(s, retry);
    if s.mem.lock {
      var j :| 0 <= j < |s.callers| && Holds(s.callers[j].pc);
      assert t.callers[j] == s.callers[j];
    }
    forall k | 0 <= k < |t.callers| && Holds(t.callers[k].pc) ensures k < |s.callers| && t.callers[k] == s.callers[k] {}
  }

  lemma NextExclusive(c: Config, s: State, step: Step)
    requires Exclusive(s) && Enabled(c, s, step)
    ensures Exclusive(Apply(c, s, step))
  {
    match step {
      case Run(i, f) => RunExclusive(c, s, i, f);
      case Submit(f) =>
        var s1 := s.(budget := s.budget - 1);
        if HasRoom(c, s.mem, f) {
          SpawnExclusive(s1.(mem := Accept(s.mem, f)), None);
        } else if c.variant == FdCan {
          SpawnExclusive(s1, Some(f));
        }
      case Kick => SpawnExclusive(s.(budget := s.budget - 1), None);
      case Complete =>
      case TakeIrq(n) => SpawnExclusive(s.(irqs := s.irqs - n), None);
    }
  }

  lemma RunWellKept(c: Config, s: State, i: nat, f: Frame)
    requires WellKept(c, s) && Exclusive(s) && Enabled(c, s, Run(i, f))
    ensures WellKept(c, Apply(c, s, Run(i, f)))
  {
    var t := Apply(c, s, Run(i, f));
    AccessSharedOk(c, s.mem, s.callers[i], f);
    AccessCallerOk(c, s.mem, s.callers[i], f);
    forall j | 0 <= j < |t.callers| ensures CallerOk(c, t.mem, t.callers[j]) {
      if j != i {
        OthersStayOk(c, s.mem, s.callers[i], f, s.callers[j]);
      }
    }
  }

  // A step of one caller leaves another one's assumptions about the mailboxes alone.
  lemma OthersStayOk(c: Config, m: Shared, caller: Caller, f: Frame, other: Caller)
    requires CallerOk(c, m, other) && !(Holds(caller.pc) && Holds(other.pc))
    ensures CallerOk(c, Access(c, m, caller, f).0, other)
  {
    if !Holds(caller.pc) {
      HolderOwns(c, m, caller, f);
    }
  }

  lemma SubmitWellKept(c: Config, s: State, f: Frame)
    requires WellKept(c, s) && Enabled(c, s, Submit(f))
    ensures WellKept(c, Apply(c, s, Submit(f)))
  {
    if HasRoom(c, s.mem, f) {
      PutKept(c, s.mem, f);
    }
  }

  lemma NextWellKept(c: Config, s: State, step: Step)
    requires WellKept(c, s) && Exclusive(s) && Enabled(c, s, step)
    ensures WellKept(c, Apply(c, s, step))
  {
    match step {
      case Run(i, f) => RunWellKept(c, s, i, f);
      case Submit(f) => SubmitWellKept(c, s, f);
      case _ =>
    }
  }

  /* ---------------- no request is forgotten ---------------- */

  // A caller leaves TxService only after reading pend = 0, or because the lock is taken.
  lemma LeavesServed(c: Config, m: Shared, caller: Caller, f: Frame)
    requires InService(caller.pc) && !InService(Access(c, m, caller, f).1.pc)
    ensures (caller.pc.Recheck? && !m.pend) || (!Holds(caller.pc) && m.lock)
  {
  }

  lemma PendSurvives(c: Config, m: Shared, caller: Caller, f: Frame)
    requires !caller.pc.ClearPend?
    ensures m.pend || caller.pc.Raise? ==> Access(c, m, caller, f).0.pend
  {
  }

  lemma RaiseLeadsOn(c: Config, m: Shared, caller: Caller, f: Frame)
    requires caller.pc.Raise?
    ensures Access(c, m, caller, f).1.pc.TryLock?
  {
  }

  // Only the lock holder that is about to serve may withdraw a recorded request.
  lemma KickedSurvives(c: Config, s: State, i: nat, f: Frame)
    requires Exclusive(s) && Enabled(c, s, Run(i, f)) && Kicked(s) && !s.callers[i].pc.ClearPend?
    ensures Kicked(Apply(c, s, Run(i, f)))
  {
    var t := Apply(c, s, Run(i, f));
    PendSurvives(c, s.mem, s.callers[i], f);
    if s.irqs > 0 {
    } else if j :| 0 <= j < |s.callers| && s.callers[j].pc.Raise? {
      if j == i {
        RaiseLeadsOn(c, s.mem, s.callers[i], f);
        assert InService(t.callers[i].pc);
      } else {
        assert t.callers[j] == s.callers[j];
      }
    } else {
      var j :| 0 <= j < |s.callers| && InService(s.callers[j].pc);
      if j != i {
        assert t.callers[j] == s.callers[j];
      } else if !InService(t.callers[i].pc) {
        LeavesServed(c, s.mem, s.callers[i], f);
        var k :| 0 <= k < |s.callers| && Holds(s.callers[k].pc);
        assert t.callers[k] == s.callers[k] && InService(t.callers[k].pc);
      }
    }
  }

  // Who is refused by the hardware, who finds both pools empty, and who may add work.
  lemma ReachesPutBack(c: Config, m: Shared, caller: Caller, f: Frame)
    requires Access(c, m, caller, f).1.pc.PutBack?
    ensures caller.pc.Hand? && Access(c, m, caller, f).0.busy == m.busy >= c.mailboxes
  {
    hide HasRoom, Accept, Pooled;
  }

  lemma ReachesGetClassic(c: Config, m: Shared, caller: Caller, f: Frame)
    requires SharedOk(c, m) && CallerOk(c, m, caller)
    requires Access(c, m, caller, f).1.pc.GetClassic?
    ensures |Access(c, m, caller, f).0.poolFd| == 0
  {
    hide SharedOk, HasRoom, Accept, Pooled, Sendable;
    if c.variant != FdCan {
      NoFdFrames(c, m);
    }
  }

  lemma NoFdFrames(c: Config, m: Shared)
    requires SharedOk(c, m) && c.variant != FdCan
    ensures |m.poolFd| == 0
  {
    assert forall g <- m.poolFd :: false;
    assert m.poolFd == multiset{};
  }

  lemma StopsServing(c: Config, m: Shared, caller: Caller, f: Frame)
    requires Serving(caller.pc) && !Serving(Access(c, m, caller, f).1.pc)
    ensures caller.pc.Check? ==> m.busy == c.mailboxes
    ensures caller.pc.GetClassic? ==> |m.pool| == 0
    ensures caller.pc.Check? || caller.pc.GetClassic? || caller.pc.PutBack?
    ensures Access(c, m, caller, f).0.busy == m.busy
    ensures !caller.pc.PutBack? ==> Waiting(Access(c, m, caller, f).0) == Waiting(m)
  {
  }

  lemma OutsidersAddWork(c: Config, m: Shared, caller: Caller, f: Frame)
    requires !Serving(caller.pc)
    ensures Access(c, m, caller, f).0.busy == m.busy
    ensures Access(c, m, caller, f).1.pc.Raise? || Access(c, m, caller, f).0.poolFd == m.poolFd
    ensures Access(c, m, caller, f).1.pc.Raise? || Access(c, m, caller, f).0.pool == m.pool
  {
  }

  lemma RunPutBack(c: Config, s: State, i: nat, f: Frame, k: nat)
    requires Inv(c, s) && Enabled(c, s, Run(i, f))
    requires var t := Apply(c, s, Run(i, f)); k < |t.callers| && t.callers[k].pc.PutBack? && t.mem.busy < c.mailboxes
    ensures Kicked(Apply(c, s, Run(i, f)))
  {
    if k == i {
      ReachesPutBack(c, s.mem, s.callers[i], f);
    } else {
      assert s.callers[k].pc.PutBack?;
      HolderOwns(c, s.mem, s.callers[i], f);
      KickedSurvives(c, s, i, f);
    }
  }

  lemma RunGetClassic(c: Config, s: State, i: nat, f: Frame, k: nat)
    requires Inv(c, s) && Enabled(c, s, Run(i, f))
    requires var t := Apply(c, s, Run(i, f)); k < |t.callers| && t.callers[k].pc.GetClassic? && |t.mem.poolFd| > 0
    ensures Kicked(Apply(c, s, Run(i, f)))
  {
    var t := Apply(c, s, Run(i, f));
    if k == i {
      ReachesGetClassic(c, s.mem, s.callers[i], f);
    } else {
      assert s.callers[k].pc.GetClassic?;
      OutsidersAddWork(c, s.mem, s.callers[i], f);
      if !t.callers[i].pc.Raise? {
        KickedSurvives(c, s, i, f);
      }
    }
  }

  lemma ServerLeavesKick(c: Config, s: State, i: nat, f: Frame)
    requires Inv(c, s) && Enabled(c, s, Run(i, f)) && Serving(s.callers[i].pc)
    requires var (m', caller') := Access(c, s.mem, s.callers[i], f);
             !Serving(caller'.pc) && Waiting(m') && m'.busy < c.mailboxes
    ensures Kicked(Apply(c, s, Run(i, f)))
  {
    StopsServing(c, s.mem, s.callers[i], f);
    assert Kicked(s);
    KickedSurvives(c, s, i, f);
  }

  lemma OutsiderLeavesKick(c: Config, s: State, i: nat, f: Frame)
    requires Inv(c, s) && Enabled(c, s, Run(i, f)) && !Serving(s.callers[i].pc)
    requires forall k :: 0 <= k < |s.callers| ==> !Serving(s.callers[k].pc)
    requires var m' := Access(c, s.mem, s.callers[i], f).0; Waiting(m') && m'.busy < c.mailboxes
    ensures Kicked(Apply(c, s, Run(i, f)))
  {
    OutsidersAddWork(c, s.mem, s.callers[i], f);
    var t := Apply(c, s, Run(i, f));
    if t.callers[i].pc.Raise? {
    } else {
      assert Kicked(s);
      KickedSurvives(c, s, i, f);
    }
  }

  lemma RunWaiting(c: Config, s: State, i: nat, f: Frame)
    requires Inv(c, s) && Enabled(c, s, Run(i, f))
    requires var t := Apply(c, s, Run(i, f));
             Waiting(t.mem) && t.mem.busy < c.mailboxes && forall k :: 0 <= k < |t.callers| ==>
                 !Serving(t.callers[k].pc)
    ensures Kicked(Apply(c, s, Run(i, f)))
  {
    var t := Apply(c, s, Run(i, f));
    assert !Serving(t.callers[i].pc);
    if Serving(s.callers[i].pc) {
      ServerLeavesKick(c, s, i, f);
    } else {
      forall k | 0 <= k < |s.callers| ensures !Serving(s.callers[k].pc) {
        if k != i { assert t.callers[k] == s.callers[k]; }
      }
      OutsiderLeavesKick(c, s, i, f);
    }
  }

  lemma RunNotForgotten(c: Config, s: State, i: nat, f: Frame)
    requires Inv(c, s) && Enabled(c, s, Run(i, f))
    ensures NotForgotten(c, Apply(c, s, Run(i, f)))
  {
    var t := Apply(c, s, Run(i, f));
    forall k | 0 <= k < |t.callers| && t.callers[k].pc.PutBack? && t.mem.busy < c.mailboxes ensures Kicked(t) {
      RunPutBack(c, s, i, f, k);
    }
    forall k | 0 <= k < |t.callers| && t.callers[k].pc.GetClassic? && |t.mem.poolFd| > 0 ensures Kicked(t) {
      RunGetClassic(c, s, i, f, k);
    }
    if Waiting(t.mem) && t.mem.busy < c.mailboxes && forall k :: 0 <= k < |t.callers| ==> !Serving(t.callers[k].pc) {
      RunWaiting(c, s, i, f);
    }
  }

  // A new caller, or an interrupt that becomes pending, is itself a recorded request.
  lemma SpawnKicks(s: State, retry: Option<Frame>)
    ensures Kicked(Spawn(s, retry))
  {
    assert Spawn(s, retry).callers[|s.callers|].pc.Raise?;
  }

  lemma NextNotForgotten(c: Config, s: State, step: Step)
    requires Inv(c, s) && Enabled(c, s, step)
    ensures NotForgotten(c, Apply(c, s, step))
  {
    match step {
      case Run(i, f) => RunNotForgotten(c, s, i, f);
      case Submit(f) =>
        var s1 := s.(budget := s.budget - 1);
        if HasRoom(c, s.mem, f) {
          SpawnKicks(s1.(mem := Accept(s.mem, f)), None);
        } else if c.variant == FdCan {
          SpawnKicks(s1, Some(f));
        } else {
          assert Kicked(s1) == Kicked(s);
        }
      case Kick => SpawnKicks(s.(budget := s.budget - 1), None);
      case Complete => assert Kicked(Apply(c, s, step));
      case TakeIrq(n) => SpawnKicks(s.(irqs := s.irqs - n), None);
    }
  }

  lemma RunAccounted(c: Config, s: State, i: nat, f: Frame)
    requires WellKept(c, s) && Accounted(s) && Enabled(c, s, Run(i, f))
    ensures Accounted(Apply(c, s, Run(i, f)))
  {
    var (m, caller) := Access(c, s.mem, s.callers[i], f);
    forall g ensures m.accepted[g] == Placed(m, g) + Sum(s.callers[i := caller], InHand(g)) {
      assert s.mem.accepted[g] == Placed(s.mem, g) + Sum(s.callers, InHand(g));
      AccessConserves(c, s.mem, s.callers[i], f, g);
      SumUpdate(s.callers, i, caller, InHand(g));
    }
  }

  lemma SpawnAccounted(s: State, retry: Option<Frame>)
    requires Accounted(s)
    ensures Accounted(Spawn(s, retry))
  {
    forall g { SumAppend(s.callers, Caller(Raise, retry), InHand(g)); }
  }

  lemma AcceptAccounted(s: State, f: Frame)
    requires Accounted(s)
    ensures Accounted(s.(mem := Accept(s.mem, f)))
  {
    forall g ensures Accept(s.mem, f).accepted[g] == Placed(Accept(s.mem, f), g) + Sum(s.callers, InHand(g)) {
      assert s.mem.accepted[g] == Placed(s.mem, g) + Sum(s.callers, InHand(g));
      PlacedByPut(s.mem, f, g);
    }
  }

  lemma SubmitAccounted(c: Config, s: State, f: Frame)
    requires Accounted(s) && Enabled(c, s, Submit(f))
    ensures Accounted(Apply(c, s, Submit(f)))
  {
    var s1 := s.(budget := s.budget - 1);
    if HasRoom(c, s.mem, f) {
      AcceptAccounted(s1, f);
      SpawnAccounted(s1.(mem := Accept(s.mem, f)), None);
    } else if c.variant == FdCan {
      SpawnAccounted(s1, Some(f));
    }
  }

  lemma NextAccounted(c: Config, s: State, step: Step)
    requires Inv(c, s) && Enabled(c, s, step)
    ensures Accounted(Apply(c, s, step))
  {
    match step {
      case Run(i, f) => RunAccounted(c, s, i, f);
      case Submit(f) => SubmitAccounted(c, s, f);
      case Kick => SpawnAccounted(s.(budget := s.budget - 1), None);
      case Complete =>
      case TakeIrq(n) => SpawnAccounted(s.(irqs := s.irqs - n), None);
    }
  }

  lemma NextInv(c: Config, s: State, t: State)
    requires Inv(c, s) && Next(c, s, t)
    ensures Inv(c, t)
  {
    var step :| Enabled(c, s, step) && Apply(c, s, step) == t;
    NextWellKept(c, s, step);
    NextExclusive(c, s, step);
    NextAccounted(c, s, step);
    NextNotForgotten(c, s, step);
  }
}
