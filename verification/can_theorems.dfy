/** What the invariant means for every run of the CAN transmit service. */
module CanTxTheorems {
  import opened CanTxMachine
  import opened CanTxSafety
  import opened CanTxLiveness

  lemma {:induction false} RunInv(c: Config, run: seq<State>, budget: nat, k: nat)
    requires IsRun(c, run) && k < |run| && run[0] == Init(budget)
    ensures Inv(c, run[k])
  {
    if k == 0 {
      InitInv(c, budget);
    } else {
      RunInv(c, run, budget, k - 1);
      NextInv(c, run[k - 1], run[k]);
    }
  }

  predicate Quiet(s: State) {
    s.irqs == 0 && forall i :: 0 <= i < |s.callers| ==> s.callers[i].pc.Idle?
  }

  /** In every reachable state at most one caller is between lock and unlock, and an idle driver
      never leaves a frame behind while a mailbox is free. */
  lemma EveryStateIsSafe(c: Config, run: seq<State>, budget: nat, k: nat)
    requires IsRun(c, run) && k < |run| && run[0] == Init(budget)
    ensures forall i, j ::
          0 <= i < j < |run[k].callers| ==> !(Holds(run[k].callers[i].pc) && Holds(run[k].callers[j].pc))
    ensures Quiet(run[k]) ==> !Waiting(run[k].mem) || run[k].mem.busy == c.mailboxes
  {
    RunInv(c, run, budget, k);
    if Quiet(run[k]) {
      NoLostKick(c, run[k]);
    }
  }

  /** In the forms that check for a free mailbox first, the hardware never refuses a frame: nothing
      is ever put back and nothing is lost. */
  lemma CheckFirstNeverPutsBack(c: Config, run: seq<State>, budget: nat, k: nat)
    requires IsRun(c, run) && k < |run| && run[0] == Init(budget) && c.variant != Ch
    ensures run[k].mem.lost == multiset{} && forall i :: 0 <= i < |run[k].callers| ==> !run[k].callers[i].pc.PutBack?
  {
    RunInv(c, run, budget, k);
  }

  /** What the hardware is given is the frame the caller took, although the CH32 form builds every
      message in one buffer shared by all callers. */
  lemma HandsOverWhatItTook(c: Config, s: State, i: nat, f: Frame)
    requires Inv(c, s) && Enabled(c, s, Run(i, f)) && s.callers[i].pc.Hand? && s.mem.busy < c.mailboxes
    ensures Apply(c, s, Run(i, f)).mem.sent == s.mem.sent + [s.callers[i].pc.frame]
  {
    assert CallerOk(c, s.mem, s.callers[i]);
  }

  /** A frame is lost at exactly one kind of step: a put-back that finds its pool full. */
  lemma LostExactlyAtFullPutBack(c: Config, s: State, step: Step)
    requires Enabled(c, s, step)
    ensures Apply(c, s, step).mem.lost != s.mem.lost <==>
            step.Run? && s.callers[step.who].pc.PutBack? && !HasRoom(c, s.mem, s.callers[step.who].pc.frame)
  {
    if step.Run? && s.callers[step.who].pc.PutBack? {
      var g := s.callers[step.who].pc.frame;
      assert (s.mem.lost + multiset{g})[g] == s.mem.lost[g] + 1;
    }
  }

  /** A classic frame overtakes a queued FD frame only while that frame's request for service is
      still recorded. */
  lemma FdWaitsOnlyForItsOwnKick(c: Config, s: State, i: nat, f: Frame)
    requires Inv(c, s) && Enabled(c, s, Run(i, f)) && s.callers[i].pc.GetClassic? && |s.mem.pool| > 0
    ensures |s.mem.poolFd| == 0 || Kicked(s)
  {
    assert s.callers[i].pc.GetClassic?;
  }

  /* ---------------- the CH32 form can lose a frame ---------------- */

  // One mailbox and one pool slot.
  const SMALL := Config(Ch, 1, 0, 1)
  const A := Classic(Standard, 0, [])
  const B := Classic(Standard, 1, [])
  const C := Classic(Standard, 2, [])

  function Mem(lock: bool, pend: bool, pool: multiset<Frame>, busy: nat, msg: Option<Frame>,
               accepted: multiset<Frame>, sent: seq<Frame>, lost: multiset<Frame>): Shared
  {
    Shared(lock, pend, pool, multiset{}, busy, msg, accepted, sent, lost)
  }

  // Caller 0 takes B while the only mailbox still sends A; C fills the slot B left; B has no way back.
  const S1 := State(Mem(false, false, multiset{A}, 0, None, multiset{A}, [], multiset{}), 0, [Caller(Raise, None)], 2)
  const S2 := State(Mem(false, true, multiset{A}, 0, None, multiset{A}, [], multiset{}), 0, [Caller(TryLock, None)], 2)
  const S3 := State(Mem(true, true, multiset{A}, 0, None, multiset{A}, [], multiset{}), 0, [Caller(ClearPend, None)], 2)
  const S4 := State(Mem(true, false, multiset{A}, 0, None, multiset{A}, [], multiset{}), 0,
      [Caller(GetClassic, None)], 2)
  const S5 := State(Mem(true, false, multiset{}, 0, None, multiset{A}, [], multiset{}), 0, [Caller(Build(A), None)], 2)
  const S6 := State(Mem(true, false, multiset{}, 0, Some(A), multiset{A}, [], multiset{}), 0,
      [Caller(Hand(A), None)], 2)
  const S7 := State(Mem(true, false, multiset{}, 1, Some(A), multiset{A}, [A], multiset{}), 0,
      [Caller(GetClassic, None)], 2)
  const S8 := State(Mem(true, false, multiset{B}, 1, Some(A), multiset{A, B}, [A], multiset{}), 0,
      [Caller(GetClassic, None), Caller(Raise, None)], 1)
  const S9 := State(Mem(true, false, multiset{}, 1, Some(A), multiset{A, B}, [A], multiset{}), 0,
      [Caller(Build(B), None), Caller(Raise, None)], 1)
  const S10 := State(Mem(true, false, multiset{}, 1, Some(B), multiset{A, B}, [A], multiset{}), 0,
      [Caller(Hand(B), None), Caller(Raise, None)], 1)
  const S11 := State(Mem(true, false, multiset{}, 1, Some(B), multiset{A, B}, [A], multiset{}), 0,
      [Caller(PutBack(B), None), Caller(Raise, None)], 1)
  const S12 := State(Mem(true, false, multiset{C}, 1, Some(B), multiset{A, B, C}, [A], multiset{}), 0,
      [Caller(PutBack(B), None), Caller(Raise, None), Caller(Raise, None)], 0)
  const S13 := State(Mem(true, false, multiset{C}, 1, Some(B), multiset{A, B, C}, [A], multiset{B}), 0,
      [Caller(Unlock, None), Caller(Raise, None), Caller(Raise, None)], 0)

  ghost predicate Reaches(c: Config, s: State, t: State) {
    exists run: seq<State> :: |run| > 0 && run[0] == s && run[|run| - 1] == t && IsRun(c, run)
  }

  lemma Take(s: State, t: State, step: Step)
    requires Reaches(SMALL, Init(3), s) && Enabled(SMALL, s, step) && Apply(SMALL, s, step) == t
    ensures Reaches(SMALL, Init(3), t)
  {
    assert Next(SMALL, s, t);
    var run: seq<State> :| |run| > 0 && run[0] == Init(3) && run[|run| - 1] == s && IsRun(SMALL, run);
    assert IsRun(SMALL, run + [t]);
  }

  // A goes into the only mailbox, and its caller looks for more.
  lemma TheMailboxFills()
    requires Reaches(SMALL, Init(3), Init(3))
    ensures Reaches(SMALL, Init(3), S7)
  {
    Take(Init(3), S1, Submit(A));
    Take(S1, S2, Run(0, A));
    Take(S2, S3, Run(0, A));
    Take(S3, S4, Run(0, A));
    Take(S4, S5, Run(0, A));
    Take(S5, S6, Run(0, A));
    Take(S6, S7, Run(0, A));
  }

  // It finds B, which the hardware refuses.
  lemma TheMailboxRefuses()
    requires Reaches(SMALL, Init(3), S7)
    ensures Reaches(SMALL, Init(3), S11)
  {
    Take(S7, S8, Submit(B));
    Take(S8, S9, Run(0, B));
    Take(S9, S10, Run(0, B));
    Take(S10, S11, Run(0, B));
  }

  // C takes the slot that B came from.
  lemma TheSlotIsGone()
    requires Reaches(SMALL, Init(3), S11)
    ensures Reaches(SMALL, Init(3), S13)
  {
    Take(S11, S12, Submit(C));
    Take(S12, S13, Run(0, B));
  }

  /** The CH32 form can lose an accepted frame. */
  lemma Ch32LosesAFrame()
    ensures exists t :: Reaches(SMALL, Init(3), t) && t.mem.lost == multiset{B}
  {
    assert IsRun(SMALL, [Init(3)]) && [Init(3)][0] == Init(3);
    TheMailboxFills();
    TheMailboxRefuses();
    TheSlotIsGone();
  }
}
