/** TxService and AddMessage as the drivers write them.  Between any two shared accesses any number
    of other callers and interrupts may run; the methods prove that the program text follows the
    machine of CanTxMachine access by access, and that it returns under every schedule. */
module CanTxDriver {
  import opened CanTxMachine
  import opened CanTxSafety
  import opened CanTxLiveness

  datatype ErrorCode = OK | FULL | ARG_ERR | FAILED

  const NO_FRAME := Classic(Standard, 0, [])

  method Pick(frames: multiset<Frame>) returns (f: Option<Frame>)
    ensures if |frames| == 0 then f == None else f.Some? && f.value in frames
  {
    if |frames| == 0 {
      f := None;
    } else {
      ghost var g := NonEmpty(frames);
      var h :| h in frames;
      f := Some(h);
    }
  }

  predicate NotAbove(a: Measure, b: Measure) {
    a == b || Less(a, b)
  }

  /** All that a caller may rely on after others have run. */
  ghost predicate Interference(c: Config, me: nat, s: State, t: State) {
    && Inv(c, t) && me < |s.callers| <= |t.callers| && t.callers[me] == s.callers[me]
        && NotAbove(MeasureOf(t), MeasureOf(s))
    && s.mem.accepted <= t.mem.accepted
  }

  ghost predicate OtherStep(c: Config, me: nat, s: State, t: State) {
    exists step :: Enabled(c, s, step) && Apply(c, s, step) == t && !(step.Run? && step.who == me)
  }

  lemma OtherStepKeepsMe(c: Config, me: nat, s: State, t: State)
    requires OtherStep(c, me, s, t) && me < |s.callers|
    ensures Next(c, s, t) && |s.callers| <= |t.callers| && t.callers[me] == s.callers[me]
  {
    var step :| Enabled(c, s, step) && Apply(c, s, step) == t && !(step.Run? && step.who == me);
  }

  // Whatever the others do, for however long, is covered by Interference.
  lemma {:induction false} OthersInterfere(c: Config, me: nat, run: seq<State>, k: nat)
    requires k < |run| && Inv(c, run[0]) && me < |run[0].callers|
    requires forall n :: 0 <= n < |run| - 1 ==> OtherStep(c, me, run[n], run[n + 1])
    ensures Interference(c, me, run[0], run[k])
  {
    if k > 0 {
      OthersInterfere(c, me, run, k - 1);
      OneMoreInterferes(c, me, run[0], run[k - 1], run[k]);
    }
  }

  lemma OneMoreInterferes(c: Config, me: nat, s: State, t: State, u: State)
    requires Interference(c, me, s, t) && OtherStep(c, me, t, u)
    ensures Interference(c, me, s, u)
  {
    hide Inv, MeasureOf, Less, OtherStep;
    OtherStepKeepsMe(c, me, t, u);
    AcceptedStays(c, t, u);
    NextInv(c, t, u);
    NextDecreases(c, t, u);
    LessIsTransitive(MeasureOf(u), MeasureOf(t), MeasureOf(s));
  }

  lemma LessIsTransitive(a: Measure, b: Measure, d: Measure)
    requires Less(a, b) && NotAbove(b, d)
    ensures Less(a, d)
  {
  }

  // What one call of TxService is for: the frame its caller will try again afterwards, if any, and
  // the frames that were accepted before and stay so.
  datatype Errand = Errand(retry: Option<Frame>, base: multiset<Frame>)

  lemma AcceptedGrows(c: Config, m: Shared, caller: Caller, f: Frame)
    ensures m.accepted <= Access(c, m, caller, f).0.accepted
  {
  }

  lemma AcceptedStays(c: Config, s: State, t: State)
    requires Next(c, s, t)
    ensures s.mem.accepted <= t.mem.accepted
  {
    var step :| Enabled(c, s, step) && Apply(c, s, step) == t;
    if step.Run? {
      AcceptedGrows(c, s.mem, s.callers[step.who], step.frame);
    }
  }

  lemma AfterHand(c: Config, m: Shared, caller: Caller)
    requires caller.pc.Hand?
    ensures Access(c, m, caller, NO_FRAME).1 == caller.(pc :=
      if m.busy >= c.mailboxes then PutBack(caller.pc.frame) else if c.variant == Ch then GetClassic else Check)
  {
  }

  lemma AfterSubmit(c: Config, s: State, f: Frame)
    requires Enabled(c, s, Submit(f))
    ensures var t := Apply(c, s, Submit(f));
      && t.mem == (if HasRoom(c, s.mem, f) then Accept(s.mem, f) else s.mem)
      && (if HasRoom(c, s.mem, f) then t.callers == s.callers + [Caller(Raise, None)]
          else if c.variant == FdCan then t.callers == s.callers + [Caller(Raise, Some(f))]
          else t == s.(budget := s.budget - 1))
  {
    hide HasRoom, Accept, Sendable;
  }

  // One Put of AddMessage: what the callers share before and after it.
  datatype Put = Put(frame: Frame, before: Shared, after: Shared)

  predicate Took(c: Config, p: Put) {
    HasRoom(c, p.before, p.frame) && p.after == Accept(p.before, p.frame)
  }

  predicate Refused(c: Config, p: Put) {
    !HasRoom(c, p.before, p.frame) && p.after == p.before
  }

  class CanDriver {
    const cfg: Config
    var s: State
    ghost var puts: seq<Put>   // the Puts of this object's AddMessage calls

    ghost predicate Valid() reads this`s { Inv(cfg, s) }

    // Caller `me` is about to perform access `pc` on its errand.
    ghost predicate Stands(me: nat, pc: Pc, r: Errand) reads this`s {
      Valid() && me < |s.callers| && s.callers[me] == Caller(pc, r.retry) && r.base <= s.mem.accepted
    }

    ghost predicate Returned(me: nat, r: Errand) reads this`s {
      Stands(me, if r.retry.Some? then SecondPut else Idle, r)
    }

    ghost function Left(): Measure reads this`s { MeasureOf(s) }

    constructor (cfg: Config, budget: nat)
      ensures this.cfg == cfg && s == Init(budget) && Valid()
    {
      this.cfg := cfg;
      s := Init(budget);
      puts := [];
      new;
      InitInv(cfg, budget);
    }

    // Any number of steps of other callers and of the hardware.
    method Interfere(me: nat)
      requires Valid() && me < |s.callers|
      modifies this`s
      ensures Interference(cfg, me, old(s), s)
    {
    }

    // One shared access of caller `me`, then whatever the others do.
    method Perform(me: nat, f: Frame)
      requires Valid() && Enabled(cfg, s, Run(me, f))
      modifies this`s
      ensures Valid() && me < |s.callers|
      ensures s.callers[me] == Access(cfg, old(s.mem), old(s.callers[me]), f).1
      ensures Access(cfg, old(s.mem), old(s.callers[me]), f).0.accepted <= s.mem.accepted
          && old(s.mem.accepted) <= s.mem.accepted
      ensures Less(Left(), old(Left()))
    {
      hide Inv, MeasureOf, Less, Access, Offers;
      ghost var before := s;
      AcceptedGrows(cfg, s.mem, s.callers[me], f);
      s := Apply(cfg, s, Run(me, f));
      assert Next(cfg, before, s);
      NextInv(cfg, before, s);
      NextDecreases(cfg, before, s);
      ghost var mine := s;
      Interfere(me);
      if MeasureOf(s) != MeasureOf(mine) {
        LessIsTransitive(MeasureOf(s), MeasureOf(mine), MeasureOf(before));
      }
    }

    /* ---------------- the shared accesses, one method each ---------------- */

    method SetPend(me: nat, ghost r: Errand)
      requires Stands(me, Raise, r)
      modifies this`s
      ensures Stands(me, TryLock, r) && Less(Left(), old(Left()))
    {
      hide Inv, MeasureOf;
      Perform(me, NO_FRAME);
    }

    method CasLock(me: nat, ghost r: Errand) returns (ok: bool)
      requires Stands(me, TryLock, r) || Stands(me, Relock, r)
      modifies this`s
      ensures (if ok then Stands(me, Pc.ClearPend, r) else Returned(me, r)) && Less(Left(), old(Left()))
    {
      hide Inv, MeasureOf;
      ok := !s.mem.lock;
      Perform(me, NO_FRAME);
    }

    method ClearPend(me: nat, ghost r: Errand)
      requires Stands(me, Pc.ClearPend, r)
      modifies this`s
      ensures Stands(me, if cfg.variant == Ch then GetClassic else Check, r) && Less(Left(), old(Left()))
    {
      hide Inv, MeasureOf;
      Perform(me, NO_FRAME);
    }

    method MailboxFree(me: nat, ghost r: Errand) returns (free: bool)
      requires Stands(me, Check, r)
      modifies this`s
      ensures Stands(me, if !free then Unlock else if cfg.variant == FdCan then GetFd else GetClassic, r)
      ensures Less(Left(), old(Left()))
    {
      hide Inv, MeasureOf;
      free := s.mem.busy != cfg.mailboxes;
      Perform(me, NO_FRAME);
    }

    method GetFromFd(me: nat, ghost r: Errand) returns (f: Option<Frame>)
      requires Stands(me, GetFd, r)
      modifies this`s
      ensures Stands(me, if f.Some? then Build(f.value) else GetClassic, r) && Less(Left(), old(Left()))
    {
      hide Inv, MeasureOf;
      f := Pick(s.mem.poolFd);
      Perform(me, if f.Some? then f.value else NO_FRAME);
    }

    method GetFromClassic(me: nat, ghost r: Errand) returns (f: Option<Frame>)
      requires Stands(me, GetClassic, r)
      modifies this`s
      ensures Stands(me, if f.Some? then Build(f.value) else Unlock, r) && Less(Left(), old(Left()))
    {
      hide Inv, MeasureOf;
      f := Pick(s.mem.pool);
      Perform(me, if f.Some? then f.value else NO_FRAME);
    }

    method BuildTxMessage(me: nat, f: Frame, ghost r: Errand)
      requires Stands(me, Build(f), r)
      modifies this`s
      ensures Stands(me, Hand(f), r) && Less(Left(), old(Left()))
    {
      hide Inv, MeasureOf;
      Perform(me, NO_FRAME);
    }

    // A mailbox seen free stays free until the holder fills it.
    lemma HandFindsRoom(me: nat)
      requires Valid() && me < |s.callers| && s.callers[me].pc.Hand?
      ensures cfg.variant != Ch ==> s.mem.busy < cfg.mailboxes
    {
      assert CallerOk(cfg, s.mem, s.callers[me]);
    }

    method AddTxMessage(me: nat, f: Frame, ghost r: Errand) returns (ok: bool)
      requires Stands(me, Hand(f), r)
      modifies this`s
      ensures Stands(me, if !ok then PutBack(f) else if cfg.variant == Ch then GetClassic else Check, r)
      ensures Less(Left(), old(Left())) && (cfg.variant != Ch ==> ok)
    {
      hide Inv, MeasureOf, Access;
      HandFindsRoom(me);
      AfterHand(cfg, s.mem, s.callers[me]);
      ok := s.mem.busy < cfg.mailboxes;
      Perform(me, NO_FRAME);
    }

    method ReturnToPool(me: nat, f: Frame, ghost r: Errand)
      requires Stands(me, PutBack(f), r)
      modifies this`s
      ensures Stands(me, Unlock, r) && Less(Left(), old(Left()))
    {
      hide Inv, MeasureOf;
      Perform(me, NO_FRAME);
    }

    method ReleaseLock(me: nat, ghost r: Errand)
      requires Stands(me, Unlock, r)
      modifies this`s
      ensures Stands(me, Recheck, r) && Less(Left(), old(Left()))
    {
      hide Inv, MeasureOf;
      Perform(me, NO_FRAME);
    }

    method LoadPend(me: nat, ghost r: Errand) returns (pend: bool)
      requires Stands(me, Recheck, r)
      modifies this`s
      ensures (if pend then Stands(me, Relock, r) else Returned(me, r)) && Less(Left(), old(Left()))
    {
      hide Inv, MeasureOf;
      pend := s.mem.pend;
      Perform(me, NO_FRAME);
    }

    /* ---------------- TxService, driver by driver ---------------- */

    // driver/st/stm32_can.cpp
    method TxServiceBx(me: nat, ghost r: Errand)
      requires cfg.variant == Bx && Stands(me, Raise, r)
      modifies this`s
      ensures Returned(me, r)
    {
      hide Inv, MeasureOf, Stands, Returned, Valid, Left;
      SetPend(me, r);
      var locked := CasLock(me, r);
      if !locked { return; }
      while true
        invariant Stands(me, Pc.ClearPend, r)
        decreases Left().budget, Left().frames, Left().requests, Left().pend, Left().ranks
      {
        ClearPend(me, r);
        var free := MailboxFree(me, r);
        while free
          invariant Stands(me, if free then GetClassic else Unlock, r)
          decreases Left().budget, Left().frames, Left().requests, Left().pend, Left().ranks
        {
          var f := GetFromClassic(me, r);
          if f.None? { break; }
          BuildTxMessage(me, f.value, r);
          var ok := AddTxMessage(me, f.value, r);
          if !ok { assert false; }  // the put-back of this form is never reached
          free := MailboxFree(me, r);
        }
        ReleaseLock(me, r);
        var pend := LoadPend(me, r);
        if !pend { return; }
        locked := CasLock(me, r);
        if !locked { return; }
      }
    }

    // driver/ch/ch32_can.cpp
    method TxServiceCh(me: nat, ghost r: Errand)
      requires cfg.variant == Ch && Stands(me, Raise, r)
      modifies this`s
      ensures Returned(me, r)
    {
      hide Inv, MeasureOf, Stands, Returned, Valid, Left;
      SetPend(me, r);
      var locked := CasLock(me, r);
      if !locked { return; }
      while true
        invariant Stands(me, Pc.ClearPend, r)
        decreases Left().budget, Left().frames, Left().requests, Left().pend, Left().ranks
      {
        ClearPend(me, r);
        while true
          invariant Stands(me, GetClassic, r)
          decreases Left().budget, Left().frames, Left().requests, Left().pend, Left().ranks
        {
          var f := GetFromClassic(me, r);
          if f.None? { break; }
          BuildTxMessage(me, f.value, r);
          var ok := AddTxMessage(me, f.value, r);
          if !ok {
            ReturnToPool(me, f.value, r);
            break;
          }
        }
        ReleaseLock(me, r);
        var pend := LoadPend(me, r);
        if !pend { return; }
        locked := CasLock(me, r);
        if !locked { return; }
      }
    }

    // driver/st/stm32_canfd.cpp
    method TxServiceFd(me: nat, ghost r: Errand)
      requires cfg.variant == FdCan && Stands(me, Raise, r)
      modifies this`s
      ensures Returned(me, r)
    {
      hide Inv, MeasureOf, Stands, Returned, Valid, Left;
      SetPend(me, r);
      var locked := CasLock(me, r);
      if !locked { return; }
      while true
        invariant Stands(me, Pc.ClearPend, r)
        decreases Left().budget, Left().frames, Left().requests, Left().pend, Left().ranks
      {
        ClearPend(me, r);
        DrainFd(me, r);
        ReleaseLock(me, r);
        var pend := LoadPend(me, r);
        if !pend { return; }
        locked := CasLock(me, r);
        if !locked { return; }
      }
    }

    // The inner loop of the FDCAN form: FD frames first, one frame a turn.
    method DrainFd(me: nat, ghost r: Errand)
      requires cfg.variant == FdCan && Stands(me, Check, r)
      modifies this`s
      ensures Stands(me, Unlock, r) && Less(Left(), old(Left()))
    {
      hide Inv, MeasureOf, Stands, Returned, Valid, Left;
      var free := MailboxFree(me, r);
      while free
        invariant Stands(me, if free then GetFd else Unlock, r)
        invariant Less(Left(), old(Left()))
        decreases Left().budget, Left().frames, Left().requests, Left().pend, Left().ranks
      {
        var f := GetFromFd(me, r);
        if f.None? {
          f := GetFromClassic(me, r);
          if f.None? { break; }
        }
        BuildTxMessage(me, f.value, r);
        var ok := AddTxMessage(me, f.value, r);
        if !ok { assert false; }  // both ASSERT(false) of this form are out of reach
        free := MailboxFree(me, r);
      }
    }

    /* ---------------- AddMessage ---------------- */

    // The first Put of AddMessage; `me` is the caller that goes on to TxService.
    method FirstPut(f: Frame) returns (ok: bool, me: nat)
      requires Valid() && Enabled(cfg, s, Submit(f))
      modifies this
      ensures Valid() && ok == HasRoom(cfg, old(s.mem), f) && me == |old(s.callers)|
      ensures puts == old(puts) + [Put(f, old(s.mem), if ok then Accept(old(s.mem), f) else old(s.mem))]
      ensures ok ==> Stands(me, Raise, Errand(None, old(s.mem.accepted) + multiset{f}))
      ensures !ok && cfg.variant == FdCan ==> Stands(me, Raise, Errand(Some(f), old(s.mem.accepted)))
      ensures !ok && cfg.variant != FdCan ==> s == old(s).(budget := old(s.budget) - 1)
    {
      hide Inv, MeasureOf, HasRoom, Accept, Sendable, Apply;
      ok := HasRoom(cfg, s.mem, f);
      me := |s.callers|;
      ghost var before := s;
      AfterSubmit(cfg, s, f);
      AcceptAdds(s.mem, f);
      s := Apply(cfg, s, Submit(f));
      puts := puts + [Put(f, before.mem, s.mem)];
      assert Next(cfg, before, s);
      NextInv(cfg, before, s);
      if ok || cfg.variant == FdCan {
        Interfere(me);
      }
    }

    // The second Put of the FDCAN AddMessage.
    method PutAgain(me: nat, f: Frame, ghost base: multiset<Frame>) returns (ok: bool)
      requires Stands(me, SecondPut, Errand(Some(f), base))
      modifies this
      ensures ok == HasRoom(cfg, old(s.mem), f)
          && Stands(me, if ok then Raise else Idle, Errand(None, if ok then base + multiset{f} else base))
      ensures puts == old(puts) + [Put(f, old(s.mem), if ok then Accept(old(s.mem), f) else old(s.mem))]
    {
      hide Inv, MeasureOf, HasRoom, Accept;
      ok := HasRoom(cfg, s.mem, f);
      puts := puts + [Put(f, s.mem, Access(cfg, s.mem, s.callers[me], NO_FRAME).0)];
      AcceptAdds(s.mem, f);
      Perform(me, NO_FRAME);
    }

    lemma AcceptAdds(m: Shared, f: Frame)
      ensures Accept(m, f).accepted == m.accepted + multiset{f}
    {
    }

    // This call's frame was accepted by a Put of its own, on top of all that had been, and its caller,
    // new in this call, has been through TxService.
    ghost predicate Served(f: Frame, p: Put, me: nat, base: multiset<Frame>)
      reads this
    {
      p.frame == f && Took(cfg, p) && Returned(me, Errand(None, base + multiset{f}))
    }

    /** bxCAN AddMessage: the frame is refused without any change, or its one Put accepts it and the
        call returns after one TxService of its own. */
    method AddMessage(f: Frame) returns (ec: ErrorCode, ghost me: nat)
      requires Valid() && s.budget > 0 && cfg.variant != FdCan && f.Classic?
      modifies this
      ensures Valid() && old(puts) <= puts && me == |old(s.callers)|
      ensures ec == (if f.kind == ErrorFrame then ARG_ERR else if HasRoom(cfg, old(s.mem), f) then OK else FULL)
      ensures ec != OK ==> s.mem == old(s.mem) && s.callers == old(s.callers)
      ensures ec == OK ==> |puts| == |old(puts)| + 1 && Served(f, puts[|old(puts)|], me, old(s.mem.accepted))
    {
      hide Inv, HasRoom, Accept;
      me := |s.callers|;
      if f.kind == ErrorFrame { return ARG_ERR, me; }
      var ok, who := FirstPut(f);
      if !ok { return FULL, me; }
      ghost var more := Errand(None, old(s.mem.accepted) + multiset{f});
      if cfg.variant == Bx {
        TxServiceBx(who, more);
      } else {
        TxServiceCh(who, more);
      }
      return OK, me;
    }

    /** FDCAN AddMessage: a Put that finds the pool full is made once more, after a TxService of this
        call; the frame is refused exactly when the second one finds it full as well. */
    method AddMessageFd(f: Frame) returns (ec: ErrorCode, ghost me: nat)
      requires Valid() && s.budget > 0 && cfg.variant == FdCan
      modifies this
      ensures Valid() && old(puts) <= puts && me == |old(s.callers)|
      ensures ec == ARG_ERR <==> f.kind == ErrorFrame
      ensures ec == FAILED <==> f.Fd? && f.kind in {RemoteStandard, RemoteExtended}
      ensures ec in {ARG_ERR, FAILED} ==> s == old(s) && puts == old(puts)
      ensures ec in {OK, FULL} ==> |puts| == |old(puts)| + if HasRoom(cfg, old(s.mem), f) then 1 else 2
      ensures ec in {OK, FULL} ==> puts[|old(puts)|].frame == f && puts[|old(puts)|].before == old(s.mem)
      ensures ec in {OK, FULL} && !HasRoom(cfg, old(s.mem), f) ==> Refused(cfg, puts[|old(puts)|])
      ensures ec == OK ==> Served(f, puts[|puts| - 1], me, old(s.mem.accepted))
      ensures ec == FULL ==>
            && !HasRoom(cfg, old(s.mem), f) && puts[|puts| - 1].frame == f && Refused(cfg, puts[|puts| - 1])
            && Returned(me, Errand(None, old(s.mem.accepted)))
    {
      hide Inv, HasRoom, Accept;
      me := |s.callers|;
      if f.kind == ErrorFrame { return ARG_ERR, me; }
      if f.Fd? && f.kind != Standard && f.kind != Extended { return FAILED, me; }
      ghost var base := s.mem.accepted;
      var ok, who := FirstPut(f);
      if !ok {
        TxServiceFd(who, Errand(Some(f), base));
        ok := PutAgain(who, f, base);
        if !ok {
          return FULL, me;
        }
      }
      TxServiceFd(who, Errand(None, base + multiset{f}));
      return OK, me;
    }
  }
}
