/** HandleTxInterrupt and WriteFun of the MSPM0 UART as the driver writes them.  Between any two shared
    accesses of the one, any number of steps of the other and of the hardware may run; the methods prove
    that the program text follows Mspm0UartMachine access by access, and that the handler returns. */
module Mspm0Uart {
  import opened UartMessages
  import opened Mspm0UartMachine
  import Liveness = Mspm0UartLiveness

  datatype ErrorCode = OK | PENDING

  datatype Measure = Measure(budget: nat, submitter: nat, bytes: nat, requests: nat, pc: nat)

  function PcRank(pc: Pc): nat {
    match pc
    case Loop => 9
    case Fill => 8
    case PopByte | Disable => 7
    case Transmit(_) => 6
    case Complete | ClearStatus => 5
    case ClearNvic => 4
    case CheckSize => 3
    case ReEnable => 2
    case ReSet => 1
    case Off | Failed => 0
  }

  function MeasureOf(s: State): Measure {
    Measure(s.budget, Liveness.SubRank(s.sub), |InHand(s)| + |s.data|, |Active(s)| + |s.infos|, PcRank(s.pc))
  }

  predicate Less(a: Measure, b: Measure) {
    || a.budget < b.budget
    || (a.budget == b.budget && (a.submitter < b.submitter
    || (a.submitter == b.submitter && (a.bytes < b.bytes
    || (a.bytes == b.bytes && (a.requests < b.requests
    || (a.requests == b.requests && a.pc < b.pc)))))))
  }

  predicate NotAbove(a: Measure, b: Measure) { a == b || Less(a, b) }

  lemma LessIsTransitive(a: Measure, b: Measure, d: Measure)
    requires NotAbove(a, b) && NotAbove(b, d)
    ensures NotAbove(a, d) && (Less(a, b) || Less(b, d) ==> Less(a, d))
  {
  }

  lemma HandleDecreases(c: Config, s: State)
    requires Inv(c, s) && Enabled(c, s, Handle) && !s.pc.Off?
    ensures Less(MeasureOf(Handled(c, s)), MeasureOf(s))
  {
    hide Counted, BytesKept, InOrder, Awake;
  }

  // What belongs to the handler alone.
  predicate SameHandler(s: State, t: State) {
    (t.pc, t.activeValid, t.activeInfo, t.remaining, t.wire, t.finished) == (s.pc, s.activeValid, s.activeInfo,
        s.remaining, s.wire, s.finished)
  }

  /** All that the handler may rely on after submitters and the hardware have run. */
  ghost predicate AroundHandler(c: Config, s: State, t: State) {
    Inv(c, t) && SameHandler(s, t) && NotAbove(MeasureOf(t), MeasureOf(s))
  }

  lemma OneMoreAround(c: Config, s: State, t: State, step: Step)
    requires Inv(c, t) && AroundHandler(c, s, t) && Enabled(c, t, step) && !step.Handle?
    ensures AroundHandler(c, s, Apply(c, t, step))
  {
    hide Inv;
    var u := Apply(c, t, step);
    assert Next(c, t, u);
    NextInv(c, t, u);
    assert NotAbove(MeasureOf(u), MeasureOf(t));
    LessIsTransitive(MeasureOf(u), MeasureOf(t), MeasureOf(s));
  }

  // Whatever they do, for however long, is covered by AroundHandler.
  lemma {:induction false} OthersStayAround(c: Config, run: seq<State>, steps: seq<Step>, k: nat)
    requires k < |run| == |steps| + 1 && Inv(c, run[0])
    requires forall n ::
          0 <= n < |steps| ==>
            Enabled(c, run[n], steps[n]) && Apply(c, run[n], steps[n]) == run[n + 1] && !steps[n].Handle?
    ensures AroundHandler(c, run[0], run[k])
  {
    if k > 0 {
      OthersStayAround(c, run, steps, k - 1);
      OneMoreAround(c, run[0], run[k - 1], steps[k - 1]);
    }
  }

  /** All that a submitter may rely on after the handler and the hardware have run. */
  ghost predicate AroundSubmitter(c: Config, s: State, t: State) {
    Inv(c, t) && (t.sub, t.submitted, t.budget, t.nextId) == (s.sub, s.submitted, s.budget, s.nextId)
  }

  lemma OneMoreAroundSubmitter(c: Config, s: State, t: State, step: Step)
    requires Inv(c, t) && AroundSubmitter(c, s, t) && Enabled(c, t, step) && !step.Submit? && !step.Proceed?
    ensures AroundSubmitter(c, s, Apply(c, t, step))
  {
    hide Inv;
    assert Next(c, t, Apply(c, t, step));
    NextInv(c, t, Apply(c, t, step));
  }

  // Whatever they do, for however long, is covered by AroundSubmitter.
  lemma {:induction false} HandlerStaysAround(c: Config, run: seq<State>, steps: seq<Step>, k: nat)
    requires k < |run| == |steps| + 1 && Inv(c, run[0])
    requires forall n :: 0 <= n < |steps| ==>
      Enabled(c, run[n], steps[n]) && Apply(c, run[n], steps[n]) == run[n + 1] && !steps[n].Submit?
          && !steps[n].Proceed?
    ensures AroundSubmitter(c, run[0], run[k])
  {
    if k > 0 {
      HandlerStaysAround(c, run, steps, k - 1);
      OneMoreAroundSubmitter(c, run[0], run[k - 1], steps[k - 1]);
    }
  }

  class Mspm0Uart {
    const cfg: Config
    var s: State

    ghost predicate Stands(pc: Pc) reads this { Inv(cfg, s) && s.pc == pc }

    ghost function Left(): Measure reads this { MeasureOf(s) }

    constructor (cfg: Config, budget: nat)
      requires cfg.threshold < cfg.fifoSize
      ensures this.cfg == cfg && s == Init(budget) && Stands(Off)
    {
      this.cfg := cfg;
      s := Init(budget);
      new;
      InitInv(cfg, budget);
    }

    // Any number of steps of submitters and of the hardware.
    method OthersRun()
      requires Inv(cfg, s)
      modifies this
      ensures AroundHandler(cfg, old(s), s)
    {
    }

    // One shared access of the handler, then whatever the others do.
    method Perform()
      requires Inv(cfg, s) && Enabled(cfg, s, Handle) && !s.pc.Off?
      modifies this
      ensures Inv(cfg, s) && SameHandler(Handled(cfg, old(s)), s) && Less(Left(), old(Left()))
    {
      hide Inv, MeasureOf;
      ghost var before := s;
      HandleInv(cfg, s);
      HandleDecreases(cfg, s);
      s := Apply(cfg, s, Handle);
      ghost var mine := s;
      OthersRun();
      LessIsTransitive(MeasureOf(s), MeasureOf(mine), MeasureOf(before));
    }

    /* ---------------- the handler's accesses ---------------- */

    method PopRequest() returns (ok: bool)
      requires Stands(Loop) && !s.activeValid
      modifies this
      ensures Stands(if ok then Fill else Disable) && s.activeValid == ok && s.finished == old(s.finished)
          && Less(Left(), old(Left()))
    {
      hide Inv, MeasureOf;
      ok := s.infos != [];
      Perform();
    }

    method Resume()
      requires Stands(Loop) && s.activeValid
      modifies this
      ensures Stands(Fill) && s.activeValid && s.finished == old(s.finished) && Less(Left(), old(Left()))
    {
      hide Inv, MeasureOf;
      Perform();
    }

    // tx_active_remaining_ > 0 && !isTXFIFOFull
    method MoreFits() returns (more: bool)
      requires Stands(Fill)
      modifies this
      ensures more == s.pc.PopByte? && Stands(if more then PopByte else if s.remaining > 0 then Off else Complete)
          && Less(Left(), old(Left()))
    {
      hide Inv, MeasureOf;
      more := s.remaining > 0 && s.fifo < cfg.fifoSize;
      Perform();
    }

    method PopData() returns (ok: bool, b: Byte)
      requires Stands(PopByte)
      modifies this
      ensures ok && Stands(Transmit(b)) && Less(Left(), old(Left()))
    {
      HandleKeepsPlace(cfg, s);
      hide Inv, MeasureOf, PcOk;
      ok := s.data != [];
      b := if ok then s.data[0] else 0;
      DataIsThere();
      Perform();
    }

    lemma DataIsThere()
      requires Stands(PopByte)
      ensures s.data != []
    {
      HandleKeepsPlace(cfg, s);
    }

    method TransmitData(b: Byte)
      requires Stands(Transmit(b))
      modifies this
      ensures Stands(Fill) && s.wire == old(s.wire) + [b] && Less(Left(), old(Left()))
    {
      hide Inv, MeasureOf;
      Perform();
    }

    method Finish()
      requires Stands(Complete)
      modifies this
      ensures Stands(Loop) && s.finished == old(s.finished) + [old(s.activeInfo)] && !s.activeValid
          && Less(Left(), old(Left()))
    {
      hide Inv, MeasureOf;
      Perform();
    }

    method DisableTxInterrupt()
      requires Stands(Disable)
      modifies this
      ensures Stands(CheckSize) && Less(Left(), old(Left()))
    {
      hide Inv, MeasureOf;
      ghost var a := Left();
      Perform();
      ghost var b := Left();
      Perform();
      LessIsTransitive(Left(), b, a);
      b := Left();
      Perform();
      LessIsTransitive(Left(), b, a);
    }

    method QueueNotEmpty() returns (some: bool)
      requires Stands(CheckSize)
      modifies this
      ensures Stands(if some then ReEnable else Off)
    {
      hide Inv, MeasureOf;
      some := |s.infos| > 0;
      Perform();
    }

    method EnableAndSet()
      requires Stands(ReEnable)
      modifies this
      ensures Stands(Off)
    {
      hide Inv, MeasureOf;
      Perform();
      Perform();
    }

    /** HandleTxInterrupt returns under every schedule, with the invariant kept; in particular the
        branch for missing bytes is never taken. */
    method HandleTxInterrupt()
      requires Stands(Loop)
      modifies this
      ensures Stands(Off)
    {
      hide Inv, MeasureOf, Stands;
      while true
        invariant Stands(Loop)
        decreases Left().budget, Left().submitter, Left().bytes, Left().requests, Left().pc
      {
        ghost var top := Left();
        StandsAt(Loop);
        if !s.activeValid {
          var popped := PopRequest();
          if !popped {
            DisableTxInterrupt();
            var some := QueueNotEmpty();
            if some {
              EnableAndSet();
            }
            return;
          }
        } else {
          Resume();
        }
        var more := MoreFits();
        while more
          invariant Stands(if more then PopByte else if s.remaining > 0 then Off else Complete)
          invariant Less(Left(), top)
          decreases Left().budget, Left().submitter, Left().bytes, Left().requests, Left().pc
        {
          var ok, b := PopData();
          if !ok {
            assert false;
          }
          TransmitData(b);
          more := MoreFits();
        }
        if s.remaining > 0 {
          return;
        }
        Finish();
      }
    }

    lemma StandsAt(pc: Pc)
      requires Stands(pc)
      ensures s.pc == pc
    {
    }

    // The interrupt is taken when its status is up and enabled.
    method HandleInterrupt()
      requires Stands(Off)
      modifies this
      ensures Stands(Off)
    {
      if !(s.im && s.ris) {
        return;
      }
      HandleInv(cfg, s);
      s := Apply(cfg, s, Handle);
      HandleTxInterrupt();
    }

    /* ---------------- the submitter ---------------- */

    // Any number of steps of the handler and of the hardware.
    method HandlerRuns()
      requires Inv(cfg, s)
      modifies this
      ensures AroundSubmitter(cfg, old(s), s)
    {
    }

    /** WriteFun: the request has been pushed; from here on it is the handler's. */
    method WriteFun() returns (ans: ErrorCode)
      requires Inv(cfg, s) && s.sub.InfoPushed?
      modifies this
      ensures Inv(cfg, s) && s.sub.Ready? && s.submitted == old(s.submitted) && ans == PENDING
    {
      hide Inv;
      ProceedKeeps(cfg, s);
      s := Apply(cfg, s, Proceed);
      HandlerRuns();
      ProceedKeeps(cfg, s);
      s := Apply(cfg, s, Proceed);
      return PENDING;
    }
  }
}
