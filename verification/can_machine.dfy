/** The CAN transmit service as an interleaving machine.

    `TxService` runs in threads and in mailbox-complete interrupts at the same time.  Every access
    to a shared variable (`tx_pend_`, `tx_lock_`, a pool, the mailboxes, `tx_msg_`) is one step, and
    the steps of any number of callers interleave freely.  One machine covers the three drivers:
    they differ in whether a free mailbox is checked before a frame is taken (`Bx`, `FdCan`) or a
    frame is taken first (`Ch`), and in how many pools there are. */
module CanTxMachine {

  datatype Option<T> = None | Some(value: T)

  datatype Kind = Standard | Extended | RemoteStandard | RemoteExtended | ErrorFrame

  datatype Frame =
    | Classic(kind: Kind, id: nat, data: seq<bv8>)
    | Fd(kind: Kind, id: nat, data: seq<bv8>)

  // STM32 bxCAN, CH32 bxCAN, STM32 FDCAN
  datatype Variant = Bx | Ch | FdCan

  datatype Config = Config(variant: Variant, cap: nat, capFd: nat, mailboxes: nat)

  // Where one caller stands inside AddMessage / TxService.
  datatype Pc =
    | Idle                   // returned
    | SecondPut              // FDCAN AddMessage: about to retry a Put that found the pool full
    | Raise                  // about to set pend
    | TryLock                // first compare-exchange
    | ClearPend              // lock held, about to clear pend
    | Check                  // about to test for a free mailbox
    | GetFd                  // about to take from the FD pool
    | GetClassic             // about to take from the classic pool
    | Build(frame: Frame)    // frame taken, message about to be built
    | Hand(frame: Frame)     // about to hand the message to the hardware
    | PutBack(frame: Frame)  // hardware refused the message
    | Unlock                 // about to release the lock
    | Recheck                // lock released, about to read pend again
    | Relock                 // pend was seen, second compare-exchange

  datatype Caller = Caller(pc: Pc, retry: Option<Frame>)

  // Everything the callers share.
  datatype Shared = Shared(
    lock: bool,
    pend: bool,
    pool: multiset<Frame>,
    poolFd: multiset<Frame>,
    busy: nat,                  // occupied mailboxes
    txMsg: Option<Frame>,       // CH32: the message buffer of the driver object
    accepted: multiset<Frame>,  // frames some Put accepted
    sent: seq<Frame>,           // frames handed to the hardware, in order
    lost: multiset<Frame>       // frames a put-back could not return
  )

  datatype State = State(
    mem: Shared,
    irqs: nat,                  // completion interrupts not taken yet
    callers: seq<Caller>,
    budget: nat                 // calls the application may still make
  )

  datatype Step =
    | Submit(frame: Frame)           // AddMessage, up to its first Put
    | Kick                           // TxService called from an error callback
    | Complete                       // a mailbox completes
    | TakeIrq(count: nat)            // one interrupt serves `count` completions
    | Run(who: nat, frame: Frame)    // caller `who` performs its next access

  function Init(budget: nat): State {
    State(Shared(false, false, multiset{}, multiset{}, 0, None, multiset{}, [], multiset{}), 0, [], budget)
  }

  predicate Holds(pc: Pc) {
    pc.ClearPend? || pc.Check? || pc.GetFd? || pc.GetClassic? || pc.Build? || pc.Hand? || pc.PutBack? || pc.Unlock?
  }

  // Between taking the lock and having found nothing more to do.
  predicate Serving(pc: Pc) {
    Holds(pc) && !pc.Unlock?
  }

  predicate InService(pc: Pc) {
    !pc.Idle? && !pc.SecondPut?
  }

  predicate HasRoom(c: Config, m: Shared, f: Frame) {
    if f.Fd? then |m.poolFd| < c.capFd else |m.pool| < c.cap
  }

  function Pooled(m: Shared, f: Frame): Shared {
    if f.Fd? then m.(poolFd := m.poolFd + multiset{f}) else m.(pool := m.pool + multiset{f})
  }

  function Accept(m: Shared, f: Frame): Shared {
    Pooled(m, f).(accepted := m.accepted + multiset{f})
  }

  // Frames AddMessage lets through to the pool.
  predicate Sendable(c: Config, f: Frame) {
    f.kind != ErrorFrame && (f.Fd? ==> c.variant == FdCan && f.kind in {Standard, Extended})
  }

  // What TxService returns to: a second Put if the first one found the pool full.
  function Return(caller: Caller): Caller {
    caller.(pc := if caller.retry.Some? then SecondPut else Idle)
  }

  // The frame a pool hands out is its choice; any frame in it may come.
  predicate Offers(m: Shared, pc: Pc, f: Frame) {
    && (pc.GetFd? && |m.poolFd| > 0 ==> f in m.poolFd)
    && (pc.GetClassic? && |m.pool| > 0 ==> f in m.pool)
  }

  /** The next shared access of one caller: its effect on the shared variables and where the
      caller goes. */
  function Access(c: Config, m: Shared, caller: Caller, f: Frame): (r: (Shared, Caller)) {
    match caller.pc
    case Idle => (m, caller)
    case SecondPut =>
      if caller.retry.Some? && HasRoom(c, m, caller.retry.value)
      then (Accept(m, caller.retry.value), Caller(Raise, None))
      else (m, Caller(Idle, None))
    case Raise => (m.(pend := true), caller.(pc := TryLock))
    case TryLock =>
      if m.lock then (m, Return(caller)) else (m.(lock := true), caller.(pc := ClearPend))
    case ClearPend =>
      (m.(pend := false), caller.(pc := if c.variant == Ch then GetClassic else Check))
    case Check =>
      if m.busy == c.mailboxes then (m, caller.(pc := Unlock))
      else (m, caller.(pc := if c.variant == FdCan then GetFd else GetClassic))
    case GetFd =>
      if |m.poolFd| == 0 then (m, caller.(pc := GetClassic))
      else (m.(poolFd := m.poolFd - multiset{f}), caller.(pc := Build(f)))
    case GetClassic =>
      if |m.pool| == 0 then (m, caller.(pc := Unlock))
      else (m.(pool := m.pool - multiset{f}), caller.(pc := Build(f)))
    case Build(g) =>
      (if c.variant == Ch then m.(txMsg := Some(g)) else m, caller.(pc := Hand(g)))
    case Hand(g) =>
      if m.busy >= c.mailboxes then (m, caller.(pc := PutBack(g)))
      else
        var msg := if c.variant == Ch && m.txMsg.Some? then m.txMsg.value else g;
        (m.(busy := m.busy + 1, sent := m.sent + [msg]), caller.(pc := if c.variant == Ch then GetClassic else Check))
    case PutBack(g) =>
      (if HasRoom(c, m, g) then Pooled(m, g) else m.(lost := m.lost + multiset{g}), caller.(pc := Unlock))
    case Unlock => (m.(lock := false), caller.(pc := Recheck))
    case Recheck => if m.pend then (m, caller.(pc := Relock)) else (m, Return(caller))
    case Relock =>
      if m.lock then (m, Return(caller)) else (m.(lock := true), caller.(pc := ClearPend))
  }

  function Spawn(s: State, retry: Option<Frame>): State {
    s.(callers := s.callers + [Caller(Raise, retry)])
  }

  predicate Enabled(c: Config, s: State, step: Step) {
    match step
    case Submit(f) => s.budget > 0 && Sendable(c, f)
    case Kick => s.budget > 0
    case Complete => s.mem.busy > 0
    case TakeIrq(n) => 0 < n <= s.irqs
    case Run(i, f) => i < |s.callers| && !s.callers[i].pc.Idle? && Offers(s.mem, s.callers[i].pc, f)
  }

  function Apply(c: Config, s: State, step: Step): State
    requires Enabled(c, s, step)
  {
    match step
    case Submit(f) =>
      var s1 := s.(budget := s.budget - 1);
      if HasRoom(c, s.mem, f) then Spawn(s1.(mem := Accept(s.mem, f)), None)
      else if c.variant == FdCan then Spawn(s1, Some(f))
      else s1
    case Kick => Spawn(s.(budget := s.budget - 1), None)
    case Complete => s.(mem := s.mem.(busy := s.mem.busy - 1), irqs := s.irqs + 1)
    case TakeIrq(n) => Spawn(s.(irqs := s.irqs - n), None)
    case Run(i, f) =>
      var (m, caller) := Access(c, s.mem, s.callers[i], f);
      s.(mem := m, callers := s.callers[i := caller])
  }

  ghost predicate Next(c: Config, s: State, t: State) {
    exists step :: Enabled(c, s, step) && Apply(c, s, step) == t
  }

  ghost predicate IsRun(c: Config, run: seq<State>) {
    forall k :: 0 <= k < |run| - 1 ==> Next(c, run[k], run[k + 1])
  }

  /* ---------------- the invariant ---------------- */

  function Sum(callers: seq<Caller>, weight: Caller -> nat): nat {
    if callers == [] then 0 else Sum(callers[..|callers| - 1], weight) + weight(callers[|callers| - 1])
  }

  function Carries(pc: Pc, f: Frame): nat {
    if (pc.Build? || pc.Hand? || pc.PutBack?) && pc.frame == f then 1 else 0
  }

  function InHand(f: Frame): Caller -> nat {
    (caller: Caller) => Carries(caller.pc, f)
  }

  // A request for service is recorded somewhere it cannot be forgotten.
  ghost predicate Kicked(s: State) {
    || s.irqs > 0
    || (exists i :: 0 <= i < |s.callers| && s.callers[i].pc.Raise?)
    || (s.mem.pend && exists i :: 0 <= i < |s.callers| && InService(s.callers[i].pc))
  }

  predicate Waiting(m: Shared) {
    |m.pool| > 0 || |m.poolFd| > 0
  }

  // At most one caller is between lock and unlock, and the lock says so.
  ghost predicate Exclusive(s: State) {
    && (forall i, j ::
          0 <= i < |s.callers| && 0 <= j < |s.callers| && Holds(s.callers[i].pc) && Holds(s.callers[j].pc) ==> i == j)
    && (s.mem.lock <==> exists i :: 0 <= i < |s.callers| && Holds(s.callers[i].pc))
  }

  // No frame appears or disappears: how often `f` was accepted is how often it is somewhere.
  ghost predicate Accounted(s: State) {
    forall f :: s.mem.accepted[f] ==
      s.mem.pool[f] + s.mem.poolFd[f] + Sum(s.callers, InHand(f)) + multiset(s.mem.sent)[f] + s.mem.lost[f]
  }

  ghost predicate CallerOk(c: Config, m: Shared, caller: Caller) {
    && (caller.retry.Some? ==> c.variant == FdCan && Sendable(c, caller.retry.value))
    && (caller.pc.SecondPut? ==> caller.retry.Some?)
    && (caller.pc.Check? ==> c.variant != Ch)
    && (caller.pc.GetFd? ==> c.variant == FdCan)
    && (caller.pc.Build? || caller.pc.Hand? || caller.pc.PutBack? ==> Sendable(c, caller.pc.frame))
    && (caller.pc.Hand? && c.variant == Ch ==> m.txMsg == Some(caller.pc.frame))
    // a mailbox seen free stays free until the holder fills it
    && (c.variant != Ch && (caller.pc.GetFd? || caller.pc.GetClassic? || caller.pc.Build? || caller.pc.Hand?) ==>
        m.busy < c.mailboxes)
    && (c.variant != Ch ==> !caller.pc.PutBack?)
  }

  ghost predicate SharedOk(c: Config, m: Shared) {
    && |m.pool| <= c.cap && |m.poolFd| <= c.capFd && m.busy <= c.mailboxes
    && (forall f <- m.pool :: f.Classic? && Sendable(c, f))
    && (forall f <- m.poolFd :: f.Fd? && Sendable(c, f))
    && (c.variant != Ch ==> m.lost == multiset{})
  }

  ghost predicate WellKept(c: Config, s: State) {
    SharedOk(c, s.mem) && forall i :: 0 <= i < |s.callers| ==> CallerOk(c, s.mem, s.callers[i])
  }

  ghost predicate NotForgotten(c: Config, s: State) {
    && (forall i :: 0 <= i < |s.callers| && s.callers[i].pc.PutBack? && s.mem.busy < c.mailboxes ==> Kicked(s))
    && (forall i :: 0 <= i < |s.callers| && s.callers[i].pc.GetClassic? && |s.mem.poolFd| > 0 ==> Kicked(s))
    && (Waiting(s.mem) && s.mem.busy < c.mailboxes ==>
          Kicked(s) || exists i :: 0 <= i < |s.callers| && Serving(s.callers[i].pc))
  }

  ghost predicate Inv(c: Config, s: State) {
    WellKept(c, s) && Exclusive(s) && Accounted(s) && NotForgotten(c, s)
  }
}
