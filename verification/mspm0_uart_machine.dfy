/** The transmit wake-up of the MSPM0 UART as an interleaving machine.  A submitter pushes bytes, then
    the request, then enables the TX interrupt and sets its status; the handler pops a request, and
    when there is none disables the interrupt, clears its status and looks at the queue once more.
    The steps of the submitters, of the handler and of the hardware interleave freely. */
module Mspm0UartMachine {
  import opened UartMessages

  // The TX status is raised when the FIFO drains to `threshold`.
  datatype Config = Config(fifoSize: nat, threshold: nat, queueSize: nat, bufferSize: nat)

  // Where the one submitter that holds the port's lock stands.
  datatype Submitter =
    | Ready                       // nobody in between
    | DataPushed(m: Message)      // bytes pushed, about to push the request
    | InfoPushed                  // about to enable the TX interrupt
    | EnabledTx                   // about to set its status

  datatype Pc =
    | Off                         // handler not running
    | Loop                        // head of the outer loop
    | Fill                        // head of the inner loop
    | PopByte
    | Transmit(b: Byte)
    | Complete                    // the request is out, about to be finished
    | Disable                     // queue seen empty, about to disable the interrupt
    | ClearStatus
    | ClearNvic
    | CheckSize                   // about to look at the queue once more
    | ReEnable
    | ReSet
    | Failed                      // the branch that finds bytes missing

  datatype State = State(
    infos: seq<Request>, data: seq<Byte>,   // WritePort
    sub: Submitter, budget: nat, nextId: nat,
    pc: Pc, activeValid: bool, activeInfo: Request, remaining: nat,
    im: bool, ris: bool, fifo: nat,         // interrupt mask, raw status, bytes in the TX FIFO
    wire: seq<Byte>,                        // bytes written to the FIFO
    submitted: seq<Message>, finished: seq<Request>)

  datatype Step =
    | Submit(bytes: seq<Byte>)    // PushBatch of the bytes
    | Proceed                     // the submitter's next access
    | Handle                      // the handler's next access, or its start
    | Drain                       // a byte leaves the FIFO
    | Lower                       // the hardware lowers the status of a FIFO above its threshold

  function Init(budget: nat): State {
    State([], [], Ready, budget, 0, Off, false, Request(0, 0), 0, false, false, 0, [], [], [])
  }

  predicate Enabled(c: Config, s: State, step: Step) {
    match step
    case Submit(bytes) =>
      && s.sub.Ready? && s.budget > 0 && bytes != []
      && |s.infos| < c.queueSize && |s.data| + |bytes| <= c.bufferSize
    case Proceed => !s.sub.Ready?
    case Handle => !s.pc.Failed? && (s.pc.Off? ==> s.im && s.ris)
    case Drain => s.fifo > 0
    case Lower => s.fifo > c.threshold
  }

  function Submitted(s: State): State {
    match s.sub
    case Ready => s
    case DataPushed(m) => s.(infos := s.infos + [m.info], submitted := s.submitted + [m], sub := InfoPushed)
    case InfoPushed => s.(im := true, sub := EnabledTx)
    case EnabledTx => s.(ris := true, sub := Ready)
  }

  // HandleTxInterrupt, one access at a time.
  function Handled(c: Config, s: State): State {
    match s.pc
    case Off => s.(pc := Loop)
    case Loop =>
      if s.activeValid then s.(pc := Fill)
      else if s.infos == [] then s.(pc := Disable)
      else s.(infos := s.infos[1..], activeInfo := s.infos[0], remaining := s.infos[0].size, activeValid := true,
          pc := Fill)
    case Fill => s.(pc := if s.remaining == 0 then Complete else if s.fifo >= c.fifoSize then Off else PopByte)
    case PopByte => if s.data == [] then s.(pc := Failed) else s.(data := s.data[1..], pc := Transmit(s.data[0]))
    case Transmit(b) =>
      var left := if s.remaining > 0 then s.remaining - 1 else 0;
      s.(wire := s.wire + [b], fifo := s.fifo + 1, remaining := left, pc := Fill)
    case Complete => s.(finished := s.finished + [s.activeInfo], activeValid := false, remaining := 0, pc := Loop)
    case Disable => s.(im := false, pc := ClearStatus)
    case ClearStatus => s.(ris := false, pc := ClearNvic)
    case ClearNvic => s.(pc := CheckSize)  // the line stays up while an enabled status does
    case CheckSize => s.(pc := if |s.infos| > 0 then ReEnable else Off)
    case ReEnable => s.(im := true, pc := ReSet)
    case ReSet => s.(ris := true, pc := Off)
    case Failed => s
  }

  function Apply(c: Config, s: State, step: Step): State
    requires Enabled(c, s, step)
  {
    match step
    case Submit(bytes) =>
      var m := Message(Request(s.nextId, |bytes|), bytes);
      s.(data := s.data + bytes, sub := DataPushed(m), nextId := s.nextId + 1, budget := s.budget - 1)
    case Proceed => Submitted(s)
    case Handle => Handled(c, s)
    case Drain => s.(fifo := s.fifo - 1, ris := s.ris || s.fifo - 1 <= c.threshold)
    case Lower => s.(ris := false)
  }

  ghost predicate Next(c: Config, s: State, t: State) {
    exists step :: Enabled(c, s, step) && Apply(c, s, step) == t
  }

  ghost predicate IsRun(c: Config, run: seq<State>) {
    forall k :: 0 <= k < |run| - 1 ==> Next(c, run[k], run[k + 1])
  }

  /* ---------------- the invariant ---------------- */

  // Bytes pushed ahead of their request, and the byte in the handler's hand.
  function Ahead(s: State): seq<Byte> { if s.sub.DataPushed? then s.sub.m.bytes else [] }

  function InHand(s: State): seq<Byte> { if s.pc.Transmit? then [s.pc.b] else [] }

  function Active(s: State): seq<Request> { if s.activeValid then [s.activeInfo] else [] }

  function Sizes(q: seq<Request>): nat {
    if q == [] then 0 else q[0].size + Sizes(q[1..])
  }

  // Every byte accepted is on the wire, in the handler's hand or in the queue, in order.
  ghost predicate BytesKept(s: State) {
    s.wire + (InHand(s) + s.data) == Bytes(s.submitted) + Ahead(s)
  }

  // Requests are finished in order, one at a time.
  ghost predicate InOrder(s: State) {
    s.finished + (Active(s) + s.infos) == Infos(s.submitted)
  }

  // The queue of bytes holds what the active request still needs, and everything behind it.
  ghost predicate Counted(s: State) {
    && |InHand(s)| + |s.data| == s.remaining + Sizes(s.infos) + |Ahead(s)|
    && (!s.activeValid ==> s.remaining == 0) && (s.activeValid ==> s.remaining <= s.activeInfo.size)
    && Whole(s.submitted) && (s.sub.DataPushed? ==> |s.sub.m.bytes| == s.sub.m.info.size)
  }

  // An interrupt is pending or will be when the FIFO drains.
  predicate Woken(c: Config, s: State) {
    s.im && (s.ris || s.fifo > c.threshold)
  }

  predicate PcOk(c: Config, s: State) {
    && s.fifo <= c.fifoSize && !s.pc.Failed?
    && (s.pc.PopByte? || s.pc.Transmit? ==> s.activeValid && s.remaining > 0 && s.fifo < c.fifoSize)
    && (s.pc.Fill? || s.pc.Complete? ==> s.activeValid) && (s.pc.Complete? ==> s.remaining == 0)
    && (s.pc.Disable? || s.pc.ClearStatus? || s.pc.ClearNvic? || s.pc.CheckSize? || s.pc.ReEnable? || s.pc.ReSet? ==>
        !s.activeValid)
    && (s.pc.Off? && s.activeValid ==> s.remaining > 0)
  }

  predicate InLoop(pc: Pc) { pc.Loop? || pc.Fill? || pc.PopByte? || pc.Transmit? || pc.Complete? }

  // Nothing to send is ever left without an interrupt to come, a handler at work or a submitter in between.
  predicate Awake(c: Config, s: State) {
    && (InLoop(s.pc) ==> Woken(c, s))
    && (s.pc.ReSet? ==> s.im)
    && (s.pc.Off? && s.activeValid ==> Woken(c, s))
    && (s.pc.Off? && s.infos != [] && s.sub.EnabledTx? ==> s.im)
    && (s.pc.Off? && s.infos != [] && !s.sub.InfoPushed? && !s.sub.EnabledTx? ==> Woken(c, s))
  }

  ghost predicate Inv(c: Config, s: State) {
    c.threshold < c.fifoSize && BytesKept(s) && InOrder(s) && Counted(s) && PcOk(c, s) && Awake(c, s)
  }

  /* ---------------- preservation ---------------- */

  lemma InitInv(c: Config, budget: nat)
    requires c.threshold < c.fifoSize
    ensures Inv(c, Init(budget))
  {
  }

  lemma {:induction false} SizesAppend(q: seq<Request>, r: Request)
    ensures Sizes(q + [r]) == Sizes(q) + r.size
  {
    if q == [] {
      assert q + [r] == [r];
    } else {
      assert (q + [r])[1..] == q[1..] + [r];
      SizesAppend(q[1..], r);
    }
  }

  lemma SubmitKeeps(c: Config, s: State, bytes: seq<Byte>)
    requires Inv(c, s) && Enabled(c, s, Submit(bytes))
    ensures Inv(c, Apply(c, s, Submit(bytes)))
  {
    hide Bytes, Infos, Sizes, Whole;
    assert s.wire + (InHand(s) + (s.data + bytes)) == s.wire + (InHand(s) + s.data) + bytes;
    assert Bytes(s.submitted) + [] + bytes == Bytes(s.submitted) + bytes;
  }

  lemma PushKeepsBytesAndOrder(s: State)
    requires s.sub.DataPushed? && BytesKept(s) && InOrder(s)
    ensures BytesKept(Submitted(s)) && InOrder(Submitted(s))
  {
    hide Bytes, Infos;
    OneMore(s.submitted, s.sub.m);
    assert Bytes(s.submitted) + s.sub.m.bytes + [] == Bytes(s.submitted) + s.sub.m.bytes;
    assert s.finished + (Active(s) + (s.infos + [s.sub.m.info])) == s.finished + (Active(s) + s.infos) + [s.sub.m.info];
  }

  lemma PushKeepsCount(s: State)
    requires s.sub.DataPushed? && Counted(s)
    ensures Counted(Submitted(s))
  {
    hide Sizes;
    SizesAppend(s.infos, s.sub.m.info);
  }

  lemma PushKeeps(c: Config, s: State)
    requires Inv(c, s) && s.sub.DataPushed?
    ensures Inv(c, Submitted(s))
  {
    PushKeepsBytesAndOrder(s);
    PushKeepsCount(s);
    hide BytesKept, InOrder, Counted;
  }

  // Enabling the interrupt and setting its status touch nothing else.
  lemma RaiseKeeps(c: Config, s: State)
    requires Inv(c, s) && (s.sub.InfoPushed? || s.sub.EnabledTx?)
    ensures Inv(c, Submitted(s))
  {
    hide Bytes, Infos, Sizes, Whole;
  }

  lemma ProceedKeeps(c: Config, s: State)
    requires Inv(c, s) && Enabled(c, s, Proceed)
    ensures Inv(c, Apply(c, s, Proceed))
  {
    hide Inv, Submitted;
    if s.sub.DataPushed? {
      PushKeeps(c, s);
    } else {
      RaiseKeeps(c, s);
    }
  }

  lemma HandleKeepsBytes(c: Config, s: State)
    requires Inv(c, s) && Enabled(c, s, Handle)
    ensures BytesKept(Handled(c, s))
  {
    hide Bytes, Infos, Sizes, Whole;
    if s.pc.PopByte? && s.data != [] {
      assert [] + s.data == [s.data[0]] + s.data[1..];
    }
    if s.pc.Transmit? {
      assert s.wire + ([s.pc.b] + s.data) == s.wire + [s.pc.b] + ([] + s.data);
    }
  }

  lemma HandleKeepsOrder(c: Config, s: State)
    requires Inv(c, s) && Enabled(c, s, Handle)
    ensures InOrder(Handled(c, s))
  {
    hide Bytes, Infos, Sizes, Whole;
    if s.pc.Loop? && !s.activeValid && s.infos != [] {
      assert [] + s.infos == [s.infos[0]] + s.infos[1..];
    }
    if s.pc.Complete? {
      assert s.finished + ([s.activeInfo] + s.infos) == s.finished + [s.activeInfo] + ([] + s.infos);
    }
  }

  lemma HandleKeepsCount(c: Config, s: State)
    requires Inv(c, s) && Enabled(c, s, Handle)
    ensures Counted(Handled(c, s))
  {
    hide Bytes, Infos, Whole, Awake, InOrder, BytesKept;
  }

  // In particular the byte to be popped is always there.
  lemma HandleKeepsPlace(c: Config, s: State)
    requires Inv(c, s) && Enabled(c, s, Handle)
    ensures PcOk(c, Handled(c, s))
  {
    hide Bytes, Infos, Whole, Awake, InOrder, BytesKept, Sizes;
  }

  lemma HandleKeepsAwake(c: Config, s: State)
    requires Inv(c, s) && Enabled(c, s, Handle)
    ensures Awake(c, Handled(c, s))
  {
    hide Counted, InOrder, BytesKept;
  }

  lemma HardwareKeeps(c: Config, s: State, step: Step)
    requires Inv(c, s) && Enabled(c, s, step) && (step.Drain? || step.Lower?)
    ensures Inv(c, Apply(c, s, step))
  {
    hide Bytes, Infos, Sizes, Whole;
  }

  lemma NextInv(c: Config, s: State, t: State)
    requires Inv(c, s) && Next(c, s, t)
    ensures Inv(c, t)
  {
    hide Inv;
    var step :| Enabled(c, s, step) && Apply(c, s, step) == t;
    match step
    case Submit(bytes) => SubmitKeeps(c, s, bytes);
    case Proceed => ProceedKeeps(c, s);
    case Handle => HandleInv(c, s);
    case _ => HardwareKeeps(c, s, step);
  }

  lemma HandleInv(c: Config, s: State)
    requires Inv(c, s) && Enabled(c, s, Handle)
    ensures Inv(c, Apply(c, s, Handle))
  {
    HandleKeepsBytes(c, s);
    HandleKeepsOrder(c, s);
    HandleKeepsCount(c, s);
    HandleKeepsPlace(c, s);
    HandleKeepsAwake(c, s);
  }

  /* ---------------- the theorems ---------------- */

  lemma {:induction false} RunInv(c: Config, budget: nat, run: seq<State>, k: nat)
    requires c.threshold < c.fifoSize && IsRun(c, run) && k < |run| && run[0] == Init(budget)
    ensures Inv(c, run[k])
  {
    if k == 0 {
      InitInv(c, budget);
    } else {
      RunInv(c, budget, run, k - 1);
      NextInv(c, run[k - 1], run[k]);
    }
  }

  /** No lost wake-up: in every state of every run, a request that waits while no submitter is in
      between and the handler does not run has the interrupt enabled, and its status up or a FIFO
      that will raise it when it drains.  The same goes for a request half sent. */
  lemma NoLostWakeUp(c: Config, budget: nat, run: seq<State>, k: nat)
    requires c.threshold < c.fifoSize && IsRun(c, run) && k < |run| && run[0] == Init(budget)
    ensures var s := run[k];
            && (s.pc.Off? && (s.activeValid || (s.infos != [] && s.sub.Ready?)) ==>
                  s.im && (s.ris || s.fifo > c.threshold))
            && !s.pc.Failed?
  {
    RunInv(c, budget, run, k);
  }

  // Nothing can happen any more but new submissions.
  ghost predicate Stuck(c: Config, s: State) {
    forall step :: Enabled(c, s, step) ==> step.Submit?
  }

  /** When nothing is left to happen, everything submitted is on the wire, in order, and finished. */
  lemma StuckMeansSent(c: Config, budget: nat, run: seq<State>, k: nat)
    requires c.threshold < c.fifoSize && IsRun(c, run) && k < |run| && run[0] == Init(budget)
    requires Stuck(c, run[k])
    ensures run[k].wire == Bytes(run[k].submitted) && run[k].finished == Infos(run[k].submitted)
  {
    RunInv(c, budget, run, k);
    var s := run[k];
    assert !Enabled(c, s, Proceed) && !Enabled(c, s, Handle) && !Enabled(c, s, Drain);
    AllQuiet(c, s);
  }

  lemma AllQuiet(c: Config, s: State)
    requires Inv(c, s) && s.sub.Ready? && s.pc.Off? && !(s.im && s.ris) && s.fifo == 0
    ensures s.wire == Bytes(s.submitted) && s.finished == Infos(s.submitted)
  {
    assert s.infos == [] && !s.activeValid;
    assert s.data == [];
    assert s.wire + ([] + []) == s.wire && Bytes(s.submitted) + [] == Bytes(s.submitted);
    assert s.finished + ([] + []) == s.finished;
  }

  lemma {:induction false} WholeSizes(ms: seq<Message>)
    requires Whole(ms)
    ensures |Bytes(ms)| == Sizes(Infos(ms))
  {
    if ms != [] {
      assert ms[0] in ms && forall m <- ms[1..] :: m in ms;
      WholeSizes(ms[1..]);
      assert Infos(ms)[1..] == Infos(ms[1..]);
    }
  }

  lemma {:induction false} SizesConcat(a: seq<Request>, b: seq<Request>)
    ensures Sizes(a + b) == Sizes(a) + Sizes(b)
  {
    if a == [] {
      assert a + b == b;
    } else {
      assert (a + b)[0] == a[0] && (a + b)[1..] == a[1..] + b;
      SizesConcat(a[1..], b);
    }
  }

  // Everything on the wire belongs to the finished requests and to the one being sent.
  lemma WireLength(c: Config, s: State)
    requires Inv(c, s)
    ensures |s.wire| + s.remaining == Sizes(s.finished) + Sizes(Active(s))
  {
    WholeSizes(s.submitted);
    SizesConcat(Active(s), s.infos);
    SizesConcat(s.finished, Active(s) + s.infos);
    assert |s.wire + (InHand(s) + s.data)| == |Bytes(s.submitted)| + |Ahead(s)|;
  }

  lemma {:induction false} FirstInfos(ms: seq<Message>, n: nat)
    requires n <= |ms|
    ensures Infos(ms[..n]) == Infos(ms)[..n]
  {
    if n > 0 {
      assert ms[..n][1..] == ms[1..][..n - 1];
      FirstInfos(ms[1..], n - 1);
    }
  }

  /** A request is finished only when the last of its bytes has been written: the bytes of the
      requests finished so far are the first bytes on the wire. */
  lemma FinishedMeansWritten(c: Config, s: State)
    requires Inv(c, s)
    ensures |s.finished| <= |s.submitted| && Bytes(s.submitted[..|s.finished|]) <= s.wire
  {
    var n := |s.finished|;
    assert |Infos(s.submitted)| == n + |Active(s)| + |s.infos|;
    var first, rest := s.submitted[..n], s.submitted[n..];
    assert s.submitted == first + rest;
    FirstInfos(s.submitted, n);
    assert Infos(first) == s.finished;
    assert forall m <- first :: m in s.submitted;
    WholeSizes(first);
    WireLength(c, s);
    BytesConcat(first, rest);
    assert |Bytes(first)| <= |s.wire|;
    PrefixOfBoth(Bytes(first), Bytes(rest) + Ahead(s), s.wire, InHand(s) + s.data);
  }

  lemma PrefixOfBoth(a: seq<Byte>, b: seq<Byte>, w: seq<Byte>, d: seq<Byte>)
    requires w + d == a + b && |a| <= |w|
    ensures a <= w
  {
    assert w == (a + b)[..|w|];
  }
}
