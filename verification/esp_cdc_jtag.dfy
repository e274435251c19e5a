/** The transmit side of the ESP32 USB serial: requests are copied from the port's queues into two
    slots and pumped into a FIFO that takes as many bytes as it likes.  A request may be out before
    the call that started it is over, so that completions recurse. */
module EspCdcJtag {
  import opened UartMessages

  datatype ErrorCode = OK | PENDING | BUSY | FULL

  class Esp32CdcJtag {
    const slotSize: nat                    // tx_slot_size_, also the size of the data queue
    const queueSize: nat
    const accept: nat -> int               // what the n-th write to the FIFO returns, cut to what it was offered
    const callback: nat -> seq<seq<Byte>>  // what the callback of the n-th completion submits
    const lastCallback: nat                // callbacks from this one on submit nothing
    const slotA: array<Byte>
    const slotB: array<Byte>

    // WritePort
    var queueInfo: seq<Request>
    var queueData: seq<Byte>
    var locked: bool
    var current: Request
    var nextId: nat
    var completions: nat

    // The driver.
    var activePtr: array?<Byte>
    var activeSize: nat
    var activeOffset: nat
    var activeInfo: Request
    var activeValid: bool
    var pendingPtr: array?<Byte>
    var pendingSize: nat
    var pendingInfo: Request
    var pendingValid: bool
    var txBusy: bool
    var inTxIsr: bool

    // The hardware.
    var txInterrupt: bool
    var writes: nat
    var wire: seq<Byte>

    // The messages in the slots and in the queue, and the record of the run.
    ghost var active: Slot
    ghost var pending: Slot
    ghost var queued: seq<Message>
    ghost var submitted: seq<Message>
    ghost var finished: seq<Request>

    /* ---------------- what is held, and where ---------------- */

    predicate Fitting(r: Request) {
      0 < r.size <= slotSize
    }

    ghost predicate Slots() {
      slotA != slotB && slotA.Length == slotSize == slotB.Length
    }

    ghost predicate ActiveTied()
      reads this`active, this`activePtr, this`activeSize, this`activeOffset, this`activeInfo, this`activeValid,
            slotA, slotB
    {
      if !activeValid then active == Free && activePtr == null && activeOffset == 0
      else
        && activePtr != null && activePtr in {slotA, slotB}
            && activeOffset <= activeSize == activeInfo.size <= activePtr.Length
        && Fitting(activeInfo) && active == Loaded(Message(activeInfo, activePtr[activeOffset..activeSize]))
    }

    ghost predicate PendingTied()
      reads this`pending, this`pendingPtr, this`pendingSize, this`pendingInfo, this`pendingValid, slotA, slotB
    {
      if !pendingValid then pending == Free
      else
        && pendingPtr != null && pendingPtr in {slotA, slotB} && pendingSize == pendingInfo.size <= pendingPtr.Length
        && Fitting(pendingInfo) && pending == Loaded(Message(pendingInfo, pendingPtr[..pendingSize]))
    }

    // The two requests in the slots never share a slot.
    ghost predicate Apart()
      reads this`activePtr, this`pendingPtr, this`pendingValid
    {
      pendingValid ==> activePtr != pendingPtr
    }

    ghost predicate QueueTied()
      reads this`queued, this`queueInfo, this`queueData
    {
      queueInfo == Infos(queued) && queueData == Bytes(queued) && Whole(queued) && forall m <- queued :: Fitting(m.info)
    }

    ghost predicate Sound()
      reads this`active, this`activePtr, this`activeSize, this`activeOffset, this`activeInfo, this`activeValid,
            this`pending, this`pendingPtr, this`pendingSize, this`pendingInfo, this`pendingValid, this`queued,
            this`queueInfo, this`queueData, slotA, slotB
    {
      Slots() && ActiveTied() && PendingTied() && Apart() && QueueTied()
    }

    // Everything submitted is on the wire or held, in order.
    ghost function Total(): seq<Byte>
      reads this`wire, this`active, this`pending, this`queued
    {
      wire + (SlotBytes(active) + (SlotBytes(pending) + Bytes(queued)))
    }

    ghost predicate Conserved()
      reads this`wire, this`active, this`pending, this`queued, this`submitted
    {
      Total() == Bytes(submitted)
    }

    // Every request is completed in turn; `now` is the one being completed.
    ghost predicate Ordered(now: seq<Request>)
      reads this`pending, this`queued, this`finished, this`submitted
    {
      finished + now + (SlotInfos(pending) + Infos(queued)) == Infos(submitted)
    }

    // Idle means empty, and a pending request means an active one; at most `slack` requests are
    // queued while the pending slot is free.
    ghost predicate Settled(slack: nat)
      reads this`txBusy, this`active, this`pending, this`queued
    {
      txBusy == active.Loaded? && (pending.Loaded? ==> active.Loaded?) && (pending.Free? ==> |queued| <= slack)
    }

    ghost predicate Armed()
      reads this`txBusy, this`txInterrupt
    {
      txBusy ==> txInterrupt
    }

    // What the port remembers of the submitter that holds its lock.
    ghost predicate Remembers()
      reads this`locked, this`current, this`submitted
    {
      locked ==> Infos(submitted) != [] && Infos(submitted)[|submitted| - 1] == current
    }

    // Between any two steps.
    ghost predicate Valid()
      reads this, slotA, slotB
    {
      Sound() && Conserved() && Ordered([]) && Settled(if locked then 1 else 0) && Armed() && Remembers() && !inTxIsr
          && Quiet()
    }

    // Callbacks stop submitting at some point.
    ghost predicate Quiet() {
      forall n :: n >= lastCallback ==> callback(n) == []
    }

    // The FIFO always takes something.
    ghost predicate Gulps() {
      forall n: nat :: accept(n) > 0
    }

    predicate Fits(b: seq<Byte>) { b != [] && |b| <= slotSize }

    /** A FIFO that always takes something, and callbacks that always submit something an empty port
        takes, for as long as they submit at all. */
    ghost predicate Endless() {
      Gulps() && queueSize > 0 && forall n: nat :: n < lastCallback ==> Insists(n)
    }

    predicate Insists(n: nat) {
      exists b <- callback(n) :: Fits(b)
    }

    // Submissions the callbacks from the n-th completion on can still make.
    ghost function Credit(n: nat): nat
      decreases lastCallback - n
    {
      if n >= lastCallback then 0 else |callback(n)| + Credit(n + 1)
    }

    // Requests that can still be started before the driver must go idle.
    ghost function Outstanding(): nat
      reads this`pending, this`queued, this`completions
    {
      (if pending.Loaded? then 1 else 0) + |queued| + Credit(completions)
    }

    /* ---------------- the queues ---------------- */

    // Takes the first request and its bytes from the queues.
    method DequeueTxToSlot(slot: array<Byte>) returns (ok: bool, size: nat, info: Request)
      requires slot.Length == slotSize && QueueTied()
      modifies this`queueInfo, this`queueData, this`queued, slot
      ensures QueueTied() && ok == (old(queued) != []) && (!ok ==> queued == [])
      ensures ok ==>
            && queued == old(queued)[1..] && info == old(queued)[0].info && Fitting(info)
            && size == info.size <= slot.Length
      ensures ok ==> old(queued)[0] == Message(info, slot[..size])
    {
      if queueInfo == [] {
        return false, 0, Request(0, 0);
      }
      ghost var m := queued[0];
      FirstOf(queued);
      assert m in queued && forall x <- queued[1..] :: x in queued;
      var peek := queueInfo[0];
      if peek.size > slotSize {
        assert false;
      }
      assert m.bytes == queueData[..peek.size];
      PopBatch(slot, peek.size);
      info := queueInfo[0];
      queueInfo := queueInfo[1..];
      queued := queued[1..];
      return true, peek.size, info;
    }

    method PopBatch(slot: array<Byte>, count: nat)
      requires count <= |queueData| && count <= slot.Length
      modifies this`queueData, slot
      ensures queueData == old(queueData)[count..] && slot[..count] == old(queueData)[..count]
    {
      var i := 0;
      while i < count
        invariant i <= count && queueData == old(queueData) && slot[..i] == queueData[..i]
      {
        slot[i] := queueData[i];
        i := i + 1;
      }
      queueData := queueData[count..];
    }

    // Where in the driver a message is held makes no difference to the order of the bytes.
    lemma MovesUp(sent: seq<Byte>, before: seq<Byte>, bytes: seq<Byte>, after: seq<Byte>)
      ensures sent + (before + ([] + (bytes + after))) == sent + (before + (bytes + after))
      ensures sent + ([] + ([] + (bytes + after))) == sent + (bytes + ([] + after))
      ensures sent + ([] + (bytes + after)) == sent + (bytes + ([] + after))
    {
      assert [] + (bytes + after) == bytes + after;
      assert [] + ([] + (bytes + after)) == bytes + after;
      assert [] + after == after;
    }

    // Always into slot A: nothing is pending then.
    method LoadActiveTxFromQueue() returns (ok: bool)
      requires Slots() && ActiveTied() && QueueTied() && !activeValid && !pendingValid && pending == Free
      modifies this`queueInfo, this`queueData, this`queued, this`activePtr, this`activeSize, this`activeInfo,
               this`activeValid, this`active, slotA
      ensures ActiveTied() && QueueTied() && ok == activeValid == active.Loaded? && activeOffset == 0
          && Total() == old(Total())
      ensures if ok then old(queued) == [active.m] + queued else old(queued) == queued == []
    {
      hide Whole, Fitting, Bytes, Infos;
      if activeValid {
        return true;
      }
      var size, info;
      ok, size, info := DequeueTxToSlot(slotA);
      if !ok {
        return false;
      }
      activeInfo := info;
      activePtr := slotA;
      activeSize := size;
      activeValid := true;
      active := Loaded(old(queued)[0]);
      FirstOf(old(queued));
      MovesUp(wire, [], active.m.bytes, Bytes(queued));
      assert slotA[0..size] == slotA[..size];
    }

    method KeepPending(slot: array<Byte>, size: nat, info: Request, ghost m: Message)
      requires slot in {slotA, slotB} && slot != activePtr && size == info.size <= slot.Length && Fitting(info)
      requires m == Message(info, slot[..size])
      modifies this`pendingPtr, this`pendingSize, this`pendingInfo, this`pendingValid, this`pending
      ensures PendingTied() && Apart() && pendingValid && pending == Loaded(m)
    {
      pendingInfo := info;
      pendingPtr := slot;
      pendingSize := size;
      pendingValid := true;
      pending := Loaded(m);
    }

    lemma NoPending()
      ensures !pendingValid && pending == Free ==> PendingTied() && Apart()
    {
    }

    lemma Marks()
      requires PendingTied() && ActiveTied() && QueueTied()
      ensures active.Loaded? == activeValid && pending.Loaded? == pendingValid && |queueInfo| == |queued|
      ensures active.Loaded? ==> active.m.info == activeInfo
    {
    }

    // Into the slot the active request does not use.
    method LoadPendingTxFromQueue() returns (ok: bool)
      requires Slots() && ActiveTied() && PendingTied() && Apart() && QueueTied() && (active.Loaded? || queued == [])
      modifies this`queueInfo, this`queueData, this`queued, this`pendingPtr, this`pendingSize, this`pendingInfo,
               this`pendingValid, this`pending, slotA, slotB
      ensures ActiveTied() && PendingTied() && Apart() && QueueTied() && Total() == old(Total())
      ensures SlotInfos(pending) + Infos(queued) == old(SlotInfos(pending) + Infos(queued))
      ensures (pending.Free? ==> queued == []) && (pending.Loaded? && old(pending.Free?) ==> active.Loaded?)
      ensures old(queued) == [] ==> queued == [] && pending == old(pending)
    {
      hide Fitting, Bytes, Infos, QueueTied, PendingTied, Apart;
      Marks();
      if pendingValid {
        return false;
      }
      var slot := slotB;
      if activePtr == slotB {
        slot := slotA;
      }
      var size, info;
      ok, size, info := DequeueTxToSlot(slot);
      assert ActiveTied();
      NoPending();
      if !ok {
        return false;
      }
      KeepPending(slot, size, info, old(queued)[0]);
      FirstOf(old(queued));
      MovesUp(wire, SlotBytes(active), pending.m.bytes, Bytes(queued));
    }

    /* ---------------- the pump ---------------- */

    // Offers bytes to the FIFO, which takes the first few of them, or none.
    method WriteTxFifo(bytes: seq<Byte>) returns (written: int)
      modifies this`writes, this`wire
      ensures writes == old(writes) + 1 && (written <= 0 && bytes != [] ==> accept(old(writes)) <= 0)
      ensures written <= |bytes| && (written <= 0 && bytes != [] ==> !Gulps())
          && wire == (if written <= 0 then old(wire) else old(wire) + bytes[..written])
    {
      written := accept(writes);
      writes := writes + 1;
      if written > |bytes| {
        written := |bytes|;
      }
      if written > 0 {
        wire := wire + bytes[..written];
      }
    }

    lemma HeadGoes(sent: seq<Byte>, bytes: seq<Byte>, count: nat, more: seq<Byte>)
      requires count <= |bytes|
      ensures sent + (bytes + more) == sent + bytes[..count] + (bytes[count..] + more)
    {
      assert bytes == bytes[..count] + bytes[count..];
    }

    // One write; true when the FIFO took nothing.
    method PumpOnce() returns (full: bool)
      requires ActiveTied() && active.Loaded? && activeOffset < activeSize
      modifies this`writes, this`wire, this`activeOffset, this`active
      ensures ActiveTied() && active.Loaded? && active.m.info == old(active.m.info) && Total() == old(Total())
      ensures if full then activeOffset == old(activeOffset) && !Gulps() && accept(old(writes)) <= 0
          else activeOffset > old(activeOffset)
      ensures writes == old(writes) + 1
    {
      hide Bytes, Infos;
      ghost var bytes := active.m.bytes;
      var written := WriteTxFifo(activePtr[activeOffset..activeSize]);
      if written <= 0 {
        return true;
      }
      HeadGoes(old(wire), bytes, written, SlotBytes(pending) + Bytes(queued));
      activeOffset := activeOffset + written;
      active := Loaded(active.m.(bytes := bytes[written..]));
      return false;
    }

    // Since the active request was at this offset and after so many writes: bytes have gone, or no
    // write took any.
    ghost predicate Advances(offset: nat, n: nat)
      reads this`activeOffset, this`activeSize, this`writes
    {
      && offset <= activeOffset < activeSize && n <= writes
      && (activeOffset == offset ==> n < writes && forall k :: n <= k < writes ==> accept(k) <= 0)
    }

    // Pumps until the FIFO is full or the request is out; true when it is out.
    method PumpTx() returns (done: bool)
      requires ActiveTied()
      modifies this`writes, this`wire, this`activeOffset, this`active, this`txBusy
      ensures ActiveTied() && active.Loaded? == old(active.Loaded?)
          && (active.Loaded? ==> active.m.info == old(active.m.info))
      ensures Total() == old(Total()) && (done ==> old(txBusy) && !txBusy) && (!done ==> txBusy == old(txBusy))
      ensures (done ==> SlotBytes(active) == [])
          && (!done && old(txBusy) ==> !Gulps() && Advances(old(activeOffset), old(writes)))
    {
      hide Total, Gulps;
      while txBusy
        invariant ActiveTied() && active.Loaded? == old(active.Loaded?)
            && (active.Loaded? ==> active.m.info == old(active.m.info))
        invariant Total() == old(Total()) && txBusy == old(txBusy) && activeOffset >= old(activeOffset)
            && writes >= old(writes)
        invariant activeOffset == old(activeOffset) ==> writes == old(writes)
        decreases activeSize - activeOffset, if txBusy then 1 else 0
      {
        if !activeValid || activePtr == null || activeOffset >= activeSize {
          txBusy := false;
          return true;
        }
        var full := PumpOnce();
        if full {
          return false;
        }
        if activeOffset >= activeSize {
          txBusy := false;
          return true;
        }
      }
      return false;
    }

    // Starts the active request; it may be out at once.
    method StartActiveTransfer() returns (ok: bool)
      requires ActiveTied() && active.Loaded? && activeOffset == 0 && !txBusy
      modifies this`writes, this`wire, this`activeOffset, this`active, this`txBusy, this`txInterrupt
      ensures ok && ActiveTied() && active.Loaded? && active.m.info == old(active.m.info) && Total() == old(Total())
      ensures txInterrupt && (!txBusy ==> SlotBytes(active) == []) && (Gulps() ==> !txBusy)
    {
      hide Total, Gulps;
      if !activeValid || activePtr == null || activeSize == 0 {
        assert false;
      }
      if txBusy {
        return true;
      }
      txBusy := true;
      activeOffset := 0;
      txInterrupt := true;
      var _ := PumpTx();
      return true;
    }

    /* ---------------- submitting and completing ---------------- */

    // A request joins the queue: its bytes, then its entry.
    method Enqueue(bytes: seq<Byte>)
      requires QueueTied() && 0 < |bytes| <= slotSize
      modifies this`queueData, this`queueInfo, this`current, this`nextId, this`queued, this`submitted
      ensures QueueTied() && current.size == |bytes|
      ensures queued == old(queued) + [Message(current, bytes)]
          && submitted == old(submitted) + [Message(current, bytes)]
    {
      hide Bytes, Infos;
      queueData := queueData + bytes;
      current := Request(nextId, |bytes|);
      nextId := nextId + 1;
      queueInfo := queueInfo + [current];
      UartMessages.OneMore(queued, Message(current, bytes));
      queued := queued + [Message(current, bytes)];
      submitted := submitted + [Message(current, bytes)];
    }

    // The port takes a request while its lock keeps other submitters out.
    method Publish(bytes: seq<Byte>) returns (ec: ErrorCode)
      requires QueueTied() && bytes != []
      modifies this`locked, this`queueData, this`queueInfo, this`current, this`nextId, this`queued, this`submitted
      ensures QueueTied() && ec == (if old(locked) then BUSY
                                    else if |old(queueInfo)| >= queueSize then FULL
                                    else if |old(queueData)| + |bytes| > slotSize then FULL else OK)
      ensures ec != OK ==> unchanged(`locked, `queueData, `queueInfo, `queued, `submitted, `current)
      ensures ec == OK ==>
            && locked && queued == old(queued) + [Message(current, bytes)]
            && submitted == old(submitted) + [Message(current, bytes)]
    {
      hide QueueTied;
      if locked {
        return BUSY;
      }
      if |queueInfo| >= queueSize {
        return FULL;
      }
      if |queueData| + |bytes| > slotSize {
        return FULL;
      }
      locked := true;
      Enqueue(bytes);
      return OK;
    }

    lemma EmptyPort()
      requires QueueTied() && queued == []
      ensures queueInfo == [] && queueData == []
    {
    }

    // A submission from a callback.  TryStartTx answers PENDING at its first test, so that the port
    // only gives up its lock again.
    method Resubmit(bytes: seq<Byte>) returns (ghost more: seq<Message>)
      requires QueueTied() && inTxIsr
      modifies this`locked, this`queueData, this`queueInfo, this`current, this`nextId, this`queued, this`submitted
      ensures QueueTied() && locked == old(locked) && |more| <= 1
      ensures queued == old(queued) + more && submitted == old(submitted) + more
          && (locked ==> more == [] && current == old(current))
      ensures Fits(bytes) && !locked && queueSize > 0 ==> queued != []
    {
      hide QueueTied;
      more := [];
      if queued == [] {
        EmptyPort();
      }
      if bytes == [] {
        return;
      }
      var ec := Publish(bytes);
      if ec == OK {
        more := [Message(current, bytes)];
        locked := false;
      }
    }

    lemma Spent(n: nat)
      requires Quiet()
      ensures Credit(n) == |callback(n)| + Credit(n + 1)
    {
      if n >= lastCallback {
        assert callback(n) == [];
      }
    }

    // Completes a request; its callback may submit others, as long as there is credit.
    method Finish(info: Request) returns (ghost more: seq<Message>)
      requires QueueTied() && inTxIsr && Quiet()
      modifies this`locked, this`queueData, this`queueInfo, this`current, this`nextId, this`queued, this`submitted,
               this`finished, this`completions
      ensures QueueTied() && locked == old(locked) && (locked ==> more == [] && current == old(current))
      ensures queued == old(queued) + more && submitted == old(submitted) + more && finished == old(finished) + [info]
      ensures Outstanding() <= old(Outstanding()) && completions == old(completions) + 1
      ensures Insists(old(completions)) && queueSize > 0 && !locked ==> queued != []
    {
      hide QueueTied, Fits;
      finished := finished + [info];
      var script := callback(completions);
      ghost var n := completions;
      completions := completions + 1;
      more := [];
      var i := 0;
      while i < |script|
        invariant i <= |script| && QueueTied() && locked == old(locked)
            && (locked ==> more == [] && current == old(current))
        invariant queued == old(queued) + more && submitted == old(submitted) + more
            && finished == old(finished) + [info]
        invariant |more| <= i && completions == n + 1
        invariant (exists k | 0 <= k < i :: Fits(script[k])) && queueSize > 0 && !locked ==> queued != []
      {
        ghost var m := Resubmit(script[i]);
        more := more + m;
        i := i + 1;
      }
      Spent(n);
    }

    // Between the parts of a completion.
    ghost predicate Handling()
      reads this`wire, this`submitted, this`active, this`activePtr, this`activeSize, this`activeOffset,
            this`activeInfo, this`activeValid, this`pending, this`pendingPtr, this`pendingSize, this`pendingInfo,
            this`pendingValid, this`queued, this`queueInfo, this`queueData, slotA, slotB
    {
      Sound() && Conserved() && Quiet()
    }

    // What a completion leaves alone for a submitter that holds the lock.
    twostate predicate LockKept()
      reads this`locked, this`submitted, this`current
    {
      locked == old(locked) && (locked ==> unchanged(`submitted, `current))
    }

    // No request is left behind: an empty active slot means that nothing waits.
    ghost predicate NoneBehind()
      reads this`txBusy, this`active, this`pending, this`queued
    {
      txBusy == active.Loaded? && (active.Free? ==> pending.Free? && queued == [])
    }

    /** Starts the active request and completes it; if it is out at once, the next one follows.  What
        is outstanding bounds the depth, and nothing else does: in the endless case completions nest
        until the callbacks submit nothing any more. */
    method StartAndReportActive()
      requires Handling() && Ordered([activeInfo]) && active.Loaded? && activeOffset == 0 && pending.Free? && !txBusy
          && inTxIsr
      modifies this, slotA, slotB
      ensures Handling() && Ordered([]) && NoneBehind() && Armed() && LockKept() && inTxIsr
      ensures old(finished) + [old(activeInfo)] <= finished
          && |finished| - |old(finished)| == completions - old(completions)
      ensures completions >= old(completions) && (Endless() && !locked ==> completions > lastCallback)
      decreases Outstanding(), 2
    {
      hide Handling, Ordered, Outstanding, Gulps, Insists;
      StartReported();
      HandlingMarks();
      if !txBusy && activeValid {
        OnTxTransferDone([]);
      }
    }

    // Its first half.
    method StartReported()
      requires Handling() && Ordered([activeInfo]) && active.Loaded? && activeOffset == 0 && pending.Free? && !txBusy
          && inTxIsr
      modifies this`writes, this`wire, this`activeOffset, this`active, this`txBusy, this`txInterrupt, this`locked,
               this`queueData, this`queueInfo, this`current, this`nextId, this`queued, this`submitted, this`finished,
               this`completions
      ensures Handling() && Ordered([]) && active.Loaded? && LockKept() && Outstanding() <= old(Outstanding())
      ensures finished == old(finished) + [activeInfo] && txInterrupt && (!txBusy ==> SlotBytes(active) == [])
          && (Gulps() ==> !txBusy)
      ensures completions == old(completions) + 1
          && (Insists(old(completions)) && queueSize > 0 && !locked ==> queued != [])
    {
      hide Handling, Ordered, Gulps, Insists, Outstanding;
      HandlingMarks();
      StartHandled();
      Report();
    }

    // Its second half: the active request is completed.
    method Report()
      requires Handling() && Ordered([activeInfo]) && active.Loaded? && inTxIsr
      modifies this`locked, this`queueData, this`queueInfo, this`current, this`nextId, this`queued, this`submitted,
               this`finished, this`completions
      ensures Handling() && Ordered([]) && LockKept() && Outstanding() <= old(Outstanding())
      ensures finished == old(finished) + [activeInfo]
      ensures completions == old(completions) + 1
          && (Insists(old(completions)) && queueSize > 0 && !locked ==> queued != [])
    {
      hide Bytes, Infos, ActiveTied, PendingTied, QueueTied, Total, Quiet, Gulps, Insists, Outstanding;
      ghost var q, all, done := queued, submitted, finished + [activeInfo];
      HeldIs(wire, active, pending, q);
      ghost var more := Finish(activeInfo);
      JoinBytes(wire, active, pending, q, all, more);
      JoinInfos(done, pending, q, all, more);
      HeldIs(wire, active, pending, q + more);
      assert finished + [] == finished;
      assert more == [] ==> all + more == all;
    }

    lemma HeldIs(w: seq<Byte>, a: Slot, p: Slot, q: seq<Message>)
      requires (w, a, p, q) == (wire, active, pending, queued)
      ensures Total() == w + (SlotBytes(a) + (SlotBytes(p) + Bytes(q)))
    {
    }

    lemma HandlingMarks()
      requires Handling()
      ensures active.Loaded? == activeValid && pending.Loaded? == pendingValid
          && (active.Loaded? ==> active.m.info == activeInfo)
      ensures !activeValid ==> activeOffset == 0
    {
      Marks();
    }

    method ClearActiveTx()
      modifies this`activePtr, this`activeSize, this`activeOffset, this`activeInfo, this`activeValid, this`active
      ensures !activeValid && active == Free && activePtr == null && activeOffset == 0
    {
      activePtr, activeSize, activeOffset, activeInfo, activeValid, active := null, 0, 0, Request(0, 0), false, Free;
    }

    method ClearPendingTx()
      modifies this`pendingPtr, this`pendingSize, this`pendingInfo, this`pendingValid, this`pending
      ensures !pendingValid && pending == Free && pendingPtr == null
    {
      pendingPtr, pendingSize, pendingInfo, pendingValid, pending := null, 0, Request(0, 0), false, Free;
    }

    // The request that is out makes room.
    method DropActive()
      requires Handling() && SlotBytes(active) == []
      modifies this`txBusy, this`activePtr, this`activeSize, this`activeOffset, this`activeInfo, this`activeValid,
               this`active
      ensures Handling() && active == Free && !activeValid && activePtr == null && activeOffset == 0 && !txBusy
    {
      hide Bytes, Infos, QueueTied, PendingTied;
      txBusy := false;
      ClearActiveTx();
      DropApart();
    }

    lemma DropApart()
      requires PendingTied() && activePtr == null
      ensures Apart()
    {
    }

    // The pending request becomes the active one, in its slot.
    method Promote()
      requires Handling() && Ordered([]) && pendingValid && active == Free && activeOffset == 0 && !activeValid
      modifies this`activePtr, this`activeSize, this`activeInfo, this`activeValid, this`active, this`pendingPtr,
               this`pendingSize, this`pendingInfo, this`pendingValid, this`pending
      ensures Handling() && Ordered([activeInfo]) && active.Loaded? && activeOffset == 0 && pending.Free?
      ensures Outstanding() == old(Outstanding()) - 1
    {
      hide Bytes, Infos, QueueTied, Credit, Fitting;
      MovesUp(wire, [], SlotBytes(pending), Bytes(queued));
      PendingIsNext();
      activePtr := pendingPtr;
      activeSize := pendingSize;
      activeInfo := pendingInfo;
      activeValid := true;
      active := pending;
      assert pendingPtr[0..pendingSize] == pendingPtr[..pendingSize];
      ClearPendingTx();
    }

    lemma PendingIsNext()
      requires Ordered([]) && pending.Loaded?
      ensures finished + [pending.m.info] + (SlotInfos(Free) + Infos(queued)) == Infos(submitted)
    {
      hide Infos;
      assert finished + [] + ([pending.m.info] + Infos(queued)) == finished + [pending.m.info] + ([] + Infos(queued));
    }

    lemma QueuedIsNext()
      requires Ordered([]) && pending == Free && queued != []
      ensures finished + [queued[0].info] + (SlotInfos(Free) + Infos(queued[1..])) == Infos(submitted)
    {
      FirstOf(queued);
      ghost var first, rest := [queued[0].info], Infos(queued[1..]);
      assert finished + [] + ([] + (first + rest)) == finished + first + ([] + rest);
    }

    // The first queued request becomes the active one.
    method TakeQueued(ghost now: seq<Request>) returns (ok: bool)
      requires Handling() && Ordered(now) && (now == [] || NoneWaits()) && !pendingValid && active == Free
          && activeOffset == 0 && !activeValid
      modifies this`queueInfo, this`queueData, this`queued, this`activePtr, this`activeSize, this`activeInfo,
               this`activeValid, this`active, slotA
      ensures Handling() && ok == active.Loaded? == (old(queued) != []) && activeOffset == 0 && pending.Free?
      ensures if ok then now == [] && activeInfo == old(queued)[0].info && Ordered([activeInfo])
          && Outstanding() == old(Outstanding()) - 1 else Ordered(now) && queued == []
    {
      hide Bytes, Infos, QueueTied, Credit, Fitting, Total;
      ghost var q := queued;
      if q != [] {
        QueuedIsNext();
      }
      ok := LoadActiveTxFromQueue();
      NoPending();
      if ok {
        assert q[0] == active.m && q[1..] == queued;
      }
    }

    ghost predicate NoneWaits()
      reads this`pending, this`queued
    {
      pending.Free? && queued == []
    }

    /** A transfer is over: everything that can be started is, however deep completions nest, and
        every request started is completed, in order.  The depth is bounded by what is outstanding.
        A request in `now` is left to the port to complete; nothing waits behind it. */
    method OnTxTransferDone(ghost now: seq<Request>)
      requires Handling() && Ordered(now) && (now == [] || NoneWaits()) && SlotBytes(active) == []
      modifies this, slotA, slotB
      ensures Handling() && Ordered(now) && Settled(0) && Armed() && LockKept() && inTxIsr == old(inTxIsr)
      ensures old(finished) <= finished
          && (old(NoneWaits()) ==> NoneWaits() && unchanged(`finished, `submitted, `current))
      ensures |finished| - |old(finished)| == completions - old(completions)
          && (if old(NoneWaits()) then !txBusy else completions > old(completions))
      ensures completions >= old(completions)
          && (Endless() && !locked && !old(NoneWaits()) ==> completions > lastCallback)
      decreases Outstanding(), 1
    {
      hide Handling, Ordered, Outstanding, Endless, Settled, Armed, NoneBehind;
      var was := inTxIsr;
      inTxIsr := true;
      StartNext(now);
      SettleTx(now);
      inTxIsr := was;
    }

    // Its end: the slot behind is filled, or the transmitter stops.
    method SettleTx(ghost now: seq<Request>)
      requires Handling() && Ordered(now) && NoneBehind() && Armed()
      modifies this`queueInfo, this`queueData, this`queued, this`pendingPtr, this`pendingSize, this`pendingInfo,
               this`pendingValid, this`pending, this`txInterrupt, slotA, slotB
      ensures Handling() && Ordered(now) && Settled(0) && Armed() && (old(NoneWaits()) ==> NoneWaits())
    {
      hide Handling, Ordered;
      TopUpPending(now);
      if !txBusy && !activeValid && !pendingValid {
        StopTxTransfer();
      }
    }

    // Its middle part: the slot is cleared, and the next request in line takes it and starts.
    method StartNext(ghost now: seq<Request>)
      requires Handling() && Ordered(now) && (now == [] || NoneWaits())
      requires SlotBytes(active) == [] && inTxIsr
      modifies this, slotA, slotB
      ensures Handling() && Ordered(now) && NoneBehind() && Armed() && LockKept() && inTxIsr
      ensures old(finished) <= finished
          && (old(NoneWaits()) ==> NoneWaits() && unchanged(`finished, `submitted, `current))
      ensures |finished| - |old(finished)| == completions - old(completions)
          && (if old(NoneWaits()) then !txBusy else completions > old(completions))
      ensures completions >= old(completions)
          && (Endless() && !locked && !old(NoneWaits()) ==> completions > lastCallback)
      decreases Outstanding(), 0
    {
      hide Handling, Ordered, Outstanding, Endless;
      DropActive();
      HandlingMarks();
      if pendingValid {
        Promote();
        StartAndReportActive();
      } else {
        var ok := TakeQueued(now);
        if ok {
          StartAndReportActive();
        }
      }
    }

    method TopUpPending(ghost now: seq<Request>)
      requires Handling() && Ordered(now) && (active.Loaded? || queued == [])
      modifies this`queueInfo, this`queueData, this`queued, this`pendingPtr, this`pendingSize, this`pendingInfo,
               this`pendingValid, this`pending, slotA, slotB
      ensures Handling() && Ordered(now) && activeValid == active.Loaded? && pendingValid == pending.Loaded?
      ensures (pending.Free? ==> queued == []) && (pending.Loaded? && old(pending.Free?) ==> active.Loaded?)
      ensures old(queued) == [] && old(pending.Free?) ==> queued == [] && pending.Free?
    {
      hide ActiveTied, PendingTied, QueueTied, Bytes, Infos, Total, Apart;
      Marks();
      if !pendingValid {
        var _ := LoadPendingTxFromQueue();
      }
      Marks();
    }

    method StopTxTransfer()
      modifies this`txInterrupt
      ensures !txInterrupt
    {
      txInterrupt := false;
    }

    /** The driver's part of a submission.  OK means that a request was started, perhaps sent, and
        that it was the only one there was. */
    method TryStartTx() returns (ans: ErrorCode)
      requires Handling() && Ordered([]) && (!inTxIsr ==> Settled(1) && Armed())
      modifies this, slotA, slotB
      ensures Handling() && ans in {OK, PENDING} && unchanged(`finished, `submitted, `current, `locked, `inTxIsr)
      ensures inTxIsr ==> ans == PENDING && unchanged(this)
      ensures !inTxIsr ==> Settled(0) && Armed() && (ans == OK <==> !old(txBusy) && old(queued) != [])
      ensures if ans == OK then old(pending.Free?) && |old(queued)| == 1 && Ordered([old(queued)[0].info])
          && NoneWaits() else Ordered([])
    {
      hide Handling, Ordered;
      if inTxIsr {
        return PENDING;
      }
      HandlingMarks();
      if !activeValid {
        var _ := TakeQueued([]);
        HandlingMarks();
      }
      if !txBusy && activeValid {
        ghost var now := [activeInfo];
        StartAlone(now);
        TopUpPending(now);
        return OK;
      }
      TopUpPending([]);
      return PENDING;
    }

    // Starts the one request there is; its completion is the port's business.
    method StartAlone(ghost now: seq<Request>)
      requires Handling() && Ordered(now) && active.Loaded? && activeOffset == 0 && NoneWaits() && !txBusy
      modifies this, slotA, slotB
      ensures Handling() && Ordered(now) && Settled(0) && Armed() && NoneWaits()
      ensures unchanged(`finished, `submitted, `current, `locked, `inTxIsr)
    {
      hide Handling, Ordered;
      StartHandled();
      HandlingMarks();
      if !txBusy && activeValid {
        OnTxTransferDone(now);
      }
    }

    method StartHandled()
      requires Handling() && active.Loaded? && activeOffset == 0 && !txBusy
      modifies this`writes, this`wire, this`activeOffset, this`active, this`txBusy, this`txInterrupt
      ensures Handling() && active.Loaded? && txInterrupt && (!txBusy ==> SlotBytes(active) == [])
          && (Gulps() ==> !txBusy)
    {
      hide PendingTied, QueueTied, Total, Apart, Quiet, Gulps;
      var _ := StartActiveTransfer();
    }

    /** The rest of a submission: the port calls the driver, gives up its lock and completes the
        request it has just accepted when the answer is OK.  That is then the request that was
        started, and every earlier one is complete. */
    method Call() returns (ans: ErrorCode)
      requires Valid() && locked
      modifies this, slotA, slotB
      ensures Valid() && !locked && ans in {OK, PENDING}
      ensures ans == OK <==> !old(txBusy) && old(queued) != []
      ensures finished == if ans == OK then old(finished) + [current] else old(finished)
      ensures ans == OK ==> finished == Infos(submitted)
    {
      hide Sound, Total, Quiet, Infos;
      ghost var q := queued;
      ans := TryStartTx();
      locked := false;
      if ans != PENDING {
        LastAlone(q[0].info);
        finished := finished + [current];
        assert finished + [] == finished;
      }
    }

    lemma LastAlone(r: Request)
      requires Ordered([r]) && NoneWaits()
      ensures Infos(submitted) == finished + [r]
    {
      assert finished + [r] + ([] + []) == finished + [r];
    }

    /** The first half of a submission: the request joins the queue, or the port is taken or full.
        Interrupts may come before Call, the other half. */
    method Submit(bytes: seq<Byte>) returns (ec: ErrorCode)
      requires Valid() && bytes != []
      modifies this`locked, this`queueData, this`queueInfo, this`current, this`nextId, this`queued, this`submitted
      ensures Valid() && (ec == BUSY <==> old(locked)) && (ec == OK ==> locked)
      ensures if ec == OK then |submitted| > 0 && submitted == old(submitted) + [Message(current, bytes)]
          else submitted == old(submitted)
    {
      hide QueueTied, ActiveTied, PendingTied, Apart, Slots, Bytes, Infos, Total, Quiet;
      ghost var q, all := queued, submitted;
      HeldIs(wire, active, pending, q);
      ec := Publish(bytes);
      if ec == OK {
        ghost var m := Message(current, bytes);
        JoinBytes(wire, active, pending, q, all, [m]);
        JoinInfos(finished + [], pending, q, all, [m]);
        HeldIs(wire, active, pending, queued);
        UartMessages.OneMore(all, m);
      }
    }

    /* ---------------- interrupts and whole runs ---------------- */

    method HandleInterrupt(inEmpty: bool)
      requires Valid()
      modifies this, slotA, slotB
      ensures Valid() && old(finished) <= finished && locked == old(locked)
      ensures |finished| - |old(finished)| == completions - old(completions) >= 0
      ensures inEmpty && txBusy && completions == old(completions) ==>
                activeSize == old(activeSize) && Advances(old(activeOffset), old(writes))
    {
      hide Sound, Total, Quiet, Infos, Bytes;
      if !inEmpty {
        return;
      }
      var was := inTxIsr;
      inTxIsr := true;
      var wasBusy := txBusy;
      PumpHandled();
      if wasBusy && !txBusy {
        OnTxTransferDone([]);
      }
      inTxIsr := was;
    }

    method PumpHandled()
      requires Handling()
      modifies this`writes, this`wire, this`activeOffset, this`active, this`txBusy
      ensures Handling() && active.Loaded? == old(active.Loaded?) && (txBusy ==> old(txBusy))
      ensures old(txBusy) && !txBusy ==> SlotBytes(active) == []
      ensures txBusy ==> Advances(old(activeOffset), old(writes)) && activeSize == old(activeSize)
    {
      hide PendingTied, QueueTied, Total, Apart, Quiet;
      var _ := PumpTx();
    }

    constructor (slotSize: nat, queueSize: nat, accept: nat -> int, callback: nat -> seq<seq<Byte>>, lastCallback: nat)
      requires forall n :: n >= lastCallback ==> callback(n) == []
      ensures Valid() && submitted == [] && !locked && fresh(slotA) && fresh(slotB)
    {
      this.slotSize, this.queueSize, this.accept, this.callback, this.lastCallback := slotSize, queueSize, accept,
          callback, lastCallback;
      slotA, slotB := new Byte[slotSize], new Byte[slotSize];
      queueInfo, queueData, locked, current, nextId, completions := [], [], false, Request(0, 0), 0, 0;
      activePtr, activeSize, activeOffset, activeInfo, activeValid := null, 0, 0, Request(0, 0), false;
      pendingPtr, pendingSize, pendingInfo, pendingValid := null, 0, Request(0, 0), false;
      txBusy, inTxIsr, txInterrupt, writes, wire := false, false, false, 0, [];
      active, pending, queued, submitted, finished := Free, Free, [], [], [];
    }

    lemma IdleMeansDone()
      requires Valid() && !txBusy && !locked
      ensures wire == Bytes(submitted) && finished == Infos(submitted)
    {
      assert wire + ([] + ([] + [])) == wire;
      assert finished + [] + ([] + []) == finished;
    }

    // The writes that take something.
    function Taking(): nat -> bool { (n: nat) => accept(n) > 0 }

    /** Interrupts that keep coming bring the driver to rest: after finitely many of them it is idle, with
        everything submitted sent and completed in order unless a submitter is in between; or more than
        `bound` requests have been submitted, whatever the bound. */
    method RunDry(bound: nat)
      requires Valid() && Recurs(Taking())
      modifies this, slotA, slotB
      ensures Valid() && locked == old(locked) && (!txBusy || |submitted| > bound)
      ensures !txBusy && !locked ==> wire == Bytes(submitted) && finished == Infos(submitted)
    {
      hide Sound, Conserved, Ordered, Settled, Armed, Quiet, Recurs, Bytes, Infos;
      var start := completions;
      ghost var ended := |finished|;
      while txBusy && completions - start <= bound
        invariant Valid() && locked == old(locked) && completions >= start
            && |finished| == ended + (completions - start)
        decreases bound + 1 - (completions - start), txBusy, activeSize - activeOffset, Due(Taking(), writes) - writes
      {
        ghost var n, offset := writes, activeOffset;
        HandleInterrupt(true);
        if Advances(offset, n) && activeOffset == offset {
          SameDue(Taking(), n, writes);
        }
      }
      AllFinished();
      if !txBusy && !locked {
        IdleMeansDone();
      }
    }

    lemma AllFinished()
      requires Valid()
      ensures |finished| <= |submitted|
    {
      assert |Infos(submitted)| == |submitted|;
    }

    /** Any run: submissions, their calls and interrupts in any order, with callbacks that submit
        anything and a FIFO that takes any part of what it is offered.  Whenever the driver is idle
        and no submitter is in between, everything submitted is on the wire, in order, and has been
        completed, in order, exactly once. */
    method Run(steps: seq<Step>)
      requires Valid()
      modifies this, slotA, slotB
      ensures Valid()
      ensures !txBusy && !locked ==> wire == Bytes(submitted) && finished == Infos(submitted)
    {
      hide Valid;
      var i := 0;
      while i < |steps|
        invariant i <= |steps| && Valid()
      {
        match steps[i] {
          case Submit(bytes) =>
            if bytes != [] {
              var _ := Submit(bytes);
            }
          case Proceed =>
            if locked {
              var _ := Call();
            }
          case InEmpty => HandleInterrupt(true);
        }
        i := i + 1;
      }
      if !txBusy && !locked {
        IdleMeansDone();
      }
    }
  }

  datatype Step = Submit(bytes: seq<Byte>) | Proceed | InEmpty
}
