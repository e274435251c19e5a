/** The transmit side of the ESP32 UART: a request queue, a pending slot and an active slot in
    front of a FIFO that is filled from the data queue, or of a DMA channel that is fed from copies. */
module EspUart {
  import opened UartMessages

  datatype ErrorCode = OK | PENDING | BUSY | FULL | FAILED

  const DMA_MAX := 4095  // DMA_MAX_BUFFER_SIZE_PER_LINK_ITEM

  class Esp32Uart {
    const dma: bool                        // dma_backend_enabled_
    const bufferSize: nat                  // tx_buffer_size_, also the size of the data queue
    const queueSize: nat
    const room: nat -> nat                 // free space of the TX FIFO at the n-th look
    const starts: nat -> bool              // whether the n-th start of the DMA channel succeeds
    const callback: nat -> seq<seq<Byte>>  // what the callback of the n-th completion submits

    // WritePort
    var queueInfo: seq<Request>
    var queueData: seq<Byte>
    var locked: bool                       // busy_
    var current: Request                   // the request whose submitter holds the lock
    var nextId: nat
    var completions: nat                   // callbacks run from the interrupt so far

    // The driver.
    var activeBuffer: array<Byte>
    var pendingBuffer: array<Byte>
    var activeLength: nat
    var pendingLength: nat
    var activeOffset: nat
    var activeInfo: Request
    var pendingInfo: Request
    var txBusy: bool
    var inTxIsr: bool
    var activeValid: bool
    var pendingValid: bool

    // The hardware.
    const mounted: array<Byte>             // the buffer of DMA link 0; link 1 has the other one
    const mountedToo: array<Byte>
    var dmaLink: nat
    var dmaLength: nat
    var dmaTaken: nat
    var txInterrupt: bool
    var looks: nat
    var tries: nat
    var wire: seq<Byte>

    // The messages in the active slot, in the pending slot and in the queue, with those of their
    // bytes that are not on the wire yet; and the record of the run.  A request whose start was
    // refused is taken out of the submitted ones again.
    ghost var active: Slot
    ghost var pending: Slot
    ghost var queued: seq<Message>
    ghost var submitted: seq<Message>
    ghost var finished: seq<Request>       // completed with OK
    ghost var failed: seq<Request>
    var astray: bool                       // a DMA error, or a pending request without an active one

    /* ---------------- what is held, and where ---------------- */

    predicate Fitting(r: Request) {
      0 < r.size <= bufferSize && (dma ==> r.size <= DMA_MAX)
    }

    predicate AllFitting(q: seq<Message>) {
      forall m <- q :: Fitting(m.info)
    }

    // The two slots never share a buffer, and each is mounted on a DMA link.
    ghost predicate Slots()
      reads this`activeBuffer, this`pendingBuffer
    {
      && activeBuffer.Length == bufferSize == pendingBuffer.Length && activeBuffer != pendingBuffer
      && activeBuffer in {mounted, mountedToo} && pendingBuffer in {mounted, mountedToo}
    }

    // How far the hardware is into the active request.
    function Taken(): nat
      reads this`txBusy, this`dmaTaken, this`activeOffset
    {
      if !txBusy then 0 else if dma then dmaTaken else activeOffset
    }

    // The bytes of the active slot are in its buffer, or still in the data queue.
    ghost predicate ActiveTied()
      reads this`active, this`activeValid, this`activeInfo, this`activeLength, this`activeBuffer, this`txBusy,
            this`dmaTaken, this`activeOffset, activeBuffer
    {
      if !activeValid then active == Free
      else
        && active.Loaded? && active.m.info == activeInfo && Fitting(activeInfo) && activeLength == activeInfo.size
        && Taken() + |active.m.bytes| == activeLength
        && (dma ==> activeLength <= activeBuffer.Length && activeBuffer[Taken()..activeLength] == active.m.bytes)
    }

    ghost predicate PendingTied()
      reads this`pending, this`pendingValid, this`pendingInfo, this`pendingLength, this`pendingBuffer, pendingBuffer
    {
      if !pendingValid then pending == Free
      else
        && pending.Loaded? && pending.m.info == pendingInfo && Fitting(pendingInfo)
            && pendingLength == pendingInfo.size == |pending.m.bytes|
        && (dma ==> pendingLength <= pendingBuffer.Length && pendingBuffer[..pendingLength] == pending.m.bytes)
    }

    ghost predicate QueueTied(front: seq<Byte>)
      reads this`queued, this`queueInfo, this`queueData
    {
      queueInfo == Infos(queued) && queueData == front + Bytes(queued) && Whole(queued) && AllFitting(queued)
    }

    // In the FIFO form the data queue also holds what the two slots have yet to send.
    ghost function Front(): seq<Byte>
      reads this`active, this`pending
    {
      if dma then [] else SlotBytes(active) + SlotBytes(pending)
    }

    // A busy channel works on the active buffer.
    ghost predicate Attached()
      reads this`txBusy, this`activeBuffer, this`activeLength, this`dmaLink, this`dmaLength
    {
      dma && txBusy ==> activeBuffer == Link(dmaLink) && dmaLength == activeLength
    }

    function Link(n: nat): array<Byte> { if n == 0 then mounted else mountedToo }

    ghost predicate Sound()
      reads this`active, this`activeValid, this`activeInfo, this`activeLength, this`activeBuffer, this`txBusy,
            this`dmaTaken, this`activeOffset, this`pending, this`pendingValid, this`pendingInfo, this`pendingLength,
            this`pendingBuffer, this`queued, this`queueInfo, this`queueData, this`dmaLink, this`dmaLength,
            activeBuffer, pendingBuffer
    {
      Slots() && Attached() && ActiveTied() && PendingTied() && QueueTied(Front())
    }

    // Everything submitted is on the wire or held, in order.
    ghost function Total(): seq<Byte>
      reads this`wire, this`active, this`pending, this`queued
    {
      wire + (SlotBytes(active) + (SlotBytes(pending) + Bytes(queued)))
    }

    ghost predicate Conserved()
      reads this`wire, this`active, this`pending, this`queued, this`submitted
    {
      Total() == Bytes(submitted) && Whole(submitted)
    }

    // Every request is completed in turn; `now` is the one being completed.
    ghost predicate Ordered(now: seq<Request>)
      reads this`pending, this`queued, this`finished, this`submitted
    {
      finished + now + (SlotInfos(pending) + Infos(queued)) == Infos(submitted)
    }

    // Idle means empty; at most `slack` requests are queued while the pending slot is free.
    ghost predicate Settled(slack: nat)
      reads this`txBusy, this`activeValid, this`pendingValid, this`queueInfo
    {
      txBusy == activeValid && (pendingValid ==> activeValid) && (!pendingValid ==> |queueInfo| <= slack)
    }

    /* ---------------- the queues ---------------- */

    // PopBatch into the first bytes of a buffer.
    method PopBatch(buffer: array<Byte>, count: nat)
      requires count <= |queueData| && count <= buffer.Length
      modifies this`queueData, buffer
      ensures queueData == old(queueData)[count..] && buffer[..count] == old(queueData)[..count]
    {
      var i := 0;
      while i < count
        invariant i <= count && queueData == old(queueData) && buffer[..i] == queueData[..i]
      {
        buffer[i] := queueData[i];
        i := i + 1;
      }
      queueData := queueData[count..];
    }

    // Takes the first request from the queue, in the DMA form with its bytes.
    method DequeueTxToBuffer(buffer: array<Byte>, ghost front: seq<Byte>) returns (ok: bool, size: nat, info: Request)
      requires buffer.Length == bufferSize && QueueTied(front) && (dma ==> front == [])
      modifies this`queueInfo, this`queueData, this`queued, buffer
      ensures ok == (old(queued) != [])
      ensures !ok ==> queued == old(queued) && queueInfo == [] && QueueTied(front)
      ensures ok ==>
            && queued == old(queued)[1..] && info == old(queued)[0].info && Fitting(info)
            && size == info.size == |old(queued)[0].bytes|
      ensures ok ==> QueueTied(if dma then [] else front + old(queued)[0].bytes)
      ensures ok && dma ==> size <= buffer.Length && buffer[..size] == old(queued)[0].bytes
    {
      hide Fitting;
      if queueInfo == [] {
        return false, 0, Request(0, 0);
      }
      ghost var m := queued[0];
      FirstOf(queued);
      assert m in queued && Fitting(m.info);
      FittingFits(m.info);
      var peek := queueInfo[0];
      if peek.size > bufferSize {
        assert false;
      }
      if dma {
        PopBatch(buffer, peek.size);
        assert m.bytes == old(queueData)[..peek.size];
      } else {
        assert front + (m.bytes + Bytes(queued[1..])) == front + m.bytes + Bytes(queued[1..]);
      }
      info := queueInfo[0];
      queueInfo := queueInfo[1..];
      queued := queued[1..];
      assert forall x <- queued :: x in old(queued);
      return true, peek.size, info;
    }

    lemma FittingFits(r: Request)
      requires Fitting(r)
      ensures 0 < r.size <= bufferSize
    {
    }

    // Where in the driver a message is held makes no difference to the order of the bytes.
    lemma MovesUp(sent: seq<Byte>, before: seq<Byte>, bytes: seq<Byte>, after: seq<Byte>)
      ensures sent + (before + ([] + (bytes + after))) == sent + (before + (bytes + after))
      ensures sent + ([] + ([] + (bytes + after))) == sent + (bytes + ([] + after))
    {
      assert [] + (bytes + after) == bytes + after;
      assert [] + ([] + (bytes + after)) == bytes + after;
      assert [] + after == after;
    }

    method LoadActiveTxFromQueue() returns (ok: bool)
      requires Slots() && ActiveTied() && QueueTied(Front()) && !activeValid && pending == Free && !txBusy
      modifies this`queueInfo, this`queueData, this`queued, this`activeLength, this`activeInfo, this`activeValid,
               this`active, activeBuffer
      ensures ActiveTied() && QueueTied(Front()) && ok == activeValid == active.Loaded? && Total() == old(Total())
      ensures if ok then old(queued) == [active.m] + queued else old(queued) == queued == []
    {
      var length, info;
      ok, length, info := DequeueTxToBuffer(activeBuffer, []);
      if !ok {
        return false;
      }
      activeInfo := info;
      activeLength := length;
      activeValid := true;
      active := Loaded(old(queued)[0]);
      FirstOf(old(queued));
      MovesUp(wire, [], active.m.bytes, Bytes(queued));
      assert [] + active.m.bytes == active.m.bytes + [];
    }

    method LoadPendingTxFromQueue() returns (ok: bool)
      requires Slots() && PendingTied() && QueueTied(Front()) && (dma || active.Loaded? || queued == [])
      modifies this`queueInfo, this`queueData, this`queued, this`pendingLength, this`pendingInfo, this`pendingValid,
               this`pending, pendingBuffer
      ensures PendingTied() && QueueTied(Front()) && (!pendingValid ==> queued == [] && queueInfo == [])
          && Total() == old(Total())
      ensures SlotInfos(pending) + Infos(queued) == old(SlotInfos(pending) + Infos(queued))
      ensures if pending == old(pending) then queued == old(queued)
              else pendingValid && !old(pendingValid) && old(queued) == [pending.m] + queued
    {
      hide Whole, AllFitting, Fitting, Bytes, Infos;
      if pendingValid {
        return false;
      }
      var length, info;
      ok, length, info := DequeueTxToBuffer(pendingBuffer, Front());
      if !ok {
        return false;
      }
      pendingInfo := info;
      pendingLength := length;
      pendingValid := true;
      pending := Loaded(old(queued)[0]);
      FirstOf(old(queued));
      MovesUp(wire, SlotBytes(active), pending.m.bytes, Bytes(queued));
      assert SlotBytes(active) + [] + pending.m.bytes == SlotBytes(active) + pending.m.bytes;
    }

    method TopUpPending()
      requires Slots() && PendingTied() && QueueTied(Front()) && (dma || active.Loaded? || queued == [])
      modifies this`queueInfo, this`queueData, this`queued, this`pendingLength, this`pendingInfo, this`pendingValid,
               this`pending, pendingBuffer
      ensures PendingTied() && QueueTied(Front()) && Total() == old(Total())
      ensures SlotInfos(pending) + Infos(queued) == old(SlotInfos(pending) + Infos(queued))
      ensures !pendingValid ==> queueInfo == [] && queued == []
      ensures (queued == old(queued) && pending == old(pending))
          || (old(queued) != [] && queued == old(queued)[1..] && pendingValid)
    {
      hide Whole, AllFitting, Fitting, Bytes, Infos, QueueTied, Front, Slots, Total;
      if !pendingValid {
        var _ := LoadPendingTxFromQueue();
      }
    }

    /* ---------------- the hardware ---------------- */

    // A look at the free space of the TX FIFO.
    method TxFifoSpace() returns (n: nat)
      modifies this`looks
      ensures n == room(old(looks)) && looks == old(looks) + 1
    {
      n := room(looks);
      looks := looks + 1;
    }

    lemma HeadGoes(sent: seq<Byte>, bytes: seq<Byte>, chunk: nat, more: seq<Byte>)
      requires chunk <= |bytes|
      ensures sent + (bytes + more) == sent + bytes[..chunk] + (bytes[chunk..] + more)
    {
      assert bytes == bytes[..chunk] + bytes[chunk..];
    }

    lemma PopFront(bytes: seq<Byte>, p: seq<Byte>, q: seq<Byte>, chunk: nat)
      requires chunk <= |bytes|
      ensures var data := bytes + p + q;
              chunk <= |data| && data[..chunk] == bytes[..chunk] && data[chunk..] == bytes[chunk..] + p + q
    {
    }

    // The next bytes of the active request leave the data queue for the TX FIFO.
    method PopToFifo(chunk: nat)
      requires !dma && ActiveTied() && QueueTied(Front()) && activeValid && txBusy
          && activeOffset + chunk <= activeLength
      modifies this`activeOffset, this`queueData, this`wire, this`active
      ensures ActiveTied() && QueueTied(Front()) && activeOffset == old(activeOffset) + chunk && Total() == old(Total())
    {
      hide Whole, AllFitting, Fitting, Bytes, Infos;
      ghost var bytes := active.m.bytes;
      HeadGoes(wire, bytes, chunk, SlotBytes(pending) + Bytes(queued));
      PopFront(bytes, SlotBytes(pending), Bytes(queued), chunk);
      wire := wire + queueData[..chunk];
      queueData := queueData[chunk..];
      activeOffset := activeOffset + chunk;
      active := Loaded(active.m.(bytes := bytes[chunk..]));
    }

    lemma Parts(s: seq<Byte>, from: nat, count: nat, upto: nat)
      requires from + count <= upto <= |s|
      ensures s[from..from + count] == s[from..upto][..count]
      ensures s[from + count..upto] == s[from..upto][count..]
    {
    }

    // The DMA channel takes bytes of the buffer it works on.
    method DmaTakes(chunk: nat)
      requires Sound() && dma && activeValid && txBusy && dmaTaken + chunk <= dmaLength
      modifies this`dmaTaken, this`wire, this`active
      ensures Sound() && dmaTaken == old(dmaTaken) + chunk && Total() == old(Total())
    {
      hide Slots, Whole, AllFitting, Fitting, Bytes, Infos, PendingTied, QueueTied;
      ghost var bytes := active.m.bytes;
      HeadGoes(wire, bytes, chunk, SlotBytes(pending) + Bytes(queued));
      Parts(activeBuffer[..], dmaTaken, chunk, activeLength);
      assert Link(dmaLink) == activeBuffer;
      assert activeBuffer[..][dmaTaken..activeLength] == activeBuffer[dmaTaken..activeLength] == bytes;
      assert activeBuffer[..][dmaTaken..dmaTaken + chunk] == activeBuffer[dmaTaken..dmaTaken + chunk];
      assert activeBuffer[..][dmaTaken + chunk..activeLength] == activeBuffer[dmaTaken + chunk..activeLength];
      wire := wire + Link(dmaLink)[dmaTaken..dmaTaken + chunk];
      dmaTaken := dmaTaken + chunk;
      active := Loaded(active.m.(bytes := bytes[chunk..]));
    }

    // The next start of the channel fails.
    predicate Refuses()
      reads this`tries
    {
      dma && !starts(tries)
    }

    // Patches the descriptor of the link the active buffer is mounted on and starts the channel.
    method StartDmaTx() returns (ok: bool)
      requires dma && Slots() && activeValid && 0 < activeLength <= DMA_MAX
      modifies this`dmaLink, this`dmaLength, this`dmaTaken, this`tries
      ensures ok == !old(Refuses()) && tries == old(tries) + 1 && dmaTaken == 0 && dmaLength == activeLength
          && activeBuffer == Link(dmaLink)
    {
      if !activeValid {
        assert false;
      }
      if activeLength == 0 || activeLength > DMA_MAX {
        assert false;
      }
      if activeBuffer == mounted {
        dmaLink := 0;
      } else if activeBuffer == mountedToo {
        dmaLink := 1;
      } else {
        assert false;
      }
      dmaLength, dmaTaken := activeLength, 0;
      ok := starts(tries);
      tries := tries + 1;
    }

    // Since the active request was at this offset and after so many looks at the FIFO: bytes have gone,
    // or no look found room, or none was left to go.
    ghost predicate Advances(offset: nat, n: nat)
      reads this`activeOffset, this`activeLength, this`looks
    {
      && offset <= activeOffset && n <= looks
      && (activeOffset == offset < activeLength ==> n < looks && forall k :: n <= k < looks ==> room(k) == 0)
    }

    // FillTxFifo outside the interrupt: as much of the active request as there is room for.
    method FillTxFifo()
      requires !dma && ActiveTied() && QueueTied(Front()) && activeValid && txBusy
      modifies this`activeOffset, this`queueData, this`wire, this`active, this`looks
      ensures ActiveTied() && QueueTied(Front()) && Total() == old(Total())
      ensures Advances(old(activeOffset), old(looks))
    {
      hide Whole, AllFitting, Fitting, Bytes, Infos, QueueTied, Front, Total;
      while activeOffset < activeLength
        invariant ActiveTied() && QueueTied(Front()) && Total() == old(Total())
        invariant activeOffset >= old(activeOffset) && looks >= old(looks)
        invariant activeOffset == old(activeOffset) ==> looks == old(looks)
      {
        var space := TxFifoSpace();
        if space == 0 {
          break;
        }
        var chunk := Min(activeLength - activeOffset, space);
        PopToFifo(chunk);
      }
    }

    lemma Marks()
      requires Sound()
      ensures active.Loaded? == activeValid && pending.Loaded? == pendingValid && |queueInfo| == |queued|
          && activeBuffer != pendingBuffer
    {
    }

    // Starts the active request unless the transmitter is at work.
    method StartActiveTransfer() returns (ok: bool)
      requires Slots() && Attached() && ActiveTied() && QueueTied(Front())
      modifies this`txBusy, this`activeOffset, this`dmaLink, this`dmaLength, this`dmaTaken, this`txInterrupt,
               this`looks, this`tries, this`wire, this`queueData, this`active
      ensures Attached() && ActiveTied() && QueueTied(Front()) && Total() == old(Total())
      ensures ok == (activeValid && (old(txBusy) || !old(Refuses()))) && txBusy == (old(txBusy) || ok)
      ensures tries == old(tries) + if dma && activeValid && !old(txBusy) then 1 else 0
      ensures (old(Armed()) || !old(txBusy) ==> Armed()) && (!ok ==> wire == old(wire) && active == old(active))
    {
      hide QueueTied, Front, Total, ActiveTied, Slots;
      if !activeValid {
        return false;
      }
      if txBusy {
        return true;
      }
      if dma {
        ok := StartCopied();
      } else {
        StartInPlace();
        ok := true;
      }
    }

    method StartCopied() returns (ok: bool)
      requires dma && Slots() && ActiveTied() && activeValid && !txBusy
      modifies this`txBusy, this`activeOffset, this`dmaLink, this`dmaLength, this`dmaTaken, this`tries
      ensures Attached() && ActiveTied() && ok == txBusy == !old(Refuses()) && tries == old(tries) + 1
    {
      hide Slots, Refuses;
      assert activeBuffer[0..activeLength] == active.m.bytes;
      txBusy := true;
      activeOffset := 0;
      ok := StartDmaTx();
      if !ok {
        txBusy := false;
      }
    }

    method StartInPlace()
      requires !dma && ActiveTied() && QueueTied(Front()) && activeValid && !txBusy
      modifies this`txBusy, this`activeOffset, this`txInterrupt, this`looks, this`wire, this`queueData, this`active
      ensures ActiveTied() && QueueTied(Front()) && txBusy && txInterrupt && Total() == old(Total())
    {
      hide QueueTied, Front, Total, Fitting;
      txBusy := true;
      activeOffset := 0;
      txInterrupt := true;
      FillTxFifo();
    }

    /* ---------------- submitting ---------------- */

    // A request joins the queue: its bytes, then its entry.
    method Enqueue(bytes: seq<Byte>)
      requires QueueTied(Front()) && 0 < |bytes| <= bufferSize && (dma ==> |bytes| <= DMA_MAX)
      modifies this`queueData, this`queueInfo, this`current, this`nextId, this`queued, this`submitted
      ensures QueueTied(Front()) && current.size == |bytes|
      ensures queued == old(queued) + [Message(current, bytes)]
          && submitted == old(submitted) + [Message(current, bytes)]
    {
      hide Bytes, Infos;
      queueData := queueData + bytes;
      current := Request(nextId, |bytes|);
      nextId := nextId + 1;
      queueInfo := queueInfo + [current];
      UartMessages.OneMore(queued, Message(current, bytes));
      assert Front() + Bytes(queued) + bytes == Front() + (Bytes(queued) + bytes);
      queued := queued + [Message(current, bytes)];
      submitted := submitted + [Message(current, bytes)];
    }

    // The port takes a request while its lock keeps other submitters out.
    method Publish(bytes: seq<Byte>) returns (ec: ErrorCode)
      requires Sound() && bytes != [] && (dma ==> |bytes| <= DMA_MAX)
      modifies this`locked, this`queueData, this`queueInfo, this`current, this`nextId, this`queued, this`submitted
      ensures Sound() && ec == (if old(locked) then BUSY
                                else if |old(queueInfo)| >= queueSize || |old(queueData)| + |bytes| > bufferSize then
                                    FULL else OK)
      ensures ec != OK ==> unchanged(`locked, `queueData, `queueInfo, `queued, `submitted, `current)
      ensures ec == OK ==>
            && locked && queued == old(queued) + [Message(current, bytes)]
            && submitted == old(submitted) + [Message(current, bytes)]
    {
      hide Bytes, Infos, Slots, Attached, ActiveTied, PendingTied, QueueTied, Front;
      if locked {
        return BUSY;
      }
      if |queueInfo| >= queueSize {
        return FULL;
      }
      if |queueData| + |bytes| > bufferSize {
        return FULL;
      }
      locked := true;
      Enqueue(bytes);
      return OK;
    }

    /** The driver's part of a submission.  OK means that a request was started, FAILED that its
        start was refused and it is gone; it was then the only one there was. */
    method TryStartTx() returns (ans: ErrorCode)
      requires Sound() && (!inTxIsr ==> Settled(1))
      modifies this`queueInfo, this`queueData, this`queued, this`activeLength, this`activeInfo, this`activeValid,
               this`active, activeBuffer, this`pendingLength, this`pendingInfo, this`pendingValid, this`pending,
               pendingBuffer, this`txBusy, this`activeOffset, this`dmaLink, this`dmaLength, this`dmaTaken,
               this`txInterrupt, this`looks, this`tries, this`wire
      ensures Sound() && (inTxIsr ==> ans == PENDING && unchanged(this))
      ensures !inTxIsr ==> Settled(0) && (old(Armed()) ==> Armed())
      ensures txBusy == (old(txBusy) || ans == OK) && tries == old(tries) + if dma && ans != PENDING then 1 else 0
      ensures !inTxIsr ==>
            ans == if old(txBusy) || old(queued) == [] then PENDING else if old(Refuses()) then FAILED else OK
      ensures ans == FAILED ==> wire == old(wire) && active == Free
      ensures ans != FAILED ==> Total() == old(Total())
      ensures ans != PENDING ==>
            old(active) == Free && old(pending) == pending == Free && queued == [] && |old(queued)| == 1
      ensures ans == PENDING ==> SlotInfos(pending) + Infos(queued) == old(SlotInfos(pending) + Infos(queued))
      ensures ans == PENDING ==> queued == old(queued) || (old(queued) != [] && queued == old(queued)[1..])
    {
      hide Total, Infos, Bytes, ActiveTied, QueueTied, Front, AllFitting;
      if inTxIsr {
        return PENDING;
      }
      Marks();
      if !activeValid {
        var _ := LoadActiveTxFromQueue();
      }
      if !txBusy && activeValid {
        ans := StartLoaded();
        return;
      }
      TopUpPending();
      return PENDING;
    }

    // The request just loaded is started, or dropped when that is refused.
    method StartLoaded() returns (ans: ErrorCode)
      requires Sound() && activeValid && !txBusy && pending == Free && queued == []
      modifies this`activeLength, this`activeInfo, this`activeValid, this`active, this`queueInfo, this`queueData,
               this`queued, this`pendingLength, this`pendingInfo, this`pendingValid, this`pending, pendingBuffer,
               this`txBusy, this`activeOffset, this`dmaLink, this`dmaLength, this`dmaTaken, this`txInterrupt,
               this`looks, this`tries, this`wire
      ensures Sound() && Settled(0) && Armed() && pending == Free && queued == []
      ensures ans == (if old(Refuses()) then FAILED else OK) && txBusy == (ans == OK)
          && tries == old(tries) + if dma then 1 else 0
      ensures ans == FAILED ==> wire == old(wire) && active == Free
      ensures ans != FAILED ==> Total() == old(Total())
    {
      hide Total, Infos, Bytes, ActiveTied, QueueTied, Front, AllFitting, PendingTied, Slots;
      Marks();
      var ok := StartActiveTransfer();
      if !ok {
        ClearActiveTx();
        Marks();
        return FAILED;
      }
      TopUpPending();
      Marks();
      return OK;
    }

    /** Holds between any two steps of the submitters and of the hardware, in an error-free run:
        everything accepted is on the wire or held, in order; the requests completed so far are the
        first ones submitted; and an idle driver has nothing left to do but a request whose
        submitter has not called it yet. */
    ghost predicate Steady()
      reads this, activeBuffer, pendingBuffer
    {
      SteadyBut() && Armed()
    }

    // While a submitter holds the lock, the last request in the queue is its own.
    ghost predicate Mine()
      reads this`locked, this`queued, this`current
    {
      locked && queued != [] ==> queued[|queued| - 1].info == current
    }

    ghost predicate SteadyBut()
      reads this, activeBuffer, pendingBuffer
    {
      Sound() && Conserved() && Ordered([]) && Settled(if locked then 1 else 0) && Mine() && Polite()
    }

    ghost predicate Valid()
      reads this, activeBuffer, pendingBuffer
    {
      Steady() && !inTxIsr
    }

    // A request on its way through the FIFO has its interrupt enabled.
    ghost predicate Armed()
      reads this`txBusy, this`txInterrupt
    {
      !dma && txBusy ==> txInterrupt
    }

    // Callbacks of the DMA form submit what one descriptor can carry, like everyone else.
    ghost predicate Polite() {
      forall n: nat, b :: b in callback(n) && dma ==> |b| <= DMA_MAX
    }

    /** The rest of a submission: the port calls the driver, gives up its lock and completes the
        request it has just accepted with the answer, unless that is PENDING.  It is then the request
        that was started or refused, and every earlier one is complete. */
    method Call() returns (ans: ErrorCode)
      requires Valid() && locked
      modifies this`queueInfo, this`queueData, this`queued, this`activeLength, this`activeInfo, this`activeValid,
               this`active, activeBuffer, this`pendingLength, this`pendingInfo, this`pendingValid, this`pending,
               pendingBuffer, this`txBusy, this`activeOffset, this`dmaLink, this`dmaLength, this`dmaTaken,
               this`txInterrupt, this`looks, this`tries, this`wire, this`locked, this`finished, this`failed,
               this`submitted
      ensures Valid() && !locked
      ensures ans == if old(txBusy) || old(queued) == [] then PENDING else if old(Refuses()) then FAILED else OK
      ensures txBusy == (old(txBusy) || ans == OK) && tries == old(tries) + if dma && ans != PENDING then 1 else 0
      ensures finished == if ans == OK then old(finished) + [current] else old(finished)
      ensures failed == if ans == FAILED then old(failed) + [current] else old(failed)
      ensures ans == FAILED ==>
            |old(submitted)| > 0 && submitted == old(submitted)[..|old(submitted)| - 1] && wire == old(wire)
      ensures ans != FAILED ==> submitted == old(submitted)
      ensures ans != PENDING ==> finished == Infos(submitted) && pending == Free && queued == []
      ensures ans == PENDING ==> SlotInfos(pending) + Infos(queued) == old(SlotInfos(pending) + Infos(queued))
    {
      hide Sound, Conserved, Ordered, Polite, Infos, Books, Refuses, Armed, Started;
      ghost var m;
      ans, m := CallDriver();
      locked := false;
      if ans != PENDING {
        Answer(ans, m);
      }
    }

    // The driver's answer, and the message it is about.
    method CallDriver() returns (ans: ErrorCode, ghost m: Message)
      requires Sound() && Conserved() && Ordered([]) && Settled(1) && Mine() && !inTxIsr && locked
      modifies this`queueInfo, this`queueData, this`queued, this`activeLength, this`activeInfo, this`activeValid,
               this`active, activeBuffer, this`pendingLength, this`pendingInfo, this`pendingValid, this`pending,
               pendingBuffer, this`txBusy, this`activeOffset, this`dmaLink, this`dmaLength, this`dmaTaken,
               this`txInterrupt, this`looks, this`tries, this`wire
      ensures Sound() && Settled(0) && (old(Armed()) ==> Armed())
      ensures ans == if old(txBusy) || old(queued) == [] then PENDING else if old(Refuses()) then FAILED else OK
      ensures txBusy == (old(txBusy) || ans == OK) && tries == old(tries) + if dma && ans != PENDING then 1 else 0
      ensures ans == FAILED ==> wire == old(wire) && active == Free
      ensures if ans == PENDING then Conserved() && Ordered([])
              else Started(m) && pending == Free && queued == [] && (ans == OK ==> Conserved())
      ensures ans != PENDING ==> Books(old(wire), Loaded(m), Free, [], submitted, finished + [current])
      ensures ans == PENDING ==> SlotInfos(pending) + Infos(queued) == old(SlotInfos(pending) + Infos(queued))
    {
      hide Sound, Total, Infos, Bytes, Whole, Books, Refuses, Armed;
      ghost var w, q := wire, queued;
      OpenBooks([]);
      WholeQueue();
      ans := TryStartTx();
      if ans != PENDING {
        assert finished + [] == finished;
        AloneInBooks(w, q, submitted, finished);
        m := q[0];
      } else {
        m := Message(current, []);
      }
    }

    // The last request submitted, and the last one to be completed.
    ghost predicate Started(m: Message)
      reads this`current, this`finished, this`submitted
    {
      m.info == current && |m.bytes| == current.size && finished + [current] == Infos(submitted)
    }

    // The port completes the request with the driver's answer.
    method Answer(ans: ErrorCode, ghost m: Message)
      requires Started(m) && pending == Free && queued == []
      requires if ans == OK then Conserved()
               else active == Free && Books(wire, Loaded(m), Free, [], submitted, finished + [current])
      modifies this`finished, this`failed, this`submitted
      ensures Conserved() && Ordered([]) && finished == Infos(submitted)
      ensures finished == if ans == OK then old(finished) + [current] else old(finished)
      ensures failed == if ans == OK then old(failed) else old(failed) + [current]
      ensures if ans == OK then submitted == old(submitted)
              else |old(submitted)| > 0 && submitted == old(submitted)[..|old(submitted)| - 1]
    {
      hide Total, Infos, Bytes, Conserved, Ordered, Books;
      if ans == OK {
        finished := finished + [current];
      } else {
        assert |Infos(submitted)| == |submitted|;
        TakenOut(wire, m, Free, [], submitted, finished);
        failed := failed + [current];
        assert submitted[..|submitted| - 1] == submitted[..|submitted| - 1] + submitted[|submitted|..];
        submitted := submitted[..|submitted| - 1];
        assert finished + [] == finished;
        CloseBooks([]);
      }
      AllDone();
    }

    lemma AllDone()
      requires pending == Free && queued == []
      ensures Ordered([]) <==> finished == Infos(submitted)
    {
      assert finished + [] + ([] + Infos([])) == finished;
    }

    /* ---------------- completions ---------------- */

    // The callback of the next completion submits something an empty port would take.
    predicate Takes()
      reads this`completions
    {
      queueSize > 0 && exists b <- callback(completions) :: Fits(b)
    }

    predicate Fits(b: seq<Byte>) { b != [] && |b| <= bufferSize }

    lemma EmptyPort()
      requires Sound() && dma && queued == []
      ensures queueInfo == [] && queueData == []
    {
    }

    // A submission from a callback.  TryStartTx answers PENDING at its first test, so that the port
    // only gives up its lock again.
    method Resubmit(bytes: seq<Byte>) returns (ghost more: seq<Message>)
      requires Sound() && inTxIsr && (dma ==> |bytes| <= DMA_MAX)
      modifies this`locked, this`queueData, this`queueInfo, this`current, this`nextId, this`queued, this`submitted
      ensures Sound() && locked == old(locked)
      ensures queued == old(queued) + more && submitted == old(submitted) + more
          && (locked ==> more == [] && current == old(current))
      ensures dma && old(queued) == [] ==> (more == [] <==> locked || queueSize == 0 || !Fits(bytes))
    {
      hide Sound;
      more := [];
      if dma && queued == [] {
        EmptyPort();
      }
      if bytes == [] {
        return;
      }
      var ec := Publish(bytes);
      if ec == OK {
        more := [Message(current, bytes)];
        locked := false;
      }
    }

    // Completes a request; its callback may submit others.
    method Finish(info: Request, ec: ErrorCode) returns (ghost more: seq<Message>)
      requires Sound() && inTxIsr && Polite()
      modifies this`locked, this`queueData, this`queueInfo, this`current, this`nextId, this`queued, this`submitted,
               this`finished, this`failed, this`completions
      ensures Sound() && locked == old(locked) && (locked ==> more == [] && current == old(current))
      ensures queued == old(queued) + more && submitted == old(submitted) + more
      ensures finished == (if ec == OK then old(finished) + [info] else old(finished))
      ensures failed == (if ec == OK then old(failed) else old(failed) + [info])
      ensures dma && old(queued) == [] ==> (more == [] <==> old(locked) || !old(Takes()))
      ensures completions == old(completions) + 1
    {
      hide Sound, Fits;
      if ec == OK {
        finished := finished + [info];
      } else {
        failed := failed + [info];
      }
      var script := callback(completions);
      completions := completions + 1;
      more := [];
      var i := 0;
      while i < |script|
        invariant i <= |script| && Sound() && locked == old(locked)
            && (locked ==> more == [] && current == old(current))
        invariant queued == old(queued) + more && submitted == old(submitted) + more
        invariant finished == (if ec == OK then old(finished) + [info] else old(finished))
        invariant failed == (if ec == OK then old(failed) else old(failed) + [info])
        invariant completions == old(completions) + 1
        invariant dma && old(queued) == [] ==>
              (more == [] <==> locked || queueSize == 0 || forall k | 0 <= k < i :: !Fits(script[k]))
      {
        assert script[i] in script;
        ghost var m := Resubmit(script[i]);
        more := more + m;
        i := i + 1;
      }
    }

    lemma OpenBooks(now: seq<Request>)
      requires Conserved() && Ordered(now)
      ensures Books(wire, active, pending, queued, submitted, finished + now)
    {
    }

    lemma CloseBooks(now: seq<Request>)
      requires Books(wire, active, pending, queued, submitted, finished + now)
      ensures Conserved() && Ordered(now)
    {
    }

    // Completes the active request, which is under way or whose start was refused.
    method Report(ok: bool) returns (ghost more: seq<Message>)
      requires Sound() && Conserved() && Ordered([activeInfo]) && Mine() && activeValid && inTxIsr && Polite()
      requires ok || (dma && !txBusy)
      modifies this`locked, this`queueData, this`queueInfo, this`current, this`nextId, this`queued, this`submitted,
               this`finished, this`failed, this`completions, this`activeLength, this`activeOffset, this`activeInfo,
               this`activeValid, this`active
      ensures Sound() && Conserved() && Ordered([]) && Mine() && activeValid == ok
      ensures locked == old(locked) && queued == old(queued) + more && completions == old(completions) + 1
      ensures finished == if ok then old(finished) + [old(activeInfo)] else old(finished)
      ensures failed == if ok then old(failed) else old(failed) + [old(activeInfo)]
      ensures dma && old(queued) == [] ==> (more == [] <==> old(locked) || !old(Takes()))
    {
      hide Bytes, Infos, Sound, Total, Polite, Conserved, Ordered, Takes, Books;
      OpenBooks([activeInfo]);
      ghost var q, all, done := queued, submitted, finished + [activeInfo];
      if ok {
        more := Finish(activeInfo, OK);
        WholeQueue();
        BooksJoin(wire, active, pending, q, all, done, more);
        assert finished + [] == done;
        CloseBooks([]);
      } else {
        LoadedWhole();
        TakenOut(wire, active.m, pending, q, all, finished);
        all := all[..|finished|] + all[|finished| + 1..];
        submitted := all;
        more := Finish(activeInfo, FAILED);
        WholeQueue();
        BooksJoin(wire, Free, pending, q, all, finished, more);
        DropRefused();
        assert finished + [] == finished;
        CloseBooks([]);
      }
    }

    method DropRefused()
      requires Sound() && dma && !txBusy
      modifies this`activeLength, this`activeOffset, this`activeInfo, this`activeValid, this`active
      ensures Sound() && !activeValid && active == Free
    {
      hide Bytes, Infos, Slots, PendingTied, QueueTied;
      ClearActiveTx();
    }

    // Starts the active request and completes it: from here on the port owns the notification.  A
    // request whose start is refused fails instead, and nothing is active then.
    method StartAndReportActive() returns (ok: bool)
      requires Sound() && Conserved() && Ordered([activeInfo]) && Mine() && activeValid && !txBusy && inTxIsr
          && Polite()
      modifies this`txBusy, this`activeLength, this`activeOffset, this`activeInfo, this`activeValid, this`active,
               this`dmaLink, this`dmaLength, this`dmaTaken, this`txInterrupt, this`looks, this`tries, this`wire,
               this`locked, this`queueData, this`queueInfo, this`current, this`nextId, this`queued, this`submitted,
               this`finished, this`failed, this`completions
      ensures Sound() && Conserved() && Ordered([]) && Mine() && Armed()
      ensures ok == txBusy == activeValid == !old(Refuses()) && locked == old(locked)
          && completions == old(completions) + 1
      ensures finished == if ok then old(finished) + [old(activeInfo)] else old(finished)
      ensures failed == if ok then old(failed) else old(failed) + [old(activeInfo)]
      ensures dma && old(queued) == [] ==> (queued == [] <==> old(locked) || !old(Takes()))
      ensures old(queued) != [] ==> queued != []
    {
      hide Bytes, Infos, Slots, ActiveTied, PendingTied, QueueTied, Front, Total, Polite, Mine, Takes;
      ok := StartActiveTransfer();
      if !ok {
        ghost var _ := Report(false);
        return;
      }
      ghost var _ := Report(true);
    }

    lemma WholeQueue()
      requires Sound()
      ensures Whole(queued)
    {
    }

    lemma LoadedWhole()
      requires Sound() && activeValid && !txBusy
      ensures active.Loaded? && active.m.info == activeInfo && |active.m.bytes| == activeInfo.size
      ensures |SlotBytes(pending)| == Sum(SlotInfos(pending)) && Whole(queued)
    {
      assert [pendingInfo][1..] == [];
    }

    // The active slot is empty again.
    method ClearActiveTx()
      requires QueueTied(Front()) && !txBusy && (dma || SlotBytes(active) == [])
      modifies this`activeLength, this`activeOffset, this`activeInfo, this`activeValid, this`active
      ensures ActiveTied() && QueueTied(Front()) && !activeValid && active == Free
      ensures old(SlotBytes(active)) == [] ==> Total() == old(Total())
    {
      hide Bytes, Infos, Whole, AllFitting;
      activeLength, activeOffset, activeInfo, activeValid := 0, 0, Request(0, 0), false;
      active := Free;
    }

    method ClearPendingTx()
      modifies this`pendingLength, this`pendingInfo, this`pendingValid, this`pending
      ensures !pendingValid && pending == Free
    {
      pendingLength, pendingInfo, pendingValid, pending := 0, Request(0, 0), false, Free;
    }

    // The pending request becomes the active one, in its buffer.
    method Promote()
      requires PendingTied() && QueueTied(Front()) && pendingValid && active == Free && !txBusy
      modifies this`activeBuffer, this`pendingBuffer, this`activeLength, this`activeInfo, this`activeValid,
               this`active, this`pendingLength, this`pendingInfo, this`pendingValid, this`pending
      ensures ActiveTied() && PendingTied() && QueueTied(Front()) && activeValid && !pendingValid
      ensures active == old(pending) && pending == Free && Total() == old(Total())
      ensures activeBuffer == old(pendingBuffer) && pendingBuffer == old(activeBuffer)
    {
      hide Infos, Bytes, QueueTied, ActiveTied, PendingTied;
      ghost var front := Front();
      Swapped(wire, SlotBytes(pending), Bytes(queued));
      SwapIn();
      ClearPendingTx();
      NothingPending();
      assert Front() == front;
    }

    method SwapIn()
      requires PendingTied() && pendingValid && !txBusy
      modifies this`activeBuffer, this`pendingBuffer, this`activeLength, this`pendingLength, this`activeInfo,
               this`activeValid, this`active
      ensures ActiveTied() && activeValid && active == pending
      ensures activeBuffer == old(pendingBuffer) && pendingBuffer == old(activeBuffer)
    {
      hide Fitting;
      activeBuffer, pendingBuffer := pendingBuffer, activeBuffer;
      activeLength := pendingLength;
      pendingLength := 0;
      activeInfo := pendingInfo;
      activeValid := true;
      active := pending;
    }

    lemma NothingPending()
      requires !pendingValid && pending == Free
      ensures PendingTied()
    {
    }

    lemma Swapped(sent: seq<Byte>, bytes: seq<Byte>, after: seq<Byte>)
      ensures [] + bytes == bytes + []
      ensures sent + ([] + (bytes + after)) == sent + (bytes + ([] + after))
    {
      assert [] + (bytes + after) == bytes + ([] + after);
    }

    // What has not been started yet, and its first request if there is one.
    ghost function Waiting(): seq<Request>
      reads this`pending, this`queued
    {
      SlotInfos(pending) + Infos(queued)
    }

    ghost function NextInLine(): seq<Request>
      reads this`pending, this`queued
    {
      if Waiting() == [] then [] else [Waiting()[0]]
    }

    /** The next start is refused and something else waits behind it, or is submitted by the callback
        of the failure. */
    ghost predicate Strands()
      reads this`pending, this`queued, this`tries, this`completions, this`locked
    {
      Refuses() && Waiting() != [] && (|Waiting()| > 1 || (!locked && Takes()))
    }

    lemma PendingIsNext()
      requires Ordered([]) && pending.Loaded?
      ensures NextInLine() == [pending.m.info] && |Waiting()| == 1 + |queued|
      ensures finished + [pending.m.info] + (SlotInfos(Free) + Infos(queued)) == Infos(submitted)
    {
      hide Infos;
      assert finished + [] + ([pending.m.info] + Infos(queued)) == finished + [pending.m.info] + ([] + Infos(queued));
    }

    lemma QueuedIsNext()
      requires Ordered([]) && pending == Free
      ensures |Waiting()| == |queued| && (queued == [] ==> NextInLine() == [])
      ensures queued != [] ==> NextInLine() == [queued[0].info]
      ensures queued != [] ==> finished + [queued[0].info] + (SlotInfos(Free) + Infos(queued[1..])) == Infos(submitted)
    {
      if queued != [] {
        FirstOf(queued);
        ghost var first, rest := [queued[0].info], Infos(queued[1..]);
        assert finished + [] + ([] + (first + rest)) == finished + first + ([] + rest);
      }
    }

    // After the active slot has been cleared: the next request in line starts and is completed, or
    // fails when its start is refused, and the slot behind it is filled again.
    method Advance()
      requires Sound() && Conserved() && Ordered([]) && Mine() && active == Free && !activeValid && !txBusy && inTxIsr
          && Polite()
      modifies this, activeBuffer, pendingBuffer
      ensures Sound() && Conserved() && Ordered([]) && Mine() && Armed() && locked == old(locked) && inTxIsr
          && astray == old(astray)
      ensures Settled(0) == !old(Strands()) && (!Settled(0) ==> pendingValid && !activeValid && !txBusy)
      ensures finished == old(finished) + (if old(Refuses()) then [] else old(NextInLine()))
      ensures failed == old(failed) + (if old(Refuses()) then old(NextInLine()) else [])
      ensures completions == old(completions) + |old(NextInLine())| && (old(NextInLine()) == [] ==> !txBusy)
    {
      hide Sound, Conserved, Ordered, Mine, Infos, Polite, NextInLine, Waiting, Takes, Refuses, Settled, Armed;
      Marks();
      if pendingValid {
        AdvancePending();
      } else {
        AdvanceQueued();
      }
      Refill();
    }

    method Refill()
      requires Sound() && Conserved() && Ordered([]) && Mine() && !pendingValid && txBusy == activeValid
          && (dma || activeValid || queued == [])
      modifies this`queueInfo, this`queueData, this`queued, this`pendingLength, this`pendingInfo, this`pendingValid,
               this`pending, pendingBuffer
      ensures Sound() && Conserved() && Ordered([]) && Mine() && pendingValid == (old(queued) != [])
      ensures Settled(0) == (activeValid || old(queued) == [])
    {
      hide Bytes, Infos, Slots, ActiveTied, PendingTied, QueueTied, Front, Total, Whole, AllFitting, Fitting;
      Marks();
      TopUpPending();
      Marks();
    }

    // The pending request becomes the active one, the next to be completed.
    method TakePending()
      requires Sound() && Conserved() && Ordered([]) && pendingValid && active == Free && !txBusy
      modifies this`activeBuffer, this`pendingBuffer, this`activeLength, this`activeInfo, this`activeValid,
               this`active, this`pendingLength, this`pendingInfo, this`pendingValid, this`pending
      ensures Sound() && Conserved() && Ordered([activeInfo]) && activeValid && !pendingValid
      ensures old(NextInLine()) == [activeInfo] && |old(Waiting())| == 1 + |queued|
      ensures activeBuffer == old(pendingBuffer) && pendingBuffer == old(activeBuffer)
    {
      hide Bytes, Infos, QueueTied, Front, Total, Whole, AllFitting, Fitting, NextInLine, Waiting;
      PendingIsNext();
      Promote();
    }

    // So does the first queued request.
    method TakeQueued() returns (ok: bool)
      requires Sound() && Conserved() && Ordered([]) && !activeValid && pending == Free && !txBusy
      modifies this`queueInfo, this`queueData, this`queued, this`activeLength, this`activeInfo, this`activeValid,
               this`active, activeBuffer
      ensures Sound() && Conserved() && ok == activeValid == (old(queued) != []) && (old(Mine()) ==> Mine())
      ensures if ok then Ordered([activeInfo]) && old(NextInLine()) == [activeInfo] else Ordered([]) && active == Free
      ensures |old(Waiting())| == |queued| + if ok then 1 else 0
      ensures !ok ==> old(NextInLine()) == [] && queued == []
    {
      hide Bytes, Infos, QueueTied, Front, Total, Whole, AllFitting, Fitting, NextInLine, Waiting;
      QueuedIsNext();
      ghost var q := queued;
      ok := LoadActiveTxFromQueue();
      if ok {
        assert q[1..] == queued && q[0] == active.m;
      }
    }

    method AdvancePending()
      requires Sound() && Conserved() && Ordered([]) && Mine() && active == Free && !txBusy && inTxIsr && Polite()
          && pendingValid
      modifies this
      ensures Sound() && Conserved() && Ordered([]) && Mine() && Armed() && locked == old(locked) && inTxIsr
          && astray == old(astray)
      ensures {activeBuffer, pendingBuffer} == old({activeBuffer, pendingBuffer})
      ensures txBusy == activeValid == !old(Refuses()) && !pendingValid
      ensures !activeValid ==> (queued != [] <==> old(Strands())) && dma
      ensures finished == old(finished) + (if old(Refuses()) then [] else old(NextInLine()))
      ensures failed == old(failed) + (if old(Refuses()) then old(NextInLine()) else [])
      ensures completions == old(completions) + |old(NextInLine())| && (old(NextInLine()) == [] ==> !txBusy)
    {
      hide Sound, Conserved, Ordered, Mine, Infos, Polite, NextInLine, Waiting, Takes, Armed;
      TakePending();
      var _ := StartAndReportActive();
      PendingMark();
    }

    lemma PendingMark()
      requires Sound()
      ensures pending.Loaded? == pendingValid
    {
    }

    method AdvanceQueued()
      requires Sound() && Conserved() && Ordered([]) && Mine() && active == Free && !activeValid && !txBusy && inTxIsr
          && Polite() && !pendingValid
      modifies this, activeBuffer
      ensures Sound() && Conserved() && Ordered([]) && Mine() && Armed() && locked == old(locked) && inTxIsr
          && astray == old(astray)
      ensures unchanged(`activeBuffer, `pendingBuffer, `pendingValid)
      ensures txBusy == activeValid == (!old(Refuses()) && old(queued) != [])
      ensures !activeValid ==> (queued != [] <==> old(Strands())) && (dma || queued == [])
      ensures finished == old(finished) + (if old(Refuses()) then [] else old(NextInLine()))
      ensures failed == old(failed) + (if old(Refuses()) then old(NextInLine()) else [])
      ensures completions == old(completions) + |old(NextInLine())| && (old(NextInLine()) == [] ==> !txBusy)
    {
      hide Sound, Conserved, Ordered, Mine, Infos, Polite, NextInLine, Waiting, Takes;
      PendingMark();
      var ok := TakeQueued();
      if ok {
        var _ := StartAndReportActive();
      }
    }

    /** A transfer is over.  After a good one exactly the next request in line, if there is one, is
        started and completed, or fails when its start is refused; idle means empty again unless
        another request is stranded behind a refused one.  After a DMA error the active bytes are
        dropped, the pending request fails, and the driver goes idle whatever is queued: nothing is
        queued exactly when nothing was and the callback of the failure submits nothing. */
    method OnTxTransferDone(result: ErrorCode)
      requires SteadyBut() && txBusy && result in {OK, FAILED}
      requires if result == OK then SlotBytes(active) == [] else dma
      modifies this, activeBuffer, pendingBuffer
      ensures inTxIsr == old(inTxIsr) && locked == old(locked) && Sound() && astray == old(astray)
      ensures result == OK ==>
            if old(Strands()) then pendingValid && !activeValid && !txBusy else Steady() && Settled(0)
      ensures result == OK ==> finished == old(finished) + (if old(Refuses()) then [] else old(NextInLine()))
      ensures result == OK ==> failed == old(failed) + (if old(Refuses()) then old(NextInLine()) else [])
      ensures result == OK ==>
            completions == old(completions) + |old(NextInLine())| && (old(NextInLine()) == [] ==> !txBusy)
      ensures result != OK ==> !txBusy && !activeValid && active == pending == Free
      ensures result != OK ==>
            (queued == [] <==> old(queued) == [] && (old(pending) == Free || old(locked) || !old(Takes())))
      ensures result != OK ==>
            wire == old(wire) && finished == old(finished) && failed == old(failed) + old(SlotInfos(pending))
      ensures result != OK ==> exists more :: queued == old(queued) + more && submitted == old(submitted) + more
    {
      hide Ordered, Sound, Total, Infos, Bytes, SlotBytes, Takes, Refuses, Strands, Mine, Waiting, NextInLine, Polite;
      var was := inTxIsr;
      inTxIsr := true;
      DropActive();
      if result != OK {
        AbandonPending();
        inTxIsr := was;
        return;
      }
      Advance();
      inTxIsr := was;
    }

    method DropActive()
      requires Sound() && txBusy && (dma || SlotBytes(active) == [])
      modifies this`txBusy, this`activeLength, this`activeOffset, this`activeInfo, this`activeValid, this`active
      ensures Sound() && !txBusy && !activeValid && active == Free
      ensures old(SlotBytes(active)) == [] && old(Conserved()) ==> Conserved()
    {
      hide Bytes, Infos, Slots, PendingTied, QueueTied, Front, Total;
      txBusy := false;
      ClearActiveTx();
    }

    // What a DMA error does to the pending request.
    method AbandonPending()
      requires dma && Sound() && inTxIsr && Polite() && !txBusy && !activeValid
      modifies this
      ensures Sound() && !txBusy && !activeValid && !pendingValid && pending == Free && active == old(active) && inTxIsr
      ensures locked == old(locked) && astray == old(astray)
      ensures queued == [] <==> old(queued) == [] && (old(pending) == Free || old(locked) || !old(Takes()))
      ensures unchanged(`wire, `finished) && failed == old(failed) + old(SlotInfos(pending))
      ensures exists more :: queued == old(queued) + more && submitted == old(submitted) + more
    {
      hide Sound, Infos, Polite, Takes;
      ghost var more: seq<Message> := [];
      Marks();
      if pendingValid {
        PendingIs();
        more := Finish(pendingInfo, FAILED);
      }
      assert queued == old(queued) + more && submitted == old(submitted) + more;
      DropPending();
    }

    method DropPending()
      requires Sound() && dma
      modifies this`pendingLength, this`pendingInfo, this`pendingValid, this`pending
      ensures Sound() && !pendingValid && pending == Free
    {
      hide Bytes, Infos, Slots, ActiveTied, QueueTied;
      ClearPendingTx();
    }

    lemma PendingIs()
      requires Sound() && pendingValid
      ensures SlotInfos(pending) == [pendingInfo]
    {
    }

    /* ---------------- interrupts ---------------- */

    // FillTxFifo in the interrupt: a request that is out completes the transfer.
    method FillTxFifoFromIsr()
      requires Steady() && !dma
      modifies this, activeBuffer, pendingBuffer
      ensures Steady() && inTxIsr == old(inTxIsr) && astray == old(astray)
      ensures finished == old(finished) || finished == old(finished) + old(NextInLine())
      ensures locked == old(locked) && failed == old(failed)
          && |finished| - |old(finished)| == completions - old(completions)
      ensures old(activeValid) && txBusy && completions == old(completions) ==>
                activeOffset < activeLength == old(activeLength) && Advances(old(activeOffset), old(looks))
    {
      hide Sound, Conserved, Ordered, Polite, NextInLine, Armed, Mine, Waiting, Takes;
      if !activeValid {
        return;
      }
      Push();
      if activeOffset < activeLength {
        return;
      }
      txInterrupt := false;
      OnTxTransferDone(OK);
    }

    method Push()
      requires Sound() && Conserved() && !dma && activeValid && txBusy
      modifies this`activeOffset, this`queueData, this`wire, this`active, this`looks
      ensures Sound() && Conserved() && (activeOffset < activeLength || SlotBytes(active) == [])
      ensures Advances(old(activeOffset), old(looks))
    {
      hide Bytes, Infos, Slots, PendingTied, QueueTied, Front, Total;
      FillTxFifo();
    }

    method HandleTxInterrupt(txFifoEmpty: bool)
      requires Valid() && !dma
      modifies this, activeBuffer, pendingBuffer
      ensures Valid() && astray == old(astray) && locked == old(locked) && failed == old(failed)
      ensures |finished| - |old(finished)| == completions - old(completions) >= 0
      ensures txFifoEmpty && old(activeValid) && txBusy && completions == old(completions) ==>
                activeOffset < activeLength == old(activeLength) && Advances(old(activeOffset), old(looks))
    {
      hide Sound, Conserved, Ordered, Settled, Armed, Polite, Mine;
      if !txFifoEmpty {
        return;
      }
      var was := inTxIsr;
      inTxIsr := true;
      FillTxFifoFromIsr();
      inTxIsr := was;
    }

    // The channel has taken the whole buffer.
    method DmaTxEof()
      requires Valid() && dma && txBusy && dmaTaken == dmaLength
      modifies this, activeBuffer, pendingBuffer
      ensures Sound() && astray == old(Strands()) && (!astray ==> Valid())
      ensures (astray ==> pendingValid && !activeValid && !txBusy) && locked == old(locked)
      ensures finished == old(finished) + (if old(Refuses()) then [] else old(NextInLine()))
      ensures failed == old(failed) + (if old(Refuses()) then old(NextInLine()) else [])
      ensures completions == old(completions) + |old(NextInLine())| && (old(NextInLine()) == [] ==> !txBusy)
    {
      hide Bytes, Infos, Slots, PendingTied, QueueTied, Front, Total, Polite, NextInLine, Conserved, Ordered,
          Strands, Refuses, Waiting, Takes;
      OnTxTransferDone(OK);
      astray := pendingValid && !activeValid;
    }

    // The channel reports an error.
    method DmaTxError()
      requires Valid() && dma && txBusy
      modifies this, activeBuffer, pendingBuffer
      ensures Sound() && astray && !txBusy && !activeValid && active == pending == Free && locked == old(locked)
      ensures queued == [] <==> old(queued) == [] && (old(pending) == Free || old(locked) || !old(Takes()))
    {
      hide Bytes, Infos, Slots, PendingTied, QueueTied, Front, Total, Polite, NextInLine, Conserved, Ordered,
          Strands, Refuses, Waiting, Takes;
      OnTxTransferDone(FAILED);
      astray := true;
    }

    /* ---------------- whole runs ---------------- */

    constructor (dma: bool, bufferSize: nat, queueSize: nat, room: nat -> nat, starts: nat -> bool,
        callback: nat -> seq<seq<Byte>>)
      requires forall n: nat, b :: b in callback(n) && dma ==> |b| <= DMA_MAX
      ensures Valid() && !astray && submitted == [] && !locked && !txBusy && pending == Free && queued == []
      ensures fresh(activeBuffer) && fresh(pendingBuffer) && tries == completions == 0
      ensures (this.dma, this.bufferSize, this.queueSize) == (dma, bufferSize, queueSize)
      ensures this.starts == starts && this.callback == callback
    {
      this.dma, this.bufferSize, this.queueSize, this.room, this.callback := dma, bufferSize, queueSize, room, callback;
      this.starts, tries, astray := starts, 0, false;
      queueInfo, queueData, locked, current, nextId, completions := [], [], false, Request(0, 0), 0, 0;
      var first, second := new Byte[bufferSize], new Byte[bufferSize];
      mounted, mountedToo, activeBuffer, pendingBuffer := first, second, first, second;
      activeLength, pendingLength, activeOffset, activeInfo, pendingInfo := 0, 0, 0, Request(0, 0), Request(0, 0);
      txBusy, inTxIsr, activeValid, pendingValid := false, false, false, false;
      dmaLink, dmaLength, dmaTaken, txInterrupt, looks, wire := 0, 0, 0, false, 0, [];
      active, pending, queued, submitted, finished, failed := Free, Free, [], [], [], [];
    }

    /** The first half of a submission, the port's own: the request joins the queue, or the port is
        taken or full.  Interrupts may come before Call, the other half. */
    method Submit(bytes: seq<Byte>) returns (ec: ErrorCode)
      requires Valid() && bytes != [] && (dma ==> |bytes| <= DMA_MAX)
      modifies this`locked, this`queueData, this`queueInfo, this`current, this`nextId, this`queued, this`submitted
      ensures Valid() && (ec == OK ==> locked && queued == old(queued) + [Message(current, bytes)])
      ensures ec == if old(locked) then BUSY
                    else if |old(queueInfo)| >= queueSize || |old(queueData)| + |bytes| > bufferSize then FULL else OK
      ensures if ec == OK then |submitted| > 0 && submitted == old(submitted) + [Message(current, bytes)]
          else submitted == old(submitted)
    {
      hide Sound, Bytes, Infos, Total, Polite, Armed, Books, Whole, Conserved, Ordered;
      ghost var q, all := queued, submitted;
      OpenBooks([]);
      Marks();
      ec := Publish(bytes);
      if ec == OK {
        ghost var m := Message(current, bytes);
        WholeQueue();
        BooksJoin(wire, active, pending, q, all, finished + [], [m]);
        CloseBooks([]);
        Marks();
      }
    }

    lemma IdleMeansDone()
      requires Valid() && !txBusy && !locked
      ensures wire == Bytes(submitted) && finished == Infos(submitted)
    {
      Marks();
      assert queued == [];
      assert wire + ([] + ([] + [])) == wire;
      assert finished + [] + ([] + []) == finished;
    }

    lemma Buffers()
      requires Sound()
      ensures {activeBuffer, pendingBuffer} <= {mounted, mountedToo}
    {
    }

    method DoStep(step: Step)
      requires Valid() && !astray
      modifies this, mounted, mountedToo
      ensures Sound() && if astray then dma && !txBusy else Valid()
    {
      hide Sound, Conserved, Ordered, Settled, Armed, Polite;
      Buffers();
      match step
      case Submit(bytes) =>
        if bytes != [] && (dma ==> |bytes| <= DMA_MAX) {
          var _ := Submit(bytes);
        }
      case Proceed =>
        if locked {
          var _ := Call();
        }
      case TxFifoEmpty =>
        if !dma {
          HandleTxInterrupt(true);
        }
      case Take(count) =>
        if dma && txBusy && dmaTaken + count <= dmaLength {
          ChannelTakes(count);
        }
      case Eof =>
        if dma && txBusy && dmaTaken == dmaLength {
          DmaTxEof();
        }
      case Error =>
        if dma && txBusy {
          DmaTxError();
        }
    }

    method ChannelTakes(count: nat)
      requires Valid() && dma && txBusy && dmaTaken + count <= dmaLength
      modifies this`dmaTaken, this`wire, this`active
      ensures Valid() && dmaTaken == old(dmaTaken) + count
    {
      hide Sound, Total, Polite;
      DmaTakes(count);
    }

    /** Any run: submissions, their calls, interrupts, DMA progress, refused starts and DMA errors in
        any order, with callbacks that submit anything, up to the first error that leaves the driver
        astray.  Whenever the driver is idle and no submitter is in between, everything submitted
        and not refused is on the wire, in order, and has been completed, in order, exactly once. */
    method Run(steps: seq<Step>) returns (taken: nat)
      requires Valid() && !astray
      modifies this, mounted, mountedToo
      ensures Sound() && taken <= |steps| && if astray then dma && !txBusy else taken == |steps| && Valid()
      ensures !astray && !txBusy && !locked ==> wire == Bytes(submitted) && finished == Infos(submitted)
    {
      hide Valid, Sound;
      ValidIsSound();
      taken := 0;
      while taken < |steps| && !astray
        invariant taken <= |steps| && Sound() && if astray then dma && !txBusy else Valid()
      {
        DoStep(steps[taken]);
        taken := taken + 1;
      }
      if !astray && !txBusy && !locked {
        IdleMeansDone();
      }
    }

    // One more submission to a DMA driver with an empty queue.
    method Send(bytes: seq<Byte>)
      requires Valid() && dma && !locked && queued == [] && queueSize > 0 && 0 < |bytes| <= Min(bufferSize, DMA_MAX)
      requires txBusy || !Refuses()
      modifies this, activeBuffer, pendingBuffer
      ensures Valid() && !locked && txBusy && astray == old(astray) && unchanged(`activeBuffer, `pendingBuffer)
      ensures !old(txBusy) ==> queued == [] && |Waiting()| == 0 && tries == old(tries) + 1
      ensures old(txBusy) ==> |Waiting()| == |old(Waiting())| + 1 && tries == old(tries)
      ensures |Waiting()| == 1 ==> queued == []
      ensures |Waiting()| == 2 ==> |queued| == 1
    {
      hide Sound, Conserved, Ordered, Armed, Polite, Infos, Takes, Refuses;
      IdlePort();
      var _ := Submit(bytes);
      var _ := Call();
      IdlePort();
    }

    // The rest of the active request goes out.
    method SendOff()
      requires Valid() && dma && txBusy
      modifies this`dmaTaken, this`wire, this`active
      ensures Valid() && dmaTaken == dmaLength
    {
      InTransfer();
      ChannelTakes(dmaLength - dmaTaken);
    }

    lemma InTransfer()
      requires Valid() && dma && txBusy
      ensures dmaTaken <= dmaLength
    {
    }

    lemma IdlePort()
      requires Sound()
      ensures |Waiting()| == (if pendingValid then 1 else 0) + |queued| && |queueInfo| == |queued|
          && pending.Loaded? == pendingValid
      ensures dma && queued == [] ==> queueData == []
    {
      hide Infos;
    }

    // The looks at the FIFO that find room.
    function Roomy(): nat -> bool { (n: nat) => room(n) > 0 }

    /** Interrupts that keep coming bring the driver to rest: after finitely many of them it is idle, with
        everything submitted sent and completed in order unless a submitter is in between; or it has gone
        astray; or more than `bound` requests have been accepted, whatever the bound. */
    method RunDry(bound: nat)
      requires Valid() && !astray && (!dma ==> Recurs(Roomy()))
      modifies this, mounted, mountedToo
      ensures Sound() && locked == old(locked) && if astray then dma && !txBusy else Valid()
      ensures !astray ==> !txBusy || |submitted| + |failed| > bound
      ensures !astray && !txBusy && !locked ==> wire == Bytes(submitted) && finished == Infos(submitted)
    {
      hide Sound, Conserved, Ordered, Settled, Armed, Polite, Mine, NextInLine, Refuses, Recurs, Strands, Bytes, Infos;
      var start := completions;
      ghost var ended := |finished| + |failed|;
      ValidIsSound();
      while txBusy && !astray && completions - start <= bound
        invariant Sound() && locked == old(locked) && completions >= start && if astray then dma && !txBusy else Valid()
        invariant |finished| + |failed| == ended + (completions - start)
        decreases bound + 1 - (completions - start), txBusy, activeLength - activeOffset,
                  if dma then 0 else Due(Roomy(), looks) - looks
      {
        Buffers();
        BusyIsActive();
        if dma {
          SendOff();
          Buffers();
          DmaTxEof();
        } else {
          ghost var n, offset := looks, activeOffset;
          HandleTxInterrupt(true);
          if Advances(offset, n) && activeOffset == offset < activeLength {
            SameDue(Roomy(), n, looks);
          }
        }
      }
      if !astray {
        AllFinished();
        if !txBusy && !locked {
          IdleMeansDone();
        }
      }
    }

    lemma BusyIsActive()
      requires Valid()
      ensures txBusy == activeValid && (txBusy && !dma ==> activeOffset <= activeLength)
    {
    }

    lemma AllFinished()
      requires Valid()
      ensures |finished| <= |submitted|
    {
      assert |Infos(submitted)| == |submitted|;
    }

    lemma ValidIsSound()
      requires Valid()
      ensures Sound()
    {
    }
  }

  // A driver whose first request is under way, with two more behind it.
  method ThreeSent(starts: nat -> bool) returns (u: Esp32Uart)
    requires starts(0)
    ensures fresh(u) && fresh(u.activeBuffer) && fresh(u.pendingBuffer) && u.Valid() && u.dma && u.starts == starts
    ensures u.txBusy && !u.astray && !u.locked && u.tries == 1 && |u.queued| == 1 && |u.Waiting()| == 2
  {
    hide Esp32Uart.Valid, Esp32Uart.Waiting;
    u := new Esp32Uart(true, 8, 4, n => 0, starts, n => []);
    u.Send([1]);
    u.Send([2]);
    u.Send([3]);
  }

  /** After a DMA error the driver can be idle with a request in its queue: the third one here. */
  method ErrorLeavesTheQueue() returns (u: Esp32Uart)
    ensures !u.txBusy && !u.activeValid && !u.locked && u.queued != []
  {
    u := ThreeSent(n => true);
    u.DmaTxError();
  }

  /** After a refused start it can be idle with a pending request: the third one here. */
  method RefusalStrandsTheNext() returns (u: Esp32Uart)
    ensures !u.txBusy && !u.activeValid && !u.locked && u.pendingValid
  {
    u := ThreeSent(n => n == 0);
    u.SendOff();
    u.DmaTxEof();
  }

  datatype Step = Submit(bytes: seq<Byte>) | Proceed | TxFifoEmpty | Take(count: nat) | Eof | Error
}
