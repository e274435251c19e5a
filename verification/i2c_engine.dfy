/** The ESP32 I2C transaction engine: the polled ExecuteTransaction and the interrupt-driven
    KickAsyncTransaction, on a controller with eight command registers and two FIFOs. */
module I2cEngine {
  import opened I2cBus
  import opened I2cDevice
  import opened I2cJob
  import opened I2cMemory

  datatype ErrorCode = OK | PENDING | BUSY | ARG_ERR | SIZE_ERR | NO_RESPONSE | TIMEOUT | FAILED

  // How a started segment ends: done, or broken off after `seen` of its events.
  datatype Fate = Fate(ec: ErrorCode, seen: nat)

  // The events of the status register that concern the master.
  datatype Interrupts = Interrupts(nack: bool, timeout: bool, arbitration: bool, complete: bool, endDetect: bool)

  // A caller is told later, or waits; the wait may end before the transfer.
  datatype Operation = Notify | Block(inTime: bool)

  function Min(a: nat, b: nat): nat { if a <= b then a else b }

  // static_cast<uint8_t>
  function U8(n: nat): nat { n % 0x100 }

  class Esp32I2c {
    const fifoLen: nat          // SOC_I2C_FIFO_LEN
    const stopIndependent: bool // SOC_I2C_STOP_INDEPENDENT
    const fate: nat -> Fate     // what the hardware does with the n-th segment
    const check: nat -> ErrorCode  // the bus check before that segment: free or recovered, or an error
    const intrInstalled: bool
    const isrEnableMinSize: nat

    // The controller.
    var slots: seq<Cmd>
    var txFifo: seq<Byte>
    var rxFifo: seq<Byte>
    var flight: seq<Event>      // events of the running segment
    var started: nat            // segments started so far
    // The bus.
    var trace: seq<Event>
    var dev: Device

    // The interrupt-driven transaction.
    var asyncRunning: bool
    var job: Job
    var asyncRead: array<Byte>
    var readBase: nat
    ghost var d0: Device          // the device, the trace and the buffer when it was started
    ghost var t0: seq<Event>
    ghost var rd0: seq<Byte>
    ghost var goal: seq<Event>    // the trace when it is over
    ghost var got: seq<Byte>      // bytes stored so far

    // The bus belongs to one transaction at a time.
    var busy: bool
    ghost var acquired: nat
    ghost var released: nat
    ghost var reports: seq<ErrorCode>   // completions reported for acquired transactions

    ghost predicate Wired() reads this`slots, this`dev {
      3 <= fifoLen <= 0xFF && |slots| == SLOTS && Sound(dev)
          && (forall n :: fate(n).ec in {OK, NO_RESPONSE, TIMEOUT, FAILED})
    }

    // The device has seen exactly the events after position `n0`, starting as `d0`.
    ghost predicate Heard(d0: Device, t0: seq<Event>) reads this`trace, this`dev {
      Sound(d0) && t0 <= trace && dev == Play(d0, trace[|t0|..])
    }

    // The segments `from` to `upto` - 1 went well ...
    ghost predicate AllWell(from: nat, upto: nat) {
      from <= upto && forall n :: from <= n < upto ==> fate(n).ec == OK
    }

    // ... or all of them but the last, which ended with `ec`.
    ghost predicate Went(from: nat, upto: nat, ec: ErrorCode) {
      from < upto && AllWell(from, upto - 1) && fate(upto - 1).ec == ec
    }

    lemma NoneYet(from: nat)
      ensures AllWell(from, from)
    {
    }

    lemma OneMore(from: nat, upto: nat, ec: ErrorCode)
      requires AllWell(from, upto) && fate(upto).ec == ec
      ensures Went(from, upto + 1, ec) && (ec == OK ==> AllWell(from, upto + 1))
    {
    }

    lemma WentWell(from: nat, upto: nat, ec: ErrorCode)
      requires Went(from, upto, ec)
      ensures ec == OK ==> AllWell(from, upto)
    {
    }

    lemma WentOn(from: nat, mid: nat, upto: nat, ec: ErrorCode)
      requires AllWell(from, mid) && Went(mid, upto, ec)
      ensures Went(from, upto, ec) && (ec == OK ==> AllWell(from, upto))
    {
    }

    constructor (fifoLen: nat, stopIndependent: bool, fate: nat -> Fate, check: nat -> ErrorCode, intrInstalled: bool,
                 isrEnableMinSize: nat, dev: Device)
      requires 3 <= fifoLen <= 0xFF && Sound(dev) && forall n :: fate(n).ec in {OK, NO_RESPONSE, TIMEOUT, FAILED}
      ensures Steady() && !busy && trace == [] && started == acquired == released == 0 && reports == []
      ensures (this.fifoLen, this.dev, this.intrInstalled) == (fifoLen, dev, intrInstalled) && fresh(asyncRead)
    {
      this.fifoLen, this.stopIndependent, this.fate, this.check := fifoLen, stopIndependent, fate, check;
      this.intrInstalled, this.isrEnableMinSize, this.dev := intrInstalled, isrEnableMinSize, dev;
      slots, txFifo, rxFifo, flight, started, trace := seq(SLOTS, _ => End), [], [], [], 0, [];
      asyncRunning, job, asyncRead, readBase := false, Job(0, [], 0, [], 0, 0, 0, 0, true, false, false, false),
          new Byte[0], 0;
      d0, t0, rd0, goal, got := dev, [], [], [], [];
      busy, acquired, released, reports := false, 0, 0, [];
    }

    lemma HeardNow()
      requires Sound(dev)
      ensures Heard(dev, trace)
    {
      HeardNothing(dev, trace);
    }

    /* ---------------- the hardware interface ---------------- */

    method ResetFifos()
      modifies this`txFifo, this`rxFifo, this`flight
      ensures txFifo == [] && rxFifo == [] && flight == []
    {
      txFifo, rxFifo, flight := [], [], [];
    }

    method WriteCommand(idx: nat, cmd: Cmd) returns (next: nat)
      requires |slots| == SLOTS && idx < SLOTS
      modifies this`slots
      ensures |slots| == SLOTS && next == idx + 1 && slots[..next] == old(slots[..idx]) + [cmd]
    {
      slots := slots[idx := cmd];
      next := idx + 1;
    }

    method WriteTxFifo(bytes: seq<Byte>)
      requires |txFifo| + |bytes| <= fifoLen
      modifies this`txFifo
      ensures txFifo == old(txFifo) + bytes
    {
      txFifo := txFifo + bytes;
    }

    // Starts the list in registers 0 .. count - 1, never more than six of the eight; a segment may
    // not overrun the RX FIFO.
    method TransStart(count: nat)
      requires |slots| == SLOTS && count <= 6 && Terminated(slots[..count], stopIndependent)
      requires |rxFifo| + ReadCount(Execute(slots[..count], txFifo, stopIndependent).0) <= fifoLen
      modifies this`flight, this`txFifo, this`started
      ensures (flight, txFifo) == Execute(slots[..count], old(txFifo), stopIndependent)
      ensures started == old(started) + 1
    {
      assert slots == slots[..count] + slots[count..];
      StaleSlotsAreDead(slots[..count], slots[count..], txFifo, stopIndependent);
      var r := Execute(slots, txFifo, stopIndependent);
      flight, txFifo, started := r.0, r.1, started + 1;
    }

    // The running segment puts its first `seen` events on the bus and ends.
    method SegmentEnds(seen: nat)
      requires Sound(dev) && seen <= |flight|
      modifies this`flight, this`trace, this`dev, this`rxFifo
      ensures trace == old(trace) + old(flight[..seen]) && flight == []
      ensures dev == Play(old(dev), old(flight[..seen]))
          && rxFifo == old(rxFifo) + Answers(old(dev), old(flight[..seen]))
      ensures Sound(dev)
    {
      trace := trace + flight[..seen];
      rxFifo := rxFifo + Answers(dev, flight[..seen]);
      dev := Play(dev, flight[..seen]);
      flight := [];
    }

    // Waits for the running segment; the caller learns how it ended.
    method StartAndWaitSegment(count: nat) returns (ec: ErrorCode)
      requires Wired() && count <= 6 && Terminated(slots[..count], stopIndependent) && rxFifo == []
      requires ReadCount(Execute(slots[..count], txFifo, stopIndependent).0) <= fifoLen
      modifies this`flight, this`txFifo, this`started, this`trace, this`dev, this`rxFifo
      ensures Wired() && ec == fate(old(started)).ec && started == old(started) + 1
      ensures var events := Execute(slots[..count], old(txFifo), stopIndependent);
        ec == OK ==> trace == old(trace) + events.0 && txFifo == events.1 &&
                     dev == Play(old(dev), events.0) && rxFifo == Answers(old(dev), events.0)
      ensures old(trace) <= trace <= old(trace) + Execute(slots[..count], old(txFifo), stopIndependent).0
      ensures dev == Play(old(dev), trace[|old(trace)|..])
    {
      hide Execute, ReadCount, Terminated, Play, Answers;
      TransStart(count);
      var f := fate(started - 1);
      ec := f.ec;
      var seen := if ec == OK then |flight| else Min(f.seen, |flight|);
      assert flight[..|flight|] == flight && flight[..seen] <= flight;
      ghost var before, part := trace, flight[..seen];
      SegmentEnds(seen);
      assert trace[|before|..] == part;
    }

    /* ---------------- pieces of a command list ---------------- */

    // RESTART and the address byte.
    method PutAddress(address: Byte) returns (idx: nat)
      requires |slots| == SLOTS && txFifo == [] && fifoLen >= 3
      modifies this`slots, this`txFifo
      ensures |slots| == SLOTS && idx == 2 && slots[..2] == [Restart, I2cBus.Write(1)] && txFifo == [address]
    {
      idx := WriteCommand(0, Restart);
      WriteTxFifo([address]);
      idx := WriteCommand(idx, I2cBus.Write(1));
    }

    // One chunk of data, then END.
    method PutChunk(idx: nat, chunk: seq<Byte>) returns (next: nat)
      requires |slots| == SLOTS && idx <= 2 && |chunk| < 0x100 && |txFifo| + |chunk| <= fifoLen
      modifies this`slots, this`txFifo
      ensures |slots| == SLOTS && next == idx + 2
      ensures slots[..next] == old(slots[..idx]) + [I2cBus.Write(|chunk|), End] && txFifo == old(txFifo) + chunk
    {
      WriteTxFifo(chunk);
      next := WriteCommand(idx, I2cBus.Write(U8(|chunk|)));
      next := WriteCommand(next, End);
    }

    method PutStop(idx: nat) returns (next: nat)
      requires |slots| == SLOTS && idx <= 4
      modifies this`slots
      ensures |slots| == SLOTS && next <= 6 && idx < next
          && slots[..next] == old(slots[..idx]) + StopList(stopIndependent)
    {
      next := WriteCommand(idx, Stop);
      if stopIndependent {
        next := WriteCommand(next, End);
      }
    }

    // A read of `chunk` bytes; the last one of a transaction is NACKed and followed by STOP.
    method PutRead(idx: nat, chunk: nat, last: bool) returns (next: nat)
      requires |slots| == SLOTS && idx <= 2 && 0 < chunk < 0x100
      modifies this`slots
      ensures |slots| == SLOTS && next <= 6
      ensures slots[..next] == old(slots[..idx]) + ReadList(chunk, last, stopIndependent)
    {
      if !last {
        next := WriteCommand(idx, I2cBus.Read(U8(chunk), false));
        next := WriteCommand(next, End);
      } else if chunk == 1 {
        next := WriteCommand(idx, I2cBus.Read(1, true));
      } else {
        next := WriteCommand(idx, I2cBus.Read(U8(chunk - 1), false));
        next := WriteCommand(next, I2cBus.Read(1, true));
      }
      if last {
        next := PutStop(next);
      }
    }

    method ReadRxFifo(rd: array<Byte>, at: nat, count: nat)
      requires count <= |rxFifo| && at + count <= rd.Length
      modifies this`rxFifo, rd
      ensures rxFifo == old(rxFifo[count..])
      ensures rd[..] == Splice(old(rd[..]), at, old(rxFifo[..count]))
    {
      var i := 0;
      while i < count
        invariant i <= count && rxFifo == old(rxFifo)
        invariant forall k :: 0 <= k < rd.Length ==> rd[k] == if at <= k < at + i then rxFifo[k - at] else old(rd[k])
      {
        rd[at + i] := rxFifo[i];
        i := i + 1;
      }
      rxFifo := rxFifo[count..];
    }

    /* ---------------- the polled transaction ---------------- */

    // Runs the list in the first `idx` registers, known to stand for `events`.
    method RunSegment(idx: nat, ghost events: seq<Event>, ghost d0: Device, ghost t0: seq<Event>)
        returns (ec: ErrorCode)
      requires Wired() && idx <= 6 && rxFifo == [] && Heard(d0, t0) && ReadCount(events) <= fifoLen
      requires Terminated(slots[..idx], stopIndependent)
          && Execute(slots[..idx], txFifo, stopIndependent) == (events, [])
      modifies this`flight, this`txFifo, this`started, this`trace, this`dev, this`rxFifo
      ensures Wired() && Heard(d0, t0) && started == old(started) + 1 && ec == fate(old(started)).ec
      ensures old(trace) <= trace <= old(trace) + events
      ensures ec == OK ==> trace == old(trace) + events && txFifo == [] && |rxFifo| == ReadCount(events)
      ensures ec == OK ==> Answers(d0, trace[|t0|..]) == Answers(d0, old(trace)[|t0|..]) + rxFifo
    {
      hide Execute, ReadCount, Terminated, Play, Answers;
      ghost var d1, t1 := dev, trace;
      ec := StartAndWaitSegment(idx);
      HeardMore(d0, t0, d1, t1, trace);
      if ec == OK {
        AnswersPerRead(d1, events);
        assert trace[|t1|..] == events;
      }
    }

    // The write half of ExecuteTransaction.
    method ExecuteWrite(slave: nat, bytes: seq<Byte>, readSize: nat) returns (ec: ErrorCode)
      requires Wired() && txFifo == [] && rxFifo == [] && (bytes != [] || readSize == 0)
      modifies this`slots, this`txFifo, this`rxFifo, this`flight, this`started, this`trace, this`dev
      ensures Wired() && Heard(old(dev), old(trace))
      ensures ec == OK ==> txFifo == [] && rxFifo == [] && trace == old(trace) + WriteHalf(slave, bytes, readSize)
      ensures old(trace) <= trace <= old(trace) + WriteHalf(slave, bytes, readSize)
      ensures ec == OK ==> started == old(started) + Segments(|bytes|, fifoLen - 1) + (if readSize == 0 then 1 else 0)
      ensures Went(old(started), started, ec)
    {
      hide AllWell, Execute, ReadCount, Terminated, Play, Answers, StopList, Heard, Writes, WriteSoFar, WriteHalf,
          Opening;
      HeardNow();
      var address := WriteAddress(slave);
      var idx := PutAddress(address);
      var offset := 0;
      ghost var goal := old(trace) + WriteHalf(slave, bytes, readSize);
      WriteStarts(slave, bytes);
      NoneYet(started);
      while offset < |bytes|
        invariant Wired() && offset <= |bytes| && rxFifo == [] && Heard(old(dev), old(trace))
        invariant idx <= 2 && slots[..idx] == OpeningCmds(offset == 0) && txFifo == OpeningBytes(offset == 0, address)
        invariant trace == old(trace) + WriteSoFar(slave, bytes, offset)
        invariant started + Segments(|bytes| - offset, fifoLen - 1) == old(started) + Segments(|bytes|, fifoLen - 1)
        invariant AllWell(old(started), started) && (offset > 0 ==> Went(old(started), started, OK))
      {
        ghost var before := started;
        var chunk := Min(|bytes| - offset, fifoLen - 1);
        ec, idx := ExecuteChunk(idx, address, bytes[offset..offset + chunk], offset == 0, old(dev), old(trace));
        OneMore(old(started), before, ec);
        WriteGrows(slave, bytes, offset, chunk);
        WriteIsPrefix(slave, bytes, readSize, offset + chunk);
        if ec != OK {
          assert trace <= old(trace) + WriteSoFar(slave, bytes, offset + chunk);
          return;
        }
        offset := offset + chunk;
      }
      WriteStops(slave, bytes, readSize);
      if readSize == 0 {
        idx := PutStop(idx);
        StopSegmentRuns(bytes == [], address, stopIndependent);
        OneMore(old(started), started, fate(started).ec);
        ec := RunSegment(idx, Opening(bytes == [], address) + [EvStop], old(dev), old(trace));
      } else {
        ec := OK;
      }
    }

    // One turn of its loop.
    method ExecuteChunk(first: nat, address: Byte, chunk: seq<Byte>, opens: bool, ghost d0: Device,
        ghost t0: seq<Event>)
      returns (ec: ErrorCode, idx: nat)
      requires Wired() && first <= 2 && slots[..first] == OpeningCmds(opens) && txFifo == OpeningBytes(opens, address)
      requires rxFifo == [] && 0 < |chunk| < fifoLen && Heard(d0, t0)
      modifies this`slots, this`txFifo, this`rxFifo, this`flight, this`started, this`trace, this`dev
      ensures Wired() && Heard(d0, t0) && started == old(started) + 1 && idx == 0 && ec == fate(old(started)).ec
      ensures var events := Opening(opens, address) + Writes(chunk);
        old(trace) <= trace <= old(trace) + events &&
        (ec == OK ==> trace == old(trace) + events && txFifo == [] && rxFifo == [])
    {
      hide Execute, ReadCount, Terminated, Play, Answers, Heard, Writes, Opening;
      idx := PutChunk(first, chunk);
      WriteSegmentRuns(opens, address, chunk, stopIndependent);
      ec := RunSegment(idx, Opening(opens, address) + Writes(chunk), d0, t0);
      idx := 0;
    }

    // The read half of ExecuteTransaction.
    method ExecuteRead(slave: nat, rd: array<Byte>, base: nat, readSize: nat) returns (ec: ErrorCode)
      requires Wired() && txFifo == [] && rxFifo == [] && readSize > 0 && base + readSize <= rd.Length
      modifies this`slots, this`txFifo, this`rxFifo, this`flight, this`started, this`trace, this`dev, rd
      ensures Wired() && Heard(old(dev), old(trace))
      ensures ec == OK ==> trace == old(trace) + ReadHalf(slave, readSize)
      ensures ec == OK ==> var got := Answers(old(dev), trace[|old(trace)|..]);
        |got| == readSize && rd[..] == Splice(old(rd[..]), base, got)
      ensures rd[..base] == old(rd[..base]) && rd[base + readSize..] == old(rd[base + readSize..])
      ensures old(trace) <= trace <= old(trace) + ReadHalf(slave, readSize)
      ensures ec == OK ==> started == old(started) + Segments(readSize, fifoLen)
      ensures Went(old(started), started, ec)
    {
      hide AllWell, Execute, ReadCount, Terminated, Play, Answers, StopList, Heard, ReadSoFar, ReadHalf, ReadEvents,
          Opening, Splice;
      HeardNow();
      HeardNothing(dev, trace);
      ReadStarts(slave, readSize);
      var address := ReadAddress(slave);
      var idx := PutAddress(address);
      var offset := 0;
      ghost var d0, t0, rd0 := dev, trace, rd[..];
      ghost var got: seq<Byte> := [];
      SpliceFrame(rd0, base, got);
      NoneYet(started);
      while offset < readSize
        invariant Wired() && offset <= readSize && rxFifo == [] && Heard(d0, t0)
        invariant idx <= 2 && slots[..idx] == OpeningCmds(offset == 0) && txFifo == OpeningBytes(offset == 0, address)
        invariant trace == t0 + ReadSoFar(slave, readSize, offset)
        invariant |got| == offset && got == Answers(d0, trace[|t0|..]) && rd[..] == Splice(rd0, base, got)
        invariant started + Segments(readSize - offset, fifoLen) == old(started) + Segments(readSize, fifoLen)
        invariant AllWell(old(started), started) && (offset > 0 ==> Went(old(started), started, OK))
      {
        ghost var before := started;
        var chunk := Min(readSize - offset, fifoLen);
        ghost var more;
        ec, idx, more := ReadChunk(idx, address, rd, base + offset, chunk, offset + chunk >= readSize, offset == 0,
            d0, t0);
        OneMore(old(started), before, ec);
        ReadGrows(slave, readSize, offset, chunk);
        ReadIsPrefix(slave, readSize, offset + chunk);
        SpliceFrame(rd0, base, got);
        if ec != OK {
          assert trace <= t0 + ReadSoFar(slave, readSize, offset + chunk);
          FrameOutside(rd0, rd[..], base, offset, readSize);
          return;
        }
        SpliceGrows(rd0, base, got, more);
        offset, got := offset + chunk, got + more;
      }
      SpliceFrame(rd0, base, got);
      ec := OK;
    }

    // One turn of its loop; `got` is what it stored.
    method ReadChunk(first: nat, address: Byte, rd: array<Byte>, at: nat, chunk: nat, last: bool, opens: bool,
                     ghost d0: Device, ghost t0: seq<Event>) returns (ec: ErrorCode, idx: nat, ghost got: seq<Byte>)
      requires Wired() && first <= 2 && slots[..first] == OpeningCmds(opens) && txFifo == OpeningBytes(opens, address)
      requires rxFifo == [] && 0 < chunk <= fifoLen && at + chunk <= rd.Length && Heard(d0, t0)
      modifies this`slots, this`txFifo, this`rxFifo, this`flight, this`started, this`trace, this`dev, rd
      ensures Wired() && Heard(d0, t0) && started == old(started) + 1 && idx == 0 && ec == fate(old(started)).ec
      ensures var events := Opening(opens, address) + ReadEvents(chunk, last);
        old(trace) <= trace <= old(trace) + events && (ec == OK ==> trace == old(trace) + events)
      ensures ec != OK ==> rd[..] == old(rd[..])
      ensures ec == OK ==> txFifo == [] && rxFifo == [] && |got| == chunk && rd[..] == Splice(old(rd[..]), at, got)
      ensures ec == OK ==> Answers(d0, trace[|t0|..]) == Answers(d0, old(trace)[|t0|..]) + got
    {
      hide Execute, ReadCount, Terminated, Play, Answers, Heard, ReadEvents, Opening, Splice;
      idx := PutRead(first, chunk, last);
      ReadSegmentRuns(opens, address, chunk, last, stopIndependent);
      ec := RunSegment(idx, Opening(opens, address) + ReadEvents(chunk, last), d0, t0);
      idx := 0;
      got := [];
      if ec == OK {
        got := rxFifo;
        assert got[..chunk] == got;
        ReadRxFifo(rd, at, chunk);
      }
    }

    /** The polled transaction.  When it succeeds the bus carries exactly the ideal transaction, the
        device has seen it, and the buffer holds what the device answered; when it fails the bus
        carries a part of it. */
    method ExecuteTransaction(slave: nat, bytes: seq<Byte>, rd: array<Byte>, base: nat, readSize: nat)
      returns (ec: ErrorCode)
      requires Wired() && base + readSize <= rd.Length
      modifies this`slots, this`txFifo, this`rxFifo, this`flight, this`started, this`trace, this`dev, rd
      ensures Wired() && old(trace) <= trace <= old(trace) + Ideal(slave, bytes, readSize)
      ensures dev == Play(old(dev), trace[|old(trace)|..])
      ensures rd[..base] == old(rd[..base]) && rd[base + readSize..] == old(rd[base + readSize..])
      ensures slave > 0x7F ==> ec == ARG_ERR && trace == old(trace)
      ensures slave <= 0x7F && check(old(started)) != OK ==>
            ec == check(old(started)) && trace == old(trace) && rd[..] == old(rd[..])
      ensures ec == OK ==> Carried(old(trace), old(dev), old(rd[..]), trace, dev, rd[..], slave, bytes, base, readSize)
      ensures ec == OK ==> started == old(started) + SegmentsOf(0, |bytes|, readSize, fifoLen)
      ensures slave <= 0x7F && check(old(started)) == OK ==> Went(old(started), started, ec)
      ensures started >= old(started)
    {
      hide AllWell, Execute, ReadCount, Terminated, StopList, Ideal, WriteHalf, ReadHalf, Play, Answers, Splice,
          Carried;
      HeardNothing(dev, trace);
      if slave > 0x7F {
        return ARG_ERR;
      }
      if check(started) != OK {
        return check(started);
      }
      ResetFifos();
      ghost var d0, t0, rd0 := dev, trace, rd[..];
      HalvesMeet(d0, slave, bytes, readSize);
      NoneYet(started);
      ec := OK;
      if |bytes| > 0 || readSize == 0 {
        ec := ExecuteWrite(slave, bytes, readSize);
        WentWell(old(started), started, ec);
        if ec != OK {
          return;
        }
      }
      ghost var d1, t1, n1 := dev, trace, started;
      HeardNothing(d1, t1);
      if readSize > 0 {
        ec := ExecuteRead(slave, rd, base, readSize);
        WentOn(old(started), n1, started, ec);
        HeardMore(d0, t0, d1, t1, trace);
      }
      if ec == OK {
        BothCarried(t0, d0, rd0, t1, d1, trace, dev, rd[..], slave, bytes, base, readSize);
      }
    }

    /* ---------------- the interrupt-driven transaction ---------------- */

    // What holds of a running transaction: the bus has seen a part of it, the running segment and
    // the segments to come complete it, and what the device answered is in the buffer or the RX FIFO.
    ghost predicate Going()
      reads this, asyncRead
    {
      && Wired() && JobOk(job) && Heard(d0, t0) && readBase + job.readSize <= asyncRead.Length
      && goal == trace + flight + ToCome(job) && txFifo == []
      && |got| == job.readOffset && |rd0| == asyncRead.Length && asyncRead[..] == Splice(rd0, readBase, got)
      && Answers(d0, trace[|t0|..]) == got + rxFifo && |rxFifo| + ReadCount(flight) == job.pendingRead
    }

    // The list in the first `idx` registers stands for `events`.
    ghost predicate Staged(idx: nat, events: seq<Event>, reading: nat)
      reads this`slots, this`txFifo
    {
      && |slots| == SLOTS && 0 < idx <= 6 && Terminated(slots[..idx], stopIndependent)
      && Execute(slots[..idx], txFifo, stopIndependent) == (events, []) && ReadCount(events) == reading
    }

    // The next chunk of the prefix.
    method StagePrefix(first: nat, ghost j: Job) returns (idx: nat, ghost events: seq<Event>)
      requires Opened(first, j) && JobOk(j) && !j.writeDone && job == j.(writeAddrSent := true)
          && j.prefixOffset < |j.prefix|
      modifies this`slots, this`txFifo, this`job
      ensures Staged(idx, events, 0) && JobOk(job) && ToCome(j) == events + ToCome(job)
          && Left(job, fifoLen) + 1 == Left(j, fifoLen)
      ensures job == old(job).(prefixOffset := job.prefixOffset)
    {
      hide Execute, ReadCount, Terminated, ToCome, Opening, Writes, WriteAddress;
      var chunk := Min(|job.prefix| - job.prefixOffset, fifoLen - 1);
      var bytes := job.prefix[job.prefixOffset..job.prefixOffset + chunk];
      SegmentsStep(|job.prefix| - job.prefixOffset, fifoLen - 1);
      PrefixStep(j, chunk);
      WriteSegmentRuns(!j.writeAddrSent, WriteAddress(j.slave), bytes, stopIndependent);
      idx := PutChunk(first, bytes);
      events := Opening(!j.writeAddrSent, WriteAddress(j.slave)) + Writes(bytes);
      job := job.(prefixOffset := job.prefixOffset + chunk);
    }

    // The next chunk of the payload.
    method StagePayload(first: nat, ghost j: Job) returns (idx: nat, ghost events: seq<Event>)
      requires Opened(first, j) && JobOk(j) && !j.writeDone && job == j.(writeAddrSent := true)
      requires j.prefixOffset == |j.prefix| && j.writeOffset < |j.payload|
      modifies this`slots, this`txFifo, this`job
      ensures Staged(idx, events, 0) && JobOk(job) && ToCome(j) == events + ToCome(job)
          && Left(job, fifoLen) + 1 == Left(j, fifoLen)
      ensures job == old(job).(writeOffset := job.writeOffset)
    {
      hide Execute, ReadCount, Terminated, ToCome, Opening, Writes, WriteAddress;
      var chunk := Min(|job.payload| - job.writeOffset, fifoLen - 1);
      var bytes := job.payload[job.writeOffset..job.writeOffset + chunk];
      SegmentsStep(|job.payload| - job.writeOffset, fifoLen - 1);
      PayloadStep(j, chunk);
      WriteSegmentRuns(!j.writeAddrSent, WriteAddress(j.slave), bytes, stopIndependent);
      idx := PutChunk(first, bytes);
      events := Opening(!j.writeAddrSent, WriteAddress(j.slave)) + Writes(bytes);
      job := job.(writeOffset := job.writeOffset + chunk);
    }

    // STOP after a write without a read.
    method StageStop(first: nat, ghost j: Job) returns (idx: nat, ghost events: seq<Event>)
      requires Opened(first, j) && JobOk(j) && !j.writeDone && job == j.(writeAddrSent := true) && AllWritten(j)
          && j.readSize == 0
      modifies this`slots, this`job
      ensures Staged(idx, events, 0) && JobOk(job) && ToCome(j) == events + ToCome(job)
          && Left(job, fifoLen) + 1 == Left(j, fifoLen)
      ensures job == old(job).(writeDone := true, writeStopSent := true)
    {
      hide Execute, ReadCount, Terminated, ToCome, Opening, Writes, WriteAddress;
      StopStep(j);
      StopSegmentRuns(!j.writeAddrSent, WriteAddress(j.slave), stopIndependent);
      idx := first;
      if !job.writeStopSent {
        idx := PutStop(idx);
        job := job.(writeStopSent := true);
      }
      events := Opening(!j.writeAddrSent, WriteAddress(j.slave)) + [EvStop];
      job := job.(writeDone := job.writeStopSent);
    }

    // RESTART and the address byte are staged if `j` had not sent them.
    ghost predicate Opened(idx: nat, j: Job)
      reads this`slots, this`txFifo
    {
      && |slots| == SLOTS && 3 <= fifoLen <= 0xFF && idx <= 2 && slots[..idx] == OpeningCmds(!j.writeAddrSent)
      && txFifo == OpeningBytes(!j.writeAddrSent, WriteAddress(j.slave))
    }

    // The write phase of one kick; false when only the turn to the read phase is left.
    method KickWrite() returns (launched: bool)
      requires Wired() && JobOk(job) && !job.writeDone && job.pendingRead == 0 && txFifo == [] && rxFifo == []
          && flight == []
      modifies this`slots, this`txFifo, this`flight, this`started, this`job
      ensures Wired() && JobOk(job) && txFifo == []
      ensures ToCome(old(job)) == flight + ToCome(job) && ReadCount(flight) == 0
      ensures job == old(job).(prefixOffset := job.prefixOffset, writeOffset := job.writeOffset,
          writeDone := job.writeDone,
                               writeAddrSent := job.writeAddrSent, writeStopSent := job.writeStopSent)
      ensures Left(job, fifoLen) == Left(old(job), fifoLen) - (if launched then 1 else 0)
      ensures if launched then started == old(started) + 1 else flight == [] && started == old(started) && job.writeDone
    {
      hide Execute, Terminated, ToCome, Opening, Writes, WriteAddress, Left;
      ghost var j := job;
      ghost var events: seq<Event> := [];
      var idx := 0;
      if !job.writeAddrSent {
        idx := PutAddress(WriteAddress(job.slave));
        job := job.(writeAddrSent := true);
      }
      if job.prefixOffset < |job.prefix| {
        idx, events := StagePrefix(idx, j);
      } else if job.writeOffset < |job.payload| {
        idx, events := StagePayload(idx, j);
      } else if job.readSize == 0 {
        idx, events := StageStop(idx, j);
      } else {
        TurnStep(j, fifoLen);
        job := job.(writeDone := true);
      }
      if idx > 0 {
        TransStart(idx);
      }
      launched := idx > 0;
    }

    // The read phase of one kick; false when everything has been read.
    method KickRead() returns (launched: bool)
      requires Wired() && JobOk(job) && job.writeDone && job.pendingRead == 0 && txFifo == [] && rxFifo == []
          && flight == []
      modifies this`slots, this`txFifo, this`flight, this`started, this`job
      ensures Wired() && JobOk(job) && txFifo == []
      ensures ToCome(old(job)) == flight + ToCome(job) && ReadCount(flight) == job.pendingRead
      ensures job == old(job).(pendingRead := job.pendingRead, readAddrSent := job.readAddrSent)
      ensures Left(job, fifoLen) == Left(old(job), fifoLen) - (if launched then 1 else 0)
      ensures if launched then started == old(started) + 1
              else
                && flight == [] && started == old(started) && ToCome(job) == []
                && job.readOffset == job.readSize && Left(job, fifoLen) == 0
    {
      assert ReadCount([]) == 0;
      hide Execute, ReadCount, Terminated, Opening, ReadEvents, ReadList, WriteAddress, ReadAddress, ReadAll;
      var idx := 0;
      ghost var j := job;
      ghost var events: seq<Event> := [];
      if job.readSize > 0 {
        if job.readOffset < job.readSize {
          idx, events := StageRead(j);
        }
      }
      if idx > 0 {
        TransStart(idx);
      }
      launched := idx > 0;
    }

    // The next chunk of the read, with RESTART and the address byte in front of the first one.
    method StageRead(ghost j: Job) returns (idx: nat, ghost events: seq<Event>)
      requires Wired() && JobOk(j) && job == j && j.writeDone && j.pendingRead == 0 && j.readOffset < j.readSize
          && txFifo == []
      modifies this`slots, this`txFifo, this`job
      ensures JobOk(job) && Staged(idx, events, job.pendingRead) && ToCome(j) == events + ToCome(job)
      ensures job == j.(pendingRead := job.pendingRead, readAddrSent := job.readAddrSent) && job.pendingRead <= fifoLen
      ensures Left(job, fifoLen) + 1 == Left(j, fifoLen)
    {
      hide Execute, ReadCount, Terminated, ToCome, Opening, ReadEvents, ReadList, ReadAddress;
      idx := 0;
      var address := ReadAddress(job.slave);
      if !job.readAddrSent {
        idx := PutAddress(address);
        job := job.(readAddrSent := true);
      }
      var chunk := Min(job.readSize - job.readOffset, fifoLen);
      var last := job.readOffset + chunk >= job.readSize;
      assert slots[..idx] == OpeningCmds(!j.readAddrSent) && txFifo == OpeningBytes(!j.readAddrSent, address);
      SegmentsStep(job.readSize - job.readOffset, fifoLen);
      ReadStep(j, chunk);
      ReadSegmentRuns(!j.readAddrSent, address, chunk, last, stopIndependent);
      idx := PutRead(idx, chunk, last);
      events := Opening(!j.readAddrSent, address) + ReadEvents(chunk, last);
      job := job.(pendingRead := chunk);
    }

    // Fetches what the last read segment left in the RX FIFO.
    method FetchPending()
      requires Going() && flight == []
      modifies this`rxFifo, this`job, this`got, asyncRead
      ensures Going() && job == old(job).(readOffset := old(job.readOffset + job.pendingRead), pendingRead := 0)
      ensures rxFifo == [] && ToCome(job) == ToCome(old(job)) && Left(job, fifoLen) == Left(old(job), fifoLen)
    {
      hide Execute, Terminated, Opening, Writes, ReadAll, WriteAddress, ReadAddress, Play, Answers, Heard, Splice;
      ghost var k := job.pendingRead;
      if job.pendingRead > 0 {
        SpliceGrows(rd0, readBase, got, rxFifo);
        SpliceFrame(rd0, readBase, got);
        assert rxFifo[..k] == rxFifo;
        got := got + rxFifo;
        ReadRxFifo(asyncRead, readBase + job.readOffset, job.pendingRead);
        job := job.(readOffset := job.readOffset + job.pendingRead, pendingRead := 0);
      }
    }

    /** One call of KickAsyncTransaction: starts exactly the next segment, or finds the transaction
        over.  Nothing of the transaction is skipped or repeated: what is on the bus, the segment
        started and what is still to come add up to the same `goal` as before. */
    method Kick() returns (ec: ErrorCode)
      requires Going() && flight == []
      modifies this`slots, this`txFifo, this`rxFifo, this`flight, this`started, this`job, this`got, asyncRead
      ensures Going() && ec in {PENDING, OK}
      ensures ec == PENDING ==> started == old(started) + 1 && Left(job, fifoLen) + 1 == Left(old(job), fifoLen)
      ensures ec == OK ==>
            && started == old(started) && Left(old(job), fifoLen) == 0 && flight == [] && trace == goal
            && job.readOffset == job.readSize
      ensures (job.slave, job.prefix, job.payload,
          job.readSize) == old((job.slave, job.prefix, job.payload, job.readSize))
    {
      hide Execute, Terminated, Opening, ReadCount, Writes, ReadAll, WriteAddress, ReadAddress, Play, Answers, Heard,
          Splice, ToCome, Left;
      FetchPending();
      if !job.writeDone {
        var launched := KickWrite();
        if launched {
          return PENDING;
        }
      }
      var launched := KickRead();
      return if launched then PENDING else OK;
    }

    /* ---------------- ownership, interrupts and completion ---------------- */

    /** Every acquisition of the bus is matched by at most one release and one report, and by
        exactly one of each once the bus is free. */
    ghost predicate Owned() reads this`busy, this`acquired, this`released, this`reports {
      acquired == released + (if busy then 1 else 0) && |reports| == released
    }

    method Acquire() returns (ok: bool)
      requires Owned()
      modifies this`busy, this`acquired
      ensures ok == !old(busy) && busy && acquired == old(acquired) + (if ok then 1 else 0) && Owned()
    {
      ok := !busy;
      busy := true;
      acquired := acquired + (if ok then 1 else 0);
    }

    // Release() together with the report of the transaction's result.
    method ReleaseAndReport(ec: ErrorCode)
      requires Owned() && busy
      modifies this`busy, this`released, this`reports
      ensures Owned() && !busy && reports == old(reports) + [ec]
    {
      busy := false;
      released := released + 1;
      reports := reports + [ec];
    }

    // What the transaction started as job `j` is to put on the bus.
    ghost predicate Aims(j: Job) reads this`goal, this`t0 {
      goal == t0 + Ideal(j.slave, j.prefix + j.payload, j.readSize)
    }

    method StartAsyncTransaction(slave: nat, prefix: seq<Byte>, payload: seq<Byte>, rd: array<Byte>, base: nat,
        readSize: nat)
      returns (ec: ErrorCode)
      requires Wired() && Owned() && busy && !asyncRunning && base + readSize <= rd.Length
      modifies this`slots, this`txFifo, this`rxFifo, this`flight, this`started, this`asyncRunning, this`job,
               this`asyncRead, this`readBase, this`d0, this`t0, this`rd0, this`goal, this`got, rd
      ensures ec == (if slave > 0x7F then ARG_ERR else if |prefix| > 2 then SIZE_ERR else check(old(started)))
      ensures ec != OK ==> !asyncRunning && Wired() && rd[..] == old(rd[..]) && asyncRead == old(asyncRead)
      ensures ec == OK ==> asyncRunning && Going() && Aims(job) && asyncRead == rd && readBase == base
      ensures ec == OK ==> (job.slave, job.prefix, job.payload, job.readSize) == (slave, prefix, payload, readSize)
      ensures ec == OK ==> (t0, d0, rd0) == (trace, dev, old(rd[..]))
      ensures ec == OK ==>
            && started == old(started) + 1
            && started + Left(job, fifoLen) == old(started) + SegmentsOf(|prefix|, |payload|, readSize, fifoLen)
    {
      hide Execute, Terminated, Opening, ReadCount, Writes, ReadAll, WriteAddress, ReadAddress, ToCome, Left, Ideal,
          Going, SegmentsOf;
      if slave > 0x7F {
        return ARG_ERR;
      }
      if |prefix| > 2 {
        return SIZE_ERR;
      }
      if check(started) != OK {
        return check(started);
      }
      BeginJob(slave, prefix, payload, rd, base, readSize);
      ec := Kick();
      assert ec == PENDING;  // every transaction has at least one segment
      return OK;
    }

    method BeginJob(slave: nat, prefix: seq<Byte>, payload: seq<Byte>, rd: array<Byte>, base: nat, readSize: nat)
      requires Wired() && base + readSize <= rd.Length
      modifies this`txFifo, this`rxFifo, this`flight, this`asyncRunning, this`job, this`asyncRead, this`readBase,
               this`d0, this`t0, this`rd0, this`goal, this`got
      ensures asyncRunning && Going() && Aims(job) && flight == [] && asyncRead == rd && readBase == base
      ensures job == NewJob(slave, prefix, payload, readSize) && (t0, d0, rd0) == (trace, dev, rd[..])
      ensures Left(job, fifoLen) == SegmentsOf(|prefix|, |payload|, readSize, fifoLen) > 0
    {
      hide Ideal, Going, Left, SegmentsOf;
      ResetFifos();
      asyncRunning := true;
      job := NewJob(slave, prefix, payload, readSize);
      asyncRead, readBase := rd, base;
      t0, d0, rd0, got := trace, dev, rd[..], [];
      goal := trace + Ideal(slave, prefix + payload, readSize);
      BeginsGoing(slave, prefix, payload, readSize);
    }

    // The segment in flight goes out whole.
    method SegmentCompletes()
      requires Going()
      modifies this`flight, this`trace, this`dev, this`rxFifo
      ensures Wired() && Going() && flight == [] && trace == old(trace) + old(flight)
    {
      hide Execute, Terminated, Opening, ReadCount, Writes, ReadAll, WriteAddress, ReadAddress, Play, Answers,
          Splice, ToCome, JobOk;
      ghost var d1, t1, sent := dev, trace, flight;
      assert flight[..|flight|] == flight;
      ReadCountOfNothing();
      AnswersPerRead(dev, flight);
      SegmentEnds(|flight|);
      HeardMore(d0, t0, d1, t1, trace);
      assert trace[|t1|..] == sent;
      assert trace + [] + ToCome(job) == t1 + sent + ToCome(job);
    }

    // The segment in flight breaks off.
    method SegmentFails(seen: nat)
      requires Going() && seen <= |flight|
      modifies this`flight, this`trace, this`dev, this`rxFifo
      ensures Wired() && Broken(job.readSize) && old(trace) <= trace
    {
      hide Execute, Terminated, Opening, ReadCount, Writes, ReadAll, WriteAddress, ReadAddress, Play, Answers,
          Splice, ToCome;
      ghost var d1, t1, part, rest := dev, trace, flight[..seen], flight[seen..];
      assert flight == part + rest;
      SegmentEnds(seen);
      HeardMore(d0, t0, d1, t1, trace);
      assert trace[|t1|..] == part;
      assert goal == trace + (rest + ToCome(job));
      SpliceFrame(rd0, readBase, got);
      FrameOutside(rd0, asyncRead[..], readBase, |got|, job.readSize);
    }

    // A transaction whose last segment failed: part of it is on the bus.
    ghost predicate Broken(readSize: nat)
      reads this`slots, this`dev, this`trace, this`goal, this`flight, this`d0, this`t0, this`rd0, this`readBase,
            this`asyncRead, asyncRead
    {
      && Wired() && Heard(d0, t0) && trace <= goal && flight == [] && readBase + readSize <= asyncRead.Length == |rd0|
      && asyncRead[..readBase] == rd0[..readBase] && asyncRead[readBase + readSize..] == rd0[readBase + readSize..]
    }

    lemma ReadCountOfNothing()
      ensures ReadCount([]) == 0
    {
    }

    // The interrupt status register.
    predicate MasterEvent(intr: Interrupts) {
      intr.nack || intr.timeout || intr.arbitration || intr.complete || intr.endDetect
    }

    function ErrorOf(intr: Interrupts): ErrorCode {
      if intr.nack then NO_RESPONSE else if intr.timeout then TIMEOUT else if intr.arbitration then FAILED else OK
    }

    // FinishAsync; nothing when no transaction is running.
    method FinishAsync(ec: ErrorCode)
      requires Owned() && (asyncRunning ==> busy)
      modifies this`asyncRunning, this`job, this`busy, this`released, this`reports
      ensures Owned() && !asyncRunning
      ensures if old(asyncRunning) then !busy && reports == old(reports) + [ec]
              else job == old(job) && busy == old(busy) && reports == old(reports) && released == old(released)
    {
      if !asyncRunning {
        return;
      }
      asyncRunning := false;
      job := Job(job.slave, [], 0, [], 0, 0, 0, 0, true, false, false, false);
      ReleaseAndReport(ec);
    }

    /** The interrupt handler.  A spurious interrupt changes nothing; an error ends the transaction
        with one report; a finished segment starts exactly the next one, or ends the transaction
        with one report of success when the bus has seen all of it. */
    method HandleInterrupt(intr: Interrupts)
      requires Wired() && Owned() && (asyncRunning ==> busy)
      requires asyncRunning && MasterEvent(intr) && ErrorOf(intr) == OK ==> Going() && flight == []
      modifies this`slots, this`txFifo, this`rxFifo, this`flight, this`started, this`job, this`got,
               this`asyncRunning, this`busy, this`released, this`reports, asyncRead
      ensures Wired() && Owned() && (asyncRunning ==> busy)
      ensures !MasterEvent(intr) || !old(asyncRunning) ==> unchanged(this) && unchanged(asyncRead)
      ensures old(asyncRunning) && MasterEvent(intr) && ErrorOf(intr) != OK ==>
                !asyncRunning && !busy && reports == old(reports) + [ErrorOf(intr)]
                    && unchanged(`started, `slots, `flight) && unchanged(asyncRead)
      ensures old(asyncRunning) && MasterEvent(intr) && ErrorOf(intr) == OK ==>
                if asyncRunning then
                  && Going() && reports == old(reports) && started == old(started) + 1
                  && Left(job, fifoLen) + 1 == old(Left(job, fifoLen))
                  && (job.slave, job.prefix, job.payload, job.readSize)
                     == old((job.slave, job.prefix, job.payload, job.readSize))
                else
                  && !busy && reports == old(reports) + [OK] && started == old(started) && old(Left(job, fifoLen)) == 0
                  && Finished(old(job).readSize)
    {
      hide Going, Left, Finished;
      if !MasterEvent(intr) {
        return;
      }
      if !asyncRunning {
        return;
      }
      if intr.nack {
        FinishAsync(NO_RESPONSE);
        return;
      }
      if intr.timeout {
        FinishAsync(TIMEOUT);
        return;
      }
      if intr.arbitration {
        FinishAsync(FAILED);
        return;
      }
      if !intr.complete && !intr.endDetect {
        return;
      }
      var kick := Kick();
      if kick == PENDING {
        GoingIsWired();
        return;
      }
      AllFetched();
      FinishAsync(kick);
    }

    lemma GoingIsWired()
      requires Going()
      ensures Wired() && JobOk(job) && fifoLen > 1
    {
    }

    // The bus has seen the whole transaction and the buffer holds the whole answer.
    ghost predicate Finished(readSize: nat)
      reads this`slots, this`dev, this`trace, this`goal, this`flight, this`got, this`d0, this`t0, this`rd0,
            this`readBase, this`asyncRead, asyncRead
    {
      && Wired() && Heard(d0, t0) && trace == goal && flight == [] && |got| == readSize
      && |rd0| == asyncRead.Length && readBase + readSize <= asyncRead.Length
      && asyncRead[..] == Splice(rd0, readBase, got) && Answers(d0, trace[|t0|..]) == got
    }

    lemma AllFetched()
      requires Going() && flight == [] && trace == goal && job.readOffset == job.readSize
      ensures Finished(job.readSize) && Wired()
    {
      hide Play, Answers, Splice, ToCome;
      assert rxFifo == [];
      assert got + [] == got;
    }

    // The hardware ends the running segment: all of it is out, or part of it and an error.
    method SegmentInterrupt() returns (intr: Interrupts)
      requires Going() && started > 0
      modifies this`flight, this`trace, this`dev, this`rxFifo
      ensures Wired() && MasterEvent(intr) && ErrorOf(intr) == fate(started - 1).ec
      ensures if ErrorOf(intr) == OK then Going() && flight == [] else Broken(job.readSize)
    {
      hide Going, Broken, Wired;
      GoingIsWired();
      FateIsKnown(started - 1);
      var f := fate(started - 1);
      if f.ec == OK {
        var stops := flight != [] && flight[|flight| - 1].EvStop?;
        intr := Interrupts(false, false, false, stops, !stops || stopIndependent);
        SegmentCompletes();
      } else {
        intr := Interrupts(f.ec == NO_RESPONSE, f.ec == TIMEOUT, f.ec == FAILED, false, false);
        SegmentFails(if f.seen <= |flight| then f.seen else |flight|);
      }
    }

    lemma FateIsKnown(n: nat)
      requires Wired()
      ensures fate(n).ec in {OK, NO_RESPONSE, TIMEOUT, FAILED}
    {
    }

    // Every interrupt of a running transaction, until it is over.
    method DriveToEnd(ghost from: nat) returns (ec: ErrorCode)
      requires Going() && Owned() && busy && asyncRunning && from < started && AllWell(from, started - 1)
      modifies this`slots, this`txFifo, this`rxFifo, this`flight, this`started, this`job, this`got,
               this`asyncRunning, this`busy, this`released, this`reports, this`trace, this`dev, asyncRead
      ensures Owned() && !busy && !asyncRunning && reports == old(reports) + [ec] && Went(from, started, ec)
      ensures if ec == OK then Finished(old(job.readSize)) && started == old(started + Left(job, fifoLen))
          else Broken(old(job.readSize))
    {
      hide Going, Broken, Finished, Left, AllWell, Wired, ErrorOf, MasterEvent;
      GoingIsWired();
      ghost var n := job.readSize;
      while true
        invariant Going() && Wired() && JobOk(job) && fifoLen > 1 && Owned() && busy && asyncRunning && from < started
            && AllWell(from, started - 1)
        invariant reports == old(reports) && job.readSize == n
        invariant started + Left(job, fifoLen) == old(started + Left(job, fifoLen))
        decreases Left(job, fifoLen)
      {
        var intr := SegmentInterrupt();
        ec := ErrorOf(intr);
        OneMore(from, started - 1, ec);
        if ec == OK {
          GoingIsWired();
        }
        HandleInterrupt(intr);
        if !asyncRunning {
          return;
        }
        GoingIsWired();
      }
    }

    lemma FinishedCarries(j: Job)
      requires Finished(j.readSize) && Aims(j)
      ensures Carried(t0, d0, rd0, trace, dev, asyncRead[..], j.slave, j.prefix + j.payload, readBase, j.readSize)
    {
      hide Play, Answers, Splice, Ideal;
      assert trace[|t0|..] == Ideal(j.slave, j.prefix + j.payload, j.readSize);
    }

    // Between two calls the bus is taken exactly while somebody holds it.
    ghost predicate Ready()
      reads this`slots, this`dev, this`busy, this`acquired, this`released, this`reports, this`asyncRunning
    {
      Wired() && Owned() && (asyncRunning ==> busy)
    }

    // Moreover, whatever is under way goes on: its interrupts can finish it.
    ghost predicate Steady()
      reads this, asyncRead
    {
      Ready() && asyncRunning == busy && (busy ==> Going() && started > 0)
    }

    // A transaction is under way and its interrupts will finish it.
    ghost predicate Launched(slave: nat, prefix: seq<Byte>, payload: seq<Byte>, readSize: nat)
      reads this, asyncRead
    {
      && asyncRunning && busy && Going() && Aims(job) && started > 0
      && (job.slave, job.prefix, job.payload, job.readSize) == (slave, prefix, payload, readSize)
    }

    /** The interrupt-driven branch of every transfer.  Waited for, it leaves on the bus, in the
        device and in the buffer exactly what ExecuteTransaction leaves for prefix + payload, in as
        many segments as the prefix, the payload and the read need, and reports once.  Not waited
        for, or not long enough, it is left to the interrupts. */
    method TransferByInterrupt(slave: nat, prefix: seq<Byte>, payload: seq<Byte>, rd: array<Byte>, base: nat,
        readSize: nat, op: Operation)
      returns (ec: ErrorCode)
      requires Ready() && busy && !asyncRunning && base + readSize <= rd.Length && slave <= 0x7F && |prefix| <= 2
      modifies this, rd
      ensures Ready() && asyncRunning == busy && asyncRead in {old(asyncRead), rd}
      ensures check(old(started)) != OK ==>
                ec == check(old(started)) && !busy && reports == old(reports) + [ec] && unchanged(`trace, `dev)
                    && rd[..] == old(rd[..])
      ensures check(old(started)) == OK && !busy ==>
            op == Block(true) && reports == old(reports) + [ec] && Went(old(started), started, ec)
      ensures old(trace) <= trace <= old(trace) + Ideal(slave, prefix + payload, readSize)
          && dev == Play(old(dev), trace[|old(trace)|..])
      ensures !busy ==> rd[..base] == old(rd[..base]) && rd[base + readSize..] == old(rd[base + readSize..])
      ensures !busy && ec == OK ==>
                && Carried(old(trace), old(dev), old(rd[..]), trace, dev, rd[..], slave, prefix + payload, base,
                    readSize)
                && started == old(started) + SegmentsOf(|prefix|, |payload|, readSize, fifoLen)
      ensures busy ==> op != Block(true) && check(old(started)) == OK && ec == (if op == Notify then OK else TIMEOUT)
      ensures busy ==> Launched(slave, prefix, payload, readSize) && reports == old(reports)
      ensures busy ==> (t0, d0, rd0, asyncRead, readBase) == (old(trace), old(dev), old(rd[..]), rd, base)
    {
      hide Going, Left, AllWell, Carried, Ideal, Play, Answers, Splice, SegmentsOf, Wired;
      ghost var from := started;
      GroundTruth();
      ec := StartAsyncTransaction(slave, prefix, payload, rd, base, readSize);
      if ec != OK {
        ReleaseAndReport(ec);
        return;
      }
      GoingIsWired();
      ec := Await(from, op);
    }

    lemma GroundTruth()
      requires Wired()
      ensures Sound(dev) && dev == Play(dev, trace[|trace|..])
    {
      HeardNothing(dev, trace);
    }

    // The caller waits for the interrupts, not long enough, or not at all.
    method Await(ghost from: nat, op: Operation) returns (ec: ErrorCode)
      requires Ready() && Going() && Aims(job) && busy && asyncRunning && started == from + 1
      modifies this`slots, this`txFifo, this`rxFifo, this`flight, this`started, this`job, this`got,
               this`asyncRunning, this`busy, this`released, this`reports, this`trace, this`dev, asyncRead
      ensures Ready() && asyncRunning == busy == (op != Block(true)) && Framed(old(job.readSize))
      ensures !busy ==> reports == old(reports) + [ec] && Went(from, started, ec)
      ensures !busy && ec == OK ==>
                && Carried(t0, d0, rd0, trace, dev, asyncRead[..], old(job.slave), old(job.prefix + job.payload),
                    readBase, old(job.readSize))
                && started == old(started + Left(job, fifoLen))
      ensures busy ==>
            && ec == (if op == Notify then OK else TIMEOUT) && Going()
            && unchanged(`job, `reports, `trace, `dev, `started)
    {
      hide Going, Left, AllWell, Broken, Finished, Carried, Ideal, Play, Answers, Splice, Framed;
      NoneYet(from);
      ghost var j := job;
      if op == Block(true) {
        ec := DriveToEnd(from);
        if ec == OK {
          FinishedCarries(j);
          FinishedFrame(j.readSize);
        } else {
          BrokenFrame(j.readSize);
        }
        FramedIsWired(j.readSize);
      } else {
        GoingFrame();
        GoingIsWired();
        ec := if op == Notify then OK else TIMEOUT;
      }
    }

    lemma FramedIsWired(readSize: nat)
      requires Framed(readSize)
      ensures Wired()
    {
    }

    lemma GoingFrame()
      requires Going()
      ensures Framed(job.readSize)
    {
      hide Play, Answers, ToCome;
      assert goal == trace + (flight + ToCome(job));
      SpliceFrame(rd0, readBase, got);
      FrameOutside(rd0, asyncRead[..], readBase, |got|, job.readSize);
    }

    // What a caller sees of either ending.
    ghost predicate Framed(readSize: nat)
      reads this`slots, this`dev, this`trace, this`goal, this`d0, this`t0, this`rd0, this`readBase, this`asyncRead,
            asyncRead
    {
      && Wired() && Sound(d0) && t0 <= trace <= goal && dev == Play(d0, trace[|t0|..])
      && readBase + readSize <= asyncRead.Length == |rd0|
      && asyncRead[..readBase] == rd0[..readBase] && asyncRead[readBase + readSize..] == rd0[readBase + readSize..]
    }

    lemma FinishedFrame(readSize: nat)
      requires Finished(readSize)
      ensures Framed(readSize)
    {
      hide Play, Answers, Splice;
      SpliceFrame(rd0, readBase, got);
    }

    lemma BrokenFrame(readSize: nat)
      requires Broken(readSize)
      ensures Framed(readSize)
    {
      hide Play;
    }

    /* ---------------- the driver's interface ---------------- */

    predicate ShouldUseInterruptAsync(total: nat) {
      intrInstalled && isrEnableMinSize > 0 && total >= isrEnableMinSize
    }

    // Since `t`, when the device was `d`, the bus has carried a part of a transaction, or all of it.
    ghost predicate Carrying(t: seq<Event>, d: Device, slave: nat, bytes: seq<Byte>, readSize: nat)
      reads this`trace, this`dev
    {
      Sound(d) && t <= trace <= t + Ideal(slave, bytes, readSize) && dev == Play(d, trace[|t|..])
    }

    method Write(slave: nat, bytes: seq<Byte>, op: Operation) returns (ec: ErrorCode)
      requires Steady()
      modifies this
      ensures Steady() && (asyncRead == old(asyncRead) || fresh(asyncRead))
      ensures slave > 0x7F ==> ec == ARG_ERR && unchanged(this)
      ensures slave <= 0x7F && old(busy) ==> ec == BUSY && unchanged(this)
      ensures slave <= 0x7F && !old(busy) ==> Carrying(old(trace), old(dev), slave, bytes, 0)
      ensures slave <= 0x7F && !old(busy) && !busy ==> !asyncRunning && reports == old(reports) + [ec]
      ensures slave <= 0x7F && !old(busy) && !busy && ec == OK ==> trace == old(trace) + Ideal(slave, bytes, 0)
      ensures slave <= 0x7F && !old(busy) && busy ==>
            Launched(slave, [], bytes, 0) && reports == old(reports) && op != Block(true)
    {
      hide Ideal, Play, Answers, Splice, Going, SegmentsOf;
      if slave > 0x7F {
        return ARG_ERR;
      }
      var mine := Acquire();
      if !mine {
        return BUSY;
      }
      var nothing := new Byte[0];
      assert [] + bytes == bytes;
      if ShouldUseInterruptAsync(|bytes|) {
        ec := TransferByInterrupt(slave, [], bytes, nothing, 0, 0, op);
        return;
      }
      ec := ExecuteTransaction(slave, bytes, nothing, 0, 0);
      ReleaseAndReport(ec);
    }

    method Read(slave: nat, rd: array<Byte>, op: Operation) returns (ec: ErrorCode)
      requires Steady()
      modifies this, rd
      ensures Steady() && (asyncRead == old(asyncRead) || asyncRead == rd)
      ensures slave > 0x7F ==> ec == ARG_ERR && unchanged(this) && unchanged(rd)
      ensures slave <= 0x7F && old(busy) ==> ec == BUSY && unchanged(this) && unchanged(rd)
      ensures slave <= 0x7F && !old(busy) ==> Carrying(old(trace), old(dev), slave, [], rd.Length)
      ensures slave <= 0x7F && !old(busy) && !busy ==> !asyncRunning && reports == old(reports) + [ec]
      ensures slave <= 0x7F && !old(busy) && !busy && ec == OK ==>
                trace == old(trace) + Ideal(slave, [], rd.Length)
                    && rd[..] == Answers(old(dev), Ideal(slave, [], rd.Length))
      ensures slave <= 0x7F && !old(busy) && busy ==>
            Launched(slave, [], [], rd.Length) && asyncRead == rd && reports == old(reports) && op != Block(true)
    {
      hide Ideal, Play, Answers, Going, SegmentsOf;
      if slave > 0x7F {
        return ARG_ERR;
      }
      var mine := Acquire();
      if !mine {
        return BUSY;
      }
      var none: seq<Byte> := [];
      assert none + none == none;
      if ShouldUseInterruptAsync(rd.Length) {
        ec := TransferByInterrupt(slave, none, none, rd, 0, rd.Length, op);
        return;
      }
      ec := ExecuteTransaction(slave, [], rd, 0, rd.Length);
      ReleaseAndReport(ec);
    }


    function MaxWritePayload(): nat { if fifoLen > 4 then fifoLen - 4 else 0 }

    function MaxWriteReadPrefix(): nat { if fifoLen > 5 then fifoLen - 5 else 0 }

    function MaxReadPayload(): nat { if fifoLen > 4 then fifoLen - 4 else fifoLen }

    // From now on every segment goes well and the bus is free or can be recovered.
    ghost predicate Smooth(from: nat) {
      forall n :: n >= from ==> fate(n).ec == OK && check(n) == OK
    }

    // A register file of that width answers to that address.
    predicate Fits(d: Device, slave: nat, wide: bool) {
      d.slave == slave && d.wide == wide
    }

    // What came of a polled write to a register file.
    ghost predicate WriteCame(d: Device, memAddr: nat, bytes: seq<Byte>, ec: ErrorCode)
      reads this`dev
    {
      && Sound(d) && PartlyWritten(d, dev, memAddr, bytes)
      && (ec == OK ==> dev == Written(d, memAddr, bytes))
    }

    lemma TransferWrote(d: Device, t: seq<Event>, slave: nat, memAddr: nat, bytes: seq<Byte>, wide: bool, ec: ErrorCode)
      requires Carrying(t, d, slave, EncodeMemAddr(memAddr, MemAddrBytes(wide)) + bytes, 0) && Fits(d, slave, wide)
          && memAddr < 0x1_0000
      requires ec == OK ==> trace == t + Ideal(slave, EncodeMemAddr(memAddr, MemAddrBytes(wide)) + bytes, 0)
      ensures WriteCame(d, memAddr, bytes, ec)
    {
      hide Ideal, Play, EncodeMemAddr, PartlyWritten, Written;
      BrokenWrite(d, memAddr, bytes, trace[|t|..]);
      if ec == OK {
        assert trace[|t|..] == Ideal(slave, EncodeMemAddr(memAddr, MemAddrBytes(wide)) + bytes, 0);
        OneWrite(d, memAddr, bytes);
      }
    }

    // One more chunk of a write, at the 16-bit sum of address and offset.
    lemma ChunkWrote(d: Device, d1: Device, memAddr: nat, bytes: seq<Byte>, offset: nat, chunk: nat, ec: ErrorCode)
      requires Sound(d) && offset + chunk <= |bytes|
          && d1 == (if offset == 0 then d else Written(d, memAddr, bytes[..offset]))
      requires memAddr < 0x1_0000 && WriteCame(d1, (memAddr + offset) % 0x1_0000, bytes[offset..offset + chunk], ec)
      ensures PartlyWritten(d, dev, memAddr, bytes)
      ensures ec == OK ==> dev == Written(d, memAddr, bytes[..offset + chunk])
    {
      hide PartlyWritten, Written;
      assert bytes[..offset] + bytes[offset..offset + chunk] == bytes[..offset + chunk];
      WriteChunks(d, memAddr, bytes[..offset], bytes[offset..offset + chunk]);
      if offset == 0 {
        assert bytes[0..chunk] == bytes[..chunk];
        FirstChunk(d, dev, memAddr, bytes, chunk);
      } else {
        PartlyWrittenLater(d, memAddr, bytes, offset, chunk, dev);
      }
    }

    /** A polled write for which the loop does not advance: such a FIFO leaves no room for data beside the
        register address, see ChunkIsEmpty.  Turn by turn it sends the register address alone. */
    predicate Stalls(bytes: seq<Byte>, wide: bool) {
      fifoLen == MemAddrBytes(wide) + 4 && bytes != [] && !ShouldUseInterruptAsync(MemAddrBytes(wide) + |bytes|)
    }

    /** Something goes wrong in the end with transfers of two segments each, the first of them started as
        segment `from`: that is what ends the loop of a write that does not advance. */
    ghost predicate Breaks(from: nat) {
      exists n :: BreaksAt(from, n)
    }

    predicate BreaksAt(from: nat, n: nat) {
      from <= n && (fate(n).ec != OK || ((n - from) % 2 == 0 && check(n) != OK))
    }

    // Where the size check lets a write pass, its next chunk is empty exactly for such a FIFO.
    lemma ChunkIsEmpty(offset: nat, bytes: seq<Byte>, wide: bool)
      requires offset < |bytes| && MemAddrBytes(wide) <= MaxWritePayload()
      ensures Min(|bytes| - offset, MaxWritePayload() - MemAddrBytes(wide)) == 0 <==> fifoLen == MemAddrBytes(wide) + 4
    {
    }

    // Such a write: one byte to a FIFO of five.
    lemma ChunkOfFive(data: Byte)
      requires fifoLen == 5 && !intrInstalled
      ensures Stalls([data], false) && Min(1 - 0, MaxWritePayload() - MemAddrBytes(false)) == 0
    {
    }

    /** A write to a register file, cut into transfers of at most MaxWritePayload bytes when it is
        polled.  Whatever the start address and the length, the registers end up as one uncut
        transfer would leave them, across the end of the register file too; when a transfer fails,
        a first part of the data has been stored. */
    method MemWrite(slave: nat, memAddr: nat, bytes: seq<Byte>, op: Operation, wide: bool) returns (ec: ErrorCode)
      requires Steady() && memAddr < 0x1_0000
      // else it never returns, see StillAtTheStart
      requires slave <= 0x7F && !busy && Stalls(bytes, wide) ==> Breaks(started)
      modifies this
      ensures Steady() && (asyncRead == old(asyncRead) || fresh(asyncRead))
      ensures slave > 0x7F ==> ec == ARG_ERR && unchanged(this)
      ensures slave <= 0x7F && MemAddrBytes(wide) > MaxWritePayload() ==> ec == SIZE_ERR && unchanged(this)
      ensures slave <= 0x7F && MemAddrBytes(wide) <= MaxWritePayload() && old(busy) ==> ec == BUSY && unchanged(this)
      ensures slave <= 0x7F && MemAddrBytes(wide) <= MaxWritePayload() && !old(busy) ==>
                if busy then Launched(slave, EncodeMemAddr(memAddr, MemAddrBytes(wide)), bytes, 0)
                    && reports == old(reports) && op != Block(true)
                else
                  && !asyncRunning && reports == old(reports) + [ec] && (Smooth(old(started)) ==> ec == OK)
                  && (Fits(old(dev), slave, wide) ==> WriteCame(old(dev), memAddr, bytes, ec))
    {
      hide Ideal, Play, Answers, Splice, Going, SegmentsOf, EncodeMemAddr, PartlyWritten, WriteCame;
      if slave > 0x7F {
        return ARG_ERR;
      }
      var memLen := MemAddrBytes(wide);
      if memLen > MaxWritePayload() {
        return SIZE_ERR;
      }
      var mine := Acquire();
      if !mine {
        return BUSY;
      }
      ghost var d, t := dev, trace;
      var memRaw := EncodeMemAddr(memAddr, memLen);
      if ShouldUseInterruptAsync(memLen + |bytes|) {
        AddressFits(memAddr, wide);
        var nothing := new Byte[0];
        ec := TransferByInterrupt(slave, memRaw, bytes, nothing, 0, 0, op);
        if Fits(d, slave, wide) {
          TransferWrote(d, t, slave, memAddr, bytes, wide, if busy then FAILED else ec);
        }
        return;
      }
      if |bytes| == 0 {
        ec := MemWriteChunk(slave, memAddr, bytes, wide);
      } else {
        ec := MemWritePolled(slave, memAddr, bytes, wide);
      }
      ReleaseAndReport(ec);
    }

    // One transfer of a polled write.
    method MemWriteChunk(slave: nat, memAddr: nat, chunk: seq<Byte>, wide: bool) returns (ec: ErrorCode)
      requires Wired() && slave <= 0x7F && memAddr < 0x1_0000
      modifies this`slots, this`txFifo, this`rxFifo, this`flight, this`started, this`trace, this`dev
      ensures Wired() && started >= old(started) && (Smooth(old(started)) ==> ec == OK)
      ensures Fits(old(dev), slave, wide) ==> WriteCame(old(dev), memAddr, chunk, ec)
      ensures dev.slave == old(dev.slave) && dev.wide == old(dev.wide)
      ensures ec == OK ==> check(old(started)) == OK && AllWell(old(started), started)
      ensures ec == OK ==> started == old(started) + SegmentsOf(0, MemAddrBytes(wide) + |chunk|, 0, fifoLen)
      ensures check(old(started)) == OK && (forall n :: n >= old(started) ==> fate(n).ec == OK) ==> ec == OK
    {
      hide Ideal, Play, Answers, Splice, SegmentsOf, EncodeMemAddr, WriteCame, Smooth;
      ghost var d, t, from := dev, trace, started;
      var staging := EncodeMemAddr(memAddr, MemAddrBytes(wide)) + chunk;
      var nothing := new Byte[0];
      ec := ExecuteTransaction(slave, staging, nothing, 0, 0);
      SmoothHelps(from, ec);
      AddressFits(memAddr, wide);
      if check(from) == OK {
        WentWell(from, started, ec);
      }
      if Fits(d, slave, wide) {
        TransferWrote(d, t, slave, memAddr, chunk, wide, ec);
      }
    }

    lemma SmoothHelps(from: nat, ec: ErrorCode)
      requires if check(from) == OK then Went(from, started, ec) else ec == check(from)
      ensures Smooth(from) ==> ec == OK
    {
      if Smooth(from) {
        assert check(from) == OK;
      }
    }

    // A transfer of the register address alone: one segment for it, one for STOP.
    lemma AddressAlone(wide: bool)
      requires Wired()
      ensures SegmentsOf(0, MemAddrBytes(wide), 0, fifoLen) == 2
    {
    }

    // One more turn went well: what breaks the loop is still to come.
    lemma StillToCome(from: nat, now: nat, due: nat)
      requires BreaksAt(from, due) && from <= now <= due && (now - from) % 2 == 0
      requires check(now) == OK && AllWell(now, now + 2)
      ensures now + 2 <= due && (now + 2 - from) % 2 == 0
    {
      assert fate(now).ec == OK && fate(now + 1).ec == OK;
    }

    // The turns of that loop when no data fit beside the register address.
    method TurnOnTheSpot(slave: nat, memAddr: nat, bytes: seq<Byte>, wide: bool) returns (ec: ErrorCode)
      requires Wired() && slave <= 0x7F && memAddr < 0x1_0000 && fifoLen == MemAddrBytes(wide) + 4 && Breaks(started)
      modifies this`slots, this`txFifo, this`rxFifo, this`flight, this`started, this`trace, this`dev
      ensures Wired() && ec != OK && !Smooth(old(started))
      ensures Fits(old(dev), slave, wide) ==> WriteCame(old(dev), memAddr, bytes, ec)
    {
      hide Wired, WriteCame, Smooth, AllWell, SegmentsOf;
      ghost var d, from := dev, started;
      ghost var due: nat :| BreaksAt(from, due);
      AddressAlone(wide);
      GroundTruth();
      NothingStored(d, memAddr, bytes, FAILED);
      ec := OK;
      while ec == OK
        invariant Wired() && Sound(d) && (Fits(d, slave, wide) ==> Fits(dev, slave, wide) && dev.mem == d.mem)
        invariant ec == OK ==> BreaksAt(from, due) && from <= started <= due && (started - from) % 2 == 0
        decreases ec == OK, due - started
      {
        ghost var d1, now := dev, started;
        ec := MemWriteChunk(slave, memAddr, [], wide);
        if Fits(d, slave, wide) {
          EmptyCame(d1, memAddr, ec);
        }
        if ec == OK {
          StillToCome(from, now, due);
        }
      }
      RoughSomewhere(from, due);
      if Fits(d, slave, wide) {
        NothingStored(d, memAddr, bytes, ec);
      }
    }

    lemma RoughSomewhere(from: nat, due: nat)
      requires BreaksAt(from, due)
      ensures !Smooth(from)
    {
      assert fate(due).ec != OK || check(due) != OK;
    }

    // A transfer without data stores nothing, and storing nothing is a first part of any write.
    lemma EmptyCame(d: Device, memAddr: nat, ec: ErrorCode)
      requires WriteCame(d, memAddr, [], ec)
      ensures dev.mem == d.mem
    {
    }

    lemma NothingStored(d: Device, memAddr: nat, bytes: seq<Byte>, ec: ErrorCode)
      requires Sound(d) && ec != OK
      ensures dev.mem == d.mem ==> WriteCame(d, memAddr, bytes, ec)
    {
      assert bytes[..0] == [];
      assert Stored(d.mem, Wrap(memAddr, Size(d)), bytes[..0]) == d.mem;
    }

    /** The loop of a polled write.  It ends, also where it does not advance but something breaks. */
    method MemWritePolled(slave: nat, memAddr: nat, bytes: seq<Byte>, wide: bool) returns (ec: ErrorCode)
      requires Wired() && slave <= 0x7F && memAddr < 0x1_0000 && bytes != [] && MemAddrBytes(wide) <= MaxWritePayload()
      requires fifoLen == MemAddrBytes(wide) + 4 ==> Breaks(started)
      modifies this`slots, this`txFifo, this`rxFifo, this`flight, this`started, this`trace, this`dev
      ensures Wired() && (Smooth(old(started)) ==> ec == OK)
      ensures Fits(old(dev), slave, wide) ==> WriteCame(old(dev), memAddr, bytes, ec)
      ensures fifoLen == MemAddrBytes(wide) + 4 ==> ec != OK
    {
      hide Wired, WriteCame, Smooth, PartlyWritten, Written, AllWell, SegmentsOf;
      var maxChunk := MaxWritePayload() - MemAddrBytes(wide);
      if maxChunk == 0 {
        ec := TurnOnTheSpot(slave, memAddr, bytes, wide);
        return;
      }
      ghost var d, from := dev, started;
      var offset := 0;
      ec := OK;
      GroundTruth();
      WrittenAllOrNone(d, memAddr, bytes);
      while offset < |bytes|
        invariant Wired() && offset <= |bytes| && started >= from && Sound(d) && ec == OK
        invariant Fits(d, slave, wide) ==> PartlyWritten(d, dev, memAddr, bytes)
        invariant Fits(d, slave, wide) ==> dev == if offset == 0 then d else Written(d, memAddr, bytes[..offset])
      {
        var chunk := Min(|bytes| - offset, maxChunk);
        ghost var d1, n := dev, started;
        ec := MemWriteChunk(slave, (memAddr + offset) % 0x1_0000, bytes[offset..offset + chunk], wide);
        SmoothLater(from, n);
        if Fits(d, slave, wide) {
          WrittenKeeps(d, memAddr, bytes[..offset]);
          ChunkWrote(d, d1, memAddr, bytes, offset, chunk, ec);
        }
        if ec != OK {
          break;
        }
        offset := offset + chunk;
      }
      assert ec == OK ==> bytes[..offset] == bytes;
      CameAbout(d, memAddr, bytes, ec, Fits(d, slave, wide));
    }

    /** Where nothing breaks, no number of turns brings a write that does not advance to its end. */
    method StillAtTheStart(slave: nat, memAddr: nat, bytes: seq<Byte>, wide: bool, turns: nat)
        returns (offset: nat, ec: ErrorCode)
      requires Wired() && slave <= 0x7F && memAddr < 0x1_0000 && bytes != [] && fifoLen == MemAddrBytes(wide) + 4
          && !Breaks(started)
      modifies this`slots, this`txFifo, this`rxFifo, this`flight, this`started, this`trace, this`dev
      ensures Wired() && ec == OK && offset == 0 < |bytes| && started == old(started) + 2 * turns
    {
      hide Wired, WriteCame, Smooth, SegmentsOf, Breaks;
      ghost var from := started;
      AddressAlone(wide);
      offset, ec := 0, OK;
      var n := 0;
      while n < turns && offset < |bytes| && ec == OK
        invariant Wired() && n <= turns && offset == 0 && ec == OK && started == from + 2 * n
      {
        NothingBreaks(from, started);
        var chunk := Min(|bytes| - offset, MaxWritePayload() - MemAddrBytes(wide));
        ec := MemWriteChunk(slave, (memAddr + offset) % 0x1_0000, bytes[offset..offset + chunk], wide);
        offset := offset + chunk;
        n := n + 1;
      }
    }

    lemma NothingBreaks(from: nat, now: nat)
      requires !Breaks(from) && from <= now && (now - from) % 2 == 0
      ensures check(now) == OK && forall n :: n >= now ==> fate(n).ec == OK
    {
      assert !BreaksAt(from, now);
      forall n | n >= now ensures fate(n).ec == OK {
        assert !BreaksAt(from, n);
      }
    }

    lemma SmoothLater(from: nat, later: nat)
      requires from <= later
      ensures Smooth(from) ==> Smooth(later)
    {
    }

    lemma WrittenKeeps(d: Device, memAddr: nat, bytes: seq<Byte>)
      requires Sound(d)
      ensures Written(d, memAddr, bytes).slave == d.slave && Written(d, memAddr, bytes).wide == d.wide
    {
    }

    lemma CameAbout(d: Device, memAddr: nat, bytes: seq<Byte>, ec: ErrorCode, fits: bool)
      requires Sound(d) && (fits ==> PartlyWritten(d, dev, memAddr, bytes))
          && (ec == OK && fits ==> dev == Written(d, memAddr, bytes))
      ensures fits ==> WriteCame(d, memAddr, bytes, ec)
    {
    }

    lemma AddressFits(memAddr: nat, wide: bool)
      ensures |EncodeMemAddr(memAddr, MemAddrBytes(wide))| == MemAddrBytes(wide) <= 2
    {
    }


    // What came of one read of `count` > 0 registers.
    ghost predicate ReadCame(d: Device, memAddr: nat, got: seq<Byte>, ec: ErrorCode)
      reads this`dev
    {
      && Sound(d) && dev.mem == d.mem
      && (ec == OK ==> dev == ReadFrom(d, memAddr, |got|) && got == Registers(d, memAddr, |got|))
    }

    lemma TransferRead(d: Device, t: seq<Event>, slave: nat, memAddr: nat, got: seq<Byte>, wide: bool, ec: ErrorCode)
      requires memAddr < 0x1_0000 && got != [] && Fits(d, slave, wide)
      requires Carrying(t, d, slave, EncodeMemAddr(memAddr, MemAddrBytes(wide)), |got|)
      requires ec == OK ==> var events := Ideal(slave, EncodeMemAddr(memAddr, MemAddrBytes(wide)), |got|);
        trace == t + events && got == Answers(d, events)
      ensures ReadCame(d, memAddr, got, ec)
    {
      hide Ideal, Play, Answers, EncodeMemAddr, ReadFrom, Registers;
      BrokenRead(d, memAddr, |got|, trace[|t|..]);
      if ec == OK {
        assert trace[|t|..] == Ideal(slave, EncodeMemAddr(memAddr, MemAddrBytes(wide)), |got|);
        OneRead(d, memAddr, |got|);
      }
    }

    // One transfer of a polled read.
    method MemReadChunk(slave: nat, memAddr: nat, rd: array<Byte>, at: nat, chunk: nat, wide: bool)
        returns (ec: ErrorCode)
      requires Wired() && slave <= 0x7F && memAddr < 0x1_0000 && chunk > 0 && at + chunk <= rd.Length
      modifies this`slots, this`txFifo, this`rxFifo, this`flight, this`started, this`trace, this`dev, rd
      ensures Wired() && started >= old(started) && (Smooth(old(started)) ==> ec == OK)
      ensures Fits(old(dev), slave, wide) ==> ReadCame(old(dev), memAddr, rd[at..at + chunk], ec)
      ensures rd[..at] == old(rd[..at])
    {
      hide Ideal, Play, Answers, Splice, SegmentsOf, EncodeMemAddr, ReadCame, Smooth;
      ghost var d, t, from, was := dev, trace, started, rd[..];
      var memRaw := EncodeMemAddr(memAddr, MemAddrBytes(wide));
      ec := ExecuteTransaction(slave, memRaw, rd, at, chunk);
      SmoothHelps(from, ec);
      if ec == OK {
        SpliceFrame(was, at, Answers(d, Ideal(slave, memRaw, chunk)));
        assert rd[at..at + chunk] == rd[..][at..at + chunk];
      }
      if Fits(d, slave, wide) {
        TransferRead(d, t, slave, memAddr, rd[at..at + chunk], wide, ec);
      }
    }

    // One more chunk of a read, from the 16-bit sum of address and offset.
    lemma ChunkRead(d: Device, d1: Device, memAddr: nat, sofar: seq<Byte>, chunk: seq<Byte>, ec: ErrorCode)
      requires Sound(d) && d1 == (if sofar == [] then d else ReadFrom(d, memAddr, |sofar|))
          && sofar == Registers(d, memAddr, |sofar|)
      requires memAddr < 0x1_0000 && ReadCame(d1, (memAddr + |sofar|) % 0x1_0000, chunk, ec)
      ensures ReadCame(d, memAddr, sofar + chunk, ec)
    {
      ReadFromKeeps(d, memAddr, |sofar|);
      hide ReadFrom, Registers;
      ReadChunks(d, memAddr, |sofar|, |chunk|);
      if sofar == [] {
        assert sofar + chunk == chunk;
      }
    }

    lemma ReadFromKeeps(d: Device, memAddr: nat, count: nat)
      requires Sound(d)
      ensures var r := ReadFrom(d, memAddr, count); r.slave == d.slave && r.wide == d.wide && r.mem == d.mem
    {
    }

    lemma NothingRead(d: Device, memAddr: nat)
      requires Sound(d)
      ensures Registers(d, memAddr, 0) == []
    {
    }

    method MemReadPolled(slave: nat, memAddr: nat, rd: array<Byte>, wide: bool) returns (ec: ErrorCode)
      requires Wired() && slave <= 0x7F && memAddr < 0x1_0000
      modifies this`slots, this`txFifo, this`rxFifo, this`flight, this`started, this`trace, this`dev, rd
      ensures Wired() && (Smooth(old(started)) ==> ec == OK)
      ensures rd.Length == 0 ==> unchanged(this) && ec == OK
      ensures Fits(old(dev), slave, wide) && rd.Length > 0 ==> ReadCame(old(dev), memAddr, rd[..], ec)
    {
      hide Wired, ReadCame, Smooth, ReadFrom, Registers;
      ghost var d, from := dev, started;
      var offset := 0;
      ec := OK;
      GroundTruth();
      RoomToRead();
      NothingRead(d, memAddr);
      while offset < rd.Length
        invariant Wired() && offset <= rd.Length && started >= from && Sound(d) && ec == OK
            && (offset == 0 ==> unchanged(this))
        invariant Fits(d, slave, wide) ==>
          dev == (if offset == 0 then d else ReadFrom(d, memAddr, offset))
              && rd[..offset] == Registers(d, memAddr, offset)
        invariant Fits(d, slave, wide) && offset > 0 ==> ReadCame(d, memAddr, rd[..offset], OK)
      {
        var chunk := Min(rd.Length - offset, MaxReadPayload());
        ghost var d1, n, sofar := dev, started, rd[..offset];
        ec := MemReadChunk(slave, (memAddr + offset) % 0x1_0000, rd, offset, chunk, wide);
        SmoothLater(from, n);
        if Fits(d, slave, wide) {
          ReadFromKeeps(d, memAddr, offset);
          ChunkRead(d, d1, memAddr, sofar, rd[offset..offset + chunk], ec);
          assert rd[..offset + chunk] == sofar + rd[offset..offset + chunk];
          CameOfRead(d, memAddr, rd[..offset + chunk], rd[..], ec);
        }
        if ec != OK {
          break;
        }
        offset := offset + chunk;
      }
      assert offset == rd.Length ==> rd[..offset] == rd[..];
    }

    lemma RoomToRead()
      requires Wired()
      ensures MaxReadPayload() > 0
    {
    }

    // A read that failed has left the registers alone, whatever it got.
    lemma CameOfRead(d: Device, memAddr: nat, got: seq<Byte>, buffer: seq<Byte>, ec: ErrorCode)
      requires ReadCame(d, memAddr, got, ec)
      ensures ec != OK ==> ReadCame(d, memAddr, buffer, ec)
      ensures dev.mem == d.mem
          && (ec == OK ==> dev == ReadFrom(d, memAddr, |got|) && got == Registers(d, memAddr, |got|))
    {
    }

    /** A read of a register file, cut into transfers of at most MaxReadPayload bytes when it is
        polled.  The buffer and the device end up as after one uncut transfer, for every start and
        every length but zero: a read of nothing leaves the pointer where it is, see
        EmptyReadMovesNoPointer.  Nothing is ever stored in the device. */
    method MemRead(slave: nat, memAddr: nat, rd: array<Byte>, op: Operation, wide: bool) returns (ec: ErrorCode)
      requires Steady() && memAddr < 0x1_0000
      modifies this, rd
      ensures Steady() && (asyncRead == old(asyncRead) || asyncRead == rd)
      ensures slave > 0x7F ==> ec == ARG_ERR && unchanged(this) && unchanged(rd)
      ensures slave <= 0x7F && MemAddrBytes(wide) > MaxWriteReadPrefix() ==>
            ec == SIZE_ERR && unchanged(this) && unchanged(rd)
      ensures slave <= 0x7F && MemAddrBytes(wide) <= MaxWriteReadPrefix() && old(busy) ==>
            ec == BUSY && unchanged(this) && unchanged(rd)
      ensures slave <= 0x7F && MemAddrBytes(wide) <= MaxWriteReadPrefix() && !old(busy) ==>
                if busy then Launched(slave, EncodeMemAddr(memAddr, MemAddrBytes(wide)), [], rd.Length)
                    && asyncRead == rd && reports == old(reports)
                else
                  && !asyncRunning && reports == old(reports) + [ec] && (Smooth(old(started)) ==> ec == OK)
                  && (rd.Length == 0 ==> ec == OK && unchanged(`trace, `dev))
                  && (Fits(old(dev), slave, wide) ==> dev.mem == old(dev.mem))
                  && (Fits(old(dev), slave, wide) && rd.Length > 0 && ec == OK ==>
                        dev == ReadFrom(old(dev), memAddr, rd.Length)
                            && rd[..] == Registers(old(dev), memAddr, rd.Length))
    {
      hide Ideal, Play, Answers, Going, SegmentsOf, EncodeMemAddr, ReadFrom, Registers, ReadCame, Splice, Smooth;
      if slave > 0x7F {
        return ARG_ERR;
      }
      var memLen := MemAddrBytes(wide);
      if memLen > MaxWriteReadPrefix() {
        return SIZE_ERR;
      }
      var mine := Acquire();
      if !mine {
        return BUSY;
      }
      var memRaw := EncodeMemAddr(memAddr, memLen);
      if rd.Length > 0 && ShouldUseInterruptAsync(memLen + rd.Length) {
        ec := MemReadByInterrupt(slave, memAddr, rd, op, wide);
        return;
      }
      ec := MemReadPolled(slave, memAddr, rd, wide);
      if Fits(old(dev), slave, wide) && rd.Length > 0 {
        CameOfRead(old(dev), memAddr, rd[..], rd[..], ec);
      }
      ReleaseAndReport(ec);
    }

    // Its interrupt-driven branch.
    method MemReadByInterrupt(slave: nat, memAddr: nat, rd: array<Byte>, op: Operation, wide: bool)
        returns (ec: ErrorCode)
      requires Ready() && busy && !asyncRunning && slave <= 0x7F && memAddr < 0x1_0000 && rd.Length > 0
      modifies this, rd
      ensures Ready() && asyncRunning == busy && asyncRead in {old(asyncRead), rd}
      ensures if busy then Launched(slave, EncodeMemAddr(memAddr, MemAddrBytes(wide)), [], rd.Length)
          && asyncRead == rd && reports == old(reports)
              else
                && reports == old(reports) + [ec] && (Smooth(old(started)) ==> ec == OK)
                && (Fits(old(dev), slave, wide) ==> dev.mem == old(dev.mem))
                && (Fits(old(dev), slave, wide) && ec == OK ==>
                      dev == ReadFrom(old(dev), memAddr, rd.Length)
                          && rd[..] == Registers(old(dev), memAddr, rd.Length))
    {
      hide Ideal, Play, Answers, Going, SegmentsOf, EncodeMemAddr, ReadFrom, Registers, ReadCame, Smooth;
      ghost var d, t, from := dev, trace, started;
      var memRaw := EncodeMemAddr(memAddr, MemAddrBytes(wide));
      AddressFits(memAddr, wide);
      assert memRaw + [] == memRaw;
      ec := TransferByInterrupt(slave, memRaw, [], rd, 0, rd.Length, op);
      if !busy {
        SmoothHelps(from, ec);
        if Fits(d, slave, wide) {
          TransferRead(d, t, slave, memAddr, rd[..], wide, ec);
          CameOfRead(d, memAddr, rd[..], rd[..], ec);
        }
      }
    }


    /* ---------------- whole runs ---------------- */

    // The running segment ends, well or not, and the handler takes its interrupt.
    method SegmentOver()
      requires Steady() && busy
      modifies this`slots, this`txFifo, this`rxFifo, this`flight, this`started, this`job, this`got,
               this`asyncRunning, this`busy, this`released, this`reports, this`trace, this`dev, asyncRead
      ensures Steady() && |reports| == |old(reports)| + (if busy then 0 else 1) && old(reports) <= reports
      ensures !busy ==> reports[|reports| - 1] == fate(old(started) - 1).ec
    {
      hide Going, Wired, Broken, Finished, Left;
      var intr := SegmentInterrupt();
      HandleInterrupt(intr);
    }

    method Perform(call: Call, op: Operation)
      requires Steady()
      modifies this, asyncRead
      ensures Steady() && (asyncRead == old(asyncRead) || fresh(asyncRead)) && old(reports) <= reports
          && old(acquired) <= acquired
    {
      hide Ideal, Play, Answers, Splice, Going, SegmentsOf, EncodeMemAddr, Carrying, Launched, WriteCame, ReadFrom,
          Registers, Fits, Smooth, Wired;
      match call
      case Write(slave, bytes) =>
        var _ := Write(slave, bytes, op);
      case Read(slave, length) =>
        var rd := new Byte[length];
        var _ := Read(slave, rd, op);
      case MemWrite(slave, memAddr, bytes, wide) =>
        if !Stalls(bytes, wide) {  // a call that may not return is left out
          var _ := MemWrite(slave, memAddr % 0x1_0000, bytes, op, wide);
        }
      case MemRead(slave, memAddr, length, wide) =>
        var rd := new Byte[length];
        var _ := MemRead(slave, memAddr % 0x1_0000, rd, op, wide);
    }

    /** Any run of calls, ends of segments and spurious interrupts: every acquisition of the bus is
        released and reported at most once, exactly once when the bus is free again; and a transaction
        that still holds the bus can go on to its end. */
    method Run(steps: seq<Step>)
      requires Steady()
      modifies this, asyncRead
      ensures Steady() && old(reports) <= reports
      ensures acquired == released + (if asyncRunning then 1 else 0) && |reports| == released
    {
      hide Going, Wired;
      var i := 0;
      while i < |steps|
        invariant i <= |steps| && Steady() && (asyncRead == old(asyncRead) || fresh(asyncRead))
            && old(reports) <= reports
      {
        match steps[i] {
          case Start(call, op) => Perform(call, op);
          case SegmentEnd =>
            if busy {
              SegmentOver();
            }
          case Spurious(intr) =>
            if !MasterEvent(intr) || !asyncRunning {
              HandleInterrupt(intr);
            }
        }
        i := i + 1;
      }
    }

    lemma BeginsGoing(slave: nat, prefix: seq<Byte>, payload: seq<Byte>, readSize: nat)
      requires Wired() && job == NewJob(slave, prefix, payload, readSize) && readBase + readSize <= asyncRead.Length
      requires t0 == trace && d0 == dev && rd0 == asyncRead[..] && got == []
          && goal == trace + Ideal(slave, prefix + payload, readSize)
      requires txFifo == [] && rxFifo == [] && flight == []
      ensures Going() && Left(job, fifoLen) == SegmentsOf(|prefix|, |payload|, readSize, fifoLen) > 0
    {
      hide Ideal, ToCome, Play, Answers;
      NewJobToCome(slave, prefix, payload, readSize, fifoLen);
      HeardNothing(dev, trace);
      SpliceFrame(rd0, readBase, []);
    }
  }

  // A call of the driver, or what happens between two calls.
  datatype Call =
    | Write(slave: nat, bytes: seq<Byte>)
    | Read(slave: nat, length: nat)
    | MemWrite(slave: nat, memAddr: nat, bytes: seq<Byte>, wide: bool)
    | MemRead(slave: nat, memAddr: nat, length: nat, wide: bool)

  datatype Step = Start(call: Call, op: Operation) | SegmentEnd | Spurious(intr: Interrupts)

  /** What a successful transaction leaves behind, on the bus, in the device and in the buffer. */
  ghost predicate Carried(t0: seq<Event>, d0: Device, rd0: seq<Byte>, t: seq<Event>, d: Device, rd: seq<Byte>,
                          slave: nat, bytes: seq<Byte>, base: nat, readSize: nat)
  {
    && Sound(d0) && t == t0 + Ideal(slave, bytes, readSize) && d == Play(d0, Ideal(slave, bytes, readSize))
    && var got := Answers(d0, Ideal(slave, bytes, readSize));
       |got| == readSize && base + readSize <= |rd0| && rd == Splice(rd0, base, got)
  }

  /** The two engines, run from equal states on the same bytes, cut into prefix and payload anywhere.
      What either leaves on the bus is a first part of what the other leaves, whatever fails; when both
      succeed, bus, device and buffer are the same; and on a bus without failures both do. */
  method EnginesAgree(polled: Esp32I2c, driven: Esp32I2c, slave: nat, prefix: seq<Byte>, payload: seq<Byte>,
                      rd: array<Byte>, rd': array<Byte>, base: nat, readSize: nat)
                          returns (ec: ErrorCode, ec': ErrorCode)
    requires polled != driven && rd != rd' && polled.Wired() && driven.Ready() && driven.busy && !driven.asyncRunning
    requires polled.trace == driven.trace && polled.dev == driven.dev && rd[..] == rd'[..]
    requires slave <= 0x7F && |prefix| <= 2 && base + readSize <= rd.Length
    modifies polled, driven, rd, rd'
    ensures polled.trace <= driven.trace || driven.trace <= polled.trace
    ensures ec == ec' == OK ==> polled.trace == driven.trace && polled.dev == driven.dev && rd[..] == rd'[..]
    ensures polled.Smooth(old(polled.started)) && driven.Smooth(old(driven.started)) ==> ec == ec' == OK
  {
    hide Ideal, Play, Answers, Splice, Esp32I2c.Going, SegmentsOf, Esp32I2c.Smooth, Esp32I2c.Wired, Esp32I2c.Went,
        Esp32I2c.Launched;
    ghost var from, from' := polled.started, driven.started;
    ec := polled.ExecuteTransaction(slave, prefix + payload, rd, base, readSize);
    polled.SmoothHelps(from, ec);
    ec' := driven.TransferByInterrupt(slave, prefix, payload, rd', base, readSize, Block(true));
    driven.SmoothHelps(from', ec');
  }

  // A write half followed by a read half is the whole transaction.
  lemma BothCarried(t0: seq<Event>, d0: Device, rd0: seq<Byte>, t1: seq<Event>, d1: Device,
                    t: seq<Event>, d: Device, rd: seq<Byte>, slave: nat, bytes: seq<Byte>, base: nat, readSize: nat)
    requires Sound(d0) && t1 == t0 + WriteHalf(slave, bytes, readSize) && d1 == Play(d0, t1[|t0|..])
    requires t == t1 + ReadHalf(slave, readSize) && d == Play(d1, t[|t1|..]) && base + readSize <= |rd0|
    requires if readSize == 0 then rd == rd0
             else |Answers(d1, t[|t1|..])| == readSize && rd == Splice(rd0, base, Answers(d1, t[|t1|..]))
    ensures Carried(t0, d0, rd0, t, d, rd, slave, bytes, base, readSize)
  {
    hide Ideal, WriteHalf, ReadHalf, Play, Answers, Splice;
    HalvesMeet(d0, slave, bytes, readSize);
    assert t1[|t0|..] == WriteHalf(slave, bytes, readSize) && t[|t1|..] == ReadHalf(slave, readSize);
    SpliceFrame(rd0, base, []);
  }

  // Equal outside the part written so far is equal outside the part to be written.
  lemma FrameOutside(before: seq<Byte>, after: seq<Byte>, base: nat, offset: nat, size: nat)
    requires |before| == |after| && offset <= size && base + size <= |before|
    requires after[..base] == before[..base] && after[base + offset..] == before[base + offset..]
    ensures after[base + size..] == before[base + size..]
  {
    assert after[base + size..] == after[base + offset..][size - offset..];
  }
}
