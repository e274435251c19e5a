/** The DMA transfers of the MSPM0 SPI driver: how they start, how an interrupt or a timeout ends
    them, and how a read longer than the hardware can clock at once is cut into chunks. */
module Mspm0Spi {
  import opened Mspm0SpiLine

  datatype ErrorCode = OK | PENDING | BUSY | SIZE_ERR | TIMEOUT | FAILED

  type Mode = w: Way | !w.ByHand? witness Duplex

  datatype Interrupt = DmaDoneRx | DmaDoneTx | TxUnderflow | ParityError | RxOverflow | RxTimeout | Other

  // A caller is told by a status update: a callback, or a word it polls; or it waits for a
  // semaphore that the update posts.
  datatype Operation = Notify | Polling | Block

  datatype Status = READY | RUNNING | DONE | ERROR

  function StatusOf(ec: ErrorCode): Status { if ec == OK then DONE else ERROR }

  const CHUNK_MAX := 256  // RX_ONLY_REPEAT_TX_MAX_FRAMES
  const TX_ONLY_MASKED := {DmaDoneRx, RxOverflow, RxTimeout}

  function Min(a: nat, b: nat): nat { if a <= b then a else b }

  function Max(a: nat, b: nat): nat { if a >= b then a else b }

  function Zeros(n: nat): (r: seq<Byte>)
    ensures |r| == n
  {
    seq(n, _ => 0)
  }

  lemma PartOfPart(s: seq<Byte>, need: nat, from: nat, upto: nat)
    requires from <= upto <= need <= |s|
    ensures s[..need][from..upto] == s[from..upto]
  {
  }

  // The i-th chunk of a read of `need` bytes.
  function Chunk(i: nat, need: nat): (nat, nat)
    requires CHUNK_MAX * i < need
  {
    (CHUNK_MAX * i, Min(CHUNK_MAX, need - CHUNK_MAX * i))
  }

  // The chunks started so far tile the first `upto` bytes, in order.
  predicate Tiled(chunks: seq<(nat, nat)>, upto: nat, need: nat) {
    && (forall i :: 0 <= i < |chunks| ==> CHUNK_MAX * i < need && chunks[i] == Chunk(i, need))
    && upto == Min(need, CHUNK_MAX * |chunks|)
  }

  /** A complete tiling has as many chunks as the length needs, each of 1 to 256 bytes, each starting
      where the one before it ends. */
  lemma TilingIsExact(chunks: seq<(nat, nat)>, need: nat)
    requires need > 0 && Tiled(chunks, need, need)
    ensures (|chunks| - 1) * CHUNK_MAX < need <= |chunks| * CHUNK_MAX
    ensures forall i :: 0 <= i < |chunks| ==> 1 <= chunks[i].1 <= CHUNK_MAX && chunks[i].0 + chunks[i].1 <= need
    ensures forall i :: 0 < i < |chunks| ==> chunks[i].0 == chunks[i - 1].0 + chunks[i - 1].1
    ensures |chunks| > 0 && chunks[0].0 == 0 && chunks[|chunks| - 1].0 + chunks[|chunks| - 1].1 == need
  {
    assert |chunks| > 0;
    var last := |chunks| - 1;
    assert CHUNK_MAX * last < need && chunks[last] == Chunk(last, need);
  }

  lemma NextChunk(chunks: seq<(nat, nat)>, upto: nat, need: nat)
    requires Tiled(chunks, upto, need) && upto < need
    ensures upto == CHUNK_MAX * |chunks|
    ensures var count := Min(need - upto, CHUNK_MAX); Tiled(chunks + [(upto, count)], upto + count, need)
  {
  }

  class Mspm0Spi {
    const miso: nat -> Byte
    const rxSize: nat
    const txSize: nat
    const own: set<array<Byte>>      // the halves of the two double buffers
    const minSize: nat               // dma_enable_min_size_
    const pace: nat -> nat           // frames clocked early, before the n-th look of a polled transfer
    const residue: nat               // frames a repetition still clocks when it is stopped

    // The controller and its two DMA channels.
    var enabled: set<Interrupt>
    var rxOn: bool
    var txOn: bool
    var rxDest: nat
    var rxCount: nat
    var rxPos: nat
    var txCount: nat
    var txPos: nat
    var repeatTx: nat
    var line: Line

    // The driver.
    var rx: array<Byte>              // the active halves of the two double buffers
    var tx: array<Byte>
    var rxSpare: array<Byte>
    var txSpare: array<Byte>
    var busy: bool
    var mode: Mode
    var result: ErrorCode
    var memRead: bool
    var readBuff: array<Byte>
    var readSize: nat
    var masked: set<Interrupt>       // masked_interrupts_for_tx_only_
    var rxOnlyOffset: nat
    var rxOnlyRemaining: nat
    var op: Operation
    var sem: nat                     // credits of the caller's semaphore
    var status: Status               // the word of a caller that polls
    var overran: bool                // a byte has been written behind the RX buffer

    // The record: which transfer is the current one, how each has been reported, and what it is to do.
    ghost var configured: set<Interrupt>
    ghost var id: nat
    ghost var updates: seq<(nat, ErrorCode)>
    ghost var line0: Line
    ghost var way: Way
    ghost var out: seq<Byte>
    ghost var chunks: seq<(nat, nat)>

    ghost predicate Buffers()
      reads this`rx, this`tx, this`rxSpare, this`txSpare
    {
      && rx != tx && rx != rxSpare && rx != txSpare && tx != rxSpare && tx != txSpare && rxSpare != txSpare
      && rx.Length == rxSpare.Length == rxSize && tx.Length == txSpare.Length == txSize && rx in own
          && rxSpare in own && tx in own && txSpare in own
    }

    // The caller's buffer is none of the driver's.
    predicate ApartFrom(rd: array<Byte>)
      reads this`rx, this`tx, this`rxSpare, this`txSpare
    {
      rd != rx && rd != tx && rd != rxSpare && rd != txSpare
    }

    // The mask is the configured one but for what a TX-only transfer has taken out of it.
    ghost predicate Masked()
      reads this`enabled, this`configured, this`masked, this`busy, this`mode
    {
      && masked <= configured && enabled == configured - masked
      && (!busy || mode != TxOnly ==> masked == {})
    }

    // Each transfer has been reported at most once, the current one, `now`, not yet while it runs.
    static predicate ReportedOnce(log: seq<(nat, ErrorCode)>, now: nat, running: bool) {
      && (forall i, j :: 0 <= i < j < |log| ==> log[i].0 != log[j].0)
      && (forall i :: 0 <= i < |log| ==> log[i].0 <= now)
      && (running ==> forall i :: 0 <= i < |log| ==> log[i].0 < now)
    }

    static lemma StillReported(log: seq<(nat, ErrorCode)>, now: nat, running: bool)
      requires ReportedOnce(log, now, running)
      ensures ReportedOnce(log, now, false) && ReportedOnce(log, now + 1, true)
    {
    }

    static lemma OneMoreReport(log: seq<(nat, ErrorCode)>, now: nat, ec: ErrorCode)
      requires ReportedOnce(log, now, true)
      ensures ReportedOnce(log + [(now, ec)], now, false)
    {
    }

    // Bytes in the RX buffer, and bytes handed over to be sent.
    function Done(): nat
      reads this`rxDest, this`rxPos
    {
      rxDest + rxPos
    }

    function Fed(): nat
      reads this`mode, this`txPos, this`rxOnlyOffset
    {
      if mode == RxOnly then rxOnlyOffset else txPos
    }

    // How the channels are set up for the transfer under way.
    ghost predicate Programmed()
      reads this`mode, this`rxOn, this`txOn, this`rxDest, this`rxCount, this`rxPos, this`txCount, this`txPos,
            this`repeatTx, this`rxOnlyOffset, this`rxOnlyRemaining, this`out, this`chunks, this`readSize,
            this`memRead
    {
      match mode
      case Duplex => rxOn && txOn && rxDest == 0 && rxCount == txCount == |out| && rxPos <= rxCount && txPos <= txCount
      case TxOnly => !rxOn && txOn && txCount == |out| && txPos <= txCount && readSize == 0 && !memRead
      case RxOnly =>
        && rxOn && !txOn && rxPos <= rxCount && 0 < rxCount <= CHUNK_MAX && repeatTx == rxCount - 1
        && rxDest + rxCount == rxOnlyOffset && rxOnlyOffset + rxOnlyRemaining == |out|
        && Tiled(chunks, rxOnlyOffset, |out|) && out == Zeros(|out|)
      case ByHand => false
    }

    // What has been handed over and what has come in since the transfer started.
    ghost predicate Exchanged()
      reads this`mode, this`rxDest, this`rxPos, this`txPos, this`rxOnlyOffset, this`line, this`line0, this`out,
            this`rx, this`tx, rx, tx
    {
      && Fed() <= |out| && Sent(line0, line, out[..Fed()])
      && (mode != RxOnly ==> |out| <= tx.Length && tx[..|out|] == out)
      && (mode != TxOnly ==> |out| <= rx.Length && Done() <= |out| && Received(miso, line0, line, rx[..Done()]))
    }

    ghost predicate Wanted()
      reads this`memRead, this`readSize, this`readBuff, this`out
    {
      out != [] && readSize <= readBuff.Length && readSize + (if memRead then 1 else 0) <= |out|
    }

    ghost predicate Idle()
      reads this`rxOn, this`txOn, this`mode, this`rxOnlyOffset, this`rxOnlyRemaining
    {
      !rxOn && !txOn && mode == Duplex && rxOnlyOffset == 0 && rxOnlyRemaining == 0
    }

    ghost predicate Valid()
      reads this, rx, tx
    {
      && Buffers() && ApartFrom(readBuff) && Masked() && ReportedOnce(updates, id, busy)
      && (if busy then Programmed() && Exchanged() && Wanted() && result == PENDING && way == mode else Idle())
    }

    // Between calls nobody waits any more.
    ghost predicate Between()
      reads this, rx, tx
    {
      Valid() && sem == 0 && (busy ==> op != Block)
    }

    constructor (miso: nat -> Byte, minSize: nat, rxSize: nat, txSize: nat, configured: set<Interrupt>,
        pace: nat -> nat, residue: nat)
      ensures Between() && !busy && !overran && line == Line(0, [], [], []) && this.miso == miso
          && this.minSize == minSize && updates == [] && id == 0 && enabled == configured
      ensures fresh(readBuff) && fresh(own) && rx.Length == this.rxSize == rxSize && tx.Length == this.txSize == txSize
    {
      this.miso, this.minSize, this.configured, enabled := miso, minSize, configured, configured;
      this.rxSize, this.txSize := rxSize, txSize;
      this.pace, this.residue, line := pace, residue, Line(0, [], [], []);
      rx, rxSpare, tx, txSpare, readBuff := new Byte[rxSize], new Byte[rxSize], new Byte[txSize], new Byte[txSize],
          new Byte[0];
      own := {rx, rxSpare, tx, txSpare};
      rxOn, txOn, mode, busy, masked, rxOnlyOffset, rxOnlyRemaining := false, false, Duplex, false, {}, 0, 0;
      result, memRead, readSize, op, sem := OK, false, 0, Notify, 0;
      updates, id, status, overran := [], 0, READY, false;
    }

    /* ---------------- the hardware ---------------- */

    lemma OutMore(n: nat)
      requires n < |out|
      ensures out[..n + 1] == out[..n] + [out[n]]
    {
    }

    // The TX channel hands over a byte.
    method FeedTx()
      requires Programmed() && Exchanged() && mode != RxOnly && txPos < txCount
      modifies this`line, this`txPos
      ensures Programmed() && Exchanged() && txPos == old(txPos) + 1 && line == Offer(old(line), [out[old(txPos)]])
    {
      hide Sent, Received, Stream, Tiled, Zeros;
      OutMore(txPos);
      assert tx[..|out|][txPos] == out[txPos];
      Feeds(miso, line0, line, out[..txPos], [out[txPos]]);
      line := Offer(line, [tx[txPos]]);
      txPos := txPos + 1;
    }

    // A frame of the transfer under way; while it receives, the RX FIFO is emptied in time.
    method ClockBusy()
      requires Programmed() && Exchanged() && line.toClock != [] && (mode != TxOnly ==> |line.rxFifo| < FIFO_DEPTH)
      modifies this`line
      ensures Programmed() && Exchanged() && line == Tick(miso, old(line))
    {
      hide Sent, Received, Stream, Tiled, Zeros;
      SentIsLater(line0, line, out[..Fed()]);
      ClocksOn(miso, line0, line);
      line := Tick(miso, line);
    }

    lemma SentIsLater(l0: Line, l: Line, fed: seq<Byte>)
      requires Sent(l0, l, fed)
      ensures Later(l0, l)
    {
    }

    // The RX channel fetches a byte.
    method TakeRx()
      requires rx != tx && Programmed() && Exchanged() && mode != TxOnly && rxPos < rxCount && line.rxFifo != []
      modifies this`line, this`rxPos, rx
      ensures Programmed() && Exchanged() && rxPos == old(rxPos) + 1 && line == Fetch(old(line))
    {
      hide Sent, Received, Stream, Tiled, Zeros;
      Takes(miso, line0, line, rx[..Done()]);
      Store(Done(), line.rxFifo[0]);
      line := Fetch(line);
      rxPos := rxPos + 1;
    }

    // The slave's byte arrives in the buffer.
    method Store(at: nat, heard: Byte)
      requires at < rx.Length
      modifies rx
      ensures rx[..at + 1] == old(rx[..at]) + [heard]
    {
      rx[at] := heard;
    }

    /* ---------------- starting and stopping ---------------- */

    method StartDmaDuplex(count: nat)
      modifies this`masked, this`rxDest, this`rxCount, this`rxPos, this`txCount, this`txPos, this`rxOn, this`txOn
      ensures masked == {} && rxOn && txOn && rxDest == rxPos == txPos == 0 && rxCount == txCount == count
    {
      masked := {};
      rxDest, rxCount, rxPos := 0, count, 0;
      txCount, txPos := count, 0;
      rxOn, txOn := true, true;
    }

    // One chunk: the hardware repeats a dummy byte to clock it.
    method StartDmaRxOnly(offset: nat, count: nat)
      requires offset < rx.Length && 0 < count <= CHUNK_MAX && offset + count <= rx.Length
      modifies this`masked, this`rxDest, this`rxCount, this`rxPos, this`rxOn, this`txOn, this`repeatTx, this`chunks,
               this`line
      ensures line == Offer(old(line), Zeros(count)) && masked == {} && rxOn && !txOn
          && (rxDest, rxCount, rxPos) == (offset, count, 0) && repeatTx == count - 1 < 0x100
      ensures chunks == old(chunks) + [(offset, count)]
    {
      masked := {};
      txOn, rxOn := false, false;
      rxDest, rxCount, rxPos := offset, count, 0;
      rxOn := true;
      repeatTx := (count - 1) % 0x100;
      line := Offer(line, Zeros(count));
      chunks := chunks + [(offset, count)];
    }

    method StartDmaTxOnly(count: nat)
      requires masked == {} && enabled == configured
      modifies this`masked, this`enabled, this`txCount, this`txPos, this`rxOn, this`txOn
      ensures masked == configured * TX_ONLY_MASKED && enabled == configured - masked
      ensures !rxOn && txOn && txCount == count && txPos == 0
    {
      masked := enabled * TX_ONLY_MASKED;
      if masked != {} {
        enabled := enabled - masked;
      }
      rxOn := false;
      txCount, txPos := count, 0;
      txOn := true;
    }

    method StopDma()
      requires masked <= configured && enabled == configured - masked
      modifies this`rxOn, this`txOn, this`repeatTx, this`rxOnlyOffset, this`rxOnlyRemaining, this`enabled,
               this`masked, this`line
      ensures line == if mode == RxOnly then Cancel(old(line), residue) else old(line)
      ensures !rxOn && !txOn && rxOnlyOffset == rxOnlyRemaining == 0 && masked == {} && enabled == configured
      ensures mode == RxOnly ==> repeatTx == 0
    {
      txOn, rxOn := false, false;
      if mode == RxOnly {
        repeatTx := 0;
        line := Cancel(line, residue);
      }
      rxOnlyOffset := 0;
      rxOnlyRemaining := 0;
      if masked != {} {
        enabled := enabled + masked;
        masked := {};
      }
    }

    method UpdateStatus(ec: ErrorCode)
      modifies this`sem, this`status, this`updates
      ensures updates == old(updates) + [(id, ec)] && sem == old(sem) + (if op == Block then 1 else 0)
      ensures status == if op == Polling then StatusOf(ec) else old(status)
    {
      match op {
        case Notify =>
        case Polling => status := StatusOf(ec);
        case Block => sem := sem + 1;
      }
      updates := updates + [(id, ec)];
    }

    // A transfer ends in the interrupt.
    method EndWith(ec: ErrorCode)
      requires Buffers() && ApartFrom(readBuff) && Masked() && masked == {} && ReportedOnce(updates, id, busy) && busy
          && !rxOn && !txOn && rxOnlyOffset == rxOnlyRemaining == 0
      modifies this`busy, this`mode, this`result, this`sem, this`status, this`updates
      ensures Valid() && !busy && result == ec && enabled == configured
      ensures updates == old(updates) + [(id, ec)] && sem == old(sem) + (if op == Block then 1 else 0)
      ensures status == if op == Polling then StatusOf(ec) else old(status)
    {
      OneMoreReport(updates, id, ec);
      busy := false;
      mode := Duplex;
      result := ec;
      UpdateStatus(result);
    }

    method SwitchBuffer()
      requires Buffers()
      modifies this`rx, this`rxSpare, this`tx, this`txSpare
      ensures Buffers() && rx == old(rxSpare) && rxSpare == old(rx) && tx == old(txSpare) && txSpare == old(tx)
    {
      rx, rxSpare := rxSpare, rx;
      tx, txSpare := txSpare, tx;
    }

    // Copies what was received into a caller's buffer.
    method CopyOut(rd: array<Byte>, from: nat, count: nat)
      requires count <= rd.Length && from + count <= rx.Length && rx != rd
      modifies rd
      ensures rd[..count] == old(rx[from..from + count])
    {
      var i := 0;
      while i < count
        invariant i <= count && rd[..i] == rx[from..from + i]
        invariant rx[..] == old(rx[..])
      {
        rd[i] := rx[from + i];
        i := i + 1;
      }
    }

    // The first byte of a register read belongs to the register number.
    function Skip(): nat
      reads this`memRead
    {
      if memRead then 1 else 0
    }

    // The transfer has been carried out, and the caller has what it asked for.
    ghost predicate Delivered(count: nat)
      reads this`line, this`line0, this`out, this`way, this`memRead, this`readBuff, readBuff
    {
      count <= readBuff.Length && Transferred(miso, line0, line, out, readBuff[..count], Skip(), way)
    }

    // The transfer has been carried out, and what the caller asked for is in the RX buffer.
    ghost predicate Ended()
      reads this`line, this`line0, this`out, this`way, this`memRead, this`readSize, this`readBuff, this`rx, rx
    {
      && readSize <= readBuff.Length && (readSize > 0 ==> Skip() + readSize <= rx.Length)
      && Transferred(miso, line0, line, out, Asked(), Skip(), way)
    }

    ghost function Asked(): seq<Byte>
      reads this`memRead, this`readSize, this`rx, rx
    {
      if 0 < readSize && Skip() + readSize <= rx.Length then rx[Skip()..Skip() + readSize] else []
    }

    method CompleteDmaOk()
      requires Buffers() && ApartFrom(readBuff) && Masked() && masked == {} && ReportedOnce(updates, id, busy) && busy
          && !rxOn && !txOn && rxOnlyOffset == rxOnlyRemaining == 0
      requires Ended()
      modifies this`readSize, this`rx, this`rxSpare, this`tx, this`txSpare, this`busy, this`mode, this`result,
               this`sem, this`status, this`updates, readBuff
      ensures Valid() && !busy && result == OK && enabled == configured && Delivered(old(readSize))
      ensures updates == old(updates) + [(id, OK)] && sem == old(sem) + (if op == Block then 1 else 0)
      ensures status == if op == Polling then StatusOf(OK) else old(status)
    {
      hide Masked, ReportedOnce, Ended, Delivered;
      FetchRead();
      SwitchBuffer();
      EndWith(OK);
    }

    method FetchRead()
      requires Buffers() && ApartFrom(readBuff) && Ended()
      modifies this`readSize, readBuff
      ensures Delivered(old(readSize))
    {
      hide Transferred;
      if readSize > 0 {
        if memRead {
          CopyOut(readBuff, 1, readSize);
        } else {
          CopyOut(readBuff, 0, readSize);
        }
        readSize := 0;
      }
    }

    /* ---------------- interrupts ---------------- */

    // Raised only when the channel has come to its end.
    predicate CanRaise(pending: Interrupt)
      reads this`busy, this`mode, this`rxPos, this`rxCount, this`txPos, this`txCount
    {
      && (busy && pending == DmaDoneRx && mode != TxOnly ==> rxPos == rxCount)
      && (busy && pending == DmaDoneTx && mode == TxOnly ==> txPos == txCount)
    }

    // What an interrupt does to the transfer under way: an end, or nothing it could not go on from.
    predicate Ends(pending: Interrupt)
      reads this`mode, this`rxOnlyRemaining
    {
      match pending
      case DmaDoneRx => mode == Duplex || (mode == RxOnly && rxOnlyRemaining == 0)
      case DmaDoneTx => mode == TxOnly
      case TxUnderflow => true
      case ParityError => true
      case RxOverflow => mode != TxOnly
      case RxTimeout => mode != TxOnly
      case Other => false
    }

    // A transfer that ends is reported once and leaves the mask as it was configured; one that ends
    // well has exchanged everything, and a read has been tiled.
    twostate predicate EndsOnce()
      reads this, readBuff
    {
      && updates == old(updates) + [(id, result)] && enabled == configured
      && sem == old(sem) + (if op == Block then 1 else 0)
      && (result == OK ==> Delivered(old(readSize)) && (old(mode) == RxOnly ==> Tiled(chunks, |out|, |out|)))
    }

    // The word of a caller that polls says how the transfer ended.
    twostate predicate Told()
      reads this`op, this`status, this`result
    {
      status == if op == Polling then StatusOf(result) else old(status)
    }

    // The next chunk of a read starts where the last one ended.
    method ContinueRead()
      requires Valid() && busy && mode == RxOnly && rxPos == rxCount && rxOnlyRemaining > 0
      modifies this`rxOnlyOffset, this`rxOnlyRemaining, this`masked, this`rxDest, this`rxCount, this`rxPos,
               this`rxOn, this`txOn, this`repeatTx, this`chunks, this`line
      ensures Valid() && Done() == old(Done()) && rxOnlyRemaining < old(rxOnlyRemaining)
    {
      hide Buffers, ReportedOnce, Wanted, Programmed, Exchanged;
      AdvanceChunk();
    }

    method AdvanceChunk()
      requires Programmed() && Exchanged() && mode == RxOnly && rxPos == rxCount && rxOnlyRemaining > 0
      modifies this`rxOnlyOffset, this`rxOnlyRemaining, this`masked, this`rxDest, this`rxCount, this`rxPos,
               this`rxOn, this`txOn, this`repeatTx, this`chunks, this`line
      ensures Programmed() && Exchanged() && masked == {} && Done() == old(Done())
          && rxOnlyRemaining < old(rxOnlyRemaining)
    {
      hide Tiled, Sent, Received, Stream, Zeros;
      NextChunk(chunks, rxOnlyOffset, |out|);
      var nextChunk := Min(rxOnlyRemaining, CHUNK_MAX);
      var nextOffset := rxOnlyOffset;
      ZerosPart(rxOnlyOffset, nextChunk);
      Feeds(miso, line0, line, out[..rxOnlyOffset], Zeros(nextChunk));
      rxOnlyOffset := rxOnlyOffset + nextChunk;
      rxOnlyRemaining := rxOnlyRemaining - nextChunk;
      StartDmaRxOnly(nextOffset, nextChunk);
    }

    lemma ZerosPart(from: nat, count: nat)
      requires from + count <= |out| && out == Zeros(|out|)
      ensures out[..from] + Zeros(count) == out[..from + count]
    {
    }

    method Fail(ec: ErrorCode)
      requires Valid() && busy && ec != OK
      modifies this`rxOn, this`txOn, this`repeatTx, this`rxOnlyOffset, this`rxOnlyRemaining, this`enabled,
               this`masked, this`line, this`busy, this`mode, this`result, this`sem, this`status, this`updates
      ensures Valid() && !busy && EndsOnce() && Told() && result == ec
    {
      StopDma();
      EndWith(ec);
    }

    // The RX channel is done with the last chunk.
    method SucceedReceiving()
      requires Valid() && busy && mode != TxOnly && Done() == |out| && (mode == RxOnly ==> rxOnlyRemaining == 0)
      modifies this`rxOn, this`txOn, this`repeatTx, this`rxOnlyOffset, this`rxOnlyRemaining, this`enabled,
               this`masked, this`line, this`busy, this`mode, this`result, this`sem, this`status, this`updates,
               this`readSize, this`rx, this`rxSpare, this`tx, this`txSpare, readBuff
      ensures Valid() && !busy && EndsOnce() && Told() && result == OK
    {
      hide ReportedOnce, Programmed, Exchanged, Wanted, Buffers, Tiled, Delivered, Ended, Carried;
      ReceivedAll();
      ghost var before := line;
      StopDma();
      StillEnded(before);
      CompleteDmaOk();
    }

    // All that was asked for has come in, whatever is left over.
    ghost predicate Carried(l: Line)
      reads this`line0, this`out, this`way, this`memRead, this`readSize, this`readBuff, this`rx, rx
    {
      && readSize <= readBuff.Length && (readSize > 0 ==> Skip() + readSize <= rx.Length)
      && Transferred(miso, line0, l, out, Asked(), Skip(), way)
    }

    lemma ReceivedAll()
      requires Buffers() && Programmed() && Exchanged() && Wanted() && way == mode != TxOnly && Done() == |out|
          && (mode == RxOnly ==> rxOnlyRemaining == 0)
      ensures (mode == RxOnly ==> Tiled(chunks, |out|, |out|)) && Carried(line) && way in {Duplex, RxOnly}
    {
      hide Tiled, Sent, Received, Stream, Transferred;
      EndsReceiving(miso, line0, line, out, Fed(), rx[..|out|], Skip(), readSize, way);
      if readSize > 0 {
        PartOfPart(rx[..], |out|, Skip(), Skip() + readSize);
        assert rx[..][..|out|] == rx[..|out|] && rx[..][Skip()..Skip() + readSize] == rx[Skip()..Skip() + readSize];
      } else {
        assert rx[..|out|][Skip()..Skip() + 0] == [];
      }
    }

    // Stopping the repetition changes nothing in what has come in.
    lemma StillEnded(before: Line)
      requires Carried(before) && way in {Duplex, RxOnly}
      requires line == if way == RxOnly then Cancel(before, residue) else before
      ensures Ended()
    {
      hide Transferred;
      if way == RxOnly {
        CancelKeeps(miso, line0, before, out, Asked(), Skip(), residue);
      }
    }

    lemma SentAll()
      requires Programmed() && Exchanged() && Wanted() && way == mode == TxOnly && txPos == txCount
      ensures Carried(line) && way == TxOnly && readSize == 0
    {
      assert out[..|out|] == out;
      EndsSending(miso, line0, line, out, Skip());
    }

    // Nor does emptying the RX FIFO in what has gone out.
    lemma DrainedEnded(before: Line)
      requires Carried(before) && way == TxOnly && line == Drain(before)
      ensures Ended()
    {
      hide Transferred;
      DrainKeeps(miso, line0, before, out, Asked(), Skip());
    }

    // The TX channel is done, and the RX FIFO has been emptied.
    method SucceedSending()
      requires Valid() && busy && mode == TxOnly && txPos == txCount
      modifies this`rxOn, this`txOn, this`repeatTx, this`rxOnlyOffset, this`rxOnlyRemaining, this`enabled,
               this`masked, this`line, this`busy, this`mode, this`result, this`sem, this`status, this`updates,
               this`readSize, this`rx, this`rxSpare, this`tx, this`txSpare, readBuff
      ensures Valid() && !busy && EndsOnce() && Told() && result == OK && line == Drain(old(line))
    {
      hide ReportedOnce, Programmed, Exchanged, Wanted, Buffers, Tiled, Delivered, Ended, Carried;
      SentAll();
      ghost var before := line;
      StopDma();
      line := Drain(line);
      DrainedEnded(before);
      CompleteDmaOk();
    }

    /** The interrupt handler.  Spurious interrupts change nothing; a chunk that is in starts the next
        one; everything else that concerns the transfer ends it, once. */
    method HandleInterrupt(pending: Interrupt, drained: bool)
      requires Valid() && CanRaise(pending)
      modifies this`rxOn, this`txOn, this`repeatTx, this`rxOnlyOffset, this`rxOnlyRemaining, this`enabled,
               this`masked, this`busy, this`mode, this`result, this`sem, this`status, this`updates, this`readSize,
               this`rx, this`rxSpare, this`tx, this`txSpare, this`rxDest, this`rxCount, this`rxPos, this`chunks,
               this`line, readBuff
      ensures Valid() && busy == (old(busy) && !old(Ends(pending)))
      ensures !old(busy) ==> unchanged(this) && unchanged(readBuff)
      ensures old(busy) && old(mode) == TxOnly && pending == DmaDoneTx && drained ==> line == Drain(old(line))
      ensures busy ==>
            && unchanged(`updates, `sem, `status, `readSize, `out, `mode, `rx)
            && (mode == Duplex ==> unchanged(`line, `rxPos))
      ensures old(busy) && !busy ==> EndsOnce() && Told()
    {
      hide Buffers, ReportedOnce, Exchanged, Wanted, Masked, EndsOnce;
      if !busy {
        return;
      }
      match pending
      case DmaDoneRx =>
        if mode == TxOnly {
        } else if mode == RxOnly && rxOnlyRemaining > 0 {
          ContinueRead();
        } else {
          SucceedReceiving();
        }
      case DmaDoneTx =>
        if mode == TxOnly {
          if !drained {
            Fail(FAILED);
          } else {
            SucceedSending();
          }
        }
      case TxUnderflow => Fail(FAILED);
      case ParityError => Fail(FAILED);
      case RxOverflow =>
        if mode == TxOnly {
          DrainBusy();
        } else {
          Fail(FAILED);
        }
      case RxTimeout =>
        if mode != TxOnly {
          Fail(TIMEOUT);
        }
      case Other =>
    }

    // A sending transfer has no use for what comes in.
    method DrainBusy()
      requires Valid() && busy && mode == TxOnly
      modifies this`line
      ensures Valid() && line == Drain(old(line))
    {
      hide Buffers, Masked, ReportedOnce, Programmed, Wanted;
      line := Drain(line);
    }

    // A frame left over by a transfer that has ended.
    method ClockIdle()
      requires Valid() && !busy && line.toClock != []
      modifies this`line
      ensures Valid() && line == Tick(miso, old(line))
          && forall count: nat :: old(Delivered(count)) ==> Delivered(count)
    {
      hide Buffers, Masked, ReportedOnce, Transferred;
      ghost var before := line;
      line := Tick(miso, line);
      forall count: nat | old(Delivered(count)) ensures Delivered(count) {
        ClockKeeps(miso, line0, before, out, readBuff[..count], Skip(), way);
      }
    }

    /* ---------------- waiting ---------------- */

    // How far a full-duplex transfer is.
    function Counts(): Tally
      reads this`txPos, this`rxPos, this`line
    {
      Tally(txPos, |line.toClock|, |line.rxFifo|, rxPos)
    }

    // A byte is handed over, clocked or fetched, if there is one and room for it.
    method Exchange(e: Happening)
      requires Valid() && busy && !e.Irq?
      modifies this`line, this`txPos, this`rxPos, rx
      ensures Valid() && (mode == Duplex ==> Counts() == Moved(e, old(Counts()), |out|))
    {
      hide Masked, ReportedOnce, Wanted, Exchanged;
      match e
      case Feed =>
        if mode != RxOnly && txPos < txCount && |line.toClock| < FIFO_DEPTH {
          FeedTx();
        }
      case Clock =>
        if line.toClock != [] && (mode == TxOnly || |line.rxFifo| < FIFO_DEPTH) {
          ClockBusy();
        }
      case Take =>
        if mode != TxOnly && rxPos < rxCount && line.rxFifo != [] {
          TakeRx();
        }
      case Irq(_, _) => assert false;
    }

    // What is left over keeps being clocked after the end of a transfer; nothing else moves.
    twostate predicate AtRestSince()
      reads this
    {
      unchanged(`busy, `updates, `sem, `status, `readSize, `mode, `rx, `result, `op, `enabled, `chunks, `out,
          `memRead, `id)
    }

    // One thing that happens to a transfer under way ...
    method HappenBusy(e: Happening)
      requires Valid() && busy
      modifies this`rxOn, this`txOn, this`repeatTx, this`rxOnlyOffset, this`rxOnlyRemaining, this`enabled,
               this`masked, this`busy, this`mode, this`result, this`sem, this`status, this`updates, this`readSize,
               this`rx, this`rxSpare, this`tx, this`txSpare, this`rxDest, this`rxCount, this`rxPos, this`chunks,
               this`line, this`txPos, rx, readBuff
      ensures Valid()
      ensures busy ==> unchanged(`updates, `sem, `status, `readSize, `mode, `rx)
      ensures !busy ==> EndsOnce() && Told()
      ensures old(mode) == Duplex ==>
            busy == !Stops(e, old(Counts()), |out|) && (busy ==> Counts() == Moved(e, old(Counts()), |out|))
    {
      hide Delivered, Tiled, Buffers, Masked, ReportedOnce, Exchanged, Wanted, EndsOnce;
      if e.Irq? {
        if CanRaise(e.pending) {
          HandleInterrupt(e.pending, e.drained);
        }
      } else {
        Exchange(e);
      }
    }

    // ... and when none is: what is left over may be clocked.
    method HappenIdle(e: Happening)
      requires Valid() && !busy
      modifies this`line
      ensures Valid() && forall count: nat :: old(Delivered(count)) ==> Delivered(count)
    {
      hide Valid, Delivered;
      if e.Clock? && line.toClock != [] {
        ClockIdle();
      }
    }

    // What happens between two moments, in any order.
    method Happen(events: seq<Happening>)
      requires Valid()
      modifies this`rxOn, this`txOn, this`repeatTx, this`rxOnlyOffset, this`rxOnlyRemaining, this`enabled,
               this`masked, this`busy, this`mode, this`result, this`sem, this`status, this`updates, this`readSize,
               this`rx, this`rxSpare, this`tx, this`txSpare, this`rxDest, this`rxCount, this`rxPos, this`chunks,
               this`line, this`txPos, rx, readBuff
      ensures Valid()
      ensures !old(busy) ==> AtRestSince()
      ensures busy ==> old(busy) && unchanged(`updates, `sem, `status, `readSize, `mode, `rx)
      ensures old(busy) && !busy ==> EndsOnce() && Told()
      ensures old(busy) && old(mode) == Duplex ==> busy == !Over(events, old(Counts()), |out|)
    {
      hide Valid, Delivered, Tiled, Stops, Moved, Counts;
      var i := 0;
      while i < |events|
        invariant i <= |events| && Valid()
        invariant !old(busy) ==> AtRestSince()
        invariant busy ==> old(busy) && unchanged(`updates, `sem, `status, `readSize, `mode, `rx)
        invariant old(busy) && !busy ==> EndsOnce() && Told()
        invariant old(busy) && old(mode) == Duplex ==>
                    Over(events, old(Counts()), |out|) == (!busy || Over(events[i..], Counts(), |out|))
      {
        if busy {
          HappenBusy(events[i]);
        } else {
          HappenIdle(events[i]);
        }
        i := i + 1;
        assert events[i - 1..][1..] == events[i..];
      }
    }

    // Semaphore::Wait(0)
    method TryWait() returns (ok: bool)
      modifies this`sem
      ensures ok == (old(sem) > 0) && sem == old(sem) - (if ok then 1 else 0)
    {
      ok := sem > 0;
      if ok {
        sem := sem - 1;
      }
    }

    // How a wait can end: with the one report of the transfer, or with a timeout that the transfer
    // may still have raced.  Either way nothing of it is left behind.
    twostate predicate WaitedFor(ec: ErrorCode)
      reads this, readBuff
    {
      && !busy && sem == 0 && enabled == configured
      && (updates == old(updates) || (|updates| > 0 && updates == old(updates) + [(id, updates[|updates| - 1].1)]))
      && (ec != TIMEOUT ==> updates == old(updates) + [(id, ec)])
      && (ec == OK ==> Delivered(old(readSize)) && (old(mode) == RxOnly ==> Tiled(chunks, |out|, |out|)))
    }

    /** The end of every DMA start, with the channels going.  `early` happens before the operation is
        marked as running, `waiting` while a BLOCK caller waits, `race` between the timeout and the
        moment the interrupt is off.  A word that is polled says RUNNING in the end, whether the
        transfer is still under way or over already. */
    method CompleteDmaOperation(o: Operation, early: seq<Happening>, waiting: seq<Happening>, race: seq<Happening>)
        returns (ec: ErrorCode)
      requires Valid() && busy && op == o && sem == 0
      modifies this`rxOn, this`txOn, this`repeatTx, this`rxOnlyOffset, this`rxOnlyRemaining, this`enabled,
               this`masked, this`busy, this`mode, this`result, this`sem, this`status, this`updates, this`readSize,
               this`rx, this`rxSpare, this`tx, this`txSpare, this`rxDest, this`rxCount, this`rxPos, this`chunks,
               this`line, this`txPos, this`op, rx, readBuff
      ensures Valid() && status == if o == Polling then RUNNING else old(status)
      ensures o != Block && old(mode) == Duplex ==> busy == !Over(early, old(Counts()), |out|)
      ensures o != Block ==> ec == OK && op == o
      ensures o != Block ==> if busy then unchanged(`updates, `sem, `readSize, `mode) else EndsOnce()
      ensures o == Block ==> WaitedFor(ec)
    {
      hide Valid, Buffers, ReportedOnce, Masked, Programmed, Exchanged, Tiled, ApartFrom, Wanted, Zeros, Idle,
          Delivered, Heard;
      Happen(early);
      Mark(o);
      if o != Block {
        return OK;
      }
      if !busy {
        var _ := WaitSem();  // comes back at once
        return result;
      }
      ec := Await(waiting, race);
    }

    // A BLOCK caller waits for the semaphore.
    method Await(waiting: seq<Happening>, race: seq<Happening>) returns (ec: ErrorCode)
      requires Valid() && busy && op == Block && sem == 0
      modifies this`rxOn, this`txOn, this`repeatTx, this`rxOnlyOffset, this`rxOnlyRemaining, this`enabled,
               this`masked, this`busy, this`mode, this`result, this`sem, this`status, this`updates, this`readSize,
               this`rx, this`rxSpare, this`tx, this`txSpare, this`rxDest, this`rxCount, this`rxPos, this`chunks,
               this`line, this`txPos, this`op, rx, readBuff
      ensures Valid() && status == old(status) && WaitedFor(ec)
    {
      hide Valid, Tiled, Delivered;
      Happen(waiting);
      var ok := WaitSem();
      if ok {
        return result;
      }
      Happen(race);
      CleanUp();
      return TIMEOUT;
    }

    // MarkAsRunning
    method Mark(o: Operation)
      requires Valid()
      modifies this`status
      ensures Valid() && status == (if o == Polling then RUNNING else old(status))
    {
      hide Buffers, Masked, ReportedOnce, Programmed, Exchanged, Wanted;
      if o == Polling {
        status := RUNNING;
      }
    }

    method WaitSem() returns (ok: bool)
      requires Valid()
      modifies this`sem
      ensures Valid() && ok == (old(sem) > 0) && sem == old(sem) - (if ok then 1 else 0)
    {
      hide Buffers, Masked, ReportedOnce, Programmed, Exchanged, Wanted;
      ok := TryWait();
    }

    // With the interrupt off: stop, forget the transfer, and drain the credits it may have posted.
    method CleanUp()
      requires Valid()
      modifies this`rxOn, this`txOn, this`repeatTx, this`rxOnlyOffset, this`rxOnlyRemaining, this`enabled,
               this`masked, this`line, this`busy, this`mode, this`result, this`op, this`sem
      ensures Valid() && !busy && sem == 0 && enabled == configured
    {
      hide Buffers, Masked, ReportedOnce, Exchanged, Programmed, Wanted, Idle;
      Abandon();
      var more := TryWait();
      while more
        invariant !more ==> sem == 0
        invariant Buffers() && ApartFrom(readBuff) && Masked() && ReportedOnce(updates, id, busy) && !busy && Idle()
            && enabled == configured
        decreases sem + if more then 1 else 0
      {
        more := TryWait();
      }
    }

    lemma Parts()
      requires Valid()
      ensures Buffers() && ApartFrom(readBuff) && Masked() && ReportedOnce(updates, id, busy)
    {
    }

    lemma Resting()
      requires Buffers() && ApartFrom(readBuff) && Masked() && ReportedOnce(updates, id, false) && !busy && Idle()
      ensures Valid()
    {
    }

    method Abandon()
      requires Valid()
      modifies this`rxOn, this`txOn, this`repeatTx, this`rxOnlyOffset, this`rxOnlyRemaining, this`enabled,
               this`masked, this`line, this`busy, this`mode, this`result, this`op
      ensures Valid() && !busy && enabled == configured
    {
      hide Valid, Buffers, ApartFrom, ReportedOnce, Masked, Idle;
      Parts();
      StillReported(updates, id, busy);
      Forget();
      Resting();
    }

    method Forget()
      requires Masked()
      modifies this`rxOn, this`txOn, this`repeatTx, this`rxOnlyOffset, this`rxOnlyRemaining, this`enabled,
               this`masked, this`line, this`busy, this`mode, this`result, this`op
      ensures Masked() && Idle() && !busy && enabled == configured
    {
      StopDma();
      busy := false;
      mode := Duplex;
      result := TIMEOUT;
      op := Notify;
    }

    /* ---------------- the driver's interface ---------------- */

    method DmaBusy() returns (r: bool)
      requires Valid()
      ensures r == busy
    {
      if busy {
        return true;
      }
      return rxOn || txOn;
    }

    // FastCopy and FastSet into the active TX buffer.
    method FillTx(bytes: seq<Byte>)
      requires |bytes| <= tx.Length
      modifies tx
      ensures tx[..|bytes|] == bytes
    {
      var i := 0;
      while i < |bytes|
        invariant i <= |bytes| && tx[..i] == bytes[..i]
      {
        tx[i] := bytes[i];
        i := i + 1;
      }
    }

    // Some frames are clocked, then as many as it takes for a byte to be in the RX FIFO.
    method ClockUntilHeard(some: nat)
      requires line.toClock != [] || line.rxFifo != []
      modifies this`line
      ensures line.rxFifo != [] && ClocksOnly(old(line), line)
    {
      hide ClocksOnly;
      SameLine(line);
      var n := some;
      while line.toClock != [] && (line.rxFifo == [] || (n > 0 && |line.rxFifo| < FIFO_DEPTH))
        invariant line.toClock != [] || line.rxFifo != []
        invariant ClocksOnly(old(line), line)
        decreases |line.toClock|
      {
        OneClock(old(line), line);
        line := Tick(miso, line);
        n := if n > 0 then n - 1 else 0;
      }
    }

    // Nothing but frames clocked into a FIFO with room: whatever has been sent and received so far.
    ghost predicate ClocksOnly(before: Line, l: Line) {
      && (forall l0, fed :: Sent(l0, before, fed) ==> Sent(l0, l, fed))
      && (forall l0, got :: Received(miso, l0, before, got) ==> Received(miso, l0, l, got))
    }

    lemma StillSoFar(l0: Line, before: Line, fed: seq<Byte>, got: seq<Byte>)
      requires ClocksOnly(before, line) && Sent(l0, before, fed) && Received(miso, l0, before, got)
      ensures Sent(l0, line, fed) && Received(miso, l0, line, got)
    {
    }

    lemma SameLine(l: Line)
      ensures ClocksOnly(l, l)
    {
    }

    lemma OneClock(before: Line, l: Line)
      requires ClocksOnly(before, l) && l.toClock != [] && |l.rxFifo| < FIFO_DEPTH
      ensures ClocksOnly(before, Tick(miso, l))
    {
      hide Sent, Received, Stream, Tick;
      forall l0, fed | Sent(l0, before, fed) ensures Sent(l0, Tick(miso, l), fed) {
        SentIsLater(l0, l, fed);
        ClocksOn(miso, l0, l);
      }
      forall l0, got | Received(miso, l0, before, got) ensures Received(miso, l0, Tick(miso, l), got) {
        ReceivedIsLater(l0, l, got);
        ClocksOn(miso, l0, l);
      }
    }

    lemma ReceivedIsLater(l0: Line, l: Line, got: seq<Byte>)
      requires Received(miso, l0, l, got)
      ensures Later(l0, l)
    {
    }

    // The last frames go out, whatever becomes of their answers.
    method ClockOut(ghost l0: Line, ghost bytes: seq<Byte>, ghost got: seq<Byte>, ghost got': seq<Byte>)
      requires Transferred(miso, l0, line, bytes, got, 0, ByHand) && Transferred(miso, l0, line, bytes, got', 0, ByHand)
      modifies this`line
      ensures Transferred(miso, l0, line, bytes, got, 0, ByHand)
          && Transferred(miso, l0, line, bytes, got', 0, ByHand) && line.toClock == []
    {
      hide Transferred;
      while line.toClock != []
        invariant Transferred(miso, l0, line, bytes, got, 0, ByHand)
            && Transferred(miso, l0, line, bytes, got', 0, ByHand)
        decreases |line.toClock|
      {
        ClockKeeps(miso, l0, line, bytes, got, 0, ByHand);
        ClockKeeps(miso, l0, line, bytes, got', 0, ByHand);
        line := Tick(miso, line);
      }
    }

    // As many bytes fetched as sent: one more to be sent is one to come, or one is there already.
    lemma OneIsToCome(l0: Line, l: Line, fed: seq<Byte>, got: seq<Byte>)
      requires Sent(l0, l, fed) && Received(miso, l0, l, got) && |fed| == |got| + 1
      ensures l.toClock != [] || l.rxFifo != []
    {
    }

    /** Exchanges `len` bytes by hand.  The driver waits for room, for an answer, and so on, and in the
        end for the last frame; `waits` of these waits come in time.  Nothing looks at the size of the
        RX buffer: a byte that comes in behind its end is written there, which this model notes in
        `overran` and otherwise leaves out. */
    method PollingTransfer(useTx: bool, len: nat, waits: nat, ghost bytes: seq<Byte>) returns (ans: ErrorCode)
      requires rx != tx && |bytes| == len
          && if useTx then len <= tx.Length && tx[..len] == bytes else bytes == Zeros(len)
      modifies this`line, this`overran, rx
      ensures ans == (if 0 < len && waits < 2 * len + 1 then TIMEOUT else OK)
      ensures overran == (old(overran) || Min(len, waits / 2) > rx.Length)
      ensures ans == TIMEOUT ==> BrokeOff(miso, old(line), line, waits / 2, waits % 2)
      ensures ans == OK && len <= rx.Length ==> Transferred(miso, old(line), line, bytes, rx[..len], 0, ByHand)
      ensures ans == OK && len > 0 ==> Transferred(miso, old(line), line, bytes, [], 0, ByHand) && line.toClock == []
    {
      hide Sent, Received, Transferred, Zeros, ClocksOnly, BrokeOff;
      ghost var l0 := line;
      ghost var got: seq<Byte> := [];
      Starts(miso, line);
      var i := 0;
      while i < len
        invariant i <= len && 2 * i <= waits && |got| == i && rx[..Min(i, rx.Length)] == got[..Min(i, rx.Length)]
        invariant Sent(l0, line, bytes[..i]) && Received(miso, l0, line, got)
        invariant overran == (old(overran) || i > rx.Length) && tx[..] == old(tx[..])
      {
        if waits == 2 * i {
          BreaksOff(miso, l0, line, bytes[..i], got);
          return TIMEOUT;
        }
        var b: Byte := if useTx then tx[i] else 0;
        NextByte(useTx, bytes, i);
        Feeds(miso, l0, line, bytes[..i], [b]);
        OneIsToCome(l0, Offer(line, [b]), bytes[..i + 1], got);
        line := Offer(line, [b]);
        ghost var offered := line;
        ClockUntilHeard(pace(i));
        StillSoFar(l0, offered, bytes[..i + 1], got);
        if waits == 2 * i + 1 {
          BreaksOff(miso, l0, line, bytes[..i + 1], got);
          return TIMEOUT;
        }
        Takes(miso, l0, line, got);
        got := got + [line.rxFifo[0]];
        if i < rx.Length {
          Store(i, line.rxFifo[0]);
        } else {
          overran := true;
        }
        line := Fetch(line);
        i := i + 1;
      }
      assert bytes[..len] == bytes && got[..len] == got;
      EndsByHand(miso, l0, line, bytes, got, Min(len, rx.Length));
      EndsByHand(miso, l0, line, bytes, got, 0);
      assert got[..0] == [];
      if len == 0 {
        return OK;
      }
      if waits == 2 * len {
        BreaksOff(miso, l0, line, bytes, got);
        return TIMEOUT;
      }
      ClockOut(l0, bytes, got[..Min(len, rx.Length)], []);
      return OK;
    }

    lemma NextByte(useTx: bool, bytes: seq<Byte>, i: nat)
      requires i < |bytes| && if useTx then |bytes| <= tx.Length && tx[..|bytes|] == bytes else bytes == Zeros(|bytes|)
      ensures bytes[..i] + [if useTx then tx[i] else 0] == bytes[..i + 1]
    {
      if useTx {
        assert tx[..|bytes|][i] == tx[i];
      }
    }

    // A new transfer for the record.
    ghost method Record(m: Mode, bytes: seq<Byte>)
      modifies this`id, this`line0, this`way, this`out, this`chunks
      ensures id == old(id) + 1 && line0 == line && way == m && out == bytes && chunks == []
    {
      id := id + 1;
      line0 := line;
      way := m;
      out := bytes;
      chunks := [];
    }

    // What every transfer is told before it starts.
    method Arm(m: Mode, isMemRead: bool, rd: array<Byte>, count: nat, o: Operation, ghost bytes: seq<Byte>)
      requires ReportedOnce(updates, id, false)
      modifies this`mode, this`memRead, this`readBuff, this`readSize, this`op, this`result, this`busy, this`id,
               this`line0, this`way, this`out, this`chunks
      ensures busy && way == mode == m && memRead == isMemRead && readBuff == rd && readSize == count && op == o
          && result == PENDING
      ensures id == old(id) + 1 && line0 == line && out == bytes && chunks == []
      ensures ReportedOnce(updates, id, true)
    {
      hide ReportedOnce;
      StillReported(updates, id, false);
      mode := m;
      memRead := isMemRead;
      readBuff := rd;
      readSize := count;
      op := o;
      result := PENDING;
      busy := true;
      Record(m, bytes);
    }

    // A transfer answered at once is reported at once.
    method Answer(o: Operation, ans: ErrorCode)
      requires Valid() && !busy
      modifies this`id, this`updates, this`status
      ensures Valid() && id == old(id) + 1 && updates == if o == Block then old(updates) else old(updates) + [(id, ans)]
      ensures status == if o == Polling then StatusOf(ans) else old(status)
    {
      hide Buffers, Masked, Idle, ReportedOnce;
      StillReported(updates, id, busy);
      id := id + 1;
      StillReported(updates, id, true);
      if o != Block {
        OneMoreReport(updates, id, ans);
        updates := updates + [(id, ans)];
        if o == Polling {
          status := StatusOf(ans);
        }
      }
    }

    // The bytes a full-duplex transfer sends.
    function Padded(bytes: seq<Byte>, need: nat): (r: seq<Byte>)
      ensures |r| == Max(|bytes|, need)
    {
      bytes + Zeros(if |bytes| < need then need - |bytes| else 0)
    }

    lemma AtRest()
      requires Valid() && !busy
      ensures masked == {} && enabled == configured && !rxOn && !txOn && rxOnlyOffset == rxOnlyRemaining == 0
          && ReportedOnce(updates, id, false) && Buffers()
    {
    }

    // The buffers are large enough, and what is to be sent is in place.
    ghost predicate Prepared(m: Mode, bytes: seq<Byte>)
      reads this`tx, this`rx, tx
    {
      && (m != TxOnly ==> |bytes| <= rx.Length)
      && if m == RxOnly then bytes == Zeros(|bytes|) else |bytes| <= tx.Length && tx[..|bytes|] == bytes
    }

    // Sets the channels going for the armed transfer.
    method Launch(need: nat)
      requires need == |out| && Armed() && (mode == TxOnly ==> readSize == 0 && !memRead)
      modifies this`masked, this`enabled, this`rxDest, this`rxCount, this`rxPos, this`txCount, this`txPos, this`rxOn,
               this`txOn, this`repeatTx, this`chunks, this`rxOnlyOffset, this`rxOnlyRemaining, this`line
      ensures mode == Duplex ==> Counts() == Tally(0, |line0.toClock|, |line0.rxFifo|, 0)
      ensures Masked() && Programmed() && Exchanged()
    {
      hide Programmed, Exchanged, Masked, Armed, Counts;
      match mode
      case RxOnly => LaunchRxOnly(need);
      case Duplex => LaunchDuplex(need);
      case TxOnly => LaunchTxOnly(need);
      case ByHand => assert false;
    }

    // The armed transfer, with nothing handed over yet.
    ghost predicate Armed()
      reads this`line, this`line0, this`mode, this`out, this`busy, this`chunks, this`masked, this`enabled,
            this`configured, this`rx, this`tx, this`rxOnlyOffset, this`rxOnlyRemaining, tx
    {
      && out != [] && busy && masked == {} && enabled == configured && line0 == line && chunks == []
      && rxOnlyOffset == rxOnlyRemaining == 0 && Prepared(mode, out)
    }

    method LaunchRxOnly(need: nat)
      requires need == |out| && Armed() && mode == RxOnly
      modifies this`masked, this`rxDest, this`rxCount, this`rxPos, this`rxOn, this`txOn, this`repeatTx, this`chunks,
               this`rxOnlyOffset, this`rxOnlyRemaining, this`line
      ensures Masked() && Programmed() && Exchanged()
    {
      hide Sent, Received, Stream, Zeros;
      assert out[..0] == [] && rx[..0] == [];
      Starts(miso, line);
      var firstChunk := Min(need, CHUNK_MAX);
      rxOnlyOffset := firstChunk;
      rxOnlyRemaining := need - firstChunk;
      ZerosPart(0, firstChunk);
      Feeds(miso, line0, line, [], Zeros(firstChunk));
      StartDmaRxOnly(0, firstChunk);
    }

    method LaunchDuplex(need: nat)
      requires need == |out| && Armed() && mode == Duplex
      modifies this`masked, this`rxDest, this`rxCount, this`rxPos, this`txCount, this`txPos, this`rxOn, this`txOn
      ensures Masked() && Programmed() && Exchanged() && Counts() == Tally(0, |line0.toClock|, |line0.rxFifo|, 0)
    {
      hide Sent, Received, Stream, Zeros;
      assert out[..0] == [] && rx[..0] == [];
      Starts(miso, line);
      StartDmaDuplex(need);
    }

    method LaunchTxOnly(need: nat)
      requires need == |out| && Armed() && mode == TxOnly && readSize == 0 && !memRead
      modifies this`masked, this`enabled, this`txCount, this`txPos, this`rxOn, this`txOn
      ensures Masked() && Programmed() && Exchanged()
    {
      hide Sent, Received, Stream, Zeros;
      assert out[..0] == [];
      Starts(miso, line);
      StartDmaTxOnly(need);
    }

    /** How an accepted transfer stands when its call returns: still under way, to be reported by the
        interrupt; or over, with at most one report, the mask as configured and no credit left, and
        when the caller has been told that it went well carried out, with what it delivers in the
        caller's buffer. */
    ghost predicate Outcome(ec: ErrorCode, o: Operation, bytes: seq<Byte>, rd: array<Byte>, count: nat, skip: nat,
                            log: seq<(nat, ErrorCode)>, from: Line, via: Way)
      reads this, rd
    {
      && sem == 0 && count <= rd.Length
      && (if busy then
            && o == op != Block && ec == OK && updates == log && out == bytes && readBuff == rd && readSize == count
            && Skip() == skip && line0 == from && way == via
          else
            && enabled == configured && AtMostOne(log, o) && (ec != OK ==> Verdict(ec, o) == ec)
            && (Verdict(ec, o) == OK ==> Transferred(miso, from, line, bytes, rd[..count], skip, via)))
    }

    // What the caller of a transfer that is over has been told: by the answer, or by the report.
    ghost function Verdict(ec: ErrorCode, o: Operation): ErrorCode
      reads this`updates
    {
      if o == Block || updates == [] then ec else updates[|updates| - 1].1
    }

    // At most one report since `log`, and exactly one for a caller that does not wait.
    ghost predicate AtMostOne(log: seq<(nat, ErrorCode)>, o: Operation)
      reads this`updates, this`id
    {
      && (updates == log || (|updates| > 0 && updates == log + [(id, updates[|updates| - 1].1)]))
      && (o != Block ==> |updates| == |log| + 1)
    }

    // The DMA branch of every operation; what is to be sent is in the TX buffer.
    method TransferByDma(m: Mode, skip: bool, rd: array<Byte>, count: nat, o: Operation, ghost bytes: seq<Byte>,
        need: nat,
                         early: seq<Happening>, waiting: seq<Happening>, race: seq<Happening>) returns (ec: ErrorCode)
      requires Valid() && !busy && sem == 0 && ApartFrom(rd)
      requires need == |bytes| > 0 && count <= rd.Length && count + (if skip then 1 else 0) <= need
          && (m == TxOnly ==> count == 0 && !skip)
      requires Prepared(m, bytes)
      modifies this`mode, this`memRead, this`readBuff, this`readSize, this`op, this`result, this`busy, this`masked,
               this`enabled, this`rxDest, this`rxCount, this`rxPos, this`txCount, this`txPos, this`rxOn, this`txOn,
               this`repeatTx, this`rxOnlyOffset, this`rxOnlyRemaining, this`sem, this`status, this`rx, this`rxSpare,
               this`tx, this`txSpare, this`line, this`id, this`updates, this`line0, this`way, this`out, this`chunks,
               rx, rd
      ensures Valid() && readBuff == rd && id == old(id) + 1
      ensures Outcome(ec, o, bytes, rd, count, if skip then 1 else 0, old(updates), old(line), m)
      ensures status == if o == Polling then RUNNING else old(status)
      ensures o != Block && m == Duplex ==>
            busy == !Over(early, Tally(0, |old(line.toClock)|, |old(line.rxFifo)|, 0), need)
      ensures !busy && Verdict(ec, o) == OK && m == RxOnly ==> Tiled(chunks, need, need)
    {
      hide Valid, Heard, Tiled, Zeros, Delivered, ApartFrom, Outcome, AtMostOne, Verdict, Prepared;
      BeginDma(m, skip, rd, count, o, bytes, need);
      assert line0 == old(line) && updates == old(updates);
      ec := SeeThrough(o, early, waiting, race);
    }

    // The transfer just begun, until its call returns.
    method SeeThrough(o: Operation, early: seq<Happening>, waiting: seq<Happening>, race: seq<Happening>)
        returns (ec: ErrorCode)
      requires Valid() && busy && op == o && sem == 0 && readSize <= readBuff.Length
      modifies this`rxOn, this`txOn, this`repeatTx, this`rxOnlyOffset, this`rxOnlyRemaining, this`enabled,
               this`masked, this`busy, this`mode, this`result, this`sem, this`status, this`updates, this`readSize,
               this`rx, this`rxSpare, this`tx, this`txSpare, this`rxDest, this`rxCount, this`rxPos, this`chunks,
               this`line, this`txPos, this`op, rx, readBuff
      ensures Valid() && status == if o == Polling then RUNNING else old(status)
      ensures o != Block && old(mode) == Duplex ==> busy == !Over(early, old(Counts()), |out|)
      ensures Outcome(ec, o, out, readBuff, old(readSize), Skip(), old(updates), line0, way)
      ensures !busy && Verdict(ec, o) == OK && old(mode) == RxOnly ==> Tiled(chunks, |out|, |out|)
    {
      hide Valid, Heard, Tiled, Zeros, Delivered, ApartFrom, Outcome, AtMostOne, Verdict;
      ghost var log, count := updates, readSize;
      ec := CompleteDmaOperation(o, early, waiting, race);
      if busy {
        LeftRunning(o, out, readBuff, count, Skip());
      } else {
        Concluded(ec, o, log, out, readBuff, count, Skip());
      }
    }

    lemma LeftRunning(o: Operation, bytes: seq<Byte>, rd: array<Byte>, count: nat, skip: nat)
      requires busy && o == op != Block && sem == 0 && out == bytes && readBuff == rd
          && readSize == count <= rd.Length && Skip() == skip
      ensures Outcome(OK, o, bytes, rd, count, skip, updates, line0, way)
    {
    }

    lemma Concluded(ec: ErrorCode, o: Operation, log: seq<(nat, ErrorCode)>, bytes: seq<Byte>, rd: array<Byte>,
        count: nat, skip: nat)
      requires !busy && sem == 0 && enabled == configured && out == bytes && readBuff == rd && count <= rd.Length
          && Skip() == skip
      requires updates == log || (|updates| > 0 && updates == log + [(id, updates[|updates| - 1].1)])
      requires o != Block ==> ec == OK && updates == log + [(id, result)]
      requires (if o == Block then ec else result) == OK ==> Delivered(count)
      ensures Verdict(ec, o) == if o == Block then ec else result
      ensures Outcome(ec, o, bytes, rd, count, skip, log, line0, way)
    {
    }

    method BeginDma(m: Mode, skip: bool, rd: array<Byte>, count: nat, o: Operation, ghost bytes: seq<Byte>, need: nat)
      requires Valid() && !busy && ApartFrom(rd)
      requires need == |bytes| > 0 && count <= rd.Length && count + (if skip then 1 else 0) <= need
          && (m == TxOnly ==> count == 0 && !skip)
      requires Prepared(m, bytes)
      modifies this`mode, this`memRead, this`readBuff, this`readSize, this`op, this`result, this`busy, this`id,
               this`line0, this`way, this`out, this`chunks, this`masked, this`enabled, this`rxDest, this`rxCount,
               this`rxPos, this`txCount, this`txPos, this`rxOn, this`txOn, this`repeatTx, this`rxOnlyOffset,
               this`rxOnlyRemaining, this`line
      ensures Valid() && busy && mode == m && readBuff == rd && readSize == count && memRead == skip && op == o
          && id == old(id) + 1
      ensures line0 == old(line) && way == m && out == bytes
          && (m == Duplex ==> Counts() == Tally(0, |line0.toClock|, |line0.rxFifo|, 0))
    {
      hide Buffers, ReportedOnce, Masked, Programmed, Exchanged, Tiled, ApartFrom, Zeros, Idle, Delivered, Prepared,
          Armed, Counts, Valid;
      AtRest();
      Arm(m, skip, rd, count, o, bytes);
      IsArmed();
      Launch(need);
      Assembled();
    }

    lemma IsArmed()
      requires out != [] && busy && masked == {} && enabled == configured && line0 == line && chunks == []
      requires rxOnlyOffset == rxOnlyRemaining == 0 && Prepared(mode, out)
      ensures Armed()
    {
    }

    lemma Assembled()
      requires busy && result == PENDING && Buffers() && ApartFrom(readBuff) && Masked()
          && ReportedOnce(updates, id, true)
      requires Programmed() && Exchanged() && Wanted() && way == mode
      ensures Valid()
    {
    }

    // The polled branch of every operation.
    method TransferByPolling(useTx: bool, skip: nat, rd: array<Byte>, count: nat, o: Operation,
        ghost bytes: seq<Byte>, need: nat, waits: nat)
      returns (ec: ErrorCode)
      requires Valid() && !busy && sem == 0 && ApartFrom(rd) && need == |bytes| > 0
      requires count <= rd.Length && count + skip <= need && (count > 0 ==> need <= rx.Length)
          && (count == 0 ==> skip == 0)
      requires if useTx then need <= tx.Length && tx[..need] == bytes else bytes == Zeros(need)
      modifies this, rx, rd
      ensures Valid() && readBuff == old(readBuff) && id == old(id) + 1 && !busy
          && ec == (if waits < 2 * need + 1 then TIMEOUT else OK)
      ensures overran == (old(overran) || Min(need, waits / 2) > old(rx).Length)
      ensures status == if o == Polling then StatusOf(ec) else old(status)
      ensures Outcome(ec, o, bytes, rd, count, skip, old(updates), old(line), ByHand) && Verdict(ec, o) == ec
      ensures ec == TIMEOUT ==> BrokeOff(miso, old(line), line, waits / 2, waits % 2)
    {
      hide Valid, Zeros, Outcome, Verdict, Transferred, ApartFrom, BrokeOff;
      ghost var from, log := line, updates;
      ec := Poll(useTx, skip, rd, count, bytes, need, waits);
      SwapAtRest();
      Answer(o, ec);
      AtRest();
      PolledOutcome(ec, o, log, from, bytes, rd, count, skip);
    }

    method SwapAtRest()
      requires Valid() && !busy
      modifies this`rx, this`rxSpare, this`tx, this`txSpare
      ensures Valid()
    {
      hide Masked, ReportedOnce;
      SwitchBuffer();
    }

    method Poll(useTx: bool, skip: nat, rd: array<Byte>, count: nat, ghost bytes: seq<Byte>, need: nat, waits: nat)
        returns (ec: ErrorCode)
      requires Valid() && !busy && ApartFrom(rd) && need == |bytes| > 0
      requires count <= rd.Length && count + skip <= need && (count > 0 ==> need <= rx.Length)
          && (count == 0 ==> skip == 0)
      requires if useTx then need <= tx.Length && tx[..need] == bytes else bytes == Zeros(need)
      modifies this`line, this`overran, rx, rd
      ensures Valid() && ec == (if waits < 2 * need + 1 then TIMEOUT else OK)
      ensures overran == (old(overran) || Min(need, waits / 2) > rx.Length)
      ensures ec == OK ==> Transferred(miso, old(line), line, bytes, rd[..count], skip, ByHand)
      ensures ec == TIMEOUT ==> BrokeOff(miso, old(line), line, waits / 2, waits % 2)
    {
      hide Masked, ReportedOnce, Zeros, Transferred, BrokeOff;
      ghost var from := line;
      ec := PollingTransfer(useTx, need, waits, bytes);
      if ec == OK && count > 0 {
        PartOf(miso, from, line, bytes, rx[..need], skip, count);
        FetchPolled(rd, skip, count, need);
      }
      assert count == 0 ==> rd[..count] == [];
    }

    method FetchPolled(rd: array<Byte>, skip: nat, count: nat, need: nat)
      requires count <= rd.Length && skip + count <= need <= rx.Length && rx != rd
      modifies rd
      ensures rd[..count] == old(rx[..need])[skip..skip + count]
    {
      PartOfPart(rx[..], need, skip, skip + count);
      CopyOut(rd, skip, count);
    }

    lemma PolledOutcome(ec: ErrorCode, o: Operation, log: seq<(nat, ErrorCode)>, from: Line, bytes: seq<Byte>,
        rd: array<Byte>,
                        count: nat, skip: nat)
      requires !busy && sem == 0 && enabled == configured && count <= rd.Length
      requires updates == if o == Block then log else log + [(id, ec)]
      requires ec == OK ==> Transferred(miso, from, line, bytes, rd[..count], skip, ByHand)
      ensures Outcome(ec, o, bytes, rd, count, skip, log, from, ByHand) && Verdict(ec, o) == ec
    {
    }

    /** What a polled word says when the call of a transfer returns.  By DMA it says RUNNING, also when
        the transfer has ended early: it has then been told already, and says so for good. */
    function Word(ec: ErrorCode, o: Operation, need: nat, was: Status): Status {
      if o != Polling then was else if need > minSize then RUNNING else StatusOf(ec)
    }

    function WayOf(bytes: seq<Byte>, need: nat): Way {
      if need <= minSize then ByHand else if bytes == [] then RxOnly else Duplex
    }

    /** Full duplex, or a read alone: the write, padded with zeros, goes out while as much comes in. */
    method ReadAndWrite(rd: array<Byte>, bytes: seq<Byte>, o: Operation, early: seq<Happening>,
        waiting: seq<Happening>, race: seq<Happening>, waits: nat)
      returns (ec: ErrorCode)
      requires Between() && ApartFrom(rd)
      modifies this, rx, tx, rd
      ensures Between() && readBuff in {old(readBuff), rd} && overran == old(overran)
      ensures rd.Length == 0 && bytes == [] ==> ec == OK && unchanged(this)
      ensures (rd.Length > 0 || bytes != []) && old(busy) ==> ec == BUSY && unchanged(this)
      ensures var need := Max(rd.Length, |bytes|);
        need > 0 && !old(busy) && (old(rx).Length < need || (bytes != [] && old(tx).Length < need)) ==>
            ec == SIZE_ERR && unchanged(this)
      ensures var need := Max(rd.Length, |bytes|);
        need > 0 && !old(busy) && need <= old(rx).Length && (bytes == [] || need <= old(tx).Length) ==>
          && id == old(id) + 1
          && Outcome(ec, o, Padded(bytes, need), rd, rd.Length, 0, old(updates), old(line), WayOf(bytes, need))
          && status == Word(ec, o, need, old(status))
          && (bytes != [] && need > minSize && o != Block ==>
                busy == !Over(early, Tally(0, |old(line.toClock)|, |old(line.rxFifo)|, 0), need))
          && (!busy && Verdict(ec, o) == OK && bytes == [] && need > minSize ==> Tiled(chunks, need, need))
          && (need <= minSize ==> !busy && Verdict(ec, o) == ec == (if waits < 2 * need + 1 then TIMEOUT else OK))
          && (need <= minSize && ec == TIMEOUT ==> BrokeOff(miso, old(line), line, waits / 2, waits % 2))
    {
      hide Valid, Outcome, Tiled, Zeros, AtMostOne, Transferred, Verdict, BrokeOff;
      var need := Max(rd.Length, |bytes|);
      var readOnly := |bytes| == 0 && rd.Length > 0;
      if need == 0 {
        return OK;  // a transfer of nothing is answered and never starts
      }
      var isBusy := DmaBusy();
      if isBusy {
        return BUSY;
      }
      if rx.Length < need {
        return SIZE_ERR;
      }
      if !readOnly && tx.Length < need {
        return SIZE_ERR;
      }
      Sizes(bytes, need, readOnly);
      ghost var log, from := updates, line;
      if !readOnly {
        PrepareTx(Padded(bytes, need));
      }
      if need > minSize {
        ec := TransferByDma(if readOnly then RxOnly else Duplex, false, rd, rd.Length, o, Padded(bytes, need), need,
            early, waiting, race);
      } else {
        ec := TransferByPolling(!readOnly, 0, rd, rd.Length, o, Padded(bytes, need), need, waits);
      }
      OutcomeMeans(ec, o, Padded(bytes, need), rd, rd.Length, 0, log, from, WayOf(bytes, need));
    }

    lemma Sizes(bytes: seq<Byte>, need: nat, readOnly: bool)
      requires need >= |bytes| && (readOnly ==> bytes == [])
      ensures |Padded(bytes, need)| == need && (readOnly ==> Padded(bytes, need) == Zeros(need))
    {
    }

    // The transmit buffer may be written while nothing is under way.
    method PrepareTx(bytes: seq<Byte>)
      requires Valid() && !busy && |bytes| <= tx.Length
      modifies tx
      ensures Valid() && tx[..|bytes|] == bytes
    {
      FillTx(bytes);
    }

    /** A register read: the register number with bit 7 set goes out first, and what comes in with it
        is not the caller's. */
    method MemRead(reg: nat, rd: array<Byte>, o: Operation, early: seq<Happening>, waiting: seq<Happening>,
        race: seq<Happening>, waits: nat)
      returns (ec: ErrorCode)
      requires Between() && ApartFrom(rd) && rd.Length + 1 <= rx.Length && rd.Length + 1 <= tx.Length
      modifies this, rx, tx, rd
      ensures Between() && readBuff in {old(readBuff), rd} && overran == old(overran)
      ensures rd.Length == 0 ==> ec == OK && unchanged(this)
      ensures rd.Length > 0 && old(busy) ==> ec == BUSY && unchanged(this)
      ensures rd.Length > 0 && !old(busy) ==>
                && id == old(id) + 1
                && status == Word(ec, o, rd.Length + 1, old(status))
                && Outcome(ec, o, [reg % 128 + 128] + Zeros(rd.Length), rd, rd.Length, 1, old(updates), old(line),
                           if rd.Length + 1 > minSize then Duplex else ByHand)
    {
      hide Valid, Outcome, Tiled, Zeros, AtMostOne, Transferred, Verdict;
      if rd.Length == 0 {
        return OK;
      }
      var isBusy := DmaBusy();
      if isBusy {
        return BUSY;
      }
      var bytes: seq<Byte> := [reg % 128 + 128] + Zeros(rd.Length);
      PrepareTx(bytes);
      var total := rd.Length + 1;
      ghost var log, from := updates, line;
      if total > minSize {
        ec := TransferByDma(Duplex, true, rd, rd.Length, o, bytes, total, early, waiting, race);
      } else {
        ec := TransferByPolling(true, 1, rd, rd.Length, o, bytes, total, waits);
      }
      OutcomeMeans(ec, o, bytes, rd, rd.Length, 1, log, from, if total > minSize then Duplex else ByHand);
    }

    /** A register write: the register number with bit 7 clear, then the data; nothing is fetched.
        Only the TX buffer is checked.  By hand, what comes in overruns the RX buffer if and only if
        that is smaller than what goes out, and the time lasts that far. */
    method MemWrite(reg: nat, data: seq<Byte>, o: Operation, early: seq<Happening>, waiting: seq<Happening>,
        race: seq<Happening>, waits: nat)
      returns (ec: ErrorCode)
      requires Between() && |data| + 1 <= tx.Length
      modifies this, rx, tx
      ensures Between() && (readBuff == old(readBuff) || fresh(readBuff))
      ensures data == [] ==> ec == OK && unchanged(this)
      ensures data != [] && old(busy) ==> ec == BUSY && unchanged(this)
      ensures data != [] && !old(busy) && busy ==>
            o != Block && ec == OK && out == [reg % 128] + data && updates == old(updates)
      ensures data != [] && !old(busy) ==> id == old(id) + 1 && status == Word(ec, o, |data| + 1, old(status))
      ensures data != [] && !old(busy) && !busy ==> enabled == configured && AtMostOne(old(updates), o)
      ensures data != [] && !old(busy) && !busy && Verdict(ec, o) == OK ==>
                line.mosi + line.toClock == old(line.mosi + line.toClock) + ([reg % 128] + data)
      ensures data != [] && !old(busy) ==>
                overran == (old(overran) || (|data| + 1 <= minSize && Min(|data| + 1, waits / 2) > old(rx).Length))
    {
      hide Valid, Outcome, Tiled, Zeros, AtMostOne, Transferred, Verdict;
      if data == [] {
        return OK;
      }
      var isBusy := DmaBusy();
      if isBusy {
        return BUSY;
      }
      var bytes: seq<Byte> := [reg % 128] + data;
      PrepareTx(bytes);
      var total := |data| + 1;
      var nothing := new Byte[0];
      ghost var log, from := updates, line;
      if total > minSize {
        ec := TransferByDma(TxOnly, false, nothing, 0, o, bytes, total, early, waiting, race);
      } else {
        ec := TransferByPolling(true, 0, nothing, 0, o, bytes, total, waits);
      }
      OutcomeMeans(ec, o, bytes, nothing, 0, 0, log, from, if total > minSize then TxOnly else ByHand);
    }

    lemma OutcomeMeans(ec: ErrorCode, o: Operation, bytes: seq<Byte>, rd: array<Byte>, count: nat, skip: nat,
                       log: seq<(nat, ErrorCode)>, from: Line, via: Way)
      requires Outcome(ec, o, bytes, rd, count, skip, log, from, via)
      ensures sem == 0 && (busy ==> o == op != Block && ec == OK && out == bytes && updates == log)
      ensures !busy ==>
                && enabled == configured && AtMostOne(log, o)
                && (Verdict(ec, o) == OK && via in {TxOnly, ByHand} ==>
                      line.mosi + line.toClock == from.mosi + from.toClock + bytes)
    {
    }

    /* ---------------- whole runs ---------------- */

    /** A caller that polls, from its call to the end of its transfer.  When that is over the word still
        says RUNNING if and only if it was over before the call returned, and went by DMA; in full
        duplex that is exactly when what happened before the mark brings it to its end. */
    method Polled(rd: array<Byte>, bytes: seq<Byte>, early: seq<Happening>, later: seq<Happening>, waits: nat)
        returns (over: bool)
      requires Between() && !busy && ApartFrom(rd) && 0 < Max(rd.Length, |bytes|) <= Min(rx.Length, tx.Length)
      modifies this, own, readBuff, rd
      ensures Valid() && (!busy ==> (status == RUNNING <==> over && Max(rd.Length, |bytes|) > minSize))
      ensures bytes != [] && Max(rd.Length, |bytes|) > minSize ==>
                over == Over(early, Tally(0, |old(line.toClock)|, |old(line.rxFifo)|, 0), Max(rd.Length, |bytes|))
    {
      hide Valid, Outcome, Tiled, Zeros, Transferred, Verdict;
      ghost var log, from := updates, line;
      Owned();
      var ec := ReadAndWrite(rd, bytes, Polling, early, [], [], waits);
      OutcomeMeans(ec, Polling, Padded(bytes, Max(rd.Length, |bytes|)), rd, rd.Length, 0, log, from,
          WayOf(bytes, Max(rd.Length, |bytes|)));
      over := !busy;
      if busy {
        Owned();
        Happen(later);
      }
    }

    // Every transfer so far has been reported, but for the one under way and those of BLOCK callers,
    // which are answered.
    static predicate AllReported(log: seq<(nat, ErrorCode)>, now: nat, running: bool, answered: set<nat>) {
      forall k: nat | 0 < k <= now && k !in answered && !(running && k == now) :: Reported(log, k)
    }

    static predicate Reported(log: seq<(nat, ErrorCode)>, k: nat) {
      exists i :: 0 <= i < |log| && log[i].0 == k
    }

    static lemma StaysReported(log: seq<(nat, ErrorCode)>, k: nat, more: (nat, ErrorCode))
      requires Reported(log, k) || more.0 == k
      ensures Reported(log + [more], k)
    {
      if Reported(log, k) {
        var i :| 0 <= i < |log| && log[i].0 == k;
        assert (log + [more])[i].0 == k;
      } else {
        assert (log + [more])[|log|].0 == k;
      }
    }

    // One more transfer, under way, reported, or answered; or the one under way has been reported.
    static lemma OneMoreTransfer(log: seq<(nat, ErrorCode)>, now: nat, was: bool, answered: set<nat>,
                                 log2: seq<(nat, ErrorCode)>, now2: nat, running: bool, wait: bool)
      requires AllReported(log, now, was, answered) && if now2 == now then was && !wait else now2 == now + 1 && !was
      requires log2 == log || (|log2| > 0 && log2 == log + [(now2, log2[|log2| - 1].1)])
      requires log2 == log ==> running || wait
      ensures AllReported(log2, now2, running, if wait then answered + {now2} else answered)
    {
      forall k: nat | 0 < k <= now2 && k !in (if wait then answered + {now2} else answered)
          && !(running && k == now2) ensures Reported(log2, k) {
        if log2 != log {
          StaysReported(log, k, log2[|log2| - 1]);
        }
      }
    }

    /** One call, or what happens between two calls. */
    method DoStep(step: Step, ghost answered: set<nat>) returns (ghost now: set<nat>)
      requires Between() && AllReported(updates, id, busy, answered)
      modifies this, own, readBuff
      ensures Between() && AllReported(updates, id, busy, now) && (readBuff == old(readBuff) || fresh(readBuff))
      ensures now == answered || (step.Call? && step.o == Block && now == answered + {id})
    {
      hide Valid, Outcome, AllReported, Tiled, Zeros, Transferred, Verdict, ReportedOnce;
      now := answered;
      ghost var log, was := updates, id;
      var wasBusy := busy;
      match step
      case Meanwhile(events) =>
        Owned();
        Happen(events);
        if wasBusy && !busy {
          OneMoreTransfer(log, was, true, answered, updates, id, false, false);
        }
      case Call(what, o, early, waiting, race, waits) =>
        var ec := Perform(what, o, early, waiting, race, waits);
        if id != was {
          OneMoreTransfer(log, was, false, answered, updates, id, busy, o == Block);
          now := if o == Block then answered + {id} else answered;
        }
    }

    method Perform(what: Request, o: Operation, early: seq<Happening>, waiting: seq<Happening>, race: seq<Happening>,
        waits: nat)
      returns (ec: ErrorCode)
      requires Between()
      modifies this, own, readBuff
      ensures Between() && (readBuff == old(readBuff) || fresh(readBuff))
      ensures id == old(id) ==> unchanged(`updates, `busy)
      ensures id != old(id) ==> id == old(id) + 1 && !old(busy)
      ensures id != old(id) ==> if busy then o != Block && updates == old(updates) else AtMostOne(old(updates), o)
    {
      hide Valid, Outcome, Tiled, Zeros, Transferred, Verdict, AtMostOne;
      ec := OK;
      ghost var log, from := updates, line;
      Owned();
      match what
      case Transfer(length, bytes) =>
        var rd := new Byte[length];
        ec := ReadAndWrite(rd, bytes, o, early, waiting, race, waits);
        if id != old(id) {
          OutcomeMeans(ec, o, Padded(bytes, Max(length, |bytes|)), rd, length, 0, log, from,
              WayOf(bytes, Max(length, |bytes|)));
        }
      case ReadRegister(reg, length) =>
        if length + 1 <= rx.Length && length + 1 <= tx.Length {
          var rd := new Byte[length];
          ec := MemRead(reg, rd, o, early, waiting, race, waits);
          if id != old(id) {
            OutcomeMeans(ec, o, [reg % 128 + 128] + Zeros(length), rd, length, 1, log, from,
                         if length + 1 > minSize then Duplex else ByHand);
          }
        }
      case WriteRegister(reg, data) =>
        if |data| + 1 <= tx.Length {
          ec := MemWrite(reg, data, o, early, waiting, race, waits);
        }
    }

    lemma Owned()
      requires Valid()
      ensures {rx, tx, rxSpare, txSpare} <= own && rx.Length == rxSize && tx.Length == txSize
    {
    }

    /** Any run of calls, frames and interrupts: every transfer is reported at most once, by the end of
        the run exactly once unless it is still under way or its BLOCK caller has been answered
        instead; the mask is as configured whenever nothing is under way; no credit is left. */
    method Run(steps: seq<Step>) returns (ghost answered: set<nat>)
      requires Between() && id == 0
      modifies this, own, readBuff
      ensures Between() && ReportedOnce(updates, id, busy) && AllReported(updates, id, busy, answered)
      ensures !busy ==> enabled == configured
      ensures (forall step <- steps :: step.Call? ==> step.o != Block) ==> answered == {}
    {
      hide Valid, AllReported, ReportedOnce;
      answered := {};
      NoneYet();
      var i := 0;
      while i < |steps|
        invariant i <= |steps| && Between() && AllReported(updates, id, busy, answered)
        invariant readBuff == old(readBuff) || fresh(readBuff)
        invariant (forall step <- steps :: step.Call? ==> step.o != Block) ==> answered == {}
      {
        answered := DoStep(steps[i], answered);
        i := i + 1;
      }
      Parts();
      if !busy {
        AtRest();
      }
    }

    lemma NoneYet()
      requires id == 0
      ensures AllReported(updates, id, busy, {})
    {
    }
  }

  // A call of the driver, or what happens between two calls.
  datatype Step =
    | Call(what: Request, o: Operation, early: seq<Happening>, waiting: seq<Happening>, race: seq<Happening>,
        waits: nat)
    | Meanwhile(events: seq<Happening>)

  datatype Request = Transfer(length: nat, bytes: seq<Byte>) | ReadRegister(reg: nat,
      length: nat) | WriteRegister(reg: nat, data: seq<Byte>)

  /** A register write by hand, with the RX buffer smaller than the TX buffer, writes behind the end of
      the RX buffer. */
  method HandWriteOverruns() returns (spi: Mspm0Spi)
    ensures spi.overran
  {
    spi := new Mspm0Spi(_ => 0, 8, 1, 2, {}, _ => 0, 0);
    var _ := spi.MemWrite(0, [7], Notify, [], [], [], 5);
  }

  /** A polled read of one byte that breaks off between sending and fetching, and another after it: the
      second delivers the answer to the frame of the first, which is 0, and not to its own, which is 1. */
  method AnswerOfAnother() returns (rd: array<Byte>)
    ensures rd.Length == 1 && rd[0] == 0
  {
    hide Mspm0Spi.Valid, Transferred, BrokeOff;
    var miso: nat -> Byte := n => n % 0x100;
    var spi := new Mspm0Spi(miso, 8, 1, 1, {}, _ => 0, 0);
    ghost var l0 := spi.line;
    rd := new Byte[1];
    spi.Owned();
    var _ := spi.ReadAndWrite(rd, [], Notify, [], [], [], 1);
    ghost var l := spi.line;
    spi.Owned();
    var ec := spi.ReadAndWrite(rd, [], Notify, [], [], [], 3);
    assert spi.Outcome(ec, Notify, spi.Padded([], 1), rd, 1, 0, spi.updates[..1], l, ByHand);
    FirstOfAnother(miso, l0, l);
    DeliveredAt(miso, l, spi.line, spi.Padded([], 1), rd[..1], 0, ByHand, 0);
  }

  lemma FirstOfAnother(miso: nat -> Byte, l0: Line, l: Line)
    requires l0 == Line(0, [], [], []) && BrokeOff(miso, l0, l, 0, 1)
    ensures if l.rxFifo == [] then l.clocked == 0 else l.rxFifo[0] == miso(0)
  {
    var got :| |got| == 0 && Received(miso, l0, l, got);
    assert got + l.rxFifo == l.rxFifo;
    assert l.rxFifo == Heard(miso, 0, l.clocked);
  }

  /** A transfer that is over before its call returns leaves the word that is polled at RUNNING,
      whatever happens later. */
  method RunningForGood(later: seq<Happening>) returns (spi: Mspm0Spi)
    ensures !spi.busy && |spi.updates| == 1 && spi.status == RUNNING
  {
    hide Mspm0Spi.Valid;
    spi := new Mspm0Spi(_ => 0, 1, 2, 2, {}, _ => 0, 0);
    var nothing := new Byte[0];
    spi.Owned();
    var _ := spi.ReadAndWrite(nothing, [1, 2], Polling, [Irq(ParityError, true)], [], [], 2);
    spi.Owned();
    spi.Happen(later);
  }

  // The TX channel hands over a byte, a frame is clocked, the RX channel fetches a byte, or an interrupt.
  datatype Happening = Feed | Clock | Take | Irq(pending: Interrupt, drained: bool)

  // Bytes handed over, still to be clocked, in the RX FIFO and fetched, of a full-duplex transfer.
  datatype Tally = Tally(fed: nat, due: nat, held: nat, taken: nat)

  function Moved(e: Happening, t: Tally, need: nat): Tally {
    match e
    case Feed => if t.fed < need && t.due < FIFO_DEPTH then t.(fed := t.fed + 1, due := t.due + 1) else t
    case Clock => if t.due > 0 && t.held < FIFO_DEPTH then t.(due := t.due - 1, held := t.held + 1) else t
    case Take => if t.taken < need && t.held > 0 then t.(held := t.held - 1, taken := t.taken + 1) else t
    case Irq(_, _) => t
  }

  predicate Stops(e: Happening, t: Tally, need: nat) {
    e.Irq? && (e.pending in {TxUnderflow, ParityError, RxOverflow, RxTimeout}
        || (e.pending == DmaDoneRx && t.taken == need))
  }

  /** A full-duplex transfer of `need` bytes that is so far is over after these events. */
  predicate Over(events: seq<Happening>, t: Tally, need: nat) {
    events != [] && (Stops(events[0], t, need) || Over(events[1..], Moved(events[0], t, need), need))
  }
}
