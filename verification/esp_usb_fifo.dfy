/** The packet memory of the ESP32-S3 USB controller: one RX FIFO, then a TX FIFO for each IN
    endpoint, handed out once and in order. */
module EspUsbFifo {
  const ENDPOINT_COUNT := 7
  const IN_ENDPOINT_LIMIT := 5
  const MIN_TX := 16   // ESP32_SX_FS_MIN_TX_FIFO_WORDS
  const MIN_RX := 88   // ESP32_SX_FS_DMA_MIN_RX_FIFO_WORDS
  const MAX_TX := 16384  // words of the largest packet a 16-bit size can ask for

  function U16(n: nat): nat { n % 0x1_0000 }

  function Max(a: nat, b: nat): nat { if a >= b then a else b }

  function CalcRxFifoWords(largest: nat, endpoints: nat): nat {
    U16(13 + 1 + 2 * ((largest + 3) / 4 + 1) + 2 * endpoints)
  }

  function CalcConfiguredRxFifoWords(largest: nat, endpoints: nat, dma: bool): nat {
    var words := CalcRxFifoWords(largest, endpoints);
    if dma then Max(words, MIN_RX) else words
  }

  function CalcTxFifoWords(packet: nat, dma: bool): nat {
    var words := U16((packet + 3) / 4);
    if dma then Max(words, MIN_TX) else words
  }

  // A packet fits the FIFO that is calculated for it.
  lemma TxSizeSuffices(packet: nat, dma: bool)
    requires packet < 0x1_0000
    ensures packet <= 4 * CalcTxFifoWords(packet, dma) && CalcTxFifoWords(packet, dma) <= MAX_TX
  {
  }

  lemma RxSizeSuffices(packet: nat, dma: bool)
    requires packet < 0x1_0000
    ensures packet <= 4 * CalcConfiguredRxFifoWords(packet, ENDPOINT_COUNT, dma)
    ensures CalcConfiguredRxFifoWords(packet, ENDPOINT_COUNT, dma) + MAX_TX < 0x1_0000
  {
  }

  // PackTxFifoSizeReg
  function Pack(start: nat, words: nat): nat { words * 0x1_0000 + start }

  function Start(reg: nat): nat { reg % 0x1_0000 }

  function Words(reg: nat): nat { reg / 0x1_0000 }

  lemma Unpacked(start: nat, words: nat)
    requires start < 0x1_0000
    ensures Start(Pack(start, words)) == start && Words(Pack(start, words)) == words
  {
  }

  function Sum(words: seq<nat>): nat {
    if words == [] then 0 else Sum(words[..|words| - 1]) + words[|words| - 1]
  }

  lemma SumStep(words: seq<nat>, n: nat)
    requires n < |words|
    ensures Sum(words[..n + 1]) == Sum(words[..n]) + words[n]
  {
    assert words[..n + 1][..n] == words[..n];
  }

  lemma {:induction false} SumMonotone(words: seq<nat>, m: nat, n: nat)
    requires m <= n <= |words|
    ensures Sum(words[..m]) <= Sum(words[..n])
  {
    if m < n {
      SumMonotone(words, m, n - 1);
      SumStep(words, n - 1);
    }
  }

  lemma {:induction false} SumOfZeros(words: seq<nat>, m: nat, n: nat)
    requires m <= n <= |words| && forall k :: m <= k < n ==> words[k] == 0
    ensures Sum(words[..n]) == Sum(words[..m])
  {
    if m < n {
      SumOfZeros(words, m, n - 1);
      SumStep(words, n - 1);
    }
  }

  function Count(flags: seq<bool>): nat {
    if flags == [] then 0 else Count(flags[..|flags| - 1]) + (if flags[|flags| - 1] then 1 else 0)
  }

  lemma {:induction false} CountSet(flags: seq<bool>, i: nat)
    requires i < |flags| && !flags[i]
    ensures Count(flags[i := true]) == Count(flags) + 1
  {
    var last := |flags| - 1;
    if i < last {
      CountSet(flags[..last], i);
      assert flags[i := true][..last] == flags[..last][i := true];
    } else {
      assert flags[i := true][..last] == flags[..last];
    }
  }

  // What AllocateTxFifo asks for at `index` on behalf of endpoint `ep`.
  function Requested(index: nat, ep: nat, words: nat): nat {
    if index == ep then words else MIN_TX
  }

  // Words still to be handed out to the endpoints below `upto`.
  function Missing(tx: seq<nat>, ep: nat, words: nat, upto: nat): nat
    requires upto <= |tx|
  {
    if upto == 0 then 0
    else Missing(tx, ep, words, upto - 1) + if tx[upto - 1] == 0 then Requested(upto - 1, ep, words) else 0
  }

  predicate LargeEnough(tx: seq<nat>, ep: nat, words: nat, upto: nat)
    requires upto <= |tx|
  {
    forall i :: 0 <= i < upto && tx[i] != 0 ==> tx[i] >= Requested(i, ep, words)
  }

  lemma {:induction false} MissingGrows(tx: seq<nat>, ep: nat, words: nat, m: nat, n: nat)
    requires m <= n <= |tx|
    ensures Missing(tx, ep, words, m) <= Missing(tx, ep, words, n)
  {
    if m < n {
      MissingGrows(tx, ep, words, m, n - 1);
    }
  }

  class Esp32UsbFifo {
    const dma: bool
    const depth: nat       // depth_words
    const txRegisters: nat // entries of dieptxf_regs
    var rxWords: nat
    var txNext: nat
    var txWords: array<nat>
    var txBound: array<bool>
    var allocatedIn: nat
    // Registers: grxfsiz, then gnptxfsiz and dieptxf in one array.
    var rxReg: nat
    var txReg: array<nat>

    // The nonzero sizes are those of the first endpoints.
    ghost predicate Prefix()
      reads this`txWords, txWords
    {
      forall i, j :: 0 <= i < j < txWords.Length && txWords[j] != 0 ==> txWords[i] != 0
    }

    // Each FIFO that was handed out starts where the RX FIFO and the ones below it end.
    ghost predicate Programmed()
      reads this`txWords, this`txReg, this`rxWords, txWords, txReg
    {
      txReg.Length == txWords.Length &&
      forall i :: 0 <= i < txWords.Length && txWords[i] != 0 ==>
          txReg[i] == Pack(rxWords + Sum(txWords[..i]), txWords[i])
    }

    ghost predicate Shape()
      reads this`txWords, this`txBound, this`txReg
    {
      txWords.Length == txBound.Length == txReg.Length == ENDPOINT_COUNT && txWords != txReg
          && txRegisters < ENDPOINT_COUNT
    }

    /** Over every sequence of calls, failing ones included: nothing overlaps, nothing is out of
        range, and the books are right.  A memory too small for the RX FIFO has no TX FIFOs. */
    ghost predicate Valid()
      reads this, txWords, txBound, txReg
    {
      && Shape() && Prefix() && Programmed()
      && txNext == rxWords + Sum(txWords[..]) && (txNext <= depth || txNext == rxWords)
      && allocatedIn == Count(txBound[..]) <= IN_ENDPOINT_LIMIT
      && depth + MAX_TX < 0x1_0000 && rxWords + MAX_TX < 0x1_0000
    }

    constructor (dma: bool, depth: nat, txRegisters: nat)
      requires 0 < depth && depth + MAX_TX < 0x1_0000 && txRegisters < ENDPOINT_COUNT
      ensures Valid() && this.dma == dma && this.depth == depth && fresh(txWords) && fresh(txBound) && fresh(txReg)
    {
      this.dma, this.depth, this.txRegisters := dma, depth, txRegisters;
      txWords, txBound, txReg := new nat[ENDPOINT_COUNT], new bool[ENDPOINT_COUNT], new nat[ENDPOINT_COUNT];
      new;
      ResetFifoState();
    }

    // Nothing is handed out, and the RX FIFO has its smallest size.
    method ResetFifoState()
      requires Shape() && depth + MAX_TX < 0x1_0000
      modifies this`rxWords, this`txNext, this`allocatedIn, txWords, txBound
      ensures Valid() && allocatedIn == 0 && rxWords == txNext == CalcConfiguredRxFifoWords(64, ENDPOINT_COUNT, dma)
      ensures (forall i :: 0 <= i < ENDPOINT_COUNT ==> txWords[i] == 0 && !txBound[i])
    {
      rxWords := CalcConfiguredRxFifoWords(64, ENDPOINT_COUNT, dma);
      txNext := rxWords;
      for i := 0 to ENDPOINT_COUNT
        invariant forall k :: 0 <= k < i ==> txWords[k] == 0 && !txBound[k]
        invariant txNext == rxWords == CalcConfiguredRxFifoWords(64, ENDPOINT_COUNT, dma)
      {
        txWords[i] := 0;
        txBound[i] := false;
      }
      allocatedIn := 0;
      SumOfZeros(txWords[..], 0, ENDPOINT_COUNT);
      assert txWords[..][..ENDPOINT_COUNT] == txWords[..] && txWords[..][..0] == [];
      NoneSet(txBound[..]);
    }

    static lemma {:induction false} NoneSet(flags: seq<bool>)
      requires forall k :: 0 <= k < |flags| ==> !flags[k]
      ensures Count(flags) == 0
    {
      if flags != [] {
        NoneSet(flags[..|flags| - 1]);
      }
    }

    // One FIFO more, behind the last one.
    static lemma Extends(tx: seq<nat>, tx': seq<nat>, index: nat, words: nat)
      requires index < |tx| && tx[index] == 0 && tx' == tx[index := words]
      requires forall i, j :: 0 <= i < j < |tx| && tx[j] != 0 ==> tx[i] != 0
      ensures forall i :: 0 <= i <= index ==> Sum(tx'[..i]) == Sum(tx[..i])
      ensures Sum(tx[..index]) == Sum(tx) && Sum(tx') == Sum(tx) + words
    {
      forall i | 0 <= i <= index ensures tx'[..i] == tx[..i] {
      }
      assert tx[..|tx|] == tx && tx'[..|tx|] == tx';
      SumOfZeros(tx, index, |tx|);
      SumStep(tx', index);
      SumOfZeros(tx', index + 1, |tx|);
    }

    // gnptxfsiz for the first FIFO, dieptxf for the others.
    method WriteRegister(index: nat, reg: nat)
      requires index < txReg.Length
      modifies txReg
      ensures txReg[..] == old(txReg[..])[index := reg]
    {
      if index == 0 {
        txReg[0] := reg;
      } else {
        txReg[index] := reg;
      }
    }

    lemma KnownSums()
      requires Programmed()
      ensures forall i ::
            0 <= i < txWords.Length && txWords[i] != 0 ==>
              txReg[..][i] == Pack(rxWords + Sum(txWords[..][..i]), txWords[..][i])
    {
      forall i | 0 <= i < txWords.Length && txWords[i] != 0
        ensures txReg[..][i] == Pack(rxWords + Sum(txWords[..][..i]), txWords[..][i])
      {
        assert txWords[..i] == txWords[..][..i];
      }
    }

    // The next FIFO behind the last one.
    method Program(index: nat, requested: nat, next: nat)
      requires Shape() && Prefix() && Programmed() && txNext == rxWords + Sum(txWords[..]) && index < ENDPOINT_COUNT
      requires txWords[index] == 0 && (forall i :: 0 <= i < index ==> txWords[i] != 0) && next == txNext + requested
      modifies this`txNext, txWords, txReg
      ensures Prefix() && Programmed() && txNext == next == rxWords + Sum(txWords[..])
      ensures txWords[..] == old(txWords[..])[index := requested]
    {
      hide Pack, Sum;
      ghost var before := txWords[..];
      KnownSums();
      WriteRegister(index, Pack(txNext, requested));
      txWords[index] := requested;
      txNext := next;
      Extends(before, txWords[..], index, requested);
      StillProgrammed(before, index, requested);
    }

    lemma StillProgrammed(before: seq<nat>, index: nat, requested: nat)
      requires Shape() && |before| == ENDPOINT_COUNT && index < ENDPOINT_COUNT && before[index] == 0
          && txWords[..] == before[index := requested]
      requires forall i, j :: 0 <= i < j < |before| && before[j] != 0 ==> before[i] != 0
      requires forall i :: 0 <= i <= index ==> Sum(txWords[..][..i]) == Sum(before[..i])
      requires forall i ::
            0 <= i < |before| && before[i] != 0 ==> txReg[i] == Pack(rxWords + Sum(before[..i]), before[i])
      requires txReg[index] == Pack(rxWords + Sum(before[..index]), requested)
      ensures Programmed()
    {
      forall i | 0 <= i < txWords.Length && txWords[i] != 0 ensures txReg[i] == Pack(rxWords + Sum(txWords[..i]),
          txWords[i]) {
        assert txWords[..i] == txWords[..][..i];
        assert i <= index;
      }
    }

    // What one pass over the endpoints up to `ep` leaves.
    ghost predicate Served(before: seq<nat>, next0: nat, ep: nat, words: nat, index: nat)
      reads this`txWords, this`txNext, txWords
    {
      && |before| == txWords.Length && index <= ep + 1 <= txWords.Length
      && (forall k :: index <= k < |before| ==> txWords[k] == before[k])
      && (forall k :: 0 <= k < index ==> txWords[k] == if before[k] != 0 then before[k] else Requested(k, ep, words))
      && txNext == next0 + Missing(before, ep, words, index) && LargeEnough(before, ep, words, index)
      && ((exists k :: 0 <= k < index && before[k] == 0) ==> txNext <= depth)
    }

    // One turn of the loop; false when the endpoint cannot be served.
    method ServeOne(index: nat, ep: nat, words: nat, ghost before: seq<nat>, ghost next0: nat) returns (ok: bool)
      requires Shape() && Prefix() && Programmed() && txNext == rxWords + Sum(txWords[..])
          && index <= ep < ENDPOINT_COUNT
      requires words <= MAX_TX && depth + MAX_TX < 0x1_0000 && (txNext <= depth || txNext == rxWords)
          && rxWords + MAX_TX < 0x1_0000
      requires Served(before, next0, ep, words, index)
      modifies this`txNext, txWords, txReg
      ensures Prefix() && Programmed() && txNext == rxWords + Sum(txWords[..]) && (txNext <= depth || txNext == rxWords)
      ensures ok ==> Served(before, next0, ep, words, index + 1)
      ensures !ok ==> txWords[..] == old(txWords[..])
      ensures !ok <==>
            if before[index] != 0 then before[index] < Requested(index, ep, words)
            else old(txNext) + Requested(index, ep, words) > depth
    {
      hide Prefix, Programmed, Sum;
      var requested := Requested(index, ep, words);
      if txWords[index] != 0 {
        return txWords[index] >= requested;
      }
      var next := U16(txNext + requested);
      if next > depth {
        return false;
      }
      Program(index, requested, next);
      return true;
    }

    // What was handed out is large enough, and what is missing fits.
    ghost predicate Room(tx: seq<nat>, next: nat, ep: nat, words: nat)
      requires |tx| == ENDPOINT_COUNT && ep < ENDPOINT_COUNT
    {
      && LargeEnough(tx, ep, words, ep + 1)
      && ((exists k :: 0 <= k <= ep && tx[k] == 0) ==> next + Missing(tx, ep, words, ep + 1) <= depth)
    }

    // Whether a call can succeed, seen before it is made.
    ghost predicate Grantable(tx: seq<nat>, next: nat, bound: seq<bool>, bindings: nat, ep: nat, words: nat)
      requires |tx| == |bound| == ENDPOINT_COUNT
    {
      ep <= txRegisters < ENDPOINT_COUNT && (bound[ep] || bindings < IN_ENDPOINT_LIMIT) && Room(tx, next, ep, words)
    }

    // The loop of AllocateTxFifo.
    method ServeUpTo(ep: nat, words: nat) returns (ok: bool)
      requires Shape() && Prefix() && Programmed() && txNext == rxWords + Sum(txWords[..]) && ep < ENDPOINT_COUNT
      requires words <= MAX_TX && depth + MAX_TX < 0x1_0000 && (txNext <= depth || txNext == rxWords)
          && rxWords + MAX_TX < 0x1_0000
      modifies this`txNext, txWords, txReg
      ensures Prefix() && Programmed() && txNext == rxWords + Sum(txWords[..]) && (txNext <= depth || txNext == rxWords)
      ensures ok <==> Room(old(txWords[..]), old(txNext), ep, words)
      ensures ok ==> txWords[ep] >= words
      ensures forall k :: 0 <= k < ENDPOINT_COUNT && old(txWords[k]) != 0 ==> txWords[k] == old(txWords[k])
    {
      hide Prefix, Programmed, Sum;
      ghost var before, next0 := txWords[..], txNext;
      for index := 0 to ep + 1
        invariant Prefix() && Programmed() && txNext == rxWords + Sum(txWords[..])
            && (txNext <= depth || txNext == rxWords)
        invariant Served(before, next0, ep, words, index)
      {
        var served := ServeOne(index, ep, words, before, next0);
        if !served {
          NoRoom(before, next0, ep, words, index);
          return false;
        }
      }
      return true;
    }

    /** Binds a TX FIFO of the packet's size to an IN endpoint, and to every endpoint below it one of
        the least size.  It succeeds exactly when the limits allow it, what was handed out before is
        large enough and what is missing fits; whatever it returns, nothing handed out moves or changes
        its size. */
    method AllocateTxFifo(ep: nat, packet: nat) returns (ok: bool, fifoWords: nat)
      requires Valid() && packet < 0x1_0000 && ep < 0x100
      modifies this`txNext, this`allocatedIn, txWords, txReg, txBound
      ensures Valid()
          && (ok <==>
                Grantable(old(txWords[..]), old(txNext), old(txBound[..]), old(allocatedIn), ep,
                    CalcTxFifoWords(packet, dma)))
      ensures ok ==>
            && ep < ENDPOINT_COUNT && fifoWords == CalcTxFifoWords(packet, dma) <= txWords[ep]
            && txBound[..] == old(txBound[..])[ep := true]
      ensures !ok ==> txBound[..] == old(txBound[..]) && allocatedIn == old(allocatedIn)
      ensures forall k :: 0 <= k < ENDPOINT_COUNT && old(txWords[k]) != 0 ==> txWords[k] == old(txWords[k])
    {
      hide Prefix, Programmed, Sum, Count;
      if ep > txRegisters {
        return false, 0;
      }
      var words := CalcTxFifoWords(packet, dma);
      TxSizeSuffices(packet, dma);
      if !txBound[ep] && allocatedIn >= IN_ENDPOINT_LIMIT {
        return false, 0;
      }
      var served := ServeUpTo(ep, words);
      if !served {
        return false, 0;
      }
      if !txBound[ep] {
        CountSet(txBound[..], ep);
        txBound[ep] := true;
        allocatedIn := allocatedIn + 1;
      }
      return true, words;
    }

    lemma NoRoom(before: seq<nat>, next0: nat, ep: nat, words: nat, index: nat)
      requires |before| == ENDPOINT_COUNT && index <= ep < ENDPOINT_COUNT
      requires if before[index] != 0 then before[index] < Requested(index, ep, words)
               else next0 + Missing(before, ep, words, index) + Requested(index, ep, words) > depth
      ensures !Room(before, next0, ep, words)
    {
      MissingGrows(before, ep, words, index + 1, ep + 1);
    }

    /** Makes the RX FIFO large enough for a packet; once anything lies behind it, only if it is already. */
    method EnsureRxFifo(packet: nat) returns (ok: bool)
      requires Valid() && packet < 0x1_0000
      modifies this`rxWords, this`txNext, this`rxReg
      ensures Valid()
      ensures var needed := CalcConfiguredRxFifoWords(packet, ENDPOINT_COUNT, dma);
        && (ok <==> needed <= old(rxWords) || (old(txNext) == old(rxWords) && needed <= depth))
        && rxWords == (if ok then Max(old(rxWords), needed) else old(rxWords))
        && (ok && needed > old(rxWords) ==> rxReg == rxWords)
    {
      var needed := CalcConfiguredRxFifoWords(packet, ENDPOINT_COUNT, dma);
      RxSizeSuffices(packet, dma);
      if needed <= rxWords {
        return true;
      }
      if txNext != rxWords {
        return false;
      }
      if needed > depth {
        return false;
      }
      NothingBehind();
      rxWords := needed;
      txNext := needed;
      rxReg := rxWords;
      return true;
    }

    lemma NothingBehind()
      requires Valid() && txNext == rxWords
      ensures forall i :: 0 <= i < txWords.Length ==> txWords[i] == 0
    {
      forall i | 0 <= i < txWords.Length ensures txWords[i] == 0 {
        SumStep(txWords[..], i);
        SumMonotone(txWords[..], i + 1, txWords.Length);
        assert txWords[..][..txWords.Length] == txWords[..];
      }
    }

    /** The regions in the registers are in range and do not overlap: each lies behind the RX FIFO and
        behind every region of a lower endpoint. */
    lemma RegionsApart(i: nat, j: nat)
      requires Valid() && i <= j < txWords.Length && txWords[j] != 0
      ensures txWords[i] != 0 && Words(txReg[i]) == txWords[i] && Words(txReg[j]) == txWords[j]
      ensures rxWords <= Start(txReg[i]) && Start(txReg[j]) + Words(txReg[j]) <= txNext <= depth
      ensures i < j ==> Start(txReg[i]) + Words(txReg[i]) <= Start(txReg[j])
    {
      var all := txWords[..];
      assert forall k :: 0 <= k <= txWords.Length ==> txWords[..k] == all[..k];
      SumStep(all, i);
      SumStep(all, j);
      SumMonotone(all, j + 1, |all|);
      assert all[..|all|] == all;
      if i < j {
        SumMonotone(all, i + 1, j);
      }
      Unpacked(rxWords + Sum(all[..i]), txWords[i]);
      Unpacked(rxWords + Sum(all[..j]), txWords[j]);
    }

    /** Every sequence of calls after a reset. */
    method Run(calls: seq<Call>)
      requires Valid() && forall c <- calls :: c.packet < 0x1_0000 && (c.Allocate? ==> c.ep < 0x100)
      modifies this, txWords, txBound, txReg
      ensures Valid() && unchanged(`txWords, `txBound, `txReg)
    {
      var i := 0;
      while i < |calls|
        invariant i <= |calls| && Valid() && unchanged(`txWords, `txBound, `txReg)
      {
        assert calls[i] in calls;
        match calls[i] {
          case Allocate(ep, packet) => var _, _ := AllocateTxFifo(ep, packet);
          case Ensure(packet) => var _ := EnsureRxFifo(packet);
        }
        i := i + 1;
      }
    }
  }

  datatype Call = Allocate(ep: nat, packet: nat) | Ensure(packet: nat)

  // The room test of one allocation, in the 16-bit arithmetic of the driver.
  predicate Accepts(next: nat, requested: nat, depth: nat) {
    U16(next + requested) <= depth
  }

  /** The test is the right one, for every size a packet can ask for and every fill of the memory,
      exactly when the memory leaves 16384 words to the end of the 16-bit range. */
  lemma RoomTestIsExact(depth: nat)
    requires 0 < depth < 0x1_0000
    ensures (forall next: nat, requested: nat ::
           next <= depth && requested <= MAX_TX ==> (Accepts(next, requested, depth) <==> next + requested <= depth))
       <==> depth + MAX_TX < 0x1_0000
  {
    if depth + MAX_TX >= 0x1_0000 {
      assert Accepts(depth, MAX_TX, depth) && depth + MAX_TX > depth;
    }
  }
}
