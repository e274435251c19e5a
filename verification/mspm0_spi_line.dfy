/** The two FIFOs of the MSPM0 SPI controller and the frames between them: what is still to be clocked,
    what the slave has sent in return, and what a transfer makes of frames that an earlier one left. */
module Mspm0SpiLine {
  type Byte = b: int | 0 <= b < 256

  const FIFO_DEPTH := 4

  // Frames exchanged so far and what was sent in them, what is still to be clocked, and the RX FIFO.
  datatype Line = Line(clocked: nat, mosi: seq<Byte>, toClock: seq<Byte>, rxFifo: seq<Byte>)

  // What the slave sends from frame `from` on.
  function Heard(miso: nat -> Byte, from: nat, count: nat): (r: seq<Byte>)
    ensures |r| == count
  {
    seq(count, i requires 0 <= i < count => miso(from + i))
  }

  function Offer(l: Line, bytes: seq<Byte>): Line { l.(toClock := l.toClock + bytes) }

  // One frame: a byte out, a byte in, which is lost when the RX FIFO is full.
  function Tick(miso: nat -> Byte, l: Line): Line
    requires l.toClock != []
  {
    Line(l.clocked + 1, l.mosi + [l.toClock[0]], l.toClock[1..],
         if |l.rxFifo| < FIFO_DEPTH then l.rxFifo + [miso(l.clocked)] else l.rxFifo)
  }

  function Fetch(l: Line): Line
    requires l.rxFifo != []
  {
    l.(rxFifo := l.rxFifo[1..])
  }

  function Drain(l: Line): Line { l.(rxFifo := []) }

  // The controller stops repeating; `kept` of the frames it owes still go out.
  function Cancel(l: Line, kept: nat): Line {
    l.(toClock := if kept < |l.toClock| then l.toClock[..kept] else l.toClock)
  }

  predicate Clean(l: Line) { l.toClock == [] && l.rxFifo == [] }

  // One line is a later state of the other: every frame since has sent one byte.
  predicate Later(l0: Line, l: Line) {
    l0.clocked <= l.clocked && l0.mosi <= l.mosi && l.clocked + |l0.mosi| == l0.clocked + |l.mosi|
  }

  // Since `l0`, `fed` has been handed over to be sent, behind what was still to be clocked then.
  predicate Sent(l0: Line, l: Line, fed: seq<Byte>) {
    Later(l0, l) && l.mosi + l.toClock == l0.mosi + l0.toClock + fed
  }

  // All that has come in since `l0`, behind what the RX FIFO held then.
  function Stream(miso: nat -> Byte, l0: Line, l: Line): seq<Byte>
    requires Later(l0, l)
  {
    l0.rxFifo + Heard(miso, l0.clocked, l.clocked - l0.clocked)
  }

  // Since `l0`, `got` has been taken out of the RX FIFO, and nothing has been lost.
  predicate Received(miso: nat -> Byte, l0: Line, l: Line, got: seq<Byte>) {
    Later(l0, l) && got + l.rxFifo == Stream(miso, l0, l)
  }

  /* ---------------- the steps ---------------- */

  lemma Starts(miso: nat -> Byte, l: Line)
    ensures Sent(l, l, []) && Received(miso, l, l, [])
  {
    assert Heard(miso, l.clocked, 0) == [];
  }

  lemma Feeds(miso: nat -> Byte, l0: Line, l: Line, fed: seq<Byte>, bytes: seq<Byte>)
    requires Sent(l0, l, fed)
    ensures Sent(l0, Offer(l, bytes), fed + bytes)
    ensures forall got :: Received(miso, l0, l, got) ==> Received(miso, l0, Offer(l, bytes), got)
  {
    assert l.mosi + (l.toClock + bytes) == l.mosi + l.toClock + bytes;
    assert l0.mosi + l0.toClock + (fed + bytes) == l0.mosi + l0.toClock + fed + bytes;
  }

  lemma HeardMore(miso: nat -> Byte, from: nat, n: nat)
    ensures Heard(miso, from, n + 1) == Heard(miso, from, n) + [miso(from + n)]
  {
  }

  lemma Clocks(miso: nat -> Byte, l: Line)
    requires l.toClock != []
    ensures Later(l, Tick(miso, l)) && Sent(l, Tick(miso, l), [])
  {
    assert l.toClock == [l.toClock[0]] + l.toClock[1..];
  }

  lemma ClocksOn(miso: nat -> Byte, l0: Line, l: Line)
    requires l.toClock != [] && Later(l0, l)
    ensures Later(l0, Tick(miso, l))
    ensures Stream(miso, l0, Tick(miso, l)) == Stream(miso, l0, l) + [miso(l.clocked)]
    ensures forall fed :: Sent(l0, l, fed) ==> Sent(l0, Tick(miso, l), fed)
    ensures |l.rxFifo| < FIFO_DEPTH ==>
          forall got :: Received(miso, l0, l, got) ==> Received(miso, l0, Tick(miso, l), got)
  {
    hide Heard;
    Clocks(miso, l);
    HeardMore(miso, l0.clocked, l.clocked - l0.clocked);
  }

  lemma Takes(miso: nat -> Byte, l0: Line, l: Line, got: seq<Byte>)
    requires l.rxFifo != []
    ensures Received(miso, l0, l, got) ==> Received(miso, l0, Fetch(l), got + [l.rxFifo[0]])
    ensures forall fed :: Sent(l0, l, fed) ==> Sent(l0, Fetch(l), fed)
  {
    hide Heard;
    var x, rest := l.rxFifo[0], l.rxFifo[1..];
    assert l.rxFifo == [x] + rest;
    assert got + l.rxFifo == got + [x] + rest;
  }

  /* ---------------- whole transfers ---------------- */

  // By DMA in both directions, receiving or sending only, or by hand.
  datatype Way = Duplex | RxOnly | TxOnly | ByHand

  /** What a transfer that went well has done since `l0`.  What has gone out, or is still to go, is what
      was to go before it and then its own bytes: all of them, unless frames left over made a receiving
      DMA end early.  What it delivers is the stream of bytes that came in, behind the bytes left in the
      RX FIFO: the slave's answers from its own first frame on when nothing was left over, and then it
      leaves nothing over, except a sending DMA. */
  predicate Transferred(miso: nat -> Byte, l0: Line, l: Line, bytes: seq<Byte>, got: seq<Byte>, skip: nat, way: Way) {
    && Later(l0, l) && l.mosi + l.toClock <= l0.mosi + l0.toClock + bytes
    && skip + |got| <= |Stream(miso, l0, l)| && got == Stream(miso, l0, l)[skip..skip + |got|]
    && (Clean(l0) || way in {TxOnly, ByHand} ==> l.mosi + l.toClock == l0.mosi + l0.toClock + bytes)
    && (Clean(l0) && way != TxOnly ==> Clean(l) && got == Heard(miso, l0.clocked + skip, |got|))
  }

  lemma HeardPart(miso: nat -> Byte, from: nat, n: nat, skip: nat, count: nat)
    requires skip + count <= n
    ensures Heard(miso, from, n)[skip..skip + count] == Heard(miso, from + skip, count)
  {
  }

  // As many bytes taken as handed over, from a clean line: all frames are through.
  lemma AllThrough(miso: nat -> Byte, l0: Line, l: Line, out: seq<Byte>, fed: nat, got: seq<Byte>)
    requires Clean(l0) && fed <= |out| == |got| && Sent(l0, l, out[..fed]) && Received(miso, l0, l, got)
    ensures Clean(l) && fed == |out| && l.clocked == l0.clocked + |out| && l.mosi == l0.mosi + out
    ensures got == Heard(miso, l0.clocked, |out|)
  {
    hide Heard;
    assert |l.mosi| + |l.toClock| == |l0.mosi| + fed;
    assert |got| + |l.rxFifo| == l.clocked - l0.clocked;
    assert out[..|out|] == out;
    assert l.mosi + [] == l.mosi && l0.mosi + [] == l0.mosi;
    assert got + [] == got && [] + Heard(miso, l0.clocked, |out|) == Heard(miso, l0.clocked, |out|);
  }

  lemma EndsReceiving(miso: nat -> Byte, l0: Line, l: Line, out: seq<Byte>, fed: nat, got: seq<Byte>, skip: nat,
      count: nat, way: Way)
    requires fed <= |out| == |got| && Sent(l0, l, out[..fed]) && Received(miso, l0, l, got) && skip + count <= |out|
    requires way in {Duplex, RxOnly}
    ensures Transferred(miso, l0, l, out, got[skip..skip + count], skip, way)
  {
    hide Heard;
    assert out == out[..fed] + out[fed..];
    assert l0.mosi + l0.toClock + out == l0.mosi + l0.toClock + out[..fed] + out[fed..];
    assert got[skip..skip + count] == (got + l.rxFifo)[skip..skip + count];
    if Clean(l0) {
      AllThrough(miso, l0, l, out, fed, got);
      HeardPart(miso, l0.clocked, |out|, skip, count);
    }
  }

  lemma EndsSending(miso: nat -> Byte, l0: Line, l: Line, out: seq<Byte>, skip: nat)
    requires Sent(l0, l, out) && skip == 0
    ensures Transferred(miso, l0, l, out, [], skip, TxOnly)
  {
  }

  // Draining, cancelling and clocking what is left over change nothing in what a transfer has done.
  lemma DrainKeeps(miso: nat -> Byte, l0: Line, l: Line, bytes: seq<Byte>, got: seq<Byte>, skip: nat)
    requires Transferred(miso, l0, l, bytes, got, skip, TxOnly)
    ensures Transferred(miso, l0, Drain(l), bytes, got, skip, TxOnly)
  {
    assert Stream(miso, l0, Drain(l)) == Stream(miso, l0, l);
  }

  lemma CancelKeeps(miso: nat -> Byte, l0: Line, l: Line, bytes: seq<Byte>, got: seq<Byte>, skip: nat, kept: nat)
    requires Transferred(miso, l0, l, bytes, got, skip, RxOnly)
    ensures Transferred(miso, l0, Cancel(l, kept), bytes, got, skip, RxOnly)
  {
    hide Heard;
    assert Stream(miso, l0, Cancel(l, kept)) == Stream(miso, l0, l);
    assert l.mosi + Cancel(l, kept).toClock <= l.mosi + l.toClock;
  }

  lemma ClockKeeps(miso: nat -> Byte, l0: Line, l: Line, bytes: seq<Byte>, got: seq<Byte>, skip: nat, way: Way)
    requires Transferred(miso, l0, l, bytes, got, skip, way) && l.toClock != []
    ensures Transferred(miso, l0, Tick(miso, l), bytes, got, skip, way)
  {
    hide Heard, Stream;
    Clocks(miso, l);
    ClocksOn(miso, l0, l);
    var s := Stream(miso, l0, l);
    assert (s + [miso(l.clocked)])[skip..skip + |got|] == s[skip..skip + |got|];
  }

  // A part of what a polled transfer fetched is what it delivers.
  lemma PartOf(miso: nat -> Byte, l0: Line, l: Line, bytes: seq<Byte>, got: seq<Byte>, skip: nat, count: nat)
    requires Transferred(miso, l0, l, bytes, got, 0, ByHand) && skip + count <= |got|
    ensures Transferred(miso, l0, l, bytes, got[skip..skip + count], skip, ByHand)
  {
    hide Heard;
    HeardPart(miso, l0.clocked, |got|, skip, count);
  }

  // A polled transfer that has fetched as much as it has sent, whether or not its last frames are out.
  lemma EndsByHand(miso: nat -> Byte, l0: Line, l: Line, out: seq<Byte>, got: seq<Byte>, count: nat)
    requires Sent(l0, l, out) && Received(miso, l0, l, got) && |got| == |out| && count <= |got|
    ensures Transferred(miso, l0, l, out, got[..count], 0, ByHand)
  {
    hide Heard;
    assert out[..|out|] == out && got[..count] == (got + l.rxFifo)[0..count];
    if Clean(l0) {
      AllThrough(miso, l0, l, out, |out|, got);
      HeardPart(miso, l0.clocked, |out|, 0, count);
      assert got[0..count] == got[..count];
    }
  }

  // Frames that an earlier transfer has left to be clocked or to be fetched.
  function Lag(l: Line): nat { |l.toClock| + |l.rxFifo| }

  /** Byte by byte.  The first frame of the transfer itself is number `l0.clocked + |l0.toClock|`; what it
      delivers is first what the RX FIFO held, and then every answer as many places late as frames were
      left over, which is not at all exactly when the line was clean. */
  lemma DeliveredAt(miso: nat -> Byte, l0: Line, l: Line, bytes: seq<Byte>, got: seq<Byte>, skip: nat, way: Way, k: nat)
    requires Transferred(miso, l0, l, bytes, got, skip, way) && k < |got|
    ensures var own := l0.clocked + |l0.toClock| + skip + k;
            got[k] == if skip + k < |l0.rxFifo| then l0.rxFifo[skip + k] else miso(own - Lag(l0))
    ensures Lag(l0) == 0 <==> Clean(l0)
  {
  }

  // A polled transfer that breaks off has fetched some bytes and left some frames behind.
  ghost predicate BrokeOff(miso: nat -> Byte, l0: Line, l: Line, fetched: nat, left: nat) {
    exists got :: |got| == fetched && Received(miso, l0, l, got) && Lag(l) == Lag(l0) + left
  }

  lemma BreaksOff(miso: nat -> Byte, l0: Line, l: Line, fed: seq<Byte>, got: seq<Byte>)
    requires Sent(l0, l, fed) && Received(miso, l0, l, got) && |got| <= |fed|
    ensures BrokeOff(miso, l0, l, |got|, |fed| - |got|)
  {
  }
}
