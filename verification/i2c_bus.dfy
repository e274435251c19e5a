/** The command list of the ESP32 I2C controller and what it puts on the bus. */
module I2cBus {

  type Byte = b: int | 0 <= b < 256

  // One command register: WRITE checks the slave's ACK, READ answers each byte with ACK or NACK.
  datatype Cmd = Restart | Write(count: nat) | Read(count: nat, nack: bool) | Stop | End

  // What an observer of the bus sees.  END and the cut into segments leave no mark.
  datatype Event = EvStart | EvWrite(b: Byte) | EvRead(nack: bool) | EvStop | EvUnderrun

  const SLOTS := 8

  function Writes(bytes: seq<Byte>): (events: seq<Event>)
    ensures |events| == |bytes|
  {
    seq(|bytes|, i requires 0 <= i < |bytes| => EvWrite(bytes[i]))
  }

  function Reads(count: nat, nack: bool): (events: seq<Event>)
    ensures |events| == count
  {
    seq(count, _ => EvRead(nack))
  }

  // The last byte of a read is NACKed, every byte before it is ACKed.
  function ReadAll(count: nat): seq<Event> {
    if count == 0 then [] else Reads(count - 1, false) + [EvRead(true)]
  }

  /** Runs the command registers from the first one until END, or STOP where STOP ends a list.
      Yields the bus events and the bytes left in the TX FIFO. */
  function Execute(slots: seq<Cmd>, tx: seq<Byte>, stopIndependent: bool): (r: (seq<Event>, seq<Byte>)) {
    if slots == [] then ([], tx)
    else match slots[0]
      case Restart => Then([EvStart], Execute(slots[1..], tx, stopIndependent))
      case Write(n) =>
        if n <= |tx| then Then(Writes(tx[..n]), Execute(slots[1..], tx[n..], stopIndependent))
        else ([EvUnderrun], [])
      case Read(n, nack) => Then(Reads(n, nack), Execute(slots[1..], tx, stopIndependent))
      case Stop => if stopIndependent then Then([EvStop], Execute(slots[1..], tx, stopIndependent)) else ([EvStop], tx)
      case End => ([], tx)
  }

  function Then(events: seq<Event>, rest: (seq<Event>, seq<Byte>)): (seq<Event>, seq<Byte>) {
    (events + rest.0, rest.1)
  }

  predicate Terminated(cmds: seq<Cmd>, stopIndependent: bool) {
    cmds != [] && (cmds[|cmds| - 1].End? || (cmds[|cmds| - 1].Stop? && !stopIndependent))
  }

  /** Registers behind the terminator, left over from earlier segments, have no effect. */
  lemma {:induction false} StaleSlotsAreDead(cmds: seq<Cmd>, stale: seq<Cmd>, tx: seq<Byte>, stopIndependent: bool)
    requires Terminated(cmds, stopIndependent)
    ensures Execute(cmds + stale, tx, stopIndependent) == Execute(cmds, tx, stopIndependent)
  {
    assert (cmds + stale)[0] == cmds[0];
    if |cmds| > 1 {
      assert (cmds + stale)[1..] == cmds[1..] + stale;
      match cmds[0] {
        case Write(n) => if n <= |tx| { StaleSlotsAreDead(cmds[1..], stale, tx[n..], stopIndependent); }
        case _ => StaleSlotsAreDead(cmds[1..], stale, tx, stopIndependent);
      }
    }
  }

  /* ---------------- the shapes a segment can have ---------------- */

  lemma ExecuteStep(cmd: Cmd, rest: seq<Cmd>, tx: seq<Byte>, si: bool)
    ensures cmd.Restart? ==> Execute([cmd] + rest, tx, si) == Then([EvStart], Execute(rest, tx, si))
    ensures cmd.Write? && cmd.count <= |tx| ==>
              Execute([cmd] + rest, tx, si) == Then(Writes(tx[..cmd.count]), Execute(rest, tx[cmd.count..], si))
    ensures cmd.Read? ==> Execute([cmd] + rest, tx, si) == Then(Reads(cmd.count, cmd.nack), Execute(rest, tx, si))
  {
    assert ([cmd] + rest)[1..] == rest;
  }

  // RESTART and the address byte in front of a list.
  lemma ExecuteAddressed(address: Byte, rest: seq<Cmd>, tx: seq<Byte>, si: bool)
    ensures Execute([Restart, Write(1)] + rest, [address] + tx, si) == Then([EvStart, EvWrite(address)],
        Execute(rest, tx, si))
  {
    var all := [address] + tx;
    assert [Restart, Write(1)] + rest == [Restart] + ([Write(1)] + rest);
    ExecuteStep(Restart, [Write(1)] + rest, all, si);
    ExecuteStep(Write(1), rest, all, si);
    assert all[..1] == [address] && all[1..] == tx && Writes([address]) == [EvWrite(address)];
    assert [EvStart] + ([EvWrite(address)] + Execute(rest, tx, si).0)
        == [EvStart, EvWrite(address)] + Execute(rest, tx, si).0;
  }

  lemma ExecuteWriteEnd(chunk: seq<Byte>, si: bool)
    ensures Execute([Write(|chunk|), End], chunk, si) == (Writes(chunk), [])
  {
    assert [Write(|chunk|), End] == [Write(|chunk|)] + [End];
    ExecuteStep(Write(|chunk|), [End], chunk, si);
    assert chunk[..|chunk|] == chunk && chunk[|chunk|..] == [];
    assert Writes(chunk) + [] == Writes(chunk);
  }

  // STOP, followed by END where STOP does not end a list.
  function StopList(si: bool): seq<Cmd> {
    if si then [Stop, End] else [Stop]
  }

  lemma ExecuteStop(tx: seq<Byte>, si: bool)
    ensures Execute(StopList(si), tx, si) == ([EvStop], tx)
  {
    if si {
      assert [Stop, End][1..] == [End];
      assert [EvStop] + [] == [EvStop];
    }
  }

  lemma ExecuteReadEnd(count: nat, si: bool)
    ensures Execute([Read(count, false), End], [], si) == (Reads(count, false), [])
  {
    assert [Read(count, false), End] == [Read(count, false)] + [End];
    ExecuteStep(Read(count, false), [End], [], si);
    assert Reads(count, false) + [] == Reads(count, false);
  }

  // The commands of the last read segment.
  function LastReadList(count: nat, si: bool): seq<Cmd>
    requires count > 0
  {
    (if count == 1 then [Read(1, true)] else [Read(count - 1, false), Read(1, true)]) + StopList(si)
  }

  lemma ExecuteLastRead(count: nat, si: bool)
    requires count > 0
    ensures Execute(LastReadList(count, si), [], si) == (ReadAll(count) + [EvStop], [])
  {
    ExecuteStop([], si);
    ExecuteStep(Read(1, true), StopList(si), [], si);
    assert Reads(1, true) == [EvRead(true)];
    if count == 1 {
      assert Reads(0, false) + [EvRead(true)] == [EvRead(true)];
    } else {
      assert LastReadList(count, si) == [Read(count - 1, false)] + ([Read(1, true)] + StopList(si));
      ExecuteStep(Read(count - 1, false), [Read(1, true)] + StopList(si), [], si);
      assert Reads(count - 1, false) + ([EvRead(true)] + [EvStop]) == ReadAll(count) + [EvStop];
    }
  }

  // The commands of any read segment.
  function ReadList(count: nat, last: bool, si: bool): seq<Cmd>
    requires count > 0
  {
    if last then LastReadList(count, si) else [Read(count, false), End]
  }

  function ReadEvents(count: nat, last: bool): seq<Event> {
    if last then ReadAll(count) + [EvStop] else Reads(count, false)
  }

  lemma ExecuteRead(count: nat, last: bool, si: bool)
    requires count > 0
    ensures Execute(ReadList(count, last, si), [], si) == (ReadEvents(count, last), [])
  {
    if last {
      ExecuteLastRead(count, si);
    } else {
      ExecuteReadEnd(count, si);
    }
  }

  // RESTART and the address byte open a direction; later segments of it carry on without them.
  function Opening(first: bool, address: Byte): seq<Event> {
    if first then [EvStart, EvWrite(address)] else []
  }

  function OpeningCmds(first: bool): seq<Cmd> {
    if first then [Restart, Write(1)] else []
  }

  function OpeningBytes(first: bool, address: Byte): seq<Byte> {
    if first then [address] else []
  }

  lemma Segment(first: bool, address: Byte, cmds: seq<Cmd>, tx: seq<Byte>, si: bool)
    ensures Execute(OpeningCmds(first) + cmds, OpeningBytes(first, address) + tx, si)
         == Then(Opening(first, address), Execute(cmds, tx, si))
  {
    if first {
      ExecuteAddressed(address, cmds, tx, si);
    } else {
      assert OpeningCmds(first) + cmds == cmds && OpeningBytes(first, address) + tx == tx;
      assert [] + Execute(cmds, tx, si).0 == Execute(cmds, tx, si).0;
    }
  }

  /* ---------------- whole segments ---------------- */

  function ReadCount(events: seq<Event>): nat {
    if events == [] then 0 else (if events[0].EvRead? then 1 else 0) + ReadCount(events[1..])
  }

  lemma {:induction false} ReadCountConcat(a: seq<Event>, b: seq<Event>)
    ensures ReadCount(a + b) == ReadCount(a) + ReadCount(b)
  {
    if a == [] {
      assert a + b == b;
    } else {
      assert (a + b)[0] == a[0] && (a + b)[1..] == a[1..] + b;
      ReadCountConcat(a[1..], b);
    }
  }

  lemma {:induction false} ReadCountOfReads(count: nat, nack: bool)
    ensures ReadCount(Reads(count, nack)) == count
  {
    if count > 0 {
      assert Reads(count, nack)[1..] == Reads(count - 1, nack);
      ReadCountOfReads(count - 1, nack);
    }
  }

  lemma {:induction false} ReadCountOfWrites(bytes: seq<Byte>)
    ensures ReadCount(Writes(bytes)) == 0
  {
    if bytes != [] {
      assert Writes(bytes)[1..] == Writes(bytes[1..]);
      ReadCountOfWrites(bytes[1..]);
    }
  }

  lemma ReadCountOfRead(count: nat, last: bool)
    requires count > 0
    ensures ReadCount(ReadEvents(count, last)) == count
  {
    ReadCountOfReads(count, false);
    ReadCountOfReads(count - 1, false);
    ReadCountConcat(Reads(count - 1, false), [EvRead(true)]);
    ReadCountConcat(ReadAll(count), [EvStop]);
  }

  lemma ReadCountOfOpening(first: bool, address: Byte, events: seq<Event>)
    ensures ReadCount(Opening(first, address) + events) == ReadCount(events)
  {
    ReadCountConcat(Opening(first, address), events);
    assert first ==> Opening(first, address)[1..] == [EvWrite(address)];
  }

  // One chunk of a write goes out as it is, whatever the cut.
  lemma WriteSegmentRuns(first: bool, address: Byte, chunk: seq<Byte>, si: bool)
    ensures var cmds := OpeningCmds(first) + [Write(|chunk|), End];
            var events := Opening(first, address) + Writes(chunk);
            Terminated(cmds, si) && Execute(cmds, OpeningBytes(first, address) + chunk, si) == (events, [])
                && ReadCount(events) == 0
  {
    ExecuteWriteEnd(chunk, si);
    Segment(first, address, [Write(|chunk|), End], chunk, si);
    ReadCountOfWrites(chunk);
    ReadCountOfOpening(first, address, Writes(chunk));
  }

  lemma ReadSegmentRuns(first: bool, address: Byte, count: nat, last: bool, si: bool)
    requires count > 0
    ensures var cmds := OpeningCmds(first) + ReadList(count, last, si);
            var events := Opening(first, address) + ReadEvents(count, last);
            Terminated(cmds, si) && Execute(cmds, OpeningBytes(first, address), si) == (events, [])
                && ReadCount(events) == count
  {
    ExecuteRead(count, last, si);
    Segment(first, address, ReadList(count, last, si), [], si);
    assert OpeningBytes(first, address) + [] == OpeningBytes(first, address);
    ReadCountOfRead(count, last);
    ReadCountOfOpening(first, address, ReadEvents(count, last));
  }

  lemma StopSegmentRuns(first: bool, address: Byte, si: bool)
    ensures var cmds := OpeningCmds(first) + StopList(si);
            var events := Opening(first, address) + [EvStop];
            Terminated(cmds, si) && Execute(cmds, OpeningBytes(first, address), si) == (events, [])
                && ReadCount(events) == 0
  {
    ExecuteStop([], si);
    Segment(first, address, StopList(si), [], si);
    assert OpeningBytes(first, address) + [] == OpeningBytes(first, address);
    ReadCountOfOpening(first, address, [EvStop]);
  }

  /* ---------------- the transaction as the bus standard has it ---------------- */

  function WriteAddress(slave: nat): Byte { slave * 2 % 256 }

  function ReadAddress(slave: nat): Byte { (slave * 2 + 1) % 256 }

  function WriteHalf(slave: nat, bytes: seq<Byte>, readSize: nat): seq<Event> {
    if bytes == [] && readSize > 0 then []
    else [EvStart, EvWrite(WriteAddress(slave))] + Writes(bytes) + (if readSize == 0 then [EvStop] else [])
  }

  function ReadHalf(slave: nat, readSize: nat): seq<Event> {
    if readSize == 0 then [] else [EvStart, EvWrite(ReadAddress(slave))] + ReadAll(readSize) + [EvStop]
  }

  /** A write, a read, or a write followed by a repeated START and a read: one START per direction,
      the address byte, the data, and one STOP at the end. */
  function Ideal(slave: nat, bytes: seq<Byte>, readSize: nat): seq<Event> {
    WriteHalf(slave, bytes, readSize) + ReadHalf(slave, readSize)
  }

  // One STOP, at the very end; every byte read is ACKed but the one before that STOP.
  lemma NackedAndStoppedOnce(slave: nat, bytes: seq<Byte>, readSize: nat, k: nat)
    requires k < |Ideal(slave, bytes, readSize)|
    ensures var events := Ideal(slave, bytes, readSize);
            && (events[k].EvStop? <==> k == |events| - 1)
            && (events[k].EvRead? ==> (events[k].nack <==> k == |events| - 2))
            && ReadCount(events) == readSize
  {
    var first, second := WriteHalf(slave, bytes, readSize), ReadHalf(slave, readSize);
    WriteHalfReadsNothing(slave, bytes, readSize);
    ReadCountConcat(first, second);
    if readSize > 0 {
      assert second == Opening(true, ReadAddress(slave)) + (ReadAll(readSize) + [EvStop]);
      ReadCountOfOpening(true, ReadAddress(slave), ReadAll(readSize) + [EvStop]);
      ReadCountOfRead(readSize, true);
    }
    NackedLast(slave, bytes, readSize, k);
  }

  lemma NackedLast(slave: nat, bytes: seq<Byte>, readSize: nat, k: nat)
    requires k < |Ideal(slave, bytes, readSize)|
    ensures var events := Ideal(slave, bytes, readSize);
            && (events[k].EvStop? <==> k == |events| - 1)
            && (events[k].EvRead? ==> (events[k].nack <==> k == |events| - 2))
  {
    var first, second := WriteHalf(slave, bytes, readSize), ReadHalf(slave, readSize);
    assert Ideal(slave, bytes, readSize)[k] == if k < |first| then first[k] else second[k - |first|];
  }

  // What is on the bus once `offset` bytes of a write have gone out.
  function WriteSoFar(slave: nat, bytes: seq<Byte>, offset: nat): seq<Event>
    requires offset <= |bytes|
  {
    Opening(offset > 0, WriteAddress(slave)) + Writes(bytes[..offset])
  }

  lemma WriteStarts(slave: nat, bytes: seq<Byte>)
    ensures WriteSoFar(slave, bytes, 0) == []
  {
  }

  lemma WriteGrows(slave: nat, bytes: seq<Byte>, offset: nat, chunk: nat)
    requires 0 < chunk && offset + chunk <= |bytes|
    ensures WriteSoFar(slave, bytes, offset + chunk)
         == WriteSoFar(slave, bytes, offset)
            + (Opening(offset == 0, WriteAddress(slave)) + Writes(bytes[offset..offset + chunk]))
  {
    WritesSplit(bytes, offset, offset + chunk);
  }

  lemma WriteStops(slave: nat, bytes: seq<Byte>, readSize: nat)
    requires bytes != [] || readSize == 0
    ensures WriteHalf(slave, bytes, readSize) == WriteSoFar(slave, bytes, |bytes|) +
              if readSize == 0 then Opening(bytes == [], WriteAddress(slave)) + [EvStop] else []
  {
    assert bytes[..|bytes|] == bytes;
  }

  lemma WriteIsPrefix(slave: nat, bytes: seq<Byte>, readSize: nat, offset: nat)
    requires offset <= |bytes|
    ensures WriteSoFar(slave, bytes, offset) <= WriteHalf(slave, bytes, readSize)
  {
    assert Writes(bytes[..offset]) <= Writes(bytes);
  }

  // The same for a read: the last byte is NACKed and followed by STOP.
  function ReadSoFar(slave: nat, readSize: nat, offset: nat): seq<Event>
    requires offset <= readSize
  {
    Opening(offset > 0, ReadAddress(slave)) + if 0 < offset == readSize then ReadEvents(offset, true)
        else Reads(offset, false)
  }

  lemma ReadStarts(slave: nat, readSize: nat)
    ensures ReadSoFar(slave, readSize, 0) == []
    ensures readSize > 0 ==> ReadSoFar(slave, readSize, readSize) == ReadHalf(slave, readSize)
  {
  }

  lemma ReadGrows(slave: nat, readSize: nat, offset: nat, chunk: nat)
    requires 0 < chunk && offset + chunk <= readSize
    ensures ReadSoFar(slave, readSize, offset + chunk) == ReadSoFar(slave, readSize, offset) +
              (Opening(offset == 0, ReadAddress(slave)) + ReadEvents(chunk, offset + chunk == readSize))
  {
    var last := offset + chunk == readSize;
    assert (if last then ReadEvents(offset + chunk, true) else Reads(offset + chunk, false))
        == Reads(offset, false) + ReadEvents(chunk, last);
  }

  lemma ReadIsPrefix(slave: nat, readSize: nat, offset: nat)
    requires offset <= readSize
    ensures ReadSoFar(slave, readSize, offset) <= ReadHalf(slave, readSize)
  {
  }

  // A buffer with `part` stored from position `at` on.
  function Splice(buffer: seq<Byte>, at: nat, part: seq<Byte>): seq<Byte>
    requires at + |part| <= |buffer|
  {
    buffer[..at] + part + buffer[at + |part|..]
  }

  lemma SpliceGrows(buffer: seq<Byte>, at: nat, part: seq<Byte>, more: seq<Byte>)
    requires at + |part| + |more| <= |buffer|
    ensures |Splice(buffer, at, part)| == |buffer|
    ensures Splice(Splice(buffer, at, part), at + |part|, more) == Splice(buffer, at, part + more)
  {
  }

  lemma SpliceFrame(buffer: seq<Byte>, at: nat, part: seq<Byte>)
    requires at + |part| <= |buffer|
    ensures var r := Splice(buffer, at, part);
            |r| == |buffer| && r[..at] == buffer[..at] && r[at..at + |part|] == part
                && r[at + |part|..] == buffer[at + |part|..]
    ensures part == [] ==> Splice(buffer, at, part) == buffer
  {
  }

  lemma WriteHalfReadsNothing(slave: nat, bytes: seq<Byte>, readSize: nat)
    ensures ReadCount(WriteHalf(slave, bytes, readSize)) == 0
  {
    if bytes != [] || readSize == 0 {
      var stop := if readSize == 0 then [EvStop] else [];
      assert WriteHalf(slave, bytes, readSize) == Opening(true, WriteAddress(slave)) + (Writes(bytes) + stop);
      ReadCountOfOpening(true, WriteAddress(slave), Writes(bytes) + stop);
      ReadCountConcat(Writes(bytes), stop);
      ReadCountOfWrites(bytes);
    }
  }

  // Sizes add up chunk by chunk.
  lemma WritesConcat(a: seq<Byte>, b: seq<Byte>)
    ensures Writes(a + b) == Writes(a) + Writes(b)
  {
  }

  lemma WritesSplit(bytes: seq<Byte>, from: nat, upto: nat)
    requires from <= upto <= |bytes|
    ensures Writes(bytes[..upto]) == Writes(bytes[..from]) + Writes(bytes[from..upto])
    ensures Writes(bytes[from..]) == Writes(bytes[from..upto]) + Writes(bytes[upto..])
  {
  }

  lemma ReadAllSplit(count: nat, chunk: nat)
    requires chunk < count
    ensures ReadAll(count) == Reads(chunk, false) + ReadAll(count - chunk)
  {
  }

  // How many segments `count` bytes need when one segment takes `cap`.
  function Segments(count: nat, cap: nat): nat
    requires cap > 0
  {
    if count == 0 then 0 else 1 + Segments(if count > cap then count - cap else 0, cap)
  }

  lemma SegmentsStep(count: nat, cap: nat)
    requires count > 0 && cap > 0
    ensures Segments(count, cap) == 1 + Segments(count - (if count <= cap then count else cap), cap)
  {
  }

  // The least number of pieces of size `cap` that covers `count`.
  lemma {:induction false} SegmentsIsCeiling(count: nat, cap: nat)
    requires cap > 0
    ensures var k := Segments(count, cap); count <= k * cap && (k > 0 ==> (k - 1) * cap < count)
  {
    if count > cap {
      var k := Segments(count - cap, cap);
      SegmentsIsCeiling(count - cap, cap);
      assert (k + 1) * cap == k * cap + cap && k * cap == (k - 1) * cap + cap;
    } else if count > 0 {
      assert Segments(count, cap) == 1;
    }
  }

  function SegmentsOf(prefix: nat, payload: nat, readSize: nat, fifoLen: nat): nat
    requires fifoLen > 1
  {
    Segments(prefix, fifoLen - 1) + Segments(payload, fifoLen - 1) + Segments(readSize, fifoLen)
        + (if readSize == 0 then 1 else 0)
  }
}
