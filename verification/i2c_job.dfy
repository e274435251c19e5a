/** How far an interrupt-driven transaction has got: the `async_*` members of the driver. */
module I2cJob {
  import opened I2cBus

  datatype Job = Job(
    slave: nat,
    prefix: seq<Byte>, prefixOffset: nat,
    payload: seq<Byte>, writeOffset: nat,
    readSize: nat, readOffset: nat,
    pendingRead: nat,        // bytes the last segment left in the RX FIFO
    writeDone: bool, writeAddrSent: bool, writeStopSent: bool, readAddrSent: bool)

  function NewJob(slave: nat, prefix: seq<Byte>, payload: seq<Byte>, readSize: nat): Job {
    Job(slave, prefix, 0, payload, 0, readSize, 0, 0, !(|prefix| > 0 || |payload| > 0 || readSize == 0), false,
        false, false)
  }

  predicate JobOk(j: Job) {
    && j.prefixOffset <= |j.prefix| && j.writeOffset <= |j.payload| && j.readOffset + j.pendingRead <= j.readSize
    && (j.prefixOffset < |j.prefix| ==> j.writeOffset == 0)
    && (j.writeDone ==> j.prefixOffset == |j.prefix| && j.writeOffset == |j.payload|)
    && (!j.writeDone ==> !j.writeStopSent && !j.readAddrSent)
    && (!j.writeDone && !j.writeAddrSent ==> j.prefixOffset == 0 && j.writeOffset == 0)
    && (!j.writeDone && !j.writeAddrSent ==> j.prefix != [] || j.payload != [] || j.readSize == 0)
    && (j.readAddrSent <==> j.readOffset + j.pendingRead > 0)
  }

  function WriteToCome(j: Job): seq<Event>
    requires JobOk(j)
  {
    if j.writeDone then []
    else
      Opening(!j.writeAddrSent, WriteAddress(j.slave)) +
      Writes(j.prefix[j.prefixOffset..] + j.payload[j.writeOffset..]) +
      if j.readSize == 0 then [EvStop] else []
  }

  function ReadToCome(j: Job): seq<Event>
    requires JobOk(j)
  {
    var k := j.readOffset + j.pendingRead;
    if k == j.readSize then []
    else Opening(!j.readAddrSent, ReadAddress(j.slave)) + ReadAll(j.readSize - k) + [EvStop]
  }

  /** What the bus has yet to see of the transaction. */
  function ToCome(j: Job): seq<Event>
    requires JobOk(j)
  {
    WriteToCome(j) + ReadToCome(j)
  }

  /** How many segments the transaction has yet to start. */
  function Left(j: Job, fifoLen: nat): nat
    requires JobOk(j) && fifoLen > 1
  {
    Segments(|j.prefix| - j.prefixOffset, fifoLen - 1) + Segments(|j.payload| - j.writeOffset, fifoLen - 1) +
    Segments(j.readSize - j.readOffset - j.pendingRead, fifoLen) + (if j.readSize == 0 && !j.writeDone then 1 else 0)
  }

  lemma NewJobToCome(slave: nat, prefix: seq<Byte>, payload: seq<Byte>, readSize: nat, fifoLen: nat)
    requires fifoLen > 1
    ensures var j := NewJob(slave, prefix, payload, readSize);
            JobOk(j) && ToCome(j) == Ideal(slave, prefix + payload, readSize) &&
            Left(j, fifoLen) == SegmentsOf(|prefix|, |payload|, readSize, fifoLen)
  {
    assert prefix[0..] == prefix && payload[0..] == payload;
  }

  /* ---------------- one segment at a time ---------------- */

  lemma Regroup(o: seq<Event>, a: seq<Event>, b: seq<Event>, s: seq<Event>, r: seq<Event>)
    ensures o + (a + b) + s + r == o + a + ([] + b + s + r)
  {
  }

  // What is left to write splits into a chunk and the rest.
  lemma WriteStep(j: Job, j': Job, chunk: seq<Byte>, rest: seq<Byte>)
    requires JobOk(j) && JobOk(j') && !j.writeDone
        && j' == j.(writeAddrSent := true, prefixOffset := j'.prefixOffset, writeOffset := j'.writeOffset)
    requires j.prefix[j.prefixOffset..] + j.payload[j.writeOffset..] == chunk + rest
    requires j'.prefix[j'.prefixOffset..] + j'.payload[j'.writeOffset..] == rest
    ensures ToCome(j) == Opening(!j.writeAddrSent, WriteAddress(j.slave)) + Writes(chunk) + ToCome(j')
  {
    hide Writes, ReadAll;
    WritesConcat(chunk, rest);
    var stop := if j.readSize == 0 then [EvStop] else [];
    Regroup(Opening(!j.writeAddrSent, WriteAddress(j.slave)), Writes(chunk), Writes(rest), stop, ReadToCome(j));
    assert ReadToCome(j) == ReadToCome(j');
  }

  lemma PrefixStep(j: Job, chunk: nat)
    requires JobOk(j) && !j.writeDone && 0 < chunk && j.prefixOffset + chunk <= |j.prefix|
    ensures var j' := j.(writeAddrSent := true, prefixOffset := j.prefixOffset + chunk);
            JobOk(j') && ToCome(j) == Opening(!j.writeAddrSent, WriteAddress(j.slave)) +
              Writes(j.prefix[j.prefixOffset..j.prefixOffset + chunk]) + ToCome(j')
  {
    hide ToCome;
    var a, b := j.prefix[j.prefixOffset..j.prefixOffset + chunk], j.prefix[j.prefixOffset + chunk..];
    assert j.prefix[j.prefixOffset..] == a + b;
    assert a + b + j.payload[j.writeOffset..] == a + (b + j.payload[j.writeOffset..]);
    WriteStep(j, j.(writeAddrSent := true, prefixOffset := j.prefixOffset + chunk), a, b + j.payload[j.writeOffset..]);
  }

  lemma PayloadStep(j: Job, chunk: nat)
    requires JobOk(j) && !j.writeDone && j.prefixOffset == |j.prefix| && 0 < chunk
        && j.writeOffset + chunk <= |j.payload|
    ensures var j' := j.(writeAddrSent := true, writeOffset := j.writeOffset + chunk);
            JobOk(j') && ToCome(j) == Opening(!j.writeAddrSent, WriteAddress(j.slave)) +
              Writes(j.payload[j.writeOffset..j.writeOffset + chunk]) + ToCome(j')
  {
    hide ToCome;
    var a, b := j.payload[j.writeOffset..j.writeOffset + chunk], j.payload[j.writeOffset + chunk..];
    assert j.payload[j.writeOffset..] == a + b;
    assert j.prefix[j.prefixOffset..] == [] && [] + (a + b) == a + b && [] + b == b;
    WriteStep(j, j.(writeAddrSent := true, writeOffset := j.writeOffset + chunk), a, b);
  }

  predicate AllWritten(j: Job) {
    j.prefixOffset == |j.prefix| && j.writeOffset == |j.payload|
  }

  lemma StopStep(j: Job)
    requires JobOk(j) && !j.writeDone && AllWritten(j) && j.readSize == 0
    ensures var j' := j.(writeAddrSent := true, writeStopSent := true, writeDone := true);
            && JobOk(j') && ToCome(j') == []
            && ToCome(j) == Opening(!j.writeAddrSent, WriteAddress(j.slave)) + [EvStop] + ToCome(j')
  {
  }

  // Turning from writing to reading puts nothing on the bus.
  lemma TurnStep(j: Job, fifoLen: nat)
    requires JobOk(j) && !j.writeDone && AllWritten(j) && j.readSize > 0 && fifoLen > 1
    ensures var j' := j.(writeDone := true);
            j.writeAddrSent && JobOk(j') && ToCome(j) == ToCome(j') && Left(j, fifoLen) == Left(j', fifoLen)
  {
  }

  lemma ReadStep(j: Job, chunk: nat)
    requires JobOk(j) && j.writeDone && j.pendingRead == 0 && 0 < chunk && j.readOffset + chunk <= j.readSize
    ensures var j' := j.(readAddrSent := true, pendingRead := chunk);
            JobOk(j') && ToCome(j) == Opening(!j.readAddrSent, ReadAddress(j.slave)) +
              ReadEvents(chunk, j.readOffset + chunk == j.readSize) + ToCome(j')
  {
    hide Reads, ReadAll;
    var j' := j.(readAddrSent := true, pendingRead := chunk);
    var left := j.readSize - j.readOffset;
    var opening := Opening(!j.readAddrSent, ReadAddress(j.slave));
    assert WriteToCome(j) == [] && WriteToCome(j') == [];
    if chunk < left {
      ReadAllSplit(left, chunk);
      RegroupRead(opening, Reads(chunk, false), ReadAll(left - chunk), [EvStop]);
    } else {
      assert ToCome(j') == [];
    }
  }

  lemma RegroupRead(o: seq<Event>, a: seq<Event>, b: seq<Event>, s: seq<Event>)
    ensures [] + (o + (a + b) + s) == o + a + ([] + ([] + b + s))
  {
  }
}
