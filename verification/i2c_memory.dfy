/** Register access: what one transfer to or from a register file means, and why a transfer cut
    into chunks that each set the pointer again means the same. */
module I2cMemory {
  import opened I2cBus
  import opened I2cDevice
  import opened Arithmetic

  // EncodeMemAddr: the high byte first when the address has two bytes.
  function EncodeMemAddr(memAddr: nat, memLen: nat): seq<Byte> {
    if memLen == 2 then [memAddr / 256 % 256, memAddr % 256] else [memAddr % 256]
  }

  // MemAddrBytes
  function MemAddrBytes(wide: bool): nat { if wide then 2 else 1 }

  // `bytes` stored one after another from `at` on, wrapping at the end of the memory.
  function Stored(mem: seq<Byte>, at: nat, bytes: seq<Byte>): (r: seq<Byte>)
    requires at < |mem|
    ensures |r| == |mem|
    decreases |bytes|
  {
    if bytes == [] then mem else Stored(mem[at := bytes[0]], Wrap(at + 1, |mem|), bytes[1..])
  }

  function Fetched(mem: seq<Byte>, at: nat, count: nat): (r: seq<Byte>)
    requires at < |mem|
    ensures |r| == count
    decreases count
  {
    if count == 0 then [] else [mem[at]] + Fetched(mem, Wrap(at + 1, |mem|), count - 1)
  }

  lemma WrapAdds(a: nat, b: nat, m: nat)
    requires m > 0
    ensures Wrap(Wrap(a, m) + b, m) == Wrap(a + b, m)
  {
    var q, r := (a % m + b) / m, (a % m + b) % m;
    assert (a / m + q) * m == a / m * m + q * m;
    Remainder(a + b, a / m + q, r, m);
  }

  lemma Remainder(n: nat, q: nat, r: nat, m: nat)
    requires r < m && n == q * m + r
    ensures n % m == r
  {
    var d := n / m - q;
    assert d * m == n / m * m - q * m;
    Spread(d, m);
  }

  // How far `k` is ahead of `at`, going round.
  function Ahead(k: nat, at: nat, m: nat): nat
    requires k < m && at < m
  {
    if at <= k then k - at else k + m - at
  }

  /** An element of the memory after a store of at most one round. */
  lemma {:induction false} StoredAt(mem: seq<Byte>, at: nat, bytes: seq<Byte>, k: nat)
    requires at < |mem| && |bytes| <= |mem| && k < |mem|
    ensures var j := Ahead(k, at, |mem|); Stored(mem, at, bytes)[k] == if j < |bytes| then bytes[j] else mem[k]
    decreases |bytes|
  {
    hide Wrap;
    if bytes != [] {
      var next := Wrap(at + 1, |mem|);
      WrapOne(at, |mem|);
      StoredAt(mem[at := bytes[0]], next, bytes[1..], k);
    }
  }

  lemma WrapOne(at: nat, m: nat)
    requires at < m
    ensures Wrap(at + 1, m) == if at + 1 == m then 0 else at + 1
  {
  }

  lemma {:induction false} StoredConcat(mem: seq<Byte>, at: nat, a: seq<Byte>, b: seq<Byte>)
    requires at < |mem|
    ensures Stored(mem, at, a + b) == Stored(Stored(mem, at, a), Wrap(at + |a|, |mem|), b)
    decreases |a|
  {
    hide Wrap;
    if a == [] {
      assert a + b == b;
    } else {
      assert (a + b)[0] == a[0] && (a + b)[1..] == a[1..] + b;
      StoredConcat(mem[at := a[0]], Wrap(at + 1, |mem|), a[1..], b);
      WrapAdds(at + 1, |a| - 1, |mem|);
    }
  }

  lemma FetchedStep(mem: seq<Byte>, at: nat, n: nat)
    requires at < |mem|
    ensures Fetched(mem, at, n) == if n == 0 then [] else [mem[at]] + Fetched(mem, Wrap(at + 1, |mem|), n - 1)
  {
  }

  lemma {:induction false} FetchedConcat(mem: seq<Byte>, at: nat, a: nat, b: nat)
    requires at < |mem|
    ensures Fetched(mem, at, a + b) == Fetched(mem, at, a) + Fetched(mem, Wrap(at + a, |mem|), b)
    decreases a
  {
    hide Wrap, Fetched;
    FetchedStep(mem, at, a);
    if a == 0 {
      assert [] + Fetched(mem, at, b) == Fetched(mem, at, b);
    } else {
      var next := Wrap(at + 1, |mem|);
      FetchedStep(mem, at, a + b);
      FetchedConcat(mem, next, a - 1, b);
      WrapAdds(at + 1, a - 1, |mem|);
    }
  }

  /* ---------------- the device under one transfer ---------------- */

  lemma {:induction false} PlayStores(d: Device, bytes: seq<Byte>)
    requires Sound(d) && d.mode.Storing?
    ensures Play(d, Writes(bytes)) == d.(mem := Stored(d.mem, d.pointer, bytes),
        pointer := Wrap(d.pointer + |bytes|, Size(d)))
    decreases |bytes|
  {
    hide Wrap;
    if bytes != [] {
      assert Writes(bytes)[1..] == Writes(bytes[1..]);
      PlayStores(After(d, EvWrite(bytes[0])), bytes[1..]);
      WrapAdds(d.pointer + 1, |bytes| - 1, Size(d));
    }
  }

  // Reading, whatever the master answers.
  lemma {:induction false} PlayReads(d: Device, events: seq<Event>)
    requires Sound(d) && d.mode.Returning? && forall e <- events :: e.EvRead?
    ensures Play(d, events) == d.(pointer := Wrap(d.pointer + |events|, Size(d)))
    ensures Answers(d, events) == Fetched(d.mem, d.pointer, |events|)
    decreases |events|
  {
    hide Wrap;
    if events == [] {
      WrapNothing(d);
    } else {
      assert events[0] in events && forall e <- events[1..] :: e in events;
      PlayReads(After(d, events[0]), events[1..]);
      WrapAdds(d.pointer + 1, |events| - 1, Size(d));
    }
  }

  lemma WrapNothing(d: Device)
    requires Sound(d)
    ensures Wrap(d.pointer, Size(d)) == d.pointer
  {
  }

  lemma PlayReadAll(d: Device, count: nat)
    requires Sound(d) && d.mode.Returning? && count > 0
    ensures Play(d, ReadAll(count)) == d.(pointer := Wrap(d.pointer + count, Size(d)))
    ensures Answers(d, ReadAll(count)) == Fetched(d.mem, d.pointer, count)
  {
    hide Play, Answers, Fetched, Wrap;
    PlayReads(d, ReadAll(count));
  }

  lemma PlayOne(d: Device, e: Event)
    requires Sound(d)
    ensures Play(d, [e]) == After(d, e) && Answers(d, [e]) == Answer(d, e)
  {
    assert [e][1..] == [];
  }

  lemma PlayTwo(d: Device, e: Event, f: Event)
    requires Sound(d)
    ensures Play(d, [e, f]) == After(After(d, e), f) && Answers(d, [e, f]) == Answer(d, e) + Answer(After(d, e), f)
  {
    assert [e, f] == [e] + [f];
    PlayConcat(d, [e], [f]);
    PlayOne(d, e);
    PlayOne(After(d, e), f);
  }

  // START, the address and the pointer bytes leave the device ready to store at the pointer.
  lemma PlaySetsPointer(d: Device, memAddr: nat)
    requires Sound(d) && memAddr < 0x1_0000
    ensures Play(d, Opening(true, WriteAddress(d.slave)) + Writes(EncodeMemAddr(memAddr, MemAddrBytes(d.wide))))
         == d.(mode := Storing, pointer := Wrap(memAddr, Size(d)))
  {
    hide Play, Answers;
    var address := EncodeMemAddr(memAddr, MemAddrBytes(d.wide));
    PlayConcat(d, Opening(true, WriteAddress(d.slave)), Writes(address));
    PlayTwo(d, EvStart, EvWrite(WriteAddress(d.slave)));
    var d1 := d.(mode := if d.wide then PointerHigh else PointerLow(0));
    if d.wide {
      assert Writes(address) == [EvWrite(memAddr / 256 % 256), EvWrite(memAddr % 256)];
      PlayTwo(d1, EvWrite(memAddr / 256 % 256), EvWrite(memAddr % 256));
    } else {
      assert Writes(address) == [EvWrite(memAddr % 256)];
      PlayOne(d1, EvWrite(memAddr % 256));
    }
  }

  /** The device after `bytes` have been written to its registers from `memAddr` on ... */
  function Written(d: Device, memAddr: nat, bytes: seq<Byte>): (r: Device)
    requires Sound(d)
  {
    d.(mode := Idle, mem := Stored(d.mem, Wrap(memAddr, Size(d)), bytes), pointer := Wrap(memAddr + |bytes|, Size(d)))
  }

  /** ... and after `count` bytes have been read from `memAddr` on. */
  function ReadFrom(d: Device, memAddr: nat, count: nat): (r: Device)
    requires Sound(d)
  {
    d.(mode := Idle, pointer := Wrap(memAddr + count, Size(d)))
  }

  function Registers(d: Device, memAddr: nat, count: nat): (r: seq<Byte>)
    requires Sound(d)
    ensures |r| == count
  {
    Fetched(d.mem, Wrap(memAddr, Size(d)), count)
  }

  // One unchunked write of the register address and the data.
  lemma OneWrite(d: Device, memAddr: nat, bytes: seq<Byte>)
    requires Sound(d) && memAddr < 0x1_0000
    ensures Play(d, Ideal(d.slave, EncodeMemAddr(memAddr, MemAddrBytes(d.wide)) + bytes, 0)) == Written(d, memAddr,
        bytes)
  {
    hide Play, Answers;
    var address := EncodeMemAddr(memAddr, MemAddrBytes(d.wide));
    var opening := Opening(true, WriteAddress(d.slave)) + Writes(address);
    WritesConcat(address, bytes);
    assert Ideal(d.slave, address + bytes, 0) == opening + (Writes(bytes) + [EvStop]);
    PlayConcat(d, opening, Writes(bytes) + [EvStop]);
    PlaySetsPointer(d, memAddr);
    var d1 := Play(d, opening);
    PlayConcat(d1, Writes(bytes), [EvStop]);
    PlayStores(d1, bytes);
    PlayOne(Play(d1, Writes(bytes)), EvStop);
    WrapAdds(memAddr, |bytes|, Size(d));
  }

  // A repeated START turns the device round.
  lemma Turned(d: Device)
    requires Sound(d)
    ensures var turn := [EvStart, EvWrite(ReadAddress(d.slave))];
            Play(d, turn) == d.(mode := Returning) && Answers(d, turn) == []
  {
    hide Play, Answers;
    PlayTwo(d, EvStart, EvWrite(ReadAddress(d.slave)));
    assert Answer(d, EvStart) + Answer(d.(mode := Selected), EvWrite(ReadAddress(d.slave))) == [];
  }

  lemma Stopped(d: Device)
    requires Sound(d)
    ensures Play(d, [EvStop]) == d.(mode := Idle) && Answers(d, [EvStop]) == []
  {
    PlayOne(d, EvStop);
  }

  // A repeated START and the read half, from wherever the pointer stands.
  lemma ReadsOn(d: Device, count: nat)
    requires Sound(d) && count > 0
    ensures Play(d, ReadHalf(d.slave, count)) == d.(mode := Idle, pointer := Wrap(d.pointer + count, Size(d)))
    ensures Answers(d, ReadHalf(d.slave, count)) == Fetched(d.mem, d.pointer, count)
  {
    hide Play, Answers, ReadAll, Fetched, Wrap, After, Answer;
    var turn := [EvStart, EvWrite(ReadAddress(d.slave))];
    assert ReadHalf(d.slave, count) == turn + (ReadAll(count) + [EvStop]);
    PlayConcat(d, turn, ReadAll(count) + [EvStop]);
    Turned(d);
    var d2 := d.(mode := Returning);
    PlayConcat(d2, ReadAll(count), [EvStop]);
    PlayReadAll(d2, count);
    Stopped(d2.(pointer := Wrap(d.pointer + count, Size(d))));
    assert [] + (Fetched(d.mem, d.pointer, count) + []) == Fetched(d.mem, d.pointer, count);
  }

  // One unchunked read: the register address, a repeated START, the data.
  lemma OneRead(d: Device, memAddr: nat, count: nat)
    requires Sound(d) && memAddr < 0x1_0000 && count > 0
    ensures var events := Ideal(d.slave, EncodeMemAddr(memAddr, MemAddrBytes(d.wide)), count);
            Play(d, events) == ReadFrom(d, memAddr, count) && Answers(d, events) == Registers(d, memAddr, count)
  {
    hide Play, Answers, ReadHalf, Fetched;
    var address := EncodeMemAddr(memAddr, MemAddrBytes(d.wide));
    HalvesMeet(d, d.slave, address, count);
    PlaySetsPointer(d, memAddr);
    assert WriteHalf(d.slave, address, count) == Opening(true, WriteAddress(d.slave)) + Writes(address);
    ReadsOn(d.(mode := Storing, pointer := Wrap(memAddr, Size(d))), count);
    WrapAdds(memAddr, count, Size(d));
  }

  /* ---------------- chunks ---------------- */

  // The sum is cut to 16 bits, which a pointer of either width does not notice.
  lemma NarrowSum(d: Device, n: nat, k: nat)
    ensures Wrap(n % 0x1_0000 + k, Size(d)) == Wrap(n + k, Size(d))
  {
    if d.wide {
      WrapAdds(n, k, 0x1_0000);
    } else {
      assert n % 0x1_0000 % 0x100 == n % 0x100;
      WrapAdds(n % 0x1_0000, k, 0x100);
      WrapAdds(n, k, 0x100);
    }
  }

  /** Two writes, the second to the 16-bit sum of address and length, are one write. */
  lemma WriteChunks(d: Device, memAddr: nat, a: seq<Byte>, b: seq<Byte>)
    requires Sound(d)
    ensures Sound(Written(d, memAddr, a))
    ensures Written(Written(d, memAddr, a), (memAddr + |a|) % 0x1_0000, b) == Written(d, memAddr, a + b)
  {
    hide Wrap, Stored;
    NarrowSum(d, memAddr + |a|, 0);
    NarrowSum(d, memAddr + |a|, |b|);
    StoredConcat(d.mem, Wrap(memAddr, Size(d)), a, b);
    WrapAdds(memAddr, |a|, Size(d));
  }

  /** Two reads, the second from the 16-bit sum of address and length, are one read. */
  lemma ReadChunks(d: Device, memAddr: nat, a: nat, b: nat)
    requires Sound(d)
    ensures Sound(ReadFrom(d, memAddr, a))
    ensures ReadFrom(ReadFrom(d, memAddr, a), (memAddr + a) % 0x1_0000, b) == ReadFrom(d, memAddr, a + b)
    ensures Registers(d, memAddr, a) + Registers(ReadFrom(d, memAddr, a), (memAddr + a) % 0x1_0000,
        b) == Registers(d, memAddr, a + b)
  {
    hide Wrap, Fetched;
    NarrowSum(d, memAddr + a, 0);
    NarrowSum(d, memAddr + a, b);
    FetchedConcat(d.mem, Wrap(memAddr, Size(d)), a, b);
    WrapAdds(memAddr, a, Size(d));
  }

  /** A read of nothing skips the transfer.  That is what the one transfer would have done exactly
      when the device was idle and its pointer stood at the address already. */
  lemma EmptyReadMovesNoPointer(d: Device, memAddr: nat)
    requires Sound(d) && memAddr < 0x1_0000
    ensures Play(d, Ideal(d.slave, EncodeMemAddr(memAddr, MemAddrBytes(d.wide)), 0)) == d
       <==> d.mode == Idle && d.pointer == Wrap(memAddr, Size(d))
  {
    hide Play, Ideal;
    var address := EncodeMemAddr(memAddr, MemAddrBytes(d.wide));
    assert address + [] == address;
    OneWrite(d, memAddr, []);
  }

  // A pointer at 0 that the one transfer would have set to 16.
  lemma EmptyReadAt16(mem: seq<Byte>)
    requires |mem| == 0x100
    ensures Play(Device(0x50, false, Idle, 0, mem), Ideal(0x50, EncodeMemAddr(16, 1), 0)).pointer == 16
  {
    hide Play, Ideal;
    assert EncodeMemAddr(16, 1) + [] == EncodeMemAddr(16, 1);
    OneWrite(Device(0x50, false, Idle, 0, mem), 16, []);
  }

  /* ---------------- a transfer that breaks off ---------------- */

  // Whatever part of START, address and pointer has been seen, nothing has been stored.
  lemma NothingStoredYet(d: Device, memAddr: nat, part: seq<Event>)
    requires Sound(d) && memAddr < 0x1_0000
    requires part <= Opening(true, WriteAddress(d.slave)) + Writes(EncodeMemAddr(memAddr, MemAddrBytes(d.wide)))
    ensures Play(d, part).mem == d.mem
  {
    hide Play, Answers;
    var address := EncodeMemAddr(memAddr, MemAddrBytes(d.wide));
    var opening := Opening(true, WriteAddress(d.slave));
    if |part| <= 2 {
      assert part <= opening;
      if |part| == 0 {
        assert part == [];
        PlayNothing(d);
      } else if |part| == 1 {
        assert part == [EvStart];
        PlayOne(d, EvStart);
      } else {
        assert part == [EvStart, EvWrite(WriteAddress(d.slave))];
        PlayTwo(d, EvStart, EvWrite(WriteAddress(d.slave)));
      }
    } else if |part| == 2 + |address| {
      assert part == opening + Writes(address);
      PlaySetsPointer(d, memAddr);
    } else {
      assert part == opening + [EvWrite(address[0])];
      PlayConcat(d, opening, [EvWrite(address[0])]);
      PlayTwo(d, EvStart, EvWrite(WriteAddress(d.slave)));
      PlayOne(Play(d, opening), EvWrite(address[0]));
    }
  }

  lemma PlayNothing(d: Device)
    requires Sound(d)
    ensures Play(d, []) == d
  {
  }

  /** Some first bytes of `bytes` have been stored, in place, and nothing else. */
  ghost predicate PartlyWritten(before: Device, after: Device, memAddr: nat, bytes: seq<Byte>)
    requires Sound(before)
  {
    exists k :: 0 <= k <= |bytes| && after.mem == Stored(before.mem, Wrap(memAddr, Size(before)), bytes[..k])
  }

  lemma BrokenWrite(d: Device, memAddr: nat, bytes: seq<Byte>, part: seq<Event>)
    requires Sound(d) && memAddr < 0x1_0000
    requires part <= Ideal(d.slave, EncodeMemAddr(memAddr, MemAddrBytes(d.wide)) + bytes, 0)
    ensures PartlyWritten(d, Play(d, part), memAddr, bytes)
  {
    hide Play, Answers, EncodeMemAddr;
    var address := EncodeMemAddr(memAddr, MemAddrBytes(d.wide));
    var opening := Opening(true, WriteAddress(d.slave)) + Writes(address);
    WritesConcat(address, bytes);
    assert Ideal(d.slave, address + bytes, 0) == opening + Writes(bytes) + [EvStop];
    if |part| <= |opening| {
      NothingStoredYet(d, memAddr, part);
      assert Play(d, part).mem == Stored(d.mem, Wrap(memAddr, Size(d)), bytes[..0]);
    } else {
      var k := if |part| - |opening| <= |bytes| then |part| - |opening| else |bytes|;
      var rest := if |part| - |opening| <= |bytes| then [] else [EvStop];
      assert part == opening + (Writes(bytes[..k]) + rest);
      PlayConcat(d, opening, Writes(bytes[..k]) + rest);
      PlaySetsPointer(d, memAddr);
      var d1 := Play(d, opening);
      PlayConcat(d1, Writes(bytes[..k]), rest);
      PlayStores(d1, bytes[..k]);
      PlayNothing(Play(d1, Writes(bytes[..k])));
      PlayOne(Play(d1, Writes(bytes[..k])), EvStop);
    }
  }

  lemma PartlyWrittenLater(d: Device, memAddr: nat, bytes: seq<Byte>, offset: nat, chunk: nat, after: Device)
    requires Sound(d) && offset + chunk <= |bytes|
    requires Sound(Written(d, memAddr, bytes[..offset]))
    requires PartlyWritten(Written(d, memAddr, bytes[..offset]), after, (memAddr + offset) % 0x1_0000,
        bytes[offset..offset + chunk])
    ensures PartlyWritten(d, after, memAddr, bytes)
  {
    var d1 := Written(d, memAddr, bytes[..offset]);
    var now := (memAddr + offset) % 0x1_0000;
    var piece := bytes[offset..offset + chunk];
    var k :| 0 <= k <= |piece| && after.mem == Stored(d1.mem, Wrap(now, Size(d1)), piece[..k]);
    WriteChunks(d, memAddr, bytes[..offset], piece[..k]);
    assert bytes[..offset] + piece[..k] == bytes[..offset + k];
  }

  lemma FirstChunk(d: Device, after: Device, memAddr: nat, bytes: seq<Byte>, chunk: nat)
    requires Sound(d) && chunk <= |bytes| && PartlyWritten(d, after, memAddr, bytes[..chunk])
    ensures PartlyWritten(d, after, memAddr, bytes)
  {
    var k :| 0 <= k <= chunk && after.mem == Stored(d.mem, Wrap(memAddr, Size(d)), bytes[..chunk][..k]);
    assert bytes[..chunk][..k] == bytes[..k];
  }

  lemma WrittenAllOrNone(d: Device, memAddr: nat, bytes: seq<Byte>)
    requires Sound(d)
    ensures PartlyWritten(d, Written(d, memAddr, bytes), memAddr, bytes)
    ensures PartlyWritten(d, d, memAddr, bytes)
  {
    assert bytes[..|bytes|] == bytes;
    assert d.mem == Stored(d.mem, Wrap(memAddr, Size(d)), bytes[..0]);
  }

  // A read stores nothing, however far it gets.
  lemma {:induction false} ReadsStoreNothing(d: Device, events: seq<Event>)
    requires Sound(d) && !d.mode.Storing? && forall e <- events :: e.EvRead? || e.EvStop?
    ensures Play(d, events).mem == d.mem
    decreases |events|
  {
    if events != [] {
      assert events[0] in events && forall e <- events[1..] :: e in events;
      ReadsStoreNothing(After(d, events[0]), events[1..]);
    }
  }

  lemma OpensThenReads(slave: nat, address: seq<Byte>, count: nat)
    requires address != [] && count > 0
    ensures Ideal(slave, address, count)
        == Opening(true, WriteAddress(slave)) + Writes(address) + ReadHalf(slave, count)
  {
    hide ReadHalf;
    assert WriteHalf(slave, address, count) == Opening(true, WriteAddress(slave)) + Writes(address);
  }

  lemma BrokenRead(d: Device, memAddr: nat, count: nat, part: seq<Event>)
    requires Sound(d) && memAddr < 0x1_0000 && count > 0
    requires part <= Ideal(d.slave, EncodeMemAddr(memAddr, MemAddrBytes(d.wide)), count)
    ensures Play(d, part).mem == d.mem
  {
    hide Play, Answers, EncodeMemAddr, ReadHalf, Ideal, Writes, Opening;
    var address := EncodeMemAddr(memAddr, MemAddrBytes(d.wide));
    var opening := Opening(true, WriteAddress(d.slave)) + Writes(address);
    AddressIsSomething(memAddr, d.wide);
    OpensThenReads(d.slave, address, count);
    if |part| <= |opening| {
      NothingStoredYet(d, memAddr, part);
    } else {
      var rest := part[|opening|..];
      assert part == opening + rest && rest <= ReadHalf(d.slave, count);
      PlaySetsPointer(d, memAddr);
      PlayConcat(d, opening, rest);
      BrokenReadHalf(Play(d, opening), count, rest);
    }
  }

  lemma BrokenReadHalf(d: Device, count: nat, part: seq<Event>)
    requires Sound(d) && count > 0 && part <= ReadHalf(d.slave, count)
    ensures Play(d, part).mem == d.mem
  {
    hide Play, Answers;
    var turn := [EvStart, EvWrite(ReadAddress(d.slave))];
    var tail := ReadAll(count) + [EvStop];
    assert ReadHalf(d.slave, count) == turn + tail;
    if |part| == 0 {
      assert part == [];
      PlayNothing(d);
    } else if |part| == 1 {
      assert part == [EvStart];
      PlayOne(d, EvStart);
    } else {
      var rest := tail[..|part| - 2];
      assert part == turn + rest;
      PlayConcat(d, turn, rest);
      PlayTwo(d, EvStart, EvWrite(ReadAddress(d.slave)));
      ReadsStoreNothing(Play(d, turn), rest);
    }
  }

  lemma AddressIsSomething(memAddr: nat, wide: bool)
    ensures EncodeMemAddr(memAddr, MemAddrBytes(wide)) != []
  {
  }
}
