/** A slave with a register file: a write sets the register pointer and then stores, a read returns
    bytes from the pointer on.  The pointer is one or two bytes wide, counts up with every data byte
    and wraps at its width. */
module I2cDevice {
  import opened I2cBus

  datatype Mode = Idle | Selected | PointerLow(high: Byte) | PointerHigh | Storing | Returning | Deaf

  datatype Device = Device(slave: nat, wide: bool, mode: Mode, pointer: nat, mem: seq<Byte>)

  function Size(d: Device): nat { if d.wide then 0x1_0000 else 0x100 }

  predicate Sound(d: Device) {
    |d.mem| == Size(d) && d.pointer < Size(d) && d.slave <= 0x7F
  }

  function Wrap(n: nat, size: nat): (r: nat)
    requires size > 0
    ensures r < size
    ensures n < size ==> r == n
  {
    n % size
  }

  function Advance(d: Device): nat { Wrap(d.pointer + 1, Size(d)) }

  function After(d: Device, e: Event): (r: Device)
    requires Sound(d)
    ensures Sound(r) && r.slave == d.slave && r.wide == d.wide
  {
    match e
    case EvStart => d.(mode := Selected)
    case EvStop => d.(mode := Idle)
    case EvUnderrun => d
    case EvWrite(b) =>
      (match d.mode
       case Selected =>
         if b == WriteAddress(d.slave) then d.(mode := if d.wide then PointerHigh else PointerLow(0))
         else if b == ReadAddress(d.slave) then d.(mode := Returning)
         else d.(mode := Deaf)
       case PointerHigh => d.(mode := PointerLow(b))
       case PointerLow(high) => d.(mode := Storing, pointer := if d.wide then high * 256 + b else b)
       case Storing => d.(mem := d.mem[d.pointer := b], pointer := Advance(d))
       case _ => d)
    case EvRead(_) => if d.mode.Returning? then d.(pointer := Advance(d)) else d
  }

  // The byte the master sees; nobody answering reads as all ones.
  function Answer(d: Device, e: Event): seq<Byte>
    requires Sound(d)
  {
    if !e.EvRead? then [] else if d.mode.Returning? then [d.mem[d.pointer]] else [255]
  }

  function Play(d: Device, events: seq<Event>): (r: Device)
    requires Sound(d)
    ensures Sound(r) && r.slave == d.slave && r.wide == d.wide
    decreases |events|
  {
    if events == [] then d else Play(After(d, events[0]), events[1..])
  }

  function Answers(d: Device, events: seq<Event>): seq<Byte>
    requires Sound(d)
    decreases |events|
  {
    if events == [] then [] else Answer(d, events[0]) + Answers(After(d, events[0]), events[1..])
  }

  lemma {:induction false} PlayConcat(d: Device, a: seq<Event>, b: seq<Event>)
    requires Sound(d)
    ensures Play(d, a + b) == Play(Play(d, a), b)
    ensures Answers(d, a + b) == Answers(d, a) + Answers(Play(d, a), b)
    decreases |a|
  {
    if a == [] {
      assert a + b == b;
    } else {
      assert (a + b)[0] == a[0] && (a + b)[1..] == a[1..] + b;
      PlayConcat(After(d, a[0]), a[1..], b);
    }
  }

  lemma {:induction false} AnswersPerRead(d: Device, events: seq<Event>)
    requires Sound(d)
    ensures |Answers(d, events)| == ReadCount(events)
    decreases |events|
  {
    if events != [] {
      AnswersPerRead(After(d, events[0]), events[1..]);
    }
  }

  lemma HeardNothing(d: Device, t: seq<Event>)
    requires Sound(d)
    ensures Play(d, t[|t|..]) == d && Answers(d, t[|t|..]) == []
  {
  }

  // What is heard in two stretches is heard in one.
  lemma HeardMore(d0: Device, t0: seq<Event>, d1: Device, t1: seq<Event>, t2: seq<Event>)
    requires Sound(d0) && t0 <= t1 <= t2 && d1 == Play(d0, t1[|t0|..])
    ensures Play(d1, t2[|t1|..]) == Play(d0, t2[|t0|..])
    ensures Answers(d0, t2[|t0|..]) == Answers(d0, t1[|t0|..]) + Answers(d1, t2[|t1|..])
  {
    PlayConcat(d0, t1[|t0|..], t2[|t1|..]);
    assert t1[|t0|..] + t2[|t1|..] == t2[|t0|..];
  }

  lemma HalvesMeet(d: Device, slave: nat, bytes: seq<Byte>, readSize: nat)
    requires Sound(d)
    ensures var first, second := WriteHalf(slave, bytes, readSize), ReadHalf(slave, readSize);
            && Ideal(slave, bytes, readSize) == first + second
            && Play(d, first + second) == Play(Play(d, first), second)
            && Answers(d, first + second) == Answers(Play(d, first), second)
            && (bytes == [] && readSize > 0 ==> first == [])
            && (readSize == 0 ==> second == [] && |Answers(Play(d, first), second)| == 0)
  {
    var first, second := WriteHalf(slave, bytes, readSize), ReadHalf(slave, readSize);
    PlayConcat(d, first, second);
    AnswersPerRead(d, first);
    WriteHalfReadsNothing(slave, bytes, readSize);
    assert Answers(d, first) == [];
  }
}
