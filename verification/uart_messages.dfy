/** Write requests and their bytes: what a submitter hands to a write port and what becomes of it,
    whatever the driver below does with queues and buffers. */
module UartMessages {
  type Byte = b: int | 0 <= b < 256

  datatype Request = Request(id: nat, size: nat)  // WriteInfoBlock

  // A request with those of its bytes that are not on the wire yet.
  datatype Message = Message(info: Request, bytes: seq<Byte>)

  // A slot holds one message or none.
  datatype Slot = Free | Loaded(m: Message)

  function SlotBytes(s: Slot): seq<Byte> { if s.Free? then [] else s.m.bytes }

  function SlotInfos(s: Slot): seq<Request> { if s.Free? then [] else [s.m.info] }

  function Min(a: nat, b: nat): nat { if a <= b then a else b }

  function Bytes(ms: seq<Message>): seq<Byte> {
    if ms == [] then [] else ms[0].bytes + Bytes(ms[1..])
  }

  function Infos(ms: seq<Message>): (r: seq<Request>)
    ensures |r| == |ms|
  {
    if ms == [] then [] else [ms[0].info] + Infos(ms[1..])
  }

  // No byte of any of them has gone yet.
  predicate Whole(ms: seq<Message>) {
    forall m <- ms :: |m.bytes| == m.info.size
  }

  lemma {:induction false} BytesConcat(a: seq<Message>, b: seq<Message>)
    ensures Bytes(a + b) == Bytes(a) + Bytes(b)
  {
    if a == [] {
      assert a + b == b;
    } else {
      assert (a + b)[0] == a[0] && (a + b)[1..] == a[1..] + b;
      BytesConcat(a[1..], b);
    }
  }

  lemma {:induction false} InfosConcat(a: seq<Message>, b: seq<Message>)
    ensures Infos(a + b) == Infos(a) + Infos(b)
  {
    if a == [] {
      assert a + b == b;
    } else {
      assert (a + b)[0] == a[0] && (a + b)[1..] == a[1..] + b;
      InfosConcat(a[1..], b);
    }
  }

  // The first of several messages is the first request, and its bytes are the first bytes.
  lemma FirstOf(ms: seq<Message>)
    requires ms != []
    ensures Bytes(ms) == ms[0].bytes + Bytes(ms[1..]) && Infos(ms) == [ms[0].info] + Infos(ms[1..])
  {
  }

  lemma OneMore(ms: seq<Message>, m: Message)
    ensures Bytes(ms + [m]) == Bytes(ms) + m.bytes && Infos(ms + [m]) == Infos(ms) + [m.info]
  {
    BytesConcat(ms, [m]);
    InfosConcat(ms, [m]);
    JustOne(m);
  }

  lemma JustOne(m: Message)
    ensures Bytes([m]) == m.bytes && Infos([m]) == [m.info]
  {
    assert m.bytes + [] == m.bytes;
  }

  lemma Regroup<T>(s: seq<T>, a: seq<T>, p: seq<T>, q: seq<T>, m: seq<T>)
    ensures s + (a + (p + (q + m))) == s + (a + (p + q)) + m
  {
  }

  // New messages join at the end of what is held ...
  lemma JoinBytes(sent: seq<Byte>, a: Slot, p: Slot, q: seq<Message>, all: seq<Message>, more: seq<Message>)
    requires sent + (SlotBytes(a) + (SlotBytes(p) + Bytes(q))) == Bytes(all)
    ensures sent + (SlotBytes(a) + (SlotBytes(p) + Bytes(q + more))) == Bytes(all + more)
  {
    hide Bytes, SlotBytes;
    BytesConcat(q, more);
    BytesConcat(all, more);
    Regroup(sent, SlotBytes(a), SlotBytes(p), Bytes(q), Bytes(more));
  }

  // ... and of what is waiting to be completed.
  lemma JoinInfos(done: seq<Request>, p: Slot, q: seq<Message>, all: seq<Message>, more: seq<Message>)
    requires done + (SlotInfos(p) + Infos(q)) == Infos(all)
    ensures done + (SlotInfos(p) + Infos(q + more)) == Infos(all + more)
  {
    hide Infos, SlotInfos;
    InfosConcat(q, more);
    InfosConcat(all, more);
    Regroup(done, [], SlotInfos(p), Infos(q), Infos(more));
    assert [] + (SlotInfos(p) + (Infos(q) + Infos(more))) == SlotInfos(p) + (Infos(q) + Infos(more));
    assert [] + (SlotInfos(p) + Infos(q)) == SlotInfos(p) + Infos(q);
  }

  // The bytes that requests stand for.
  function Sum(rs: seq<Request>): nat {
    if rs == [] then 0 else rs[0].size + Sum(rs[1..])
  }

  lemma {:induction false} WholeLength(ms: seq<Message>)
    requires Whole(ms)
    ensures |Bytes(ms)| == Sum(Infos(ms))
  {
    if ms != [] {
      WholeLength(ms[1..]);
    }
  }

  lemma SameParts<T>(a: seq<T>, x: seq<T>, y: seq<T>, b: seq<T>, u: seq<T>, v: seq<T>)
    requires a + (x + y) == b + (u + v) && |a| == |b| && |x| == |u|
    ensures a == b && x == u && y == v
  {
    var s := a + (x + y);
    assert s[..|a|] == a && s[|a|..][..|x|] == x && s[|a|..][|x|..] == y;
    assert s[..|b|] == b && s[|b|..][..|u|] == u && s[|b|..][|u|..] == v;
  }

  lemma Three(before: seq<Message>, x: Message, after: seq<Message>)
    ensures Bytes(before + ([x] + after)) == Bytes(before) + (x.bytes + Bytes(after))
    ensures Infos(before + ([x] + after)) == Infos(before) + ([x.info] + Infos(after))
  {
    BytesConcat(before, [x] + after);
    InfosConcat(before, [x] + after);
    assert ([x] + after)[1..] == after;
    FirstOf([x] + after);
  }

  lemma WholeParts(before: seq<Message>, x: Message, after: seq<Message>)
    requires Whole(before + ([x] + after))
    ensures |x.bytes| == x.info.size && Whole(after) && Whole(before + after)
  {
    var all := before + ([x] + after);
    assert x in all && forall y <- after :: y in all;
    assert forall y <- before :: y in all;
  }

  lemma SumBehind(p: Slot, rs: seq<Request>)
    ensures Sum(SlotInfos(p) + rs) == Sum(SlotInfos(p)) + Sum(rs)
  {
    if p.Free? {
      assert [] + rs == rs;
    } else {
      assert ([p.m.info] + rs)[1..] == rs && [p.m.info][1..] == [];
    }
  }

  // The books of a transmitter: what is on the wire and held is what was submitted, in order, and
  // the requests done are the first ones submitted.
  ghost predicate Books(sent: seq<Byte>, a: Slot, p: Slot, q: seq<Message>, all: seq<Message>, done: seq<Request>) {
    && sent + (SlotBytes(a) + (SlotBytes(p) + Bytes(q))) == Bytes(all) && Whole(all)
    && done + (SlotInfos(p) + Infos(q)) == Infos(all)
  }

  lemma BooksJoin(sent: seq<Byte>, a: Slot, p: Slot, q: seq<Message>, all: seq<Message>, done: seq<Request>,
      more: seq<Message>)
    requires Books(sent, a, p, q, all, done) && Whole(q + more)
    ensures Books(sent, a, p, q + more, all + more, done)
  {
    hide Bytes, Infos;
    JoinBytes(sent, a, p, q, all, more);
    JoinInfos(done, p, q, all, more);
    assert forall m <- more :: m in q + more;
  }

  /** The active message leaves the books together with its bytes, n requests before it being done:
      the bytes on the wire are exactly those of the n, and what is left are the same books without
      it. */
  lemma TakenOut(sent: seq<Byte>, m: Message, p: Slot, q: seq<Message>, all: seq<Message>, done: seq<Request>)
    requires Books(sent, Loaded(m), p, q, all, done + [m.info])
    requires |m.bytes| == m.info.size && |SlotBytes(p)| == Sum(SlotInfos(p)) && Whole(q)
    ensures |done| < |all| && Books(sent, Free, p, q, all[..|done|] + all[|done| + 1..], done)
  {
    hide Bytes, Infos, Whole;
    var n := |done|;
    assert |Infos(all)| == |all|;
    var before, x, after := all[..n], all[n], all[n + 1..];
    assert all == before + ([x] + after);
    Three(before, x, after);
    assert done + [m.info] + (SlotInfos(p) + Infos(q)) == done + ([m.info] + (SlotInfos(p) + Infos(q)));
    SameParts(done, [m.info], SlotInfos(p) + Infos(q), Infos(before), [x.info], Infos(after));
    WholeLength(q);
    WholeParts(before, x, after);
    WholeLength(after);
    SumBehind(p, Infos(q));
    SameParts(sent, m.bytes, SlotBytes(p) + Bytes(q), Bytes(before), x.bytes, Bytes(after));
    BytesConcat(before, after);
    InfosConcat(before, after);
    assert [] + (SlotBytes(p) + Bytes(q)) == SlotBytes(p) + Bytes(q);
  }

  // A queue of one message and nothing else held: that message may as well be the active one.
  lemma AloneInBooks(sent: seq<Byte>, q: seq<Message>, all: seq<Message>, done: seq<Request>)
    requires Books(sent, Free, Free, q, all, done) && |q| == 1 && Whole(q)
    ensures Books(sent, Loaded(q[0]), Free, [], all, done + [q[0].info]) && |all| == |done| + 1
    ensures done + [q[0].info] == Infos(all) && |q[0].bytes| == q[0].info.size
  {
    var m := q[0];
    assert q == [m];
    JustOne(m);
    assert |Infos(all)| == |all|;
    Alone(sent, m.bytes, done, [m.info]);
    assert Bytes([]) == [] && Infos([]) == [];
  }

  lemma Alone(sent: seq<Byte>, bytes: seq<Byte>, done: seq<Request>, now: seq<Request>)
    ensures sent + ([] + ([] + bytes)) == sent + (bytes + ([] + []))
    ensures done + ([] + now) == done + now == done + now + ([] + [])
  {
    assert [] + ([] + bytes) == bytes == bytes + ([] + []);
    assert [] + now == now;
  }

  /* ---------------- what happens again and again ---------------- */

  ghost predicate Recurs(p: nat -> bool) {
    forall n: nat :: RecursFrom(p, n)
  }

  ghost predicate RecursFrom(p: nat -> bool, n: nat) {
    exists m :: n <= m && p(m)
  }

  // The next time, counted from n on.
  ghost function Due(p: nat -> bool, n: nat): (m: nat)
    requires Recurs(p)
    ensures n <= m && p(m) && forall k :: n <= k < m ==> !p(k)
  {
    assert RecursFrom(p, n);
    var m: nat :| n <= m && p(m);
    FirstOne(p, n, m)
  }

  ghost function FirstOne(p: nat -> bool, n: nat, m: nat): (k: nat)
    requires n <= m && p(m)
    ensures n <= k <= m && p(k) && forall i :: n <= i < k ==> !p(i)
    decreases m - n
  {
    if p(n) then n else FirstOne(p, n + 1, m)
  }

  lemma SameDue(p: nat -> bool, n: nat, later: nat)
    requires Recurs(p) && n <= later && forall k :: n <= k < later ==> !p(k)
    ensures Due(p, later) == Due(p, n)
  {
  }
}
