/** The broker's reader and writer get on: what each call moves and when it ends. */
module MessageProgress {
  import opened Util
  import opened ByteOrder
  import opened MessageIo

  // ---- the writer ----

  /** The bytes that an answer to a write of `want` bytes has taken. */
  function TakenOf(a: Accepted, want: nat): (n: nat)
    ensures n <= want
  {
    if a.Took? then Min(a.n, want) else 0
  }

  /** The answer ends the connection: an error, or nothing at all was taken. */
  predicate Refuses(a: Accepted, want: nat) {
    a.Gone? || a.WriteError? || (a.Took? && TakenOf(a, want) == 0)
  }

  /** The bytes of the message that a call goes on with, or begins. */
  function Current(w: Endian, x: Writer, queue: seq<Message>): seq<byte>
    requires WriterOk(x)
  {
    if !x.WIdle? then Remaining(w, x) else if queue == [] then [] else Encode(w, queue[0])
  }

  /** How many of them belong to the header. */
  function HeaderLeft(x: Writer): nat
    requires WriterOk(x)
  {
    match x
    case WIdle => HEADER
    case WHead(_, sent) => HEADER - sent
    case _ => 0
  }

  /** The first write is of what is left of the header, if anything is. */
  function FirstWant(x: Writer, left: nat): nat
    requires WriterOk(x)
  {
    if HeaderLeft(x) > 0 then HeaderLeft(x) else left
  }

  /** The header is gone with the first write and a body follows. */
  predicate WritesTwice(x: Writer, left: nat, a1: Accepted)
    requires WriterOk(x)
  {
    0 < HeaderLeft(x) < left && TakenOf(a1, HeaderLeft(x)) == HeaderLeft(x)
  }

  function SentBy(x: Writer, left: nat, a1: Accepted, a2: Accepted): nat
    requires WriterOk(x)
  {
    TakenOf(a1, FirstWant(x, left)) + if WritesTwice(x, left, a1) then TakenOf(a2, left - HeaderLeft(x)) else 0
  }

  predicate EndsBy(x: Writer, left: nat, a1: Accepted, a2: Accepted)
    requires WriterOk(x)
  {
    Refuses(a1, FirstWant(x, left)) || (WritesTwice(x, left, a1) && Refuses(a2, left - HeaderLeft(x)))
  }

  lemma BodyExactly(w: Endian, m: Message, k: nat, a: Accepted)
    requires MessageOk(m) && k < 4 * |m.body|
    ensures var (y, out) := WriteBody(w, m, k, a);
      var cur := Bytes(w, m.body)[k..];
      && |cur| == 4 * |m.body| - k && out == cur[..TakenOf(a, |cur|)]
      && (WriterWorking(y) <==> !Refuses(a, |cur|))
      && (y.WIdle? <==> !Refuses(a, |cur|) && |out| == |cur|)
      && (y.WError? <==> a.WriteError?)
  {
    hide Bytes, MessageOk;
  }

  lemma HeadSize(w: Endian, m: Message)
    ensures |HeadOf(w, m)| == HEADER
  {
  }

  lemma HeadExactly(w: Endian, m: Message, k: nat, a1: Accepted, a2: Accepted)
    requires MessageOk(m) && k < HEADER
    ensures var (y, out) := WriteHead(w, m, k, a1, a2);
      var x := WHead(m, k);
      var cur := HeadOf(w, m)[k..] + Bytes(w, m.body);
      && |cur| == HEADER - k + 4 * |m.body| && SentBy(x, |cur|, a1, a2) <= |cur|
      && out == cur[..SentBy(x, |cur|, a1, a2)]
      && (WriterWorking(y) <==> !EndsBy(x, |cur|, a1, a2))
      && (y.WIdle? <==> !EndsBy(x, |cur|, a1, a2) && |out| == |cur|)
      && (y.WError? <==> a1.WriteError? || (WritesTwice(x, |cur|, a1) && a2.WriteError?))
  {
    hide Bytes, MessageOk, WriteBody, HeadOf;
    var h, b := HeadOf(w, m), Bytes(w, m.body);
    HeadSize(w, m);
    var cur := h[k..] + b;
    if a1.Took? {
      var j := k + TakenOf(a1, HEADER - k);
      assert h[k..j] == cur[..j - k];
      if j == HEADER && m.body != [] {
        BodyExactly(w, m, 0, a2);
        assert b[0..] == b;
        var t := TakenOf(a2, |b|);
        assert cur[..HEADER - k + t] == h[k..] + b[..t];
      }
    }
  }

  /** What a call of a working writer that has something to write does, in terms of what
      is left and of the answers: which bytes it sends, when the connection ends and when
      the message is finished.  An idle writer begins the first message of its queue. */
  lemma WriteCallExactly(w: Endian, x: Writer, queue: seq<Message>, a1: Accepted, a2: Accepted)
    requires WriterOk(x) && WriterWorking(x) && forall m :: m in queue ==> MessageOk(m)
    requires x.WIdle? ==> queue != []
    ensures var (y, rest, out) := WriteCall(w, x, queue, a1, a2);
      var cur := Current(w, x, queue);
      var n := SentBy(x, |cur|, a1, a2);
      && cur != [] && n <= |cur| && out == cur[..n] && rest == (if x.WIdle? then queue[1..] else queue)
      && WriterOk(y) && (WriterWorking(y) <==> !EndsBy(x, |cur|, a1, a2))
      && (WriterWorking(y) ==> Remaining(w, y) == cur[n..])
      && (y.WIdle? <==> !EndsBy(x, |cur|, a1, a2) && n == |cur|)
      && (y.WError? <==> a1.WriteError? || (WritesTwice(x, |cur|, a1) && a2.WriteError?))
  {
    hide WriteHead, WriteBody, Bytes, EncodeAll;
    var (y, rest, out) := WriteCall(w, x, queue, a1, a2);
    var cur := Current(w, x, queue);
    match x {
      case WIdle =>
        var h := HeadOf(w, queue[0]);
        assert h[0..] == h;
        HeadExactly(w, queue[0], 0, a1, a2);
        WriteHeadMoves(w, queue[0], 0, a1, a2);
      case WHead(m, k) =>
        HeadExactly(w, m, k, a1, a2);
        WriteHeadMoves(w, m, k, a1, a2);
      case WBody(m, k) =>
        BodyExactly(w, m, k, a1);
        WriteBodyMoves(w, m, k, a1);
      case _ =>
    }
    if WriterWorking(y) {
      assert out + Remaining(w, y) == cur;
    }
  }

  /** A call without anything to write changes nothing. */
  lemma NothingToWrite(w: Endian, a1: Accepted, a2: Accepted)
    ensures WriteCall(w, WIdle, [], a1, a2) == (WIdle, [], [])
  {
  }

  /** A call whose writes take something, as far as they are not put off. */
  predicate Takes(op: WriteOp) {
    op.Call? && op.a1.Took? && op.a1.n > 0 && (op.a2.TryLater? || (op.a2.Took? && op.a2.n > 0))
  }

  /** The bytes of all messages given to the writer that have not been sent. */
  function Unsent(w: Endian, s: Writing): int
    requires WritingOk(w, s)
  {
    |Remaining(w, s.writer)| + |EncodeAll(w, s.queue)|
  }

  lemma CallProgresses(w: Endian, s: Writing, op: WriteOp)
    requires WritingOk(w, s) && WriterWorking(s.writer) && Takes(op)
    ensures WritingOk(w, WriteTurn(w, s, op)) && WriterWorking(WriteTurn(w, s, op).writer)
    ensures var t := WriteTurn(w, s, op);
      if Unsent(w, s) == 0 then t == s && s.writer.WIdle? && s.queue == []
      else Unsent(w, t) < Unsent(w, s) && |t.written| == |s.written| + Unsent(w, s) - Unsent(w, t)
  {
    hide WriteCall, Bytes;
    KeepWriting(w, s, op);
    if s.writer.WIdle? && s.queue == [] {
      NothingToWrite(w, op.a1, op.a2);
      assert s.extracted + [] == s.extracted && s.written + [] == s.written;
    } else {
      WriteCallExactly(w, s.writer, s.queue, op.a1, op.a2);
      var cur := Current(w, s.writer, s.queue);
      TakesIsNotRefused(s.writer, |cur|, op);
      assert Unsent(w, s) == |cur| + |EncodeAll(w, WriteCall(w, s.writer, s.queue, op.a1, op.a2).1)|;
    }
  }

  lemma TakesIsNotRefused(x: Writer, left: nat, op: WriteOp)
    requires WriterOk(x) && left > 0 && Takes(op)
    ensures !EndsBy(x, left, op.a1, op.a2) && SentBy(x, left, op.a1, op.a2) > 0
  {
  }

  /** With nothing left the writer is idle and everything is written. */
  lemma {:induction false} CallsFinish(w: Endian, ops: seq<WriteOp>, calls: seq<WriteOp>)
    requires WriterWorking(WriteRun(w, ops).writer) && forall c :: c in calls ==> Takes(c)
    ensures var s, t := WriteRun(w, ops), WriteRun(w, ops + calls);
      && WriterWorking(t.writer) && (Unsent(w, t) == 0 || |t.written| >= |s.written| + |calls|)
      && |t.written| + Unsent(w, t) == |s.written| + Unsent(w, s)
    decreases |calls|
  {
    hide WriteTurn, WritingOk, Unsent, Takes;
    if calls == [] {
      assert ops + calls == ops;
    } else {
      var m := |calls| - 1;
      var all := ops + calls;
      CallsFinish(w, ops, calls[..m]);
      assert all[..|all| - 1] == ops + calls[..m] && all[|all| - 1] == calls[m];
      CallProgresses(w, WriteRun(w, ops + calls[..m]), calls[m]);
    }
  }

  lemma {:induction false} CallsAddNothing(ops: seq<WriteOp>, calls: seq<WriteOp>)
    requires forall c :: c in calls ==> c.Call?
    ensures Enqueued(ops + calls) == Enqueued(ops)
  {
    if calls == [] {
      assert ops + calls == ops;
    } else {
      var all := ops + calls;
      assert all[..|all| - 1] == ops + calls[..|calls| - 1] && all[|all| - 1] == calls[|calls| - 1];
      CallsAddNothing(ops, calls[..|calls| - 1]);
      assert calls[|calls| - 1] in calls && Enqueued(ops) + [] == Enqueued(ops);
    }
  }

  /** As many calls that take something as there are bytes left, and every message ever
      given to the writer has been sent. */
  lemma EverythingIsWritten(w: Endian, ops: seq<WriteOp>, calls: seq<WriteOp>)
    requires WriterWorking(WriteRun(w, ops).writer) && forall c :: c in calls ==> Takes(c)
    requires |WriteRun(w, ops).written| + |calls| >= |EncodeAll(w, Enqueued(ops))|
    ensures var t := WriteRun(w, ops + calls);
      t.writer == WIdle && t.queue == [] && t.extracted == Enqueued(ops) &&
        t.written == EncodeAll(w, Enqueued(ops))
  {
    hide WriteTurn, EncodeAll, WriteRun, Enqueued, Bytes, MessageOk;
    var s, t := WriteRun(w, ops), WriteRun(w, ops + calls);
    CallsFinish(w, ops, calls);
    WriterKeepsOrder(w, ops);
    WriterKeepsOrder(w, ops + calls);
    CallsAddNothing(ops, calls);
    AllAccounted(w, s);
    AllAccounted(w, t);
    NothingLeft(w, t);
    assert t.extracted + [] == t.extracted && t.written + [] == t.written;
  }

  lemma AllAccounted(w: Endian, s: Writing)
    requires WritingOk(w, s) && WriterWorking(s.writer)
    ensures |EncodeAll(w, s.extracted + s.queue)| == |s.written| + Unsent(w, s)
  {
    hide EncodeAll, Remaining;
    EncodeConcat(w, s.extracted, s.queue);
  }

  lemma NothingLeft(w: Endian, s: Writing)
    requires WritingOk(w, s) && WriterWorking(s.writer) && Unsent(w, s) == 0
    ensures s.writer.WIdle? && s.queue == [] && Remaining(w, s.writer) == []
  {
    hide Bytes;
  }

  // ---- the reader ----

  /** The bytes that an answer to a read of `want` bytes brings. */
  function Brought(t: Transfer, want: nat): (bs: seq<byte>)
    ensures |bs| <= want
  {
    if t.Moved? then t.bytes[..Min(|t.bytes|, want)] else []
  }

  predicate HangsUp(t: Transfer, want: nat) {
    t.Closed? || (t.Moved? && Brought(t, want) == [])
  }

  predicate Stops(t: Transfer, want: nat) {
    t.Failure? || HangsUp(t, want)
  }

  /** What is missing of the header, or behind it of the body. */
  function ReadWant(w: Endian, r: Reader): int {
    match r
    case RBody(h, part) => 4 * h.size - |part|
    case _ => HEADER - |Pending(w, r)|
  }

  /** The bytes there are with the first answer. */
  function WithFirst(w: Endian, r: Reader, t1: Transfer): seq<byte>
    requires Working(r) && ReaderOk(r)
  {
    Pending(w, r) + Brought(t1, ReadWant(w, r))
  }

  /** The first answer completes the header. */
  predicate HeaderComes(w: Endian, r: Reader, t1: Transfer)
    requires Working(r) && ReaderOk(r)
  {
    !r.RBody? && |WithFirst(w, r, t1)| == HEADER
  }

  function BodySize(w: Endian, r: Reader, t1: Transfer): nat
    requires Working(r) && ReaderOk(r) && HeaderComes(w, r, t1)
  {
    4 * ReadHeader(w, WithFirst(w, r, t1)).size
  }

  predicate ReadsTwice(w: Endian, r: Reader, t1: Transfer)
    requires Working(r) && ReaderOk(r)
  {
    HeaderComes(w, r, t1) && 0 < BodySize(w, r, t1) < 0x8000_0000
  }

  /** The bytes there are after the call. */
  function WithBoth(w: Endian, r: Reader, t1: Transfer, t2: Transfer): seq<byte>
    requires Working(r) && ReaderOk(r)
  {
    WithFirst(w, r, t1) + if ReadsTwice(w, r, t1) then Brought(t2, BodySize(w, r, t1)) else []
  }

  predicate StopsBy(w: Endian, r: Reader, t1: Transfer, t2: Transfer)
    requires Working(r) && ReaderOk(r)
  {
    Stops(t1, ReadWant(w, r)) || (ReadsTwice(w, r, t1) && Stops(t2, BodySize(w, r, t1)))
  }

  lemma KernelIs(t: Transfer, want: nat)
    requires want > 0
    ensures Bringing(Kernel(t, want)) == Brought(t, want)
    ensures Kernel(t, want).Closed? <==> HangsUp(t, want)
    ensures Kernel(t, want).Failure? <==> t.Failure?
    ensures Kernel(t, want).Moved? <==> Brought(t, want) != []
  {
  }

  /** What a call of a working reader does, in terms of the bytes it holds and of the
      answers: which it takes, when the connection ends, when a message is complete. */
  lemma ReadCallExactly(w: Endian, r: Reader, t1: Transfer, t2: Transfer)
    requires Working(r) && ReaderOk(r)
    ensures var y, all := ReadCall(w, r, t1, t2), WithBoth(w, r, t1, t2);
      var unfit := HeaderComes(w, r, t1) && BodySize(w, r, t1) >= 0x8000_0000;
      && Pending(w, r) + Consumed(w, r, t1, t2) == all
      && (y.TooLarge? <==> unfit)
      && (y.RBroken? || y.RError? <==> StopsBy(w, r, t1, t2))
      && (y.RError? <==> t1.Failure? || (ReadsTwice(w, r, t1) && t2.Failure?))
      && (y.RReady? <==> !unfit && !StopsBy(w, r, t1, t2) && HasMessage(w, all))
  {
    hide Words, Bytes, Kernel, Brought, HangsUp, ReadHead, ReadBody, AfterHeader;
    match r {
      case RBody(h, part) => BodyCallExactly(w, h, part, t1, t2);
      case _ => HeadCallExactly(w, r, t1, t2);
    }
  }

  lemma BodyCallExactly(w: Endian, h: Header, part: seq<byte>, t1: Transfer, t2: Transfer)
    requires ReaderOk(RBody(h, part))
    ensures var r := RBody(h, part);
      var y, all := ReadCall(w, r, t1, t2), WithBoth(w, r, t1, t2);
      && Pending(w, r) + Consumed(w, r, t1, t2) == all && !y.TooLarge?
      && (y.RBroken? || y.RError? <==> Stops(t1, ReadWant(w, r))) && (y.RError? <==> t1.Failure?)
      && (y.RReady? <==> !Stops(t1, ReadWant(w, r)) && HasMessage(w, all))
  {
    hide Words, Bytes, Kernel, Brought, HangsUp;
    var want := 4 * h.size - |part|;
    var all := WithBoth(w, RBody(h, part), t1, t2);
    KernelIs(t1, want);
    HeaderRoundTrip(w, h);
    var b := Brought(t1, want);
    assert all == Bytes(w, HeaderWords(h)) + (part + b);
    assert all[..HEADER] == Bytes(w, HeaderWords(h));
    assert HasMessage(w, all) <==> |part + b| == 4 * h.size;
    assert |b| == want ==> b != [];
  }

  lemma AfterHeaderExactly(w: Endian, head: seq<byte>, t: Transfer)
    requires |head| == HEADER
    ensures var y, n := AfterHeader(w, head, t), 4 * ReadHeader(w, head).size;
      var twice := 0 < n < 0x8000_0000;
      && ConsumedAfter(w, head, t) == (if twice then Brought(t, n) else [])
      && (y.TooLarge? <==> n >= 0x8000_0000)
      && (y.RBroken? || y.RError? <==> twice && Stops(t, n))
      && (y.RError? <==> twice && t.Failure?)
      && (y.RReady? <==>
           n < 0x8000_0000 && !(twice && Stops(t, n)) && HasMessage(w, head + ConsumedAfter(w, head, t)))
  {
    hide Words, Bytes, Kernel, Brought, HangsUp, ReadHeader;
    var n := 4 * ReadHeader(w, head).size;
    var all := head + ConsumedAfter(w, head, t);
    assert all[..HEADER] == head;
    if 0 < n {
      KernelIs(t, n);
      assert [] + Brought(t, n) == Brought(t, n);
    }
  }

  lemma HeadCallExactly(w: Endian, r: Reader, t1: Transfer, t2: Transfer)
    requires (r.RIdle? || r.RHead?) && ReaderOk(r)
    ensures var y, all := ReadCall(w, r, t1, t2), WithBoth(w, r, t1, t2);
      var unfit := HeaderComes(w, r, t1) && BodySize(w, r, t1) >= 0x8000_0000;
      && Pending(w, r) + Consumed(w, r, t1, t2) == all
      && (y.TooLarge? <==> unfit)
      && (y.RBroken? || y.RError? <==> StopsBy(w, r, t1, t2))
      && (y.RError? <==> t1.Failure? || (ReadsTwice(w, r, t1) && t2.Failure?))
      && (y.RReady? <==> !unfit && !StopsBy(w, r, t1, t2) && HasMessage(w, all))
  {
    hide Words, Bytes, Kernel, Brought, HangsUp, ReadHeader, HasMessage, ReadHead, ConsumedHead;
    var p := Pending(w, r);
    var head := WithFirst(w, r, t1);
    ReadHeadExactly(w, p, t1, t2);
    if HeaderComes(w, r, t1) {
      AfterHeaderExactly(w, head, t2);
      var b, more := Brought(t1, HEADER - |p|), ConsumedAfter(w, head, t2);
      assert p + (b + more) == head + more;
    } else {
      assert head + [] == head;
      NoMessageYet(w, head);
    }
  }

  /** The read of the header. */
  lemma ReadHeadExactly(w: Endian, got: seq<byte>, t1: Transfer, t2: Transfer)
    requires |got| < HEADER
    ensures var b := Brought(t1, HEADER - |got|);
      var y, taken := ReadHead(w, got, t1, t2), ConsumedHead(w, got, t1, t2);
      if |got + b| == HEADER then
        y == AfterHeader(w, got + b, t2) && taken == b + ConsumedAfter(w, got + b, t2) &&
        !Stops(t1, HEADER - |got|)
      else
        taken == b && !y.TooLarge? && !y.RReady? && (y.RError? <==> t1.Failure?) &&
        (y.RBroken? || y.RError? <==> Stops(t1, HEADER - |got|))
  {
    hide Words, Bytes, Kernel, Brought, HangsUp, AfterHeader, ConsumedAfter;
    KernelIs(t1, HEADER - |got|);
  }

  lemma NoMessageYet(w: Endian, bs: seq<byte>)
    requires |bs| < HEADER
    ensures !HasMessage(w, bs)
  {
  }

  /** A call whose reads bring something, as far as they are not put off. */
  predicate Brings(t: (Transfer, Transfer)) {
    t.0.Moved? && t.0.bytes != [] && (t.1.NotNow? || (t.1.Moved? && t.1.bytes != []))
  }

  /** Every such call takes at least one byte and keeps the connection, unless it finds
      an announced body that does not fit. */
  lemma {:induction false} ReadingGoesOn(w: Endian, ts: seq<(Transfer, Transfer)>)
    requires forall t :: t in ts ==> Brings(t)
    ensures var s := ReadRun(w, ts); s.reader.TooLarge? || (Working(s.reader) && |s.consumed| >= |ts|)
  {
    hide Bytes, Words, ReadCall, Consumed, Parse, Pending, WithBoth, StopsBy, HeaderComes, BodySize, ReadingOk;
    if ts != [] {
      var m := |ts| - 1;
      ReadingGoesOn(w, ts[..m]);
      var s := ReadRun(w, ts[..m]);
      if Working(s.reader) {
        assert ts[m] in ts;
        OkReader(w, s);
        ReadCallExactly(w, s.reader, ts[m].0, ts[m].1);
        BringsSome(w, s.reader, ts[m].0, ts[m].1);
      }
    }
  }

  lemma OkReader(w: Endian, s: Reading)
    requires ReadingOk(w, s)
    ensures ReaderOk(s.reader)
  {
  }

  lemma BringsSome(w: Endian, r: Reader, t1: Transfer, t2: Transfer)
    requires Working(r) && ReaderOk(r) && Brings((t1, t2))
    ensures !StopsBy(w, r, t1, t2) && |WithBoth(w, r, t1, t2)| > |Pending(w, r)|
  {
    hide Bytes, Words;
  }

  // ---- the wire ----

  /** A message on the wire: its size, client, VED, request type, flags and transaction
      number, then the words of the body, each four bytes in the order of the wire. */
  lemma LaidOut(w: Endian, m: Message, k: nat)
    requires k < 6 + |m.body|
    ensures var h := m.header;
      var words := [h.size, h.client, h.ved, h.reqtype, h.flags, h.transid] + m.body;
      |Encode(w, m)| == 4 * |words| && Encode(w, m)[4 * k..4 * k + 4] == Store(w, words[k])
  {
    hide Bytes, Store;
    BytesConcat(w, HeaderWords(m.header), m.body);
    BytesAt(w, HeaderWords(m.header) + m.body, k);
  }
}
