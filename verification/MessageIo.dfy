/**
  Framed messages over a byte stream that may move any number of bytes at a time
  (C_io of commu/commu_io.cc): what the resumable reader and writer amount to.
*/
module MessageIo {
  import opened Util
  import opened ByteOrder

  /*
    `Encode` and `Parse` are the plain forms: a message is its six header words and
    then its body.  On a far link words travel in network order, on a near one in the
    order of the host they share.
  */

  datatype Header = Header(size: word, client: word, ved: word, reqtype: word, flags: word, transid: word)
  datatype Message = Message(header: Header, body: seq<word>)

  const HEADER: nat := 24

  /** Body sizes whose byte count fits the int that holds it. */
  predicate Fits(size: word) { size < 0x2000_0000 }

  predicate MessageOk(m: Message) { |m.body| == m.header.size && Fits(m.header.size) }

  function HeaderWords(h: Header): (ws: seq<word>)
    ensures |ws| == 6
  {
    [h.size, h.client, h.ved, h.reqtype, h.flags, h.transid]
  }

  function HeaderOf(ws: seq<word>): Header
    requires |ws| == 6
  {
    Header(ws[0], ws[1], ws[2], ws[3], ws[4], ws[5])
  }

  function Wire(host: Endian, far: bool): Endian {
    if far then Big else host
  }

  // ---- the plain forms ----

  function Encode(w: Endian, m: Message): seq<byte> {
    Bytes(w, HeaderWords(m.header)) + Bytes(w, m.body)
  }

  function EncodeAll(w: Endian, ms: seq<Message>): seq<byte> {
    if ms == [] then [] else Encode(w, ms[0]) + EncodeAll(w, ms[1..])
  }

  datatype Parsed = Parsed(messages: seq<Message>, rest: seq<byte>)

  function ReadHeader(w: Endian, bs: seq<byte>): Header
    requires |bs| == HEADER
  {
    HeaderOf(Words(w, bs))
  }

  /** The bytes of the message that starts here, if its header is there and can be dealt with. */
  function Need(w: Endian, bs: seq<byte>): (n: Option<nat>)
    ensures n.Some? ==> HEADER <= n.value && n.value % 4 == 0 && HEADER <= |bs|
  {
    if |bs| < HEADER then None
    else
      var size := ReadHeader(w, bs[..HEADER]).size;
      if Fits(size) then Some(HEADER + 4 * size) else None
  }

  function Parse(w: Endian, bs: seq<byte>): Parsed
    decreases |bs|
  {
    var need := Need(w, bs);
    if need.None? || |bs| < need.value then Parsed([], bs)
    else
      var tail := Parse(w, bs[need.value..]);
      Parsed([FirstMessage(w, bs, need.value)] + tail.messages, tail.rest)
  }

  predicate HasMessage(w: Endian, bs: seq<byte>) {
    Need(w, bs).Some? && Need(w, bs).value <= |bs|
  }

  lemma ParseUnfold(w: Endian, bs: seq<byte>)
    ensures Parse(w, bs) ==
      if HasMessage(w, bs) then
        var n := Need(w, bs).value;
        Parsed([FirstMessage(w, bs, n)] + Parse(w, bs[n..]).messages, Parse(w, bs[n..]).rest)
      else Parsed([], bs)
  {
  }

  lemma HeaderRoundTrip(w: Endian, h: Header)
    ensures |Bytes(w, HeaderWords(h))| == HEADER && ReadHeader(w, Bytes(w, HeaderWords(h))) == h
  {
    WordsOfBytes(w, HeaderWords(h));
  }

  lemma HeaderBytes(w: Endian, bs: seq<byte>)
    requires |bs| == HEADER
    ensures Bytes(w, HeaderWords(ReadHeader(w, bs))) == bs
  {
    BytesOfWords(w, bs);
    var ws := Words(w, bs);
    assert HeaderWords(HeaderOf(ws)) == ws;
  }

  /** A complete message at the front is parsed off. */
  lemma ParseFirst(w: Endian, m: Message, rest: seq<byte>)
    requires MessageOk(m)
    ensures Parse(w, Encode(w, m) + rest) == Parsed([m] + Parse(w, rest).messages, Parse(w, rest).rest)
  {
    hide Bytes, Words;
    var h, b := Bytes(w, HeaderWords(m.header)), Bytes(w, m.body);
    var bs := Encode(w, m) + rest;
    HeaderRoundTrip(w, m.header);
    WordsOfBytes(w, m.body);
    assert bs[..HEADER] == h;
    assert Need(w, bs) == Some(HEADER + 4 * |m.body|);
    assert bs[HEADER..HEADER + 4 * |m.body|] == b;
    assert bs[HEADER + 4 * |m.body|..] == rest;
  }

  /** Parsing undoes encoding. */
  lemma {:induction false} ParseEncode(w: Endian, ms: seq<Message>, rest: seq<byte>)
    requires forall m :: m in ms ==> MessageOk(m)
    ensures Parse(w, EncodeAll(w, ms) + rest) == Parsed(ms + Parse(w, rest).messages, Parse(w, rest).rest)
  {
    hide Encode, Parse;
    if ms == [] {
      assert EncodeAll(w, ms) + rest == rest;
    } else {
      assert EncodeAll(w, ms) + rest == Encode(w, ms[0]) + (EncodeAll(w, ms[1..]) + rest);
      ParseFirst(w, ms[0], EncodeAll(w, ms[1..]) + rest);
      ParseEncode(w, ms[1..], rest);
    }
  }

  lemma FirstOfPrefix(w: Endian, a: seq<byte>, b: seq<byte>, n: nat)
    requires Need(w, a) == Some(n) && n <= |a|
    ensures Need(w, a + b) == Some(n) && FirstMessage(w, a + b, n) == FirstMessage(w, a, n)
  {
    assert (a + b)[..HEADER] == a[..HEADER] && (a + b)[HEADER..n] == a[HEADER..n];
  }

  /** What can be parsed off a prefix is parsed off the whole, and the rest goes on. */
  lemma {:induction false} ParseAppend(w: Endian, a: seq<byte>, b: seq<byte>)
    ensures var p := Parse(w, a);
      Parse(w, a + b) == Parsed(p.messages + Parse(w, p.rest + b).messages, Parse(w, p.rest + b).rest)
    decreases |a|
  {
    hide Need, FirstMessage, Parse;
    ParseUnfold(w, a);
    ParseUnfold(w, a + b);
    if HasMessage(w, a) {
      var c, n := a + b, Need(w, a).value;
      FirstOfPrefix(w, a, b, n);
      assert c[n..] == a[n..] + b;
      ParseAppend(w, a[n..], b);
      var p, q := Parse(w, a[n..]), Parse(w, Parse(w, a[n..]).rest + b);
      assert [FirstMessage(w, a, n)] + (p.messages + q.messages) == [FirstMessage(w, a, n)] + p.messages + q.messages;
    }
  }

  /** The message that starts here. */
  function FirstMessage(w: Endian, bs: seq<byte>, need: nat): Message
    requires HEADER <= need <= |bs| && need % 4 == 0
  {
    Message(ReadHeader(w, bs[..HEADER]), Words(w, bs[HEADER..need]))
  }

  lemma EncodeFirst(w: Endian, bs: seq<byte>, need: nat)
    requires Need(w, bs) == Some(need) && need <= |bs|
    ensures HEADER <= need && need % 4 == 0
    ensures MessageOk(FirstMessage(w, bs, need)) && Encode(w, FirstMessage(w, bs, need)) == bs[..need]
  {
    hide Words, Bytes;
    HeaderBytes(w, bs[..HEADER]);
    BytesOfWords(w, bs[HEADER..need]);
    assert bs[..HEADER] + bs[HEADER..need] == bs[..need];
  }

  lemma EncodeCons(w: Endian, m: Message, ms: seq<Message>)
    ensures EncodeAll(w, [m] + ms) == Encode(w, m) + EncodeAll(w, ms)
  {
    assert ([m] + ms)[1..] == ms;
  }

  lemma EncodeNone(w: Endian)
    ensures EncodeAll(w, []) == []
  {
  }

  /** The parsed messages are well formed and, encoded again, give the bytes back. */
  lemma {:induction false} EncodeParse(w: Endian, bs: seq<byte>)
    ensures var p := Parse(w, bs);
      (forall m :: m in p.messages ==> MessageOk(m)) && EncodeAll(w, p.messages) + p.rest == bs
    decreases |bs|
  {
    hide Encode, EncodeAll, MessageOk, FirstMessage, Need, Parse;
    ParseUnfold(w, bs);
    if HasMessage(w, bs) {
      var n := Need(w, bs).value;
      var m := FirstMessage(w, bs, n);
      EncodeFirst(w, bs, n);
      EncodeParse(w, bs[n..]);
      var tail := Parse(w, bs[n..]);
      EncodeCons(w, m, tail.messages);
      assert bs == bs[..n] + bs[n..] == bs[..n] + (EncodeAll(w, tail.messages) + tail.rest);
    } else {
      EncodeNone(w);
    }
  }

  // ---- the resumable reader ----

  /** What one read or write on the socket brings. */
  datatype Transfer = Moved(bytes: seq<byte>) | NotNow | Closed | Failure
  datatype Accepted = Took(n: nat) | TryLater | Gone | WriteError

  /** Never more than asked for; nothing at all means the other side is gone. */
  function Kernel(t: Transfer, want: nat): (k: Transfer)
    ensures k.Moved? ==> t.Moved? && 0 < |k.bytes| <= want && k.bytes <= t.bytes
  {
    if !t.Moved? then t
    else if want == 0 || t.bytes == [] then Closed
    else Moved(t.bytes[..Min(|t.bytes|, want)])
  }

  /** TooLarge: the announced body does not fit; what the program does then is not modelled. */
  datatype Reader =
    | RIdle
    | RHead(got: seq<byte>)
    | RBody(header: Header, part: seq<byte>)
    | RReady(message: Message)
    | RBroken
    | RError
    | TooLarge

  function ReadBody(w: Endian, h: Header, part: seq<byte>, t: Transfer): Reader
    requires |part| <= 4 * h.size
  {
    match Kernel(t, 4 * h.size - |part|)
    case Moved(bs) =>
      if |part| + |bs| == 4 * h.size then RReady(Message(h, Words(w, part + bs))) else RBody(h, part + bs)
    case NotNow => RBody(h, part)
    case Closed => RBroken
    case Failure => RError
  }

  function AfterHeader(w: Endian, head: seq<byte>, t: Transfer): Reader
    requires |head| == HEADER
  {
    var h := ReadHeader(w, head);
    if h.size == 0 then RReady(Message(h, []))
    else if !Fits(h.size) then TooLarge
    else ReadBody(w, h, [], t)
  }

  function ReadHead(w: Endian, got: seq<byte>, t1: Transfer, t2: Transfer): Reader
    requires |got| <= HEADER
  {
    match Kernel(t1, HEADER - |got|)
    case Moved(bs) =>
      if |got| + |bs| < HEADER then RHead(got + bs) else AfterHeader(w, got + bs, t2)
    case NotNow => RHead(got)
    case Closed => RBroken
    case Failure => RError
  }

  predicate ReaderOk(r: Reader) {
    (r.RHead? ==> |r.got| < HEADER) && (r.RBody? ==> |r.part| < 4 * r.header.size && Fits(r.header.size))
  }

  /** One call of read_, with the answers to its first and its second read. */
  function ReadCall(w: Endian, r: Reader, t1: Transfer, t2: Transfer): Reader
    requires ReaderOk(r)
  {
    match r
    case RIdle => ReadHead(w, [], t1, t2)
    case RHead(got) => ReadHead(w, got, t1, t2)
    case RBody(h, part) => ReadBody(w, h, part, t1)
    case TooLarge => TooLarge
    case _ => RError
  }

  function Bringing(k: Transfer): seq<byte> {
    if k.Moved? then k.bytes else []
  }

  function ConsumedAfter(w: Endian, head: seq<byte>, t: Transfer): seq<byte>
    requires |head| == HEADER
  {
    var h := ReadHeader(w, head);
    if h.size == 0 || !Fits(h.size) then [] else Bringing(Kernel(t, 4 * h.size))
  }

  function ConsumedHead(w: Endian, got: seq<byte>, t1: Transfer, t2: Transfer): seq<byte>
    requires |got| <= HEADER
  {
    match Kernel(t1, HEADER - |got|)
    case Moved(bs) => if |got| + |bs| < HEADER then bs else bs + ConsumedAfter(w, got + bs, t2)
    case _ => []
  }

  /** The bytes that call takes from the socket. */
  function Consumed(w: Endian, r: Reader, t1: Transfer, t2: Transfer): seq<byte>
    requires ReaderOk(r)
  {
    match r
    case RIdle => ConsumedHead(w, [], t1, t2)
    case RHead(got) => ConsumedHead(w, got, t1, t2)
    case RBody(h, part) => Bringing(Kernel(t1, 4 * h.size - |part|))
    case RReady(_) => []
    case RBroken => []
    case RError => []
    case TooLarge => []
  }

  /** The caller takes a complete message and makes the reader idle again. */
  datatype Reading = Reading(reader: Reader, delivered: seq<Message>, consumed: seq<byte>)

  function ReadTurn(w: Endian, s: Reading, t1: Transfer, t2: Transfer): Reading
    requires ReaderOk(s.reader)
  {
    var r := ReadCall(w, s.reader, t1, t2);
    var consumed := s.consumed + Consumed(w, s.reader, t1, t2);
    if r.RReady? then Reading(RIdle, s.delivered + [r.message], consumed) else Reading(r, s.delivered, consumed)
  }

  /** The bytes of the message that is being read. */
  function Pending(w: Endian, r: Reader): seq<byte> {
    match r
    case RHead(got) => got
    case RBody(h, part) => Bytes(w, HeaderWords(h)) + part
    case _ => []
  }

  predicate Working(r: Reader) {
    r.RIdle? || r.RHead? || r.RBody?
  }

  /** The reader has delivered what the parser finds in the bytes consumed so far, and
      keeps what the parser leaves over until its connection ends. */
  predicate ReadingOk(w: Endian, s: Reading) {
    && ReaderOk(s.reader) && s.delivered == Parse(w, s.consumed).messages
    && (Working(s.reader) ==> Parse(w, s.consumed).rest == Pending(w, s.reader))
  }

  /** Less than a message cannot be parsed. */
  lemma ParsePending(w: Endian, r: Reader)
    requires Working(r) && ReaderOk(r)
    ensures Parse(w, Pending(w, r)) == Parsed([], Pending(w, r))
  {
    hide Words, Bytes;
    if r.RBody? {
      HeaderRoundTrip(w, r.header);
      var p := Pending(w, r);
      assert p[..HEADER] == Bytes(w, HeaderWords(r.header));
    }
  }

  /** One call of read_: the pending bytes and those it takes make the message it
      completes or the bytes then pending. */
  lemma ReadCallMoves(w: Endian, r: Reader, t1: Transfer, t2: Transfer)
    requires Working(r) && ReaderOk(r)
    ensures Moves(w, Pending(w, r) + Consumed(w, r, t1, t2), ReadCall(w, r, t1, t2))
  {
    hide Moves, ReadHead, ReadBody, ConsumedHead, Kernel, Bytes;
    match r {
      case RIdle =>
        HeadMoves(w, [], t1, t2);
      case RHead(got) =>
        HeadMoves(w, got, t1, t2);
      case RBody(h, part) =>
        BodyMoves(w, h, part, t1);
        var more := Bringing(Kernel(t1, 4 * h.size - |part|));
        assert Bytes(w, HeaderWords(h)) + part + more == Bytes(w, HeaderWords(h)) + (part + more);
      case _ =>
    }
  }

  /** These bytes are now a complete message, or pending, or no message when the
      connection ended. */
  predicate Moves(w: Endian, all: seq<byte>, after: Reader) {
    && ReaderOk(after)
    && (Working(after) ==> Pending(w, after) == all)
    && (if after.RReady? then MessageOk(after.message) && Encode(w, after.message) == all
        else Parse(w, all).messages == [])
  }

  lemma BodyMoves(w: Endian, h: Header, part: seq<byte>, t: Transfer)
    requires |part| < 4 * h.size && Fits(h.size)
    ensures Moves(w, Bytes(w, HeaderWords(h)) + (part + Bringing(Kernel(t, 4 * h.size - |part|))),
      ReadBody(w, h, part, t))
  {
    hide Words, Bytes, Parse;
    var k := Kernel(t, 4 * h.size - |part|);
    if k.Moved? && |part| + |k.bytes| == 4 * h.size {
      BytesOfWords(w, part + k.bytes);
    } else {
      assert part + [] == part;
      ParsePending(w, RBody(h, part + Bringing(k)));
    }
  }

  lemma AfterHeaderMoves(w: Endian, head: seq<byte>, t: Transfer)
    requires |head| == HEADER
    ensures Moves(w, head + ConsumedAfter(w, head, t), AfterHeader(w, head, t))
  {
    hide Words, Bytes, ReadBody, ReadHeader, Kernel;
    var h := ReadHeader(w, head);
    HeaderBytes(w, head);
    if h.size == 0 {
      NoBytes(w);
      assert head + [] == head;
    } else if Fits(h.size) {
      BodyMoves(w, h, [], t);
      var more := Bringing(Kernel(t, 4 * h.size));
      assert [] + more == more;
    } else {
      assert head + [] == head && head[..HEADER] == head;
    }
  }

  lemma HeadMoves(w: Endian, got: seq<byte>, t1: Transfer, t2: Transfer)
    requires |got| < HEADER
    ensures Moves(w, got + ConsumedHead(w, got, t1, t2), ReadHead(w, got, t1, t2))
  {
    hide AfterHeader, ConsumedAfter, Kernel, Encode, Parse;
    var k := Kernel(t1, HEADER - |got|);
    if k.Moved? && |got| + |k.bytes| == HEADER {
      AfterHeaderMoves(w, got + k.bytes, t2);
      var more := ConsumedAfter(w, got + k.bytes, t2);
      assert got + (k.bytes + more) == got + k.bytes + more;
    } else {
      assert got + [] == got;
      ParsePending(w, RHead(got + Bringing(k)));
    }
  }

  lemma NoBytes(w: Endian)
    ensures Bytes(w, []) == []
  {
  }

  /** Every call keeps the reader in step with the parser, however the bytes come. */
  lemma KeepReading(w: Endian, s: Reading, t1: Transfer, t2: Transfer)
    requires ReadingOk(w, s) && Working(s.reader)
    ensures ReadingOk(w, ReadTurn(w, s, t1, t2))
  {
    hide Parse, ReadCall, Consumed, Pending, Encode;
    var r := ReadCall(w, s.reader, t1, t2);
    var more := Consumed(w, s.reader, t1, t2);
    ReadCallMoves(w, s.reader, t1, t2);
    ParseAppend(w, s.consumed, more);
    if r.RReady? {
      var all := Encode(w, r.message);
      ParseFirst(w, r.message, []);
      assert all + [] == all;
      ParseNothing(w);
    } else if Working(r) {
      ParsePending(w, r);
    }
  }

  lemma ParseNothing(w: Endian)
    ensures Parse(w, []) == Parsed([], []) && Pending(w, RIdle) == []
  {
  }

  function ReadRun(w: Endian, ts: seq<(Transfer, Transfer)>): (s: Reading)
    ensures ReadingOk(w, s)
  {
    if ts == [] then
      ParseNothing(w);
      Reading(RIdle, [], [])
    else
      var s := ReadRun(w, ts[..|ts| - 1]);
      if !Working(s.reader) then s
      else
        KeepReading(w, s, ts[|ts| - 1].0, ts[|ts| - 1].1);
        ReadTurn(w, s, ts[|ts| - 1].0, ts[|ts| - 1].1)
  }

  /** In every run of read calls, however the bytes are cut up and whether or not the
      connection has ended, the reader has delivered exactly the messages of the bytes
      it consumed; while it works it holds the rest. */
  lemma ReaderRefinesParse(w: Endian, ts: seq<(Transfer, Transfer)>)
    ensures var s := ReadRun(w, ts);
      && s.delivered == Parse(w, s.consumed).messages && EncodeAll(w, s.delivered) <= s.consumed
      && (Working(s.reader) ==> EncodeAll(w, s.delivered) + Pending(w, s.reader) == s.consumed)
  {
    hide Parse, ReadTurn, Pending, EncodeAll;
    EncodeParse(w, ReadRun(w, ts).consumed);
  }

  /** These are the first of ms, as many as lie completely in the first n bytes of
      their encoding. */
  predicate CompleteIn(w: Endian, got: seq<Message>, ms: seq<Message>, n: nat) {
    && got <= ms && |EncodeAll(w, got)| <= n
    && forall k {:trigger ms[..k]} :: |got| < k <= |ms| ==> |EncodeAll(w, ms[..k])| > n
  }

  /** Fed with a part of encoded messages the reader has delivered exactly those all of
      whose bytes it consumed. */
  lemma ReaderDeliversWhatWasSent(w: Endian, ts: seq<(Transfer, Transfer)>, ms: seq<Message>)
    requires forall m :: m in ms ==> MessageOk(m)
    requires ReadRun(w, ts).consumed <= EncodeAll(w, ms)
    ensures CompleteIn(w, ReadRun(w, ts).delivered, ms, |ReadRun(w, ts).consumed|)
    ensures ReadRun(w, ts).consumed == EncodeAll(w, ms) ==> ReadRun(w, ts).delivered == ms
  {
    hide Parse, ReadRun, EncodeAll, MessageOk;
    var s := ReadRun(w, ts);
    EncodeParse(w, s.consumed);
    PrefixParses(w, s.consumed, ms);
    forall k | |s.delivered| < k <= |ms| ensures |EncodeAll(w, ms[..k])| > |s.consumed| {
      FirstParse(w, s.consumed, ms, k);
    }
    assert ms[..|ms|] == ms;
  }

  lemma PrefixParses(w: Endian, bs: seq<byte>, ms: seq<Message>)
    requires (forall m :: m in ms ==> MessageOk(m)) && bs <= EncodeAll(w, ms)
    ensures Parse(w, bs).messages <= ms
  {
    hide Parse, EncodeAll, MessageOk;
    var all := EncodeAll(w, ms);
    ParseEncode(w, ms, []);
    ParseNothing(w);
    assert all + [] == all && ms + [] == ms;
    ParseAppend(w, bs, all[|bs|..]);
    assert bs + all[|bs|..] == all;
  }

  /** A message whose bytes are all there is parsed. */
  lemma FirstParse(w: Endian, bs: seq<byte>, ms: seq<Message>, k: nat)
    requires (forall m :: m in ms ==> MessageOk(m)) && bs <= EncodeAll(w, ms) && k <= |ms|
    ensures |EncodeAll(w, ms[..k])| <= |bs| ==> k <= |Parse(w, bs).messages|
  {
    hide Parse, EncodeAll, MessageOk;
    var some := EncodeAll(w, ms[..k]);
    assert ms == ms[..k] + ms[k..];
    EncodeConcat(w, ms[..k], ms[k..]);
    if |some| <= |bs| {
      assert some == bs[..|some|];
      ParseEncode(w, ms[..k], bs[|some|..]);
      assert bs == some + bs[|some|..];
    }
  }

  lemma {:induction false} EncodeConcat(w: Endian, a: seq<Message>, b: seq<Message>)
    ensures EncodeAll(w, a + b) == EncodeAll(w, a) + EncodeAll(w, b)
  {
    hide Encode;
    if a == [] {
      assert a + b == b;
    } else {
      EncodeConcat(w, a[1..], b);
      assert (a + b)[1..] == a[1..] + b;
    }
  }

  // ---- the resumable writer ----

  datatype Writer = WIdle | WHead(message: Message, sent: nat) | WBody(message: Message, sent: nat) | WBroken | WError

  predicate WriterOk(x: Writer) {
    && (x.WHead? ==> MessageOk(x.message) && x.sent < HEADER)
    && (x.WBody? ==> MessageOk(x.message) && x.sent < 4 * |x.message.body|)
  }

  predicate WriterWorking(x: Writer) {
    x.WIdle? || x.WHead? || x.WBody?
  }

  function HeadOf(w: Endian, m: Message): seq<byte> { Bytes(w, HeaderWords(m.header)) }

  /** What is still to be sent of the message being written. */
  function Remaining(w: Endian, x: Writer): seq<byte>
    requires WriterOk(x)
  {
    match x
    case WHead(m, k) => HeadOf(w, m)[k..] + Bytes(w, m.body)
    case WBody(m, k) => Bytes(w, m.body)[k..]
    case _ => []
  }

  function WriteBody(w: Endian, m: Message, k: nat, a: Accepted): (Writer, seq<byte>)
    requires MessageOk(m) && k < 4 * |m.body|
  {
    match a
    case Took(n) =>
      var j := k + Min(n, 4 * |m.body| - k);
      if j == k then (WBroken, [])
      else (if j == 4 * |m.body| then WIdle else WBody(m, j), Bytes(w, m.body)[k..j])
    case TryLater => (WBody(m, k), [])
    case Gone => (WBroken, [])
    case WriteError => (WError, [])
  }

  function WriteHead(w: Endian, m: Message, k: nat, a1: Accepted, a2: Accepted): (Writer, seq<byte>)
    requires MessageOk(m) && k < HEADER
  {
    match a1
    case Took(n) =>
      var j := k + Min(n, HEADER - k);
      var out := HeadOf(w, m)[k..j];
      if j == k then (WBroken, [])
      else if j < HEADER then (WHead(m, j), out)
      else if m.body == [] then (WIdle, out)
      else
        var (x, more) := WriteBody(w, m, 0, a2);
        (x, out + more)
    case TryLater => (WHead(m, k), [])
    case Gone => (WBroken, [])
    case WriteError => (WError, [])
  }

  /** One call of write_: the new state and the bytes written. */
  function WriteCall(w: Endian, x: Writer, queue: seq<Message>, a1: Accepted, a2: Accepted)
    : (Writer, seq<Message>, seq<byte>)
    requires WriterOk(x) && forall m :: m in queue ==> MessageOk(m)
  {
    match x
    case WIdle =>
      if queue == [] then (x, queue, [])
      else
        var (y, out) := WriteHead(w, queue[0], 0, a1, a2);
        (y, queue[1..], out)
    case WHead(m, k) =>
      var (y, out) := WriteHead(w, m, k, a1, a2);
      (y, queue, out)
    case WBody(m, k) =>
      var (y, out) := WriteBody(w, m, k, a1);
      (y, queue, out)
    case WBroken => (WError, queue, [])
    case WError => (WError, queue, [])
  }

  /** The writer with its queue, the messages extracted so far, and all bytes written. */
  datatype Writing = Writing(writer: Writer, queue: seq<Message>, extracted: seq<Message>, written: seq<byte>)

  datatype WriteOp = Enqueue(m: Message) | Call(a1: Accepted, a2: Accepted)

  predicate WritingOk(w: Endian, s: Writing) {
    && WriterOk(s.writer)
    && (forall m :: m in s.queue ==> MessageOk(m)) && (forall m :: m in s.extracted ==> MessageOk(m))
    && (WriterWorking(s.writer) ==> s.written + Remaining(w, s.writer) == EncodeAll(w, s.extracted))
    && s.written <= EncodeAll(w, s.extracted)
  }

  function WriteTurn(w: Endian, s: Writing, op: WriteOp): Writing
    requires WritingOk(w, s)
  {
    match op
    case Enqueue(m) => if MessageOk(m) then s.(queue := s.queue + [m]) else s
    case Call(a1, a2) =>
      var (x, queue, out) := WriteCall(w, s.writer, s.queue, a1, a2);
      var taken := s.queue[..|s.queue| - |queue|];
      Writing(x, queue, s.extracted + taken, s.written + out)
  }

  lemma CutTwice(b: seq<byte>, k: nat, j: nat)
    requires k <= j <= |b|
    ensures b[k..j] + b[j..] == b[k..] && b[k..j] <= b[k..]
  {
  }

  lemma WriteBodyMoves(w: Endian, m: Message, k: nat, a: Accepted)
    requires MessageOk(m) && k < 4 * |m.body|
    ensures var (x, out) := WriteBody(w, m, k, a);
      var before := Bytes(w, m.body)[k..];
      WriterOk(x) && out <= before && (WriterWorking(x) ==> out + Remaining(w, x) == before)
  {
    hide Bytes, MessageOk;
    var b := Bytes(w, m.body);
    var (x, out) := WriteBody(w, m, k, a);
    if a.Took? && x != WBroken {
      var j := k + Min(a.n, |b| - k);
      CutTwice(b, k, j);
      assert out == b[k..j] && Remaining(w, x) == b[j..];
    } else {
      assert out == [] && [] + b[k..] == b[k..];
    }
  }

  lemma BehindFirst(out: seq<byte>, more: seq<byte>, rest: seq<byte>, b: seq<byte>)
    requires more + rest == b
    ensures out + more + rest == out + b && out + more <= out + b
  {
    assert out + more + rest == out + (more + rest);
  }

  lemma WriteHeadMoves(w: Endian, m: Message, k: nat, a1: Accepted, a2: Accepted)
    requires MessageOk(m) && k < HEADER
    ensures var (x, out) := WriteHead(w, m, k, a1, a2);
      var before := HeadOf(w, m)[k..] + Bytes(w, m.body);
      WriterOk(x) && out <= before && (WriterWorking(x) ==> out + Remaining(w, x) == before)
  {
    hide Bytes, WriteBody;
    var h, b := HeadOf(w, m), Bytes(w, m.body);
    if a1.Took? {
      var j := k + Min(a1.n, HEADER - k);
      var out := h[k..j];
      assert out + (h[j..] + b) == h[k..] + b;
      if j == HEADER && m.body != [] {
        WriteBodyMoves(w, m, 0, a2);
        var (x, more) := WriteBody(w, m, 0, a2);
        assert b[0..] == b && out == h[k..];
        if WriterWorking(x) {
          BehindFirst(out, more, Remaining(w, x), b);
        } else {
          BehindFirst(out, more, b[|more|..], b);
        }
      }
    } else {
      assert [] + (h[k..] + b) == h[k..] + b;
    }
  }

  /** One call moves bytes from what remains to what is written, taking the next
      message from the queue when it had finished the last. */
  lemma WriteCallMoves(w: Endian, x: Writer, queue: seq<Message>, a1: Accepted, a2: Accepted)
    requires WriterOk(x) && WriterWorking(x) && forall m :: m in queue ==> MessageOk(m)
    ensures var (y, rest, out) := WriteCall(w, x, queue, a1, a2);
      var taken := queue[..|queue| - |rest|];
      var before := Remaining(w, x) + EncodeAll(w, taken);
      && |rest| <= |queue| && queue == taken + rest
      && WriterOk(y) && out <= before && (WriterWorking(y) ==> out + Remaining(w, y) == before)
  {
    hide WriteHead, WriteBody, Bytes;
    match x {
      case WIdle =>
        if queue != [] {
          WriteHeadMoves(w, queue[0], 0, a1, a2);
          var h := HeadOf(w, queue[0]);
          assert h[0..] == h;
          EncodeCons(w, queue[0], []);
          EncodeNone(w);
          assert queue[..1] == [queue[0]] + [];
          assert Encode(w, queue[0]) + [] == Encode(w, queue[0]);
        }
      case WHead(m, k) =>
        WriteHeadMoves(w, m, k, a1, a2);
        EncodeNone(w);
        assert Remaining(w, x) + [] == Remaining(w, x);
      case WBody(m, k) =>
        WriteBodyMoves(w, m, k, a1);
        EncodeNone(w);
        assert Remaining(w, x) + [] == Remaining(w, x);
    }
  }

  lemma KeepWriting(w: Endian, s: Writing, op: WriteOp)
    requires WritingOk(w, s) && WriterWorking(s.writer)
    ensures WritingOk(w, WriteTurn(w, s, op))
  {
    hide WriteCall, EncodeAll, Remaining, WriterOk;
    if op.Call? {
      WriteCallMoves(w, s.writer, s.queue, op.a1, op.a2);
      var (y, rest, out) := WriteCall(w, s.writer, s.queue, op.a1, op.a2);
      var taken := s.queue[..|s.queue| - |rest|];
      EncodeConcat(w, s.extracted, taken);
      var before := Remaining(w, s.writer) + EncodeAll(w, taken);
      assert EncodeAll(w, s.extracted + taken) == s.written + before;
      if WriterWorking(y) {
        assert s.written + out + Remaining(w, y) == s.written + (out + Remaining(w, y));
      }
    }
  }

  function WriteRun(w: Endian, ops: seq<WriteOp>): (s: Writing)
    ensures WritingOk(w, s)
  {
    if ops == [] then Writing(WIdle, [], [], [])
    else
      var s := WriteRun(w, ops[..|ops| - 1]);
      if !WriterWorking(s.writer) then s
      else
        KeepWriting(w, s, ops[|ops| - 1]);
        WriteTurn(w, s, ops[|ops| - 1])
  }

  /** All messages given to the writer, in order. */
  function Enqueued(ops: seq<WriteOp>): seq<Message> {
    if ops == [] then []
    else
      var op := ops[|ops| - 1];
      Enqueued(ops[..|ops| - 1]) + if op.Enqueue? && MessageOk(op.m) then [op.m] else []
  }

  /** A turn of the writer only moves messages from the queue to those extracted. */
  lemma TurnKeepsOrder(w: Endian, s: Writing, op: WriteOp)
    requires WritingOk(w, s) && WriterWorking(s.writer)
    ensures var t := WriteTurn(w, s, op);
      t.extracted + t.queue == s.extracted + s.queue + if op.Enqueue? && MessageOk(op.m) then [op.m] else []
  {
    hide WriteCall, EncodeAll, Remaining, WriterOk, MessageOk;
    if op.Call? {
      WriteCallMoves(w, s.writer, s.queue, op.a1, op.a2);
    }
  }

  /** What is extracted and then what is queued are the first messages given to the
      writer, and all of them as long as it works. */
  lemma {:induction false} WriterKeepsOrder(w: Endian, ops: seq<WriteOp>)
    ensures var s := WriteRun(w, ops);
      s.extracted + s.queue <= Enqueued(ops) && (WriterWorking(s.writer) ==> s.extracted + s.queue == Enqueued(ops))
  {
    hide WriteTurn, WritingOk, MessageOk;
    if ops != [] {
      var s := WriteRun(w, ops[..|ops| - 1]);
      WriterKeepsOrder(w, ops[..|ops| - 1]);
      if WriterWorking(s.writer) {
        TurnKeepsOrder(w, s, ops[|ops| - 1]);
      }
    }
  }

  /** End to end, also when either side's connection has ended: a reader that has
      consumed a part of what a writer has written, both cut up in any way, has
      delivered exactly those of the extracted messages all of whose bytes it consumed,
      unchanged and in order; once everything extracted is written and read, it has
      delivered all of those. */
  lemma ReaderGetsWhatWriterSent(w: Endian, ops: seq<WriteOp>, ts: seq<(Transfer, Transfer)>)
    requires ReadRun(w, ts).consumed <= WriteRun(w, ops).written
    ensures var sent, got := WriteRun(w, ops), ReadRun(w, ts);
      && CompleteIn(w, got.delivered, sent.extracted, |got.consumed|) && sent.extracted <= Enqueued(ops)
      && (sent.writer.WIdle? && got.consumed == sent.written ==> got.delivered == sent.extracted)
  {
    hide WriteRun, ReadRun, EncodeAll, Enqueued, CompleteIn;
    var sent := WriteRun(w, ops);
    WriterKeepsOrder(w, ops);
    assert sent.written <= EncodeAll(w, sent.extracted);
    ReaderDeliversWhatWasSent(w, ts, sent.extracted);
    if sent.writer.WIdle? {
      assert sent.written + [] == sent.written;
    }
  }
}
