/**
  commu/commu_io.cc in its own form: one object that is stepped by read_ or write_,
  with the message in word arrays that the socket fills and drains byte by byte and
  that are converted in place on a far link.  Both methods are proved to do what the
  reader and the writer of module MessageIo do.
*/
module MessageIoLoop {
  import opened Util
  import opened ByteOrder
  import Memory
  import List = MessageList
  import M = MessageIo

  /** TooLarge stands for a body whose byte count does not fit; see MessageIo.Reader. */
  datatype Status = Idle | Ready | Head | Body | Error | Broken | TooLarge

  /** On a far link memory holds network order until it is converted. */
  function Plain(host: Endian, far: bool, ws: seq<word>): (r: seq<word>)
    ensures |r| == |ws|
  {
    if far then SwapAll(host, ws) else ws
  }

  /** Converting the words the host sees in received bytes gives the words sent. */
  lemma PlainReads(host: Endian, far: bool, ws: seq<word>, bs: seq<byte>)
    requires Bytes(host, ws) == bs
    ensures Plain(host, far, ws) == Words(M.Wire(host, far), bs)
  {
    hide Bytes, Words, Swap;
    if far {
      SwapReads(host, ws);
    } else {
      WordsOfBytes(host, ws);
    }
  }

  /** Memory converted for a far link holds what is to be sent. */
  lemma PlainSends(host: Endian, far: bool, ws: seq<word>)
    ensures Bytes(host, ws) == Bytes(M.Wire(host, far), Plain(host, far, ws))
  {
    hide Bytes, Swap;
    if far {
      SwappedBytes(host, SwapAll(host, ws));
      SwapAllInvolution(host, ws);
    }
  }

  class Io {
    const host: Endian
    const far: bool
    var status: Status
    var idx: nat
    var size: nat
    var header: array<word>
    var body: array<word>

    constructor (host: Endian, far: bool)
      ensures this.host == host && this.far == far && fresh(header) && fresh(body)
      ensures ReadOk() && Reading() == M.RIdle
      ensures WriteOk() && Writing() == M.WIdle
    {
      this.host, this.far := host, far;
      status, idx, size := Idle, 0, 0;
      header, body := new word[6], new word[0];
    }

    // ---- reading ----

    ghost predicate ReadOk()
      reads this, header, body
    {
      && header.Length == 6 && header != body
      && (status.Head? ==> idx < M.HEADER && body.Length == 0)
      && (status.Body? ==> body.Length == header[0] && M.Fits(header[0]) && size == 4 * body.Length && idx < size)
    }

    ghost function Reading(): M.Reader
      reads this, header, body
      requires ReadOk()
    {
      match status
      case Idle => M.RIdle
      case Head => M.RHead(Bytes(host, header[..])[..idx])
      case Body => M.RBody(M.HeaderOf(header[..]), Bytes(host, body[..])[..idx])
      case Ready => M.RReady(M.Message(M.HeaderOf(header[..]), body[..]))
      case Error => M.RError
      case Broken => M.RBroken
      case TooLarge => M.TooLarge
    }

    /** read_it: one read to byte idx of dest. */
    method ReadIt(t: M.Transfer, want: nat, dest: array<word>) returns (res: int)
      requires idx <= want <= 4 * dest.Length
      modifies this`idx, dest
      ensures idx <= want
      ensures match M.Kernel(t, want - old(idx))
        case Moved(bs) =>
          res == 0 && idx == old(idx) + |bs| && Bytes(host, dest[..])[..idx] == old(Bytes(host, dest[..])[..idx]) + bs
        case NotNow => res == 0 && idx == old(idx) && dest[..] == old(dest[..])
        case Closed => res == -2
        case Failure => res == -1
    {
      hide Bytes;
      match M.Kernel(t, want - idx) {
        case Moved(bs) =>
          Memory.CopyIn(host, dest, idx, bs);
          idx := idx + |bs|;
          return 0;
        case NotNow => return 0;
        case Closed => return -2;
        case Failure => return -1;
      }
    }

    /** The conversion of received words on a far link. */
    method Convert(a: array<word>)
      modifies a
      ensures a[..] == Words(M.Wire(host, far), old(Bytes(host, a[..])))
    {
      hide Bytes, Words, Swap;
      PlainReads(host, far, a[..], Bytes(host, a[..]));
      if far {
        SwapInPlace(host, a, 0, a.Length);
      }
    }

    /** The iost_header case; true if the body is to be read at once. */
    method ReadHeader(t: M.Transfer) returns (again: bool)
      requires ReadOk() && status.Head?
      modifies this, header
      ensures ReadOk() && header == old(header) && (body == old(body) || fresh(body))
      ensures again ==> status.Body? && idx == 0
      ensures var got := old(Bytes(host, header[..])[..idx]);
        forall t2 :: M.ReadHead(M.Wire(host, far), got, t, t2)
          == if again then M.ReadBody(M.Wire(host, far), M.HeaderOf(header[..]), [], t2) else Reading()
    {
      hide Bytes, Words, Swap, M.ReadBody, M.Kernel;
      var res := ReadIt(t, M.HEADER, header);
      if res < 0 {
        status := if res == -2 then Broken else Error;
        return false;
      }
      if idx < M.HEADER {
        return false;
      }
      assert Bytes(host, header[..])[..idx] == Bytes(host, header[..]);
      Convert(header);
      if header[0] == 0 {
        status := Ready;
        return false;
      }
      if !M.Fits(header[0]) {
        status := TooLarge;
        return false;
      }
      size, idx, status := header[0] * 4, 0, Body;
      body := new word[header[0]];
      return true;
    }

    /** The iost_body case. */
    method ReadBody(t: M.Transfer)
      requires ReadOk() && status.Body?
      modifies this, body
      ensures ReadOk() && header == old(header) && body == old(body)
      ensures Reading() == M.ReadBody(M.Wire(host, far), old(M.HeaderOf(header[..])),
        old(Bytes(host, body[..])[..idx]), t)
    {
      hide Bytes, Words, Swap, M.Kernel;
      var res := ReadIt(t, size, body);
      if res < 0 {
        status := if res == -2 then Broken else Error;
        return;
      }
      if idx == size {
        assert Bytes(host, body[..])[..idx] == Bytes(host, body[..]);
        Convert(body);
        status := Ready;
      }
    }

    /** The header, and the body at once if the header is complete. */
    method ReadOn(t1: M.Transfer, t2: M.Transfer)
      requires ReadOk() && status.Head?
      modifies this, header
      ensures ReadOk() && header == old(header) && (body == old(body) || fresh(body))
      ensures Reading() == M.ReadHead(M.Wire(host, far), old(Bytes(host, header[..])[..idx]), t1, t2)
    {
      hide Bytes, Words, M.ReadHead, M.ReadBody;
      var again := ReadHeader(t1);
      if again {
        assert Bytes(host, body[..])[..0] == [];
        ReadBody(t2);
      }
    }

    method Read(t1: M.Transfer, t2: M.Transfer)
      requires ReadOk()
      modifies this, header, body
      ensures ReadOk() && (header == old(header) || fresh(header)) && (body == old(body) || fresh(body))
      ensures Reading() == M.ReadCall(M.Wire(host, far), old(Reading()), t1, t2)
    {
      hide Bytes, Words, M.ReadHead, M.ReadBody;
      match status {
        case Idle =>
          idx, status := 0, Head;
          header, body := new word[6], new word[0];
          assert Bytes(host, header[..])[..idx] == [];
          ReadOn(t1, t2);
        case Head => ReadOn(t1, t2);
        case Body => ReadBody(t1);
        case TooLarge =>
        case Ready => status := Error;
        case Error => status := Error;
        case Broken => status := Error;
      }
    }

    // ---- writing ----

    /** The message as it was before conversion. */
    ghost function Original(): M.Message
      reads this, header, body
      requires header.Length == 6
    {
      M.Message(M.HeaderOf(Plain(host, far, header[..])), Plain(host, far, body[..]))
    }

    ghost predicate WriteOk()
      reads this, header, body
    {
      && header.Length == 6 && header != body
      && (status.Head? ==> idx < M.HEADER && M.MessageOk(Original()) && size == 4 * body.Length)
      && (status.Body? ==> M.MessageOk(Original()) && size == 4 * body.Length && idx < size)
      && !status.Ready? && !status.TooLarge?
    }

    ghost function Writing(): M.Writer
      reads this, header, body
      requires WriteOk()
    {
      match status
      case Idle => M.WIdle
      case Head => M.WHead(Original(), idx)
      case Body => M.WBody(Original(), idx)
      case Error => M.WError
      case Broken => M.WBroken
    }

    /** write_it: one write from byte idx of source. */
    method WriteIt(a: M.Accepted, want: nat, source: array<word>) returns (res: int, out: seq<byte>)
      requires idx < want == 4 * source.Length
      modifies this`idx
      ensures idx <= want
      ensures match a
        case Took(n) =>
          var j := old(idx) + Min(n, want - old(idx));
          if j == old(idx) then res == -2 && out == []
          else res == 0 && idx == j && out == Bytes(host, source[..])[old(idx)..j]
        case TryLater => res == 0 && idx == old(idx) && out == []
        case Gone => res == -2 && out == []
        case WriteError => res == -1 && out == []
    {
      match a {
        case Took(n) =>
          var j := idx + Min(n, want - idx);
          if j == idx {
            return -2, [];
          }
          out := Bytes(host, source[..])[idx..j];
          idx := j;
          return 0, out;
        case TryLater => return 0, [];
        case Gone => return -2, [];
        case WriteError => return -1, [];
      }
    }

    /** The iost_header case; true if the body is to be written at once. */
    method WriteHeader(a: M.Accepted) returns (again: bool, out: seq<byte>)
      requires WriteOk() && status.Head?
      modifies this
      ensures WriteOk() && header == old(header) && body == old(body)
      ensures again ==> status.Body? && idx == 0 && Original() == old(Original())
      ensures var m := old(Original());
        forall a2 :: M.WriteHead(M.Wire(host, far), m, old(idx), a, a2)
          == if again then var (x, more) := M.WriteBody(M.Wire(host, far), m, 0, a2); (x, out + more)
             else (Writing(), out)
    {
      hide Bytes, Swap, M.WriteBody;
      ghost var m := Original();
      PlainSends(host, far, header[..]);
      assert M.HeaderWords(m.header) == Plain(host, far, header[..]);
      var res;
      res, out := WriteIt(a, M.HEADER, header);
      if res < 0 {
        status := if res == -2 then Broken else Error;
        return false, out;
      }
      if idx < M.HEADER {
        return false, out;
      }
      if size == 0 {
        status := Idle;
        return false, out;
      }
      idx, status := 0, Body;
      return true, out;
    }

    /** The iost_body case. */
    method WriteBody(a: M.Accepted) returns (out: seq<byte>)
      requires WriteOk() && status.Body?
      modifies this
      ensures WriteOk() && header == old(header) && body == old(body)
      ensures (Writing(), out) == M.WriteBody(M.Wire(host, far), old(Original()), old(idx), a)
    {
      hide Bytes, Swap;
      PlainSends(host, far, body[..]);
      var res;
      res, out := WriteIt(a, size, body);
      if res < 0 {
        status := if res == -2 then Broken else Error;
        return;
      }
      if idx == size {
        status := Idle;
      }
    }

    /** The conversion of words to be sent on a far link. */
    method ToWire(a: array<word>)
      modifies a
      ensures Plain(host, far, a[..]) == old(a[..])
    {
      hide Swap;
      SwapAllInvolution(host, a[..]);
      if far {
        SwapInPlace(host, a, 0, a.Length);
      }
    }

    /** Puts a message into memory and converts it in place for a far link. */
    method Prepare(m: M.Message)
      requires M.MessageOk(m)
      modifies this
      ensures fresh(header) && fresh(body) && WriteOk() && status.Head? && idx == 0 && Original() == m
    {
      hide Plain;
      header := new word[] [m.header.size, m.header.client, m.header.ved, m.header.reqtype, m.header.flags,
        m.header.transid];
      body := new word[|m.body|](i requires 0 <= i < |m.body| => m.body[i]);
      idx, size, status := 0, m.header.size * 4, Head;
      assert header[..] == M.HeaderWords(m.header) && body[..] == m.body;
      ToWire(body);
      ToWire(header);
    }

    /** The header, and the body at once if the header is written. */
    method WriteOn(a1: M.Accepted, a2: M.Accepted) returns (out: seq<byte>)
      requires WriteOk() && status.Head?
      modifies this
      ensures WriteOk() && header == old(header) && body == old(body)
      ensures (Writing(), out) == M.WriteHead(M.Wire(host, far), old(Original()), old(idx), a1, a2)
    {
      hide Bytes, Plain, M.WriteHead, M.WriteBody;
      var again;
      again, out := WriteHeader(a1);
      if again {
        var more := WriteBody(a2);
        out := out + more;
      }
    }

    method Write(list: List.List<M.Message>, a1: M.Accepted, a2: M.Accepted) returns (out: seq<byte>)
      requires WriteOk() && list.Valid() && forall m :: m in list.Items() ==> M.MessageOk(m)
      modifies this, list, list.list
      ensures WriteOk() && list.Valid() && (list.list == old(list.list) || fresh(list.list))
      ensures (header == old(header) || fresh(header)) && (body == old(body) || fresh(body))
      ensures (Writing(), list.Items(), out)
           == M.WriteCall(M.Wire(host, far), old(Writing()), old(list.Items()), a1, a2)
    {
      hide Bytes, Plain, M.WriteHead, M.WriteBody, M.MessageOk;
      match status {
        case Idle =>
          var first := list.ExtractFirst();
          if first.None? {
            return [];
          }
          Prepare(first.value);
          out := WriteOn(a1, a2);
        case Head => out := WriteOn(a1, a2);
        case Body => out := WriteBody(a1);
        case Error => status, out := Error, [];
        case Broken => status, out := Error, [];
      }
    }
  }

  // ---- runs ----

  /** Any calls of read_ on a new object, its caller taking every complete message, do
      what the reader's run does. */
  method ReadAll(host: Endian, far: bool, ts: seq<(M.Transfer, M.Transfer)>)
    returns (io: Io, got: seq<M.Message>, ghost consumed: seq<byte>)
    ensures io.ReadOk() && M.Reading(io.Reading(), got, consumed) == M.ReadRun(M.Wire(host, far), ts)
  {
    hide Bytes, Words, M.ReadCall, M.Consumed, M.ReadingOk;
    io := new Io(host, far);
    got, consumed := [], [];
    var i := 0;
    while i < |ts|
      invariant 0 <= i <= |ts| && fresh(io) && fresh(io.header) && fresh(io.body)
      invariant io.host == host && io.far == far && io.ReadOk()
      invariant M.Reading(io.Reading(), got, consumed) == M.ReadRun(M.Wire(host, far), ts[..i])
    {
      assert ts[..i + 1][..i] == ts[..i];
      if io.status.Idle? || io.status.Head? || io.status.Body? {
        ghost var before := io.Reading();
        io.Read(ts[i].0, ts[i].1);
        consumed := consumed + M.Consumed(M.Wire(host, far), before, ts[i].0, ts[i].1);
        if io.status.Ready? {
          got := got + [M.Message(M.HeaderOf(io.header[..]), io.body[..])];
          io.status := Idle;
        }
      }
      i := i + 1;
    }
    assert ts[..i] == ts;
  }

  /** A message is queued or write_ is called. */
  method WriteTurn(io: Io, list: List.List<M.Message>, op: M.WriteOp, ghost s: M.Writing) returns (out: seq<byte>)
    requires io.WriteOk() && list.Valid() && M.WritingOk(M.Wire(io.host, io.far), s)
    requires io.Writing() == s.writer && list.Items() == s.queue && M.WriterWorking(s.writer)
    requires {io, io.header, io.body} !! {list, list.list}
    modifies io, list, list.list
    ensures io.WriteOk() && list.Valid() && (list.list == old(list.list) || fresh(list.list))
    ensures (io.header == old(io.header) || fresh(io.header)) && (io.body == old(io.body) || fresh(io.body))
    ensures {io, io.header, io.body} !! {list, list.list}
    ensures var t := M.WriteTurn(M.Wire(io.host, io.far), s, op);
      io.Writing() == t.writer && list.Items() == t.queue && s.written + out == t.written
  {
    hide Bytes, Plain, M.WriteCall, M.MessageOk, M.EncodeAll, M.Remaining, M.WriterOk;
    out := [];
    match op {
      case Enqueue(m) =>
        if M.MessageOk(m) {
          list.Insert(m);
        }
      case Call(a1, a2) =>
        M.WriteCallMoves(M.Wire(io.host, io.far), s.writer, s.queue, a1, a2);
        out := io.Write(list, a1, a2);
    }
  }

  /** Any messages queued and any calls of write_ on a new object, until its connection
      ends, do what the writer's run does. */
  method WriteAll(host: Endian, far: bool, growsize: nat, ops: seq<M.WriteOp>)
    returns (io: Io, list: List.List<M.Message>, out: seq<byte>)
    requires growsize > 0
    ensures io.WriteOk() && list.Valid()
    ensures var s := M.WriteRun(M.Wire(host, far), ops);
      io.Writing() == s.writer && list.Items() == s.queue && out == s.written
  {
    hide Bytes, Plain, M.WriteTurn, M.WritingOk, M.MessageOk;
    io := new Io(host, far);
    list := new List.List<M.Message>(growsize, 0, 1);
    out := [];
    ghost var s := M.WriteRun(M.Wire(host, far), []);
    var i := 0;
    while i < |ops|
      invariant 0 <= i <= |ops| && fresh(io) && fresh(list) && fresh(list.list)
      invariant io.host == host && io.far == far && io.WriteOk() && list.Valid()
      invariant {io, io.header, io.body} !! {list, list.list}
      invariant s == M.WriteRun(M.Wire(host, far), ops[..i])
      invariant io.Writing() == s.writer && list.Items() == s.queue && out == s.written
    {
      assert ops[..i + 1][..i] == ops[..i];
      if io.status.Idle? || io.status.Head? || io.status.Body? {
        var more := WriteTurn(io, list, ops[i], s);
        out := out + more;
      }
      i := i + 1;
      s := M.WriteRun(M.Wire(host, far), ops[..i]);
    }
    assert ops[..i] == ops;
  }
}
