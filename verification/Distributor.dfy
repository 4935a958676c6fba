/**
  The cluster distributor of events/event_distributor.c as a state machine.

  One producer sends length-framed clusters; every cluster is read into one
  reference-counted buffer that all idle consumers share, and each consumer
  drains it at its own pace.  DistributorTurn.Step is one turn of main_loop.  What the
  operating system decides (which descriptors are ready, how much a read or
  write moves, errors, new connections, where malloc places a block) comes in
  as an `Env`.  An answer no kernel can give is read as the nearest it can: a
  transfer is cut to the size asked for, and a "new" descriptor or block that is
  still in use counts as a failed call.

  Memory is an explicit map from addresses to live blocks, so that a double
  `free` or a use after `free` is a violated precondition.
*/
module Distributor {
  import opened Util
  import opened ByteOrder

  type Addr = nat

  datatype SwapMode = Check | Always | Never
  datatype InMode = ConnectMode | AcceptMode | StdinMode

  /** Options, and the descriptor on which consumers connect. */
  datatype Config = Config(host: Endian, oldFormat: bool, swap: SwapMode, mode: InMode, closeOld: bool, listener: int)

  /** A malloc'd cluster buffer; its size is |data|. */
  datatype Buffer = Buffer(data: seq<byte>, users: nat)

  datatype Input = Input(buf: Option<Addr>, head: seq<byte>, position: nat, valid: bool)

  /** A consumer.  `sent` and `taken` (the numbers of the clusters handed to it)
      only record history. */
  datatype Sock = Sock(p: int, buf: Option<Addr>, position: nat, sent: seq<byte>, taken: seq<nat>)

  /** Record of a run: what the earlier input connections delivered (those that
      delivered anything), what the present one did, how many clusters were complete
      before it, all completed clusters, how many of them found no taker, and the
      calls of malloc and free for buffers. */
  datatype History = History(past: seq<seq<byte>>, conn: seq<byte>, base: nat, clusters: seq<seq<byte>>,
                             unused: nat, allocs: nat, frees: nat)

  /** Overrun: a header announced a cluster shorter than the header itself and the
      program has written past its block; nothing is promised after that. */
  datatype Phase = Running | Returned | Overrun

  datatype State = State(mem: map<Addr, Buffer>, socks: seq<Sock>, input: Input, insock: int, insockL: int,
                         phase: Phase, hist: History)

  // ---- what the environment answers ----

  datatype Read = Data(bytes: seq<byte>) | Eof | Interrupted | WouldBlock | ReadFailed
  datatype Write = Sent(n: nat) | WriteInterrupted | WriteFailed
  datatype Malloc = Malloc(at: Addr, fill: nat -> byte) | NoMemory
  datatype Select = SomeReady | Nothing | SelectFailed

  datatype Env = Env(select: Select, readable: set<int>, writable: set<int>, writes: int -> Write,
                     request: int, connected: bool, acceptIn: int, acceptOut: int, sockRoom: bool,
                     read1: Read, read2: Read, malloc: Malloc)

  function Kernel(r: Read, want: nat): (k: Read)
    ensures k.Data? ==> r.Data? && 0 < |k.bytes| <= want && k.bytes <= r.bytes
  {
    if !r.Data? then r
    else if want == 0 || r.bytes == [] then Eof
    else Data(r.bytes[..Min(|r.bytes|, want)])
  }

  // ---- framing ----

  function HeaderSize(cfg: Config): nat {
    if cfg.oldFormat then 4 else 8
  }

  /** The number of bytes of the cluster this header starts, if it is a header. */
  function Announced(cfg: Config, head: seq<byte>): Option<nat>
    requires |head| == HeaderSize(cfg)
  {
    var w := Load(cfg.host, head[..4]);
    var words: Option<word> :=
      if cfg.oldFormat then
        match cfg.swap
        case Check => if w >= 0x1_0000 then Some(Reversed(w)) else Some(w)
        case Always => Some(Reversed(w))
        case Never => Some(w)
      else
        var test := Load(cfg.host, head[4..]);
        if test == 0x12345678 then Some(w)
        else if test == 0x78563412 then Some(Reversed(w))
        else None;
    match words
    case None => None
    case Some(n) => Some((n + 1) * 4)
  }

  /** The header of d announces exactly d. */
  predicate Framed(cfg: Config, d: seq<byte>) {
    |d| >= HeaderSize(cfg) && Announced(cfg, d[..HeaderSize(cfg)]) == Some(|d|)
  }

  /** No more than a proper part of a cluster: the header is incomplete or announces
      more than there is (or no more than itself, which the next read refuses). */
  predicate Partial(cfg: Config, p: seq<byte>) {
    var H := HeaderSize(cfg);
    |p| < H ||
    match Announced(cfg, p[..H])
    case None => true
    case Some(n) => n > |p| || n <= H
  }

  /** The clusters a byte stream starts with, and what follows them. */
  function Clusters(cfg: Config, p: seq<byte>): seq<seq<byte>>
    decreases |p|
  {
    if Partial(cfg, p) then []
    else
      var n := Announced(cfg, p[..HeaderSize(cfg)]).value;
      [p[..n]] + Clusters(cfg, p[n..])
  }

  function Rest(cfg: Config, p: seq<byte>): seq<byte>
    decreases |p|
  {
    if Partial(cfg, p) then p else Rest(cfg, p[Announced(cfg, p[..HeaderSize(cfg)]).value..])
  }

  /** The clusters of several byte streams. */
  function AllClusters(cfg: Config, streams: seq<seq<byte>>): seq<seq<byte>> {
    if streams == [] then []
    else AllClusters(cfg, streams[..|streams| - 1]) + Clusters(cfg, streams[|streams| - 1])
  }

  // ---- counting ----

  function Users(socks: seq<Sock>, a: Addr): nat {
    if socks == [] then 0 else (if socks[0].buf == Some(a) then 1 else 0) + Users(socks[1..], a)
  }

  function Idle(socks: seq<Sock>): nat {
    if socks == [] then 0 else (if socks[0].buf.None? then 1 else 0) + Idle(socks[1..])
  }

  // ---- the operations ----

  function Free(s: State, a: Addr): State
    requires a in s.mem
  {
    s.(mem := s.mem - {a}, hist := s.hist.(frees := s.hist.frees + 1))
  }

  /** One user leaves; the last one frees the buffer. */
  function Release(s: State, a: Addr): State
    requires a in s.mem && s.mem[a].users > 0
  {
    var left := s.mem[a].(users := s.mem[a].users - 1);
    if left.users == 0 then Free(s, a) else s.(mem := s.mem[a := left])
  }

  function ClearInput(s: State): State
    requires s.input.buf.Some? ==> s.input.buf.value in s.mem
  {
    var freed := if s.input.buf.Some? && s.mem[s.input.buf.value].users == 0 then Free(s, s.input.buf.value) else s;
    freed.(input := s.input.(buf := None, position := 0, valid := false))
  }

  function ReadBody(s: State, r: Read): (State, bool)
    requires s.input.buf.Some? && s.input.buf.value in s.mem
    requires s.input.position <= |s.mem[s.input.buf.value].data|
  {
    var a := s.input.buf.value;
    var d := s.mem[a].data;
    match Kernel(r, |d| - s.input.position)
    case Data(bs) =>
      var d' := Splice(d, s.input.position, bs);
      var pos := s.input.position + |bs|;
      (s.(mem := s.mem[a := s.mem[a].(data := d')],
          input := s.input.(position := pos, valid := s.input.valid || pos >= |d|),
          hist := s.hist.(conn := s.hist.conn + bs)), true)
    case Interrupted => (s, true)
    case WouldBlock => (s, true)
    case _ => (s, false)
  }

  function GotHeadBytes(s: State, bs: seq<byte>): State
    requires s.input.position + |bs| <= |s.input.head|
  {
    s.(input := s.input.(head := Splice(s.input.head, s.input.position, bs), position := s.input.position + |bs|),
       hist := s.hist.(conn := s.hist.conn + bs))
  }

  /** The header is complete: allocate the buffer and put the header into it. */
  function StartCluster(cfg: Config, s: State, m: Malloc): (State, bool)
    requires |s.input.head| == 8
  {
    var H := HeaderSize(cfg);
    match Announced(cfg, s.input.head[..H])
    case None => (s, false)
    case Some(n) =>
      if m.NoMemory? || m.at in s.mem then (s, false)
      else if n < H then (s.(phase := Overrun), true)
      else
        var d := s.input.head[..H] + seq(n - H, i requires 0 <= i < n - H => m.fill(i));
        (s.(mem := s.mem[m.at := Buffer(d, 0)],
            input := s.input.(buf := Some(m.at), position := H),
            hist := s.hist.(allocs := s.hist.allocs + 1)), true)
  }

  function DoRead(cfg: Config, s: State, e: Env): (State, bool)
    requires |s.input.head| == 8
    requires s.input.buf.None? ==> s.input.position < HeaderSize(cfg)
    requires s.input.buf.Some? ==> s.input.buf.value in s.mem && s.input.position <= |s.mem[s.input.buf.value].data|
  {
    if s.input.buf.Some? then ReadBody(s, e.read1)
    else
      match Kernel(e.read1, HeaderSize(cfg) - s.input.position)
      case Data(bs) =>
        var s1 := GotHeadBytes(s, bs);
        if s1.input.position < HeaderSize(cfg) then (s1, true)
        else
          var (s2, ok) := StartCluster(cfg, s1, e.malloc);
          if !ok || s2.phase.Overrun? then (s2, ok) else ReadBody(s2, e.read2)
      case Interrupted => (s, true)
      case _ => (s, false)
  }

  /** The socket after `done` bytes of its cluster; the buffer is let go at the end. */
  function Progress(k: Sock, d: seq<byte>, done: nat): Sock
    requires k.position <= done <= |d|
  {
    var k' := k.(position := done, sent := k.sent + d[k.position..done]);
    if done < |d| then k' else k'.(buf := None)
  }

  function DoWrite(s: State, i: nat, w: Write): (State, bool)
    requires i < |s.socks| && s.socks[i].buf.Some?
    requires var a := s.socks[i].buf.value;
      a in s.mem && s.mem[a].users > 0 && s.socks[i].position < |s.mem[a].data|
  {
    var k := s.socks[i];
    var d := s.mem[k.buf.value].data;
    match w
    case WriteInterrupted => (s, true)
    case WriteFailed => (s, false)
    case Sent(n) =>
      var done := k.position + Min(n, |d| - k.position);
      if done == k.position then (s, false)
      else
        var drained := if done < |d| then s else Release(s, k.buf.value);
        (drained.(socks := s.socks[i := Progress(k, d, done)]), true)
  }

  function DeleteSock(s: State, i: nat): State
    requires i < |s.socks|
    requires s.socks[i].buf.Some? ==> s.socks[i].buf.value in s.mem && s.mem[s.socks[i].buf.value].users > 0
  {
    var released := if s.socks[i].buf.Some? then Release(s, s.socks[i].buf.value) else s;
    released.(socks := s.socks[..i] + s.socks[i + 1..])
  }

  /** Every idle consumer takes cluster number `number`, kept at `a`. */
  function TakeAll(socks: seq<Sock>, a: Addr, number: nat): (r: seq<Sock>)
    ensures |r| == |socks|
    ensures forall i :: 0 <= i < |socks| ==> r[i] == Take(socks[i], a, number)
  {
    if socks == [] then [] else [Take(socks[0], a, number)] + TakeAll(socks[1..], a, number)
  }

  function Take(k: Sock, a: Addr, number: nat): Sock {
    if k.buf.None? then k.(buf := Some(a), position := 0, taken := k.taken + [number]) else k
  }

  function HandOver(s: State): State
    requires s.input.buf.Some? && s.input.buf.value in s.mem
  {
    var a := s.input.buf.value;
    var b := s.mem[a].(users := s.mem[a].users + Idle(s.socks));
    ClearInput(s.(mem := s.mem[a := b],
                  socks := TakeAll(s.socks, a, |s.hist.clusters|),
                  hist := s.hist.(clusters := s.hist.clusters + [b.data],
                                  unused := s.hist.unused + if b.users == 0 then 1 else 0)))
  }

  // ---- the invariant ----

  predicate Ascending(t: seq<nat>, n: nat) {
    && (forall i, j :: 0 <= i < j < |t| ==> t[i] < t[j])
    && (forall i :: 0 <= i < |t| ==> t[i] < n)
  }

  /** The clusters with these numbers, one after the other. */
  function Picked(clusters: seq<seq<byte>>, t: seq<nat>): seq<byte>
    requires forall i :: 0 <= i < |t| ==> t[i] < |clusters|
  {
    if t == [] then [] else Picked(clusters, t[..|t| - 1]) + clusters[t[|t| - 1]]
  }

  /** What a consumer has been sent: whole clusters, in order, then the first
      `position` bytes of the one it is draining. */
  predicate SockOk(mem: map<Addr, Buffer>, clusters: seq<seq<byte>>, k: Sock) {
    Ascending(k.taken, |clusters|) &&
    match k.buf
    case None => k.sent == Picked(clusters, k.taken)
    case Some(a) =>
      var last := |k.taken| - 1;
      a in mem && last >= 0 && mem[a].data == clusters[k.taken[last]] && k.position < |mem[a].data| &&
      k.sent == Picked(clusters, k.taken[..last]) + mem[a].data[..k.position]
  }

  predicate SocksOk(mem: map<Addr, Buffer>, clusters: seq<seq<byte>>, socks: seq<Sock>) {
    forall i {:trigger SockOk(mem, clusters, socks[i])} :: 0 <= i < |socks| ==> SockOk(mem, clusters, socks[i])
  }

  /** Each live buffer counts the sockets that point at it; only the buffer being
      filled has none. */
  predicate CountsOk(mem: map<Addr, Buffer>, socks: seq<Sock>, input: Input) {
    forall a :: a in mem ==> mem[a].users == Users(socks, a) && (mem[a].users == 0 <==> input.buf == Some(a))
  }

  /** The bytes of the cluster being read. */
  function Pending(mem: map<Addr, Buffer>, input: Input): seq<byte> {
    match input.buf
    case None => if input.position <= |input.head| then input.head[..input.position] else []
    case Some(a) => if a in mem && input.position <= |mem[a].data| then mem[a].data[..input.position] else []
  }

  predicate InputOk(cfg: Config, mem: map<Addr, Buffer>, input: Input) {
    |input.head| == 8 &&
    match input.buf
    case None => input.position < HeaderSize(cfg) && !input.valid
    case Some(a) =>
      a in mem && Framed(cfg, mem[a].data) && HeaderSize(cfg) <= input.position <= |mem[a].data| &&
      (input.valid <==> input.position == |mem[a].data| && HeaderSize(cfg) < |mem[a].data|)
  }

  /** Every completed cluster is what its header announces, and more than a header. */
  predicate ClustersOk(cfg: Config, clusters: seq<seq<byte>>) {
    forall i {:trigger Framed(cfg, clusters[i])} :: 0 <= i < |clusters| ==>
      Framed(cfg, clusters[i]) && |clusters[i]| > HeaderSize(cfg)
  }

  /** The earlier clusters are those of the earlier connections; the present one
      delivered exactly the clusters completed since, followed by the bytes still
      pending. */
  predicate StreamOk(cfg: Config, s: State) {
    && s.hist.base <= |s.hist.clusters| && s.hist.clusters[..s.hist.base] == AllClusters(cfg, s.hist.past)
    && s.hist.conn == Flatten(s.hist.clusters[s.hist.base..]) + Pending(s.mem, s.input)
    && ClustersOk(cfg, s.hist.clusters)
    && (s.insock < 0 ==> s.input.buf.None? && s.input.position == 0)
  }

  /** No two open descriptors are equal; a connection request is pending only while
      there is no input. */
  predicate FdsOk(cfg: Config, s: State) {
    && cfg.listener >= 0
    && (cfg.mode.ConnectMode? ==> s.insockL < 0 || s.insock < 0)
    && s.insock != cfg.listener && s.insockL != cfg.listener && (s.insock >= 0 ==> s.insock != s.insockL)
    && (forall i :: 0 <= i < |s.socks| ==>
          s.socks[i].p >= 0 && s.socks[i].p != cfg.listener && s.socks[i].p != s.insock && s.socks[i].p != s.insockL)
    && (forall i, j :: 0 <= i < j < |s.socks| ==> s.socks[i].p != s.socks[j].p)
  }

  predicate Inv(cfg: Config, s: State) {
    && SocksOk(s.mem, s.hist.clusters, s.socks)
    && CountsOk(s.mem, s.socks, s.input)
    && InputOk(cfg, s.mem, s.input)
    && StreamOk(cfg, s)
    && FdsOk(cfg, s)
    && s.hist.unused == 0
    && s.hist.allocs == s.hist.frees + |s.mem|
    && !s.phase.Overrun?
  }

  /** Where the program has written past its block: a whole header has come that
      announces no further word. */
  predicate OverrunOk(cfg: Config, s: State) {
    && !cfg.oldFormat && |s.input.head| == 8 && Announced(cfg, s.input.head) == Some(4)
    && s.hist.base <= |s.hist.clusters| && ClustersOk(cfg, s.hist.clusters)
    && s.hist.conn == Flatten(s.hist.clusters[s.hist.base..]) + s.input.head
  }

  /** All completed clusters are the clusters of the bytes that came in. */
  predicate Ledger(cfg: Config, h: History) {
    h.clusters == AllClusters(cfg, h.past) + Clusters(cfg, h.conn)
  }

  // ---- counting lemmas ----

  lemma {:induction false} UsersZero(socks: seq<Sock>, a: Addr)
    ensures Users(socks, a) == 0 <==> forall i :: 0 <= i < |socks| ==> socks[i].buf != Some(a)
  {
    if socks != [] {
      UsersZero(socks[1..], a);
      assert forall i :: 1 <= i < |socks| ==> socks[i] == socks[1..][i - 1];
    }
  }

  lemma {:induction false} UsersConcat(x: seq<Sock>, y: seq<Sock>, a: Addr)
    ensures Users(x + y, a) == Users(x, a) + Users(y, a)
  {
    if x == [] {
      assert x + y == y;
    } else {
      UsersConcat(x[1..], y, a);
      assert (x + y)[1..] == x[1..] + y;
    }
  }

  lemma UsersOne(k: Sock, a: Addr)
    ensures Users([k], a) == One(k.buf == Some(a))
  {
  }

  lemma UsersAt(socks: seq<Sock>, i: nat, a: Addr)
    requires i < |socks|
    ensures Users(socks, a) == Users(socks[..i], a) + One(socks[i].buf == Some(a)) + Users(socks[i + 1..], a)
  {
    hide Users;
    assert socks == socks[..i] + socks[i..] && socks[i..] == [socks[i]] + socks[i + 1..];
    UsersConcat(socks[..i], socks[i..], a);
    UsersConcat([socks[i]], socks[i + 1..], a);
    UsersOne(socks[i], a);
  }

  lemma UsersUpdate(socks: seq<Sock>, i: nat, k: Sock, a: Addr)
    requires i < |socks|
    ensures Users(socks[i := k], a) == Users(socks, a) - One(socks[i].buf == Some(a)) + One(k.buf == Some(a))
  {
    hide Users;
    UsersAt(socks, i, a);
    UsersAt(socks[i := k], i, a);
    assert socks[i := k][..i] == socks[..i] && socks[i := k][i + 1..] == socks[i + 1..];
  }

  lemma UsersRemove(socks: seq<Sock>, i: nat, a: Addr)
    requires i < |socks|
    ensures Users(socks[..i] + socks[i + 1..], a) == Users(socks, a) - One(socks[i].buf == Some(a))
  {
    hide Users;
    UsersAt(socks, i, a);
    UsersConcat(socks[..i], socks[i + 1..], a);
  }

  lemma {:induction false} IdleConcat(x: seq<Sock>, y: seq<Sock>)
    ensures Idle(x + y) == Idle(x) + Idle(y)
  {
    if x == [] {
      assert x + y == y;
    } else {
      IdleConcat(x[1..], y);
      assert (x + y)[1..] == x[1..] + y;
    }
  }

  lemma {:induction false} IdlePositive(socks: seq<Sock>)
    ensures Idle(socks) > 0 <==> exists i :: 0 <= i < |socks| && socks[i].buf.None?
  {
    if socks != [] {
      IdlePositive(socks[1..]);
      assert forall i :: 1 <= i < |socks| ==> socks[i] == socks[1..][i - 1];
    }
  }

  lemma {:induction false} UsersTakeAll(socks: seq<Sock>, a: Addr, number: nat, b: Addr)
    ensures Users(TakeAll(socks, a, number), b) == Users(socks, b) + if a == b then Idle(socks) else 0
  {
    if socks != [] {
      UsersTakeAll(socks[1..], a, number, b);
      assert TakeAll(socks, a, number)[1..] == TakeAll(socks[1..], a, number);
    }
  }

  // ---- history lemmas ----

  lemma {:induction false} PickedExtend(clusters: seq<seq<byte>>, c: seq<byte>, t: seq<nat>)
    requires forall i :: 0 <= i < |t| ==> t[i] < |clusters|
    ensures Picked(clusters + [c], t) == Picked(clusters, t)
  {
    if t != [] {
      PickedExtend(clusters, c, t[..|t| - 1]);
    }
  }

  /** Completing a cluster does not disturb what earlier ones meant to a socket. */
  lemma SockOkExtend(mem: map<Addr, Buffer>, clusters: seq<seq<byte>>, c: seq<byte>, k: Sock)
    requires SockOk(mem, clusters, k)
    ensures SockOk(mem, clusters + [c], k)
  {
    PickedExtend(clusters, c, k.taken);
    if k.buf.Some? {
      PickedExtend(clusters, c, k.taken[..|k.taken| - 1]);
    }
  }

  // ---- the clusters of a byte stream ----

  lemma FirstCluster(cfg: Config, c: seq<byte>, rest: seq<byte>)
    requires Framed(cfg, c) && |c| > HeaderSize(cfg)
    ensures !Partial(cfg, c + rest) && Announced(cfg, (c + rest)[..HeaderSize(cfg)]) == Some(|c|)
  {
    hide Announced;
    assert (c + rest)[..HeaderSize(cfg)] == c[..HeaderSize(cfg)];
  }

  lemma ClustersFrom(cfg: Config, x: seq<seq<byte>>, n: nat)
    requires ClustersOk(cfg, x) && n <= |x|
    ensures ClustersOk(cfg, x[n..])
    ensures x != [] ==> Framed(cfg, x[0]) && |x[0]| > HeaderSize(cfg)
  {
    assert x != [] ==> Framed(cfg, x[0]);
    forall i | 0 <= i < |x[n..]| ensures Framed(cfg, x[n..][i]) && |x[n..][i]| > HeaderSize(cfg) {
      assert Framed(cfg, x[n + i]);
    }
  }

  lemma {:induction false} ClustersOfFlatten(cfg: Config, x: seq<seq<byte>>, p: seq<byte>)
    requires ClustersOk(cfg, x) && Partial(cfg, p)
    ensures Clusters(cfg, Flatten(x) + p) == x && Rest(cfg, Flatten(x) + p) == p
  {
    hide Partial, Framed, Announced, ClustersOk;
    var b := Flatten(x) + p;
    if x == [] {
      assert b == p;
    } else {
      ClustersFrom(cfg, x, 1);
      var rest := Flatten(x[1..]) + p;
      assert b == x[0] + rest;
      FirstCluster(cfg, x[0], rest);
      assert b[..|x[0]|] == x[0] && b[|x[0]|..] == rest;
      ClustersOfFlatten(cfg, x[1..], p);
      assert x == [x[0]] + x[1..];
    }
  }

  /** Every byte stream is its clusters and a part of one. */
  lemma {:induction false} StreamSplits(cfg: Config, p: seq<byte>)
    ensures ClustersOk(cfg, Clusters(cfg, p)) && Partial(cfg, Rest(cfg, p))
    ensures p == Flatten(Clusters(cfg, p)) + Rest(cfg, p)
    decreases |p|
  {
    hide Announced, Partial, ClustersOk, Flatten, Clusters, Rest;
    NoClusters(cfg);
    if Partial(cfg, p) {
      NoneWhole(cfg, p);
      assert [] + p == p;
    } else {
      WholeCluster(cfg, p);
      var n := Announced(cfg, p[..HeaderSize(cfg)]).value;
      var x, r := Clusters(cfg, p[n..]), Rest(cfg, p[n..]);
      StreamSplits(cfg, p[n..]);
      OneMoreCluster(cfg, p, n, x);
      Reassociate(p[..n], Flatten(x), r, p);
    }
  }

  lemma Reassociate(a: seq<byte>, b: seq<byte>, c: seq<byte>, p: seq<byte>)
    requires |a| <= |p| && a == p[..|a|] && p[|a|..] == b + c
    ensures p == a + b + c
  {
    assert p == a + p[|a|..];
  }

  lemma NoneWhole(cfg: Config, p: seq<byte>)
    requires Partial(cfg, p)
    ensures Clusters(cfg, p) == [] && Rest(cfg, p) == p
  {
    hide Partial;
  }

  lemma NoClusters(cfg: Config)
    ensures ClustersOk(cfg, []) && Flatten<byte>([]) == []
  {
  }

  lemma WholeCluster(cfg: Config, p: seq<byte>)
    requires !Partial(cfg, p)
    ensures |p| >= HeaderSize(cfg) && Announced(cfg, p[..HeaderSize(cfg)]).Some?
    ensures var n := Announced(cfg, p[..HeaderSize(cfg)]).value;
      && HeaderSize(cfg) < n <= |p|
      && Clusters(cfg, p) == [p[..n]] + Clusters(cfg, p[n..]) && Rest(cfg, p) == Rest(cfg, p[n..])
  {
    hide Announced;
  }

  lemma OneMoreCluster(cfg: Config, p: seq<byte>, n: nat, x: seq<seq<byte>>)
    requires HeaderSize(cfg) < n <= |p| && Announced(cfg, p[..HeaderSize(cfg)]) == Some(n) && ClustersOk(cfg, x)
    ensures ClustersOk(cfg, [p[..n]] + x) && Flatten([p[..n]] + x) == p[..n] + Flatten(x)
  {
    hide Announced;
    assert p[..n][..HeaderSize(cfg)] == p[..HeaderSize(cfg)];
    var y := [p[..n]] + x;
    assert y[1..] == x;
    forall i | 0 <= i < |y| ensures Framed(cfg, y[i]) && |y[i]| > HeaderSize(cfg) {
      assert i > 0 ==> Framed(cfg, x[i - 1]);
    }
  }

  /** A byte stream splits into clusters and a partial one in only one way. */
  lemma SplitUnique(cfg: Config, x: seq<seq<byte>>, p: seq<byte>, y: seq<seq<byte>>, q: seq<byte>)
    requires ClustersOk(cfg, x) && ClustersOk(cfg, y) && Partial(cfg, p) && Partial(cfg, q)
    requires Flatten(x) + p == Flatten(y) + q
    ensures x == y && p == q
  {
    hide Partial, ClustersOk;
    ClustersOfFlatten(cfg, x, p);
    ClustersOfFlatten(cfg, y, q);
  }

  lemma PendingPartial(cfg: Config, s: State)
    requires InputOk(cfg, s.mem, s.input) && !s.input.valid
    ensures Partial(cfg, Pending(s.mem, s.input))
  {
    hide Announced;
    if s.input.buf.Some? {
      var d := s.mem[s.input.buf.value].data;
      assert d[..s.input.position][..HeaderSize(cfg)] == d[..HeaderSize(cfg)];
    }
  }

  lemma StreamLedger(cfg: Config, s: State)
    requires StreamOk(cfg, s) && Partial(cfg, Pending(s.mem, s.input))
    ensures Ledger(cfg, s.hist) && Rest(cfg, s.hist.conn) == Pending(s.mem, s.input)
    ensures s.hist.base <= |s.hist.clusters| && s.hist.clusters[s.hist.base..] == Clusters(cfg, s.hist.conn)
  {
    hide Partial, ClustersOk, Pending, Flatten, AllClusters, Clusters, Rest;
    var h := s.hist;
    ClustersFrom(cfg, h.clusters, h.base);
    ClustersOfFlatten(cfg, h.clusters[h.base..], Pending(s.mem, s.input));
    assert h.clusters == h.clusters[..h.base] + h.clusters[h.base..];
  }

  // ---- what each operation keeps ----

  /** The reader's part of the invariant depends only on the buffer being filled. */
  lemma KeepInput(cfg: Config, s: State, t: State)
    requires InputOk(cfg, s.mem, s.input) && StreamOk(cfg, s)
    requires t.input == s.input && t.insock == s.insock
    requires t.hist.past == s.hist.past && t.hist.conn == s.hist.conn
    requires t.hist.base == s.hist.base && t.hist.clusters == s.hist.clusters
    requires s.input.buf.Some? && s.input.buf.value in s.mem ==>
      s.input.buf.value in t.mem && t.mem[s.input.buf.value].data == s.mem[s.input.buf.value].data
    ensures InputOk(cfg, t.mem, t.input) && StreamOk(cfg, t)
  {
  }

  lemma KeepFds(cfg: Config, s: State, t: State)
    requires FdsOk(cfg, s) && t.insock == s.insock && t.insockL == s.insockL && |t.socks| == |s.socks|
    requires forall i :: 0 <= i < |s.socks| ==> t.socks[i].p == s.socks[i].p
    ensures FdsOk(cfg, t)
  {
  }

  /** Socket i stops pointing at its buffer and the count goes down by one. */
  lemma ReleaseCounts(s: State, a: Addr, socks: seq<Sock>)
    requires CountsOk(s.mem, s.socks, s.input) && a in s.mem && s.mem[a].users > 0
    requires forall b :: Users(socks, b) == Users(s.socks, b) - One(a == b)
    ensures CountsOk(Release(s, a).mem, socks, s.input)
  {
  }

  lemma ReleaseSocks(s: State, a: Addr, socks: seq<Sock>)
    requires CountsOk(s.mem, s.socks, s.input) && a in s.mem && s.mem[a].users > 0
    requires Users(socks, a) == Users(s.socks, a) - 1
    requires SocksOk(s.mem, s.hist.clusters, socks)
    ensures SocksOk(Release(s, a).mem, s.hist.clusters, socks)
  {
    UsersZero(socks, a);
    forall j | 0 <= j < |socks| ensures SockOk(Release(s, a).mem, s.hist.clusters, socks[j]) {
      assert SockOk(s.mem, s.hist.clusters, socks[j]);
    }
  }

  lemma ReleaseSize(s: State, a: Addr)
    requires a in s.mem && s.mem[a].users > 0 && s.hist.allocs == s.hist.frees + |s.mem|
    ensures Release(s, a).hist.allocs == Release(s, a).hist.frees + |Release(s, a).mem|
  {
    var left := s.mem[a].(users := s.mem[a].users - 1);
    assert (s.mem - {a}).Keys == s.mem.Keys - {a};
    assert |s.mem - {a}| == |s.mem| - 1;
    assert s.mem[a := left].Keys == s.mem.Keys;
    assert |s.mem[a := left]| == |s.mem|;
  }

  /** A busy socket points at a live buffer that it is counted in and that is not the
      reader's; an idle one at none. */
  lemma BusySock(cfg: Config, s: State, i: nat)
    requires Inv(cfg, s) && i < |s.socks| && s.socks[i].buf.Some?
    ensures var a := s.socks[i].buf.value;
      a in s.mem && s.mem[a].users > 0 && s.input.buf != Some(a) && s.socks[i].position < |s.mem[a].data|
  {
    assert SockOk(s.mem, s.hist.clusters, s.socks[i]);
    UsersZero(s.socks, s.socks[i].buf.value);
  }

  lemma InputApart(s: State, a: Addr)
    requires CountsOk(s.mem, s.socks, s.input) && a in s.mem && s.mem[a].users > 0
    ensures s.input.buf != Some(a)
  {
  }

  /** Only socks and memory changed, by one user leaving. */
  lemma KeepRelease(cfg: Config, s: State, a: Addr, socks: seq<Sock>)
    requires Inv(cfg, s) && a in s.mem && s.mem[a].users > 0
    requires forall b :: Users(socks, b) == Users(s.socks, b) - One(a == b)
    requires SocksOk(s.mem, s.hist.clusters, socks)
    requires FdsOk(cfg, s.(socks := socks))
    ensures Inv(cfg, Release(s, a).(socks := socks))
  {
    hide SocksOk, CountsOk, InputOk, StreamOk;
    InputApart(s, a);
    ReleaseCounts(s, a, socks);
    ReleaseSocks(s, a, socks);
    ReleaseSize(s, a);
    KeepInput(cfg, s, Release(s, a).(socks := socks));
    KeepFds(cfg, s.(socks := socks), Release(s, a).(socks := socks));
  }

  lemma RemoveFds(cfg: Config, s: State, i: nat)
    requires FdsOk(cfg, s) && i < |s.socks|
    ensures FdsOk(cfg, s.(socks := s.socks[..i] + s.socks[i + 1..]))
  {
  }

  lemma KeepDelete(cfg: Config, s: State, i: nat)
    requires Inv(cfg, s) && i < |s.socks|
    ensures s.socks[i].buf.Some? ==> s.socks[i].buf.value in s.mem && s.mem[s.socks[i].buf.value].users > 0
    ensures Inv(cfg, DeleteSock(s, i))
  {
    hide SockOk, InputOk, StreamOk, Users, FdsOk;
    var t := s.(socks := s.socks[..i] + s.socks[i + 1..]);
    RemoveFds(cfg, s, i);
    forall b: Addr ensures Users(t.socks, b) == Users(s.socks, b) - One(s.socks[i].buf == Some(b)) {
      UsersRemove(s.socks, i, b);
    }
    if s.socks[i].buf.Some? {
      BusySock(cfg, s, i);
      KeepRelease(cfg, s, s.socks[i].buf.value, t.socks);
    } else {
      KeepInput(cfg, s, t);
    }
  }

  lemma KeepProgress(mem: map<Addr, Buffer>, clusters: seq<seq<byte>>, k: Sock, done: nat)
    requires SockOk(mem, clusters, k) && k.buf.Some?
    requires k.position <= done <= |mem[k.buf.value].data|
    ensures SockOk(mem, clusters, Progress(k, mem[k.buf.value].data, done))
  {
    var d := mem[k.buf.value].data;
    assert d[..k.position] + d[k.position..done] == d[..done];
    if done == |d| {
      assert d[..done] == d;
    }
  }

  lemma KeepSentPart(cfg: Config, s: State, i: nat, done: nat)
    requires Inv(cfg, s) && i < |s.socks| && s.socks[i].buf.Some? && s.socks[i].buf.value in s.mem
    requires s.socks[i].position <= done < |s.mem[s.socks[i].buf.value].data|
    ensures Inv(cfg, s.(socks := s.socks[i := Progress(s.socks[i], s.mem[s.socks[i].buf.value].data, done)]))
  {
    hide SockOk, InputOk, StreamOk, FdsOk;
    var k' := Progress(s.socks[i], s.mem[s.socks[i].buf.value].data, done);
    var t := s.(socks := s.socks[i := k']);
    KeepProgress(s.mem, s.hist.clusters, s.socks[i], done);
    KeepFds(cfg, s, t);
    KeepInput(cfg, s, t);
    forall b: Addr ensures Users(t.socks, b) == Users(s.socks, b) {
      UsersUpdate(s.socks, i, k', b);
    }
  }

  lemma KeepSentAll(cfg: Config, s: State, i: nat)
    requires Inv(cfg, s) && i < |s.socks| && s.socks[i].buf.Some? && s.socks[i].buf.value in s.mem
    requires s.mem[s.socks[i].buf.value].users > 0 && s.socks[i].position <= |s.mem[s.socks[i].buf.value].data|
    ensures var d := s.mem[s.socks[i].buf.value].data;
      Inv(cfg, Release(s, s.socks[i].buf.value).(socks := s.socks[i := Progress(s.socks[i], d, |d|)]))
  {
    hide SockOk, InputOk, StreamOk, FdsOk, CountsOk;
    var a := s.socks[i].buf.value;
    var k' := Progress(s.socks[i], s.mem[a].data, |s.mem[a].data|);
    var t := s.(socks := s.socks[i := k']);
    KeepProgress(s.mem, s.hist.clusters, s.socks[i], |s.mem[a].data|);
    KeepFds(cfg, s, t);
    forall b: Addr ensures Users(t.socks, b) == Users(s.socks, b) - One(a == b) {
      UsersUpdate(s.socks, i, k', b);
    }
    KeepRelease(cfg, s, a, t.socks);
  }

  lemma KeepWrite(cfg: Config, s: State, i: nat, w: Write)
    requires Inv(cfg, s) && i < |s.socks| && s.socks[i].buf.Some?
    ensures var a := s.socks[i].buf.value;
      a in s.mem && s.mem[a].users > 0 && s.socks[i].position < |s.mem[a].data|
    ensures Inv(cfg, DoWrite(s, i, w).0)
  {
    hide Inv, Progress, Release, Users;
    BusySock(cfg, s, i);
    if w.Sent? {
      var k := s.socks[i];
      var size := |s.mem[k.buf.value].data|;
      var done := k.position + Min(w.n, size - k.position);
      if done < size {
        KeepSentPart(cfg, s, i, done);
      } else {
        KeepSentAll(cfg, s, i);
      }
    }
  }

  // ---- reading ----

  lemma KeepSocks(s: State, mem: map<Addr, Buffer>)
    requires SocksOk(s.mem, s.hist.clusters, s.socks)
    requires forall i :: 0 <= i < |s.socks| && s.socks[i].buf.Some? && s.socks[i].buf.value in s.mem ==>
      s.socks[i].buf.value in mem && mem[s.socks[i].buf.value].data == s.mem[s.socks[i].buf.value].data
    ensures SocksOk(mem, s.hist.clusters, s.socks)
  {
    forall i | 0 <= i < |s.socks| ensures SockOk(mem, s.hist.clusters, s.socks[i]) {
      assert SockOk(s.mem, s.hist.clusters, s.socks[i]);
    }
  }

  lemma SpliceFramed(cfg: Config, d: seq<byte>, at: nat, bs: seq<byte>)
    requires Framed(cfg, d) && HeaderSize(cfg) <= at && at + |bs| <= |d|
    ensures Framed(cfg, Splice(d, at, bs)) && Splice(d, at, bs)[..at + |bs|] == d[..at] + bs
  {
    var d' := Splice(d, at, bs);
    assert d'[..HeaderSize(cfg)] == d'[..at][..HeaderSize(cfg)] == d[..HeaderSize(cfg)];
    assert d'[..at + |bs|] == d'[..at] + d'[at..at + |bs|];
  }

  lemma BodyPending(cfg: Config, s: State, r: Read)
    requires InputOk(cfg, s.mem, s.input) && s.input.buf.Some?
    ensures var t := ReadBody(s, r).0;
      t.hist.past == s.hist.past && t.hist.clusters == s.hist.clusters && t.hist.base == s.hist.base &&
        t.insock == s.insock &&
      exists bs :: t.hist.conn == s.hist.conn + bs && Pending(t.mem, t.input) == Pending(s.mem, s.input) + bs
  {
    hide Framed;
    var d := s.mem[s.input.buf.value].data;
    var k := Kernel(r, |d| - s.input.position);
    var t := ReadBody(s, r).0;
    if k.Data? {
      SpliceFramed(cfg, d, s.input.position, k.bytes);
    } else {
      assert t.hist.conn == s.hist.conn + [] && Pending(t.mem, t.input) == Pending(s.mem, s.input) + [];
    }
  }

  lemma KeepBodyStream(cfg: Config, s: State, r: Read)
    requires StreamOk(cfg, s) && InputOk(cfg, s.mem, s.input) && s.insock >= 0 && s.input.buf.Some?
    ensures StreamOk(cfg, ReadBody(s, r).0)
  {
    hide Framed, Flatten, Pending, ReadBody, AllClusters;
    BodyPending(cfg, s, r);
  }

  lemma KeepBodyInput(cfg: Config, s: State, r: Read)
    requires InputOk(cfg, s.mem, s.input) && s.input.buf.Some?
    ensures var t := ReadBody(s, r).0; InputOk(cfg, t.mem, t.input)
  {
    hide Framed, Splice;
    var d := s.mem[s.input.buf.value].data;
    var k := Kernel(r, |d| - s.input.position);
    if k.Data? {
      SpliceFramed(cfg, d, s.input.position, k.bytes);
    }
  }

  /** Only the data of the reader's own buffer change, and that has no users. */
  lemma KeepBodySocks(s: State, r: Read)
    requires s.input.buf.Some? && s.input.buf.value in s.mem && s.input.position <= |s.mem[s.input.buf.value].data|
    requires SocksOk(s.mem, s.hist.clusters, s.socks) && CountsOk(s.mem, s.socks, s.input)
    ensures var t := ReadBody(s, r).0;
      && SocksOk(t.mem, s.hist.clusters, s.socks) && CountsOk(t.mem, s.socks, t.input) && |t.mem| == |s.mem|
      && t.socks == s.socks && t.insock == s.insock && t.insockL == s.insockL
      && t.hist == s.hist.(conn := t.hist.conn) && t.phase == s.phase
  {
    hide SockOk, Splice, Users;
    var a := s.input.buf.value;
    var t := ReadBody(s, r).0;
    UsersZero(s.socks, a);
    KeepSocks(s, t.mem);
    assert t.mem.Keys == s.mem.Keys;
    assert |t.mem| == |t.mem.Keys| && |s.mem| == |s.mem.Keys|;
  }

  lemma KeepReadBody(cfg: Config, s: State, r: Read)
    requires Inv(cfg, s) && s.insock >= 0 && s.input.buf.Some?
    ensures Inv(cfg, ReadBody(s, r).0)
  {
    hide SocksOk, CountsOk, StreamOk, FdsOk, ReadBody;
    KeepBodyInput(cfg, s, r);
    KeepBodySocks(s, r);
    KeepBodyStream(cfg, s, r);
    KeepFds(cfg, s, ReadBody(s, r).0);
  }

  lemma KeepStart(cfg: Config, s: State, m: Malloc)
    requires SocksOk(s.mem, s.hist.clusters, s.socks) && CountsOk(s.mem, s.socks, s.input)
    requires FdsOk(cfg, s) && s.hist.unused == 0 && s.hist.allocs == s.hist.frees + |s.mem| && !s.phase.Overrun?
    requires |s.input.head| == 8 && s.input.buf.None? && !s.input.valid
    requires s.input.position == HeaderSize(cfg) && StreamOk(cfg, s) && s.insock >= 0
    ensures var (t, ok) := StartCluster(cfg, s, m);
      if !ok then t == s
      else if t.phase.Overrun? then OverrunOk(cfg, t)
      else Inv(cfg, t) && t.input.buf.Some? && !t.input.valid && t.insock == s.insock
  {
    hide SockOk, FdsOk, Users, Flatten, Announced, AllClusters;
    var (t, ok) := StartCluster(cfg, s, m);
    if t.phase.Overrun? {
      AnnouncedWhole(cfg, s.input.head);
    }
    if ok && !t.phase.Overrun? {
      var H := HeaderSize(cfg);
      var d := t.mem[m.at].data;
      assert d[..H] == s.input.head[..H];
      KeepSocks(s, t.mem);
      KeepFds(cfg, s, t);
      NoUsers(s.mem, s.hist.clusters, s.socks, m.at);
    }
  }

  /** What is announced is whole words and at least one. */
  lemma AnnouncedWhole(cfg: Config, head: seq<byte>)
    requires |head| == 8
    ensures var n := Announced(cfg, head[..HeaderSize(cfg)]);
      n.Some? && n.value < HeaderSize(cfg) ==>
        !cfg.oldFormat && head[..HeaderSize(cfg)] == head && Announced(cfg, head) == Some(4)
  {
    hide Load, Reversed;
    assert !cfg.oldFormat ==> head[..HeaderSize(cfg)] == head;
  }

  lemma NoUsers(mem: map<Addr, Buffer>, clusters: seq<seq<byte>>, socks: seq<Sock>, a: Addr)
    requires SocksOk(mem, clusters, socks) && a !in mem
    ensures Users(socks, a) == 0
  {
    forall i | 0 <= i < |socks| ensures socks[i].buf != Some(a) {
      assert SockOk(mem, clusters, socks[i]);
    }
    UsersZero(socks, a);
  }

  /** After a read that went wrong only the input slot may be half done: clearing it
      gives back the invariant. */
  predicate Clearable(cfg: Config, s: State) {
    && SocksOk(s.mem, s.hist.clusters, s.socks)
    && CountsOk(s.mem, s.socks, s.input)
    && (s.input.buf.Some? ==> s.input.buf.value in s.mem)
    && |s.input.head| == 8
    && Ledger(cfg, s.hist)
    && ClustersOk(cfg, s.hist.clusters)
    && FdsOk(cfg, s)
    && s.hist.unused == 0
    && s.hist.allocs == s.hist.frees + |s.mem|
    && !s.phase.Overrun?
  }

  /** What dropping the input connection leaves. */
  function Fresh(s: State, insock: int): State {
    var past := if s.hist.conn == [] then s.hist.past else s.hist.past + [s.hist.conn];
    s.(insock := insock, hist := s.hist.(past := past, conn := [], base := |s.hist.clusters|))
  }

  lemma FreshLedger(cfg: Config, h: History)
    requires Ledger(cfg, h)
    ensures h.clusters == AllClusters(cfg, if h.conn == [] then h.past else h.past + [h.conn])
  {
    hide Announced;
    if h.conn != [] {
      assert (h.past + [h.conn])[..|h.past|] == h.past;
    }
  }

  lemma KeepClear(cfg: Config, s: State, insock: int)
    requires Clearable(cfg, s)
    requires FdsOk(cfg, s.(insock := insock))
    ensures Inv(cfg, Fresh(ClearInput(s), insock))
  {
    hide SockOk, Framed, Users, FdsOk, AllClusters, Clusters;
    var t := Fresh(ClearInput(s), insock);
    FreshLedger(cfg, s.hist);
    assert t.hist.clusters[..|t.hist.clusters|] == t.hist.clusters;
    KeepFds(cfg, s.(insock := insock), t);
    if s.input.buf.Some? {
      var a := s.input.buf.value;
      UsersZero(s.socks, a);
      KeepSocks(s, t.mem);
      assert t.mem.Keys == s.mem.Keys - {a};
      assert |t.mem.Keys| == |s.mem.Keys| - 1;
    } else {
      KeepSocks(s, t.mem);
    }
    assert t.hist.clusters[t.hist.base..] == [];
  }

  lemma InvClearable(cfg: Config, s: State)
    requires Inv(cfg, s) && !s.input.valid
    ensures Clearable(cfg, s)
  {
    hide SocksOk, FdsOk, Framed, ClustersOk, Partial, Pending, Clusters, AllClusters, Rest;
    PendingPartial(cfg, s);
    StreamLedger(cfg, s);
  }

  lemma BodyFrame(s: State, r: Read)
    requires s.input.buf.Some? && s.input.buf.value in s.mem && s.input.position <= |s.mem[s.input.buf.value].data|
    ensures var (t, ok) := ReadBody(s, r);
      && t.insock == s.insock && t.socks == s.socks && t.insockL == s.insockL && t.phase == s.phase && (!ok ==> t == s)
  {
  }

  lemma StartFrame(cfg: Config, s: State, m: Malloc)
    requires |s.input.head| == 8
    ensures var t := StartCluster(cfg, s, m).0;
      t.insock == s.insock && t.socks == s.socks && t.insockL == s.insockL
  {
    hide Announced;
  }

  lemma KeepDoRead(cfg: Config, s: State, e: Env)
    requires Inv(cfg, s) && !s.input.valid && s.insock >= 0
    ensures var (t, ok) := DoRead(cfg, s, e);
      && t.insock == s.insock && t.socks == s.socks && t.insockL == s.insockL
      && (if !ok then Clearable(cfg, t) else if t.phase.Overrun? then OverrunOk(cfg, t) else Inv(cfg, t))
  {
    hide SocksOk, CountsOk, FdsOk, StreamOk, Clearable, Framed, Splice, OverrunOk, ReadBody, StartCluster;
    if s.input.buf.Some? {
      KeepReadBody(cfg, s, e.read1);
      BodyFrame(s, e.read1);
      InvClearable(cfg, s);
    } else {
      var H := HeaderSize(cfg);
      var k := Kernel(e.read1, H - s.input.position);
      InvClearable(cfg, s);
      if k.Data? {
        KeepDoReadHeader(cfg, s, e, k.bytes);
        var s1 := GotHeadBytes(s, k.bytes);
        if s1.input.position == H {
          StartFrame(cfg, s1, e.malloc);
          var (s2, ok) := StartCluster(cfg, s1, e.malloc);
          if ok && !s2.phase.Overrun? {
            BodyFrame(s2, e.read2);
          }
        }
      }
    }
  }

  lemma KeepHeadBytes(cfg: Config, s: State, bs: seq<byte>)
    requires Inv(cfg, s) && !s.input.valid && s.insock >= 0 && s.input.buf.None?
    requires s.input.position + |bs| <= HeaderSize(cfg)
    ensures var t := GotHeadBytes(s, bs);
      Clearable(cfg, t) && StreamOk(cfg, t) && |t.input.head| == 8 && !t.input.valid &&
      (t.input.position < HeaderSize(cfg) ==> Inv(cfg, t))
  {
    hide SockOk, Framed, FdsOk, Users, StreamOk, Ledger, ClustersOk;
    var t := GotHeadBytes(s, bs);
    KeepFds(cfg, s, t);
    HeadStream(cfg, s, bs);
  }

  lemma HeadStream(cfg: Config, s: State, bs: seq<byte>)
    requires Inv(cfg, s) && !s.input.valid && s.insock >= 0 && s.input.buf.None?
    requires s.input.position + |bs| <= HeaderSize(cfg)
    ensures var t := GotHeadBytes(s, bs); StreamOk(cfg, t) && Ledger(cfg, t.hist) && ClustersOk(cfg, t.hist.clusters)
  {
    hide SocksOk, CountsOk, Framed, FdsOk, Flatten, AllClusters, Clusters, Announced, Ledger, ClustersOk, Partial;
    var t := GotHeadBytes(s, bs);
    var pos := s.input.position;
    assert t.input.head[..pos + |bs|] == s.input.head[..pos] + bs;
    assert t.hist.conn == Flatten(s.hist.clusters[s.hist.base..]) + (s.input.head[..pos] + bs);
    HeaderPartial(cfg, t.input.head[..pos + |bs|]);
    StreamLedger(cfg, t);
  }

  /** A header alone is never a cluster. */
  lemma HeaderPartial(cfg: Config, p: seq<byte>)
    requires |p| <= HeaderSize(cfg)
    ensures Partial(cfg, p)
  {
    hide Announced;
  }

  lemma KeepDoReadHeader(cfg: Config, s: State, e: Env, bs: seq<byte>)
    requires Inv(cfg, s) && !s.input.valid && s.insock >= 0 && s.input.buf.None?
    requires s.input.position + |bs| <= HeaderSize(cfg)
    ensures var s1 := GotHeadBytes(s, bs);
      if s1.input.position < HeaderSize(cfg) then Inv(cfg, s1)
      else
        var (s2, ok) := StartCluster(cfg, s1, e.malloc);
        if !ok then Clearable(cfg, s2)
        else if s2.phase.Overrun? then OverrunOk(cfg, s2)
        else Inv(cfg, s2) && Clearable(cfg, s2) && s2.input.buf.Some? && Inv(cfg, ReadBody(s2, e.read2).0)
  {
    hide SocksOk, CountsOk, StreamOk, FdsOk, Framed, StartCluster, ReadBody, OverrunOk, Ledger;
    var s1 := GotHeadBytes(s, bs);
    KeepHeadBytes(cfg, s, bs);
    if s1.input.position == HeaderSize(cfg) {
      KeepStart(cfg, s1, e.malloc);
      var (s2, ok) := StartCluster(cfg, s1, e.malloc);
      if ok && !s2.phase.Overrun? {
        KeepReadBody(cfg, s2, e.read2);
        InvClearable(cfg, s2);
      }
    }
  }

  lemma KeepTake(mem: map<Addr, Buffer>, clusters: seq<seq<byte>>, k: Sock, a: Addr, mem': map<Addr, Buffer>)
    requires SockOk(mem, clusters, k)
    requires forall b :: b in mem ==> b in mem' && mem'[b].data == mem[b].data
    requires a in mem && |mem[a].data| > 0
    ensures SockOk(mem', clusters + [mem[a].data], Take(k, a, |clusters|))
  {
    var c := mem[a].data;
    SockOkExtend(mem, clusters, c, k);
    if k.buf.None? {
      var t := Take(k, a, |clusters|);
      assert t.taken[..|t.taken| - 1] == k.taken;
    }
  }

  /** A completed cluster reaches every idle consumer; some consumer is idle. */
  lemma KeepHandOver(cfg: Config, s: State)
    requires Inv(cfg, s) && s.input.valid && s.input.buf.Some? && Idle(s.socks) > 0
    ensures s.input.buf.value in s.mem && Inv(cfg, HandOver(s))
  {
    hide SockOk, Framed, FdsOk, Users, Flatten;
    var a := s.input.buf.value;
    var d := s.mem[a].data;
    var t := HandOver(s);
    assert t.mem == s.mem[a := s.mem[a].(users := Idle(s.socks))];
    forall i | 0 <= i < |t.socks| ensures SockOk(t.mem, t.hist.clusters, t.socks[i]) {
      KeepTake(s.mem, s.hist.clusters, s.socks[i], a, t.mem);
    }
    forall b | b in t.mem ensures t.mem[b].users == Users(t.socks, b) && t.mem[b].users > 0 {
      UsersTakeAll(s.socks, a, |s.hist.clusters|, b);
    }
    KeepFds(cfg, s, t);
    HandOverStream(cfg, s);
    assert t.mem.Keys == s.mem.Keys;
    assert |t.mem| == |s.mem|;
  }

  lemma HandOverStream(cfg: Config, s: State)
    requires InputOk(cfg, s.mem, s.input) && StreamOk(cfg, s) && s.input.valid && s.input.buf.Some?
    requires Idle(s.socks) > 0
    ensures StreamOk(cfg, HandOver(s))
  {
    hide Framed, AllClusters, Users, TakeAll;
    var d := s.mem[s.input.buf.value].data;
    var h := s.hist;
    assert d[..|d|] == d;
    assert (h.clusters + [d])[..h.base] == h.clusters[..h.base];
    assert (h.clusters + [d])[h.base..] == h.clusters[h.base..] + [d];
    FlattenSnoc(h.clusters[h.base..], d);
    forall i | 0 <= i < |h.clusters| ensures Framed(cfg, (h.clusters + [d])[i]) && |h.clusters[i]| > HeaderSize(cfg) {
      assert Framed(cfg, h.clusters[i]);
    }
  }
}
