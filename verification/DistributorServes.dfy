/** What a turn of main_loop does with each ready descriptor, in terms of the answers. */
module DistributorServes {
  import opened Util
  import opened ByteOrder
  import opened Distributor
  import opened DistributorTurn

  // ---- the input ----

  /** The bytes that an answer to a read of `want` bytes brings. */
  function Brought(r: Read, want: nat): (bs: seq<byte>)
    ensures |bs| <= want
  {
    if r.Data? then r.bytes[..Min(|r.bytes|, want)] else []
  }

  predicate Fails(r: Read, want: nat) {
    r.Eof? || r.ReadFailed? || (r.Data? && Brought(r, want) == [])
  }

  /** What is missing of the header, or of the cluster whose header has come. */
  function Slot(cfg: Config, s: State): nat
    requires InputOk(cfg, s.mem, s.input)
  {
    if s.input.buf.None? then HeaderSize(cfg) - s.input.position
    else |s.mem[s.input.buf.value].data| - s.input.position
  }

  /** The bytes of the cluster there are with the first read. */
  function WithFirst(cfg: Config, s: State, e: Env): seq<byte>
    requires InputOk(cfg, s.mem, s.input)
  {
    Pending(s.mem, s.input) + Brought(e.read1, Slot(cfg, s))
  }

  predicate HeaderComes(cfg: Config, s: State, e: Env)
    requires InputOk(cfg, s.mem, s.input)
  {
    s.input.buf.None? && |WithFirst(cfg, s, e)| == HeaderSize(cfg)
  }

  predicate BlockComes(s: State, e: Env) {
    e.malloc.Malloc? && e.malloc.at !in s.mem
  }

  /** What the header announces that has just come. */
  function Size(cfg: Config, s: State, e: Env): Option<nat>
    requires InputOk(cfg, s.mem, s.input) && HeaderComes(cfg, s, e)
  {
    Announced(cfg, WithFirst(cfg, s, e))
  }

  /** The body is read in the same turn as the end of the header. */
  predicate BodyFollows(cfg: Config, s: State, e: Env)
    requires InputOk(cfg, s.mem, s.input)
  {
    HeaderComes(cfg, s, e) && BlockComes(s, e) && Size(cfg, s, e).Some? && Size(cfg, s, e).value >= HeaderSize(cfg)
  }

  function BodySlot(cfg: Config, s: State, e: Env): nat
    requires InputOk(cfg, s.mem, s.input) && BodyFollows(cfg, s, e)
  {
    Size(cfg, s, e).value - HeaderSize(cfg)
  }

  predicate WritesPast(cfg: Config, s: State, e: Env)
    requires InputOk(cfg, s.mem, s.input)
  {
    HeaderComes(cfg, s, e) && BlockComes(s, e) && Size(cfg, s, e).Some? && Size(cfg, s, e).value < HeaderSize(cfg)
  }

  /** The connection ends: nothing more comes, reading fails (for a header also when it
      would block), the header is none, or there is no memory. */
  predicate InputEnds(cfg: Config, s: State, e: Env)
    requires InputOk(cfg, s.mem, s.input)
  {
    || Fails(e.read1, Slot(cfg, s))
    || (s.input.buf.None? && e.read1.WouldBlock?)
    || (HeaderComes(cfg, s, e) && (Size(cfg, s, e).None? || !BlockComes(s, e)))
    || (BodyFollows(cfg, s, e) && Fails(e.read2, BodySlot(cfg, s, e)))
  }

  /** The bytes the turn takes from the connection. */
  function Moved(cfg: Config, s: State, e: Env): seq<byte>
    requires InputOk(cfg, s.mem, s.input)
  {
    Brought(e.read1, Slot(cfg, s)) + if BodyFollows(cfg, s, e) then Brought(e.read2, BodySlot(cfg, s, e)) else []
  }

  /** t is s after its input has been served. */
  predicate InputServed(cfg: Config, s: State, e: Env, t: State)
    requires InputOk(cfg, s.mem, s.input)
  {
    var moved := Moved(cfg, s, e);
    var conn, all := s.hist.conn + moved, Pending(s.mem, s.input) + moved;
    if WritesPast(cfg, s, e) then t.phase.Overrun?
    else if InputEnds(cfg, s, e) then
      && t.insock == -1 && t.phase == (if cfg.mode.StdinMode? then Returned else s.phase)
      && t.input.buf.None? && t.input.position == 0 && t.socks == s.socks && t.hist.clusters == s.hist.clusters
      && t.hist.conn == [] && t.hist.past == s.hist.past + if conn == [] then [] else [conn]
    else
      && t.insock == s.insock && t.phase == s.phase && t.hist.conn == conn && t.hist.past == s.hist.past
      && if Framed(cfg, all) && |all| > HeaderSize(cfg) then
           t.hist.clusters == s.hist.clusters + [all] && Pending(t.mem, t.input) == []
         else
           t.hist.clusters == s.hist.clusters && Pending(t.mem, t.input) == all && t.socks == s.socks
  }

  lemma KernelIs(r: Read, want: nat)
    ensures Kernel(r, want).Data? <==> Brought(r, want) != []
    ensures Kernel(r, want).Data? ==> Kernel(r, want).bytes == Brought(r, want)
    ensures Kernel(r, want).Eof? || Kernel(r, want).ReadFailed? <==> Fails(r, want)
    ensures Kernel(r, want).WouldBlock? <==> r.WouldBlock?
  {
  }

  /** A read into the body of a cluster. */
  lemma BodyServed(cfg: Config, s: State, r: Read)
    requires s.input.buf.Some? && InputOk(cfg, s.mem, s.input) && !s.input.valid
    ensures var want := |s.mem[s.input.buf.value].data| - s.input.position;
      var b := Brought(r, want);
      var all := Pending(s.mem, s.input) + b;
      var (t, ok) := ReadBody(s, r);
      && (ok <==> !Fails(r, want))
      && (!ok ==> t == s && b == [])
      && t == s.(mem := t.mem, input := t.input, hist := s.hist.(conn := s.hist.conn + b))
      && t.input.buf == s.input.buf && t.input.buf.value in t.mem
      && t.mem[t.input.buf.value].users == s.mem[t.input.buf.value].users
      && (t.input.valid <==> Framed(cfg, all) && |all| > HeaderSize(cfg))
      && Pending(t.mem, t.input) == all
      && (t.input.valid ==> t.mem[t.input.buf.value].data == all)
  {
    hide Announced, Kernel, Brought;
    var d, pos := s.mem[s.input.buf.value].data, s.input.position;
    var b := Brought(r, |d| - pos);
    KernelIs(r, |d| - pos);
    var all := d[..pos] + b;
    assert all[..HeaderSize(cfg)] == d[..HeaderSize(cfg)];
    assert s.hist.conn + [] == s.hist.conn && d[..pos] + [] == d[..pos];
    if b != [] {
      var d' := Splice(d, pos, b);
      assert d'[..pos + |b|] == all;
    }
  }

  /** The read of a header, complete with it or not. */
  lemma HeadBytesServed(cfg: Config, s: State, e: Env)
    requires s.input.buf.None? && InputOk(cfg, s.mem, s.input)
    ensures var b := Brought(e.read1, Slot(cfg, s));
      var s1 := GotHeadBytes(s, b);
      && |s1.input.head| == 8 && s1.input.head[..s1.input.position] == WithFirst(cfg, s, e)
      && (b == [] ==> s1 == s)
      && DoRead(cfg, s, e) ==
         if b == [] then (s, !(Fails(e.read1, Slot(cfg, s)) || e.read1.WouldBlock?))
         else if !HeaderComes(cfg, s, e) then (s1, true)
         else
           var (s2, ok) := StartCluster(cfg, s1, e.malloc);
           if !ok || s2.phase.Overrun? then (s2, ok) else ReadBody(s2, e.read2)
  {
    hide Announced, Kernel, Brought, StartCluster, ReadBody;
    var pos := s.input.position;
    var b := Brought(e.read1, Slot(cfg, s));
    KernelIs(e.read1, Slot(cfg, s));
    var s1 := GotHeadBytes(s, b);
    assert s1.input.head[..pos + |b|] == s.input.head[..pos] + b;
    assert s.hist.conn + [] == s.hist.conn;
    assert Splice(s.input.head, pos, []) == s.input.head;
    FailsWithout(e.read1, Slot(cfg, s));
  }

  lemma FailsWithout(r: Read, want: nat)
    ensures Fails(r, want) || r.WouldBlock? ==> Brought(r, want) == []
    ensures Brought(r, want) == [] && !Fails(r, want) ==> r.Interrupted? || r.WouldBlock?
  {
  }

  /** do_read takes exactly the bytes moved, and answers -1 exactly if the input ends. */
  lemma ReadServed(cfg: Config, s: State, e: Env)
    requires InputOk(cfg, s.mem, s.input) && !s.input.valid && !s.phase.Overrun?
    ensures var moved := Moved(cfg, s, e);
      var all := Pending(s.mem, s.input) + moved;
      var (t, ok) := DoRead(cfg, s, e);
      && (t.phase.Overrun? <==> WritesPast(cfg, s, e)) && (!t.phase.Overrun? ==> t.phase == s.phase)
      && (!t.phase.Overrun? ==> (ok <==> !InputEnds(cfg, s, e)))
      && t.socks == s.socks && t.insock == s.insock && t.insockL == s.insockL
      && t.hist == s.hist.(conn := s.hist.conn + moved, allocs := t.hist.allocs)
      && (t.input.buf.Some? ==> t.input.buf.value in t.mem)
      && (ok && !t.phase.Overrun? ==>
           && (t.input.valid <==> Framed(cfg, all) && |all| > HeaderSize(cfg))
           && Pending(t.mem, t.input) == all
           && (t.input.valid ==> t.input.buf.Some? && t.mem[t.input.buf.value].data == all))
  {
    hide Announced, Kernel, Brought, Fails, ReadBody, DoRead, Framed, StartCluster;
    var first := Brought(e.read1, Slot(cfg, s));
    assert first + [] == first;
    if s.input.buf.Some? {
      BodyServed(cfg, s, e.read1);
      OnlyBody(cfg, s, e);
    } else {
      HeadBytesServed(cfg, s, e);
      FailsWithout(e.read1, Slot(cfg, s));
      if HeaderComes(cfg, s, e) {
        StartServed(cfg, s, e);
        var (s2, ok2) := StartCluster(cfg, GotHeadBytes(s, first), e.malloc);
        if ok2 && !s2.phase.Overrun? {
          BodyServed(cfg, s2, e.read2);
        }
      } else {
        NotFramed(cfg, WithFirst(cfg, s, e));
      }
    }
  }

  lemma OnlyBody(cfg: Config, s: State, e: Env)
    requires InputOk(cfg, s.mem, s.input) && s.input.buf.Some?
    ensures DoRead(cfg, s, e) == ReadBody(s, e.read1)
  {
  }

  lemma NotFramed(cfg: Config, p: seq<byte>)
    requires |p| < HeaderSize(cfg)
    ensures !Framed(cfg, p)
  {
  }

  /** The header is complete with this read. */
  lemma StartServed(cfg: Config, s: State, e: Env)
    requires InputOk(cfg, s.mem, s.input) && !s.input.valid && !s.phase.Overrun? && HeaderComes(cfg, s, e)
    ensures var moved := Moved(cfg, s, e);
      var all := Pending(s.mem, s.input) + moved;
      var b := Brought(e.read1, Slot(cfg, s));
      var s1 := GotHeadBytes(s, b);
      |s1.input.head| == 8 &&
      var (s2, ok2) := StartCluster(cfg, s1, e.malloc);
      && (s2.phase.Overrun? <==> WritesPast(cfg, s, e)) && (!s2.phase.Overrun? ==> s2.phase == s.phase)
      && (ok2 <==> BodyFollows(cfg, s, e) || WritesPast(cfg, s, e))
      && s2.socks == s.socks && s2.insock == s.insock && s2.insockL == s.insockL
      && s2.hist == s.hist.(conn := s.hist.conn + b, allocs := s2.hist.allocs)
      && (!ok2 || s2.phase.Overrun? ==> s2.mem == s.mem && s2.input.buf == None && moved == b)
      && (ok2 && !s2.phase.Overrun? ==>
           && s2.input.buf.Some? && InputOk(cfg, s2.mem, s2.input) && !s2.input.valid
           && Pending(s2.mem, s2.input) == Pending(s.mem, s.input) + b
           && |s2.mem[s2.input.buf.value].data| - s2.input.position == BodySlot(cfg, s, e)
           && all == Pending(s2.mem, s2.input) + Brought(e.read2, BodySlot(cfg, s, e))
           && s.hist.conn + moved == s.hist.conn + b + Brought(e.read2, BodySlot(cfg, s, e)))
  {
    hide Announced, Brought, Fails, InputEnds;
  }

  /** Serving the input ends the connection exactly if the answers say so, and otherwise
      moves exactly the bytes they brought, into the pending cluster or a complete one. */
  lemma InputIsServed(cfg: Config, s: State, e: Env)
    requires LoopHead(cfg, s) && s.insock >= 0
    ensures InputServed(cfg, s, e, ServeInput(cfg, s, e))
  {
    hide SocksOk, CountsOk, StreamOk, FdsOk, Announced, Brought, Moved, InputEnds, WritesPast, DoRead, Framed;
    KeepDoRead(cfg, s, e);
    ReadServed(cfg, s, e);
  }

  // ---- a whole turn ----

  /** A descriptor that is neither the listener's nor one of these. */
  predicate Free(cfg: Config, fd: int, insock: int, insockL: int, socks: seq<Sock>) {
    fd >= 0 && fd != cfg.listener && fd != insock && fd != insockL && forall i :: 0 <= i < |socks| ==> socks[i].p != fd
  }

  /** The pending or listening socket, after the request that may be sent. */
  function Asked(cfg: Config, s: State, e: Env): int {
    if cfg.mode.ConnectMode? && s.insock < 0 && s.insockL < 0 && Idle(s.socks) > 0 &&
       Free(cfg, e.request, s.insock, s.insockL, s.socks)
    then e.request else s.insockL
  }

  /** The consumers after the writes. */
  function Written(s: State, e: Env): seq<Sock> {
    ServedAll(s.mem, s.socks, e.writable, e.writes)
  }

  /** A new input connection has come in, and is taken. */
  predicate InputComes(cfg: Config, s: State, e: Env) {
    match cfg.mode
    case StdinMode => false
    case AcceptMode =>
      s.insockL >= 0 && s.insockL in e.readable && (s.insock < 0 || cfg.closeOld) &&
      Free(cfg, e.acceptIn, s.insock, s.insockL, Written(s, e))
    case ConnectMode => Answered(cfg, s, e) && e.connected
  }

  /** In connect mode the pending connection has been decided. */
  predicate Answered(cfg: Config, s: State, e: Env) {
    cfg.mode.ConnectMode? && s.insock < 0 && Idle(s.socks) > 0 && Asked(cfg, s, e) >= 0 &&
    Asked(cfg, s, e) in e.writable
  }

  /** m is s after the writes and the connections of a turn. */
  predicate Connections(cfg: Config, s: State, e: Env, m: State) {
    && m.insockL == (if Answered(cfg, s, e) then -1 else Asked(cfg, s, e))
    && m.hist.clusters == s.hist.clusters && m.phase == s.phase
    && if InputComes(cfg, s, e) then
         && m.insock == (if cfg.mode.AcceptMode? then e.acceptIn else Asked(cfg, s, e))
         && m.hist.conn == [] && Pending(m.mem, m.input) == []
         && m.hist.past == s.hist.past + if s.hist.conn == [] then [] else [s.hist.conn]
       else m.insock == s.insock && m.input == s.input && m.hist.conn == s.hist.conn && m.hist.past == s.hist.past
  }

  predicate Consumers(cfg: Config, s: State, e: Env, m: State) {
    m.socks == Written(s, e) +
      if cfg.listener in e.readable && e.sockRoom && Free(cfg, e.acceptOut, m.insock, m.insockL, Written(s, e))
      then [Sock(e.acceptOut, None, 0, [], [])] else []
  }

  /** t is s after a turn in which select reported descriptors: the writable consumers are
      served, input and consumers come, and then the input is served if it was there, some
      consumer was idle and its descriptor was reported. */
  ghost predicate TurnServed(cfg: Config, s: State, e: Env, t: State) {
    exists m :: LoopHead(cfg, m) && Connections(cfg, s, e, m) && Consumers(cfg, s, e, m) &&
      if s.insock >= 0 && m.insock == s.insock && s.insock in e.readable && Idle(s.socks) > 0
      then InputServed(cfg, m, e, t) else t == m
  }

  /** Only the descriptors of busy consumers matter for the writes. */
  lemma {:induction false} ServedSame(mem: map<Addr, Buffer>, socks: seq<Sock>, a: set<int>, b: set<int>,
                                      writes: int -> Write)
    requires forall i :: 0 <= i < |socks| && socks[i].buf.Some? ==> (socks[i].p in a <==> socks[i].p in b)
    ensures ServedAll(mem, socks, a, writes) == ServedAll(mem, socks, b, writes)
  {
    if socks != [] {
      assert forall i :: 1 <= i < |socks| ==> socks[i] == socks[1..][i - 1];
      ServedSame(mem, socks[1..], a, b, writes);
    }
  }

  lemma WritesServed(cfg: Config, s: State, e: Env)
    requires LoopHead(cfg, s)
    ensures var writable := e.writable * PolledWrite(cfg, s);
      && WritableBusy(s, 0, writable)
      && WriteLoop(cfg, s, 0, writable, e.writes).socks == Written(s, e)
      && (cfg.mode.ConnectMode? && s.insockL >= 0 ==>
           (s.insockL in writable <==> s.insockL in e.writable && s.insock < 0 && Idle(s.socks) > 0))
  {
    hide SocksOk, CountsOk, StreamOk, InputOk, WriteLoop, ServedAll, Idle;
    var writable := e.writable * PolledWrite(cfg, s);
    PolledBusy(cfg, s, writable);
    WriteLoopServes(cfg, s, 0, writable, e.writes);
    assert s.socks[0..] == s.socks && s.socks[..0] == [];
    forall i | 0 <= i < |s.socks| && s.socks[i].buf.Some? ensures s.socks[i].p in PolledWrite(cfg, s) {
    }
    ServedSame(s.mem, s.socks, writable, e.writable, e.writes);
  }

  /** What is polled for reading: the listening sockets, and the input if data are needed. */
  lemma ReadPolled(cfg: Config, s: State)
    requires LoopHead(cfg, s)
    ensures cfg.listener in PolledRead(cfg, s)
    ensures s.insockL >= 0 ==> (s.insockL in PolledRead(cfg, s) <==> cfg.mode.AcceptMode?)
    ensures s.insock >= 0 ==> (s.insock in PolledRead(cfg, s) <==> Idle(s.socks) > 0)
  {
    hide SocksOk, CountsOk, StreamOk, InputOk, Idle;
  }

  /** The state in which the input is served, for what select reported of s. */
  function Before(cfg: Config, s: State, e: Env): State
    requires LoopHead(cfg, s)
  {
    WritesServed(cfg, s, e);
    BeforeInput(cfg, s, e, e.readable * PolledRead(cfg, s), e.writable * PolledWrite(cfg, s))
  }

  /** The connections, after the writes. */
  lemma ConnectionsServed(cfg: Config, s: State, s2: State, e: Env)
    requires LoopHead(cfg, s) && s.insockL == Asked(cfg, s, e) && LoopHead(cfg, s2)
    requires s2 == s.(socks := Written(s, e), mem := s2.mem, hist := s.hist.(frees := s2.hist.frees))
    ensures var readable, writable := e.readable * PolledRead(cfg, s), e.writable * PolledWrite(cfg, s);
      var m := ServeConnection(cfg, s2, e, readable, writable);
      Connections(cfg, s, e, m) && m.socks == s2.socks
  {
    hide SocksOk, CountsOk, InputOk, Ledger, Flatten, Idle, ServedAll, ClearInput, PolledRead, PolledWrite, AllClusters,
      ClustersOk;
    WritesServed(cfg, s, e);
    ReadPolled(cfg, s);
    InvClearable(cfg, s2);
    ClearedInput(s2);
    NoInput(cfg, s2);
  }

  /** Without connection there are no pending bytes. */
  lemma NoInput(cfg: Config, s: State)
    requires Inv(cfg, s)
    ensures s.insock < 0 ==> Pending(s.mem, s.input) == []
  {
    hide SocksOk, CountsOk, InputOk;
  }

  lemma BeforeIsServed(cfg: Config, s: State, e: Env)
    requires LoopHead(cfg, s) && s.insockL == Asked(cfg, s, e)
    ensures Connections(cfg, s, e, Before(cfg, s, e)) && Consumers(cfg, s, e, Before(cfg, s, e))
  {
    hide Inv, WriteLoop, Idle, ServedAll, ServeConnection, Asked, Answered, InputComes, PolledRead, PolledWrite;
    var readable, writable := e.readable * PolledRead(cfg, s), e.writable * PolledWrite(cfg, s);
    WritesServed(cfg, s, e);
    ReadPolled(cfg, s);
    WritesKeepHistory(cfg, s, 0, writable, e.writes);
    var s2 := WriteLoop(cfg, s, 0, writable, e.writes);
    assert s2 == s.(socks := Written(s, e), mem := s2.mem, hist := s.hist.(frees := s2.hist.frees));
    ConnectionsServed(cfg, s, s2, e);
    var m := ServeConnection(cfg, s2, e, readable, writable);
    SameConnections(cfg, s, e, m, AcceptOut(cfg, m, e));
  }

  lemma SameConnections(cfg: Config, s: State, e: Env, m: State, t: State)
    requires Connections(cfg, s, e, m) && t == m.(socks := t.socks)
    ensures Connections(cfg, s, e, t)
  {
    hide Idle, ServedAll;
  }

  lemma ClearedInput(s: State)
    requires s.input.buf.Some? ==> s.input.buf.value in s.mem
    ensures var t := ClearInput(s);
      t == s.(mem := t.mem, input := t.input, hist := s.hist.(frees := t.hist.frees)) &&
      Pending(t.mem, t.input) == []
  {
  }

  /** A descriptor that was not in use is not polled. */
  lemma UnusedNotPolled(cfg: Config, s: State, t: State)
    requires t.insock == s.insock && t.insockL == s.insockL
    ensures forall fd :: Unused(cfg, t, fd) ==> fd !in PolledRead(cfg, s)
  {
    hide Idle;
  }

  /** The input is served only if it was there and polled. */
  lemma WhenPolled(cfg: Config, s: State, e: Env)
    requires LoopHead(cfg, s)
    ensures var m := Before(cfg, s, e);
      m.insock >= 0 && m.insock in e.readable * PolledRead(cfg, s) <==>
        s.insock >= 0 && m.insock == s.insock && s.insock in e.readable && Idle(s.socks) > 0
  {
    hide Inv, WriteLoop, Idle, ServeConnection, PolledRead, PolledWrite, Unused, Written;
    var readable, writable := e.readable * PolledRead(cfg, s), e.writable * PolledWrite(cfg, s);
    WritesServed(cfg, s, e);
    ReadPolled(cfg, s);
    var s2 := WriteLoop(cfg, s, 0, writable, e.writes);
    UnusedNotPolled(cfg, s, s2);
    NewInput(cfg, s2, e, readable, writable);
  }

  /** The request changes nothing else, and is not made twice. */
  lemma OnceAsked(cfg: Config, s: State, e: Env, m: State)
    ensures var s1 := s.(insockL := Asked(cfg, s, e));
      && s1 == RequestInput(cfg, s, e) && Asked(cfg, s1, e) == s1.insockL
      && (Connections(cfg, s1, e, m) <==> Connections(cfg, s, e, m))
      && (Consumers(cfg, s1, e, m) <==> Consumers(cfg, s, e, m))
  {
    hide Idle, ServedAll;
  }

  lemma TurnIsServed(cfg: Config, s: State, e: Env)
    requires LoopHead(cfg, s) && s.phase.Running?
    ensures match e.select
      case SomeReady => TurnServed(cfg, s, e, Step(cfg, s, e))
      case Nothing => Step(cfg, s, e) == s.(insockL := Asked(cfg, s, e))
      case SelectFailed => Step(cfg, s, e) == s.(insockL := Asked(cfg, s, e), phase := Returned)
  {
    hide Inv, Idle, BeforeInput, ServeInput, Connections, Consumers, InputServed, Asked;
    KeepRequest(cfg, s, e);
    var s1 := RequestInput(cfg, s, e);
    OnceAsked(cfg, s, e, s);
    if e.select.SomeReady? {
      var m := Before(cfg, s1, e);
      OnceAsked(cfg, s, e, m);
      BeforeIsServed(cfg, s1, e);
      WhenPolled(cfg, s1, e);
      WritesServed(cfg, s1, e);
      if m.insock >= 0 && m.insock in e.readable * PolledRead(cfg, s1) {
        InputIsServed(cfg, m, e);
      }
    }
  }

  // ---- headers of both byte orders ----

  /** What this host reads of a word that was stored in either order. */
  lemma LoadOf(host: Endian, sender: Endian, n: word)
    ensures Load(host, Store(sender, n)) == if sender == host then n else Reversed(n)
  {
    hide Store, Load, Reversed;
    LoadStore(host, n);
    if sender != host {
      LoadMirrored(host, n);
    }
  }

  lemma LoadMirrored(host: Endian, n: word)
    ensures Load(host, Store(if host == Big then Little else Big, n)) == Reversed(n)
  {
    FourDigits(n);
    FourValue(Store(Big, n));
    FourValue(Store(Little, n));
  }

  lemma ReversedTwice(n: word)
    ensures Reversed(Reversed(n)) == n
  {
    SwapInvolution(Little, n);
  }

  lemma MarkReversed()
    ensures Reversed(0x1234_5678) == 0x7856_3412
  {
    hide *;
    var n: word := 0x1234_5678;
    assert n % 256 == 0x78 && n / 256 % 256 == 0x56 && n / 0x1_0000 % 256 == 0x34 && n / 0x100_0000 == 0x12;
    ReversedIs(n);
  }

  lemma ReversedIs(n: word)
    ensures Reversed(n)
         == n % 256 * 0x100_0000 + n / 256 % 256 * 0x1_0000 + n / 0x1_0000 % 256 * 256 + n / 0x100_0000
  {
    hide Store;
    StoreIs(n);
    FourValue(Mirror(Store(Big, n)));
  }

  /** A new-format header announces the sender's count of words, and one more, whatever
      the byte orders of the sender and of this host. */
  lemma AnnouncesNew(cfg: Config, sender: Endian, n: word)
    requires !cfg.oldFormat
    ensures Announced(cfg, Store(sender, n) + Store(sender, 0x1234_5678)) == Some((n + 1) * 4)
  {
    hide Store, Load, Reversed;
    var head := Store(sender, n) + Store(sender, 0x1234_5678);
    assert head[..4] == Store(sender, n) && head[4..] == Store(sender, 0x1234_5678);
    LoadOf(cfg.host, sender, n);
    LoadOf(cfg.host, sender, 0x1234_5678);
    ReversedTwice(n);
    MarkReversed();
  }

  /** And nothing else is a new-format header. */
  lemma AnnouncesNothing(cfg: Config, head: seq<byte>)
    requires !cfg.oldFormat && |head| == 8
    ensures Announced(cfg, head).None? <==>
      head[4..] != Store(Big, 0x1234_5678) && head[4..] != Store(Little, 0x1234_5678)
  {
    hide Store, Load, Reversed;
    MarkReversed();
    LoadOf(cfg.host, Big, 0x1234_5678);
    LoadOf(cfg.host, Little, 0x1234_5678);
    StoreLoad(cfg.host, head[4..]);
    StoredAs(cfg.host);
  }

  lemma StoredAs(host: Endian)
    ensures var other := if host == Big then Little else Big;
      Store(other, 0x1234_5678) == Store(host, 0x7856_3412)
  {
    FourDigits(0x1234_5678);
    FourDigits(0x7856_3412);
  }

  /** An old-format header has no mark of its byte order: with a fixed setting it announces
      the sender's count if the setting is right, and with the check for a large first half
      exactly if the count as this host would need it is not large, or is the same in
      both orders. */
  lemma AnnouncesOld(cfg: Config, sender: Endian, n: word)
    requires cfg.oldFormat
    ensures Announced(cfg, Store(sender, n)) == Some((n + 1) * 4) <==>
      Reversed(n) == n ||
      match cfg.swap
      case Never => sender == cfg.host
      case Always => sender != cfg.host
      case Check => if sender == cfg.host then n < 0x1_0000 else Reversed(n) >= 0x1_0000
  {
    hide Store, Load, Reversed;
    LoadOf(cfg.host, sender, n);
    ReversedTwice(n);
    assert Store(sender, n)[..4] == Store(sender, n);
  }

  /** Counts below 2^16 are understood from senders of both orders. */
  lemma SmallCountsAreChecked(cfg: Config, sender: Endian, n: word)
    requires cfg.oldFormat && cfg.swap.Check? && n < 0x1_0000
    ensures Announced(cfg, Store(sender, n)) == Some((n + 1) * 4)
  {
    hide Announced, Reversed;
    AnnouncesOld(cfg, sender, n);
    ReversedIs(n);
  }
}
