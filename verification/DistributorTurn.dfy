/**
  One turn of main_loop: polling, writing, connections, consumers, reading.  Each part keeps
  the invariant, and what was polled is still there when it is served, although sockets are
  deleted, replaced and added in between.
*/
module DistributorTurn {
  import opened Util
  import opened ByteOrder
  import opened Distributor

  /** At the head of the loop no completed cluster waits in the input slot. */
  predicate LoopHead(cfg: Config, s: State) {
    Inv(cfg, s) && !s.input.valid
  }

  /** What holds at the loop's head, and where the program has written past its block. */
  predicate HeadOk(cfg: Config, s: State) {
    if s.phase.Overrun? then OverrunOk(cfg, s) else LoopHead(cfg, s)
  }

  predicate NeedData(s: State) {
    Idle(s.socks) > 0
  }

  predicate Unused(cfg: Config, s: State, fd: int) {
    fd >= 0 && fd != cfg.listener && fd != s.insock && fd != s.insockL &&
    forall i :: 0 <= i < |s.socks| ==> s.socks[i].p != fd
  }

  /** In connect mode a new request is sent when data are needed and none is pending. */
  function RequestInput(cfg: Config, s: State, e: Env): State {
    if NeedData(s) && s.insock < 0 && cfg.mode.ConnectMode? && s.insockL < 0 && Unused(cfg, s, e.request)
    then s.(insockL := e.request) else s
  }

  function PolledRead(cfg: Config, s: State): set<int> {
    {cfg.listener} + (if cfg.mode.AcceptMode? then {s.insockL} else {})
    + (if NeedData(s) && s.insock >= 0 then {s.insock} else {})
  }

  function PolledWrite(cfg: Config, s: State): set<int> {
    (set i | 0 <= i < |s.socks| && s.socks[i].buf.Some? :: s.socks[i].p)
    + (if NeedData(s) && s.insock < 0 && cfg.mode.ConnectMode? && s.insockL >= 0 then {s.insockL} else {})
  }

  /** Sockets from i on that are reported writable have something to write. */
  predicate WritableBusy(s: State, i: nat, writable: set<int>) {
    forall j :: i <= j < |s.socks| && s.socks[j].p in writable ==> s.socks[j].buf.Some?
  }

  /** No idle socket of s is lost or becomes busy. */
  predicate IdleStay(s: State, t: State) {
    forall k :: k in s.socks && k.buf.None? ==> k in t.socks
  }

  /** Serves the writable sockets from index i on; a failing one is deleted and the
      next one then has its index. */
  function WriteLoop(cfg: Config, s: State, i: nat, writable: set<int>, writes: int -> Write): (t: State)
    requires Inv(cfg, s) && i <= |s.socks| && WritableBusy(s, i, writable)
    ensures Inv(cfg, t) && t.input == s.input && t.insock == s.insock && t.insockL == s.insockL
    ensures t.phase == s.phase && IdleStay(s, t)
    ensures forall fd :: Unused(cfg, s, fd) ==> Unused(cfg, t, fd)
    decreases |s.socks| - i
  {
    if i == |s.socks| then s
    else if s.socks[i].p in writable then
      KeepWrite(cfg, s, i, writes(s.socks[i].p));
      var (s1, ok) := DoWrite(s, i, writes(s.socks[i].p));
      WriteEffect(cfg, s, i, writable, writes(s.socks[i].p));
      if ok then WriteLoop(cfg, s1, i + 1, writable, writes)
      else
        KeepDelete(cfg, s1, i);
        DeleteEffect(cfg, s1, i, writable);
        WriteLoop(cfg, DeleteSock(s1, i), i, writable, writes)
    else WriteLoop(cfg, s, i + 1, writable, writes)
  }

  lemma WriteEffect(cfg: Config, s: State, i: nat, writable: set<int>, w: Write)
    requires Inv(cfg, s) && i < |s.socks| && s.socks[i].buf.Some? && WritableBusy(s, i, writable)
    ensures s.socks[i].buf.value in s.mem && s.mem[s.socks[i].buf.value].users > 0
    ensures s.socks[i].position < |s.mem[s.socks[i].buf.value].data|
    ensures var (t, ok) := DoWrite(s, i, w);
      && t.input == s.input && t.insock == s.insock && t.insockL == s.insockL && t.phase == s.phase
      && |t.socks| == |s.socks| && WritableBusy(t, i + 1, writable)
      && IdleStay(s, t) && (!ok ==> t == s)
      && forall fd :: Unused(cfg, s, fd) ==> Unused(cfg, t, fd)
  {
    hide Inv;
    BusySock(cfg, s, i);
    var (t, ok) := DoWrite(s, i, w);
    OthersStay(s.socks, i, t.socks);
  }

  lemma OthersStay(socks: seq<Sock>, i: nat, after: seq<Sock>)
    requires i < |socks| && socks[i].buf.Some?
    requires after == socks[..i] + socks[i + 1..] || (|after| == |socks| && after == socks[i := after[i]])
    ensures forall k :: k in socks && k.buf.None? ==> k in after
  {
    forall k | k in socks && k.buf.None? ensures k in after {
      var j :| 0 <= j < |socks| && socks[j] == k;
      assert after == socks[..i] + socks[i + 1..] ==> after[if j < i then j else j - 1] == k;
      assert |after| == |socks| ==> after[j] == k;
    }
  }

  lemma DeleteEffect(cfg: Config, s: State, i: nat, writable: set<int>)
    requires Inv(cfg, s) && i < |s.socks| && s.socks[i].buf.Some? && WritableBusy(s, i, writable)
    ensures s.socks[i].buf.value in s.mem && s.mem[s.socks[i].buf.value].users > 0
    ensures var t := DeleteSock(s, i);
      && t.input == s.input && t.insock == s.insock && t.insockL == s.insockL && t.phase == s.phase
      && |t.socks| == |s.socks| - 1 && WritableBusy(t, i, writable)
      && IdleStay(s, t)
      && forall fd :: Unused(cfg, s, fd) ==> Unused(cfg, t, fd)
  {
    hide Inv;
    BusySock(cfg, s, i);
    OthersStay(s.socks, i, DeleteSock(s, i).socks);
  }

  /** New input connections (accept mode) and the end of a connection attempt (connect mode). */
  function ServeConnection(cfg: Config, s: State, e: Env, readable: set<int>, writable: set<int>): State
    requires LoopHead(cfg, s)
  {
    if s.insockL < 0 then s
    else
      match cfg.mode
      case AcceptMode =>
        if s.insockL !in readable || !Unused(cfg, s, e.acceptIn) then s
        else if s.insock < 0 then Fresh(s, e.acceptIn)
        else if cfg.closeOld then Fresh(ClearInput(s), e.acceptIn)
        else s
      case ConnectMode =>
        if s.insockL !in writable then s
        else if e.connected then Fresh(s, s.insockL).(insockL := -1)
        else s.(insockL := -1)
      case StdinMode => s
  }

  function AcceptOut(cfg: Config, s: State, e: Env): State {
    if Unused(cfg, s, e.acceptOut) && e.sockRoom
    then s.(socks := s.socks + [Sock(e.acceptOut, None, 0, [], [])]) else s
  }

  function ServeInput(cfg: Config, s: State, e: Env): State
    requires LoopHead(cfg, s) && s.insock >= 0
  {
    KeepDoRead(cfg, s, e);
    var (t, ok) := DoRead(cfg, s, e);
    if !ok then
      var cleared := Fresh(ClearInput(t), -1);
      if cfg.mode.StdinMode? then cleared.(phase := Returned) else cleared
    else if t.phase.Overrun? then t
    else if t.input.valid then HandOver(t)
    else t
  }

  lemma KeepServeConnection(cfg: Config, s: State, e: Env, readable: set<int>, writable: set<int>)
    requires LoopHead(cfg, s)
    ensures var t := ServeConnection(cfg, s, e, readable, writable);
      LoopHead(cfg, t) && t.socks == s.socks && t.phase == s.phase
  {
    hide SocksOk, CountsOk, Clearable, FdsOk, Framed, Flatten, Pending, AllClusters, Ledger;
    InvClearable(cfg, s);
    if s.insock < 0 {
      assert ClearInput(s) == s;
    }
    if cfg.mode.AcceptMode? && Unused(cfg, s, e.acceptIn) {
      AcceptFds(cfg, s, e.acceptIn);
      KeepClear(cfg, s, e.acceptIn);
    } else if cfg.mode.ConnectMode? && s.insockL >= 0 {
      KeepConnected(cfg, s);
    }
  }

  lemma AcceptFds(cfg: Config, s: State, fd: int)
    requires FdsOk(cfg, s) && Unused(cfg, s, fd) && !cfg.mode.ConnectMode?
    ensures FdsOk(cfg, s.(insock := fd))
  {
  }

  lemma KeepConnected(cfg: Config, s: State)
    requires LoopHead(cfg, s) && cfg.mode.ConnectMode? && s.insockL >= 0
    ensures LoopHead(cfg, Fresh(s, s.insockL).(insockL := -1)) && LoopHead(cfg, s.(insockL := -1))
  {
    hide SockOk, CountsOk, Users, Framed, Clusters, AllClusters, Flatten;
    InvClearable(cfg, s);
    FreshLedger(cfg, s.hist);
    assert s.hist.clusters[|s.hist.clusters|..] == [] && s.hist.clusters[..|s.hist.clusters|] == s.hist.clusters;
    NoClusters(cfg);
  }

  lemma KeepRequest(cfg: Config, s: State, e: Env)
    requires Inv(cfg, s)
    ensures Inv(cfg, RequestInput(cfg, s, e))
  {
    hide SockOk, CountsOk, Users, InputOk, Framed;
  }

  lemma KeepAcceptOut(cfg: Config, s: State, e: Env)
    requires Inv(cfg, s)
    ensures var t := AcceptOut(cfg, s, e);
      Inv(cfg, t) && (t == s || (t.socks[..|t.socks| - 1] == s.socks && IdleAndNew(t.socks[|t.socks| - 1])))
  {
    hide SockOk, Users, InputOk, StreamOk, Framed;
    var k := Sock(e.acceptOut, None, 0, [], []);
    var t := AcceptOut(cfg, s, e);
    assert SockOk(s.mem, s.hist.clusters, k) by { FreshSock(s.mem, s.hist.clusters, k); }
    KeepInput(cfg, s, t);
    if t != s {
      forall a: Addr ensures Users(t.socks, a) == Users(s.socks, a) {
        UsersOne(k, a);
        UsersConcat(s.socks, [k], a);
      }
    }
  }

  /** A consumer that has been given nothing. */
  predicate IdleAndNew(k: Sock) {
    k.buf.None? && k.taken == [] && k.sent == []
  }

  lemma FreshSock(mem: map<Addr, Buffer>, clusters: seq<seq<byte>>, k: Sock)
    requires IdleAndNew(k)
    ensures SockOk(mem, clusters, k)
  {
  }

  lemma KeepServeInput(cfg: Config, s: State, e: Env)
    requires LoopHead(cfg, s) && s.insock >= 0 && Idle(s.socks) > 0
    ensures HeadOk(cfg, ServeInput(cfg, s, e))
  {
    hide SocksOk, CountsOk, StreamOk, FdsOk, Framed, DoRead, Users, OverrunOk, Ledger;
    KeepDoRead(cfg, s, e);
    var (t, ok) := DoRead(cfg, s, e);
    if !ok {
      DropFds(cfg, s, t);
      KeepClear(cfg, t, -1);
      KeepPhase(cfg, Fresh(ClearInput(t), -1));
    } else if !t.phase.Overrun? && t.input.valid {
      KeepHandOver(cfg, t);
    }
  }

  lemma DropFds(cfg: Config, s: State, t: State)
    requires FdsOk(cfg, s) && t.socks == s.socks && t.insockL == s.insockL
    ensures FdsOk(cfg, t.(insock := -1))
  {
  }

  lemma KeepPhase(cfg: Config, s: State)
    requires Inv(cfg, s)
    ensures Inv(cfg, s.(phase := Returned))
  {
  }

  /** What a turn does once select has reported ready descriptors among the polled ones. */
  function Ready(cfg: Config, s: State, e: Env, readable: set<int>, writable: set<int>): (t: State)
    requires LoopHead(cfg, s) && readable <= PolledRead(cfg, s) && writable <= PolledWrite(cfg, s)
    ensures HeadOk(cfg, t)
  {
    PolledBusy(cfg, s, writable);
    var s4 := BeforeInput(cfg, s, e, readable, writable);
    if s4.insock >= 0 && s4.insock in readable then
      PolledInput(cfg, s, e, readable, writable);
      IdlePositive(s4.socks);
      KeepServeInput(cfg, s4, e);
      ServeInput(cfg, s4, e)
    else s4
  }

  /** Writes, connections and new consumers come before the input. */
  function BeforeInput(cfg: Config, s: State, e: Env, readable: set<int>, writable: set<int>): (t: State)
    requires LoopHead(cfg, s) && WritableBusy(s, 0, writable)
    ensures LoopHead(cfg, t) && IdleStay(s, t) && t.phase == s.phase
  {
    var s2 := WriteLoop(cfg, s, 0, writable, e.writes);
    KeepServeConnection(cfg, s2, e, readable, writable);
    var s3 := ServeConnection(cfg, s2, e, readable, writable);
    KeepAcceptOut(cfg, s3, e);
    if cfg.listener in readable then AcceptOut(cfg, s3, e) else s3
  }

  /** One turn of main_loop. */
  function Step(cfg: Config, s: State, e: Env): (t: State)
    requires HeadOk(cfg, s)
    ensures HeadOk(cfg, t)
  {
    if !s.phase.Running? then s
    else
      KeepRequest(cfg, s, e);
      var s1 := RequestInput(cfg, s, e);
      match e.select
      case Nothing => s1
      case SelectFailed => KeepPhase(cfg, s1); s1.(phase := Returned)
      case SomeReady => Ready(cfg, s1, e, e.readable * PolledRead(cfg, s1), e.writable * PolledWrite(cfg, s1))
  }

  /** An idle socket's descriptor is not among those polled for writing. */
  lemma PolledBusy(cfg: Config, s: State, writable: set<int>)
    requires FdsOk(cfg, s) && writable <= PolledWrite(cfg, s)
    ensures WritableBusy(s, 0, writable)
  {
    forall j | 0 <= j < |s.socks| && s.socks[j].p in writable ensures s.socks[j].buf.Some? {
      assert s.socks[j].p in PolledWrite(cfg, s);
    }
  }

  /** If the input is served in this turn, some socket was idle at the head of the loop,
      and it is still there and idle when the input is served. */
  lemma PolledInput(cfg: Config, s: State, e: Env, readable: set<int>, writable: set<int>)
    requires LoopHead(cfg, s) && readable <= PolledRead(cfg, s) && WritableBusy(s, 0, writable)
    ensures var t := BeforeInput(cfg, s, e, readable, writable);
      t.insock >= 0 && t.insock in readable ==> exists k :: k in s.socks && k.buf.None? && k in t.socks
  {
    hide Inv, Idle, WriteLoop, ServeConnection;
    var s2 := WriteLoop(cfg, s, 0, writable, e.writes);
    var t := BeforeInput(cfg, s, e, readable, writable);
    assert FdsOk(cfg, s) by { InvFds(cfg, s); }
    NewInput(cfg, s2, e, readable, writable);
    assert t.insock == ServeConnection(cfg, s2, e, readable, writable).insock;
    if t.insock >= 0 && t.insock in readable {
      assert !Unused(cfg, s, t.insock);
      assert NeedData(s);
      IdlePositive(s.socks);
    }
  }

  /** A new input connection is the one asked for or has an unused descriptor. */
  lemma NewInput(cfg: Config, s: State, e: Env, readable: set<int>, writable: set<int>)
    requires LoopHead(cfg, s)
    ensures var fd := ServeConnection(cfg, s, e, readable, writable).insock;
      fd == s.insock || Unused(cfg, s, fd) || (cfg.mode.ConnectMode? && fd == s.insockL)
  {
    hide Inv, ClearInput;
  }

  lemma InvFds(cfg: Config, s: State)
    requires Inv(cfg, s)
    ensures FdsOk(cfg, s)
  {
  }

  /** What one writable turn makes of a socket: nothing is left of one whose write
      failed, another one advances by what the kernel took. */
  function Served(mem: map<Addr, Buffer>, k: Sock, writable: set<int>, writes: int -> Write): seq<Sock> {
    if k.p !in writable || k.buf.None? || k.buf.value !in mem then [k]
    else
      var d := mem[k.buf.value].data;
      match writes(k.p)
      case WriteInterrupted => [k]
      case WriteFailed => []
      case Sent(n) =>
        if n == 0 || k.position >= |d| then []
        else [Progress(k, d, k.position + Min(n, |d| - k.position))]
  }

  function ServedAll(mem: map<Addr, Buffer>, socks: seq<Sock>, writable: set<int>, writes: int -> Write): seq<Sock> {
    if socks == [] then []
    else Served(mem, socks[0], writable, writes) + ServedAll(mem, socks[1..], writable, writes)
  }

  lemma {:induction false} ServedFrame(mem: map<Addr, Buffer>, mem': map<Addr, Buffer>, socks: seq<Sock>,
                                       writable: set<int>, writes: int -> Write)
    requires forall i :: 0 <= i < |socks| && socks[i].buf.Some? ==>
      socks[i].buf.value in mem && socks[i].buf.value in mem' &&
        mem'[socks[i].buf.value].data == mem[socks[i].buf.value].data
    ensures ServedAll(mem, socks, writable, writes) == ServedAll(mem', socks, writable, writes)
  {
    if socks != [] {
      assert forall i :: 1 <= i < |socks| ==> socks[i] == socks[1..][i - 1];
      ServedFrame(mem, mem', socks[1..], writable, writes);
    }
  }

  lemma BusyLive(cfg: Config, s: State)
    requires Inv(cfg, s)
    ensures forall j :: 0 <= j < |s.socks| && s.socks[j].buf.Some? ==> s.socks[j].buf.value in s.mem
  {
    forall j | 0 <= j < |s.socks| && s.socks[j].buf.Some? ensures s.socks[j].buf.value in s.mem {
      assert SockOk(s.mem, s.hist.clusters, s.socks[j]);
    }
  }

  /** t comes from s by serving one socket; `rest` are sockets that both have. */
  lemma RestFrame(cfg: Config, s: State, t: State, rest: seq<Sock>, writable: set<int>, writes: int -> Write)
    requires Inv(cfg, s) && Inv(cfg, t)
    requires forall a :: a in t.mem ==> a in s.mem && t.mem[a].data == s.mem[a].data
    requires (forall j :: 0 <= j < |rest| ==> rest[j] in s.socks && rest[j] in t.socks)
    ensures ServedAll(s.mem, rest, writable, writes) == ServedAll(t.mem, rest, writable, writes)
  {
    hide Inv, Served, ServedAll;
    BusyLive(cfg, s);
    BusyLive(cfg, t);
    ServedFrame(s.mem, t.mem, rest, writable, writes);
  }

  lemma WriteOne(cfg: Config, s: State, i: nat, writable: set<int>, writes: int -> Write)
    requires Inv(cfg, s) && i < |s.socks| && s.socks[i].buf.Some? && s.socks[i].p in writable
    ensures s.socks[i].buf.value in s.mem && s.mem[s.socks[i].buf.value].users > 0
    ensures s.socks[i].position < |s.mem[s.socks[i].buf.value].data|
    ensures var (t, ok) := DoWrite(s, i, writes(s.socks[i].p));
      && (if ok then t.socks == s.socks[..i] + Served(s.mem, s.socks[i], writable, writes) + s.socks[i + 1..]
                     && |Served(s.mem, s.socks[i], writable, writes)| == 1
          else t == s && Served(s.mem, s.socks[i], writable, writes) == [])
      && (forall a :: a in t.mem ==> a in s.mem && t.mem[a].data == s.mem[a].data)
  {
    hide Inv, Progress;
    BusySock(cfg, s, i);
    var (t, ok) := DoWrite(s, i, writes(s.socks[i].p));
    assert s.socks == s.socks[..i] + [s.socks[i]] + s.socks[i + 1..];
  }

  /** The loop with in-place deletion serves every writable socket exactly once, in
      order, drops exactly those whose write failed, and touches no other. */
  lemma {:induction false} WriteLoopServes(cfg: Config, s: State, i: nat, writable: set<int>, writes: int -> Write)
    requires Inv(cfg, s) && i <= |s.socks| && WritableBusy(s, i, writable)
    ensures WriteLoop(cfg, s, i, writable, writes).socks
         == s.socks[..i] + ServedAll(s.mem, s.socks[i..], writable, writes)
    decreases |s.socks| - i
  {
    hide Inv, Served, ServedAll, DoWrite, DeleteSock, Unused, IdleStay;
    if i == |s.socks| {
      NothingServed(s.mem, writable, writes);
      assert s.socks[i..] == [];
    } else {
      var k := s.socks[i];
      ServedFirst(s.mem, s.socks, i, writable, writes);
      if k.p in writable {
        WriteRest(cfg, s, i, writable, writes);
        KeepWrite(cfg, s, i, writes(k.p));
        WriteEffect(cfg, s, i, writable, writes(k.p));
        var (s1, ok) := DoWrite(s, i, writes(k.p));
        if ok {
          WriteLoopServes(cfg, s1, i + 1, writable, writes);
        } else {
          KeepDelete(cfg, s, i);
          DeleteEffect(cfg, s, i, writable);
          WriteLoopServes(cfg, DeleteSock(s, i), i, writable, writes);
          DeleteRest(cfg, s, i, writable, writes);
        }
      } else {
        NotServed(s.mem, k, writable, writes);
        WriteLoopServes(cfg, s, i + 1, writable, writes);
        assert s.socks[..i + 1] == s.socks[..i] + [k];
      }
    }
  }

  lemma {:induction false} WritesKeepHistory(cfg: Config, s: State, i: nat, writable: set<int>, writes: int -> Write)
    requires Inv(cfg, s) && i <= |s.socks| && WritableBusy(s, i, writable)
    ensures var h := WriteLoop(cfg, s, i, writable, writes).hist; h == s.hist.(frees := h.frees)
    decreases |s.socks| - i
  {
    hide Inv;
    if i < |s.socks| {
      if s.socks[i].p in writable {
        KeepWrite(cfg, s, i, writes(s.socks[i].p));
        var (s1, ok) := DoWrite(s, i, writes(s.socks[i].p));
        WriteEffect(cfg, s, i, writable, writes(s.socks[i].p));
        if ok {
          WritesKeepHistory(cfg, s1, i + 1, writable, writes);
        } else {
          KeepDelete(cfg, s1, i);
          DeleteEffect(cfg, s1, i, writable);
          WritesKeepHistory(cfg, DeleteSock(s1, i), i, writable, writes);
        }
      } else {
        WritesKeepHistory(cfg, s, i + 1, writable, writes);
      }
    }
  }

  lemma NothingServed(mem: map<Addr, Buffer>, writable: set<int>, writes: int -> Write)
    ensures ServedAll(mem, [], writable, writes) == []
  {
  }

  lemma ServedFirst(mem: map<Addr, Buffer>, socks: seq<Sock>, i: nat, writable: set<int>, writes: int -> Write)
    requires i < |socks|
    ensures ServedAll(mem, socks[i..], writable, writes)
         == Served(mem, socks[i], writable, writes) + ServedAll(mem, socks[i + 1..], writable, writes)
  {
    assert socks[i..][1..] == socks[i + 1..];
  }

  /** A socket is served; the ones before it and after it stay. */
  lemma WriteRest(cfg: Config, s: State, i: nat, writable: set<int>, writes: int -> Write)
    requires Inv(cfg, s) && i < |s.socks| && s.socks[i].buf.Some? && s.socks[i].p in writable
    ensures s.socks[i].buf.value in s.mem && s.mem[s.socks[i].buf.value].users > 0
    ensures s.socks[i].position < |s.mem[s.socks[i].buf.value].data|
    ensures var (t, ok) := DoWrite(s, i, writes(s.socks[i].p));
      if !ok then t == s && Served(s.mem, s.socks[i], writable, writes) == []
      else
        && |t.socks| == |s.socks|
        && t.socks[..i + 1] == s.socks[..i] + Served(s.mem, s.socks[i], writable, writes)
        && ServedAll(t.mem, t.socks[i + 1..], writable, writes) == ServedAll(s.mem, s.socks[i + 1..], writable, writes)
  {
    hide Inv, Served, ServedAll, DoWrite;
    WriteOne(cfg, s, i, writable, writes);
    KeepWrite(cfg, s, i, writes(s.socks[i].p));
    var (t, ok) := DoWrite(s, i, writes(s.socks[i].p));
    if ok {
      assert t.socks[i + 1..] == s.socks[i + 1..];
      RestFrame(cfg, s, t, s.socks[i + 1..], writable, writes);
    }
  }

  lemma DeleteRest(cfg: Config, s: State, i: nat, writable: set<int>, writes: int -> Write)
    requires Inv(cfg, s) && i < |s.socks| && s.socks[i].buf.Some?
    ensures s.socks[i].buf.value in s.mem && s.mem[s.socks[i].buf.value].users > 0
    ensures var t := DeleteSock(s, i);
      t.socks[..i] == s.socks[..i] && t.socks[i..] == s.socks[i + 1..] &&
      ServedAll(t.mem, t.socks[i..], writable, writes) == ServedAll(s.mem, s.socks[i + 1..], writable, writes)
  {
    hide Inv, Served, ServedAll;
    BusySock(cfg, s, i);
    KeepDelete(cfg, s, i);
    RestFrame(cfg, s, DeleteSock(s, i), s.socks[i + 1..], writable, writes);
  }

  lemma NotServed(mem: map<Addr, Buffer>, k: Sock, writable: set<int>, writes: int -> Write)
    requires k.p !in writable
    ensures Served(mem, k, writable, writes) == [k]
  {
  }
}
