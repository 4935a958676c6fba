/**
  events/event_distributor.c in its own form: global state changed in place by
  clear_new_event, do_read, do_write, delete_outsock, accept_outsock and
  main_loop.  Every method is proved to do what the state machine of module
  Distributor does, so the properties of its runs are properties of `MainLoop`.
*/
module DistributorLoop {
  import opened Util
  import opened ByteOrder
  import D = Distributor
  import R = DistributorRuns
  import T = DistributorTurn

  class Daemon {
    const cfg: D.Config
    var mem: map<D.Addr, D.Buffer>
    var socks: seq<D.Sock>
    var input: D.Input
    var insock: int
    var insockL: int
    var phase: D.Phase
    var hist: D.History  // record of the run, read by no decision

    function View(): D.State
      reads this
    {
      D.State(mem, socks, input, insock, insockL, phase, hist)
    }

    constructor (cfg: D.Config, insockL: int, head: seq<byte>)
      requires |head| == 8 && cfg.listener > 0
      requires if cfg.mode.AcceptMode? then insockL > 0 && insockL != cfg.listener else insockL == -1
      ensures this.cfg == cfg && R.IsStart(cfg, View())
    {
      this.cfg := cfg;
      mem, socks := map[], [];
      input := D.Input(None, head, 0, false);
      insock := if cfg.mode.StdinMode? then 0 else -1;
      this.insockL := insockL;
      phase := D.Running;
      hist := D.History([], [], 0, [], 0, 0, 0);
    }

    /** free() */
    method FreeBuffer(a: D.Addr)
      requires a in mem
      modifies this`mem, this`hist
      ensures View() == D.Free(old(View()), a)
    {
      mem := mem - {a};
      hist := hist.(frees := hist.frees + 1);
    }

    method ClearNewEvent()
      requires input.buf.Some? ==> input.buf.value in mem
      modifies this
      ensures View() == D.ClearInput(old(View()))
    {
      if input.buf.Some? && mem[input.buf.value].users == 0 {
        FreeBuffer(input.buf.value);
      }
      input := input.(buf := None, position := 0, valid := false);
    }

    method DropUser(a: D.Addr)
      requires a in mem && mem[a].users > 0
      modifies this`mem, this`hist
      ensures View() == D.Release(old(View()), a)
    {
      var left := mem[a].users - 1;
      if left == 0 {
        FreeBuffer(a);
      } else {
        mem := mem[a := mem[a].(users := left)];
      }
    }

    method ReadBody(r: D.Read) returns (ok: bool)
      requires input.buf.Some? && input.buf.value in mem && input.position <= |mem[input.buf.value].data|
      modifies this
      ensures (View(), ok) == D.ReadBody(old(View()), r)
    {
      var a := input.buf.value;
      var size := |mem[a].data|;
      match D.Kernel(r, size - input.position) {
        case Data(bs) =>
          mem := mem[a := mem[a].(data := Splice(mem[a].data, input.position, bs))];
          hist := hist.(conn := hist.conn + bs);
          input := input.(position := input.position + |bs|);
          if input.position < size {
            return true;
          }
          input := input.(valid := true);
          return true;
        case Interrupted => return true;
        case WouldBlock => return true;
        case _ => return false;
      }
    }

    /** create_event_buffer and the header copy of do_read. */
    method StartCluster(m: D.Malloc) returns (ok: bool)
      requires |input.head| == 8
      modifies this
      ensures (View(), ok) == D.StartCluster(cfg, old(View()), m)
    {
      var headerSize := D.HeaderSize(cfg);
      var announced := D.Announced(cfg, input.head[..headerSize]);
      if announced.None? || m.NoMemory? || m.at in mem {
        return false;
      }
      var n := announced.value;
      if n < headerSize {
        phase := D.Overrun;
        return true;
      }
      var data := input.head[..headerSize] + seq(n - headerSize, i requires 0 <= i < n - headerSize => m.fill(i));
      mem := mem[m.at := D.Buffer(data, 0)];
      hist := hist.(allocs := hist.allocs + 1);
      input := input.(buf := Some(m.at), position := headerSize);
      return true;
    }

    method DoRead(e: D.Env) returns (ok: bool)
      requires |input.head| == 8 && (input.buf.None? ==> input.position < D.HeaderSize(cfg))
      requires input.buf.Some? ==> input.buf.value in mem && input.position <= |mem[input.buf.value].data|
      modifies this
      ensures (View(), ok) == D.DoRead(cfg, old(View()), e)
    {
      hide D.Announced, D.ReadBody, Splice;
      if input.buf.Some? {
        ok := ReadBody(e.read1);
        return;
      }
      match D.Kernel(e.read1, D.HeaderSize(cfg) - input.position) {
        case Data(bs) =>
          input := input.(head := Splice(input.head, input.position, bs), position := input.position + |bs|);
          hist := hist.(conn := hist.conn + bs);
          if input.position < D.HeaderSize(cfg) {
            return true;
          }
          ok := StartCluster(e.malloc);
          if ok && !phase.Overrun? {
            ok := ReadBody(e.read2);
          }
        case Interrupted => return true;
        case _ => return false;
      }
    }

    method DoWrite(i: nat, w: D.Write) returns (ok: bool)
      requires i < |socks| && socks[i].buf.Some?
      requires socks[i].buf.value in mem && mem[socks[i].buf.value].users > 0
      requires socks[i].position < |mem[socks[i].buf.value].data|
      modifies this
      ensures (View(), ok) == D.DoWrite(old(View()), i, w)
    {
      var a := socks[i].buf.value;
      var data := mem[a].data;
      match w {
        case WriteInterrupted => return true;
        case WriteFailed => return false;
        case Sent(n) =>
          var from := socks[i].position;
          var res := Min(n, |data| - from);
          if res == 0 {
            return false;
          }
          socks := socks[i := socks[i].(position := from + res, sent := socks[i].sent + data[from..from + res])];
          if socks[i].position < |data| {
            return true;
          }
          DropUser(a);
          socks := socks[i := socks[i].(buf := None)];
          assert socks == old(socks)[i := D.Progress(old(socks[i]), data, |data|)];
          return true;
      }
    }

    /** The sockets behind the deleted one move down one place each. */
    method DeleteOutsock(idx: nat)
      requires idx < |socks|
      requires socks[idx].buf.Some? ==> socks[idx].buf.value in mem && mem[socks[idx].buf.value].users > 0
      modifies this
      ensures View() == D.DeleteSock(old(View()), idx)
    {
      if socks[idx].buf.Some? {
        DropUser(socks[idx].buf.value);
      }
      ghost var was := socks;
      var num := |socks| - 1;
      var i := idx;
      while i < num
        invariant idx <= i <= num
        invariant |socks| == num + 1
        invariant forall k :: 0 <= k < idx || i <= k <= num ==> socks[k] == was[k]
        invariant forall k :: idx <= k < i ==> socks[k] == was[k + 1]
        invariant var s := old(View());
          View() == (if was[idx].buf.Some? then D.Release(s, was[idx].buf.value) else s).(socks := socks)
      {
        socks := socks[i := socks[i + 1]];
        i := i + 1;
      }
      socks := socks[..num];
      assert socks == was[..idx] + was[idx + 1..];
    }

    /** The record goes on with a new connection. */
    method CloseBooks()
      modifies this`hist
      ensures View() == D.Fresh(old(View()), insock)
    {
      var past := if hist.conn == [] then hist.past else hist.past + [hist.conn];
      hist := hist.(past := past, conn := [], base := |hist.clusters|);
    }

    /** The loop over the writable sockets; after a deletion the index is not advanced. */
    method WriteSockets(writable: set<int>, writes: int -> D.Write)
      requires D.Inv(cfg, View()) && T.WritableBusy(View(), 0, writable)
      modifies this
      ensures D.Inv(cfg, View())
      ensures View() == T.WriteLoop(cfg, old(View()), 0, writable, writes)
    {
      hide D.Inv, D.DoWrite, D.DeleteSock, T.Unused;
      var idx := 0;
      while idx < |socks|
        invariant 0 <= idx <= |socks| && D.Inv(cfg, View()) && T.WritableBusy(View(), idx, writable)
        invariant T.WriteLoop(cfg, View(), idx, writable, writes) == T.WriteLoop(cfg, old(View()), 0, writable, writes)
        decreases |socks| - idx
      {
        if socks[idx].p in writable {
          D.KeepWrite(cfg, View(), idx, writes(socks[idx].p));
          T.WriteEffect(cfg, View(), idx, writable, writes(socks[idx].p));
          ghost var before := View();
          var ok := DoWrite(idx, writes(socks[idx].p));
          if ok {
            idx := idx + 1;
          } else {
            D.KeepDelete(cfg, View(), idx);
            T.DeleteEffect(cfg, View(), idx, writable);
            DeleteOutsock(idx);
          }
        } else {
          idx := idx + 1;
        }
      }
    }

    method AcceptOutsock(e: D.Env)
      modifies this
      ensures View() == T.AcceptOut(cfg, old(View()), e)
    {
      if T.Unused(cfg, View(), e.acceptOut) && e.sockRoom {
        socks := socks + [D.Sock(e.acceptOut, None, 0, [], [])];
      }
    }

    method AcceptInsock(e: D.Env, readable: set<int>, writable: set<int>)
      requires T.LoopHead(cfg, View())
      modifies this
      ensures View() == T.ServeConnection(cfg, old(View()), e, readable, writable)
    {
      if insockL >= 0 {
        match cfg.mode {
          case AcceptMode =>
            if insockL in readable && T.Unused(cfg, View(), e.acceptIn) {
              if insock < 0 {
                insock := e.acceptIn;
                CloseBooks();
              } else if cfg.closeOld {
                ClearNewEvent();
                insock := e.acceptIn;
                CloseBooks();
              }
            }
          case ConnectMode =>
            if insockL in writable {
              if e.connected {
                insock := insockL;
                CloseBooks();
              }
              insockL := -1;
            }
          case StdinMode =>
        }
      }
    }

    /** Points every idle socket at the cluster and counts it as a user. */
    method TakeCluster(a: D.Addr, number: nat)
      requires a in mem
      modifies this`socks, this`mem
      ensures socks == D.TakeAll(old(socks), a, number)
      ensures mem == old(mem)[a := old(mem)[a].(users := old(mem)[a].users + D.Idle(old(socks)))]
    {
      hide D.Idle, D.TakeAll;
      assert D.Idle([]) == 0 by { NoneIdle(); }
      var idx := 0;
      while idx < |socks|
        invariant 0 <= idx <= |socks| == |old(socks)|
        invariant forall k :: 0 <= k < idx ==> socks[k] == D.Take(old(socks)[k], a, number)
        invariant forall k :: idx <= k < |socks| ==> socks[k] == old(socks)[k]
        invariant mem == old(mem)[a := old(mem)[a].(users := old(mem)[a].users + D.Idle(old(socks)[..idx]))]
      {
        IdleSnoc(old(socks), idx);
        if socks[idx].buf.None? {
          socks := socks[idx := socks[idx].(buf := Some(a), position := 0, taken := socks[idx].taken + [number])];
          mem := mem[a := mem[a].(users := mem[a].users + 1)];
        }
        idx := idx + 1;
      }
      assert old(socks)[..idx] == old(socks);
    }

    /** Hands the completed cluster to every idle socket. */
    method HandOver()
      requires input.buf.Some? && input.buf.value in mem
      modifies this
      ensures View() == D.HandOver(old(View()))
    {
      var a := input.buf.value;
      TakeCluster(a, |hist.clusters|);
      hist := hist.(clusters := hist.clusters + [mem[a].data]);
      if mem[a].users == 0 {
        hist := hist.(unused := hist.unused + 1);
      }
      ClearNewEvent();
    }

    method ServeInput(e: D.Env)
      requires T.LoopHead(cfg, View()) && insock >= 0
      modifies this
      ensures View() == T.ServeInput(cfg, old(View()), e)
    {
      D.KeepDoRead(cfg, View(), e);
      var ok := DoRead(e);
      if !ok {
        ClearNewEvent();
        insock := -1;
        CloseBooks();
        if cfg.mode.StdinMode? {
          phase := D.Returned;
        }
      } else if !phase.Overrun? && input.valid {
        HandOver();
      }
    }

    /** The descriptors polled for writing, and whether some socket is idle. */
    method PollSockets() returns (busy: set<int>, needData: bool)
      ensures needData == T.NeedData(View())
      ensures busy == set i | 0 <= i < |socks| && socks[i].buf.Some? :: socks[i].p
    {
      busy, needData := {}, false;
      var idx := 0;
      while idx < |socks|
        invariant 0 <= idx <= |socks|
        invariant needData == (D.Idle(socks[..idx]) > 0)
        invariant busy == set i | 0 <= i < idx && socks[i].buf.Some? :: socks[i].p
      {
        assert socks[..idx + 1] == socks[..idx] + [socks[idx]];
        D.IdleConcat(socks[..idx], [socks[idx]]);
        if socks[idx].buf.Some? {
          busy := busy + {socks[idx].p};
        } else {
          needData := true;
        }
        idx := idx + 1;
      }
      assert socks[..idx] == socks;
    }

    /** Sends a connection request when that is due and says which descriptors are polled. */
    method Poll(e: D.Env) returns (polledRead: set<int>, polledWrite: set<int>)
      modifies this`insockL
      ensures View() == T.RequestInput(cfg, old(View()), e)
      ensures polledRead == T.PolledRead(cfg, View()) && polledWrite == T.PolledWrite(cfg, View())
    {
      hide D.Idle;
      var busy, needData := PollSockets();
      polledRead := {cfg.listener};
      if cfg.mode.AcceptMode? {
        polledRead := polledRead + {insockL};
      }
      polledWrite := busy;
      if needData {
        if insock >= 0 {
          polledRead := polledRead + {insock};
        } else if cfg.mode.ConnectMode? {
          if insockL < 0 && T.Unused(cfg, View(), e.request) {
            insockL := e.request;
          }
          if insockL >= 0 {
            polledWrite := polledWrite + {insockL};
          }
        }
      }
    }

    /** What main_loop does after select has reported ready descriptors. */
    method ServeReady(e: D.Env, readable: set<int>, writable: set<int>)
      requires T.LoopHead(cfg, View())
      requires readable <= T.PolledRead(cfg, View()) && writable <= T.PolledWrite(cfg, View())
      modifies this
      ensures View() == T.Ready(cfg, old(View()), e, readable, writable)
    {
      hide D.Inv, T.WriteLoop, T.ServeInput, T.ServeConnection, T.AcceptOut, D.Idle, T.PolledRead, T.PolledWrite;
      assert D.FdsOk(cfg, View()) by { FdsOf(cfg, View()); }
      T.PolledBusy(cfg, View(), writable);
      WriteSockets(writable, e.writes);
      T.KeepServeConnection(cfg, View(), e, readable, writable);
      AcceptInsock(e, readable, writable);
      T.KeepAcceptOut(cfg, View(), e);
      if cfg.listener in readable {
        AcceptOutsock(e);
      }
      assert View() == T.BeforeInput(cfg, old(View()), e, readable, writable);
      if insock >= 0 && insock in readable {
        ServeInput(e);
      }
    }

    /** One turn of main_loop. */
    method Turn(e: D.Env)
      requires T.LoopHead(cfg, View()) && phase.Running?
      modifies this
      ensures T.HeadOk(cfg, View())
      ensures View() == T.Step(cfg, old(View()), e)
    {
      hide D.Inv, T.Ready, T.PolledRead, T.PolledWrite, T.RequestInput, D.OverrunOk;
      T.KeepRequest(cfg, View(), e);
      var polledRead, polledWrite := Poll(e);
      if e.select.SelectFailed? {
        T.KeepPhase(cfg, View());
        phase := D.Returned;
      } else if e.select.SomeReady? {
        ServeReady(e, e.readable * polledRead, e.writable * polledWrite);
      }
    }

    /** main_loop over what the environment answers in each turn. */
    method MainLoop(envs: seq<D.Env>)
      requires R.IsStart(cfg, View())
      modifies this
      ensures View() == R.Run(cfg, old(View()), envs)
    {
      hide T.Step, T.LoopHead, R.IsStart, D.OverrunOk;
      ghost var s := View();
      StartIsHead(cfg, s);
      var i := 0;
      while i < |envs|
        invariant 0 <= i <= |envs|
        invariant View() == R.Run(cfg, s, envs[..i])
        invariant T.HeadOk(cfg, View())
      {
        assert envs[..i + 1][..i] == envs[..i];
        if !phase.Running? {
          Stopped(cfg, View(), envs[i]);
        } else {
          Turn(envs[i]);
        }
        i := i + 1;
      }
      assert envs[..i] == envs;
    }
  }

  lemma NoneIdle()
    ensures D.Idle([]) == 0
  {
  }

  lemma IdleSnoc(socks: seq<D.Sock>, idx: nat)
    requires idx < |socks|
    ensures D.Idle(socks[..idx + 1]) == D.Idle(socks[..idx]) + One(socks[idx].buf.None?)
  {
    assert socks[..idx + 1] == socks[..idx] + [socks[idx]];
    D.IdleConcat(socks[..idx], [socks[idx]]);
  }

  lemma FdsOf(cfg: D.Config, s: D.State)
    requires D.Inv(cfg, s)
    ensures D.FdsOk(cfg, s)
  {
  }

  lemma StartIsHead(cfg: D.Config, s: D.State)
    requires R.IsStart(cfg, s)
    ensures T.HeadOk(cfg, s)
  {
    assert R.Run(cfg, s, []) == s;
  }

  lemma Stopped(cfg: D.Config, s: D.State, e: D.Env)
    requires !s.phase.Running? && T.HeadOk(cfg, s)
    ensures T.Step(cfg, s, e) == s
  {
  }
}
