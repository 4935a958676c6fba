/**
  The broker in the form of its source: server and client lists changed in place by
  the methods of C_server, C_io_server and C_client, with loops over the lists.
  Every method is proved to do what the state machine of module Broker does.
*/
module BrokerLoop {
  import opened Util
  import H = HandleTable
  import B = Broker
  import R = BrokerRuns

  /** C_server_infos: the lookups all walk the list from the front. */
  method FindLocal(infos: seq<H.Info>, l: int) returns (i: nat)
    ensures i == H.IndexOfLocal(infos, l)
  {
    i := 0;
    while i < |infos| && infos[i].localId != l
      invariant 0 <= i <= |infos|
      invariant forall j :: 0 <= j < i ==> infos[j].localId != l
    {
      i := i + 1;
    }
  }

  method FindGlobal(infos: seq<H.Info>, g: int) returns (i: nat)
    ensures i == H.IndexOfGlobal(infos, g)
  {
    i := 0;
    while i < |infos| && infos[i].globalId != g
      invariant 0 <= i <= |infos|
      invariant forall j :: 0 <= j < i ==> infos[j].globalId != g
    {
      i := i + 1;
    }
  }

  method LocalOf(infos: seq<H.Info>, g: int) returns (l: int)
    ensures l == H.Local(infos, g)
  {
    var i := FindGlobal(infos, g);
    l := if i < |infos| then infos[i].localId else H.NO_ID;
  }

  method GlobalOf(infos: seq<H.Info>, l: int) returns (g: int)
    ensures g == H.Global(infos, l)
  {
    var i := FindLocal(infos, l);
    g := if i < |infos| then infos[i].globalId else H.NO_ID;
  }

  method Freed(infos: seq<H.Info>, l: int) returns (r: seq<H.Info>)
    ensures r == H.FreeHandle(infos, l)
  {
    var i := FindLocal(infos, l);
    r := if i < |infos| then infos[..i] + infos[i + 1..] else infos;
  }

  class Commu {
    var lastId: int
    var servers: seq<B.Server>
    var clients: seq<H.Client>

    function View(): B.State
      reads this
    {
      B.State(lastId, servers, clients)
    }

    constructor ()
      ensures View() == B.State(0, [], [])
    {
      lastId, servers, clients := 0, [], [];
    }

    method FindServer(id: int) returns (i: nat)
      ensures i == B.IndexOf(servers, id)
    {
      i := 0;
      while i < |servers| && servers[i].id != id
        invariant 0 <= i <= |servers|
        invariant forall j :: 0 <= j < i ==> servers[j].id != id
      {
        i := i + 1;
      }
    }

    method FindServerByName(name: string) returns (i: nat)
      ensures i == B.IndexOfName(servers, name)
    {
      i := 0;
      while i < |servers| && servers[i].name != name
        invariant 0 <= i <= |servers|
        invariant forall j :: 0 <= j < i ==> servers[j].name != name
      {
        i := i + 1;
      }
    }

    method FindClient(id: int) returns (i: nat)
      ensures i == B.ClientIndex(clients, id)
    {
      i := 0;
      while i < |clients| && clients[i].id != id
        invariant 0 <= i <= |clients|
        invariant forall j :: 0 <= j < i ==> clients[j].id != id
      {
        i := i + 1;
      }
    }

    /** addmessage */
    method Tell(ci: nat, n: H.Note)
      requires ci < |clients|
      modifies this`clients
      ensures clients == old(clients)[ci := H.Tell(old(clients)[ci], n)]
    {
      clients := clients[ci := clients[ci].(inbox := clients[ci].inbox + [n])];
    }

    /** C_server::setunsol */
    method SetUnsol(si: nat, client: int, val: int)
      requires si < |servers|
      modifies this`servers
      ensures var v := old(servers)[si];
        servers == old(servers)[si := v.(unsol := B.SetUnsolList(v.unsol, client, val))]
    {
      var v := servers[si];
      var oldVal := if client in v.unsol then 1 else 0;
      if val == -1 || val == oldVal {
        return;
      }
      if val == 1 {
        servers := servers[si := v.(unsol := v.unsol + [client])];
      } else {
        servers := servers[si := v.(unsol := RemoveFirst(v.unsol, client))];
      }
    }

    /** C_client::server_ok: the client's message, and whether its server is to send
        it unsolicited messages. */
    method ServerOk(ci: nat, id: int, res: int) returns (wants: bool)
      requires ci < |clients|
      modifies this`clients
      ensures clients == old(clients)[ci := B.OkClient(old(clients)[ci], id, res)]
      ensures res == 0 ==>
        (wants <==> old(clients)[ci].defUnsol && B.OkClient(old(clients)[ci], id, 0) != old(clients)[ci])
    {
      wants := false;
      var c := clients[ci];
      var h := LocalOf(c.infos, id);
      if h == H.NO_ID {
        return;
      }
      var i := FindLocal(c.infos, h);
      if i == |c.infos| || c.infos[i].valid {
        return;
      }
      if res == 0 {
        clients := clients[ci := c.(infos := c.infos[i := c.infos[i].(valid := true)])];
        wants := c.defUnsol;
        Tell(ci, H.Ready(h));
        assert clients[ci].inbox != c.inbox;
      } else {
        clients := clients[ci := c.(infos := c.infos[..i] + c.infos[i + 1..])];
        Tell(ci, H.Failed(h, res));
      }
    }

    /** C_client::server_died */
    method ServerDied(ci: nat, id: int, err: int)
      requires ci < |clients|
      modifies this`clients
      ensures clients == old(clients)[ci := B.DiedClient(old(clients)[ci], id, err)]
    {
      hide B.DiedClient, H.Local, H.IndexOfLocal;
      var h := LocalOf(clients[ci].infos, id);
      var i := FindLocal(clients[ci].infos, h);
      while h != H.NO_ID && i < |clients[ci].infos|
        invariant |clients| == |old(clients)|
        invariant h == H.Local(clients[ci].infos, id) && i == H.IndexOfLocal(clients[ci].infos, h)
        invariant B.DiedClient(clients[ci], id, err) == B.DiedClient(old(clients)[ci], id, err)
        invariant clients == old(clients)[ci := clients[ci]]
        decreases |clients[ci].infos|
      {
        var c := clients[ci];
        DiedTurn(c, id, err);
        clients := clients[ci := c.(infos := c.infos[..i] + c.infos[i + 1..])];
        Tell(ci, if c.infos[i].valid then H.Disconnected(h) else H.Failed(h, err));
        h := LocalOf(clients[ci].infos, id);
        i := FindLocal(clients[ci].infos, h);
      }
      DiedTurn(clients[ci], id, err);
    }

    method RemoveServer(si: nat)
      requires si < |servers|
      modifies this`servers
      ensures View() == B.RemoveServer(old(View()), si)
    {
      servers := servers[..si] + servers[si + 1..];
    }

    /** ~C_server of a valid server: every client hears of it. */
    method DeleteServer(si: nat)
      requires si < |servers|
      modifies this
      ensures View() == B.DeleteServer(old(View()), si)
    {
      hide B.DiedClient;
      var v := servers[si];
      var count := |clients|;
      var i := 0;
      while i < count
        invariant 0 <= i <= count == |clients| == |old(clients)|
        invariant forall k :: 0 <= k < i ==> clients[k] == B.DiedClient(old(clients)[k], v.id, v.err)
        invariant forall k :: i <= k < count ==> clients[k] == old(clients)[k]
        invariant servers == old(servers) && lastId == old(lastId)
      {
        ServerDied(i, v.id, v.err);
        i := i + 1;
      }
      assert clients == B.DiedAll(old(clients), v.id, v.err);
      RemoveServer(si);
    }

    /** The loop over clientlist that calls server_ok with an error. */
    method TellAllFailed(id: int, res: B.code)
      modifies this`clients
      ensures clients == B.OkAll(old(clients), id, res)
    {
      hide B.OkClient;
      var count := |clients|;
      var i := 0;
      while i < count
        invariant 0 <= i <= count == |clients| == |old(clients)|
        invariant forall k :: 0 <= k < i ==> clients[k] == B.OkClient(old(clients)[k], id, res)
        invariant forall k :: i <= k < count ==> clients[k] == old(clients)[k]
      {
        var _ := ServerOk(i, id, res);
        i := i + 1;
      }
    }

    method OpenFailed(si: nat, res: B.code)
      requires si < |servers|
      modifies this
      ensures View() == B.OpenFailed(old(View()), si, res)
    {
      hide B.OkAll, B.DeleteServer;
      TellAllFailed(servers[si].id, res);
      DeleteServer(si);
    }

    /** proceed_Initiate without an error. */
    method Initiated(si: nat)
      requires si < |servers|
      modifies this
      ensures View() == B.Initiated(old(View()), si)
    {
      hide B.OkClient, B.SetUnsolList;
      ghost var v := servers[si];
      var id := servers[si].id;
      var count := |clients|;
      var i := 0;
      assert old(clients)[..0] == [];
      while i < count
        invariant 0 <= i <= count == |clients| == |old(clients)|
        invariant forall k :: 0 <= k < i ==> clients[k] == B.OkClient(old(clients)[k], id, 0)
        invariant forall k :: i <= k < count ==> clients[k] == old(clients)[k]
        invariant lastId == old(lastId) && |servers| == |old(servers)|
        invariant servers == old(servers)[si := v.(unsol := B.UnsolAfterOk(v.unsol, old(clients)[..i], id))]
      {
        assert old(clients)[..i + 1] == old(clients)[..i] + [old(clients)[i]];
        UnsolAfterSnoc(v.unsol, old(clients)[..i], old(clients)[i], id);
        var u := clients[i].id;
        var wants := ServerOk(i, id, 0);
        if wants {
          SetUnsol(si, u, 1);
        }
        i := i + 1;
      }
      assert old(clients)[..i] == old(clients);
      assert clients == B.OkAll(old(clients), id, 0);
      servers := servers[si := servers[si].(status := B.ReadyState)];
    }

    /** C_server::removeclient and its overrides. */
    method ReleaseServer(si: nat, u: int)
      requires si < |servers|
      modifies this
      ensures View() == B.ReleaseServer(old(View()), si, u)
    {
      hide B.DeleteServer, RemoveFirst;
      servers := servers[si := servers[si].(unsol := RemoveFirst(servers[si].unsol, u))];
      servers := servers[si := servers[si].(refcount := servers[si].refcount - 1)];
      assert servers == old(servers)[si := servers[si]];
      if servers[si].refcount == 0 {
        if servers[si].isLocal || servers[si].status != B.ReadyState {
          DeleteServer(si);
        } else {
          servers := servers[si := servers[si].(status := B.Disconnecting)];
          assert servers == old(servers)[si := servers[si]];
        }
      }
    }

    method ProceedOpenVed(ci: nat, name: string, attempt: B.Attempt)
      requires ci < |clients|
      modifies this
      ensures View() == B.OpenVed(old(View()), ci, name, attempt)
    {
      hide B.SetUnsolList, B.IsBuiltin;
      var si := FindServerByName(name);
      if si < |servers| {
        servers := servers[si := servers[si].(refcount := servers[si].refcount + 1)];
      } else {
        lastId := lastId + 1;
        if !B.IsBuiltin(name) && attempt.Refusal? {
          Tell(ci, H.Refused(attempt.code));
          return;
        }
        servers := servers + [B.Server(lastId, name, B.IsBuiltin(name),
                                       if B.IsBuiltin(name) then B.ReadyState else B.Connecting, 1, [], 0)];
      }
      ghost var s1 := View();
      assert B.FindOrCreate(old(View()), name, attempt) == B.At(s1, si);
      var c := clients[ci];
      var l := c.lastLocal + 1;
      var ready := servers[si].status == B.ReadyState;
      clients := clients[ci := c.(lastLocal := l, infos := c.infos + [H.Info(l, servers[si].id, ready)])];
      if ready && c.defUnsol {
        SetUnsol(si, c.id, 1);
      }
      Tell(ci, if ready then H.Opened(l) else H.InProgress(l));
      assert clients[ci] == H.Grant(c, s1.servers[si].id, ready);
      assert clients == s1.clients[ci := clients[ci]];
      assert servers == s1.servers[si := servers[si]];
    }

    method ProceedCloseVed(ci: nat, h: int)
      requires ci < |clients|
      modifies this
      ensures View() == B.CloseVed(old(View()), ci, h)
    {
      hide B.ReleaseServer, H.FreeHandle;
      var c := clients[ci];
      var g := GlobalOf(c.infos, h);
      var si := FindServer(g);
      if g == H.NO_ID || si == |servers| {
        Tell(ci, H.Closed(h, false));
      } else {
        var infos := Freed(c.infos, h);
        clients := clients[ci := c.(infos := infos)];
        Tell(ci, H.Closed(h, true));
        assert clients == old(clients)[ci := clients[ci]];
        ReleaseServer(si, c.id);
      }
    }

    method ProceedSetUnsolicited(ci: nat, h: int, val: int)
      requires ci < |clients|
      modifies this
      ensures View() == B.SetUnsolicited(old(View()), ci, h, val)
    {
      hide B.SetUnsolList;
      var g := GlobalOf(clients[ci].infos, h);
      var si := FindServer(g);
      if g == H.NO_ID || si == |servers| {
        Tell(ci, H.UnsolSet(false));
      } else {
        SetUnsol(si, clients[ci].id, val);
        Tell(ci, H.UnsolSet(true));
      }
    }

    /** ~C_client */
    method LeaveClient(ci: nat)
      requires ci < |clients|
      modifies this
      ensures View() == B.LeaveClient(old(View()), ci)
    {
      hide B.ReleaseServer;
      var c := clients[ci];
      clients := clients[..ci] + clients[ci + 1..];
      ghost var s := View();
      var size := |c.infos|;
      var i := 0;
      while i < size
        invariant 0 <= i <= size == |c.infos|
        invariant B.LeaveAll(View(), c.infos[i..], c.id) == B.LeaveAll(s, c.infos, c.id)
      {
        var si := FindServer(c.infos[i].globalId);
        assert c.infos[i..][1..] == c.infos[i + 1..];
        if si < |servers| {
          ReleaseServer(si, c.id);
        }
        i := i + 1;
      }
    }

    /** proceed_Close */
    method ProceedClose(si: nat, reconnect: B.Attempt)
      requires si < |servers|
      modifies this
      ensures View() == B.CloseConfirmed(old(View()), si, reconnect)
    {
      hide B.DeleteServer, B.OkAll;
      if servers[si].refcount == 0 {
        DeleteServer(si);
      } else if reconnect.Refusal? {
        TellAllFailed(servers[si].id, reconnect.code);
        RemoveServer(si);
      } else {
        servers := servers[si := servers[si].(status := B.Connecting)];
      }
    }

    /** proceed_message_unsol */
    method ProceedUnsol(si: nat)
      requires si < |servers|
      modifies this`clients
      ensures clients == B.Forward(old(clients), servers[si].id, servers[si].unsol)
    {
      var id, unsol := servers[si].id, servers[si].unsol;
      var i := 0;
      while i < |unsol|
        invariant 0 <= i <= |unsol|
        invariant B.Forward(clients, id, unsol[i..]) == B.Forward(old(clients), id, unsol)
      {
        var ci := FindClient(unsol[i]);
        assert unsol[i..][1..] == unsol[i + 1..];
        if ci < |clients| {
          var l := LocalOf(clients[ci].infos, id);
          Tell(ci, H.Unsol(l));
        }
        i := i + 1;
      }
    }

    method ServerTurn(si: nat, e: B.Event)
      requires si < |servers| && !servers[si].isLocal
      modifies this
      ensures View() == B.ServerStep(old(View()), si, e)
    {
      hide B.OpenFailed, B.DeleteServer, B.Initiated, B.CloseConfirmed, B.Forward;
      var status := servers[si].status;
      match e {
        case Connected(_, res) =>
          if status == B.Connecting {
            if res != 0 { OpenFailed(si, res); } else { servers := servers[si := servers[si].(status := B.Opening)]; }
          }
        case OpenAnswer(_, res) =>
          if status == B.Opening && res != 0 { OpenFailed(si, res); }
        case InitiateAnswer(_, res) =>
          if status == B.Opening {
            if res != 0 { OpenFailed(si, res); } else { Initiated(si); }
          }
        case CloseAnswer(_, reconnect) =>
          if status == B.Disconnecting { ProceedClose(si, reconnect); }
        case ReadFails(_, errno) =>
          if status == B.Opening { servers := servers[si := servers[si].(err := errno)]; }
          DeleteServer(si);
        case WriteFails(_) => DeleteServer(si);
        case UnsolMessage(_) =>
          if status == B.ReadyState { ProceedUnsol(si); }
        case _ =>
      }
    }

    /** One event of the main loop. */
    method Turn(e: B.Event)
      modifies this
      ensures View() == B.Step(old(View()), e)
    {
      hide B.OpenVed, B.CloseVed, B.LeaveClient, B.SetUnsolicited, B.ServerStep;
      match e {
        case Join(id, lastLocal, defUnsol) =>
          var ci := FindClient(id);
          if ci == |clients| { clients := clients + [H.Client(id, lastLocal, [], defUnsol, [])]; }
        case Leave(id) =>
          var ci := FindClient(id);
          if ci < |clients| { LeaveClient(ci); }
        case Open(id, name, attempt) =>
          var ci := FindClient(id);
          if ci < |clients| { ProceedOpenVed(ci, name, attempt); }
        case Close(id, h) =>
          var ci := FindClient(id);
          if ci < |clients| { ProceedCloseVed(ci, h); }
        case SetUnsol(id, h, val) =>
          var ci := FindClient(id);
          if ci < |clients| { ProceedSetUnsolicited(ci, h, val); }
        case _ =>
          var si := FindServer(e.server);
          if si < |servers| && !servers[si].isLocal { ServerTurn(si, e); }
      }
    }
  }

  /** The main loop of a broker that is started: it stays in the run of the state machine
      and keeps its invariant. */
  method MainLoop(es: seq<B.Event>) returns (m: Commu)
    ensures fresh(m) && m.View() == R.Run(es) && B.Inv(m.View())
  {
    hide B.Step, B.InvBut;
    m := new Commu();
    var i := 0;
    while i < |es|
      invariant 0 <= i <= |es| && fresh(m) && m.View() == R.Run(es[..i])
    {
      assert es[..i + 1][..i] == es[..i];
      m.Turn(es[i]);
      i := i + 1;
    }
    assert es[..i] == es;
    R.RunInv(es);
  }

  /** One turn of the loop over the handles of a client whose server has died. */
  lemma DiedTurn(c: H.Client, id: int, err: int)
    ensures var h := H.Local(c.infos, id);
      var i := H.IndexOfLocal(c.infos, h);
      B.DiedClient(c, id, err) ==
        if h == H.NO_ID || i == |c.infos| then c
        else
          var note := if c.infos[i].valid then H.Disconnected(h) else H.Failed(h, err);
          B.DiedClient(H.Tell(c.(infos := c.infos[..i] + c.infos[i + 1..]), note), id, err)
  {
    hide H.Local, H.IndexOfLocal;
  }

  lemma {:induction false} UnsolAfterSnoc(unsol: seq<int>, clients: seq<H.Client>, c: H.Client, id: int)
    ensures var before := B.UnsolAfterOk(unsol, clients, id);
      B.UnsolAfterOk(unsol, clients + [c], id)
      == if c.defUnsol && B.OkClient(c, id, 0) != c then B.SetUnsolList(before, c.id, 1) else before
    decreases |clients|
  {
    hide B.OkClient, B.SetUnsolList;
    if clients == [] {
      assert [] + [c] == [c] && [c][1..] == [];
    } else {
      var d := clients[0];
      var next := if d.defUnsol && B.OkClient(d, id, 0) != d then B.SetUnsolList(unsol, d.id, 1) else unsol;
      UnsolAfterSnoc(next, clients[1..], c, id);
      assert (clients + [c])[1..] == clients[1..] + [c];
    }
  }
}
