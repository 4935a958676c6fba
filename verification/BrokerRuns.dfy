/**
  Runs of the broker: the invariant over every run, and what holds for a client that
  holds at most one handle per server.
*/
module BrokerRuns {
  import opened Util
  import opened HandleTable
  import opened Broker
  import opened BrokerSteps

  // ---- a client that holds at most one handle per server ----

  predicate Live(servers: seq<Server>, g: int) {
    exists i :: 0 <= i < |servers| && servers[i].id == g
  }

  /** Every handle names a live server, one per server, and is valid if that is ready. */
  ghost predicate StrongClient(servers: seq<Server>, c: Client) {
    && Single(c.infos)
    && (forall x :: x in c.infos ==> Live(servers, x.globalId) && (IsReady(servers, x.globalId) ==> x.valid))
  }

  ghost predicate Strong(servers: seq<Server>, clients: seq<Client>, who: int) {
    forall i :: 0 <= i < |clients| && clients[i].id == who ==> StrongClient(servers, clients[i])
  }

  ghost predicate AllOk(clients: seq<Client>) {
    forall i :: 0 <= i < |clients| ==> ClientOk(clients[i])
  }

  lemma StrongSubset(servers: seq<Server>, c: Client, d: Client)
    requires StrongClient(servers, c) && (forall x :: x in d.infos ==> x in c.infos)
    requires forall g :: HandlesIn(d.infos, g) <= HandlesIn(c.infos, g)
    ensures StrongClient(servers, d)
  {
    hide HandlesIn, Live, IsReady;
    forall g ensures HandlesIn(d.infos, g) <= 1 {
      assert HandlesIn(c.infos, g) <= 1;
    }
  }

  /** Servers change, but for this client's handles none dies and none becomes ready. */
  lemma StrongServers(servers: seq<Server>, after: seq<Server>, c: Client)
    requires StrongClient(servers, c)
    requires forall x :: x in c.infos && Live(servers, x.globalId) ==> Live(after, x.globalId)
    requires forall x :: x in c.infos && IsReady(after, x.globalId) ==> IsReady(servers, x.globalId)
    ensures StrongClient(after, c)
  {
    hide Single, Live, IsReady;
  }

  lemma UpdateLive(servers: seq<Server>, si: nat, v: Server)
    requires si < |servers| && v.id == servers[si].id
    requires v.status.ReadyState? ==> servers[si].status.ReadyState?
    ensures forall g :: Live(servers, g) ==> Live(servers[si := v], g)
    ensures forall g :: IsReady(servers[si := v], g) ==> IsReady(servers, g)
  {
    var after := servers[si := v];
    forall g | Live(servers, g) ensures Live(after, g) {
      var i :| 0 <= i < |servers| && servers[i].id == g;
      assert after[i].id == g;
    }
    forall g | IsReady(after, g) ensures IsReady(servers, g) {
      var i :| 0 <= i < |after| && after[i].id == g && after[i].status.ReadyState?;
      assert servers[i].id == g && servers[i].status.ReadyState?;
    }
  }

  lemma StrongUpdate(s: State, si: nat, v: Server, who: int)
    requires Strong(s.servers, s.clients, who) && si < |s.servers| && v.id == s.servers[si].id
    requires v.status.ReadyState? ==> s.servers[si].status.ReadyState?
    ensures Strong(s.servers[si := v], s.clients, who)
  {
    hide StrongClient, Live, IsReady;
    UpdateLive(s.servers, si, v);
    forall i | 0 <= i < |s.clients| && s.clients[i].id == who
      ensures StrongClient(s.servers[si := v], s.clients[i])
    {
      StrongServers(s.servers, s.servers[si := v], s.clients[i]);
    }
  }

  lemma StrongRemove(servers: seq<Server>, si: nat, c: Client)
    requires StrongClient(servers, c) && si < |servers| && HandlesIn(c.infos, servers[si].id) == 0
    ensures StrongClient(servers[..si] + servers[si + 1..], c)
  {
    hide Single;
    var after := servers[..si] + servers[si + 1..];
    HandlesZero(c.infos, servers[si].id);
    forall x | x in c.infos && Live(servers, x.globalId) ensures Live(after, x.globalId) {
      var i :| 0 <= i < |servers| && servers[i].id == x.globalId;
      assert after[if i < si then i else i - 1] == servers[i];
    }
    forall x | x in c.infos && IsReady(after, x.globalId) ensures IsReady(servers, x.globalId) {
      var i :| 0 <= i < |after| && after[i].id == x.globalId && after[i].status.ReadyState?;
      assert servers[if i < si then i else i + 1] == after[i];
    }
    StrongServers(servers, after, c);
  }

  lemma StrongDelete(s: State, si: nat, who: int)
    requires Strong(s.servers, s.clients, who) && AllOk(s.clients) && si < |s.servers|
    ensures var t := DeleteServer(s, si); Strong(t.servers, t.clients, who) && AllOk(t.clients)
  {
    hide StrongClient, HandlesIn, ClientOk, DiedClient;
    var t := DeleteServer(s, si);
    var v := s.servers[si];
    forall i | 0 <= i < |t.clients|
      ensures ClientOk(t.clients[i]) && (t.clients[i].id == who ==> StrongClient(t.servers, t.clients[i]))
    {
      DiedClientKeeps(s.clients[i], v.id, v.err);
      if t.clients[i].id == who {
        StrongSubset(s.servers, s.clients[i], t.clients[i]);
        StrongRemove(s.servers, si, t.clients[i]);
      }
    }
  }

  lemma StrongRelease(s: State, si: nat, u: int, who: int)
    requires Strong(s.servers, s.clients, who) && AllOk(s.clients) && si < |s.servers|
    ensures var t := ReleaseServer(s, si, u); Strong(t.servers, t.clients, who) && AllOk(t.clients)
  {
    hide StrongClient, ClientOk, DeleteServer;
    var v := s.servers[si];
    var v' := v.(unsol := RemoveFirst(v.unsol, u), refcount := v.refcount - 1);
    StrongUpdate(s, si, v', who);
    StrongUpdate(s, si, v'.(status := Disconnecting), who);
    if v'.refcount == 0 && (v'.isLocal || v'.status != ReadyState) {
      StrongDelete(s.(servers := s.servers[si := v']), si, who);
    }
  }

  lemma StrongClosing(s: State, ci: nat, h: int, who: int)
    requires Strong(s.servers, s.clients, who) && AllOk(s.clients)
    requires ci < |s.clients| && Find(s.clients[ci].infos, h).Some?
    ensures var clients := s.clients[ci := Closing(s.clients[ci], h)]; Strong(s.servers, clients, who) && AllOk(clients)
  {
    hide StrongClient, Balanced, FreeHandle, Find, HandlesIn;
    var c := s.clients[ci];
    FreeOk(c, h, Closed(h, true));
    HandlesAfter(c.infos, h);
    FreeSubset(c.infos, h);
    if c.id == who {
      StrongSubset(s.servers, c, Closing(c, h));
    }
  }

  lemma InvAllOk(s: State, except: int)
    requires InvBut(s, except)
    ensures AllOk(s.clients)
  {
  }

  lemma {:induction false} StrongLeave(s: State, ci: nat, who: int)
    requires Inv(s) && Strong(s.servers, s.clients, who) && ci < |s.clients|
    ensures var t := LeaveAll(Without(s, ci), s.clients[ci].infos, s.clients[ci].id); Strong(t.servers, t.clients, who)
    decreases |s.clients[ci].infos|
  {
    hide InvBut, ReleaseServer, Closing, StrongClient, ClientOk, Find;
    var c := s.clients[ci];
    if c.infos != [] {
      LeaveOne(s, ci);
      var si := IndexOf(s.servers, c.infos[0].globalId);
      var s1 := s.(clients := s.clients[ci := Closing(c, c.infos[0].localId)]);
      InvAllOk(s, 0);
      HeldIsNumbered(c, 0);
      StrongClosing(s, ci, c.infos[0].localId, who);
      if si < |s.servers| {
        StrongRelease(s1, si, c.id, who);
        StrongLeave(ReleaseServer(s1, si, c.id), ci, who);
      } else {
        StrongLeave(s1, ci, who);
      }
    }
  }

  lemma StrongOpenFailed(s: State, si: nat, res: code, who: int)
    requires Strong(s.servers, s.clients, who) && AllOk(s.clients) && si < |s.servers|
    ensures var t := OpenFailed(s, si, res); Strong(t.servers, t.clients, who)
  {
    hide StrongClient, ClientOk, DeleteServer, HandlesIn, OkClient;
    var after := OkAll(s.clients, s.servers[si].id, res);
    forall i | 0 <= i < |after|
      ensures ClientOk(after[i]) && (after[i].id == who ==> StrongClient(s.servers, after[i]))
    {
      OkClientKeeps(s.clients[i], s.servers[si].id, res);
      if after[i].id == who {
        StrongSubset(s.servers, s.clients[i], after[i]);
      }
    }
    StrongDelete(s.(clients := after), si, who);
  }

  lemma OkZeroValid(c: Client, id: int)
    requires ClientOk(c) && HandlesIn(c.infos, id) <= 1
    ensures forall x :: x in OkClient(c, id, 0).infos && x.globalId == id ==> x.valid
  {
    hide Balanced, HandlesIn;
    var k := IndexOfGlobal(c.infos, id);
    if k < |c.infos| {
      HeldIsNumbered(c, k);
      SecondGlobal(c.infos, id);
    } else {
      HandlesZero(c.infos, id);
    }
  }

  /** With at most one handle on id, only the first entry found is on id. */
  lemma SecondGlobal(infos: seq<Info>, id: int)
    requires HandlesIn(infos, id) <= 1
    ensures forall j :: 0 <= j < |infos| && infos[j].globalId == id ==> j == IndexOfGlobal(infos, id)
  {
    hide HandlesIn;
    forall j | 0 <= j < |infos| && infos[j].globalId == id ensures j == IndexOfGlobal(infos, id) {
      SingleFirst(infos, j);
    }
  }

  /** When none of its handles on id is valid, a refusal takes exactly one of them. */
  lemma RefusalTakesOne(c: Client, id: int, res: code)
    requires ClientOk(c) && forall x :: x in c.infos && x.globalId == id ==> !x.valid
    ensures HandlesIn(OkClient(c, id, res).infos, id)
         == if HandlesIn(c.infos, id) == 0 then 0 else HandlesIn(c.infos, id) - 1
  {
    hide Balanced, HandlesIn, Find, FreeHandle;
    NoHandle(c, id);
    var h := Local(c.infos, id);
    if h != NO_ID {
      FirstHandle(c, id);
      HandlesAfter(c.infos, h);
    }
  }

  lemma UpdateReadyOnly(servers: seq<Server>, si: nat, v: Server, g: int)
    requires si < |servers| && v.id == servers[si].id && g != v.id && IsReady(servers[si := v], g)
    ensures IsReady(servers, g)
  {
    var i :| 0 <= i < |servers| && servers[si := v][i].id == g && servers[si := v][i].status.ReadyState?;
    assert servers[i].id == g && servers[i].status.ReadyState?;
  }

  lemma StrongInitiatedClient(servers: seq<Server>, si: nat, v: Server, c: Client)
    requires si < |servers| && v.id == servers[si].id && StrongClient(servers, c) && ClientOk(c)
    ensures StrongClient(servers[si := v], OkClient(c, v.id, 0))
  {
    hide HandlesIn, IsReady, OkClient, Balanced;
    var d := OkClient(c, v.id, 0);
    OkClientKeeps(c, v.id, 0);
    assert HandlesIn(c.infos, v.id) <= 1;
    OkZeroValid(c, v.id);
    forall g ensures HandlesIn(d.infos, g) <= 1 {
      assert HandlesIn(c.infos, g) <= 1;
    }
    forall x | x in d.infos
      ensures Live(servers[si := v], x.globalId) && (IsReady(servers[si := v], x.globalId) ==> x.valid)
    {
      if x.globalId == v.id {
        assert servers[si := v][si].id == x.globalId;
      } else {
        assert x in c.infos;
        var i :| 0 <= i < |servers| && servers[i].id == x.globalId;
        assert servers[si := v][i].id == x.globalId;
        if IsReady(servers[si := v], x.globalId) {
          UpdateReadyOnly(servers, si, v, x.globalId);
        }
      }
    }
  }

  lemma StrongInitiated(s: State, si: nat, who: int)
    requires Strong(s.servers, s.clients, who) && AllOk(s.clients) && si < |s.servers|
    ensures var t := Initiated(s, si); Strong(t.servers, t.clients, who)
  {
    hide StrongClient, ClientOk, OkClient, UnsolAfterOk;
    var t := Initiated(s, si);
    forall i | 0 <= i < |t.clients| && t.clients[i].id == who ensures StrongClient(t.servers, t.clients[i]) {
      OkClientKeeps(s.clients[i], s.servers[si].id, 0);
      StrongInitiatedClient(s.servers, si, t.servers[si], s.clients[i]);
    }
  }

  lemma StrongCloseConfirmed(s: State, si: nat, reconnect: Attempt, who: int)
    requires Inv(s) && Strong(s.servers, s.clients, who) && si < |s.servers| && s.servers[si].status.Disconnecting?
    ensures var t := CloseConfirmed(s, si, reconnect); Strong(t.servers, t.clients, who)
  {
    hide InvBut, StrongClient, ClientOk, OkClient, HandlesIn, DeleteServer;
    var v := s.servers[si];
    InvAllOk(s, 0);
    if v.refcount == 0 {
      StrongDelete(s, si, who);
    } else if reconnect.Started? {
      StrongUpdate(s, si, v.(status := Connecting), who);
    } else {
      NotReadyNoneValid(s, si, 0);
      var t := CloseConfirmed(s, si, reconnect);
      forall i | 0 <= i < |t.clients| && t.clients[i].id == who ensures StrongClient(t.servers, t.clients[i]) {
        var c := s.clients[i];
        OkClientKeeps(c, v.id, reconnect.code);
        StrongSubset(s.servers, c, t.clients[i]);
        RefusalTakesOne(c, v.id, reconnect.code);
        AtMostOne(s.servers, c, v.id);
        StrongRemove(s.servers, si, t.clients[i]);
      }
    }
  }

  lemma AtMostOne(servers: seq<Server>, c: Client, g: int)
    requires StrongClient(servers, c)
    ensures HandlesIn(c.infos, g) <= 1
  {
  }

  lemma StrongTell(s: State, ci: nat, n: Note, who: int)
    requires Strong(s.servers, s.clients, who)
    ensures Strong(s.servers, TellAt(s, ci, n).clients, who)
  {
    hide Live, IsReady, HandlesIn;
  }

  lemma {:induction false} StrongForward(s: State, id: int, unsol: seq<int>, who: int)
    requires Strong(s.servers, s.clients, who)
    ensures Strong(s.servers, Forward(s.clients, id, unsol), who)
    decreases |unsol|
  {
    hide Strong;
    if unsol != [] {
      var ci := ClientIndex(s.clients, unsol[0]);
      var n := if ci < |s.clients| then Unsol(Local(s.clients[ci].infos, id)) else UnsolSet(false);
      StrongTell(s, ci, n, who);
      StrongForward(TellAt(s, ci, n), id, unsol[1..], who);
    }
  }

  lemma StrongGive(s: State, ci: nat, si: nat, who: int)
    requires ServersOk(s.servers, s.lastId) && Strong(s.servers, s.clients, who) && ci < |s.clients| && si < |s.servers|
    requires s.clients[ci].id == who ==> HandlesIn(s.clients[ci].infos, s.servers[si].id) == 0
    ensures var t := GiveHandle(s, ci, si); Strong(t.servers, t.clients, who)
  {
    hide StrongClient, SetUnsolList;
    var t := GiveHandle(s, ci, si);
    StrongUpdate(s, si, t.servers[si], who);
    if s.clients[ci].id == who {
      StrongGrant(t.servers, s.clients[ci], t.servers[si].id, s.servers[si].status.ReadyState?, si);
    }
  }

  lemma StrongGrant(servers: seq<Server>, c: Client, g: int, ready: bool, si: nat)
    requires StrongClient(servers, c) && HandlesIn(c.infos, g) == 0
    requires si < |servers| && servers[si].id == g && (ready <==> servers[si].status.ReadyState?)
    requires forall i :: 0 <= i < |servers| && servers[i].id == g && servers[i].status.ReadyState? ==> ready
    ensures StrongClient(servers, Grant(c, g, ready))
  {
    hide HandlesIn;
    var info := Info(c.lastLocal + 1, g, ready);
    forall k ensures HandlesIn(c.infos + [info], k) <= 1 {
      HandlesConcat(c.infos, [info], k);
      HandlesOne(info, k);
      assert HandlesIn(c.infos, k) <= 1;
    }
  }

  // ---- every event ----

  /** This client does not open a server it already has a handle on. */
  predicate SingleEvent(s: State, e: Event, who: int) {
    e.Open? && e.client == who ==>
      var ci, si := ClientIndex(s.clients, e.client), IndexOfName(s.servers, e.name);
      ci < |s.clients| && si < |s.servers| ==> HandlesIn(s.clients[ci].infos, s.servers[si].id) == 0
  }

  lemma StrongAppend(servers: seq<Server>, v: Server, clients: seq<Client>, lastId: int, who: int)
    requires Strong(servers, clients, who) && v.id == lastId + 1
    requires forall i :: 0 <= i < |clients| ==> HandlesOk(servers, clients[i], lastId)
    ensures Strong(servers + [v], clients, who)
  {
    hide Single;
    var after := servers + [v];
    forall i | 0 <= i < |clients| && clients[i].id == who ensures StrongClient(after, clients[i]) {
      assert HandlesOk(servers, clients[i], lastId) && StrongClient(servers, clients[i]);
      forall x | x in clients[i].infos && Live(servers, x.globalId) ensures Live(after, x.globalId) {
        var k :| 0 <= k < |servers| && servers[k].id == x.globalId;
        assert after[k].id == x.globalId;
      }
      forall x | x in clients[i].infos && IsReady(after, x.globalId) ensures IsReady(servers, x.globalId) {
        var k :| 0 <= k < |after| && after[k].id == x.globalId && after[k].status.ReadyState?;
        assert k < |servers| && servers[k] == after[k];
      }
      StrongServers(servers, after, clients[i]);
    }
  }

  lemma StrongCreated(s: State, ci: nat, v: Server, who: int)
    requires Inv(s) && Strong(s.servers, s.clients, who) && ci < |s.clients| && v.id == s.lastId + 1
    requires IndexOfName(s.servers, v.name) == |s.servers| && (v.isLocal ==> v.status.ReadyState?)
    ensures var t := s.(lastId := s.lastId + 1, servers := s.servers + [v]);
      ServersOk(t.servers, t.lastId) && Strong(t.servers, t.clients, who) && HandlesIn(t.clients[ci].infos, v.id) == 0
  {
    hide StrongClient, ClientOk, IdleOk, CountsOk, UnsolOk, ClientIdsOk;
    StrongAppend(s.servers, v, s.clients, s.lastId, who);
    assert HandlesOk(s.servers, s.clients[ci], s.lastId);
    HandlesZero(s.clients[ci].infos, v.id);
  }

  lemma UpdatedServersOk(servers: seq<Server>, si: nat, v: Server, lastId: int)
    requires ServersOk(servers, lastId) && si < |servers| && v == servers[si].(refcount := v.refcount)
    ensures ServersOk(servers[si := v], lastId)
  {
  }

  lemma InvServers(s: State)
    requires Inv(s)
    ensures ServersOk(s.servers, s.lastId)
  {
  }

  lemma StrongOpen(s: State, ci: nat, name: string, attempt: Attempt, who: int)
    requires Inv(s) && Strong(s.servers, s.clients, who) && ci < |s.clients|
    requires IndexOfName(s.servers, name) < |s.servers| && s.clients[ci].id == who ==>
      HandlesIn(s.clients[ci].infos, s.servers[IndexOfName(s.servers, name)].id) == 0
    ensures var t := OpenVed(s, ci, name, attempt); Strong(t.servers, t.clients, who)
  {
    hide Strong, InvBut, GiveHandle, HandlesIn, ServersOk;
    InvServers(s);
    var si := IndexOfName(s.servers, name);
    if si < |s.servers| {
      var v := s.servers[si].(refcount := s.servers[si].refcount + 1);
      StrongUpdate(s, si, v, who);
      UpdatedServersOk(s.servers, si, v, s.lastId);
      StrongGive(s.(servers := s.servers[si := v]), ci, si, who);
    } else if !IsBuiltin(name) && attempt.Refusal? {
      StrongTell(s.(lastId := s.lastId + 1), ci, Refused(attempt.code), who);
    } else {
      var f := FindOrCreate(s, name, attempt);
      StrongCreated(s, ci, f.s.servers[f.si], who);
      StrongGive(f.s, ci, f.si, who);
    }
  }

  lemma StrongClose(s: State, ci: nat, h: int, who: int)
    requires Inv(s) && Strong(s.servers, s.clients, who) && ci < |s.clients|
    ensures var t := CloseVed(s, ci, h); Strong(t.servers, t.clients, who)
  {
    hide InvBut, StrongClient, ClientOk, FreeHandle, ReleaseServer;
    var c := s.clients[ci];
    var g := Global(c.infos, h);
    var si := IndexOf(s.servers, g);
    InvAllOk(s, 0);
    if g == NO_ID || si == |s.servers| {
      StrongTell(s, ci, Closed(h, false), who);
    } else {
      StrongClosing(s, ci, h, who);
      StrongRelease(s.(clients := s.clients[ci := Closing(c, h)]), si, c.id, who);
    }
  }

  lemma StrongSetUnsol(s: State, ci: nat, h: int, val: int, who: int)
    requires Strong(s.servers, s.clients, who) && ci < |s.clients|
    ensures var t := SetUnsolicited(s, ci, h, val); Strong(t.servers, t.clients, who)
  {
    hide StrongClient, SetUnsolList;
    var c := s.clients[ci];
    var si := IndexOf(s.servers, Global(c.infos, h));
    if Global(c.infos, h) == NO_ID || si == |s.servers| {
      StrongTell(s, ci, UnsolSet(false), who);
    } else {
      var v := s.servers[si].(unsol := SetUnsolList(s.servers[si].unsol, c.id, val));
      StrongUpdate(s, si, v, who);
      StrongTell(s.(servers := s.servers[si := v]), ci, UnsolSet(true), who);
    }
  }

  lemma StrongServerStep(s: State, si: nat, e: Event, who: int)
    requires Inv(s) && Strong(s.servers, s.clients, who) && si < |s.servers| && !s.servers[si].isLocal
    ensures var t := ServerStep(s, si, e); Strong(t.servers, t.clients, who)
  {
    hide InvBut, StrongClient, ClientOk, OpenFailed, DeleteServer, Initiated, CloseConfirmed, Forward;
    var v := s.servers[si];
    InvAllOk(s, 0);
    match e {
      case Connected(_, res) =>
        if v.status == Connecting {
          if res != 0 { StrongOpenFailed(s, si, res, who); } else { StrongUpdate(s, si, v.(status := Opening), who); }
        }
      case OpenAnswer(_, res) =>
        if v.status == Opening && res != 0 { StrongOpenFailed(s, si, res, who); }
      case InitiateAnswer(_, res) =>
        if v.status == Opening {
          if res != 0 { StrongOpenFailed(s, si, res, who); } else { StrongInitiated(s, si, who); }
        }
      case CloseAnswer(_, reconnect) =>
        if v.status == Disconnecting { StrongCloseConfirmed(s, si, reconnect, who); }
      case ReadFails(_, errno) =>
        StrongUpdate(s, si, v.(err := errno), who);
        StrongDelete(s, si, who);
        StrongDelete(s.(servers := s.servers[si := v.(err := errno)]), si, who);
      case WriteFails(_) => StrongDelete(s, si, who);
      case UnsolMessage(_) => StrongForward(s, v.id, v.unsol, who);
      case _ =>
    }
  }

  lemma StrongStep(s: State, e: Event, who: int)
    requires Inv(s) && Strong(s.servers, s.clients, who) && SingleEvent(s, e, who)
    ensures Strong(Step(s, e).servers, Step(s, e).clients, who)
  {
    hide InvBut, StrongClient, OpenVed, CloseVed, LeaveAll, SetUnsolicited, ServerStep;
    match e {
      case Join(id, lastLocal, defUnsol) =>
        if ClientIndex(s.clients, id) == |s.clients| {
          NewStrong(s.servers, Client(id, lastLocal, [], defUnsol, []));
        }
      case Leave(id) =>
        var ci := ClientIndex(s.clients, id);
        if ci < |s.clients| { StrongLeave(s, ci, who); }
      case Open(id, name, attempt) =>
        var ci := ClientIndex(s.clients, id);
        if ci < |s.clients| { StrongOpen(s, ci, name, attempt, who); }
      case Close(id, h) =>
        var ci := ClientIndex(s.clients, id);
        if ci < |s.clients| { StrongClose(s, ci, h, who); }
      case SetUnsol(id, h, val) =>
        var ci := ClientIndex(s.clients, id);
        if ci < |s.clients| { StrongSetUnsol(s, ci, h, val, who); }
      case _ =>
        var si := IndexOf(s.servers, e.server);
        if si < |s.servers| && !s.servers[si].isLocal { StrongServerStep(s, si, e, who); }
    }
  }

  lemma NewStrong(servers: seq<Server>, c: Client)
    requires c.infos == []
    ensures StrongClient(servers, c)
  {
  }

  // ---- runs ----

  const START: State := State(0, [], [])

  /** The state after these events, from a broker without clients and servers. */
  function Run(es: seq<Event>): State {
    if es == [] then START else Step(Run(es[..|es| - 1]), es[|es| - 1])
  }

  /** This client never opens a server on which it holds a handle. */
  predicate SingleRun(es: seq<Event>, who: int) {
    es == [] || (SingleRun(es[..|es| - 1], who) && SingleEvent(Run(es[..|es| - 1]), es[|es| - 1], who))
  }

  lemma {:induction false} RunInv(es: seq<Event>)
    ensures Inv(Run(es))
  {
    hide Step;
    if es != [] {
      RunInv(es[..|es| - 1]);
      KeepStep(Run(es[..|es| - 1]), es[|es| - 1]);
    }
  }

  lemma {:induction false} RunStrong(es: seq<Event>, who: int)
    requires SingleRun(es, who)
    ensures Strong(Run(es).servers, Run(es).clients, who)
  {
    hide Step, SingleEvent, StrongClient;
    if es != [] {
      RunStrong(es[..|es| - 1], who);
      RunInv(es[..|es| - 1]);
      StrongStep(Run(es[..|es| - 1]), es[|es| - 1], who);
    }
  }

  /** In every run a live server counts exactly the handles that clients hold on it,
      and one without handles is waiting for its Close confirmation. */
  lemma RefcountIsHandles(es: seq<Event>, si: nat)
    requires si < |Run(es).servers|
    ensures var s := Run(es);
      s.servers[si].refcount == Handles(s.clients, s.servers[si].id) &&
      (s.servers[si].refcount == 0 ==> s.servers[si].status.Disconnecting?)
  {
    hide Run, Handles, UnsolOk, ClientsOk, ClientIdsOk;
    RunInv(es);
  }

  /** In every run a valid handle's server is alive and ready. */
  lemma ValidIsReady(es: seq<Event>, ci: nat, x: Info)
    requires ci < |Run(es).clients| && x in Run(es).clients[ci].infos && x.valid
    ensures IsReady(Run(es).servers, x.globalId)
  {
    hide Run, Handles, UnsolOk, ServersOk, CountsOk, ClientOk;
    RunInv(es);
    assert HandlesOk(Run(es).servers, Run(es).clients[ci], Run(es).lastId);
  }

  /** As long as a client never opens a server it has a handle on, whatever the others do,
      each of its handles names a live server and is valid exactly when that is ready. */
  lemma ValidIffReady(es: seq<Event>, ci: nat, x: Info)
    requires ci < |Run(es).clients| && SingleRun(es, Run(es).clients[ci].id) && x in Run(es).clients[ci].infos
    ensures Live(Run(es).servers, x.globalId) && (x.valid <==> IsReady(Run(es).servers, x.globalId))
  {
    hide Run, InvBut, SingleRun, Live, IsReady;
    RunStrong(es, Run(es).clients[ci].id);
    assert StrongClient(Run(es).servers, Run(es).clients[ci]);
    if x.valid {
      ValidIsReady(es, ci, x);
    }
  }

  /** In every run an OpenVED is promised a completion at most once per handle, gets
      at most the one, and gets it after the promise. */
  lemma AtMostOneCompletion(es: seq<Event>, ci: nat, h: int)
    requires ci < |Run(es).clients|
    ensures var c := Run(es).clients[ci]; Completions(c.inbox, h) <= Promises(c.inbox, h) <= 1 && Orderly(c.inbox)
  {
    hide Run, ServersOk, CountsOk, UnsolOk;
    RunInv(es);
    assert ClientOk(Run(es).clients[ci]) && Balanced(Run(es).clients[ci], h);
  }

  /** As long as a client never opens a server it has a handle on, a completion promised
      to it has come exactly once, unless the client closed the handle first or the
      server is alive and not ready yet. */
  lemma ExactlyOneCompletion(es: seq<Event>, ci: nat, h: int)
    requires ci < |Run(es).clients| && SingleRun(es, Run(es).clients[ci].id)
    requires Promises(Run(es).clients[ci].inbox, h) > 0
    ensures var s := Run(es);
      var c := s.clients[ci];
      Completions(c.inbox, h) == 1
      || (Completions(c.inbox, h) == 0 && Closes(c.inbox, h) == 1)
      || (Completions(c.inbox, h) == 0 && Waiting(c, h) &&
          Live(s.servers, Global(c.infos, h)) && !IsReady(s.servers, Global(c.infos, h)))
  {
    hide Run, ServersOk, CountsOk, UnsolOk, HandlesOk, Live, IsReady, SingleRun;
    RunInv(es);
    var c := Run(es).clients[ci];
    assert ClientOk(c) && Balanced(c, h);
    var k := IndexOfLocal(c.infos, h);
    if k < |c.infos| {
      ValidIffReady(es, ci, c.infos[k]);
    }
  }

  /** A client that is to get a server's unsolicited messages is there, and they
      reach it under a handle of its own. */
  lemma UnsolReachesHandle(es: seq<Event>, si: nat, u: int)
    requires si < |Run(es).servers| && u in Run(es).servers[si].unsol
    ensures var s := Run(es);
      var ci := ClientIndex(s.clients, u);
      ci < |s.clients| && Local(s.clients[ci].infos, s.servers[si].id) != NO_ID
  {
    hide Run, Handles, ClientOk, HandlesIn, ServersOk, Local;
    RunInv(es);
    var s := Run(es);
    var g := s.servers[si].id;
    IdsPositive(s, 0);
    assert Holds(s.clients, u, g);
    var i :| 0 <= i < |s.clients| && s.clients[i].id == u && HandlesIn(s.clients[i].infos, g) > 0;
    assert ClientIndex(s.clients, u) == i;
    assert ClientOk(s.clients[i]);
    NoHandle(s.clients[i], g);
  }
}
