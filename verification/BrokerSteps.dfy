/**
  Every event keeps the broker's invariant.

  Most events concern one client and one server: the lemmas about them say what happens
  to this pair and that nothing happens elsewhere.  A server that comes or goes concerns
  all clients.
*/
module BrokerSteps {
  import opened Util
  import opened HandleTable
  import opened Broker

  // ---- steps that concern one client and one server ----

  /** d is client c with its handles on servers other than g as before. */
  ghost predicate Elsewhere(c: Client, d: Client, g: int) {
    && ClientOk(d) && d.id == c.id
    && (forall k :: k != g ==> HandlesIn(d.infos, k) == HandlesIn(c.infos, k))
  }

  lemma HoldsElsewhere(clients: seq<Client>, ci: nat, d: Client, g: int, u: int, k: int)
    requires ci < |clients| && Elsewhere(clients[ci], d, g) && Holds(clients, u, k)
    requires k != g || u != d.id
    ensures Holds(clients[ci := d], u, k)
  {
    var i :| 0 <= i < |clients| && clients[i].id == u && HandlesIn(clients[i].infos, k) > 0;
    assert clients[ci := d][i].id == u;
  }

  lemma KeepClient(s: State, ci: nat, d: Client, g: int)
    requires ci < |s.clients| && InvBut(s, g) && Elsewhere(s.clients[ci], d, g) && HandlesOk(s.servers, d, s.lastId)
    ensures InvBut(s.(clients := s.clients[ci := d]), g)
  {
    hide Handles, HandlesIn, Holds, ClientOk, ServersOk, IdleOk, NoDup, HandlesOk;
    var clients := s.clients[ci := d];
    forall i | 0 <= i < |s.servers| && s.servers[i].id != g
      ensures s.servers[i].refcount == Handles(clients, s.servers[i].id)
      ensures forall u :: u in s.servers[i].unsol ==> Holds(clients, u, s.servers[i].id)
    {
      HandlesUpdateC(s.clients, ci, d, s.servers[i].id);
      forall u | u in s.servers[i].unsol ensures Holds(clients, u, s.servers[i].id) {
        HoldsElsewhere(s.clients, ci, d, g, u, s.servers[i].id);
      }
    }
  }

  /** The client with handle h closed. */
  function Closing(c: Client, h: int): Client {
    Tell(c.(infos := FreeHandle(c.infos, h)), Closed(h, true))
  }

  lemma ClosingIs(servers: seq<Server>, c: Client, h: int, lastId: int)
    requires ClientOk(c) && HandlesOk(servers, c, lastId) && Find(c.infos, h).Some?
    ensures var g := Find(c.infos, h).value.globalId;
      Elsewhere(c, Closing(c, h), g) && HandlesOk(servers, Closing(c, h), lastId) &&
      HandlesIn(Closing(c, h).infos, g) == HandlesIn(c.infos, g) - 1 && Global(c.infos, h) == g
  {
    hide HandlesIn, FreeHandle, Balanced, IsReady;
    FreeOk(c, h, Closed(h, true));
    HandlesAfter(c.infos, h);
    FreeSubset(c.infos, h);
  }

  /** Closing a handle on a live server and letting go of the server. */
  lemma KeepClosing(s: State, ci: nat, h: int, si: nat)
    requires Inv(s) && ci < |s.clients| && Find(s.clients[ci].infos, h).Some?
    requires si < |s.servers| && s.servers[si].id == Find(s.clients[ci].infos, h).value.globalId
    ensures Inv(ReleaseServer(s.(clients := s.clients[ci := Closing(s.clients[ci], h)]), si, s.clients[ci].id))
  {
    hide Handles, HandlesIn, Holds, ServersOk, IdleOk, Closing, Balanced, HandlesOk, Find;
    var c, g := s.clients[ci], s.servers[si].id;
    assert ClientOk(c) && HandlesOk(s.servers, c, s.lastId);
    ClosingIs(s.servers, c, h, s.lastId);
    IdsPositive(s, 0);
    Loosen(s, g);
    KeepClient(s, ci, Closing(c, h), g);
    HandlesUpdateC(s.clients, ci, Closing(c, h), g);
    forall u | u in s.servers[si].unsol && u != c.id ensures Holds(s.clients[ci := Closing(c, h)], u, g) {
      HoldsElsewhere(s.clients, ci, Closing(c, h), g, u, g);
    }
    KeepRelease(s.(clients := s.clients[ci := Closing(c, h)]), si, c.id);
  }

  /** Closing a handle whose server is gone already. */
  lemma KeepClosingLost(s: State, ci: nat, h: int)
    requires Inv(s) && ci < |s.clients| && Find(s.clients[ci].infos, h).Some?
    requires IndexOf(s.servers, Find(s.clients[ci].infos, h).value.globalId) == |s.servers|
    ensures Inv(s.(clients := s.clients[ci := Closing(s.clients[ci], h)]))
  {
    hide Handles, HandlesIn, Holds, Closing, Balanced, HandlesOk, Find;
    var c := s.clients[ci];
    var g := Find(c.infos, h).value.globalId;
    var t := s.(clients := s.clients[ci := Closing(c, h)]);
    assert ClientOk(c) && HandlesOk(s.servers, c, s.lastId);
    ClosingIs(s.servers, c, h, s.lastId);
    IdsPositive(s, 0);
    Loosen(s, g);
    KeepClient(s, ci, Closing(c, h), g);
  }

  // ---- leaving ----

  function Without(s: State, ci: nat): State
    requires ci < |s.clients|
  {
    s.(clients := s.clients[..ci] + s.clients[ci + 1..])
  }

  lemma KeepWithout(s: State, ci: nat)
    requires Inv(s) && ci < |s.clients| && s.clients[ci].infos == []
    ensures Inv(Without(s, ci))
  {
    hide Handles, ClientOk, ServersOk, IdleOk, HandlesOk, NoDup;
    var t := Without(s, ci);
    assert forall k :: 0 <= k < |t.clients| ==> t.clients[k] == s.clients[if k < ci then k else k + 1];
    forall i | 0 <= i < |s.servers|
      ensures s.servers[i].id != 0 ==> s.servers[i].refcount == Handles(t.clients, s.servers[i].id)
      ensures s.servers[i].id != 0 ==> forall u :: u in s.servers[i].unsol ==> Holds(t.clients, u, s.servers[i].id)
    {
      HandlesRemoveC(s.clients, ci, s.servers[i].id);
      forall u | u in s.servers[i].unsol && s.servers[i].id != 0 ensures Holds(t.clients, u, s.servers[i].id) {
        var k :| 0 <= k < |s.clients| && s.clients[k].id == u && HandlesIn(s.clients[k].infos, s.servers[i].id) > 0;
        assert t.clients[if k < ci then k else k - 1] == s.clients[k];
      }
    }
  }

  lemma DiedWithout(clients: seq<Client>, ci: nat, id: int, err: int)
    requires ci < |clients|
    ensures DiedAll(clients[..ci] + clients[ci + 1..], id, err)
         == DiedAll(clients, id, err)[..ci] + DiedAll(clients, id, err)[ci + 1..]
  {
    hide DiedClient;
  }

  /** Letting go of a server does not involve the leaving client itself. */
  lemma ReleaseWithout(s: State, ci: nat, si: nat, u: int)
    requires ci < |s.clients| && si < |s.servers|
    ensures |ReleaseServer(s, si, u).clients| == |s.clients|
    ensures ReleaseServer(Without(s, ci), si, u) == Without(ReleaseServer(s, si, u), ci)
  {
    hide DiedAll, RemoveFirst;
    DiedWithout(s.clients, ci, s.servers[si].id, s.servers[si].err);
  }

  /** A client without handles on a dying server notices nothing. */
  lemma DiedNothing(c: Client, id: int, err: int)
    requires HandlesIn(c.infos, id) == 0
    ensures DiedClient(c, id, err) == c
  {
    HandlesZero(c.infos, id);
  }

  lemma ReleaseSpares(s: State, ci: nat, si: nat, u: int)
    requires ci < |s.clients| && si < |s.servers|
    requires s.servers[si].refcount == Handles(s.clients, s.servers[si].id) + 1
    ensures |ReleaseServer(s, si, u).clients| == |s.clients| && ReleaseServer(s, si, u).clients[ci] == s.clients[ci]
  {
    hide Handles, DiedClient, RemoveFirst;
    var id := s.servers[si].id;
    HoldsIffHandles(s.clients, id);
    if Handles(s.clients, id) == 0 {
      DiedNothing(s.clients[ci], id, s.servers[si].err);
    }
  }

  /** One turn of the loop over the leaving client's handles. */
  lemma LeaveOne(s: State, ci: nat)
    requires Inv(s) && ci < |s.clients| && s.clients[ci].infos != []
    ensures var c := s.clients[ci];
      var si := IndexOf(s.servers, c.infos[0].globalId);
      var s1 := s.(clients := s.clients[ci := Closing(c, c.infos[0].localId)]);
      var t := if si < |s.servers| then ReleaseServer(s1, si, c.id) else s1;
      && Inv(t) && ci < |t.clients| && t.clients[ci].id == c.id && t.clients[ci].infos == c.infos[1..]
      && Without(t, ci) == (if si < |s.servers| then ReleaseServer(Without(s, ci), si, c.id) else Without(s, ci))
  {
    hide Handles, HandlesIn, ServersOk, IdleOk, ClientIdsOk, UnsolOk, HandlesOk, ReleaseServer, Find;
    var c := s.clients[ci];
    var h, g := c.infos[0].localId, c.infos[0].globalId;
    var si := IndexOf(s.servers, g);
    var s1 := s.(clients := s.clients[ci := Closing(c, h)]);
    HeldIsNumbered(c, 0);
    assert Closing(c, h).infos == c.infos[1..];
    assert Without(s1, ci) == Without(s, ci);
    if si < |s.servers| {
      KeepClosing(s, ci, h, si);
      ReleaseWithout(s1, ci, si, c.id);
      HandlesUpdateC(s.clients, ci, Closing(c, h), g);
      HandlesAfter(c.infos, h);
      IdsPositive(s, 0);
      ReleaseSpares(s1, ci, si, c.id);
    } else {
      KeepClosingLost(s, ci, h);
    }
  }

  lemma {:induction false} KeepLeave(s: State, ci: nat)
    requires Inv(s) && ci < |s.clients|
    ensures Inv(LeaveAll(Without(s, ci), s.clients[ci].infos, s.clients[ci].id))
    decreases |s.clients[ci].infos|
  {
    hide InvBut, ReleaseServer, Closing;
    var c := s.clients[ci];
    if c.infos == [] {
      KeepWithout(s, ci);
    } else {
      LeaveOne(s, ci);
      var si := IndexOf(s.servers, c.infos[0].globalId);
      var s1 := s.(clients := s.clients[ci := Closing(c, c.infos[0].localId)]);
      KeepLeave(if si < |s.servers| then ReleaseServer(s1, si, c.id) else s1, ci);
    }
  }

  // ---- the other events ----

  lemma KeepTell(s: State, ci: nat, n: Note)
    requires Inv(s) && !n.InProgress? && !n.Ready? && !n.Failed? && !(n.Closed? && n.ok)
    ensures Inv(TellAt(s, ci, n))
  {
    hide HandlesIn, ServersOk, IdleOk, CountsOk, ClientOk, UnsolOk, ClientIdsOk;
    if ci < |s.clients| {
      TellNeutral(s.clients[ci], n);
      KeepClient(s, ci, Tell(s.clients[ci], n), 0);
    }
  }

  lemma KeepJoin(s: State, c: Client)
    requires Inv(s) && ClientIndex(s.clients, c.id) == |s.clients|
    requires c.infos == [] && c.inbox == [] && c.lastLocal >= -1
    ensures Inv(s.(clients := s.clients + [c]))
  {
    hide Handles, ServersOk, IdleOk, HandlesOk, NoDup, ClientOk;
    var t := s.(clients := s.clients + [c]);
    NewClientOk(s.servers, c, s.lastId);
    forall i | 0 <= i < |s.servers|
      ensures s.servers[i].refcount == Handles(s.clients, s.servers[i].id) ==>
        s.servers[i].refcount == Handles(t.clients, s.servers[i].id)
      ensures forall u :: u in s.servers[i].unsol && Holds(s.clients, u, s.servers[i].id) ==>
        Holds(t.clients, u, s.servers[i].id)
    {
      HandlesConcatC(s.clients, [c], s.servers[i].id);
      HandlesOneC(c, s.servers[i].id);
      forall u | u in s.servers[i].unsol && Holds(s.clients, u, s.servers[i].id)
        ensures Holds(t.clients, u, s.servers[i].id)
      {
        var k :| 0 <= k < |s.clients| && s.clients[k].id == u && HandlesIn(s.clients[k].infos, s.servers[i].id) > 0;
        assert t.clients[k] == s.clients[k];
      }
    }
  }

  lemma NewClientOk(servers: seq<Server>, c: Client, lastId: int)
    requires c.infos == [] && c.inbox == [] && c.lastLocal >= -1
    ensures ClientOk(c) && HandlesOk(servers, c, lastId)
  {
    forall h ensures Balanced(c, h) { }
  }

  /** A handle more than counted: the client gets it. */
  lemma KeepGive(s: State, ci: nat, si: nat)
    requires ci < |s.clients| && si < |s.servers| && InvBut(s, s.servers[si].id)
    requires s.servers[si].refcount == Handles(s.clients, s.servers[si].id) + 1
    requires forall u :: u in s.servers[si].unsol ==> Holds(s.clients, u, s.servers[si].id)
    ensures Inv(GiveHandle(s, ci, si))
  {
    hide Handles, HandlesIn, Holds, ServersOk, IdleOk, HandlesOk, ClientOk, Grant, NoneValid;
    var c, v := s.clients[ci], s.servers[si];
    var d := Grant(c, v.id, v.status.ReadyState?);
    var t := GiveHandle(s, ci, si);
    GrantIs(s, ci, si);
    KeepClient(s, ci, d, v.id);
    HandlesUpdateC(s.clients, ci, d, v.id);
    assert NoDup(v.unsol);
    SetUnsolIs(v.unsol, c.id, 1);
    var s1 := s.(clients := s.clients[ci := d]);
    KeepUpdate(s1, si, t.servers[si]);
    GrantHolds(s, ci, si);
    forall u | u in t.servers[si].unsol && u != c.id ensures Holds(t.clients, u, v.id) {
      HoldsElsewhere(s.clients, ci, d, v.id, u, v.id);
    }
    Settle(t, si);
  }

  lemma GrantIs(s: State, ci: nat, si: nat)
    requires ci < |s.clients| && si < |s.servers|
    requires ServersOk(s.servers, s.lastId) && ClientOk(s.clients[ci]) && HandlesOk(s.servers, s.clients[ci], s.lastId)
    ensures var c, v := s.clients[ci], s.servers[si];
      var d := Grant(c, v.id, v.status.ReadyState?);
      Elsewhere(c, d, v.id) && HandlesOk(s.servers, d, s.lastId) &&
        HandlesIn(d.infos, v.id) == HandlesIn(c.infos, v.id) + 1
      && (v.isLocal ==> v.status.ReadyState?)
  {
    hide HandlesIn, ClientOk;
    var c, v := s.clients[ci], s.servers[si];
    var d := Grant(c, v.id, v.status.ReadyState?);
    var info := Info(c.lastLocal + 1, v.id, v.status.ReadyState?);
    GrantOk(c, v.id, v.status.ReadyState?);
    forall k ensures HandlesIn(d.infos, k) == HandlesIn(c.infos, k) + if k == v.id then 1 else 0 {
      HandlesConcat(c.infos, [info], k);
      HandlesOne(info, k);
    }
    assert v.status.ReadyState? ==> IsReady(s.servers, v.id);
  }

  lemma GrantHolds(s: State, ci: nat, si: nat)
    requires ci < |s.clients| && si < |s.servers|
    requires HandlesIn(Grant(s.clients[ci], s.servers[si].id, s.servers[si].status.ReadyState?).infos,
      s.servers[si].id) > 0
    ensures Holds(GiveHandle(s, ci, si).clients, s.clients[ci].id, s.servers[si].id)
  {
    assert GiveHandle(s, ci, si).clients[ci].id == s.clients[ci].id;
  }

  lemma KeepLastId(s: State)
    requires Inv(s)
    ensures Inv(s.(lastId := s.lastId + 1))
  {
    hide Handles, Holds, ClientOk, IsReady, NoDup;
  }

  /** A new server object, counted for a handle that is not there yet. */
  lemma KeepCreate(s: State, v: Server)
    requires Inv(s) && v.id == s.lastId + 1 && v.refcount == 1 && v.unsol == []
    requires IndexOfName(s.servers, v.name) == |s.servers| && (v.isLocal ==> v.status.ReadyState?)
    ensures var t := s.(lastId := s.lastId + 1, servers := s.servers + [v]);
      InvBut(t, v.id) && Handles(t.clients, v.id) == 0
  {
    hide Handles, Holds, ClientOk;
    var t := s.(lastId := s.lastId + 1, servers := s.servers + [v]);
    forall i | 0 <= i < |t.clients| ensures HandlesOk(t.servers, t.clients[i], t.lastId) {
      assert HandlesOk(s.servers, s.clients[i], s.lastId);
      forall x | x in t.clients[i].infos && x.valid ensures IsReady(t.servers, x.globalId) {
        var k :| 0 <= k < |s.servers| && s.servers[k].id == x.globalId && s.servers[k].status.ReadyState?;
        assert t.servers[k] == s.servers[k];
      }
    }
    NobodyHolds(s, v.id);
  }

  lemma NobodyHolds(s: State, g: int)
    requires forall i :: 0 <= i < |s.clients| ==> HandlesOk(s.servers, s.clients[i], s.lastId)
    requires g > s.lastId
    ensures Handles(s.clients, g) == 0
  {
    HoldsIffHandles(s.clients, g);
    forall i | 0 <= i < |s.clients| ensures HandlesIn(s.clients[i].infos, g) == 0 {
      assert HandlesOk(s.servers, s.clients[i], s.lastId);
      HandlesZero(s.clients[i].infos, g);
    }
  }

  lemma KeepOpen(s: State, ci: nat, name: string, attempt: Attempt)
    requires Inv(s) && ci < |s.clients|
    ensures Inv(OpenVed(s, ci, name, attempt))
  {
    hide Handles, Holds, ClientsOk, ClientIdsOk, NoneValid, GiveHandle;
    var si := IndexOfName(s.servers, name);
    if si < |s.servers| {
      var v := s.servers[si];
      IdsPositive(s, 0);
      Loosen(s, v.id);
      KeepUpdate(s, si, v.(refcount := v.refcount + 1));
      KeepGive(s.(servers := s.servers[si := v.(refcount := v.refcount + 1)]), ci, si);
    } else if !IsBuiltin(name) && attempt.Refusal? {
      KeepLastId(s);
      KeepTell(s.(lastId := s.lastId + 1), ci, Refused(attempt.code));
    } else {
      var f := FindOrCreate(s, name, attempt);
      KeepCreate(s, f.s.servers[f.si]);
      KeepGive(f.s, ci, f.si);
    }
  }

  lemma KeepClose(s: State, ci: nat, h: int)
    requires Inv(s) && ci < |s.clients|
    ensures Inv(CloseVed(s, ci, h))
  {
    hide InvBut, FreeHandle, ReleaseServer;
    var c := s.clients[ci];
    var g := Global(c.infos, h);
    var si := IndexOf(s.servers, g);
    if g == NO_ID || si == |s.servers| {
      KeepTell(s, ci, Closed(h, false));
    } else {
      KeepClosing(s, ci, h, si);
    }
  }

  lemma KeepSetUnsol(s: State, ci: nat, h: int, val: int)
    requires Inv(s) && ci < |s.clients|
    ensures Inv(SetUnsolicited(s, ci, h, val))
  {
    hide Handles, Holds, ClientOk, HandlesOk, NoneValid, NoDup, ClientIdsOk, ServersOk, SetUnsolList;
    var c := s.clients[ci];
    var g := Global(c.infos, h);
    var si := IndexOf(s.servers, g);
    if g == NO_ID || si == |s.servers| {
      KeepTell(s, ci, UnsolSet(false));
    } else {
      var v := s.servers[si];
      var v' := v.(unsol := SetUnsolList(v.unsol, c.id, val));
      assert NoDup(v.unsol);
      SetUnsolIs(v.unsol, c.id, val);
      IdsPositive(s, 0);
      Loosen(s, g);
      LocalReady(s, si);
      KeepUpdate(s, si, v');
      OwnHolds(s.clients, ci, h);
      Settle(s.(servers := s.servers[si := v']), si);
      KeepTell(s.(servers := s.servers[si := v']), ci, UnsolSet(true));
    }
  }

  lemma LocalReady(s: State, si: nat)
    requires ServersOk(s.servers, s.lastId) && si < |s.servers|
    ensures s.servers[si].isLocal ==> s.servers[si].status.ReadyState?
  {
  }

  lemma OwnHolds(clients: seq<Client>, ci: nat, h: int)
    requires ci < |clients| && Find(clients[ci].infos, h).Some?
    ensures Holds(clients, clients[ci].id, Global(clients[ci].infos, h))
  {
    var i := IndexOfLocal(clients[ci].infos, h);
    HandlesZero(clients[ci].infos, Global(clients[ci].infos, h));
    assert HandlesIn(clients[ci].infos, clients[ci].infos[i].globalId) > 0;
  }

  lemma KeepOkZero(s: State, id: int)
    requires InvBut(s, id) && IsReady(s.servers, id)
    ensures InvBut(s.(clients := OkAll(s.clients, id, 0)), id)
    ensures Handles(OkAll(s.clients, id, 0), id) == Handles(s.clients, id)
    ensures forall u, g :: Holds(s.clients, u, g) ==> Holds(OkAll(s.clients, id, 0), u, g)
  {
    hide Handles, HandlesIn, Holds, ClientOk, ServersOk, IdleOk, IsReady, NoDup, Follows, OkClient;
    var after := OkAll(s.clients, id, 0);
    forall i | 0 <= i < |after|
      ensures ClientOk(after[i]) && HandlesOk(s.servers, after[i], s.lastId)
      ensures after[i].id == s.clients[i].id &&
        forall g :: HandlesIn(after[i].infos, g) == HandlesIn(s.clients[i].infos, g)
    {
      assert ClientOk(s.clients[i]) && HandlesOk(s.servers, s.clients[i], s.lastId);
      OkOne(s.servers, s.clients[i], id, s.lastId);
    }
    forall u, g | Holds(s.clients, u, g) ensures Holds(after, u, g) {
      HoldsPairwise(s.clients, after, u, g);
    }
    forall g ensures Handles(after, g) == Handles(s.clients, g) {
      HandlesSame(s.clients, after, g);
    }
  }

  lemma HoldsPairwise(a: seq<Client>, b: seq<Client>, u: int, g: int)
    requires |a| == |b| && Holds(a, u, g)
    requires forall i :: 0 <= i < |a| ==> b[i].id == a[i].id && HandlesIn(b[i].infos, g) == HandlesIn(a[i].infos, g)
    ensures Holds(b, u, g)
  {
    var i :| 0 <= i < |a| && a[i].id == u && HandlesIn(a[i].infos, g) > 0;
    assert b[i].id == u;
  }

  lemma OkOne(servers: seq<Server>, c: Client, id: int, lastId: int)
    requires ClientOk(c) && HandlesOk(servers, c, lastId) && IsReady(servers, id)
    ensures var d := OkClient(c, id, 0);
      ClientOk(d) && HandlesOk(servers, d, lastId) && d.id == c.id &&
      forall g :: HandlesIn(d.infos, g) == HandlesIn(c.infos, g)
  {
    hide HandlesIn, ClientOk, IsReady, OkClient;
    OkClientKeeps(c, id, 0);
    ReadyIsKnown(servers, id, c, lastId);
  }

  lemma ReadyIsKnown(servers: seq<Server>, id: int, c: Client, lastId: int)
    requires ClientOk(c) && HandlesOk(servers, c, lastId)
    ensures forall x :: x in OkClient(c, id, 0).infos ==> 1 <= x.globalId <= lastId
  {
    var h := Local(c.infos, id);
    if h != NO_ID {
      FirstHandle(c, id);
    }
  }

  /** The client wants a server's unsolicited messages and has just been told it is ready. */
  predicate Subscribes(c: Client, id: int) {
    c.defUnsol && OkClient(c, id, 0) != c
  }

  predicate Subscribed(clients: seq<Client>, u: int, id: int) {
    exists i :: 0 <= i < |clients| && clients[i].id == u && Subscribes(clients[i], id)
  }

  lemma {:induction false} UnsolAfterOkIs(unsol: seq<int>, clients: seq<Client>, id: int)
    requires NoDup(unsol)
    ensures var after := UnsolAfterOk(unsol, clients, id);
      NoDup(after) && forall u :: u in after <==> u in unsol || Subscribed(clients, u, id)
    decreases |clients|
  {
    hide OkClient, NoDup, Subscribed;
    if clients == [] {
      NobodySubscribed(id);
    } else {
      var c := clients[0];
      SetUnsolIs(unsol, c.id, 1);
      UnsolAfterOkIs(if Subscribes(c, id) then SetUnsolList(unsol, c.id, 1) else unsol, clients[1..], id);
      forall u
        ensures Subscribed(clients, u, id) <==> (u == c.id && Subscribes(c, id)) || Subscribed(clients[1..], u, id)
      {
        SubscribedFirst(clients, u, id);
      }
    }
  }

  lemma NobodySubscribed(id: int)
    ensures forall u :: !Subscribed([], u, id)
  {
  }

  lemma SubscribedFirst(clients: seq<Client>, u: int, id: int)
    requires clients != []
    ensures Subscribed(clients, u, id) <==>
      (u == clients[0].id && Subscribes(clients[0], id)) || Subscribed(clients[1..], u, id)
  {
    hide Subscribes;
    assert forall i :: 1 <= i < |clients| ==> clients[i] == clients[1..][i - 1];
    if Subscribed(clients[1..], u, id) {
      var i :| 0 <= i < |clients[1..]| && clients[1..][i].id == u && Subscribes(clients[1..][i], id);
      assert clients[i + 1].id == u;
    }
  }

  lemma SubscribedHolds(clients: seq<Client>, u: int, id: int)
    requires (forall i :: 0 <= i < |clients| ==> ClientOk(clients[i])) && Subscribed(clients, u, id)
    ensures Holds(clients, u, id)
  {
    hide ClientOk, OkClient, HandlesIn;
    var i :| 0 <= i < |clients| && clients[i].id == u && Subscribes(clients[i], id);
    ChangedHolds(clients[i], id);
  }

  /** If none of the handles on the server was valid, those who subscribe are those who
      want the messages and have a handle. */
  lemma SubscribesExactly(c: Client, id: int)
    requires ClientOk(c) && forall x :: x in c.infos && x.globalId == id ==> !x.valid
    ensures Subscribes(c, id) <==> c.defUnsol && HandlesIn(c.infos, id) > 0
  {
    hide HandlesIn, Balanced;
    NoHandle(c, id);
    if Local(c.infos, id) != NO_ID {
      FirstHandle(c, id);
    }
  }

  lemma ChangedHolds(c: Client, id: int)
    requires ClientOk(c) && OkClient(c, id, 0) != c
    ensures HandlesIn(c.infos, id) > 0
  {
    NoHandle(c, id);
  }

  /** A client that wants unsolicited messages and holds a handle on server g. */
  predicate WantsAndHolds(clients: seq<Client>, u: int, g: int) {
    exists i :: 0 <= i < |clients| && clients[i].id == u && clients[i].defUnsol && HandlesIn(clients[i].infos, g) > 0
  }

  lemma SubscribedExactly(clients: seq<Client>, u: int, id: int)
    requires (forall i :: 0 <= i < |clients| ==> ClientOk(clients[i])) && NoneValid(clients, id)
    ensures Subscribed(clients, u, id) <==> WantsAndHolds(clients, u, id)
  {
    hide ClientOk, HandlesIn, Subscribes;
    forall i | 0 <= i < |clients|
      ensures Subscribes(clients[i], id) <==> clients[i].defUnsol && HandlesIn(clients[i].infos, id) > 0
    {
      SubscribesExactly(clients[i], id);
    }
  }

  /** The clients that get the messages of a server that has become ready are those who
      got them before and those who want them and hold a handle on it. */
  lemma KeepInitiated(s: State, si: nat)
    requires Inv(s) && si < |s.servers| && s.servers[si].status.Opening?
    ensures Inv(Initiated(s, si))
    ensures forall u :: u in Initiated(s, si).servers[si].unsol <==>
      u in s.servers[si].unsol || WantsAndHolds(s.clients, u, s.servers[si].id)
  {
    hide Handles, Holds, ClientOk, HandlesOk, NoneValid, NoDup, ClientIdsOk, OkAll, Subscribed, WantsAndHolds;
    var v := s.servers[si];
    var v' := v.(status := ReadyState, unsol := UnsolAfterOk(v.unsol, s.clients, v.id));
    var s1 := s.(servers := s.servers[si := v']);
    assert NoDup(v.unsol);
    UnsolAfterOkIs(v.unsol, s.clients, v.id);
    NotReadyNoneValid(s, si, 0);
    forall u ensures Subscribed(s.clients, u, v.id) <==> WantsAndHolds(s.clients, u, v.id) {
      SubscribedExactly(s.clients, u, v.id);
    }
    IdsPositive(s, 0);
    Loosen(s, v.id);
    KeepUpdate(s, si, v');
    assert s1.servers[si].id == v.id;
    KeepOkZero(s1, v.id);
    forall u | u in v'.unsol ensures Holds(OkAll(s.clients, v.id, 0), u, v.id) {
      if Subscribed(s.clients, u, v.id) {
        SubscribedHolds(s.clients, u, v.id);
      }
    }
    Settle(Initiated(s, si), si);
  }

  lemma NotReadyNoneValid(s: State, si: nat, except: int)
    requires si < |s.servers| && InvBut(s, except) && !s.servers[si].status.ReadyState?
    ensures NoneValid(s.clients, s.servers[si].id)
  {
    hide Handles, Holds, ClientOk, IdleOk, CountsOk, UnsolOk;
    forall i | 0 <= i < |s.clients|
      ensures forall x :: x in s.clients[i].infos && x.globalId == s.servers[si].id ==> !x.valid
    {
      assert HandlesOk(s.servers, s.clients[i], s.lastId);
    }
  }

  lemma ShrinksNoneValid(a: seq<Client>, b: seq<Client>, id: int)
    requires Shrinks(a, b, id) && NoneValid(a, id)
    ensures NoneValid(b, id)
  {
    hide ClientOk, Follows;
  }

  lemma KeepCloseConfirmed(s: State, si: nat, reconnect: Attempt)
    requires Inv(s) && si < |s.servers| && s.servers[si].status.Disconnecting?
    ensures Inv(CloseConfirmed(s, si, reconnect))
  {
    hide Handles, Holds, ClientOk, HandlesOk, NoneValid, NoDup, ClientIdsOk, Shrinks, OkAll, DiedAll;
    var v := s.servers[si];
    IdsPositive(s, 0);
    Loosen(s, v.id);
    if v.refcount == 0 {
      KeepDelete(s, si);
    } else if reconnect.Started? {
      assert NoDup(v.unsol);
      KeepUpdate(s, si, v.(status := Connecting));
      Settle(s.(servers := s.servers[si := v.(status := Connecting)]), si);
    } else {
      NotReadyNoneValid(s, si, 0);
      OkShrinks(s.clients, v.id, reconnect.code);
      ShrinksNoneValid(s.clients, OkAll(s.clients, v.id, reconnect.code), v.id);
      KeepShrunk(s, OkAll(s.clients, v.id, reconnect.code), v.id);
      KeepRemove(s.(clients := OkAll(s.clients, v.id, reconnect.code)), si);
    }
  }

  lemma {:induction false} KeepForward(s: State, id: int, unsol: seq<int>)
    requires Inv(s)
    ensures Inv(s.(clients := Forward(s.clients, id, unsol)))
    decreases |unsol|
  {
    hide InvBut;
    if unsol != [] {
      var ci := ClientIndex(s.clients, unsol[0]);
      if ci < |s.clients| {
        KeepTell(s, ci, Unsol(Local(s.clients[ci].infos, id)));
        KeepForward(TellAt(s, ci, Unsol(Local(s.clients[ci].infos, id))), id, unsol[1..]);
      } else {
        KeepForward(s, id, unsol[1..]);
      }
    }
  }

  /** A server's message reaches every client on its list once, under the client's first
      handle on the server; nothing else changes. */
  lemma {:induction false} ForwardReachesExactly(clients: seq<Client>, id: int, unsol: seq<int>)
    requires NoDup(unsol) && ClientIdsOk(clients)
    ensures var after := Forward(clients, id, unsol);
      |after| == |clients| && forall i :: 0 <= i < |clients| ==>
        after[i] == if clients[i].id in unsol then Tell(clients[i], Unsol(Local(clients[i].infos, id))) else clients[i]
    decreases |unsol|
  {
    hide Local;
    if unsol != [] {
      var ci := ClientIndex(clients, unsol[0]);
      var next :=
        if ci < |clients| then clients[ci := Tell(clients[ci], Unsol(Local(clients[ci].infos, id)))] else clients;
      assert unsol[0] !in unsol[1..];
      ForwardReachesExactly(next, id, unsol[1..]);
    }
  }

  lemma KeepDeleteAny(s: State, si: nat)
    requires Inv(s) && si < |s.servers|
    ensures Inv(DeleteServer(s, si))
  {
    hide InvBut;
    IdsPositive(s, 0);
    Loosen(s, s.servers[si].id);
    KeepDelete(s, si);
  }

  /** A change that touches neither the count nor the list of a server, nor makes it unready. */
  lemma KeepMinor(s: State, si: nat, v: Server)
    requires Inv(s) && si < |s.servers| && !s.servers[si].isLocal
    requires v == s.servers[si].(status := v.status, err := v.err)
    requires s.servers[si].status.ReadyState? || s.servers[si].status.Disconnecting? ==>
      v.status == s.servers[si].status
    ensures Inv(s.(servers := s.servers[si := v]))
  {
    hide Handles, Holds, ClientOk, HandlesOk, NoneValid, NoDup, ClientIdsOk;
    IdsPositive(s, 0);
    Loosen(s, v.id);
    assert NoDup(v.unsol);
    KeepUpdate(s, si, v);
    Settle(s.(servers := s.servers[si := v]), si);
  }

  lemma KeepServerStep(s: State, si: nat, e: Event)
    requires Inv(s) && si < |s.servers| && !s.servers[si].isLocal
    ensures Inv(ServerStep(s, si, e))
  {
    hide InvBut, OpenFailed, DeleteServer, Initiated, CloseConfirmed, Forward;
    var v := s.servers[si];
    match e {
      case Connected(_, res) =>
        if v.status == Connecting {
          if res != 0 { KeepOpenFailed(s, si, res); } else { KeepMinor(s, si, v.(status := Opening)); }
        }
      case OpenAnswer(_, res) =>
        if v.status == Opening && res != 0 { KeepOpenFailed(s, si, res); }
      case InitiateAnswer(_, res) =>
        if v.status == Opening {
          if res != 0 { KeepOpenFailed(s, si, res); } else { KeepInitiated(s, si); }
        }
      case CloseAnswer(_, reconnect) =>
        if v.status == Disconnecting { KeepCloseConfirmed(s, si, reconnect); }
      case ReadFails(_, errno) =>
        if v.status == Opening {
          KeepMinor(s, si, v.(err := errno));
          KeepDeleteAny(s.(servers := s.servers[si := v.(err := errno)]), si);
        } else {
          KeepDeleteAny(s, si);
        }
      case WriteFails(_) => KeepDeleteAny(s, si);
      case UnsolMessage(_) =>
        if v.status == ReadyState { KeepForward(s, v.id, v.unsol); }
      case _ =>
    }
  }

  /** Every event keeps the invariant. */
  lemma KeepStep(s: State, e: Event)
    requires Inv(s)
    ensures Inv(Step(s, e))
  {
    hide InvBut, OpenVed, CloseVed, LeaveAll, SetUnsolicited, ServerStep;
    match e {
      case Join(id, lastLocal, defUnsol) =>
        if ClientIndex(s.clients, id) == |s.clients| {
          KeepJoin(s, Client(id, lastLocal, [], defUnsol, []));
        }
      case Leave(id) =>
        var ci := ClientIndex(s.clients, id);
        if ci < |s.clients| { KeepLeave(s, ci); }
      case Open(id, name, attempt) =>
        var ci := ClientIndex(s.clients, id);
        if ci < |s.clients| { KeepOpen(s, ci, name, attempt); }
      case Close(id, h) =>
        var ci := ClientIndex(s.clients, id);
        if ci < |s.clients| { KeepClose(s, ci, h); }
      case SetUnsol(id, h, val) =>
        var ci := ClientIndex(s.clients, id);
        if ci < |s.clients| { KeepSetUnsol(s, ci, h, val); }
      case _ =>
        var si := IndexOf(s.servers, e.server);
        if si < |s.servers| && !s.servers[si].isLocal { KeepServerStep(s, si, e); }
    }
  }
}
