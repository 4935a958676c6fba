/**
  The broker beyond single-open runs: a client holds several handles on a server, of which
  `server_ok` reaches the first only; and servers that are deleted while one of their own
  messages is still being handled.
*/
module BrokerBeyond {
  import opened Util
  import opened HandleTable
  import opened Broker
  import opened BrokerSteps
  import opened BrokerRuns

  /** When a server becomes ready, a waiting handle becomes valid exactly if it is the
      client's first on that server. */
  lemma ReadyReachesFirstOnly(s: State, si: nat, ci: nat, h: int)
    requires Inv(s) && si < |s.servers| && s.servers[si].status.Opening? && ci < |s.clients|
    requires Find(s.clients[ci].infos, h).Some? && Find(s.clients[ci].infos, h).value.globalId == s.servers[si].id
    ensures var c, d, id := s.clients[ci], Initiated(s, si).clients[ci], s.servers[si].id;
      Find(d.infos, h).Some? && (Find(d.infos, h).value.valid <==> Local(c.infos, id) == h)
  {
    hide Handles, HandlesIn, Balanced, UnsolAfterOk, UnsolOk, ServersOk, Holds;
    var c, id := s.clients[ci], s.servers[si].id;
    NotReadyNoneValid(s, si, 0);
    var i := IndexOfLocal(c.infos, h);
    assert ClientOk(c) && c.infos[i] in c.infos;
    var k := IndexOfGlobal(c.infos, id);
    HeldIsNumbered(c, k);
    FindSetValid(c.infos, c.infos[k].localId, true, h);
  }

  lemma RefusalFreesFirst(c: Client, id: int, res: code)
    requires ClientOk(c) && forall x :: x in c.infos && x.globalId == id ==> !x.valid
    ensures OkClient(c, id, res).infos == FreeHandle(c.infos, Local(c.infos, id))
  {
    hide Balanced;
    var h := Local(c.infos, id);
    if h == NO_ID {
      NoHandle(c, id);
      NoneNumbered(c);
    } else {
      FirstHandle(c, id);
    }
  }

  lemma NoneNumbered(c: Client)
    requires ClientOk(c)
    ensures FreeHandle(c.infos, NO_ID) == c.infos
  {
    hide Balanced;
    var i := IndexOfLocal(c.infos, NO_ID);
    if i < |c.infos| {
      HeldIsNumbered(c, i);
    }
  }

  /** After a failed reconnection a client is left with handles on the dead server
      exactly if it had more than one: all but the first. */
  lemma FailedReconnectStrands(s: State, si: nat, res: code, ci: nat)
    requires Inv(s) && si < |s.servers| && s.servers[si].status.Disconnecting? && s.servers[si].refcount != 0
    requires ci < |s.clients|
    ensures var t, id := CloseConfirmed(s, si, Refusal(res)), s.servers[si].id;
      && !Live(t.servers, id)
      && (HandlesIn(t.clients[ci].infos, id) > 0 <==> HandlesIn(s.clients[ci].infos, id) > 1)
      && t.clients[ci].infos == FreeHandle(s.clients[ci].infos, Local(s.clients[ci].infos, id))
  {
    hide Handles, HandlesIn, ClientOk, UnsolOk, Holds, OkClient, FreeHandle, Local;
    NotReadyNoneValid(s, si, 0);
    RefusalFreesFirst(s.clients[ci], s.servers[si].id, res);
    RefusalTakesOne(s.clients[ci], s.servers[si].id, res);
    RemoveServersOk(s.servers, si, s.lastId);
  }

  /** Every other death of a server is told to every handle, in the order of the
      table, and leaves no handle behind. */
  function Farewell(infos: seq<Info>, id: int, err: int): seq<Note> {
    if infos == [] then []
    else
      var x := infos[0];
      (if x.globalId != id then [] else if x.valid then [Disconnected(x.localId)] else [Failed(x.localId, err)])
      + Farewell(infos[1..], id, err)
  }

  lemma {:induction false} FarewellFirst(infos: seq<Info>, k: nat, id: int, err: int)
    requires k == IndexOfGlobal(infos, id) && k < |infos|
    ensures var x := infos[k];
      Farewell(infos, id, err) == [if x.valid then Disconnected(x.localId) else Failed(x.localId, err)]
                                  + Farewell(infos[..k] + infos[k + 1..], id, err)
  {
    if k == 0 {
      assert infos[..0] + infos[1..] == infos[1..];
    } else {
      FarewellFirst(infos[1..], k - 1, id, err);
      assert (infos[..k] + infos[k + 1..])[1..] == infos[1..][..k - 1] + infos[1..][k..];
    }
  }

  /** The client after the first of its handles on a dying server has been dropped. */
  function DropFirst(c: Client, k: nat, err: int): Client
    requires k < |c.infos|
  {
    var x := c.infos[k];
    Tell(c.(infos := c.infos[..k] + c.infos[k + 1..]),
      if x.valid then Disconnected(x.localId) else Failed(x.localId, err))
  }

  lemma FirstIs(c: Client, id: int)
    requires ClientOk(c) && Local(c.infos, id) != NO_ID
    ensures var k := IndexOfGlobal(c.infos, id);
      && k < |c.infos| && Local(c.infos, id) == c.infos[k].localId
      && Find(c.infos, c.infos[k].localId) == Some(c.infos[k])
      && FreeHandle(c.infos, c.infos[k].localId) == c.infos[..k] + c.infos[k + 1..]
  {
    hide Balanced, Orderly;
    FindIs(c.infos, IndexOfGlobal(c.infos, id));
  }

  lemma DiedUnfold(c: Client, id: int, err: int)
    requires ClientOk(c) && Local(c.infos, id) != NO_ID
    ensures var k := IndexOfGlobal(c.infos, id);
      k < |c.infos| && DiedClient(c, id, err) == DiedClient(DropFirst(c, k, err), id, err) &&
        ClientOk(DropFirst(c, k, err))
  {
    hide ClientOk, Find, FreeHandle, Local;
    FirstIs(c, id);
    var x := c.infos[IndexOfGlobal(c.infos, id)];
    FreeOk(c, x.localId, if x.valid then Disconnected(x.localId) else Failed(x.localId, err));
  }

  lemma DropFirstIs(c: Client, id: int, err: int)
    requires IndexOfGlobal(c.infos, id) < |c.infos|
    ensures var k := IndexOfGlobal(c.infos, id);
      var d := DropFirst(c, k, err);
      |d.infos| < |c.infos| && d.inbox + Farewell(d.infos, id, err) == c.inbox + Farewell(c.infos, id, err)
  {
    hide Farewell;
    var k := IndexOfGlobal(c.infos, id);
    var x := c.infos[k];
    var note := if x.valid then Disconnected(x.localId) else Failed(x.localId, err);
    FarewellFirst(c.infos, k, id, err);
    var rest := Farewell(c.infos[..k] + c.infos[k + 1..], id, err);
    assert c.inbox + [note] + rest == c.inbox + Farewell(c.infos, id, err);
  }

  lemma {:induction false} DeathIsToldToEveryHandle(c: Client, id: int, err: int)
    requires ClientOk(c)
    ensures var d := DiedClient(c, id, err);
      d.inbox == c.inbox + Farewell(c.infos, id, err) && HandlesIn(d.infos, id) == 0
    decreases |c.infos|
  {
    hide ClientOk, HandlesIn, Farewell, Local, DropFirst;
    NoHandle(c, id);
    DiedClientKeeps(c, id, err);
    if Local(c.infos, id) == NO_ID {
      HandlesZero(c.infos, id);
      NoFarewell(c.infos, id, err);
    } else {
      hide DiedClient;
      DiedUnfold(c, id, err);
      DropFirstIs(c, id, err);
      DeathIsToldToEveryHandle(DropFirst(c, IndexOfGlobal(c.infos, id), err), id, err);
    }
  }

  lemma {:induction false} NoFarewell(infos: seq<Info>, id: int, err: int)
    requires forall i :: 0 <= i < |infos| ==> infos[i].globalId != id
    ensures Farewell(infos, id, err) == []
  {
    if infos != [] {
      NoFarewell(infos[1..], id, err);
    }
  }

  /** A client opens one server twice before it is ready: the second handle waits on
      although the server is ready. */
  const OPEN_TWICE: seq<Event> :=
    [Join(7, 0, false), Open(7, "ved", Started), Open(7, "ved", Started), Connected(1, 0), InitiateAnswer(1, 0)]

  const VED: Server := Server(1, "ved", false, Connecting, 1, [], 0)
  const ONCE: Client := Client(7, 1, [Info(1, 1, false)], false, [InProgress(1)])
  const TWICE: Client := Client(7, 2, [Info(1, 1, false), Info(2, 1, false)], false, [InProgress(1), InProgress(2)])
  const SERVED: Client :=
    Client(7, 2, [Info(1, 1, true), Info(2, 1, false)], false, [InProgress(1), InProgress(2), Ready(1)])

  lemma FirstOpen(s: State)
    requires s == State(0, [], [Client(7, 0, [], false, [])])
    ensures Step(s, Open(7, "ved", Started)) == State(1, [VED], [ONCE])
  {
    var f := FindOrCreate(s, "ved", Started);
    assert f == At(State(1, [VED], s.clients), 0) by { assert [] + [VED] == [VED]; }
    assert Grant(s.clients[0], 1, false) == ONCE;
  }

  lemma SecondOpen(s: State)
    requires s == State(1, [VED], [ONCE])
    ensures Step(s, Open(7, "ved", Started)) == State(1, [VED.(refcount := 2)], [TWICE])
  {
    var f := FindOrCreate(s, "ved", Started);
    assert f == At(State(1, [VED.(refcount := 2)], [ONCE]), 0);
    assert Grant(ONCE, 1, false) == TWICE;
  }

  lemma BecomesReady(s: State)
    requires s == State(1, [VED.(refcount := 2)], [TWICE])
    ensures Step(Step(s, Connected(1, 0)), InitiateAnswer(1, 0))
         == State(1, [VED.(refcount := 2, status := ReadyState)], [SERVED])
  {
    var v := VED.(refcount := 2, status := Opening);
    var t := State(1, [v], [TWICE]);
    assert Step(s, Connected(1, 0)) == t;
    assert OkClient(TWICE, 1, 0) == SERVED by {
      assert IndexOfGlobal(TWICE.infos, 1) == 0 && IndexOfLocal(TWICE.infos, 1) == 0;
    }
    assert OkAll(t.clients, 1, 0) == [SERVED];
    assert UnsolAfterOk([], t.clients, 1) == [];
    assert Initiated(t, 0) == State(1, [v.(status := ReadyState)], [SERVED]);
  }

  lemma RunSnoc(es: seq<Event>, e: Event)
    ensures Run(es + [e]) == Step(Run(es), e)
  {
    assert (es + [e])[..|es|] == es;
  }

  lemma RunOpenTwice()
    ensures Run(OPEN_TWICE) == State(1, [VED.(refcount := 2, status := ReadyState)], [SERVED])
  {
    hide Run, Step;
    var a, b, c, d, e := OPEN_TWICE[0], OPEN_TWICE[1], OPEN_TWICE[2], OPEN_TWICE[3], OPEN_TWICE[4];
    assert OPEN_TWICE == [] + [a] + [b] + [c] + [d] + [e];
    RunSnoc([], a);
    RunSnoc([] + [a], b);
    RunSnoc([] + [a] + [b], c);
    RunSnoc([] + [a] + [b] + [c], d);
    RunSnoc([] + [a] + [b] + [c] + [d], e);
    Joined();
    FirstOpen(State(0, [], [Client(7, 0, [], false, [])]));
    SecondOpen(State(1, [VED], [ONCE]));
    BecomesReady(State(1, [VED.(refcount := 2)], [TWICE]));
  }

  lemma Joined()
    ensures Step(Run([]), Join(7, 0, false)) == State(0, [], [Client(7, 0, [], false, [])])
  {
  }

  lemma NotCompleted()
    ensures Completions(SERVED.inbox, 2) == 0
  {
    hide Completions, Promises, Closes;
    TellCounts([], InProgress(1), 2);
    TellCounts([InProgress(1)], InProgress(2), 2);
    TellCounts([InProgress(1), InProgress(2)], Ready(1), 2);
    NothingTold(2);
    assert [] + [InProgress(1)] == [InProgress(1)];
    assert [InProgress(1)] + [InProgress(2)] == [InProgress(1), InProgress(2)];
    assert [InProgress(1), InProgress(2)] + [Ready(1)] == SERVED.inbox;
  }

  lemma NothingTold(h: int)
    ensures Completions([], h) == 0
  {
  }

  lemma SecondHandleWaits()
    ensures var s := Run(OPEN_TWICE);
      |s.clients| == 1 && Waiting(s.clients[0], 2) && Completions(s.clients[0].inbox, 2) == 0 &&
      Global(s.clients[0].infos, 2) == 1 && IsReady(s.servers, 1)
  {
    hide Run, Completions;
    RunOpenTwice();
    NotCompleted();
    var s := Run(OPEN_TWICE);
    assert s.servers[0].id == 1;
    assert IndexOfLocal(SERVED.infos, 2) == 1;
  }

  /** The client closes the first handle: the second now stands alone, and still waits. */
  lemma StillWaits()
    ensures var s := Run(OPEN_TWICE + [Close(7, 1)]);
      |s.clients| == 1 && s.clients[0].infos == [Info(2, 1, false)] && IsReady(s.servers, 1)
  {
    RunSnoc(OPEN_TWICE, Close(7, 1));
    RunOpenTwice();
    hide Run;
    var s := Run(OPEN_TWICE);
    assert IndexOfLocal(SERVED.infos, 1) == 0 && IndexOf(s.servers, 1) == 0 && ClientIndex(s.clients, 7) == 0;
    assert FreeHandle(SERVED.infos, 1) == [Info(2, 1, false)];
    assert Step(s, Close(7, 1)).servers[0].id == 1;
  }

  // ---- a reconnection that fails ----

  /** A client closes a ready server, opens it twice before that is confirmed, and the
      reconnection fails: one of the handles is left on a server that is gone. */
  const RECONNECT: seq<Event> :=
    [Join(7, 0, false), Open(7, "ved", Started), Connected(1, 0), InitiateAnswer(1, 0), Close(7, 1)]
    + [Open(7, "ved", Started), Open(7, "ved", Started), CloseAnswer(1, Refusal(5))]

  const CLOSED: seq<Note> := [InProgress(1), Ready(1), Closed(1, true)]

  lemma OpensAndCloses()
    ensures Run(RECONNECT[..5])
         == State(1, [VED.(refcount := 0, status := Disconnecting)], [Client(7, 1, [], false, CLOSED)])
  {
    hide Run;
    var a, b, c, d, e := RECONNECT[0], RECONNECT[1], RECONNECT[2], RECONNECT[3], RECONNECT[4];
    assert RECONNECT[..5] == [] + [a] + [b] + [c] + [d] + [e];
    RunSnoc([], a);
    RunSnoc([] + [a], b);
    RunSnoc([] + [a] + [b], c);
    RunSnoc([] + [a] + [b] + [c], d);
    RunSnoc([] + [a] + [b] + [c] + [d], e);
    assert Run([]) == START by { RunNothing(); }
    OpensOnce(State(0, [], [Client(7, 0, [], false, [])]));
    ClosesOnce();
  }

  lemma RunNothing()
    ensures Run([]) == START
  {
  }

  lemma OpensOnce(s: State)
    requires s == State(0, [], [Client(7, 0, [], false, [])])
    ensures Step(START, Join(7, 0, false)) == s
    ensures Step(Step(Step(s, Open(7, "ved", Started)), Connected(1, 0)), InitiateAnswer(1, 0))
         == State(1, [VED.(status := ReadyState)], [Client(7, 1, [Info(1, 1, true)], false, [InProgress(1), Ready(1)])])
  {
    FirstOpen(s);
    var v := VED.(status := Opening);
    var t := State(1, [v], [ONCE]);
    assert Step(State(1, [VED], [ONCE]), Connected(1, 0)) == t;
    var ready := Client(7, 1, [Info(1, 1, true)], false, [InProgress(1), Ready(1)]);
    assert OkClient(ONCE, 1, 0) == ready by {
      assert IndexOfGlobal(ONCE.infos, 1) == 0 && IndexOfLocal(ONCE.infos, 1) == 0;
    }
    assert OkAll(t.clients, 1, 0) == [ready];
    assert UnsolAfterOk([], t.clients, 1) == [];
    assert Initiated(t, 0) == State(1, [v.(status := ReadyState)], [ready]);
  }

  lemma ClosesOnce()
    ensures var c := Client(7, 1, [Info(1, 1, true)], false, [InProgress(1), Ready(1)]);
      Step(State(1, [VED.(status := ReadyState)], [c]), Close(7, 1))
         == State(1, [VED.(refcount := 0, status := Disconnecting)], [Client(7, 1, [], false, CLOSED)])
  {
    var c := Client(7, 1, [Info(1, 1, true)], false, [InProgress(1), Ready(1)]);
    var s := State(1, [VED.(status := ReadyState)], [c]);
    assert IndexOfLocal(c.infos, 1) == 0 && IndexOf(s.servers, 1) == 0 && ClientIndex(s.clients, 7) == 0;
    assert FreeHandle(c.infos, 1) == [];
    assert c.inbox + [Closed(1, true)] == CLOSED;
  }

  const REOPENED: Client :=
    Client(7, 3, [Info(2, 1, false), Info(3, 1, false)], false, CLOSED + [InProgress(2), InProgress(3)])

  lemma Reopens()
    ensures var s := State(1, [VED.(refcount := 0, status := Disconnecting)], [Client(7, 1, [], false, CLOSED)]);
      Step(Step(s, Open(7, "ved", Started)), Open(7, "ved", Started))
        == State(1, [VED.(refcount := 2, status := Disconnecting)], [REOPENED])
  {
    var v := VED.(refcount := 0, status := Disconnecting);
    var c0 := Client(7, 1, [], false, CLOSED);
    var c1 := Client(7, 2, [Info(2, 1, false)], false, CLOSED + [InProgress(2)]);
    ReopensOnce(v, c0, c1);
    ReopensOnce(v.(refcount := 1), c1, REOPENED);
  }

  /** Opening the server while its Close confirmation is awaited. */
  lemma ReopensOnce(v: Server, c: Client, d: Client)
    requires v.id == 1 && v.name == "ved" && !v.isLocal && v.status.Disconnecting? && c.id == 7
    requires d == c.(lastLocal := c.lastLocal + 1, infos := c.infos + [Info(c.lastLocal + 1, 1, false)],
                     inbox := c.inbox + [InProgress(c.lastLocal + 1)])
    ensures Step(State(1, [v], [c]), Open(7, "ved", Started)) == State(1, [v.(refcount := v.refcount + 1)], [d])
  {
    var s := State(1, [v], [c]);
    assert FindOrCreate(s, "ved", Started) == At(State(1, [v.(refcount := v.refcount + 1)], [c]), 0);
    assert Grant(c, 1, false) == d;
  }

  lemma ReconnectFails()
    ensures var s := State(1, [VED.(refcount := 2, status := Disconnecting)], [REOPENED]);
      var c := REOPENED.(infos := [Info(3, 1, false)], inbox := REOPENED.inbox + [Failed(2, 5)]);
      Step(s, CloseAnswer(1, Refusal(5))) == State(1, [], [c])
  {
    var s := State(1, [VED.(refcount := 2, status := Disconnecting)], [REOPENED]);
    var c := REOPENED.(infos := [Info(3, 1, false)], inbox := REOPENED.inbox + [Failed(2, 5)]);
    assert OkClient(REOPENED, 1, 5) == c by {
      assert IndexOfGlobal(REOPENED.infos, 1) == 0 && IndexOfLocal(REOPENED.infos, 2) == 0;
      assert FreeHandle(REOPENED.infos, 2) == [Info(3, 1, false)];
    }
    assert OkAll(s.clients, 1, 5) == [c];
  }

  lemma HandleIsStranded()
    ensures var s := Run(RECONNECT);
      s.servers == [] && |s.clients| == 1 && s.clients[0].infos == [Info(3, 1, false)]
  {
    hide Run, Step;
    OpensAndCloses();
    Reopens();
    ReconnectFails();
    var f, g, h := RECONNECT[5], RECONNECT[6], RECONNECT[7];
    var front := RECONNECT[..5];
    assert RECONNECT == front + [f] + [g] + [h];
    RunSnoc(front, f);
    RunSnoc(front + [f], g);
    RunSnoc(front + [f] + [g], h);
  }

  // ---- who waits on a ready server ----

  /** x is a handle of client u. */
  predicate Has(s: State, u: int, x: Info) {
    exists i :: 0 <= i < |s.clients| && s.clients[i].id == u && x in s.clients[i].infos
  }

  /** x waits although its server is ready. */
  predicate Overlooked(s: State, u: int, x: Info) {
    !x.valid && Has(s, u, x) && IsReady(s.servers, x.globalId)
  }

  /** The server becomes ready while x waits behind another handle of its client on it. */
  predicate PassedBy(s: State, e: Event, u: int, x: Info) {
    e.InitiateAnswer? && e.server == x.globalId && e.res == 0 && !x.valid &&
    (var si := IndexOf(s.servers, x.globalId); si < |s.servers| && s.servers[si].status.Opening?) &&
    exists i :: 0 <= i < |s.clients| && s.clients[i].id == u && x in s.clients[i].infos
                && Local(s.clients[i].infos, x.globalId) != x.localId
  }

  ghost predicate NoneAwake(a: seq<Server>, b: seq<Server>) {
    forall g :: IsReady(b, g) ==> IsReady(a, g)
  }

  /** The client, with no new handle. */
  ghost predicate Fewer(a: Client, b: Client) {
    b.id == a.id && forall x :: x in b.infos ==> x in a.infos
  }

  ghost predicate OnlyFewer(a: seq<Client>, b: seq<Client>) {
    forall i :: 0 <= i < |b| ==> WasThere(a, b[i])
  }

  ghost predicate WasThere(a: seq<Client>, c: Client) {
    exists j :: 0 <= j < |a| && Fewer(a[j], c)
  }

  ghost predicate NoneNew(s: State, t: State) {
    forall u, x :: Overlooked(t, u, x) ==> Overlooked(s, u, x)
  }

  lemma FewerIsNoneNew(s: State, t: State)
    requires NoneAwake(s.servers, t.servers) && OnlyFewer(s.clients, t.clients)
    ensures NoneNew(s, t)
  {
    hide IsReady;
    forall u, x | Overlooked(t, u, x) ensures Overlooked(s, u, x) {
      var i :| 0 <= i < |t.clients| && t.clients[i].id == u && x in t.clients[i].infos;
      var j :| 0 <= j < |s.clients| && Fewer(s.clients[j], t.clients[i]);
      assert x in s.clients[j].infos;
    }
  }

  lemma SameClients(a: seq<Client>, b: seq<Client>)
    requires |a| == |b| && forall i :: 0 <= i < |a| ==> Fewer(a[i], b[i])
    ensures OnlyFewer(a, b)
  {
    forall i | 0 <= i < |b| ensures WasThere(a, b[i]) {
      assert Fewer(a[i], b[i]);
    }
  }

  lemma UpdatedServer(servers: seq<Server>, si: nat, v: Server)
    requires si < |servers| && v.id == servers[si].id && (v.status.ReadyState? ==> servers[si].status.ReadyState?)
    ensures NoneAwake(servers, servers[si := v])
  {
    var after := servers[si := v];
    forall g | IsReady(after, g) ensures IsReady(servers, g) {
      var i :| 0 <= i < |after| && after[i].id == g && after[i].status.ReadyState?;
      assert servers[i].id == g && servers[i].status.ReadyState?;
    }
  }

  lemma RemovedServer(servers: seq<Server>, si: nat)
    requires si < |servers|
    ensures NoneAwake(servers, servers[..si] + servers[si + 1..])
  {
    var after := servers[..si] + servers[si + 1..];
    forall g | IsReady(after, g) ensures IsReady(servers, g) {
      var i :| 0 <= i < |after| && after[i].id == g && after[i].status.ReadyState?;
      assert servers[if i < si then i else i + 1] == after[i];
    }
  }

  lemma {:induction false} DiedSubset(c: Client, id: int, err: int)
    ensures Fewer(c, DiedClient(c, id, err))
    decreases |c.infos|
  {
    var h := Local(c.infos, id);
    var found := Find(c.infos, h);
    if h != NO_ID && found.Some? {
      var note := if found.value.valid then Disconnected(h) else Failed(h, err);
      DiedSubset(Tell(c.(infos := FreeHandle(c.infos, h)), note), id, err);
    }
  }

  lemma DeleteTraces(s: State, si: nat)
    requires si < |s.servers|
    ensures NoneNew(s, DeleteServer(s, si))
  {
    hide IsReady, NoneNew;
    var v := s.servers[si];
    var died := DiedAll(s.clients, v.id, v.err);
    forall i | 0 <= i < |died| ensures Fewer(s.clients[i], died[i]) {
      DiedSubset(s.clients[i], v.id, v.err);
    }
    SameClients(s.clients, died);
    RemovedServer(s.servers, si);
    FewerIsNoneNew(s, DeleteServer(s, si));
  }

  lemma UpdateTraces(s: State, si: nat, v: Server)
    requires si < |s.servers| && v.id == s.servers[si].id && (v.status.ReadyState? ==> s.servers[si].status.ReadyState?)
    ensures NoneNew(s, s.(servers := s.servers[si := v]))
  {
    hide IsReady, NoneNew;
    UpdatedServer(s.servers, si, v);
    SameClients(s.clients, s.clients);
    FewerIsNoneNew(s, s.(servers := s.servers[si := v]));
  }

  lemma ReleaseTraces(s: State, si: nat, u: int)
    requires si < |s.servers|
    ensures NoneNew(s, ReleaseServer(s, si, u))
  {
    hide IsReady, Overlooked, RemoveFirst, DeleteServer;
    var v := s.servers[si];
    var v' := v.(unsol := RemoveFirst(v.unsol, u), refcount := v.refcount - 1);
    UpdateTraces(s, si, v');
    UpdateTraces(s, si, v'.(status := Disconnecting));
    DeleteTraces(s.(servers := s.servers[si := v']), si);
  }

  lemma {:induction false} LeaveAllTraces(s: State, infos: seq<Info>, u: int)
    ensures NoneNew(s, LeaveAll(s, infos, u))
    decreases |infos|
  {
    hide Overlooked, ReleaseServer;
    if infos != [] {
      var si := IndexOf(s.servers, infos[0].globalId);
      if si < |s.servers| {
        ReleaseTraces(s, si, u);
        LeaveAllTraces(ReleaseServer(s, si, u), infos[1..], u);
      } else {
        LeaveAllTraces(s, infos[1..], u);
      }
    }
  }

  /** The clients change without new handles, the servers not at all. */
  lemma ClientsTraces(s: State, clients: seq<Client>)
    requires OnlyFewer(s.clients, clients)
    ensures NoneNew(s, s.(clients := clients))
  {
    hide IsReady, NoneNew, OnlyFewer;
    FewerIsNoneNew(s, s.(clients := clients));
  }

  lemma OneClientLess(clients: seq<Client>, ci: nat)
    requires ci < |clients|
    ensures OnlyFewer(clients, clients[..ci] + clients[ci + 1..])
  {
    var after := clients[..ci] + clients[ci + 1..];
    forall i | 0 <= i < |after| ensures WasThere(clients, after[i]) {
      assert Fewer(clients[if i < ci then i else i + 1], after[i]);
    }
  }

  lemma LeaveTraces(s: State, ci: nat)
    requires ci < |s.clients|
    ensures NoneNew(s, LeaveClient(s, ci))
  {
    hide Overlooked, LeaveAll;
    var s1 := s.(clients := s.clients[..ci] + s.clients[ci + 1..]);
    OneClientLess(s.clients, ci);
    ClientsTraces(s, s1.clients);
    LeaveAllTraces(s1, s.clients[ci].infos, s.clients[ci].id);
  }

  lemma TellTraces(s: State, ci: nat, n: Note)
    ensures NoneNew(s, TellAt(s, ci, n))
  {
    hide NoneNew;
    SameClients(s.clients, TellAt(s, ci, n).clients);
    ClientsTraces(s, TellAt(s, ci, n).clients);
  }

  lemma CloseTraces(s: State, ci: nat, h: int)
    requires ci < |s.clients|
    ensures NoneNew(s, CloseVed(s, ci, h))
  {
    hide Overlooked, ReleaseServer, OnlyFewer;
    var c := s.clients[ci];
    var g := Global(c.infos, h);
    if g == NO_ID || IndexOf(s.servers, g) == |s.servers| {
      TellTraces(s, ci, Closed(h, false));
    } else {
      var s1 := s.(clients := s.clients[ci := Tell(c.(infos := FreeHandle(c.infos, h)), Closed(h, true))]);
      SameClients(s.clients, s1.clients);
      ClientsTraces(s, s1.clients);
      ReleaseTraces(s1, IndexOf(s.servers, g), c.id);
    }
  }

  lemma SetUnsolTraces(s: State, ci: nat, h: int, val: int)
    requires ci < |s.clients|
    ensures NoneNew(s, SetUnsolicited(s, ci, h, val))
  {
    hide Overlooked, SetUnsolList, TellAt;
    var c := s.clients[ci];
    var g := Global(c.infos, h);
    var si := IndexOf(s.servers, g);
    if g == NO_ID || si == |s.servers| {
      TellTraces(s, ci, UnsolSet(false));
    } else {
      var v := s.servers[si].(unsol := SetUnsolList(s.servers[si].unsol, c.id, val));
      UpdateTraces(s, si, v);
      TellTraces(s.(servers := s.servers[si := v]), ci, UnsolSet(true));
    }
  }

  lemma RefusedTraces(s: State, id: int, res: code)
    ensures NoneNew(s, s.(clients := OkAll(s.clients, id, res)))
  {
    hide NoneNew, OnlyFewer;
    SameClients(s.clients, OkAll(s.clients, id, res));
    ClientsTraces(s, OkAll(s.clients, id, res));
  }

  lemma OpenFailedTraces(s: State, si: nat, res: code)
    requires si < |s.servers|
    ensures NoneNew(s, OpenFailed(s, si, res))
  {
    hide Overlooked, DeleteServer, OkAll;
    RefusedTraces(s, s.servers[si].id, res);
    DeleteTraces(s.(clients := OkAll(s.clients, s.servers[si].id, res)), si);
  }

  lemma RemoveTraces(s: State, si: nat)
    requires si < |s.servers|
    ensures NoneNew(s, RemoveServer(s, si))
  {
    hide IsReady, NoneNew;
    RemovedServer(s.servers, si);
    SameClients(s.clients, s.clients);
    FewerIsNoneNew(s, RemoveServer(s, si));
  }

  lemma CloseConfirmedTraces(s: State, si: nat, reconnect: Attempt)
    requires si < |s.servers|
    ensures NoneNew(s, CloseConfirmed(s, si, reconnect))
  {
    hide Overlooked, DeleteServer, OkAll, RemoveServer;
    var v := s.servers[si];
    if v.refcount == 0 {
      DeleteTraces(s, si);
    } else if reconnect.Started? {
      UpdateTraces(s, si, v.(status := Connecting));
    } else {
      RefusedTraces(s, v.id, reconnect.code);
      RemoveTraces(s.(clients := OkAll(s.clients, v.id, reconnect.code)), si);
    }
  }

  lemma {:induction false} ForwardTraces(clients: seq<Client>, id: int, unsol: seq<int>)
    ensures var after := Forward(clients, id, unsol);
      |after| == |clients| &&
      forall i :: 0 <= i < |clients| ==> after[i].id == clients[i].id && after[i].infos == clients[i].infos
    decreases |unsol|
  {
    if unsol != [] {
      var ci := ClientIndex(clients, unsol[0]);
      var next :=
        if ci < |clients| then clients[ci := Tell(clients[ci], Unsol(Local(clients[ci].infos, id)))] else clients;
      ForwardTraces(next, id, unsol[1..]);
    }
  }

  /** A handle that is granted waits only if the server is not ready. */
  lemma GrantTraces(s: State, s1: State, ci: nat, si: nat)
    requires ci < |s.clients| && si < |s1.servers| && s1.clients == s.clients
    requires forall i :: 0 <= i < |s1.servers| && i != si ==> s1.servers[i].id != s1.servers[si].id
    requires forall i, x :: 0 <= i < |s.clients| && x in s.clients[i].infos && IsReady(s1.servers, x.globalId) ==>
      IsReady(s.servers, x.globalId)
    ensures NoneNew(s, GiveHandle(s1, ci, si))
  {
    hide SetUnsolList;
    var t, c, v := GiveHandle(s1, ci, si), s.clients[ci], s1.servers[si];
    UpdatedServer(s1.servers, si, t.servers[si]);
    ReadyIsStatus(t.servers, si);
    forall u, x | Overlooked(t, u, x) ensures Overlooked(s, u, x) {
      var i :| 0 <= i < |t.clients| && t.clients[i].id == u && x in t.clients[i].infos;
      assert i == ci ==> x in c.infos + [Info(c.lastLocal + 1, v.id, v.status.ReadyState?)];
      assert s.clients[i].id == u && x in s.clients[i].infos;
      assert IsReady(s1.servers, x.globalId);
    }
  }

  lemma ReadyIsStatus(servers: seq<Server>, si: nat)
    requires si < |servers| && forall i :: 0 <= i < |servers| && i != si ==> servers[i].id != servers[si].id
    ensures IsReady(servers, servers[si].id) <==> servers[si].status.ReadyState?
  {
  }

  lemma CreatedTraces(s: State, v: Server, g: int)
    requires IsReady(s.servers + [v], g) && g != v.id
    ensures IsReady(s.servers, g)
  {
    var after := s.servers + [v];
    var i :| 0 <= i < |after| && after[i].id == g && after[i].status.ReadyState?;
    assert s.servers[i] == after[i];
  }

  lemma OpenTraces(s: State, ci: nat, name: string, attempt: Attempt)
    requires Inv(s) && ci < |s.clients|
    ensures NoneNew(s, OpenVed(s, ci, name, attempt))
  {
    hide Handles, HandlesIn, ClientOk, UnsolOk, CountsOk, IdleOk, IsReady, GiveHandle;
    match FindOrCreate(s, name, attempt) {
      case NoServer(s1, res) =>
        TellTraces(s1, ci, Refused(res));
      case At(s1, si) =>
        if si < |s.servers| {
          UpdatedServer(s.servers, si, s1.servers[si]);
        } else {
          forall i, x | 0 <= i < |s.clients| && x in s.clients[i].infos && IsReady(s1.servers, x.globalId)
            ensures IsReady(s.servers, x.globalId)
          {
            assert HandlesOk(s.servers, s.clients[i], s.lastId);
            CreatedTraces(s, s1.servers[si], x.globalId);
          }
        }
        GrantTraces(s, s1, ci, si);
    }
  }

  lemma SetValidOnly(infos: seq<Info>, l: int, x: Info)
    requires x in SetValid(infos, l, true) && !x.valid
    ensures x in infos
  {
  }

  lemma FoundIs(infos: seq<Info>, x: Info)
    requires DistinctLocals(infos) && x in infos
    ensures Find(infos, x.localId) == Some(x)
  {
    var i :| 0 <= i < |infos| && infos[i] == x;
    FindIs(infos, i);
  }

  /** When a server becomes ready, exactly the first handles on it do. */
  lemma InitiatedTraces(s: State, si: nat, u: int, x: Info)
    requires Inv(s) && si < |s.servers| && s.servers[si].status.Opening? && Overlooked(Initiated(s, si), u, x)
    ensures Overlooked(s, u, x) || PassedBy(s, InitiateAnswer(s.servers[si].id, 0), u, x)
  {
    hide Handles, HandlesIn, UnsolOk, CountsOk, IdleOk, UnsolAfterOk, IsReady, Balanced, Orderly;
    var t, id := Initiated(s, si), s.servers[si].id;
    var i :| 0 <= i < |t.clients| && t.clients[i].id == u && x in t.clients[i].infos;
    var c, d := s.clients[i], t.clients[i];
    assert ClientOk(c) && d == OkClient(c, id, 0);
    if x in d.infos && d != c {
      SetValidOnly(c.infos, Local(c.infos, id), x);
    }
    assert x in c.infos && c.id == u;
    if x.globalId == id {
      FoundIs(c.infos, x);
      ReadyReachesFirstOnly(s, si, i, x.localId);
      SetValidDistinct(c.infos, Local(c.infos, id));
      FoundIs(d.infos, x);
      FirstWithId(s.servers, si, s.lastId);
    } else {
      StaysReady(s.servers, si, t.servers[si], x.globalId);
    }
  }

  lemma SetValidDistinct(infos: seq<Info>, l: int)
    requires DistinctLocals(infos)
    ensures DistinctLocals(SetValid(infos, l, true))
  {
  }

  lemma FirstWithId(servers: seq<Server>, si: nat, lastId: int)
    requires ServersOk(servers, lastId) && si < |servers|
    ensures IndexOf(servers, servers[si].id) == si
  {
  }

  lemma StaysReady(servers: seq<Server>, si: nat, v: Server, g: int)
    requires si < |servers| && v.id == servers[si].id && g != v.id && IsReady(servers[si := v], g)
    ensures IsReady(servers, g)
  {
    UpdateReadyOnly(servers, si, v, g);
  }

  lemma ServerTraces(s: State, si: nat, e: Event, u: int, x: Info)
    requires Inv(s) && si < |s.servers| && !s.servers[si].isLocal && IndexOf(s.servers, s.servers[si].id) == si
    requires !e.Join? && !e.Leave? && !e.Open? && !e.Close? && !e.SetUnsol? && e.server == s.servers[si].id
    requires Overlooked(ServerStep(s, si, e), u, x)
    ensures Overlooked(s, u, x) || PassedBy(s, e, u, x)
  {
    hide InvBut, Overlooked, PassedBy, DeleteServer, OpenFailed, Initiated, CloseConfirmed, Forward;
    var v := s.servers[si];
    match e {
      case Connected(_, res) =>
        if v.status == Connecting && res != 0 { OpenFailedTraces(s, si, res); }
        UpdateTraces(s, si, v.(status := Opening));
      case OpenAnswer(_, res) =>
        if v.status == Opening && res != 0 { OpenFailedTraces(s, si, res); }
      case InitiateAnswer(_, res) =>
        if v.status == Opening {
          if res != 0 { OpenFailedTraces(s, si, res); } else { InitiatedTraces(s, si, u, x); }
        }
      case CloseAnswer(_, reconnect) =>
        if v.status == Disconnecting { CloseConfirmedTraces(s, si, reconnect); }
      case ReadFails(_, errno) =>
        UpdateTraces(s, si, v.(err := errno));
        DeleteTraces(s.(servers := s.servers[si := v.(err := errno)]), si);
        DeleteTraces(s, si);
      case WriteFails(_) => DeleteTraces(s, si);
      case UnsolMessage(_) =>
        ForwardTraces(s.clients, v.id, v.unsol);
        SameClients(s.clients, Forward(s.clients, v.id, v.unsol));
        ClientsTraces(s, Forward(s.clients, v.id, v.unsol));
    }
  }

  /** No event makes a handle wait on a ready server, but the one that makes the server
      ready past it. */
  lemma StepTraces(s: State, e: Event, u: int, x: Info)
    requires Inv(s) && Overlooked(Step(s, e), u, x)
    ensures Overlooked(s, u, x) || PassedBy(s, e, u, x)
  {
    hide InvBut, Overlooked, PassedBy, LeaveClient, OpenVed, CloseVed, SetUnsolicited, ServerStep;
    match e {
      case Join(id, lastLocal, defUnsol) =>
        if ClientIndex(s.clients, id) == |s.clients| { JoinTraces(s, Client(id, lastLocal, [], defUnsol, []), u, x); }
      case Leave(id) =>
        if ClientIndex(s.clients, id) < |s.clients| { LeaveTraces(s, ClientIndex(s.clients, id)); }
      case Open(id, name, attempt) =>
        if ClientIndex(s.clients, id) < |s.clients| { OpenTraces(s, ClientIndex(s.clients, id), name, attempt); }
      case Close(id, h) =>
        if ClientIndex(s.clients, id) < |s.clients| { CloseTraces(s, ClientIndex(s.clients, id), h); }
      case SetUnsol(id, h, val) =>
        if ClientIndex(s.clients, id) < |s.clients| { SetUnsolTraces(s, ClientIndex(s.clients, id), h, val); }
      case _ =>
        var si := IndexOf(s.servers, e.server);
        if si < |s.servers| && !s.servers[si].isLocal { ServerTraces(s, si, e, u, x); }
    }
  }

  lemma JoinTraces(s: State, c: Client, u: int, x: Info)
    requires c.infos == [] && Overlooked(s.(clients := s.clients + [c]), u, x)
    ensures Overlooked(s, u, x)
  {
    var after := s.clients + [c];
    var i :| 0 <= i < |after| && after[i].id == u && x in after[i].infos;
    assert s.clients[i] == after[i];
  }

  /** Some earlier turn made the server ready while x waited behind another handle. */
  ghost predicate PassedOver(es: seq<Event>, u: int, x: Info) {
    exists k {:trigger es[k]} :: 0 <= k < |es| && PassedBy(Run(es[..k]), es[k], u, x)
  }

  /** In every run, a handle that waits on a ready server was waiting behind another
      handle of its client when the server became ready. */
  lemma {:induction false} WaitingWasPassedOver(es: seq<Event>, u: int, x: Info)
    requires Overlooked(Run(es), u, x)
    ensures PassedOver(es, u, x)
  {
    hide Overlooked, PassedBy, Step;
    NobodyWaits(u, x);
    if es != [] {
      var n := |es| - 1;
      var s := Run(es[..n]);
      RunInv(es[..n]);
      StepTraces(s, es[n], u, x);
      if Overlooked(s, u, x) {
        WaitingWasPassedOver(es[..n], u, x);
        var k :| 0 <= k < n && PassedBy(Run(es[..n][..k]), es[..n][k], u, x);
        assert es[..n][..k] == es[..k] && es[..n][k] == es[k];
      }
    }
  }

  lemma NobodyWaits(u: int, x: Info)
    ensures !Overlooked(START, u, x)
  {
  }

  // ---- servers that delete themselves while a message is handled ----

  predicate IsMessage(e: Event) {
    e.OpenAnswer? || e.InitiateAnswer? || e.CloseAnswer? || e.UnsolMessage?
  }

  /** The answers that delete the server: a refusal of Open or Initiate, and the answer
      to Close unless the server connects again. */
  predicate DeletingAnswer(v: Server, e: Event) {
    || ((e.OpenAnswer? || e.InitiateAnswer?) && v.status.Opening? && e.res != 0)
    || (e.CloseAnswer? && v.status.Disconnecting? && (v.refcount == 0 || e.reconnect.Refusal?))
  }

  /** The routine that reads a message hands it on and then sets the reader's state,
      which is a field of the server object: the object is gone by then exactly after
      these answers. */
  lemma WritesToDeletedExactly(s: State, si: nat, e: Event)
    requires Inv(s) && si < |s.servers| && !s.servers[si].isLocal && IsMessage(e) && e.server == s.servers[si].id
    ensures !Live(Step(s, e).servers, e.server) <==> DeletingAnswer(s.servers[si], e)
  {
    hide Handles, ClientsOk, ClientIdsOk, UnsolOk, CountsOk, IdleOk, OkAll, DiedAll, UnsolAfterOk, Forward;
    FirstWithId(s.servers, si, s.lastId);
    RemoveServersOk(s.servers, si, s.lastId);
    var after := Step(s, e).servers;
    if DeletingAnswer(s.servers[si], e) {
      assert after == s.servers[..si] + s.servers[si + 1..];
      assert forall i :: 0 <= i < |after| ==> after[i] in after;
    } else {
      assert after[si].id == e.server;
    }
  }

  /** An ordinary close ends so. */
  lemma CloseWritesToDeleted()
    ensures var s, e := Run(RECONNECT[..5]), CloseAnswer(1, Started);
      |s.servers| == 1 && s.servers[0].id == 1 && !s.servers[0].isLocal && !Live(Step(s, e).servers, 1)
  {
    OpensAndCloses();
    hide Run;
    RunIsInv(RECONNECT[..5]);
    WritesToDeletedExactly(Run(RECONNECT[..5]), 0, CloseAnswer(1, Started));
  }

  lemma RunIsInv(es: seq<Event>)
    ensures Inv(Run(es))
  {
    RunInv(es);
  }
}
