/** Which completion a waiting handle gets, and with which code. */
module BrokerNotes {
  import opened Util
  import opened HandleTable
  import opened Broker
  import opened BrokerSteps
  import opened BrokerRuns
  import opened BrokerBeyond

  /*
    In every run the completions a client was sent since it joined are those that some
    event caused while the handle was waiting: `Ready` when its server became ready, and
    `Failed` with a code that is 0 for many deaths, which is also the code of success.
  */

  function Infos(s: State, u: int): seq<Info> {
    var ci := ClientIndex(s.clients, u);
    if ci < |s.clients| then s.clients[ci].infos else []
  }

  function Inbox(s: State, u: int): seq<Note> {
    var ci := ClientIndex(s.clients, u);
    if ci < |s.clients| then s.clients[ci].inbox else []
  }

  predicate Present(s: State, u: int) {
    ClientIndex(s.clients, u) < |s.clients|
  }

  predicate IsCompletion(n: Note) {
    n.Ready? || n.Failed?
  }

  /** The table has a handle h on server g that waits. */
  predicate WaitsIn(infos: seq<Info>, h: int, g: int) {
    Find(infos, h) == Some(Info(h, g, false))
  }

  predicate WaitsFor(s: State, u: int, h: int, g: int) {
    WaitsIn(Infos(s, u), h, g)
  }

  /** h is the client's first handle on server g. */
  predicate IsFirst(s: State, u: int, h: int, g: int) {
    Local(Infos(s, u), g) == h
  }

  predicate Remote(s: State, g: int) {
    var si := IndexOf(s.servers, g);
    si < |s.servers| && !s.servers[si].isLocal
  }

  predicate InStatus(s: State, g: int, status: Status) {
    Remote(s, g) && s.servers[IndexOf(s.servers, g)].status == status
  }

  /** The event makes the server ready and reaches h, the client's first handle on it. */
  predicate MadeReady(s: State, e: Event, u: int, h: int) {
    e.InitiateAnswer? && e.res == 0 && InStatus(s, e.server, Opening) && WaitsFor(s, u, h, e.server) &&
    IsFirst(s, u, h, e.server)
  }

  /** A refusal is reported to the client's first handle; the others see the server die. */
  predicate RefusalCode(s: State, u: int, h: int, g: int, res: int, r: int) {
    res != 0 && r == if IsFirst(s, u, h, g) then res else 0
  }

  /** The event ends the wait of h without success, and the client is told r. */
  predicate Fails(s: State, e: Event, u: int, h: int, r: int) {
    match e
    case Connected(g, res) => InStatus(s, g, Connecting) && WaitsFor(s, u, h, g) && RefusalCode(s, u, h, g, res, r)
    case OpenAnswer(g, res) => InStatus(s, g, Opening) && WaitsFor(s, u, h, g) && RefusalCode(s, u, h, g, res, r)
    case InitiateAnswer(g, res) => InStatus(s, g, Opening) && WaitsFor(s, u, h, g) && RefusalCode(s, u, h, g, res, r)
    case CloseAnswer(g, reconnect) =>
      InStatus(s, g, Disconnecting) && WaitsFor(s, u, h, g) && IsFirst(s, u, h, g) && reconnect.Refusal? &&
      r == reconnect.code
    case ReadFails(g, errno) =>
      Remote(s, g) && WaitsFor(s, u, h, g) && r == if InStatus(s, g, Opening) then errno else 0
    case WriteFails(g) => Remote(s, g) && WaitsFor(s, u, h, g) && r == 0
    case _ => false
  }

  predicate Causes(s: State, e: Event, u: int, n: Note) {
    (n.Ready? && MadeReady(s, e, u, n.handle)) || (n.Failed? && Fails(s, e, u, n.handle, n.res))
  }

  // ---- one client ----

  lemma {:induction false} FarewellHas(infos: seq<Info>, id: int, err: int, n: Note)
    requires IsCompletion(n)
    ensures n in Farewell(infos, id, err) <==> n.Failed? && n.res == err && Info(n.handle, id, false) in infos
  {
    if infos != [] {
      FarewellHas(infos[1..], id, err, n);
      assert infos == [infos[0]] + infos[1..];
    }
  }

  lemma WaitsInIs(infos: seq<Info>, h: int, g: int)
    requires DistinctLocals(infos)
    ensures WaitsIn(infos, h, g) <==> Info(h, g, false) in infos
  {
    if Info(h, g, false) in infos {
      FoundIs(infos, Info(h, g, false));
    }
  }

  lemma DeathTells(c: Client, id: int, err: int, n: Note)
    requires ClientOk(c) && IsCompletion(n)
    ensures n in DiedClient(c, id, err).inbox <==>
      n in c.inbox || (n.Failed? && n.res == err && WaitsIn(c.infos, n.handle, id))
  {
    hide Balanced, Orderly, WaitsIn, DiedClient;
    DeathIsToldToEveryHandle(c, id, err);
    FarewellHas(c.infos, id, err, n);
    if n.Failed? {
      WaitsInIs(c.infos, n.handle, id);
    }
  }

  /** server_ok, when no handle on the server is valid, concerns the first handle only. */
  lemma AnswerTells(c: Client, id: int, res: int, n: Note)
    requires ClientOk(c) && IsCompletion(n) && forall x :: x in c.infos && x.globalId == id ==> !x.valid
    ensures n in OkClient(c, id, res).inbox <==>
      n in c.inbox ||
      (WaitsIn(c.infos, n.handle, id) && Local(c.infos, id) == n.handle &&
       if res == 0 then n.Ready? else n.Failed? && n.res == res)
  {
    hide Balanced, Orderly, SetValid, FreeHandle;
    var h := Local(c.infos, id);
    NoHandle(c, id);
    if h != NO_ID {
      FirstHandle(c, id);
    } else {
      var i := IndexOfLocal(c.infos, NO_ID);
      if i < |c.infos| {
        HeldIsNumbered(c, i);
      }
    }
  }

  lemma RefusalTells(c: Client, id: int, res: code, n: Note)
    requires ClientOk(c) && IsCompletion(n) && forall x :: x in c.infos && x.globalId == id ==> !x.valid
    ensures n in DiedClient(OkClient(c, id, res), id, 0).inbox <==>
      n in c.inbox ||
      (n.Failed? && WaitsIn(c.infos, n.handle, id) && n.res == if Local(c.infos, id) == n.handle then res else 0)
  {
    hide ClientOk, OkClient, DiedClient, Find, Local, FreeHandle;
    OkClientKeeps(c, id, res);
    AnswerTells(c, id, res, n);
    DeathTells(OkClient(c, id, res), id, 0, n);
    RefusalFreesFirst(c, id, res);
    assert DistinctLocals(c.infos) by { OkIsDistinct(c); }
    FindFree(c.infos, Local(c.infos, id), n.handle);
  }

  lemma OkIsDistinct(c: Client)
    requires ClientOk(c)
    ensures DistinctLocals(c.infos)
  {
  }

  // ---- one event ----

  lemma SameIndex(a: seq<Client>, b: seq<Client>, u: int)
    requires |a| == |b| && forall i :: 0 <= i < |a| ==> b[i].id == a[i].id
    ensures ClientIndex(b, u) == ClientIndex(a, u)
  {
  }

  /** The same clients, to whom no completion is sent. */
  ghost predicate Silent(a: seq<Client>, b: seq<Client>, n: Note) {
    |a| == |b| && forall i :: 0 <= i < |a| ==> b[i].id == a[i].id && (n in b[i].inbox <==> n in a[i].inbox)
  }

  lemma SilentInbox(s: State, t: State, u: int, n: Note)
    requires Silent(s.clients, t.clients, n)
    ensures n in Inbox(t, u) <==> n in Inbox(s, u)
  {
    SameIndex(s.clients, t.clients, u);
  }

  predicate NoErr(servers: seq<Server>) {
    forall v :: v in servers ==> v.err == 0
  }

  lemma NobodyWaitsIn(h: int, g: int)
    ensures !WaitsIn([], h, g)
  {
  }

  lemma AtIndex(s: State, t: State, u: int, ci: nat)
    requires ci == ClientIndex(s.clients, u) && |t.clients| == |s.clients|
    requires forall i :: 0 <= i < |s.clients| ==> t.clients[i].id == s.clients[i].id
    ensures ci < |s.clients| ==>
      Infos(s, u) == s.clients[ci].infos && Inbox(s, u) == s.clients[ci].inbox && Inbox(t, u) == t.clients[ci].inbox
    ensures ci == |s.clients| ==> Infos(s, u) == [] && Inbox(s, u) == Inbox(t, u) == []
  {
    SameIndex(s.clients, t.clients, u);
  }

  lemma OpenFailedTells(s: State, si: nat, res: code, u: int, n: Note)
    requires Inv(s) && NoErr(s.servers) && si < |s.servers| && !s.servers[si].status.ReadyState? && IsCompletion(n)
    ensures var g := s.servers[si].id;
      n in Inbox(OpenFailed(s, si, res), u) <==>
        n in Inbox(s, u) || (n.Failed? && WaitsFor(s, u, n.handle, g) && RefusalCode(s, u, n.handle, g, res, n.res))
  {
    hide InvBut, ClientOk, OkClient, DiedClient, Local, WaitsIn, Infos, Inbox, HandlesIn;
    var id, t, ci := s.servers[si].id, OpenFailed(s, si, res), ClientIndex(s.clients, u);
    InvAllOk(s, 0);
    NotReadyNoneValid(s, si, 0);
    forall i | 0 <= i < |s.clients| ensures t.clients[i].id == s.clients[i].id {
      OkClientKeeps(s.clients[i], id, res);
      DiedClientKeeps(OkClient(s.clients[i], id, res), id, 0);
    }
    AtIndex(s, t, u, ci);
    NobodyWaitsIn(n.handle, id);
    if ci < |s.clients| {
      RefusalTells(s.clients[ci], id, res, n);
    }
  }

  lemma DeleteTells(s: State, si: nat, u: int, n: Note)
    requires AllOk(s.clients) && si < |s.servers| && IsCompletion(n)
    ensures n in Inbox(DeleteServer(s, si), u) <==>
      n in Inbox(s, u) ||
      (n.Failed? && n.res == s.servers[si].err && WaitsFor(s, u, n.handle, s.servers[si].id))
  {
    hide ClientOk, DiedClient, WaitsIn, Infos, Inbox, HandlesIn;
    var v, t, ci := s.servers[si], DeleteServer(s, si), ClientIndex(s.clients, u);
    forall i | 0 <= i < |s.clients| ensures t.clients[i].id == s.clients[i].id {
      DiedClientKeeps(s.clients[i], v.id, v.err);
    }
    AtIndex(s, t, u, ci);
    NobodyWaitsIn(n.handle, v.id);
    if ci < |s.clients| {
      DeathTells(s.clients[ci], v.id, v.err, n);
    }
  }

  /** The server's answer reaches the first handle of every client, and the server lives
      on or goes without a further word. */
  lemma AnswerTellsAll(s: State, si: nat, res: int, t: State, u: int, n: Note)
    requires Inv(s) && si < |s.servers| && !s.servers[si].status.ReadyState? && IsCompletion(n)
    requires t.clients == OkAll(s.clients, s.servers[si].id, res)
    ensures var g := s.servers[si].id;
      n in Inbox(t, u) <==>
        n in Inbox(s, u) ||
        (WaitsFor(s, u, n.handle, g) && IsFirst(s, u, n.handle, g) &&
         if res == 0 then n.Ready? else n.Failed? && n.res == res)
  {
    hide InvBut, ClientOk, OkClient, Local, WaitsIn, Infos, Inbox, HandlesIn;
    var id, ci := s.servers[si].id, ClientIndex(s.clients, u);
    InvAllOk(s, 0);
    NotReadyNoneValid(s, si, 0);
    forall i | 0 <= i < |s.clients| ensures t.clients[i].id == s.clients[i].id {
      OkClientKeeps(s.clients[i], id, res);
    }
    AtIndex(s, t, u, ci);
    NobodyWaitsIn(n.handle, id);
    if ci < |s.clients| {
      AnswerTells(s.clients[ci], id, res, n);
    }
  }

  /** On a server that counts no handles nobody waits. */
  lemma NoneOnIdle(s: State, si: nat, u: int, h: int)
    requires Inv(s) && si < |s.servers| && s.servers[si].refcount == 0
    ensures !WaitsFor(s, u, h, s.servers[si].id)
  {
    hide Handles, HandlesIn, ClientsOk, UnsolOk, ServersOk;
    var g, ci := s.servers[si].id, ClientIndex(s.clients, u);
    IdsPositive(s, 0);
    HoldsIffHandles(s.clients, g);
    if ci < |s.clients| {
      HandlesZero(s.clients[ci].infos, g);
    }
  }

  lemma ForwardTells(s: State, id: int, unsol: seq<int>, u: int, n: Note)
    requires ClientIdsOk(s.clients) && NoDup(unsol) && IsCompletion(n)
    ensures n in Inbox(s.(clients := Forward(s.clients, id, unsol)), u) <==> n in Inbox(s, u)
  {
    hide Inbox, Local;
    ForwardReachesExactly(s.clients, id, unsol);
    SilentInbox(s, s.(clients := Forward(s.clients, id, unsol)), u, n);
  }

  lemma ServerTells(s: State, si: nat, e: Event, u: int, n: Note)
    requires Inv(s) && NoErr(s.servers) && IsCompletion(n)
    requires si < |s.servers| && !s.servers[si].isLocal && si == IndexOf(s.servers, s.servers[si].id)
    requires !e.Join? && !e.Leave? && !e.Open? && !e.Close? && !e.SetUnsol? && e.server == s.servers[si].id
    ensures n in Inbox(ServerStep(s, si, e), u) <==> n in Inbox(s, u) || Causes(s, e, u, n)
  {
    hide InvBut, Inbox, WaitsFor, IsFirst, OpenFailed, DeleteServer, Forward;
    var v := s.servers[si];
    InvAllOk(s, 0);
    match e {
      case Connected(_, res) =>
        if v.status == Connecting && res != 0 { OpenFailedTells(s, si, res, u, n); }
        SilentInbox(s, s.(servers := s.servers[si := v.(status := Opening)]), u, n);
      case OpenAnswer(_, res) =>
        if v.status == Opening && res != 0 { OpenFailedTells(s, si, res, u, n); }
      case InitiateAnswer(_, res) =>
        if v.status == Opening {
          if res != 0 { OpenFailedTells(s, si, res, u, n); } else { AnswerTellsAll(s, si, 0, Initiated(s, si), u, n); }
        }
      case CloseAnswer(_, reconnect) =>
        if v.status == Disconnecting { CloseAnswerTells(s, si, reconnect, u, n); }
      case ReadFails(_, errno) =>
        DeleteTells(s, si, u, n);
        ErrChanges(s, si, errno, u, n);
      case WriteFails(_) => DeleteTells(s, si, u, n);
      case UnsolMessage(_) =>
        UnsolOnce(s, si);
        ForwardTells(s, v.id, v.unsol, u, n);
    }
  }

  lemma UnsolOnce(s: State, si: nat)
    requires Inv(s) && si < |s.servers|
    ensures NoDup(s.servers[si].unsol) && ClientIdsOk(s.clients)
  {
  }

  lemma CloseAnswerTells(s: State, si: nat, reconnect: Attempt, u: int, n: Note)
    requires Inv(s) && si < |s.servers| && s.servers[si].status.Disconnecting? && IsCompletion(n)
    ensures var g := s.servers[si].id;
      n in Inbox(CloseConfirmed(s, si, reconnect), u) <==>
        n in Inbox(s, u) ||
        (n.Failed? && WaitsFor(s, u, n.handle, g) && IsFirst(s, u, n.handle, g) && reconnect.Refusal? &&
         n.res == reconnect.code)
  {
    hide InvBut, Inbox, WaitsFor, IsFirst, DeleteServer;
    var v := s.servers[si];
    var t := CloseConfirmed(s, si, reconnect);
    InvAllOk(s, 0);
    if v.refcount == 0 {
      NoneOnIdle(s, si, u, n.handle);
      DeleteTells(s, si, u, n);
    } else if reconnect.Started? {
      SilentInbox(s, t, u, n);
    } else {
      AnswerTellsAll(s, si, reconnect.code, t, u, n);
    }
  }

  /** A read that fails while the server is being opened leaves its code to be told. */
  lemma ErrChanges(s: State, si: nat, errno: int, u: int, n: Note)
    requires AllOk(s.clients) && si < |s.servers| && IsCompletion(n)
    ensures n in Inbox(DeleteServer(s.(servers := s.servers[si := s.servers[si].(err := errno)]), si), u) <==>
      n in Inbox(s, u) || (n.Failed? && n.res == errno && WaitsFor(s, u, n.handle, s.servers[si].id))
  {
    hide AllOk, DeleteServer;
    DeleteTells(s.(servers := s.servers[si := s.servers[si].(err := errno)]), si, u, n);
  }

  // ---- events of clients ----

  lemma ReleaseKeepsClients(s: State, si: nat, u: int)
    requires si < |s.servers| && s.servers[si].refcount == Handles(s.clients, s.servers[si].id) + 1
    ensures ReleaseServer(s, si, u).clients == s.clients
  {
    hide Handles, ReleaseServer;
    if s.clients == [] {
      ReleaseEmpty(s, si, u);
    } else {
      ReleaseSpares(s, 0, si, u);
      forall i | 0 <= i < |s.clients| ensures ReleaseServer(s, si, u).clients[i] == s.clients[i] {
        ReleaseSpares(s, i, si, u);
      }
    }
  }

  lemma ReleaseEmpty(s: State, si: nat, u: int)
    requires s.clients == [] && si < |s.servers|
    ensures ReleaseServer(s, si, u).clients == []
  {
  }

  lemma ClosingCounts(s: State, ci: nat, h: int, si: nat)
    requires Inv(s) && ci < |s.clients| && Find(s.clients[ci].infos, h).Some?
    requires si < |s.servers| && s.servers[si].id == Find(s.clients[ci].infos, h).value.globalId
    ensures s.servers[si].refcount
         == Handles(s.clients[ci := Closing(s.clients[ci], h)], s.servers[si].id) + 1
  {
    hide Handles, HandlesIn, ServersOk, ClientsOk, UnsolOk, Find, FreeHandle;
    IdsPositive(s, 0);
    HandlesUpdateC(s.clients, ci, Closing(s.clients[ci], h), s.servers[si].id);
    HandlesAfter(s.clients[ci].infos, h);
  }

  lemma {:induction false} LeaveKeepsOthers(s: State, ci: nat)
    requires Inv(s) && ci < |s.clients|
    ensures LeaveAll(Without(s, ci), s.clients[ci].infos, s.clients[ci].id).clients == Without(s, ci).clients
    decreases |s.clients[ci].infos|
  {
    hide InvBut, ReleaseServer, Closing, Handles, Find;
    var c := s.clients[ci];
    if c.infos != [] {
      var si, h := IndexOf(s.servers, c.infos[0].globalId), c.infos[0].localId;
      var s1 := s.(clients := s.clients[ci := Closing(c, h)]);
      LeaveOne(s, ci);
      InvAllOk(s, 0);
      HeldIsNumbered(c, 0);
      if si < |s.servers| {
        ClosingCounts(s, ci, h, si);
        ReleaseKeepsClients(s1, si, c.id);
        LeaveKeepsOthers(ReleaseServer(s1, si, c.id), ci);
      } else {
        LeaveKeepsOthers(s1, ci);
      }
    }
  }

  lemma LeaveInbox(s: State, ci: nat, u: int)
    requires Inv(s) && ci < |s.clients|
    ensures var t := LeaveClient(s, ci);
      if u == s.clients[ci].id then !Present(t, u) && Inbox(t, u) == []
      else Inbox(t, u) == Inbox(s, u) && (Present(t, u) <==> Present(s, u))
  {
    hide LeaveAll, ServersOk, UnsolOk, ClientsOk, CountsOk;
    LeaveKeepsOthers(s, ci);
    var after := Without(s, ci).clients;
    var i, j := ClientIndex(s.clients, u), ClientIndex(after, u);
    assert forall k :: 0 <= k < |after| ==> after[k] == s.clients[if k < ci then k else k + 1];
    if i < |s.clients| && i != ci {
      var k := if i < ci then i else i - 1;
      assert after[k] == s.clients[i];
      assert j == k;
    } else {
      assert j == |after|;
    }
  }

  lemma TellAtTells(s: State, ci: nat, note: Note, u: int, n: Note)
    requires IsCompletion(n) && !IsCompletion(note)
    ensures n in Inbox(TellAt(s, ci, note), u) <==> n in Inbox(s, u)
  {
    hide Inbox;
    SilentInbox(s, TellAt(s, ci, note), u, n);
  }

  lemma OpenTells(s: State, ci: nat, name: string, attempt: Attempt, u: int, n: Note)
    requires ci < |s.clients| && IsCompletion(n)
    ensures n in Inbox(OpenVed(s, ci, name, attempt), u) <==> n in Inbox(s, u)
  {
    hide Inbox, SetUnsolList;
    match FindOrCreate(s, name, attempt) {
      case NoServer(s1, res) =>
        TellAtTells(s1, ci, Refused(res), u, n);
        SilentInbox(s, s1, u, n);
      case At(s1, si) => SilentInbox(s, GiveHandle(s1, ci, si), u, n);
    }
  }

  lemma CloseTells(s: State, ci: nat, h: int, u: int, n: Note)
    requires Inv(s) && ci < |s.clients| && IsCompletion(n)
    ensures n in Inbox(CloseVed(s, ci, h), u) <==> n in Inbox(s, u)
  {
    hide Inbox, InvBut, ReleaseServer, FreeHandle, Handles;
    var c := s.clients[ci];
    var g := Global(c.infos, h);
    var si := IndexOf(s.servers, g);
    if g == NO_ID || si == |s.servers| {
      TellAtTells(s, ci, Closed(h, false), u, n);
    } else {
      ClosingCounts(s, ci, h, si);
      ReleaseKeepsClients(s.(clients := s.clients[ci := Closing(c, h)]), si, c.id);
      SilentInbox(s, CloseVed(s, ci, h), u, n);
    }
  }

  lemma SetUnsolTells(s: State, ci: nat, h: int, val: int, u: int, n: Note)
    requires ci < |s.clients| && IsCompletion(n)
    ensures n in Inbox(SetUnsolicited(s, ci, h, val), u) <==> n in Inbox(s, u)
  {
    hide Inbox, SetUnsolList;
    SilentInbox(s, SetUnsolicited(s, ci, h, val), u, n);
  }

  lemma JoinInbox(s: State, c: Client, u: int)
    requires ClientIndex(s.clients, c.id) == |s.clients| && c.inbox == []
    ensures var t := s.(clients := s.clients + [c]);
      Inbox(t, u) == Inbox(s, u) && (Present(t, u) <==> Present(s, u) || u == c.id)
  {
    var after := s.clients + [c];
    var i, j := ClientIndex(s.clients, u), ClientIndex(after, u);
    assert forall k :: 0 <= k < |s.clients| ==> after[k] == s.clients[k];
    assert after[|s.clients|] == c;
    if i < |s.clients| {
      assert j == i;
    } else if j < |after| {
      assert after[j] == c;
    }
  }

  /** The completions of a client that stays are those it had and those the event causes. */
  lemma StepTells(s: State, e: Event, u: int, n: Note)
    requires Inv(s) && NoErr(s.servers) && IsCompletion(n)
    ensures n in Inbox(Step(s, e), u) <==> e != Leave(u) && (n in Inbox(s, u) || Causes(s, e, u, n))
  {
    hide InvBut, WaitsFor, IsFirst, LeaveClient, OpenVed, CloseVed, SetUnsolicited, ServerStep;
    match e {
      case Join(id, lastLocal, defUnsol) =>
        if ClientIndex(s.clients, id) == |s.clients| { JoinInbox(s, Client(id, lastLocal, [], defUnsol, []), u); }
      case Leave(id) =>
        if ClientIndex(s.clients, id) < |s.clients| { LeaveInbox(s, ClientIndex(s.clients, id), u); }
      case Open(id, name, attempt) =>
        var ci := ClientIndex(s.clients, id);
        if ci < |s.clients| { OpenTells(s, ci, name, attempt, u, n); }
      case Close(id, h) =>
        var ci := ClientIndex(s.clients, id);
        if ci < |s.clients| { CloseTells(s, ci, h, u, n); }
      case SetUnsol(id, h, val) =>
        var ci := ClientIndex(s.clients, id);
        if ci < |s.clients| { SetUnsolTells(s, ci, h, val, u, n); }
      case _ =>
        var si := IndexOf(s.servers, e.server);
        if si < |s.servers| && !s.servers[si].isLocal { ServerTells(s, si, e, u, n); }
    }
  }

  // ---- the servers ----

  /** v was there already: it has gained neither an error nor readiness. */
  ghost predicate From(a: seq<Server>, v: Server) {
    exists w :: w in a && w.id == v.id && w.err == v.err && (v.status.ReadyState? ==> w.status.ReadyState?)
  }

  ghost predicate Calm(a: seq<Server>, b: seq<Server>) {
    forall v :: v in b ==> From(a, v)
  }

  lemma CalmTrans(a: seq<Server>, b: seq<Server>, c: seq<Server>)
    requires Calm(a, b) && Calm(b, c)
    ensures Calm(a, c)
  {
    forall v | v in c ensures From(a, v) {
      var w :| w in b && w.id == v.id && w.err == v.err && (v.status.ReadyState? ==> w.status.ReadyState?);
      assert From(a, w);
    }
  }

  lemma CalmUpdate(servers: seq<Server>, si: nat, v: Server)
    requires si < |servers| && v.id == servers[si].id && v.err == servers[si].err
    requires v.status.ReadyState? ==> servers[si].status.ReadyState?
    ensures Calm(servers, servers[si := v])
  {
    forall x | x in servers[si := v] ensures From(servers, x) {
      var i :| 0 <= i < |servers| && servers[si := v][i] == x;
      assert servers[i] in servers;
    }
  }

  lemma CalmRemove(servers: seq<Server>, si: nat)
    requires si < |servers|
    ensures Calm(servers, servers[..si] + servers[si + 1..])
  {
    forall x | x in servers[..si] + servers[si + 1..] ensures From(servers, x) {
      assert x in servers;
    }
  }

  lemma CalmSame(servers: seq<Server>)
    ensures Calm(servers, servers)
  {
    forall x | x in servers ensures From(servers, x) {
    }
  }

  lemma ReleaseCalm(s: State, si: nat, u: int)
    requires si < |s.servers|
    ensures Calm(s.servers, ReleaseServer(s, si, u).servers)
  {
    hide Calm, RemoveFirst, DiedAll;
    var v := s.servers[si];
    var v' := v.(unsol := RemoveFirst(v.unsol, u), refcount := v.refcount - 1);
    CalmUpdate(s.servers, si, v');
    CalmUpdate(s.servers, si, v'.(status := Disconnecting));
    CalmRemove(s.servers[si := v'], si);
    CalmTrans(s.servers, s.servers[si := v'], s.servers[si := v'][..si] + s.servers[si := v'][si + 1..]);
  }

  lemma {:induction false} LeaveCalm(s: State, infos: seq<Info>, u: int)
    ensures Calm(s.servers, LeaveAll(s, infos, u).servers)
    decreases |infos|
  {
    hide Calm, ReleaseServer;
    if infos == [] {
      CalmSame(s.servers);
    } else {
      var si := IndexOf(s.servers, infos[0].globalId);
      if si < |s.servers| {
        var t := ReleaseServer(s, si, u);
        ReleaseCalm(s, si, u);
        LeaveCalm(t, infos[1..], u);
        CalmTrans(s.servers, t.servers, LeaveAll(t, infos[1..], u).servers);
      } else {
        LeaveCalm(s, infos[1..], u);
      }
    }
  }

  /** Opening adds at most one server, with a new identifier. */
  lemma OpenServers(s: State, ci: nat, name: string, attempt: Attempt, v: Server)
    requires ci < |s.clients| && v in OpenVed(s, ci, name, attempt).servers
    ensures From(s.servers, v) || (v.err == 0 && v.id == s.lastId + 1)
  {
    hide SetUnsolList;
    match FindOrCreate(s, name, attempt) {
      case NoServer(s1, res) => CalmSame(s.servers);
      case At(s1, si) =>
        var after := GiveHandle(s1, ci, si).servers;
        var i :| 0 <= i < |after| && after[i] == v;
        assert i < |s.servers| ==> s.servers[i] in s.servers;
    }
  }

  lemma ServerServers(s: State, si: nat, e: Event)
    requires si < |s.servers| && !s.servers[si].isLocal
    requires !(e.InitiateAnswer? && s.servers[si].status.Opening? && e.res == 0)
    ensures Calm(s.servers, ServerStep(s, si, e).servers)
  {
    hide Calm, OkAll, DiedAll, Forward;
    var v := s.servers[si];
    CalmSame(s.servers);
    CalmRemove(s.servers, si);
    CalmUpdate(s.servers, si, v.(status := Opening));
    CalmUpdate(s.servers, si, v.(status := Connecting));
    if e.ReadFails? {
      var after := s.servers[si := v.(err := e.errno)];
      assert after[..si] + after[si + 1..] == s.servers[..si] + s.servers[si + 1..];
    }
  }

  /** After an event a server has no error noted, and is ready only if it was, or is new,
      or has just answered so. */
  lemma StepServers(s: State, e: Event, v: Server)
    requires Inv(s) && v in Step(s, e).servers
    ensures From(s.servers, v) ||
      (v.err == 0 && v.id == s.lastId + 1) ||
      (e == InitiateAnswer(v.id, 0) && InStatus(s, v.id, Opening) &&
       v.err == s.servers[IndexOf(s.servers, v.id)].err)
  {
    hide InvBut, From, LeaveAll, OpenVed, ReleaseServer, SetUnsolList, ServerStep;
    CalmSame(s.servers);
    match e {
      case Join(id, lastLocal, defUnsol) =>
      case Leave(id) =>
        var ci := ClientIndex(s.clients, id);
        if ci < |s.clients| { LeaveCalm(Without(s, ci), s.clients[ci].infos, s.clients[ci].id); }
      case Open(id, name, attempt) =>
        var ci := ClientIndex(s.clients, id);
        if ci < |s.clients| { OpenServers(s, ci, name, attempt, v); }
      case Close(id, h) =>
        var ci := ClientIndex(s.clients, id);
        if ci < |s.clients| {
          var si := IndexOf(s.servers, Global(s.clients[ci].infos, h));
          if si < |s.servers| {
            ReleaseCalm(s.(clients := s.clients[ci := Closing(s.clients[ci], h)]), si, s.clients[ci].id);
          }
        }
      case SetUnsol(id, h, val) =>
        var ci := ClientIndex(s.clients, id);
        if ci < |s.clients| {
          var si := IndexOf(s.servers, Global(s.clients[ci].infos, h));
          if si < |s.servers| {
            var w := s.servers[si];
            CalmUpdate(s.servers, si, w.(unsol := SetUnsolList(w.unsol, s.clients[ci].id, val)));
          }
        }
      case _ =>
        var si := IndexOf(s.servers, e.server);
        if si < |s.servers| && !s.servers[si].isLocal { ServerTurns(s, si, e, v); }
    }
  }

  lemma ServerTurns(s: State, si: nat, e: Event, v: Server)
    requires Inv(s) && si < |s.servers| && !s.servers[si].isLocal
    requires !e.Join? && !e.Leave? && !e.Open? && !e.Close? && !e.SetUnsol? && si == IndexOf(s.servers, e.server)
    requires v in ServerStep(s, si, e).servers
    ensures From(s.servers, v) ||
      (e == InitiateAnswer(v.id, 0) && InStatus(s, v.id, Opening) &&
       v.err == s.servers[IndexOf(s.servers, v.id)].err)
  {
    hide InvBut, OkAll, DiedAll, Forward, UnsolAfterOk;
    if e.InitiateAnswer? && s.servers[si].status.Opening? && e.res == 0 {
      var after := Initiated(s, si).servers;
      var i :| 0 <= i < |after| && after[i] == v;
      assert i != si ==> s.servers[i] in s.servers;
    } else {
      ServerServers(s, si, e);
    }
  }

  lemma NoErrStep(s: State, e: Event)
    requires Inv(s) && NoErr(s.servers)
    ensures NoErr(Step(s, e).servers)
  {
    hide Step;
    forall v | v in Step(s, e).servers ensures v.err == 0 {
      StepServers(s, e, v);
    }
  }

  lemma {:induction false} RunNoErr(es: seq<Event>)
    ensures NoErr(Run(es).servers)
  {
    hide Step, NoErr;
    if es == [] {
      assert NoErr([]) by { NobodyErrs(); }
    } else {
      RunNoErr(es[..|es| - 1]);
      RunInv(es[..|es| - 1]);
      NoErrStep(Run(es[..|es| - 1]), es[|es| - 1]);
    }
  }

  lemma NobodyErrs()
    ensures NoErr([])
  {
  }

  // ---- runs ----

  /** Client u does not leave from event k on. */
  predicate Stays(es: seq<Event>, k: nat, u: int) {
    forall j :: k <= j < |es| ==> es[j] != Leave(u)
  }

  /** Some event of the run caused the note to client u, which has not left since. */
  ghost predicate Caused(es: seq<Event>, u: int, n: Note) {
    exists k {:trigger es[k]} :: 0 <= k < |es| && Stays(es, k, u) && Causes(Run(es[..k]), es[k], u, n)
  }

  lemma CausedLast(es: seq<Event>, u: int, n: Note)
    requires es != []
    ensures var m := |es| - 1;
      Caused(es, u, n) <==> es[m] != Leave(u) && (Caused(es[..m], u, n) || Causes(Run(es[..m]), es[m], u, n))
  {
    hide Causes, Run;
    hide Stays;
    var m := |es| - 1;
    var front := es[..m];
    StaysLast(es, u);
    if Caused(es, u, n) {
      var k :| 0 <= k < |es| && Stays(es, k, u) && Causes(Run(es[..k]), es[k], u, n);
      if k < m {
        assert front[k] == es[k] && front[..k] == es[..k];
      }
    }
    if es[m] != Leave(u) && Caused(front, u, n) {
      var k :| 0 <= k < |front| && Stays(front, k, u) && Causes(Run(front[..k]), front[k], u, n);
      assert front[k] == es[k] && front[..k] == es[..k];
    }
  }

  lemma StaysLast(es: seq<Event>, u: int)
    requires es != []
    ensures var m := |es| - 1;
      Stays(es[..m], m, u) &&
      forall k :: 0 <= k <= m ==> (Stays(es, k, u) <==> es[m] != Leave(u) && Stays(es[..m], k, u))
  {
    var m := |es| - 1;
    forall k | 0 <= k <= m ensures Stays(es, k, u) <==> es[m] != Leave(u) && Stays(es[..m], k, u) {
      assert forall j :: 0 <= j < m ==> es[..m][j] == es[j];
    }
  }

  /** In every run a client has been sent exactly the completions that were caused since
      it joined. */
  lemma {:induction false} CompletionsAreCaused(es: seq<Event>, u: int, n: Note)
    requires IsCompletion(n)
    ensures n in Inbox(Run(es), u) <==> Caused(es, u, n)
  {
    hide Step, Causes, Inbox, Caused, NoErr;
    if es == [] {
      NothingCaused(u, n);
    } else {
      var m := |es| - 1;
      CompletionsAreCaused(es[..m], u, n);
      RunInv(es[..m]);
      RunNoErr(es[..m]);
      StepTells(Run(es[..m]), es[m], u, n);
      CausedLast(es, u, n);
    }
  }

  lemma NothingCaused(u: int, n: Note)
    ensures n !in Inbox(Run([]), u) && !Caused([], u, n)
  {
  }

  /** The server of a handle that waits becomes ready. */
  ghost predicate BecomesReady(s: State, t: State, u: int, h: int) {
    exists g :: WaitsFor(s, u, h, g) && !IsReady(s.servers, g) && IsReady(t.servers, g) && IsFirst(s, u, h, g)
  }

  lemma WaitsOnKnown(s: State, u: int, h: int, g: int)
    requires Inv(s) && WaitsFor(s, u, h, g)
    ensures g <= s.lastId
  {
    hide ServersOk, CountsOk, UnsolOk, ClientIdsOk, ClientOk;
    var ci := ClientIndex(s.clients, u);
    if ci < |s.clients| {
      assert HandlesOk(s.servers, s.clients[ci], s.lastId);
    } else {
      NobodyWaitsIn(h, g);
    }
  }

  lemma FromReady(servers: seq<Server>, v: Server)
    requires v.status.ReadyState? && From(servers, v)
    ensures IsReady(servers, v.id)
  {
    var w :| w in servers && w.id == v.id && w.err == v.err && w.status.ReadyState?;
  }

  lemma MadeReadyIs(s: State, e: Event, u: int, h: int)
    requires Inv(s)
    ensures MadeReady(s, e, u, h) <==> BecomesReady(s, Step(s, e), u, h)
  {
    hide InvBut, IsFirst, WaitsFor, Step;
    if MadeReady(s, e, u, h) {
      Awakens(s, e);
    }
    if BecomesReady(s, Step(s, e), u, h) {
      var g :| WaitsFor(s, u, h, g) && !IsReady(s.servers, g) && IsReady(Step(s, e).servers, g) && IsFirst(s, u, h, g);
      var after := Step(s, e).servers;
      var i :| 0 <= i < |after| && after[i].id == g && after[i].status.ReadyState?;
      StepServers(s, e, after[i]);
      WaitsOnKnown(s, u, h, g);
      if From(s.servers, after[i]) {
        FromReady(s.servers, after[i]);
      }
    }
  }

  /** Once it has answered, the server is ready, and was not. */
  lemma Awakens(s: State, e: Event)
    requires Inv(s) && e.InitiateAnswer? && e.res == 0 && InStatus(s, e.server, Opening)
    ensures !IsReady(s.servers, e.server) && IsReady(Step(s, e).servers, e.server)
  {
    hide ClientsOk, CountsOk, UnsolOk, ClientIdsOk, OkAll, UnsolAfterOk;
    var si := IndexOf(s.servers, e.server);
    ReadyIsStatus(s.servers, si);
    assert Step(s, e).servers[si].id == e.server && Step(s, e).servers[si].status.ReadyState?;
  }

  /** A handle's completion is `Ready` exactly if its server became ready while it waited
      as the client's first handle on it. */
  lemma ReadyExactly(es: seq<Event>, u: int, h: int)
    ensures Ready(h) in Inbox(Run(es), u) <==>
      exists k {:trigger es[k]} ::
        0 <= k < |es| && Stays(es, k, u) && BecomesReady(Run(es[..k]), Step(Run(es[..k]), es[k]), u, h)
  {
    hide Run, Inbox, MadeReady, BecomesReady, Step, Stays, Fails;
    CompletionsAreCaused(es, u, Ready(h));
    forall k | 0 <= k < |es|
      ensures Causes(Run(es[..k]), es[k], u, Ready(h)) <==>
        BecomesReady(Run(es[..k]), Step(Run(es[..k]), es[k]), u, h)
    {
      RunInv(es[..k]);
      MadeReadyIs(Run(es[..k]), es[k], u, h);
    }
  }

  /** The server of the handle becomes ready while it waits, be it the first or not. */
  ghost predicate ReadyWhileWaiting(s: State, t: State, u: int, h: int) {
    exists g :: WaitsFor(s, u, h, g) && !IsReady(s.servers, g) && IsReady(t.servers, g)
  }

  lemma {:induction false} SinglePrefix(es: seq<Event>, k: nat, u: int)
    requires SingleRun(es, u) && k <= |es|
    ensures SingleRun(es[..k], u)
    decreases |es|
  {
    hide SingleEvent, Run;
    if k < |es| {
      SinglePrefix(es[..|es| - 1], k, u);
      assert es[..|es| - 1][..k] == es[..k];
    } else {
      assert es[..k] == es;
    }
  }

  lemma SingleIsFirst(s: State, u: int, h: int, g: int)
    requires Strong(s.servers, s.clients, u) && WaitsFor(s, u, h, g)
    ensures IsFirst(s, u, h, g)
  {
    hide HandlesIn;
    var infos := Infos(s, u);
    var i := IndexOfLocal(infos, h);
    assert HandlesIn(infos, g) <= 1;
    SingleFirst(infos, i);
  }

  lemma SingleReady(s: State, t: State, u: int, h: int)
    requires Strong(s.servers, s.clients, u)
    ensures ReadyWhileWaiting(s, t, u, h) <==> BecomesReady(s, t, u, h)
  {
    hide Strong, WaitsFor, IsFirst, IsReady;
    if ReadyWhileWaiting(s, t, u, h) {
      var g :| WaitsFor(s, u, h, g) && !IsReady(s.servers, g) && IsReady(t.servers, g);
      SingleIsFirst(s, u, h, g);
    }
  }

  /** As long as a client never opens a server it has a handle on, a handle's completion is
      `Ready` exactly if its server became ready while it waited. */
  lemma ReadyIffBecameReady(es: seq<Event>, u: int, h: int)
    requires SingleRun(es, u)
    ensures Ready(h) in Inbox(Run(es), u) <==>
      exists k {:trigger es[k]} ::
        0 <= k < |es| && Stays(es, k, u) && ReadyWhileWaiting(Run(es[..k]), Step(Run(es[..k]), es[k]), u, h)
  {
    hide Run, Inbox, BecomesReady, ReadyWhileWaiting, Step, Stays, SingleRun, Strong;
    ReadyExactly(es, u, h);
    forall k | 0 <= k < |es|
      ensures ReadyWhileWaiting(Run(es[..k]), Step(Run(es[..k]), es[k]), u, h) <==>
        BecomesReady(Run(es[..k]), Step(Run(es[..k]), es[k]), u, h)
    {
      SinglePrefix(es, k, u);
      RunStrong(es[..k], u);
      SingleReady(Run(es[..k]), Step(Run(es[..k]), es[k]), u, h);
    }
  }

  /** Every completion counted is one of the two kinds. */
  lemma {:induction false} CompletionsAre(inbox: seq<Note>, h: int)
    ensures Completions(inbox, h) > 0 <==> Ready(h) in inbox || exists r :: Failed(h, r) in inbox
  {
    if inbox != [] {
      var front, n := inbox[..|inbox| - 1], inbox[|inbox| - 1];
      CompletionsAre(front, h);
      assert inbox == front + [n];
      if n.Failed? {
        assert n == Failed(n.handle, n.res);
      }
    }
  }

  // ---- failures with the code of success ----

  /** The event ends the wait of h without success, and says 0: the first handle of each
      client is told the code of a refusal, but every other, and every handle when the
      connection breaks, is told the server's error number, which is 0 unless reading
      failed while the server was being opened. */
  predicate FailsSilently(s: State, e: Event, u: int, h: int) {
    match e
    case Connected(g, res) => res != 0 && InStatus(s, g, Connecting) && WaitsFor(s, u, h, g) && !IsFirst(s, u, h, g)
    case OpenAnswer(g, res) => res != 0 && InStatus(s, g, Opening) && WaitsFor(s, u, h, g) && !IsFirst(s, u, h, g)
    case InitiateAnswer(g, res) => res != 0 && InStatus(s, g, Opening) && WaitsFor(s, u, h, g) && !IsFirst(s, u, h, g)
    case ReadFails(g, errno) => Remote(s, g) && WaitsFor(s, u, h, g) && (InStatus(s, g, Opening) ==> errno == 0)
    case WriteFails(g) => Remote(s, g) && WaitsFor(s, u, h, g)
    case _ => false
  }

  lemma FailedWithZeroExactly(es: seq<Event>, u: int, h: int)
    ensures Failed(h, 0) in Inbox(Run(es), u) <==>
      exists k {:trigger es[k]} :: 0 <= k < |es| && Stays(es, k, u) && FailsSilently(Run(es[..k]), es[k], u, h)
  {
    hide Run, Inbox, Step, Stays, MadeReady, WaitsFor, IsFirst, InStatus, Remote;
    CompletionsAreCaused(es, u, Failed(h, 0));
    forall k | 0 <= k < |es|
      ensures Causes(Run(es[..k]), es[k], u, Failed(h, 0)) <==> FailsSilently(Run(es[..k]), es[k], u, h)
    {
    }
  }

  /** The connection breaks while the Open message is written. */
  const BREAKS: seq<Event> := [Join(7, 0, false), Open(7, "ved", Started), Connected(1, 0), WriteFails(1)]

  lemma FailsWithZero()
    ensures Inbox(Run(BREAKS), 7) == [InProgress(1), Failed(1, 0)]
  {
    hide Run;
    var a, b, c, d := BREAKS[0], BREAKS[1], BREAKS[2], BREAKS[3];
    assert BREAKS == [] + [a] + [b] + [c] + [d];
    RunSnoc([], a);
    RunSnoc([] + [a], b);
    RunSnoc([] + [a] + [b], c);
    RunSnoc([] + [a] + [b] + [c], d);
    assert Run([]) == START by { RunNothing(); }
    var joined := State(0, [], [Client(7, 0, [], false, [])]);
    assert Step(START, a) == joined;
    FirstOpen(joined);
    Breaks();
  }

  const GONE: Client := Client(7, 1, [], false, [InProgress(1), Failed(1, 0)])

  lemma OnceDies()
    ensures DiedAll([ONCE], 1, 0) == [GONE]
  {
    assert IndexOfGlobal(ONCE.infos, 1) == 0 && IndexOfLocal(ONCE.infos, 1) == 0;
    assert FreeHandle(ONCE.infos, 1) == [];
    assert DiedClient(ONCE, 1, 0) == GONE;
  }

  lemma Breaks()
    ensures Step(Step(State(1, [VED], [ONCE]), Connected(1, 0)), WriteFails(1)).clients == [GONE]
  {
    hide DiedAll;
    var v := VED.(status := Opening);
    assert Step(State(1, [VED], [ONCE]), Connected(1, 0)) == State(1, [v], [ONCE]);
    OnceDies();
  }
}
