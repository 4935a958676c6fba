/**
  The communication broker (directory commu) as a state machine.
*/
module Broker {
  import opened Util
  import opened HandleTable

  /*
    Clients open servers (VEDs) by name and get local handles; all clients that open
    one name share one server object, which counts its handles and walks
    connecting -> opening -> ready -> disconnecting -> (gone or connecting again).
    An `Event` is one thing the main loop can be woken for; outcomes the operating
    system or a server decides are part of it.
  */

  datatype Status = Connecting | Opening | ReadyState | Disconnecting

  /** `unsol` are the clients that get the server's unsolicited messages; `err` is
      errnum(), what server_died reports for waiting handles. */
  datatype Server =
    Server(id: int, name: string, isLocal: bool, status: Status, refcount: int, unsol: seq<int>, err: int)

  datatype State = State(lastId: int, servers: seq<Server>, clients: seq<Client>)

  type code = x: int | x != 0 witness 1

  /** What becomes of creating a remote server object: its connection is on the way,
      or an exception with this code. */
  datatype Attempt = Started | Refusal(code: code)

  datatype Event =
    | Join(id: int, lastLocal: nat, defUnsol: bool)
    | Leave(id: int)
    | Open(client: int, name: string, attempt: Attempt)
    | Close(client: int, handle: int)
    | SetUnsol(client: int, handle: int, val: int)
    | Connected(server: int, res: int)
    | OpenAnswer(server: int, res: int)
    | InitiateAnswer(server: int, res: int)
    | CloseAnswer(server: int, reconnect: Attempt)
    | ReadFails(server: int, errno: int)
    | WriteFails(server: int)
    | UnsolMessage(server: int)

  /** The names of the servers built into the broker. */
  predicate IsBuiltin(name: string) {
    name == "commu" || name == "commu_a" || name == "commu_l"
  }

  // ---- lookups ----

  function IndexOf(servers: seq<Server>, id: int): (i: nat)
    ensures i <= |servers| && (i < |servers| ==> servers[i].id == id)
    ensures forall j :: 0 <= j < i ==> servers[j].id != id
  {
    if servers == [] || servers[0].id == id then 0 else 1 + IndexOf(servers[1..], id)
  }

  function IndexOfName(servers: seq<Server>, name: string): (i: nat)
    ensures i <= |servers| && (i < |servers| ==> servers[i].name == name)
    ensures forall j :: 0 <= j < i ==> servers[j].name != name
  {
    if servers == [] || servers[0].name == name then 0 else 1 + IndexOfName(servers[1..], name)
  }

  function ClientIndex(clients: seq<Client>, id: int): (i: nat)
    ensures i <= |clients| && (i < |clients| ==> clients[i].id == id)
    ensures forall j :: 0 <= j < i ==> clients[j].id != id
  {
    if clients == [] || clients[0].id == id then 0 else 1 + ClientIndex(clients[1..], id)
  }

  // ---- what a server tells its clients ----

  /** server_ok for one client: its first handle on the server, unless already valid,
      becomes valid or goes away. */
  function OkClient(c: Client, id: int, res: int): Client {
    var h := Local(c.infos, id);
    if h == NO_ID then c
    else
      var found := Find(c.infos, h);
      if found.None? || found.value.valid then c
      else if res == 0 then Tell(c.(infos := SetValid(c.infos, h, true)), Ready(h))
      else Tell(c.(infos := FreeHandle(c.infos, h)), Failed(h, res))
  }

  /** server_died for one client: every handle on the server goes away. */
  function DiedClient(c: Client, id: int, err: int): Client
    decreases |c.infos|
  {
    var h := Local(c.infos, id);
    var found := Find(c.infos, h);
    if h == NO_ID || found.None? then c
    else
      var note := if found.value.valid then Disconnected(h) else Failed(h, err);
      DiedClient(Tell(c.(infos := FreeHandle(c.infos, h)), note), id, err)
  }

  function OkAll(clients: seq<Client>, id: int, res: int): (r: seq<Client>)
    ensures |r| == |clients| && forall i :: 0 <= i < |r| ==> r[i] == OkClient(clients[i], id, res)
  {
    if clients == [] then [] else [OkClient(clients[0], id, res)] + OkAll(clients[1..], id, res)
  }

  function DiedAll(clients: seq<Client>, id: int, err: int): (r: seq<Client>)
    ensures |r| == |clients| && forall i :: 0 <= i < |r| ==> r[i] == DiedClient(clients[i], id, err)
  {
    if clients == [] then [] else [DiedClient(clients[0], id, err)] + DiedAll(clients[1..], id, err)
  }

  // ---- unsolicited messages ----

  /** setunsol: 1 adds the client, -1 only asks, anything else removes it. */
  function SetUnsolList(unsol: seq<int>, client: int, val: int): seq<int> {
    if val == -1 || val == (if client in unsol then 1 else 0) then unsol
    else if val == 1 then unsol + [client]
    else RemoveFirst(unsol, client)
  }

  /** The list after server_ok(id, 0) for these clients. */
  function UnsolAfterOk(unsol: seq<int>, clients: seq<Client>, id: int): seq<int>
    decreases |clients|
  {
    if clients == [] then unsol
    else
      var c := clients[0];
      var wants := c.defUnsol && OkClient(c, id, 0) != c;
      UnsolAfterOk(if wants then SetUnsolList(unsol, c.id, 1) else unsol, clients[1..], id)
  }

  // ---- servers come and go ----

  function RemoveServer(s: State, si: nat): State
    requires si < |s.servers|
  {
    s.(servers := s.servers[..si] + s.servers[si + 1..])
  }

  /** ~C_server of a valid server. */
  function DeleteServer(s: State, si: nat): State
    requires si < |s.servers|
  {
    var v := s.servers[si];
    RemoveServer(s.(clients := DiedAll(s.clients, v.id, v.err)), si)
  }

  /** removeclient: one handle of client u is gone. */
  function ReleaseServer(s: State, si: nat, u: int): State
    requires si < |s.servers|
  {
    var v := s.servers[si];
    var v' := v.(unsol := RemoveFirst(v.unsol, u), refcount := v.refcount - 1);
    var s1 := s.(servers := s.servers[si := v']);
    if v'.refcount != 0 then s1
    else if v'.isLocal || v'.status != ReadyState then DeleteServer(s1, si)
    else s.(servers := s.servers[si := v'.(status := Disconnecting)])
  }

  // ---- the events ----

  function TellAt(s: State, ci: nat, n: Note): State {
    if ci < |s.clients| then s.(clients := s.clients[ci := Tell(s.clients[ci], n)]) else s
  }

  /** The server object for a name, found or new; None with the exception's code. */
  datatype Found = At(s: State, si: nat) | NoServer(s: State, res: int)

  function FindOrCreate(s: State, name: string, attempt: Attempt): (f: Found)
    ensures f.At? ==> f.si < |f.s.servers|
  {
    var si := IndexOfName(s.servers, name);
    if si < |s.servers| then
      At(s.(servers := s.servers[si := s.servers[si].(refcount := s.servers[si].refcount + 1)]), si)
    else if !IsBuiltin(name) && attempt.Refusal? then
      NoServer(s.(lastId := s.lastId + 1), attempt.code)
    else
      var status := if IsBuiltin(name) then ReadyState else Connecting;
      var v := Server(s.lastId + 1, name, IsBuiltin(name), status, 1, [], 0);
      At(s.(lastId := s.lastId + 1, servers := s.servers + [v]), |s.servers|)
  }

  function OpenVed(s: State, ci: nat, name: string, attempt: Attempt): State
    requires ci < |s.clients|
  {
    match FindOrCreate(s, name, attempt)
    case NoServer(s1, res) => TellAt(s1, ci, Refused(res))
    case At(s1, si) => GiveHandle(s1, ci, si)
  }

  function GiveHandle(s: State, ci: nat, si: nat): State
    requires ci < |s.clients| && si < |s.servers|
  {
    var c, v := s.clients[ci], s.servers[si];
    var ready := v.status.ReadyState?;
    var unsol := if ready && c.defUnsol then SetUnsolList(v.unsol, c.id, 1) else v.unsol;
    s.(clients := s.clients[ci := Grant(c, v.id, ready)], servers := s.servers[si := v.(unsol := unsol)])
  }

  function CloseVed(s: State, ci: nat, h: int): State
    requires ci < |s.clients|
  {
    var c := s.clients[ci];
    var g := Global(c.infos, h);
    if g == NO_ID || IndexOf(s.servers, g) == |s.servers| then TellAt(s, ci, Closed(h, false))
    else
      var s1 := s.(clients := s.clients[ci := Tell(c.(infos := FreeHandle(c.infos, h)), Closed(h, true))]);
      ReleaseServer(s1, IndexOf(s.servers, g), c.id)
  }

  /** ~C_client: off the list first, then every handle lets go of its server. */
  function LeaveAll(s: State, infos: seq<Info>, u: int): State
    decreases |infos|
  {
    if infos == [] then s
    else
      var si := IndexOf(s.servers, infos[0].globalId);
      LeaveAll(if si < |s.servers| then ReleaseServer(s, si, u) else s, infos[1..], u)
  }

  function LeaveClient(s: State, ci: nat): State
    requires ci < |s.clients|
  {
    var c := s.clients[ci];
    LeaveAll(s.(clients := s.clients[..ci] + s.clients[ci + 1..]), c.infos, c.id)
  }

  function SetUnsolicited(s: State, ci: nat, h: int, val: int): State
    requires ci < |s.clients|
  {
    var c := s.clients[ci];
    var g := Global(c.infos, h);
    var si := IndexOf(s.servers, g);
    if g == NO_ID || si == |s.servers| then TellAt(s, ci, UnsolSet(false))
    else
      var v := s.servers[si];
      TellAt(s.(servers := s.servers[si := v.(unsol := SetUnsolList(v.unsol, c.id, val))]), ci, UnsolSet(true))
  }

  /** The server could not be opened: tell the clients, then it is deleted. */
  function OpenFailed(s: State, si: nat, res: code): State
    requires si < |s.servers|
  {
    DeleteServer(s.(clients := OkAll(s.clients, s.servers[si].id, res)), si)
  }

  function Initiated(s: State, si: nat): State
    requires si < |s.servers|
  {
    var v := s.servers[si];
    s.(clients := OkAll(s.clients, v.id, 0),
       servers := s.servers[si := v.(status := ReadyState, unsol := UnsolAfterOk(v.unsol, s.clients, v.id))])
  }

  /** The answer to Close: gone, or connecting again for those who opened it
      meanwhile.  A failed reconnection marks the server invalid, so that its
      destructor tells nobody. */
  function CloseConfirmed(s: State, si: nat, reconnect: Attempt): State
    requires si < |s.servers|
  {
    var v := s.servers[si];
    if v.refcount == 0 then DeleteServer(s, si)
    else
      match reconnect
      case Started => s.(servers := s.servers[si := v.(status := Connecting)])
      case Refusal(res) => RemoveServer(s.(clients := OkAll(s.clients, v.id, res)), si)
  }

  function Forward(clients: seq<Client>, id: int, unsol: seq<int>): seq<Client>
    decreases |unsol|
  {
    if unsol == [] then clients
    else
      var ci := ClientIndex(clients, unsol[0]);
      Forward(if ci < |clients| then clients[ci := Tell(clients[ci], Unsol(Local(clients[ci].infos, id)))] else clients,
              id, unsol[1..])
  }

  function ServerStep(s: State, si: nat, e: Event): State
    requires si < |s.servers| && !s.servers[si].isLocal
  {
    var v := s.servers[si];
    match e
    case Connected(_, res) =>
      if v.status != Connecting then s
      else if res != 0 then OpenFailed(s, si, res)
      else s.(servers := s.servers[si := v.(status := Opening)])
    case OpenAnswer(_, res) =>
      if v.status == Opening && res != 0 then OpenFailed(s, si, res) else s
    case InitiateAnswer(_, res) =>
      if v.status != Opening then s
      else if res != 0 then OpenFailed(s, si, res)
      else Initiated(s, si)
    case CloseAnswer(_, reconnect) =>
      if v.status != Disconnecting then s else CloseConfirmed(s, si, reconnect)
    case ReadFails(_, errno) =>
      DeleteServer(if v.status == Opening then s.(servers := s.servers[si := v.(err := errno)]) else s, si)
    case WriteFails(_) => DeleteServer(s, si)
    case UnsolMessage(_) =>
      if v.status != ReadyState then s else s.(clients := Forward(s.clients, v.id, v.unsol))
    case _ => s
  }

  /** One event.  Events of unknown clients or servers do not happen. */
  function Step(s: State, e: Event): State {
    match e
    case Join(id, lastLocal, defUnsol) =>
      if ClientIndex(s.clients, id) < |s.clients| then s
      else s.(clients := s.clients + [Client(id, lastLocal, [], defUnsol, [])])
    case Leave(id) =>
      var ci := ClientIndex(s.clients, id);
      if ci < |s.clients| then LeaveClient(s, ci) else s
    case Open(id, name, attempt) =>
      var ci := ClientIndex(s.clients, id);
      if ci < |s.clients| then OpenVed(s, ci, name, attempt) else s
    case Close(id, h) =>
      var ci := ClientIndex(s.clients, id);
      if ci < |s.clients| then CloseVed(s, ci, h) else s
    case SetUnsol(id, h, val) =>
      var ci := ClientIndex(s.clients, id);
      if ci < |s.clients| then SetUnsolicited(s, ci, h, val) else s
    case _ =>
      var si := IndexOf(s.servers, e.server);
      if si < |s.servers| && !s.servers[si].isLocal then ServerStep(s, si, e) else s
  }

  // ---- the invariant ----

  /** All handles that all clients hold on server g. */
  function Handles(clients: seq<Client>, g: int): nat {
    if clients == [] then 0 else HandlesIn(clients[0].infos, g) + Handles(clients[1..], g)
  }

  predicate Holds(clients: seq<Client>, u: int, g: int) {
    exists i :: 0 <= i < |clients| && clients[i].id == u && HandlesIn(clients[i].infos, g) > 0
  }

  /** Identifiers and names are unique; a built-in server is always ready; a server
      without handles is waiting for its Close confirmation. */
  predicate ServersOk(servers: seq<Server>, lastId: int) {
    && (forall i :: 0 <= i < |servers| ==>
          1 <= servers[i].id <= lastId && (servers[i].isLocal ==> servers[i].status.ReadyState?))
    && (forall i, j :: 0 <= i < j < |servers| ==> servers[i].id != servers[j].id && servers[i].name != servers[j].name)
  }

  predicate IdleOk(servers: seq<Server>, except: int) {
    forall i :: 0 <= i < |servers| && servers[i].id != except && servers[i].refcount == 0 ==>
      servers[i].status.Disconnecting? && !servers[i].isLocal
  }

  predicate CountsOk(servers: seq<Server>, clients: seq<Client>, except: int) {
    forall i :: 0 <= i < |servers| && servers[i].id != except ==> servers[i].refcount == Handles(clients, servers[i].id)
  }

  predicate IsReady(servers: seq<Server>, g: int) {
    exists i :: 0 <= i < |servers| && servers[i].id == g && servers[i].status.ReadyState?
  }

  /** Handles name servers that were created; a valid one's server is alive and ready. */
  predicate HandlesOk(servers: seq<Server>, c: Client, lastId: int) {
    forall x :: x in c.infos ==> 1 <= x.globalId <= lastId && (x.valid ==> IsReady(servers, x.globalId))
  }

  ghost predicate ClientsOk(servers: seq<Server>, clients: seq<Client>, lastId: int) {
    forall i :: 0 <= i < |clients| ==> ClientOk(clients[i]) && HandlesOk(servers, clients[i], lastId)
  }

  predicate ClientIdsOk(clients: seq<Client>) {
    forall i, j :: 0 <= i < j < |clients| ==> clients[i].id != clients[j].id
  }

  /** Whoever is to get a server's unsolicited messages is there and holds a handle on it. */
  predicate UnsolOk(servers: seq<Server>, clients: seq<Client>, except: int) {
    forall i :: 0 <= i < |servers| ==>
      NoDup(servers[i].unsol) &&
      (servers[i].id != except ==> forall u :: u in servers[i].unsol ==> Holds(clients, u, servers[i].id))
  }

  predicate NoDup(s: seq<int>) {
    forall i, j :: 0 <= i < j < |s| ==> s[i] != s[j]
  }

  /** The invariant, with server `except` still to be settled. */
  ghost predicate InvBut(s: State, except: int) {
    && s.lastId >= 0
    && ServersOk(s.servers, s.lastId)
    && IdleOk(s.servers, except)
    && CountsOk(s.servers, s.clients, except)
    && ClientsOk(s.servers, s.clients, s.lastId)
    && ClientIdsOk(s.clients)
    && UnsolOk(s.servers, s.clients, except)
  }

  ghost predicate Inv(s: State) {
    InvBut(s, 0)
  }

  // ---- counting handles ----

  lemma {:induction false} HandlesConcatC(a: seq<Client>, b: seq<Client>, g: int)
    ensures Handles(a + b, g) == Handles(a, g) + Handles(b, g)
  {
    if a == [] {
      assert a + b == b;
    } else {
      HandlesConcatC(a[1..], b, g);
      assert (a + b)[1..] == a[1..] + b;
    }
  }

  lemma HandlesOneC(c: Client, g: int)
    ensures Handles([c], g) == HandlesIn(c.infos, g)
  {
    assert Handles([c][1..], g) == 0;
  }

  lemma HandlesAtC(clients: seq<Client>, i: nat, g: int)
    requires i < |clients|
    ensures Handles(clients, g)
         == Handles(clients[..i], g) + HandlesIn(clients[i].infos, g) + Handles(clients[i + 1..], g)
  {
    hide Handles, HandlesIn;
    assert clients == clients[..i] + clients[i..] && clients[i..] == [clients[i]] + clients[i + 1..];
    HandlesConcatC(clients[..i], clients[i..], g);
    HandlesConcatC([clients[i]], clients[i + 1..], g);
    HandlesOneC(clients[i], g);
  }

  lemma HandlesUpdateC(clients: seq<Client>, i: nat, c: Client, g: int)
    requires i < |clients|
    ensures Handles(clients[i := c], g) == Handles(clients, g) - HandlesIn(clients[i].infos, g) + HandlesIn(c.infos, g)
  {
    hide Handles, HandlesIn;
    HandlesAtC(clients, i, g);
    HandlesAtC(clients[i := c], i, g);
    assert clients[i := c][..i] == clients[..i] && clients[i := c][i + 1..] == clients[i + 1..];
  }

  lemma HandlesRemoveC(clients: seq<Client>, i: nat, g: int)
    requires i < |clients|
    ensures Handles(clients[..i] + clients[i + 1..], g) == Handles(clients, g) - HandlesIn(clients[i].infos, g)
  {
    hide Handles, HandlesIn;
    HandlesAtC(clients, i, g);
    HandlesConcatC(clients[..i], clients[i + 1..], g);
  }

  /** Clients that changed pairwise, without gaining or losing handles on g. */
  lemma {:induction false} HandlesSame(a: seq<Client>, b: seq<Client>, g: int)
    requires |a| == |b| && forall i :: 0 <= i < |a| ==> HandlesIn(a[i].infos, g) == HandlesIn(b[i].infos, g)
    ensures Handles(a, g) == Handles(b, g)
  {
    if a != [] {
      assert forall i :: 1 <= i < |a| ==> a[i] == a[1..][i - 1] && b[i] == b[1..][i - 1];
      HandlesSame(a[1..], b[1..], g);
    }
  }

  lemma {:induction false} HoldsIffHandles(clients: seq<Client>, g: int)
    ensures Handles(clients, g) > 0 <==> exists i :: 0 <= i < |clients| && HandlesIn(clients[i].infos, g) > 0
  {
    if clients != [] {
      HoldsIffHandles(clients[1..], g);
      assert forall i :: 1 <= i < |clients| ==> clients[i] == clients[1..][i - 1];
      if i :| 0 <= i < |clients| && HandlesIn(clients[i].infos, g) > 0 {
        if i > 0 {
          assert HandlesIn(clients[1..][i - 1].infos, g) > 0;
        }
      }
    }
  }

  // ---- what server_ok and server_died do to one client ----

  /** What a client keeps when the server with identifier id talks to it. */
  ghost predicate Follows(c: Client, d: Client, id: int) {
    && d.id == c.id && d.lastLocal == c.lastLocal && d.defUnsol == c.defUnsol && c.inbox <= d.inbox
    && (forall x :: x in d.infos ==> x in c.infos || (x.globalId == id && x.valid))
    && (forall g :: g != id ==> HandlesIn(d.infos, g) == HandlesIn(c.infos, g))
  }

  lemma FirstHandle(c: Client, id: int)
    requires ClientOk(c) && Local(c.infos, id) != NO_ID
    ensures var h := Local(c.infos, id);
      0 <= h <= c.lastLocal && Find(c.infos, h) == Some(c.infos[IndexOfGlobal(c.infos, id)]) &&
      Find(c.infos, h).value.globalId == id
  {
    HeldIsNumbered(c, IndexOfGlobal(c.infos, id));
  }

  lemma NoHandle(c: Client, id: int)
    requires ClientOk(c)
    ensures Local(c.infos, id) == NO_ID <==> HandlesIn(c.infos, id) == 0
  {
    HandlesZero(c.infos, id);
    var i := IndexOfGlobal(c.infos, id);
    if i < |c.infos| {
      HeldIsNumbered(c, i);
    }
  }

  lemma FreeSubset(infos: seq<Info>, h: int)
    ensures forall x :: x in FreeHandle(infos, h) ==> x in infos
  {
  }

  lemma OkClientKeeps(c: Client, id: int, res: int)
    requires ClientOk(c)
    ensures var d := OkClient(c, id, res);
      ClientOk(d) && Follows(c, d, id) && (res == 0 ==> HandlesIn(d.infos, id) == HandlesIn(c.infos, id)) &&
      HandlesIn(d.infos, id) <= HandlesIn(c.infos, id) && (res != 0 ==> forall x :: x in d.infos ==> x in c.infos)
  {
    hide Find, FreeHandle, SetValid, HandlesIn, Balanced;
    var h := Local(c.infos, id);
    if h != NO_ID {
      FirstHandle(c, id);
      if !Find(c.infos, h).value.valid {
        HandlesAfter(c.infos, h);
        if res == 0 {
          SetReadyOk(c, h);
          SetValidEntries(c.infos, h, id);
        } else {
          FreeOk(c, h, Failed(h, res));
          FreeSubset(c.infos, h);
        }
      }
    }
  }

  lemma SetValidEntries(infos: seq<Info>, h: int, id: int)
    requires Find(infos, h).Some? && Find(infos, h).value.globalId == id
    ensures forall x :: x in SetValid(infos, h, true) ==> x in infos || (x.globalId == id && x.valid)
  {
  }

  lemma {:induction false} DiedClientKeeps(c: Client, id: int, err: int)
    requires ClientOk(c)
    ensures var d := DiedClient(c, id, err);
      ClientOk(d) && Follows(c, d, id) && HandlesIn(d.infos, id) == 0 && forall x :: x in d.infos ==> x in c.infos
    decreases |c.infos|
  {
    hide Find, FreeHandle, HandlesIn, Balanced;
    var h := Local(c.infos, id);
    NoHandle(c, id);
    if h != NO_ID {
      FirstHandle(c, id);
      var found := Find(c.infos, h);
      var note := if found.value.valid then Disconnected(h) else Failed(h, err);
      var c1 := Tell(c.(infos := FreeHandle(c.infos, h)), note);
      FreeOk(c, h, note);
      FreeSubset(c.infos, h);
      FreeShrinks(c.infos, h);
      HandlesAfter(c.infos, h);
      DiedClientKeeps(c1, id, err);
    }
  }

  lemma FreeShrinks(infos: seq<Info>, h: int)
    requires Find(infos, h).Some?
    ensures |FreeHandle(infos, h)| == |infos| - 1
  {
  }

  // ---- steps that concern one server and all clients ----

  /** Every client follows the server's message, and no handle is added or becomes valid. */
  ghost predicate Shrinks(a: seq<Client>, b: seq<Client>, id: int) {
    |a| == |b| && forall i :: 0 <= i < |a| ==>
      ClientOk(b[i]) && Follows(a[i], b[i], id) && forall x :: x in b[i].infos ==> x in a[i].infos
  }

  lemma KeepHolds(a: seq<Client>, b: seq<Client>, id: int, u: int, g: int)
    requires Shrinks(a, b, id) && Holds(a, u, g) && g != id
    ensures Holds(b, u, g)
  {
    var i :| 0 <= i < |a| && a[i].id == u && HandlesIn(a[i].infos, g) > 0;
    assert Follows(a[i], b[i], id);
  }

  lemma KeepShrunk(s: State, clients: seq<Client>, id: int)
    requires InvBut(s, id) && Shrinks(s.clients, clients, id)
    ensures InvBut(s.(clients := clients), id)
  {
    hide Handles, HandlesIn, Holds, ClientOk, ServersOk, IdleOk, IsReady, NoDup;
    forall i | 0 <= i < |s.servers| && s.servers[i].id != id
      ensures s.servers[i].refcount == Handles(clients, s.servers[i].id)
      ensures forall u :: u in s.servers[i].unsol ==> Holds(clients, u, s.servers[i].id)
    {
      HandlesSame(s.clients, clients, s.servers[i].id);
      forall u | u in s.servers[i].unsol ensures Holds(clients, u, s.servers[i].id) {
        KeepHolds(s.clients, clients, id, u, s.servers[i].id);
      }
    }
  }

  /** No client has a valid handle on server id. */
  predicate NoneValid(clients: seq<Client>, id: int) {
    forall i :: 0 <= i < |clients| ==> forall x :: x in clients[i].infos && x.globalId == id ==> !x.valid
  }

  lemma RemoveReady(servers: seq<Server>, si: nat, g: int)
    requires si < |servers| && IsReady(servers, g) && g != servers[si].id
    ensures IsReady(servers[..si] + servers[si + 1..], g)
  {
    var after := servers[..si] + servers[si + 1..];
    var i :| 0 <= i < |servers| && servers[i].id == g && servers[i].status.ReadyState?;
    var k := if i < si then i else i - 1;
    assert after[k] == servers[i];
  }

  lemma KeepRemove(s: State, si: nat)
    requires si < |s.servers| && InvBut(s, s.servers[si].id) && NoneValid(s.clients, s.servers[si].id)
    ensures Inv(RemoveServer(s, si))
  {
    hide Handles, HandlesIn, Holds, ClientOk, IsReady, NoDup;
    var t := RemoveServer(s, si);
    RemoveServersOk(s.servers, si, s.lastId);
    assert forall k :: 0 <= k < |t.servers| ==> t.servers[k] == s.servers[if k < si then k else k + 1];
    forall i | 0 <= i < |t.clients| ensures HandlesOk(t.servers, t.clients[i], t.lastId) {
      assert HandlesOk(s.servers, s.clients[i], s.lastId);
      forall x | x in t.clients[i].infos && x.valid ensures IsReady(t.servers, x.globalId) {
        RemoveReady(s.servers, si, x.globalId);
      }
    }
  }

  lemma RemoveServersOk(servers: seq<Server>, si: nat, lastId: int)
    requires si < |servers| && ServersOk(servers, lastId)
    ensures ServersOk(servers[..si] + servers[si + 1..], lastId)
    ensures forall x :: x in servers[..si] + servers[si + 1..] ==> x.id != servers[si].id
  {
  }

  lemma DiedShrinks(clients: seq<Client>, id: int, err: int)
    requires forall i :: 0 <= i < |clients| ==> ClientOk(clients[i])
    ensures Shrinks(clients, DiedAll(clients, id, err), id) && NoneValid(DiedAll(clients, id, err), id)
  {
    hide ClientOk, HandlesIn, Follows;
    var after := DiedAll(clients, id, err);
    forall i | 0 <= i < |clients|
      ensures ClientOk(after[i]) && Follows(clients[i], after[i], id) &&
        forall x :: x in after[i].infos ==> x in clients[i].infos
      ensures forall x :: x in after[i].infos && x.globalId == id ==> !x.valid
    {
      DiedClientKeeps(clients[i], id, err);
      HandlesZero(after[i].infos, id);
    }
  }

  lemma OkShrinks(clients: seq<Client>, id: int, res: code)
    requires forall i :: 0 <= i < |clients| ==> ClientOk(clients[i])
    ensures Shrinks(clients, OkAll(clients, id, res), id)
  {
    hide ClientOk, Follows;
    forall i | 0 <= i < |clients| { OkClientKeeps(clients[i], id, res); }
  }

  lemma KeepDelete(s: State, si: nat)
    requires si < |s.servers| && InvBut(s, s.servers[si].id)
    ensures Inv(DeleteServer(s, si))
    ensures forall i :: 0 <= i < |s.clients| ==> HandlesIn(DeleteServer(s, si).clients[i].infos, s.servers[si].id) == 0
  {
    forall i | 0 <= i < |s.clients|
      ensures HandlesIn(DeleteServer(s, si).clients[i].infos, s.servers[si].id) == 0
    {
      DiedClientKeeps(s.clients[i], s.servers[si].id, s.servers[si].err);
    }
    hide ServersOk, IdleOk, CountsOk, HandlesOk, ClientIdsOk, UnsolOk, ClientOk, Shrinks, NoneValid;
    var v := s.servers[si];
    DiedShrinks(s.clients, v.id, v.err);
    KeepShrunk(s, DiedAll(s.clients, v.id, v.err), v.id);
    KeepRemove(s.(clients := DiedAll(s.clients, v.id, v.err)), si);
  }

  lemma Loosen(s: State, except: int)
    requires Inv(s) && forall i :: 0 <= i < |s.servers| ==> s.servers[i].id != 0
    ensures InvBut(s, except)
  {
  }

  lemma IdsPositive(s: State, except: int)
    requires InvBut(s, except)
    ensures forall i :: 0 <= i < |s.servers| ==> s.servers[i].id != 0
  {
  }

  lemma KeepOpenFailed(s: State, si: nat, res: code)
    requires si < |s.servers| && Inv(s)
    ensures Inv(OpenFailed(s, si, res))
  {
    hide ServersOk, IdleOk, CountsOk, HandlesOk, ClientIdsOk, UnsolOk, ClientOk, Shrinks;
    var id := s.servers[si].id;
    IdsPositive(s, 0);
    Loosen(s, id);
    OkShrinks(s.clients, id, res);
    KeepShrunk(s, OkAll(s.clients, id, res), id);
    KeepDelete(s.(clients := OkAll(s.clients, id, res)), si);
  }

  // ---- steps that concern one server ----

  lemma {:induction false} RemoveFirstIs(s: seq<int>, x: int)
    requires NoDup(s)
    ensures NoDup(RemoveFirst(s, x)) && forall u :: u in RemoveFirst(s, x) <==> u in s && u != x
  {
    if s != [] {
      assert s[0] !in s[1..];
      if s[0] != x {
        RemoveFirstIs(s[1..], x);
        assert s[0] !in RemoveFirst(s[1..], x);
      }
    }
  }

  lemma SetUnsolIs(unsol: seq<int>, client: int, val: int)
    requires NoDup(unsol)
    ensures var after := SetUnsolList(unsol, client, val);
      && NoDup(after)
      && (forall u :: u in after ==> u in unsol || u == client)
      && (client in after <==> if val == -1 then client in unsol else val == 1)
      && (forall u :: u in unsol && u != client ==> u in after)
  {
    RemoveFirstIs(unsol, client);
  }

  /** A server changed in place, still to be settled. */
  lemma KeepUpdate(s: State, si: nat, v: Server)
    requires si < |s.servers| && InvBut(s, s.servers[si].id)
    requires v.id == s.servers[si].id && v.name == s.servers[si].name && v.isLocal == s.servers[si].isLocal
    requires NoDup(v.unsol) && (v.isLocal ==> v.status.ReadyState?)
    requires s.servers[si].status.ReadyState? && !v.status.ReadyState? ==> NoneValid(s.clients, v.id)
    ensures InvBut(s.(servers := s.servers[si := v]), v.id)
  {
    hide Handles, HandlesIn, Holds, ClientOk, IsReady;
    var t := s.(servers := s.servers[si := v]);
    forall i | 0 <= i < |t.clients| ensures HandlesOk(t.servers, t.clients[i], t.lastId) {
      assert HandlesOk(s.servers, s.clients[i], s.lastId);
      forall x | x in t.clients[i].infos && x.valid ensures IsReady(t.servers, x.globalId) {
        UpdateReady(s.servers, si, v, x.globalId);
      }
    }
  }

  lemma UpdateReady(servers: seq<Server>, si: nat, v: Server, g: int)
    requires si < |servers| && v.id == servers[si].id && IsReady(servers, g)
    requires forall i, j :: 0 <= i < j < |servers| ==> servers[i].id != servers[j].id
    requires g == v.id && servers[si].status.ReadyState? ==> v.status.ReadyState?
    ensures IsReady(servers[si := v], g)
  {
    var i :| 0 <= i < |servers| && servers[i].id == g && servers[i].status.ReadyState?;
    assert servers[si := v][i].id == g;
  }

  /** The unsettled server meets its own conditions after all. */
  lemma Settle(s: State, si: nat)
    requires si < |s.servers| && InvBut(s, s.servers[si].id)
    requires s.servers[si].refcount == Handles(s.clients, s.servers[si].id)
    requires s.servers[si].refcount == 0 ==> s.servers[si].status.Disconnecting? && !s.servers[si].isLocal
    requires forall u :: u in s.servers[si].unsol ==> Holds(s.clients, u, s.servers[si].id)
    ensures Inv(s)
  {
    hide Handles, Holds, NoDup;
  }

  /** One handle fewer than counted: the server is let go. */
  lemma KeepRelease(s: State, si: nat, u: int)
    requires si < |s.servers| && InvBut(s, s.servers[si].id)
    requires s.servers[si].refcount == Handles(s.clients, s.servers[si].id) + 1
    requires forall x :: x in s.servers[si].unsol ==> x == u || Holds(s.clients, x, s.servers[si].id)
    ensures Inv(ReleaseServer(s, si, u))
  {
    hide Handles, Holds, HandlesOk, ClientOk, NoneValid, ClientIdsOk, DiedAll;
    var v := s.servers[si];
    assert NoDup(v.unsol);
    RemoveFirstIs(v.unsol, u);
    var v' := v.(unsol := RemoveFirst(v.unsol, u), refcount := v.refcount - 1);
    var s1 := s.(servers := s.servers[si := v']);
    KeepUpdate(s, si, v');
    if v'.refcount != 0 {
      Settle(s1, si);
    } else if v'.isLocal || v'.status != ReadyState {
      KeepDelete(s1, si);
    } else {
      NoHandlesNoneValid(s.clients, v.id);
      KeepUpdate(s, si, v'.(status := Disconnecting));
      Settle(s.(servers := s.servers[si := v'.(status := Disconnecting)]), si);
    }
  }

  lemma NoHandlesNoneValid(clients: seq<Client>, g: int)
    requires Handles(clients, g) == 0
    ensures NoneValid(clients, g)
  {
    HoldsIffHandles(clients, g);
    forall i | 0 <= i < |clients| ensures forall x :: x in clients[i].infos && x.globalId == g ==> !x.valid {
      HandlesZero(clients[i].infos, g);
    }
  }
}
