/** What each event does to the broker's clients and servers, all of them. */
module BrokerAnswers {
  import opened Util
  import opened HandleTable
  import opened Broker
  import opened BrokerSteps
  import opened BrokerRuns
  import opened BrokerBeyond
  import opened BrokerNotes

  lemma ClientAt(s: State, ci: nat)
    requires Inv(s) && ci < |s.clients|
    ensures ClientIndex(s.clients, s.clients[ci].id) == ci
  {
    hide ClientsOk, ServersOk, IdleOk, CountsOk, UnsolOk;
  }

  lemma ServerAt(s: State, si: nat)
    requires Inv(s) && si < |s.servers|
    ensures IndexOf(s.servers, s.servers[si].id) == si && IndexOfName(s.servers, s.servers[si].name) == si
    ensures NoDup(s.servers[si].unsol)
  {
    hide ClientsOk, ClientIdsOk, IdleOk, CountsOk;
  }

  /** An event of a client that is not there changes nothing. */
  lemma StrangersChangeNothing(s: State, u: int, e: Event)
    requires forall i :: 0 <= i < |s.clients| ==> s.clients[i].id != u
    requires e == Leave(u) || ((e.Open? || e.Close? || e.SetUnsol?) && e.client == u)
    ensures Step(s, e) == s
  {
  }

  // ---- opening ----

  /** The same clients, and client u if it is wanted. */
  ghost predicate With(unsol: seq<int>, u: int, wanted: bool, after: seq<int>) {
    forall x :: x in after <==> x in unsol || (wanted && x == u)
  }

  /** The client has one more handle, of the next number, and is told how the server stands. */
  function WithHandle(c: Client, v: Server): Client {
    var l, ready := c.lastLocal + 1, v.status == ReadyState;
    c.(lastLocal := l, infos := c.infos + [Info(l, v.id, ready)],
       inbox := c.inbox + [if ready then Opened(l) else InProgress(l)])
  }

  /** Opening a server that is there: it counts one handle more, and nothing else changes. */
  lemma OpensExisting(s: State, ci: nat, si: nat, attempt: Attempt)
    requires Inv(s) && ci < |s.clients| && si < |s.servers|
    ensures var c, v := s.clients[ci], s.servers[si];
      var t := Step(s, Open(c.id, v.name, attempt));
      && t.lastId == s.lastId && t.clients == s.clients[ci := WithHandle(c, v)]
      && |t.servers| == |s.servers|
      && t.servers == s.servers[si := v.(refcount := v.refcount + 1, unsol := t.servers[si].unsol)]
      && With(v.unsol, c.id, c.defUnsol && v.status == ReadyState, t.servers[si].unsol)
  {
    hide InvBut, NoDup;
    ClientAt(s, ci);
    ServerAt(s, si);
    SetUnsolIs(s.servers[si].unsol, s.clients[ci].id, 1);
  }

  /** Opening a server that is not there: it is created, or the client is told why not. */
  lemma OpensNew(s: State, ci: nat, name: string, attempt: Attempt)
    requires Inv(s) && ci < |s.clients| && forall i :: 0 <= i < |s.servers| ==> s.servers[i].name != name
    ensures var c := s.clients[ci];
      var t := Step(s, Open(c.id, name, attempt));
      var builtin := name in {"commu", "commu_a", "commu_l"};
      && t.lastId == s.lastId + 1
      && if !builtin && attempt.Refusal? then
           t.servers == s.servers && t.clients == s.clients[ci := c.(inbox := c.inbox + [Refused(attempt.code)])]
         else
           var v := Server(s.lastId + 1, name, builtin, if builtin then ReadyState else Connecting, 1,
                           if builtin && c.defUnsol then [c.id] else [], 0);
           t.servers == s.servers + [v] && t.clients == s.clients[ci := WithHandle(c, v)]
  {
    hide InvBut;
    ClientAt(s, ci);
    assert [] + [s.clients[ci].id] == [s.clients[ci].id];
  }

  // ---- joining and letting go ----

  lemma Joins(s: State, u: int, lastLocal: nat, defUnsol: bool)
    ensures var t := Step(s, Join(u, lastLocal, defUnsol));
      if exists i :: 0 <= i < |s.clients| && s.clients[i].id == u then t == s
      else t == s.(clients := s.clients + [Client(u, lastLocal, [], defUnsol, [])])
  {
  }

  /** What becomes of a server when client u lets go of k handles on it. */
  function LetGo(v: Server, u: int, k: nat): Option<Server> {
    if k == 0 then Some(v)
    else
      var w := v.(refcount := v.refcount - k, unsol := RemoveFirst(v.unsol, u));
      if w.refcount > 0 then Some(w)
      else if w.isLocal || w.status != ReadyState then None
      else Some(w.(status := Disconnecting))
  }

  /** All servers after client u has let go of these handles. */
  function AllLetGo(servers: seq<Server>, u: int, infos: seq<Info>): seq<Server> {
    if servers == [] then []
    else
      var w := LetGo(servers[0], u, HandlesIn(infos, servers[0].id));
      (if w.Some? then [w.value] else []) + AllLetGo(servers[1..], u, infos)
  }

  function Kept(w: Option<Server>): seq<Server> {
    if w.Some? then [w.value] else []
  }

  lemma {:induction false} LetGoConcat(a: seq<Server>, b: seq<Server>, u: int, infos: seq<Info>)
    ensures AllLetGo(a + b, u, infos) == AllLetGo(a, u, infos) + AllLetGo(b, u, infos)
  {
    if a == [] {
      assert a + b == b;
    } else {
      assert (a + b)[1..] == a[1..] + b;
      LetGoConcat(a[1..], b, u, infos);
    }
  }

  lemma {:induction false} LetGoSame(servers: seq<Server>, u: int, a: seq<Info>, b: seq<Info>)
    requires forall v :: v in servers ==> HandlesIn(a, v.id) == HandlesIn(b, v.id)
    ensures AllLetGo(servers, u, a) == AllLetGo(servers, u, b)
  {
    if servers != [] {
      LetGoSame(servers[1..], u, a, b);
    }
  }

  lemma LetGoAt(servers: seq<Server>, si: nat, u: int, infos: seq<Info>)
    requires si < |servers|
    ensures AllLetGo(servers, u, infos) == AllLetGo(servers[..si], u, infos)
      + Kept(LetGo(servers[si], u, HandlesIn(infos, servers[si].id))) + AllLetGo(servers[si + 1..], u, infos)
  {
    hide LetGo, HandlesIn;
    assert servers == servers[..si] + (servers[si..si + 1] + servers[si + 1..]);
    LetGoConcat(servers[..si], servers[si..si + 1] + servers[si + 1..], u, infos);
    LetGoConcat(servers[si..si + 1], servers[si + 1..], u, infos);
    assert servers[si..si + 1][1..] == [];
  }

  /** One release does what letting go of one handle says. */
  lemma ReleaseIs(s: State, si: nat, u: int)
    requires si < |s.servers| && s.servers[si].refcount > 0
    ensures ReleaseServer(s, si, u).servers
         == s.servers[..si] + Kept(LetGo(s.servers[si], u, 1)) + s.servers[si + 1..]
    ensures ReleaseServer(s, si, u).lastId == s.lastId
  {
    hide DiedAll, RemoveFirst;
  }

  lemma RemovedTwice(unsol: seq<int>, u: int)
    requires NoDup(unsol)
    ensures RemoveFirst(RemoveFirst(unsol, u), u) == RemoveFirst(unsol, u) && NoDup(RemoveFirst(unsol, u))
  {
    RemoveFirstIs(unsol, u);
    RemoveNone<int>(RemoveFirst(unsol, u), u);
  }

  /** k handles after one are k + 1 handles. */
  lemma LetGoTwice(v: Server, u: int, k: nat)
    requires NoDup(v.unsol) && v.refcount >= k + 1
    ensures var w := LetGo(v, u, 1);
      LetGo(v, u, k + 1) == (if w.Some? then LetGo(w.value, u, k) else None) &&
      (w.Some? ==> w.value.id == v.id && w.value.refcount == v.refcount - 1 && NoDup(w.value.unsol))
  {
    hide NoDup, RemoveFirst;
    RemovedTwice(v.unsol, u);
  }

  /** Unique identifiers and lists, and enough handles counted. */
  predicate Countable(servers: seq<Server>, infos: seq<Info>) {
    && (forall i, j :: 0 <= i < j < |servers| ==> servers[i].id != servers[j].id)
    && (forall i :: 0 <= i < |servers| ==>
          NoDup(servers[i].unsol) && servers[i].refcount >= HandlesIn(infos, servers[i].id))
  }

  lemma CountableAfter(servers: seq<Server>, si: nat, u: int, x: Info, rest: seq<Info>)
    requires si < |servers| && servers[si].id == x.globalId && Countable(servers, [x] + rest)
    ensures servers[si].refcount > 0
    ensures Countable(servers[..si] + Kept(LetGo(servers[si], u, 1)) + servers[si + 1..], rest)
    ensures AllLetGo(servers[..si] + Kept(LetGo(servers[si], u, 1)) + servers[si + 1..], u, rest)
         == AllLetGo(servers, u, [x] + rest)
  {
    hide LetGo, NoDup, AllLetGo, HandlesIn;
    var infos := [x] + rest;
    var a, v, b := servers[..si], servers[si], servers[si + 1..];
    var w := Kept(LetGo(v, u, 1));
    forall g ensures HandlesIn(infos, g) == HandlesIn(rest, g) + if x.globalId == g then 1 else 0 {
      HandlesConcat([x], rest, g);
      HandlesOne(x, g);
    }
    LetGoTwice(v, u, HandlesIn(rest, v.id));
    LetGoSame(a, u, infos, rest);
    LetGoSame(b, u, infos, rest);
    LetGoAt(servers, si, u, infos);
    LetGoConcat(a + w, b, u, rest);
    LetGoConcat(a, w, u, rest);
    LetGoOne(w, u, rest);
    var after := a + w + b;
    forall i | 0 <= i < |after|
      ensures NoDup(after[i].unsol) && after[i].refcount >= HandlesIn(rest, after[i].id)
      ensures i == si && w != [] ==> after[i].id == v.id
      ensures i != si || w == [] ==> after[i] == servers[if i < si || w != [] then i else i + 1]
    {
    }
  }

  lemma LetGoOne(w: seq<Server>, u: int, infos: seq<Info>)
    requires |w| <= 1
    ensures AllLetGo(w, u, infos) == if w == [] then [] else Kept(LetGo(w[0], u, HandlesIn(infos, w[0].id)))
  {
    hide LetGo, HandlesIn;
    if w != [] {
      assert w[1..] == [];
    }
  }

  lemma {:induction false} AllLeave(s: State, infos: seq<Info>, u: int)
    requires Countable(s.servers, infos)
    ensures var t := LeaveAll(s, infos, u); t.servers == AllLetGo(s.servers, u, infos) && t.lastId == s.lastId
    decreases |infos|
  {
    hide ReleaseServer, Countable, LetGo, HandlesIn;
    if infos == [] {
      NothingLetGo(s.servers, u);
    } else {
      var x, rest := infos[0], infos[1..];
      assert infos == [x] + rest;
      var si := IndexOf(s.servers, x.globalId);
      if si < |s.servers| {
        CountableAfter(s.servers, si, u, x, rest);
        ReleaseIs(s, si, u);
        AllLeave(ReleaseServer(s, si, u), rest, u);
      } else {
        NoneOf(s.servers, x, rest, u);
        AllLeave(s, rest, u);
      }
    }
  }

  lemma {:induction false} NothingLetGo(servers: seq<Server>, u: int)
    ensures AllLetGo(servers, u, []) == servers
  {
    if servers != [] {
      NothingLetGo(servers[1..], u);
    }
  }

  lemma NoneOf(servers: seq<Server>, x: Info, rest: seq<Info>, u: int)
    requires (forall i :: 0 <= i < |servers| ==> servers[i].id != x.globalId) && Countable(servers, [x] + rest)
    ensures Countable(servers, rest) && AllLetGo(servers, u, [x] + rest) == AllLetGo(servers, u, rest)
  {
    hide NoDup, HandlesIn;
    forall i | 0 <= i < |servers| ensures HandlesIn([x] + rest, servers[i].id) == HandlesIn(rest, servers[i].id) {
      HandlesConcat([x], rest, servers[i].id);
      HandlesOne(x, servers[i].id);
    }
    LetGoSame(servers, u, [x] + rest, rest);
  }

  lemma CountsAll(s: State, ci: nat)
    requires Inv(s) && ci < |s.clients|
    ensures Countable(s.servers, s.clients[ci].infos)
  {
    hide Handles, HandlesIn, NoDup, ClientsOk, ClientIdsOk, IdleOk;
    IdsPositive(s, 0);
    forall i | 0 <= i < |s.servers|
      ensures NoDup(s.servers[i].unsol) && s.servers[i].refcount >= HandlesIn(s.clients[ci].infos, s.servers[i].id)
    {
      HandlesAtC(s.clients, ci, s.servers[i].id);
    }
  }

  /** A client that leaves is gone, and every server has lost as many handles as it had. */
  lemma Leaves(s: State, ci: nat)
    requires Inv(s) && ci < |s.clients|
    ensures var c := s.clients[ci];
      Step(s, Leave(c.id)) == State(s.lastId, AllLetGo(s.servers, c.id, c.infos), s.clients[..ci] + s.clients[ci + 1..])
  {
    hide InvBut, LeaveAll, AllLetGo, Countable;
    ClientAt(s, ci);
    CountsAll(s, ci);
    LeaveKeepsOthers(s, ci);
    AllLeave(Without(s, ci), s.clients[ci].infos, s.clients[ci].id);
  }

  /** The client has no handle h, or only one whose server is gone. */
  predicate NoLiveHandle(s: State, c: Client, h: int) {
    forall k :: 0 <= k < |c.infos| && c.infos[k].localId == h ==> !Live(s.servers, c.infos[k].globalId)
  }

  lemma NoneFound(s: State, ci: nat, h: int)
    requires Inv(s) && ci < |s.clients| && NoLiveHandle(s, s.clients[ci], h)
    ensures var g := Global(s.clients[ci].infos, h); g == NO_ID || IndexOf(s.servers, g) == |s.servers|
  {
    hide InvBut;
    var c := s.clients[ci];
    var k := IndexOfLocal(c.infos, h);
    if k < |c.infos| {
      assert !Live(s.servers, c.infos[k].globalId);
    }
  }

  /** The k-th handle of a client, with its server. */
  lemma Found1(s: State, ci: nat, k: nat, si: nat)
    requires Inv(s) && ci < |s.clients| && k < |s.clients[ci].infos| && si < |s.servers|
    requires s.servers[si].id == s.clients[ci].infos[k].globalId
    ensures var c := s.clients[ci];
      var h := c.infos[k].localId;
      && IndexOfLocal(c.infos, h) == k && Global(c.infos, h) == s.servers[si].id != NO_ID
      && IndexOf(s.servers, s.servers[si].id) == si && ClientIndex(s.clients, c.id) == ci
  {
    hide InvBut;
    ClientAt(s, ci);
    ServerAt(s, si);
    ClientIsOk(s, ci);
    FindIs(s.clients[ci].infos, k);
  }

  /** Closing without such a handle changes nothing, and the client is told so. */
  lemma ClosesNothing(s: State, ci: nat, h: int)
    requires Inv(s) && ci < |s.clients| && NoLiveHandle(s, s.clients[ci], h)
    ensures var c := s.clients[ci];
      Step(s, Close(c.id, h)) == s.(clients := s.clients[ci := c.(inbox := c.inbox + [Closed(h, false)])])
  {
    hide InvBut;
    ClientAt(s, ci);
    NoneFound(s, ci, h);
  }

  /** Closing a handle on a live server: it goes, and its server has lost one. */
  lemma ClosesHandle(s: State, ci: nat, k: nat, si: nat)
    requires Inv(s) && ci < |s.clients| && k < |s.clients[ci].infos| && si < |s.servers|
    requires s.servers[si].id == s.clients[ci].infos[k].globalId
    ensures var c := s.clients[ci];
      var h := c.infos[k].localId;
      Step(s, Close(c.id, h)) == State(s.lastId,
        s.servers[..si] + Kept(LetGo(s.servers[si], c.id, 1)) + s.servers[si + 1..],
        s.clients[ci := c.(infos := c.infos[..k] + c.infos[k + 1..], inbox := c.inbox + [Closed(h, true)])])
  {
    hide InvBut, ReleaseServer, LetGo;
    var c := s.clients[ci];
    Found1(s, ci, k, si);
    ClosingCounts(s, ci, c.infos[k].localId, si);
    var s1 := s.(clients := s.clients[ci := Closing(c, c.infos[k].localId)]);
    ReleaseKeepsClients(s1, si, c.id);
    ReleaseIs(s1, si, c.id);
  }

  lemma ClientIsOk(s: State, ci: nat)
    requires Inv(s) && ci < |s.clients|
    ensures ClientOk(s.clients[ci]) && DistinctLocals(s.clients[ci].infos)
    ensures forall x :: x in s.clients[ci].infos ==> x.globalId >= 1
  {
    hide ServersOk, IdleOk, CountsOk, UnsolOk, ClientIdsOk;
    assert ClientOk(s.clients[ci]) && HandlesOk(s.servers, s.clients[ci], s.lastId);
  }

  lemma SubscribesNothing(s: State, ci: nat, h: int, val: int)
    requires Inv(s) && ci < |s.clients| && NoLiveHandle(s, s.clients[ci], h)
    ensures var c := s.clients[ci];
      Step(s, SetUnsol(c.id, h, val)) == s.(clients := s.clients[ci := c.(inbox := c.inbox + [UnsolSet(false)])])
  {
    hide InvBut;
    ClientAt(s, ci);
    NoneFound(s, ci, h);
  }

  /** 1 puts the client on the list of its handle's server, -1 only asks, and any other
      number takes it off; nothing else changes. */
  lemma SubscribesHandle(s: State, ci: nat, k: nat, si: nat, val: int)
    requires Inv(s) && ci < |s.clients| && k < |s.clients[ci].infos| && si < |s.servers|
    requires s.servers[si].id == s.clients[ci].infos[k].globalId
    ensures var c, v := s.clients[ci], s.servers[si];
      var t := Step(s, SetUnsol(c.id, c.infos[k].localId, val));
      && t.lastId == s.lastId && t.clients == s.clients[ci := c.(inbox := c.inbox + [UnsolSet(true)])]
      && |t.servers| == |s.servers| && t.servers == s.servers[si := v.(unsol := t.servers[si].unsol)]
      && (forall x :: x != c.id ==> (x in t.servers[si].unsol <==> x in v.unsol))
      && (c.id in t.servers[si].unsol <==> if val == -1 then c.id in v.unsol else val == 1)
  {
    hide InvBut, SetUnsolList, NoDup;
    Found1(s, ci, k, si);
    ServerAt(s, si);
    SetUnsolIs(s.servers[si].unsol, s.clients[ci].id, val);
  }

  // ---- events of servers ----

  /** The server is deleted. */
  predicate Dies(v: Server, e: Event) {
    match e
    case Connected(_, res) => v.status == Connecting && res != 0
    case OpenAnswer(_, res) => v.status == Opening && res != 0
    case InitiateAnswer(_, res) => v.status == Opening && res != 0
    case CloseAnswer(_, reconnect) => v.status == Disconnecting && (v.refcount == 0 || reconnect.Refusal?)
    case ReadFails(_, _) => true
    case WriteFails(_) => true
    case _ => false
  }

  predicate Wakes(v: Server, e: Event) {
    e.InitiateAnswer? && v.status == Opening && e.res == 0
  }

  /** The status of a server that lives on. */
  function NextStatus(v: Server, e: Event): Status {
    if e.Connected? && v.status == Connecting then Opening
    else if Wakes(v, e) then ReadyState
    else if e.CloseAnswer? && v.status == Disconnecting then Connecting
    else v.status
  }

  /** The handles on other servers than g. */
  function Others(infos: seq<Info>, g: int): seq<Info> {
    if infos == [] then [] else (if infos[0].globalId == g then [] else [infos[0]]) + Others(infos[1..], g)
  }

  /** The client's first handle on server g, if any, is taken from it with this note. */
  function FirstFails(c: Client, g: int, res: int): Client {
    var k := IndexOfGlobal(c.infos, g);
    if k == |c.infos| then c
    else c.(infos := c.infos[..k] + c.infos[k + 1..], inbox := c.inbox + [Failed(c.infos[k].localId, res)])
  }

  function FirstIsReady(c: Client, g: int): Client {
    var k := IndexOfGlobal(c.infos, g);
    if k == |c.infos| then c
    else c.(infos := c.infos[k := c.infos[k].(valid := true)], inbox := c.inbox + [Ready(c.infos[k].localId)])
  }

  /** All handles on server g are taken from the client, each with its note. */
  function AllFail(c: Client, g: int, err: int): Client {
    c.(infos := Others(c.infos, g), inbox := c.inbox + Farewell(c.infos, g, err))
  }

  function FirstMessage(c: Client, g: int): Client {
    var k := IndexOfGlobal(c.infos, g);
    if k == |c.infos| then c else c.(inbox := c.inbox + [Unsol(c.infos[k].localId)])
  }

  /** What a client makes of an event of server v. */
  function ClientAfter(v: Server, e: Event, c: Client): Client {
    if Wakes(v, e) then FirstIsReady(c, v.id)
    else if e.UnsolMessage? && v.status == ReadyState && c.id in v.unsol then FirstMessage(c, v.id)
    else if !Dies(v, e) then c
    else if e.CloseAnswer? then if v.refcount == 0 then c else FirstFails(c, v.id, e.reconnect.code)
    else if e.ReadFails? then AllFail(c, v.id, if v.status == Opening then e.errno else 0)
    else if e.WriteFails? then AllFail(c, v.id, 0)
    else AllFail(FirstFails(c, v.id, e.res), v.id, 0)
  }

  lemma {:induction false} OthersWithout(infos: seq<Info>, k: nat, g: int)
    requires k < |infos| && infos[k].globalId == g
    ensures Others(infos[..k] + infos[k + 1..], g) == Others(infos, g)
  {
    if k == 0 {
      assert infos[..0] + infos[1..] == infos[1..];
    } else {
      OthersWithout(infos[1..], k - 1, g);
      assert (infos[..k] + infos[k + 1..])[1..] == infos[1..][..k - 1] + infos[1..][k..];
    }
  }

  lemma {:induction false} OthersAll(infos: seq<Info>, g: int)
    requires forall i :: 0 <= i < |infos| ==> infos[i].globalId != g
    ensures Others(infos, g) == infos
  {
    if infos != [] {
      OthersAll(infos[1..], g);
    }
  }

  lemma {:induction false} DiedInfos(c: Client, g: int, err: int)
    requires ClientOk(c)
    ensures DiedClient(c, g, err).infos == Others(c.infos, g)
    decreases |c.infos|
  {
    hide ClientOk, HandlesIn, Others, Local;
    NoHandle(c, g);
    if Local(c.infos, g) == NO_ID {
      HandlesZero(c.infos, g);
      OthersAll(c.infos, g);
      NoneDies(c, g, err);
    } else {
      hide DiedClient;
      var k := IndexOfGlobal(c.infos, g);
      DiedUnfold(c, g, err);
      OthersWithout(c.infos, k, g);
      DiedInfos(DropFirst(c, k, err), g, err);
    }
  }

  lemma NoneDies(c: Client, g: int, err: int)
    requires Local(c.infos, g) == NO_ID
    ensures DiedClient(c, g, err) == c
  {
  }

  lemma DiedIs(c: Client, g: int, err: int)
    requires ClientOk(c)
    ensures DiedClient(c, g, err) == AllFail(c, g, err)
  {
    hide ClientOk, HandlesIn, DiedClient, Others, Farewell;
    DiedInfos(c, g, err);
    DeathIsToldToEveryHandle(c, g, err);
    DiedClientKeeps(c, g, err);
  }

  /** server_ok, when no handle on the server is valid. */
  lemma OkIs(c: Client, g: int, res: int)
    requires ClientOk(c) && forall x :: x in c.infos && x.globalId == g ==> !x.valid
    ensures OkClient(c, g, res) == if res == 0 then FirstIsReady(c, g) else FirstFails(c, g, res)
  {
    hide Balanced, Orderly, HandlesIn;
    NoHandle(c, g);
    HandlesZero(c.infos, g);
    if Local(c.infos, g) != NO_ID {
      FirstIs(c, g);
      FindIs(c.infos, IndexOfGlobal(c.infos, g));
    }
  }

  lemma FailedIs(s: State, si: nat, res: code, i: nat)
    requires Inv(s) && NoErr(s.servers) && si < |s.servers| && !s.servers[si].status.ReadyState? && i < |s.clients|
    ensures var g := s.servers[si].id;
      OpenFailed(s, si, res).clients[i] == AllFail(FirstFails(s.clients[i], g, res), g, 0)
  {
    hide InvBut, ClientOk, OkClient, DiedClient, AllFail, FirstFails;
    var c, g := s.clients[i], s.servers[si].id;
    ClientIsOk(s, i);
    NotReadyNoneValid(s, si, 0);
    OkIs(c, g, res);
    OkClientKeeps(c, g, res);
    DiedIs(OkClient(c, g, res), g, 0);
  }

  lemma MessageIs(s: State, si: nat, i: nat)
    requires Inv(s) && si < |s.servers| && i < |s.clients|
    ensures |Forward(s.clients, s.servers[si].id, s.servers[si].unsol)| == |s.clients|
    ensures Forward(s.clients, s.servers[si].id, s.servers[si].unsol)[i]
         == if s.clients[i].id in s.servers[si].unsol then FirstMessage(s.clients[i], s.servers[si].id)
            else s.clients[i]
  {
    hide Handles, HandlesIn, ServersOk, IdleOk, CountsOk, ClientOk;
    var c, v := s.clients[i], s.servers[si];
    UnsolOnce(s, si);
    ForwardReachesExactly(s.clients, v.id, v.unsol);
    if c.id in v.unsol {
      IdsPositive(s, 0);
      assert Holds(s.clients, c.id, v.id);
      HandlesZero(c.infos, v.id);
    }
  }

  predicate OfServer(e: Event, g: int) {
    !e.Join? && !e.Leave? && !e.Open? && !e.Close? && !e.SetUnsol? && e.server == g
  }

  lemma IdleNothing(s: State, si: nat, i: nat, err: int)
    requires Inv(s) && si < |s.servers| && s.servers[si].refcount == 0 && i < |s.clients|
    ensures DiedClient(s.clients[i], s.servers[si].id, err) == s.clients[i]
  {
    hide Handles, HandlesIn, ClientsOk, UnsolOk, ServersOk, DiedClient;
    IdsPositive(s, 0);
    HoldsIffHandles(s.clients, s.servers[si].id);
    DiedNothing(s.clients[i], s.servers[si].id, err);
  }

  /** An event of a remote server does this to every client, and to the server. */
  lemma ClientsAreTold(s: State, si: nat, e: Event, i: nat)
    requires Inv(s) && NoErr(s.servers) && si < |s.servers| && !s.servers[si].isLocal && OfServer(e, s.servers[si].id)
    requires i < |s.clients|
    ensures |Step(s, e).clients| == |s.clients|
    ensures Step(s, e).clients[i] == ClientAfter(s.servers[si], e, s.clients[i])
  {
    hide InvBut, OkClient, DiedClient, OkAll, DiedAll, Forward, UnsolAfterOk;
    hide AllFail, FirstFails, FirstIsReady, FirstMessage;
    var v, c := s.servers[si], s.clients[i];
    ServerAt(s, si);
    ClientIsOk(s, i);
    if v.status != ReadyState {
      NotReadyNoneValid(s, si, 0);
      NoneValidIs(s.clients, v.id, i);
    }
    match e {
      case Connected(_, res) =>
        if v.status == Connecting && res != 0 { FailedIs(s, si, res, i); }
      case OpenAnswer(_, res) =>
        if v.status == Opening && res != 0 { FailedIs(s, si, res, i); }
      case InitiateAnswer(_, res) =>
        if v.status == Opening {
          if res != 0 { FailedIs(s, si, res, i); } else { OkIs(c, v.id, 0); }
        }
      case CloseAnswer(_, reconnect) =>
        if v.refcount == 0 {
          IdleNothing(s, si, i, v.err);
        } else if v.status == Disconnecting && reconnect.Refusal? {
          OkIs(c, v.id, reconnect.code);
        }
      case ReadFails(_, errno) => DiedIs(c, v.id, if v.status == Opening then errno else 0);
      case WriteFails(_) => DiedIs(c, v.id, 0);
      case UnsolMessage(_) => MessageIs(s, si, i);
    }
  }

  lemma NoneValidIs(clients: seq<Client>, g: int, i: nat)
    requires NoneValid(clients, g) && i < |clients|
    ensures forall x :: x in clients[i].infos && x.globalId == g ==> !x.valid
  {
  }

  lemma ServerMoves(s: State, si: nat, e: Event)
    requires Inv(s) && si < |s.servers| && !s.servers[si].isLocal && OfServer(e, s.servers[si].id)
    ensures var t, v := Step(s, e), s.servers[si];
      && t.lastId == s.lastId
      && if Dies(v, e) then t.servers == s.servers[..si] + s.servers[si + 1..]
         else
           && |t.servers| == |s.servers|
           && t.servers == s.servers[si := v.(status := NextStatus(v, e), unsol := t.servers[si].unsol)]
           && (!Wakes(v, e) ==> t.servers[si].unsol == v.unsol)
           && (Wakes(v, e) ==>
                forall u :: u in t.servers[si].unsol <==> u in v.unsol || WantsAndHolds(s.clients, u, v.id))
  {
    hide InvBut, OkAll, DiedAll, Forward, UnsolAfterOk, WantsAndHolds;
    ServerAt(s, si);
    if Wakes(s.servers[si], e) {
      KeepInitiated(s, si);
    }
  }

  /** Events of built-in servers and of servers that are gone change nothing. */
  lemma OthersChangeNothing(s: State, e: Event, g: int)
    requires Inv(s) && OfServer(e, g)
    requires forall i :: 0 <= i < |s.servers| && s.servers[i].id == g ==> s.servers[i].isLocal
    ensures Step(s, e) == s
  {
    hide InvBut;
  }

  /** In every run, a message of a ready server reaches exactly the clients on its list,
      each once and under its first handle, and does nothing else; a message of a server
      that is not ready does nothing. */
  lemma UnsolReachesExactly(es: seq<Event>, si: nat)
    requires si < |Run(es).servers| && !Run(es).servers[si].isLocal
    ensures var s := Run(es);
      var v := s.servers[si];
      var t := Run(es + [UnsolMessage(v.id)]);
      && t.servers == s.servers && t.lastId == s.lastId && |t.clients| == |s.clients|
      && forall i :: 0 <= i < |s.clients| ==>
           var c := s.clients[i];
           if v.status == ReadyState && c.id in v.unsol then
             var k := IndexOfGlobal(c.infos, v.id);
             k < |c.infos| && t.clients[i] == c.(inbox := c.inbox + [Unsol(c.infos[k].localId)])
           else t.clients[i] == c
  {
    hide Run, Step, InvBut, IndexOfGlobal;
    var s, e := Run(es), UnsolMessage(Run(es).servers[si].id);
    RunInv(es);
    RunNoErr(es);
    RunSnoc(es, e);
    ServerMoves(s, si, e);
    if s.clients == [] {
      NobodyThere(s, si);
    } else {
      ClientsAreTold(s, si, e, 0);
    }
    forall i | 0 <= i < |s.clients|
      ensures |Step(s, e).clients| == |s.clients|
      ensures Step(s, e).clients[i] == ClientAfter(s.servers[si], e, s.clients[i])
      ensures s.clients[i].id in s.servers[si].unsol ==>
        IndexOfGlobal(s.clients[i].infos, s.servers[si].id) < |s.clients[i].infos|
    {
      ClientsAreTold(s, si, e, i);
      if s.clients[i].id in s.servers[si].unsol {
        ListedHolds(s, si, i);
      }
    }
  }

  lemma NobodyThere(s: State, si: nat)
    requires Inv(s) && si < |s.servers| && !s.servers[si].isLocal && s.clients == []
    ensures Step(s, UnsolMessage(s.servers[si].id)).clients == []
  {
    hide InvBut;
    ServerAt(s, si);
    UnsolOnce(s, si);
    ForwardReachesExactly(s.clients, s.servers[si].id, s.servers[si].unsol);
  }

  lemma ListedHolds(s: State, si: nat, i: nat)
    requires Inv(s) && si < |s.servers| && i < |s.clients| && s.clients[i].id in s.servers[si].unsol
    ensures IndexOfGlobal(s.clients[i].infos, s.servers[si].id) < |s.clients[i].infos|
  {
    hide Handles, HandlesIn, ServersOk, IdleOk, CountsOk, ClientOk, NoDup;
    IdsPositive(s, 0);
    assert Holds(s.clients, s.clients[i].id, s.servers[si].id);
    HandlesZero(s.clients[i].infos, s.servers[si].id);
  }
}
