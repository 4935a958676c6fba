/** Which of the broker's notes reach a client through its output queue. */
module BrokerQueues {
  import opened Util
  import opened HandleTable
  import opened Broker
  import opened BrokerSteps
  import opened BrokerRuns
  import opened BrokerBeyond
  import opened BrokerNotes
  import Q = MessageList

  /*
    Every note is put into the client's output queue, with the messages of others for that
    client, and deleted when the queue refuses it; nobody is told.
  */

  /** What concerns the output queue of one client: a turn of the broker, a message from
      elsewhere that is passed on to the client, and one that has been written. */
  datatype Act = Turn(e: Event) | Passed | Written

  datatype Message = Told(note: Note) | Foreign

  function Events(acts: seq<Act>): seq<Event> {
    if acts == [] then []
    else
      var front, a := Events(acts[..|acts| - 1]), acts[|acts| - 1];
      if a.Turn? then front + [a.e] else front
  }

  // ---- notes are only added ----

  ghost predicate Grows(a: seq<Client>, b: seq<Client>) {
    |a| == |b| && forall i :: 0 <= i < |a| ==> b[i].id == a[i].id && a[i].inbox <= b[i].inbox
  }

  lemma GrowsInbox(s: State, t: State, u: int)
    requires Grows(s.clients, t.clients)
    ensures Inbox(s, u) <= Inbox(t, u) && (Present(t, u) <==> Present(s, u))
  {
    SameIndex(s.clients, t.clients, u);
  }

  lemma DeleteGrows(s: State, si: nat)
    requires AllOk(s.clients) && si < |s.servers|
    ensures Grows(s.clients, DeleteServer(s, si).clients)
  {
    hide ClientOk, DiedClient, HandlesIn;
    var v := s.servers[si];
    forall i | 0 <= i < |s.clients| {
      DiedClientKeeps(s.clients[i], v.id, v.err);
    }
  }

  lemma AnswerGrows(clients: seq<Client>, id: int, res: int)
    requires AllOk(clients)
    ensures Grows(clients, OkAll(clients, id, res)) && AllOk(OkAll(clients, id, res))
  {
    hide ClientOk, OkClient, HandlesIn;
    forall i | 0 <= i < |clients|
      ensures clients[i].inbox <= OkClient(clients[i], id, res).inbox && ClientOk(OkClient(clients[i], id, res)) &&
        OkClient(clients[i], id, res).id == clients[i].id
    {
      OkClientKeeps(clients[i], id, res);
    }
  }

  lemma GrowsTrans(a: seq<Client>, b: seq<Client>, c: seq<Client>)
    requires Grows(a, b) && Grows(b, c)
    ensures Grows(a, c)
  {
    forall i | 0 <= i < |a| ensures a[i].inbox <= c[i].inbox {
      assert a[i].inbox <= b[i].inbox <= c[i].inbox;
    }
  }

  lemma OpenFailedGrows(s: State, si: nat, res: code)
    requires AllOk(s.clients) && si < |s.servers|
    ensures Grows(s.clients, OpenFailed(s, si, res).clients)
  {
    hide Grows, AllOk, DeleteServer;
    var after := OkAll(s.clients, s.servers[si].id, res);
    AnswerGrows(s.clients, s.servers[si].id, res);
    DeleteGrows(s.(clients := after), si);
    GrowsTrans(s.clients, after, OpenFailed(s, si, res).clients);
  }

  lemma ForwardGrows(s: State, si: nat)
    requires Inv(s) && si < |s.servers|
    ensures Grows(s.clients, Forward(s.clients, s.servers[si].id, s.servers[si].unsol))
  {
    hide Local;
    UnsolOnce(s, si);
    ForwardReachesExactly(s.clients, s.servers[si].id, s.servers[si].unsol);
  }

  lemma ServerGrows(s: State, si: nat, e: Event)
    requires Inv(s) && si < |s.servers| && !s.servers[si].isLocal
    ensures Grows(s.clients, ServerStep(s, si, e).clients)
  {
    hide InvBut, AllOk, OpenFailed, DeleteServer, OkAll, Forward;
    var v := s.servers[si];
    InvAllOk(s, 0);
    match e {
      case Connected(_, res) => if res != 0 { OpenFailedGrows(s, si, res); }
      case OpenAnswer(_, res) => if res != 0 { OpenFailedGrows(s, si, res); }
      case InitiateAnswer(_, res) =>
        if res != 0 { OpenFailedGrows(s, si, res); } else { AnswerGrows(s.clients, v.id, 0); }
      case CloseAnswer(_, reconnect) =>
        DeleteGrows(s, si);
        if reconnect.Refusal? { AnswerGrows(s.clients, v.id, reconnect.code); }
      case ReadFails(_, errno) =>
        DeleteGrows(s, si);
        DeleteGrows(s.(servers := s.servers[si := v.(err := errno)]), si);
      case WriteFails(_) => DeleteGrows(s, si);
      case UnsolMessage(_) => ForwardGrows(s, si);
      case _ =>
    }
  }

  lemma CloseGrows(s: State, ci: nat, h: int)
    requires Inv(s) && ci < |s.clients|
    ensures Grows(s.clients, CloseVed(s, ci, h).clients)
  {
    hide InvBut, ReleaseServer, FreeHandle, Handles;
    var c := s.clients[ci];
    var si := IndexOf(s.servers, Global(c.infos, h));
    if Global(c.infos, h) != NO_ID && si < |s.servers| {
      ClosingCounts(s, ci, h, si);
      ReleaseKeepsClients(s.(clients := s.clients[ci := Closing(c, h)]), si, c.id);
    }
  }

  lemma OpenGrows(s: State, ci: nat, name: string, attempt: Attempt)
    requires ci < |s.clients|
    ensures Grows(s.clients, OpenVed(s, ci, name, attempt).clients)
  {
    hide SetUnsolList;
  }

  lemma SetUnsolGrows(s: State, ci: nat, h: int, val: int)
    requires ci < |s.clients|
    ensures Grows(s.clients, SetUnsolicited(s, ci, h, val).clients)
  {
    hide SetUnsolList;
  }

  lemma AbsentIs(s: State, u: int)
    requires !Present(s, u)
    ensures Inbox(s, u) == []
  {
  }

  /** A client that stays keeps its notes; one that leaves has none. */
  lemma StepGrows(s: State, e: Event, u: int)
    requires Inv(s)
    ensures e != Leave(u) ==> Inbox(s, u) <= Inbox(Step(s, e), u) && (Present(s, u) ==> Present(Step(s, e), u))
    ensures e == Leave(u) ==> Inbox(Step(s, e), u) == [] && !Present(Step(s, e), u)
  {
    hide InvBut, Inbox, Grows, LeaveClient, OpenVed, CloseVed, SetUnsolicited, ServerStep;
    match e {
      case Join(id, lastLocal, defUnsol) =>
        if ClientIndex(s.clients, id) == |s.clients| { JoinInbox(s, Client(id, lastLocal, [], defUnsol, []), u); }
      case Leave(id) =>
        var ci := ClientIndex(s.clients, id);
        if ci < |s.clients| { LeaveInbox(s, ci, u); } else { AbsentIs(s, id); }
      case Open(id, name, attempt) =>
        var ci := ClientIndex(s.clients, id);
        if ci < |s.clients| {
          OpenGrows(s, ci, name, attempt);
          GrowsInbox(s, OpenVed(s, ci, name, attempt), u);
        }
      case Close(id, h) =>
        var ci := ClientIndex(s.clients, id);
        if ci < |s.clients| {
          CloseGrows(s, ci, h);
          GrowsInbox(s, CloseVed(s, ci, h), u);
        }
      case SetUnsol(id, h, val) =>
        var ci := ClientIndex(s.clients, id);
        if ci < |s.clients| {
          SetUnsolGrows(s, ci, h, val);
          GrowsInbox(s, SetUnsolicited(s, ci, h, val), u);
        }
      case _ =>
        var si := IndexOf(s.servers, e.server);
        if si < |s.servers| && !s.servers[si].isLocal {
          ServerGrows(s, si, e);
          GrowsInbox(s, ServerStep(s, si, e), u);
        }
    }
  }

  // ---- what is put into the queue ----

  /** What the event sends to client u. */
  function News(s: State, e: Event, u: int): seq<Note> {
    var a, b := Inbox(s, u), Inbox(Step(s, e), u);
    if |a| <= |b| then b[|a|..] else []
  }

  function Puts(notes: seq<Note>): seq<Q.Op<Message>> {
    if notes == [] then [] else Puts(notes[..|notes| - 1]) + [Q.Put(Told(notes[|notes| - 1]))]
  }

  /** What happens to the queue of client u, which is new when the client joins. */
  function Ops(acts: seq<Act>, u: int): seq<Q.Op<Message>> {
    if acts == [] then []
    else
      var front := acts[..|acts| - 1];
      var s, before := Run(Events(front)), Ops(front, u);
      match acts[|acts| - 1]
      case Turn(e) => if e == Leave(u) then [] else before + Puts(News(s, e, u))
      case Passed => if Present(s, u) then before + [Q.Put(Foreign)] else before
      case Written => if Present(s, u) then before + [Q.Take] else before
  }

  /** The notes among what is put. */
  function Notes(ops: seq<Q.Op<Message>>): seq<Note> {
    if ops == [] then []
    else
      var front, op := Notes(ops[..|ops| - 1]), ops[|ops| - 1];
      if op.Put? && op.x.Told? then front + [op.x.note] else front
  }

  lemma NotesSnoc(ops: seq<Q.Op<Message>>, op: Q.Op<Message>)
    ensures Notes(ops + [op]) == Notes(ops) + if op.Put? && op.x.Told? then [op.x.note] else []
  {
    assert (ops + [op])[..|ops|] == ops;
  }

  lemma {:induction false} NotesPuts(ops: seq<Q.Op<Message>>, notes: seq<Note>)
    ensures Notes(ops + Puts(notes)) == Notes(ops) + notes
  {
    if notes == [] {
      assert ops + Puts(notes) == ops;
    } else {
      var m := |notes| - 1;
      NotesPuts(ops, notes[..m]);
      NotesSnoc(ops + Puts(notes[..m]), Q.Put(Told(notes[m])));
      assert ops + Puts(notes) == ops + Puts(notes[..m]) + [Q.Put(Told(notes[m]))];
      assert notes == notes[..m] + [notes[m]];
    }
  }

  /** In every run the notes put into a client's queue are those the broker sent it. */
  lemma {:induction false} PutsAreInbox(acts: seq<Act>, u: int)
    ensures Notes(Ops(acts, u)) == Inbox(Run(Events(acts)), u)
  {
    hide Notes, Inbox, Present, Run, News, Puts;
    if acts == [] {
      NothingPut(u);
    } else {
      var front, a := acts[..|acts| - 1], acts[|acts| - 1];
      var before := Ops(front, u);
      PutsAreInbox(front, u);
      NotesSnoc(before, Q.Put(Foreign));
      NotesSnoc(before, Q.Take);
      if a.Turn? {
        NothingPut(u);
        TurnPuts(Events(front), a.e, u, before);
      }
    }
  }

  lemma TurnPuts(es: seq<Event>, e: Event, u: int, before: seq<Q.Op<Message>>)
    requires Notes(before) == Inbox(Run(es), u)
    ensures e != Leave(u) ==> Notes(before + Puts(News(Run(es), e, u))) == Inbox(Run(es + [e]), u)
    ensures e == Leave(u) ==> Inbox(Run(es + [e]), u) == []
  {
    hide Notes, Inbox, Run, Step, Puts;
    RunInv(es);
    RunSnoc(es, e);
    StepGrows(Run(es), e, u);
    NotesPuts(before, News(Run(es), e, u));
  }

  lemma NothingPut(u: int)
    ensures Notes([]) == [] && Inbox(Run([]), u) == []
  {
  }

  // ---- what reaches the client ----

  /** The queue takes another message. */
  predicate HasRoom(low: int, high: int, q: Q.Queue<Message>) {
    if q.stopped then |q.items| <= low else |q.items| != high
  }

  lemma AcceptedLast(low: int, high: int, ops: seq<Q.Op<Message>>, x: Message)
    requires ops != []
    ensures var m := |ops| - 1;
      x in Q.DoAll(low, high, ops).accepted <==>
        x in Q.DoAll(low, high, ops[..m]).accepted ||
        (ops[m] == Q.Put(x) && HasRoom(low, high, Q.DoAll(low, high, ops[..m]).q))
  {
  }

  lemma {:induction false} AcceptedExactly(low: int, high: int, ops: seq<Q.Op<Message>>, x: Message)
    ensures x in Q.DoAll(low, high, ops).accepted <==>
      exists k {:trigger ops[k]} ::
        0 <= k < |ops| && ops[k] == Q.Put(x) && HasRoom(low, high, Q.DoAll(low, high, ops[..k]).q)
  {
    hide Q.DoAll, HasRoom;
    if ops == [] {
      NoneAccepted(low, high, x);
    } else {
      var m := |ops| - 1;
      var front := ops[..m];
      AcceptedLast(low, high, ops, x);
      AcceptedExactly(low, high, front, x);
      assert forall k :: 0 <= k < m ==> front[k] == ops[k] && front[..k] == ops[..k];
    }
  }

  lemma NoneAccepted(low: int, high: int, x: Message)
    ensures Q.DoAll<Message>(low, high, []).accepted == []
  {
  }

  lemma {:induction false} PutIsNoted(ops: seq<Q.Op<Message>>, n: Note)
    ensures n in Notes(ops) <==> exists k :: 0 <= k < |ops| && ops[k] == Q.Put(Told(n))
  {
    if ops != [] {
      var front := ops[..|ops| - 1];
      PutIsNoted(front, n);
      assert forall k :: 0 <= k < |front| ==> front[k] == ops[k];
    }
  }

  lemma {:induction false} PutOnce(ops: seq<Q.Op<Message>>, n: Note, k: nat)
    requires IsCompletion(n) && k < |ops| && ops[k] == Q.Put(Told(n))
    ensures Completions(Notes(ops), n.handle) >= 1
    ensures Completions(Notes(ops), n.handle) == 1 ==>
      forall j :: 0 <= j < |ops| && ops[j] == Q.Put(Told(n)) ==> j == k
  {
    hide Completions, Promises, Closes;
    var m := |ops| - 1;
    var front := ops[..m];
    assert forall j :: 0 <= j < m ==> front[j] == ops[j];
    if ops[m].Put? && ops[m].x.Told? {
      TellCounts(Notes(front), ops[m].x.note, n.handle);
    }
    if k < m {
      PutOnce(front, n, k);
    } else if j :| 0 <= j < m && ops[j] == Q.Put(Told(n)) {
      PutOnce(front, n, j);
    }
  }

  lemma OneOfAKind(es: seq<Event>, u: int, h: int)
    ensures Completions(Inbox(Run(es), u), h) <= 1
  {
    hide Run;
    var ci := ClientIndex(Run(es).clients, u);
    if ci < |Run(es).clients| {
      AtMostOneCompletion(es, ci, h);
    }
  }

  /** A completion that the broker sends is put into the client's queue once, and reaches
      the client exactly if there was room at that moment: it is then written or still
      queued, and is otherwise lost. */
  lemma CompletionReachesIff(low: int, high: nat, acts: seq<Act>, u: int, n: Note, k: nat)
    requires low < high && IsCompletion(n) && k < |Ops(acts, u)| && Ops(acts, u)[k] == Q.Put(Told(n))
    ensures var ops := Ops(acts, u);
      var r := Q.DoAll(low, high, ops);
      (Told(n) in r.taken + r.q.items <==> HasRoom(low, high, Q.DoAll(low, high, ops[..k]).q)) &&
      forall j :: 0 <= j < |ops| && ops[j] == Q.Put(Told(n)) ==> j == k
  {
    hide Q.DoAll, HasRoom, Ops, Notes, Run, Inbox, Completions;
    var ops := Ops(acts, u);
    PutsAreInbox(acts, u);
    OneOfAKind(Events(acts), u, n.handle);
    PutOnce(ops, n, k);
    AcceptedExactly(low, high, ops, Told(n));
    Q.QueueInvariant(low, high, ops);
  }

  /** And those that the broker sends are those that are put. */
  lemma SentIsPut(acts: seq<Act>, u: int, n: Note)
    ensures n in Inbox(Run(Events(acts)), u) <==>
      exists k :: 0 <= k < |Ops(acts, u)| && Ops(acts, u)[k] == Q.Put(Told(n))
  {
    PutsAreInbox(acts, u);
    PutIsNoted(Ops(acts, u), n);
  }

  // ---- a completion that is lost ----

  /** A client opens a server and is sent so much else that its queue is full when the
      server becomes ready. */
  function Swamped(n: nat): seq<Act> {
    if n == 0 then [Turn(Join(7, 0, false)), Turn(Open(7, "ved", Started)), Turn(Connected(1, 0))]
    else Swamped(n - 1) + [Passed]
  }

  function Others(n: nat): seq<Q.Op<Message>> {
    if n == 0 then [Q.Put(Told(InProgress(1)))] else Others(n - 1) + [Q.Put(Foreign)]
  }

  const OPENING: State := State(1, [VED.(status := Opening)], [ONCE])

  lemma TurnLast(acts: seq<Act>, e: Event, u: int)
    ensures Events(acts + [Turn(e)]) == Events(acts) + [e]
    ensures Run(Events(acts + [Turn(e)])) == Step(Run(Events(acts)), e)
    ensures e != Leave(u) ==> Ops(acts + [Turn(e)], u) == Ops(acts, u) + Puts(News(Run(Events(acts)), e, u))
  {
    hide Run, Step, News, Puts;
    assert (acts + [Turn(e)])[..|acts|] == acts;
    RunSnoc(Events(acts), e);
  }

  lemma PassedLast(acts: seq<Act>, u: int)
    requires Present(Run(Events(acts)), u)
    ensures Events(acts + [Passed]) == Events(acts) && Ops(acts + [Passed], u) == Ops(acts, u) + [Q.Put(Foreign)]
  {
    hide Run, Step;
    assert (acts + [Passed])[..|acts|] == acts;
  }

  lemma OneNew(s: State, e: Event, u: int, n: Note)
    requires Inbox(Step(s, e), u) == Inbox(s, u) + [n]
    ensures Puts(News(s, e, u)) == [Q.Put(Told(n))]
  {
    hide Step, Inbox;
    assert News(s, e, u) == [n];
    assert [n][..0] == [];
  }

  lemma NoneNewFor(s: State, e: Event, u: int)
    requires Inbox(Step(s, e), u) == Inbox(s, u)
    ensures Puts(News(s, e, u)) == []
  {
    hide Step, Inbox;
  }

  lemma OpensQuietly()
    ensures Run(Events(Swamped(0))) == OPENING && Ops(Swamped(0), 7) == [Q.Put(Told(InProgress(1)))]
  {
    hide Run, Step, News, Puts, Ops, Events;
    var a, b, c := Join(7, 0, false), Open(7, "ved", Started), Connected(1, 0);
    assert Swamped(0) == [] + [Turn(a)] + [Turn(b)] + [Turn(c)];
    TurnLast([], a, 7);
    TurnLast([] + [Turn(a)], b, 7);
    TurnLast([] + [Turn(a)] + [Turn(b)], c, 7);
    NoActs();
    var joined := State(0, [], [Client(7, 0, [], false, [])]);
    JoinsQuietly(joined);
    FirstOpen(joined);
    OneNew(joined, b, 7, InProgress(1));
    NoneNewFor(START, a, 7);
    NoneNewFor(State(1, [VED], [ONCE]), c, 7);
  }

  lemma NoActs()
    ensures Run(Events([])) == START && Ops([], 7) == [] && Inbox(START, 7) == []
  {
  }

  lemma JoinsQuietly(joined: State)
    requires joined == State(0, [], [Client(7, 0, [], false, [])])
    ensures Step(START, Join(7, 0, false)) == joined
    ensures Step(State(1, [VED], [ONCE]), Connected(1, 0)) == OPENING
    ensures Inbox(joined, 7) == []
  {
  }

  lemma {:induction false} SwampedIs(n: nat)
    ensures Run(Events(Swamped(n))) == OPENING && Ops(Swamped(n), 7) == Others(n)
  {
    hide Run, Ops, Events;
    if n == 0 {
      OpensQuietly();
    } else {
      SwampedIs(n - 1);
      PassedLast(Swamped(n - 1), 7);
    }
  }

  lemma {:induction false} OthersFill(low: int, high: nat, n: nat)
    requires n < high
    ensures var r := Q.DoAll(low, high, Others(n));
      |r.q.items| == n + 1 && !r.q.stopped && Told(Ready(1)) !in r.accepted
  {
    if n > 0 {
      OthersFill(low, high, n - 1);
      assert Others(n)[..|Others(n)| - 1] == Others(n - 1);
    } else {
      assert Others(0)[..0] == [];
    }
  }

  /** Whatever the marks are: the server is ready, the handle is valid and the broker has
      sent the completion, but the client will never see it. */
  lemma CompletionIsLost(low: int, high: nat)
    requires low < high && high > 0
    ensures var acts := Swamped(high - 1) + [Turn(InitiateAnswer(1, 0))];
      var s, r := Run(Events(acts)), Q.DoAll(low, high, Ops(acts, 7));
      IsReady(s.servers, 1) && Ready(1) in Inbox(s, 7) && Infos(s, 7) == [Info(1, 1, true)] &&
      Told(Ready(1)) !in r.taken + r.q.items
  {
    hide Run, Ops, Events, Q.DoAll, Step, News, Puts;
    var before := Swamped(high - 1);
    var e := InitiateAnswer(1, 0);
    SwampedIs(high - 1);
    OthersFill(low, high, high - 1);
    TurnLast(before, e, 7);
    BecomesReadyOnce();
    OneNew(OPENING, e, 7, Ready(1));
    var ops := Ops(before + [Turn(e)], 7);
    assert ops[..|ops| - 1] == Others(high - 1);
    AcceptedLast(low, high, ops, Told(Ready(1)));
    Q.QueueInvariant(low, high, ops);
  }

  lemma BecomesReadyOnce()
    ensures var t := Step(OPENING, InitiateAnswer(1, 0));
      IsReady(t.servers, 1) && Infos(t, 7) == [Info(1, 1, true)] && Inbox(t, 7) == Inbox(OPENING, 7) + [Ready(1)]
  {
    var ready := Client(7, 1, [Info(1, 1, true)], false, [InProgress(1), Ready(1)]);
    assert OkClient(ONCE, 1, 0) == ready by {
      assert IndexOfGlobal(ONCE.infos, 1) == 0 && IndexOfLocal(ONCE.infos, 1) == 0;
    }
    assert OkAll([ONCE], 1, 0) == [ready];
    assert UnsolAfterOk([], [ONCE], 1) == [];
    var t := Step(OPENING, InitiateAnswer(1, 0));
    assert t.clients == [ready] && t.servers[0].id == 1 && t.servers[0].status.ReadyState?;
  }
}
