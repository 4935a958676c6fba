/**
  A client's handle table (C_server_infos of commu/commu_server.cc) and the ledger
  of what a client has been told about each handle.
*/
module HandleTable {
  import opened Util

  /** A handle: the client's local number, the server's identifier, and whether the
      server has been reported ready for this handle. */
  datatype Info = Info(localId: int, globalId: int, valid: bool)

  const NO_ID: int := -1

  function IndexOfLocal(infos: seq<Info>, l: int): (i: nat)
    ensures i <= |infos| && (i < |infos| ==> infos[i].localId == l)
    ensures forall j :: 0 <= j < i ==> infos[j].localId != l
  {
    if infos == [] || infos[0].localId == l then 0 else 1 + IndexOfLocal(infos[1..], l)
  }

  function IndexOfGlobal(infos: seq<Info>, g: int): (i: nat)
    ensures i <= |infos| && (i < |infos| ==> infos[i].globalId == g)
    ensures forall j :: 0 <= j < i ==> infos[j].globalId != g
  {
    if infos == [] || infos[0].globalId == g then 0 else 1 + IndexOfGlobal(infos[1..], g)
  }

  /** The entry with this local number. */
  function Find(infos: seq<Info>, l: int): Option<Info> {
    var i := IndexOfLocal(infos, l);
    if i < |infos| then Some(infos[i]) else None
  }

  /** The local number of the first handle on server g. */
  function Local(infos: seq<Info>, g: int): int {
    var i := IndexOfGlobal(infos, g);
    if i < |infos| then infos[i].localId else NO_ID
  }

  function Global(infos: seq<Info>, l: int): int {
    var i := IndexOfLocal(infos, l);
    if i < |infos| then infos[i].globalId else NO_ID
  }

  function SetValid(infos: seq<Info>, l: int, v: bool): seq<Info> {
    var i := IndexOfLocal(infos, l);
    if i < |infos| then infos[i := infos[i].(valid := v)] else infos
  }

  function FreeHandle(infos: seq<Info>, l: int): seq<Info> {
    var i := IndexOfLocal(infos, l);
    if i < |infos| then infos[..i] + infos[i + 1..] else infos
  }

  /** How many handles the table has on server g. */
  function HandlesIn(infos: seq<Info>, g: int): nat {
    if infos == [] then 0 else (if infos[0].globalId == g then 1 else 0) + HandlesIn(infos[1..], g)
  }

  predicate DistinctLocals(infos: seq<Info>) {
    forall i, j :: 0 <= i < j < |infos| ==> infos[i].localId != infos[j].localId
  }

  // ---- lookups after changes ----

  lemma FindIs(infos: seq<Info>, i: nat)
    requires DistinctLocals(infos) && i < |infos|
    ensures IndexOfLocal(infos, infos[i].localId) == i
  {
  }

  /** The entry is found exactly when some index has it. */
  lemma FindExactly(infos: seq<Info>, l: int)
    ensures Find(infos, l).Some? <==> exists i :: 0 <= i < |infos| && infos[i].localId == l
  {
  }

  lemma FindFree(infos: seq<Info>, l: int, h: int)
    requires DistinctLocals(infos)
    ensures Find(FreeHandle(infos, l), h) == if h == l then None else Find(infos, h)
    ensures DistinctLocals(FreeHandle(infos, l))
  {
    var i, k := IndexOfLocal(infos, l), IndexOfLocal(infos, h);
    var after := FreeHandle(infos, l);
    if h != l && k < |infos| && i < |infos| {
      var k' := if k < i then k else k - 1;
      assert after[k'] == infos[k];
      FindIs(after, k');
    } else {
      assert forall j :: 0 <= j < |after| ==> after[j] in infos;
    }
  }

  lemma FindSetValid(infos: seq<Info>, l: int, v: bool, h: int)
    requires DistinctLocals(infos)
    ensures var found := Find(infos, h);
      Find(SetValid(infos, l, v), h) == if h == l && found.Some? then Some(found.value.(valid := v)) else found
    ensures DistinctLocals(SetValid(infos, l, v))
  {
    var k := IndexOfLocal(infos, h);
    var after := SetValid(infos, l, v);
    assert forall j :: 0 <= j < |infos| ==> after[j].localId == infos[j].localId;
    if k < |infos| {
      FindIs(after, k);
    }
  }

  lemma {:induction false} FindSnoc(infos: seq<Info>, new_: Info, h: int)
    requires Find(infos, new_.localId).None?
    ensures Find(infos + [new_], h) == if h == new_.localId then Some(new_) else Find(infos, h)
  {
    var all := infos + [new_];
    var k, k' := IndexOfLocal(infos, h), IndexOfLocal(all, h);
    assert all[|infos|] == new_ && forall j :: 0 <= j < |infos| ==> all[j] == infos[j];
  }

  lemma {:induction false} HandlesConcat(a: seq<Info>, b: seq<Info>, g: int)
    ensures HandlesIn(a + b, g) == HandlesIn(a, g) + HandlesIn(b, g)
  {
    if a == [] {
      assert a + b == b;
    } else {
      HandlesConcat(a[1..], b, g);
      assert (a + b)[1..] == a[1..] + b;
    }
  }

  lemma HandlesOne(info: Info, g: int)
    ensures HandlesIn([info], g) == if info.globalId == g then 1 else 0
  {
  }

  lemma HandlesAt(infos: seq<Info>, i: nat, g: int)
    requires i < |infos|
    ensures HandlesIn(infos, g)
         == HandlesIn(infos[..i], g) + (if infos[i].globalId == g then 1 else 0) + HandlesIn(infos[i + 1..], g)
  {
    hide HandlesIn;
    assert infos == infos[..i] + infos[i..] && infos[i..] == [infos[i]] + infos[i + 1..];
    HandlesConcat(infos[..i], infos[i..], g);
    HandlesConcat([infos[i]], infos[i + 1..], g);
    HandlesOne(infos[i], g);
  }

  lemma HandlesFree(infos: seq<Info>, l: int, g: int)
    ensures HandlesIn(FreeHandle(infos, l), g)
         == HandlesIn(infos, g) - (if Find(infos, l).Some? && Find(infos, l).value.globalId == g then 1 else 0)
  {
    hide HandlesIn;
    var i := IndexOfLocal(infos, l);
    if i < |infos| {
      HandlesAt(infos, i, g);
      HandlesConcat(infos[..i], infos[i + 1..], g);
    }
  }

  lemma HandlesSetValid(infos: seq<Info>, l: int, v: bool, g: int)
    ensures HandlesIn(SetValid(infos, l, v), g) == HandlesIn(infos, g)
  {
    hide HandlesIn;
    var i := IndexOfLocal(infos, l);
    if i < |infos| {
      var after := SetValid(infos, l, v);
      HandlesAt(infos, i, g);
      HandlesAt(after, i, g);
      assert after[..i] == infos[..i] && after[i + 1..] == infos[i + 1..];
    }
  }

  lemma HandlesAfter(infos: seq<Info>, l: int)
    requires Find(infos, l).Some?
    ensures var g0 := Find(infos, l).value.globalId;
      && (forall g :: g != g0 ==> HandlesIn(FreeHandle(infos, l), g) == HandlesIn(infos, g))
      && HandlesIn(FreeHandle(infos, l), g0) == HandlesIn(infos, g0) - 1
      && (forall g :: HandlesIn(SetValid(infos, l, true), g) == HandlesIn(infos, g))
  {
    hide HandlesIn, FreeHandle, SetValid, Find;
    var g0 := Find(infos, l).value.globalId;
    forall g | g != g0 ensures HandlesIn(FreeHandle(infos, l), g) == HandlesIn(infos, g) {
      HandlesFree(infos, l, g);
    }
    HandlesFree(infos, l, g0);
    forall g ensures HandlesIn(SetValid(infos, l, true), g) == HandlesIn(infos, g) {
      HandlesSetValid(infos, l, true, g);
    }
  }

  lemma {:induction false} HandlesZero(infos: seq<Info>, g: int)
    ensures HandlesIn(infos, g) == 0 <==> IndexOfGlobal(infos, g) == |infos|
    ensures HandlesIn(infos, g) == 0 <==> forall i :: 0 <= i < |infos| ==> infos[i].globalId != g
  {
    if infos != [] {
      HandlesZero(infos[1..], g);
      assert forall i :: 1 <= i < |infos| ==> infos[i] == infos[1..][i - 1];
    }
  }

  /** A table with at most one handle per server. */
  ghost predicate Single(infos: seq<Info>) {
    forall g :: HandlesIn(infos, g) <= 1
  }

  lemma SingleFirst(infos: seq<Info>, i: nat)
    requires i < |infos| && HandlesIn(infos, infos[i].globalId) <= 1
    ensures IndexOfGlobal(infos, infos[i].globalId) == i
  {
    var g := infos[i].globalId;
    HandlesAt(infos, i, g);
    HandlesZero(infos[..i], g);
    assert forall j :: 0 <= j < i ==> infos[..i][j] == infos[j];
  }

  // ---- the ledger ----

  /** What the broker queues for a client. */
  datatype Note =
    | InProgress(handle: int)          // reply to OpenVED: the completion comes later
    | Opened(handle: int)              // reply to OpenVED: the server is ready
    | Refused(res: int)                // reply to OpenVED: no handle
    | Ready(handle: int)               // completion: the server is ready now
    | Failed(handle: int, res: int)    // completion: the server is gone
    | Disconnected(handle: int)        // the server of an open handle died
    | Closed(handle: int, ok: bool)    // reply to CloseVED
    | Unsol(handle: int)               // a server's unsolicited message
    | UnsolSet(ok: bool)               // reply to SetUnsolicited

  datatype Client = Client(id: int, lastLocal: int, infos: seq<Info>, defUnsol: bool, inbox: seq<Note>)

  function Tell(c: Client, n: Note): Client {
    c.(inbox := c.inbox + [n])
  }

  /** Replies that promised a completion for h. */
  function Promises(inbox: seq<Note>, h: int): nat {
    if inbox == [] then 0
    else Promises(inbox[..|inbox| - 1], h) + One(inbox[|inbox| - 1] == InProgress(h))
  }

  /** Completions sent for h. */
  function Completions(inbox: seq<Note>, h: int): nat {
    if inbox == [] then 0
    else
      var n := inbox[|inbox| - 1];
      Completions(inbox[..|inbox| - 1], h) + One((n.Ready? || n.Failed?) && n.handle == h)
  }

  /** Successful closes of h by the client. */
  function Closes(inbox: seq<Note>, h: int): nat {
    if inbox == [] then 0
    else Closes(inbox[..|inbox| - 1], h) + One(inbox[|inbox| - 1] == Closed(h, true))
  }

  lemma TellCounts(inbox: seq<Note>, n: Note, h: int)
    ensures Promises(inbox + [n], h) == Promises(inbox, h) + One(n == InProgress(h))
    ensures Completions(inbox + [n], h) == Completions(inbox, h) + One((n.Ready? || n.Failed?) && n.handle == h)
    ensures Closes(inbox + [n], h) == Closes(inbox, h) + One(n == Closed(h, true))
  {
    assert (inbox + [n])[..|inbox|] == inbox;
  }

  /** Handle h is waiting: it is in the table and its server was not yet ready. */
  predicate Waiting(c: Client, h: int) {
    var found := Find(c.infos, h);
    found.Some? && !found.value.valid
  }

  /** The books for one handle: a waiting handle has its promise and no completion;
      an open one has as many completions as promises; a promise for a handle that is
      gone was kept exactly once, or the client closed the handle before. */
  predicate Balanced(c: Client, h: int) {
    var found := Find(c.infos, h);
    var p, d, x := Promises(c.inbox, h), Completions(c.inbox, h), Closes(c.inbox, h);
    if h > c.lastLocal || h < 0 then p == 0 && d == 0 && x == 0 && found.None?
    else if found.None? then p <= 1 && d <= p && (p == 1 && d == 0 ==> x == 1)
    else if !found.value.valid then p == 1 && d == 0 && x == 0
    else p <= 1 && d == p && x == 0
  }

  /** Every completion comes after its promise, and is the first for its handle. */
  predicate Orderly(inbox: seq<Note>) {
    forall k :: 0 <= k < |inbox| && (inbox[k].Ready? || inbox[k].Failed?) ==>
      Promises(inbox[..k], inbox[k].handle) == 1 && Completions(inbox[..k], inbox[k].handle) == 0
  }

  lemma TellOrderly(inbox: seq<Note>, n: Note)
    requires Orderly(inbox)
    requires n.Ready? || n.Failed? ==> Promises(inbox, n.handle) == 1 && Completions(inbox, n.handle) == 0
    ensures Orderly(inbox + [n])
  {
    hide Promises, Completions;
    assert forall k :: 0 <= k < |inbox| ==> (inbox + [n])[..k] == inbox[..k];
    assert (inbox + [n])[..|inbox|] == inbox;
  }

  /** A well-formed client: handles are distinct, were handed out by it, and balance. */
  ghost predicate ClientOk(c: Client) {
    DistinctLocals(c.infos) && c.lastLocal >= -1 && Orderly(c.inbox) && forall h :: Balanced(c, h)
  }

  lemma HeldIsNumbered(c: Client, i: nat)
    requires ClientOk(c) && i < |c.infos|
    ensures 0 <= c.infos[i].localId <= c.lastLocal && Find(c.infos, c.infos[i].localId) == Some(c.infos[i])
  {
    FindIs(c.infos, i);
    assert Balanced(c, c.infos[i].localId);
  }

  /** A note that neither promises, completes nor closes leaves the books alone. */
  lemma TellNeutral(c: Client, n: Note)
    requires ClientOk(c) && !n.InProgress? && !n.Ready? && !n.Failed? && !(n.Closed? && n.ok)
    ensures ClientOk(Tell(c, n))
  {
    TellOrderly(c.inbox, n);
    forall h ensures Balanced(Tell(c, n), h) {
      assert Balanced(c, h);
      TellCounts(c.inbox, n, h);
    }
  }

  /** Handing out a new handle. */
  function Grant(c: Client, global: int, ready: bool): Client {
    var l := c.lastLocal + 1;
    Tell(c.(lastLocal := l, infos := c.infos + [Info(l, global, ready)]), if ready then Opened(l) else InProgress(l))
  }

  lemma GrantOk(c: Client, global: int, ready: bool)
    requires ClientOk(c)
    ensures ClientOk(Grant(c, global, ready))
  {
    hide Orderly, Promises, Completions, Closes, Find;
    var l := c.lastLocal + 1;
    var t := Grant(c, global, ready);
    assert Balanced(c, l);
    GrantDistinct(c, global, ready);
    TellOrderly(c.inbox, if ready then Opened(l) else InProgress(l));
    forall h ensures Balanced(t, h) {
      assert Balanced(c, h);
      FindSnoc(c.infos, Info(l, global, ready), h);
      TellCounts(c.inbox, if ready then Opened(l) else InProgress(l), h);
    }
  }

  lemma GrantDistinct(c: Client, global: int, ready: bool)
    requires DistinctLocals(c.infos) && Balanced(c, c.lastLocal + 1)
    ensures DistinctLocals(Grant(c, global, ready).infos)
  {
    FindExactly(c.infos, c.lastLocal + 1);
  }

  /** Taking handle h out of the table with this note to the client. */
  lemma FreeOk(c: Client, h: int, n: Note)
    requires ClientOk(c) && Find(c.infos, h).Some?
    requires n == Closed(h, true) || (if Waiting(c, h) then n.Failed? && n.handle == h else n == Disconnected(h))
    ensures ClientOk(Tell(c.(infos := FreeHandle(c.infos, h)), n))
  {
    hide Orderly, Promises, Completions, Closes, Find, FreeHandle, DistinctLocals;
    var t := Tell(c.(infos := FreeHandle(c.infos, h)), n);
    assert Balanced(c, h);
    TellOrderly(c.inbox, n);
    forall k ensures Balanced(t, k) {
      assert Balanced(c, k);
      FindFree(c.infos, h, k);
      TellCounts(c.inbox, n, k);
    }
    FindFree(c.infos, h, h);
  }

  lemma SetReadyOk(c: Client, h: int)
    requires ClientOk(c) && Waiting(c, h)
    ensures ClientOk(Tell(c.(infos := SetValid(c.infos, h, true)), Ready(h)))
  {
    hide Orderly, Promises, Completions, Closes, Find, SetValid, DistinctLocals;
    var t := Tell(c.(infos := SetValid(c.infos, h, true)), Ready(h));
    assert Balanced(c, h);
    TellOrderly(c.inbox, Ready(h));
    forall k ensures Balanced(t, k) {
      assert Balanced(c, k);
      FindSetValid(c.infos, h, true, k);
      TellCounts(c.inbox, Ready(h), k);
    }
    FindSetValid(c.infos, h, true, h);
  }
}
