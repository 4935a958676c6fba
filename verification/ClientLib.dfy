/**
  The client library's queue and registry (clientlib/clientcommlib.c, clientcomm.c).
*/
module ClientLib {
  import opened Util
  import opened ByteOrder
  import opened MessageIo

  /*
    Who owns which message body, the queue or the registry of bodies handed to the
    caller, and which message a waiting caller gets.

    A body is a malloc'd block; `mem` maps the addresses of live blocks to their words,
    and the null pointer stands for no body.
  */

  type Ptr = nat

  const NULL: Ptr := 0

  datatype Entry = Entry(header: Header, body: Ptr)

  /** The queue, its head first, the registered bodies, and the calls of malloc and
      free for bodies. */
  datatype Lib = Lib(mem: map<Ptr, seq<word>>, queue: seq<Entry>, registry: seq<Ptr>, allocs: nat, frees: nat)

  /** What one readmessage meets: a message and the address malloc gives its body, no
      message in time, or an error.  `room` says whether a list node can be had. */
  datatype Incoming = Arrives(header: Header, words: seq<word>, at: Ptr, room: bool) | NoneYet | Failure

  /** An answer that cannot be: a body of another length than announced is cut off by
      the closed connection, a block in use is no new block. */
  predicate Complete(mem: map<Ptr, seq<word>>, inc: Incoming) {
    inc.Arrives? && |inc.words| == inc.header.size && (inc.words != [] ==> inc.at != NULL && inc.at !in mem)
  }

  function EntryOf(inc: Incoming): Entry
    requires inc.Arrives?
  {
    Entry(inc.header, if inc.words == [] then NULL else inc.at)
  }

  // ---- the operations ----

  function Alloc(s: Lib, p: Ptr, words: seq<word>): Lib {
    if words == [] then s else s.(mem := s.mem[p := words], allocs := s.allocs + 1)
  }

  function Free(s: Lib, p: Ptr): Lib {
    if p == NULL then s else s.(mem := s.mem - {p}, frees := s.frees + 1)
  }

  /** readmessage: 1 and the new message at the head, 0 for none in time, or -1. */
  function Read(s: Lib, inc: Incoming): (Lib, int) {
    if inc.NoneYet? then (s, 0)
    else if !Complete(s.mem, inc) then (s, -1)
    else
      var s1 := Alloc(s, inc.at, inc.words);
      if !inc.room then (Free(s1, EntryOf(inc).body), -1)
      else (s1.(queue := [EntryOf(inc)] + s.queue), 1)
  }

  /** addconfptr */
  function Register(s: Lib, p: Ptr): Lib {
    if p == NULL then s else s.(registry := s.registry + [p])
  }

  /** delconfptr */
  function Deregister(s: Lib, p: Ptr): (Lib, bool) {
    if p == NULL then (s, true) else (s.(registry := RemoveFirst<Ptr>(s.registry, p)), p in s.registry)
  }

  /** free_confirmation: only what is registered. */
  function FreeConfirmation(s: Lib, p: Ptr): Lib {
    if p == NULL then s
    else
      var (s1, ok) := Deregister(s, p);
      if ok then Free(s1, p) else s
  }

  /** ungetmessage: to the tail; the answer of delconfptr is ignored. */
  function Unget(s: Lib, h: Header, p: Ptr, room: bool): (Lib, int) {
    var s1 := Deregister(s, p).0;
    if room then (s1.(queue := s.queue + [Entry(h, p)]), 0) else (Free(s1, p), -1)
  }

  function TakeAt(s: Lib, i: nat): Lib
    requires i < |s.queue|
  {
    Register(s.(queue := s.queue[..i] + s.queue[i + 1..]), s.queue[i].body)
  }

  /** getmessage */
  function Get(s: Lib): (Lib, Option<Entry>) {
    if s.queue == [] then (s, None) else (TakeAt(s, 0), Some(s.queue[0]))
  }

  datatype Pattern = Pattern(xid: Option<word>, ved: Option<word>, req: Option<word>)

  predicate Matches(pat: Pattern, e: Entry) {
    && (pat.xid.Some? ==> pat.xid.value == e.header.transid)
    && (pat.ved.Some? ==> pat.ved.value == e.header.ved)
    && (pat.req.Some? ==> pat.req.value == e.header.reqtype)
  }

  predicate NoMatch(pat: Pattern, q: seq<Entry>) {
    forall i :: 0 <= i < |q| ==> !Matches(pat, q[i])
  }

  function FirstMatch(pat: Pattern, q: seq<Entry>): (i: nat)
    ensures i <= |q| && NoMatch(pat, q[..i]) && (i < |q| ==> Matches(pat, q[i]))
  {
    if q == [] || Matches(pat, q[0]) then 0
    else
      var i := 1 + FirstMatch(pat, q[1..]);
      assert forall j :: 1 <= j < i ==> q[j] == q[1..][j - 1];
      i
  }

  /** getspecialmessage */
  function GetSpecial(s: Lib, pat: Pattern): (Lib, Option<Entry>) {
    var i := FirstMatch(pat, s.queue);
    if i == |s.queue| then (s, None) else (TakeAt(s, i), Some(s.queue[i]))
  }

  // ---- every body has one owner ----

  function Bodies(q: seq<Entry>): (ps: seq<Ptr>)
    ensures |ps| == |q| && forall i :: 0 <= i < |q| ==> ps[i] == q[i].body
  {
    seq(|q|, i requires 0 <= i < |q| => q[i].body)
  }

  function Owners(s: Lib, p: Ptr): nat {
    multiset(s.registry)[p] + multiset(Bodies(s.queue))[p]
  }

  /** A live body is in exactly one place, the queue or the registry, once; nothing
      else is in either; every block was freed at most once. */
  ghost predicate Inv(s: Lib) {
    && NULL !in s.mem && NULL !in s.registry
    && (forall p: Ptr :: p != NULL ==> Owners(s, p) == if p in s.mem then 1 else 0)
    && s.allocs == s.frees + |s.mem|
  }

  lemma {:induction false} RemoveFirstCounts(ps: seq<Ptr>, p: Ptr, q: Ptr)
    ensures multiset(RemoveFirst<Ptr>(ps, p))[q] == multiset(ps)[q] - (if q == p && p in ps then 1 else 0)
    ensures q in RemoveFirst<Ptr>(ps, p) ==> q in ps
  {
    if ps != [] {
      var rest := ps[1..];
      assert ps == [ps[0]] + rest;
      assert multiset(ps) == multiset{ps[0]} + multiset(rest);
      if ps[0] != p {
        RemoveFirstCounts(rest, p, q);
        assert multiset(RemoveFirst<Ptr>(ps, p)) == multiset{ps[0]} + multiset(RemoveFirst<Ptr>(rest, p));
      }
    }
  }

  lemma RemovedFromQueue(q: seq<Entry>, i: nat)
    requires i < |q|
    ensures multiset(Bodies(q[..i] + q[i + 1..])) == multiset(Bodies(q)) - multiset{q[i].body}
  {
    var a, b := Bodies(q[..i]), Bodies(q[i + 1..]);
    assert Bodies(q[..i] + q[i + 1..]) == a + b;
    assert Bodies(q) == a + [q[i].body] + b;
  }

  lemma AddedToQueue(q: seq<Entry>, e: Entry)
    ensures multiset(Bodies([e] + q)) == multiset(Bodies(q)) + multiset{e.body}
    ensures multiset(Bodies(q + [e])) == multiset(Bodies(q)) + multiset{e.body}
  {
    assert Bodies([e] + q) == [e.body] + Bodies(q) && Bodies(q + [e]) == Bodies(q) + [e.body];
  }

  lemma OwnerIs(s: Lib, p: Ptr)
    requires Inv(s) && p != NULL
    ensures p in s.registry ==> p in s.mem && p !in Bodies(s.queue) && multiset(s.registry)[p] == 1
    ensures p in Bodies(s.queue) ==> p in s.mem && p !in s.registry && multiset(Bodies(s.queue))[p] == 1
    ensures p !in s.registry && p !in Bodies(s.queue) ==> p !in s.mem
  {
    assert Owners(s, p) == if p in s.mem then 1 else 0;
    assert p in s.registry <==> multiset(s.registry)[p] > 0;
    assert p in Bodies(s.queue) <==> multiset(Bodies(s.queue))[p] > 0;
  }

  lemma KeepRead(s: Lib, inc: Incoming)
    requires Inv(s)
    ensures Inv(Read(s, inc).0)
  {
    hide Inv, Bodies;
    if Complete(s.mem, inc) {
      if inc.words == [] {
        KeepPush(s, Entry(inc.header, NULL));
      } else {
        KeepAlloc(s, inc.at, inc.words, EntryOf(inc));
      }
    }
  }

  lemma KeepPush(s: Lib, e: Entry)
    requires Inv(s) && e.body == NULL
    ensures Inv(s.(queue := [e] + s.queue))
  {
    hide Bodies;
    AddedToQueue(s.queue, e);
    forall p: Ptr | p != NULL ensures Owners(s.(queue := [e] + s.queue), p) == if p in s.mem then 1 else 0 {
      assert Owners(s, p) == if p in s.mem then 1 else 0;
    }
  }

  lemma KeepAlloc(s: Lib, at: Ptr, words: seq<word>, e: Entry)
    requires Inv(s) && at != NULL && at !in s.mem && words != [] && e.body == at
    ensures Inv(Alloc(s, at, words).(queue := [e] + s.queue)) && Inv(Free(Alloc(s, at, words), at))
  {
    hide Bodies, Owners;
    var t := Alloc(s, at, words).(queue := [e] + s.queue);
    assert t.mem.Keys == s.mem.Keys + {at};
    forall p: Ptr | p != NULL ensures Owners(t, p) == if p in t.mem then 1 else 0 {
      assert Owners(s, p) == if p in s.mem then 1 else 0;
      PushedOwner(s, t, e, p);
    }
    AllocAndFree(s, at, words);
  }

  lemma PushedOwner(s: Lib, t: Lib, e: Entry, p: Ptr)
    requires t.queue == [e] + s.queue && t.registry == s.registry
    ensures Owners(t, p) == Owners(s, p) + if p == e.body then 1 else 0
  {
    hide Bodies;
    AddedToQueue(s.queue, e);
  }

  lemma AllocAndFree(s: Lib, at: Ptr, words: seq<word>)
    requires Inv(s) && at != NULL && at !in s.mem && words != []
    ensures Inv(Free(Alloc(s, at, words), at))
  {
    hide Bodies;
    var u := Free(Alloc(s, at, words), at);
    assert u.mem == s.mem;
    forall p: Ptr | p != NULL ensures Owners(u, p) == if p in u.mem then 1 else 0 {
      assert Owners(s, p) == if p in s.mem then 1 else 0;
    }
  }

  lemma KeepTake(s: Lib, i: nat)
    requires Inv(s) && i < |s.queue|
    ensures Inv(TakeAt(s, i))
  {
    hide Bodies;
    RemovedFromQueue(s.queue, i);
    var t, b := TakeAt(s, i), s.queue[i].body;
    assert Bodies(s.queue)[i] == b by { BodyAt(s.queue, i); }
    forall p: Ptr | p != NULL ensures Owners(t, p) == if p in t.mem then 1 else 0 {
      assert Owners(s, p) == if p in s.mem then 1 else 0;
      assert multiset(s.registry + [b])[p] == multiset(s.registry)[p] + multiset([b])[p];
    }
  }

  lemma BodyAt(q: seq<Entry>, i: nat)
    requires i < |q|
    ensures |Bodies(q)| == |q| && Bodies(q)[i] == q[i].body
  {
  }

  lemma KeepFree(s: Lib, p: Ptr)
    requires Inv(s)
    ensures Inv(FreeConfirmation(s, p))
  {
    hide Inv, Free, RemoveFirst;
    if p != NULL && p in s.registry {
      FreedOne(s, p);
    } else {
      assert FreeConfirmation(s, p) == s;
    }
  }

  lemma FreedOne(s: Lib, p: Ptr)
    requires Inv(s) && p != NULL && p in s.registry
    ensures Inv(Free(s.(registry := RemoveFirst<Ptr>(s.registry, p)), p))
  {
    hide Bodies, RemoveFirst;
    var t := Free(s.(registry := RemoveFirst<Ptr>(s.registry, p)), p);
    OwnerIs(s, p);
    forall q: Ptr | q != NULL ensures Owners(t, q) == if q in t.mem then 1 else 0 {
      assert Owners(s, q) == if q in s.mem then 1 else 0;
      RemoveFirstCounts(s.registry, p, q);
    }
    RemoveFirstCounts(s.registry, p, NULL);
    assert t.mem.Keys == s.mem.Keys - {p} && |t.mem| == |t.mem.Keys|;
  }

  lemma KeepUnget(s: Lib, h: Header, p: Ptr, room: bool)
    requires Inv(s) && (p == NULL || p in s.registry)
    ensures Inv(Unget(s, h, p, room).0)
  {
    hide Inv, Bodies, RemoveFirst;
    if p == NULL {
      PutBackNull(s, h);
    } else if room {
      PutBack(s, h, p);
    } else {
      FreedOne(s, p);
    }
  }

  lemma PutBack(s: Lib, h: Header, p: Ptr)
    requires Inv(s) && p != NULL && p in s.registry
    ensures Inv(s.(registry := RemoveFirst<Ptr>(s.registry, p), queue := s.queue + [Entry(h, p)]))
  {
    hide Bodies, RemoveFirst;
    var t := s.(registry := RemoveFirst<Ptr>(s.registry, p), queue := s.queue + [Entry(h, p)]);
    AddedToQueue(s.queue, Entry(h, p));
    forall q: Ptr | q != NULL ensures Owners(t, q) == if q in t.mem then 1 else 0 {
      assert Owners(s, q) == if q in s.mem then 1 else 0;
      RemoveFirstCounts(s.registry, p, q);
    }
    RemoveFirstCounts(s.registry, p, NULL);
  }

  lemma PutBackNull(s: Lib, h: Header)
    requires Inv(s)
    ensures Inv(s.(queue := s.queue + [Entry(h, NULL)]))
  {
    hide Bodies;
    var t := s.(queue := s.queue + [Entry(h, NULL)]);
    AddedToQueue(s.queue, Entry(h, NULL));
    forall q: Ptr | q != NULL ensures Owners(t, q) == if q in t.mem then 1 else 0 {
      assert Owners(s, q) == if q in s.mem then 1 else 0;
    }
  }

  /** Putting back a message keeps the books exactly when its body is one the caller
      was handed (or null): ungetmessage does not look. */
  lemma UngetKeepsExactly(s: Lib, h: Header, p: Ptr, room: bool)
    requires Inv(s)
    ensures Inv(Unget(s, h, p, room).0) <==> p == NULL || p in s.registry
  {
    hide Bodies;
    if p == NULL || p in s.registry {
      KeepUnget(s, h, p, room);
    } else {
      var t := Unget(s, h, p, room).0;
      OwnerIs(s, p);
      RemoveFirstCounts(s.registry, p, p);
      assert Owners(s, p) == if p in s.mem then 1 else 0;
      if room {
        AddedToQueue(s.queue, Entry(h, p));
        assert Owners(t, p) == Owners(s, p) + 1;
      } else if p in s.mem {
        assert Owners(t, p) == 1 && p !in t.mem;
      } else {
        assert t.mem == s.mem;
      }
    }
  }

  // ---- runs ----

  datatype Op =
    | DoRead(inc: Incoming)
    | DoGet
    | DoSpecial(pat: Pattern)
    | DoUnget(h: Header, p: Ptr, room: bool)
    | DoFree(p: Ptr)

  function Do(s: Lib, op: Op): Lib {
    match op
    case DoRead(inc) => Read(s, inc).0
    case DoGet => Get(s).0
    case DoSpecial(pat) => GetSpecial(s, pat).0
    case DoUnget(h, p, room) => Unget(s, h, p, room).0
    case DoFree(p) => FreeConfirmation(s, p)
  }

  /** The i-th message has left the queue, and its body, if any, is the caller's. */
  predicate Handed(s: Lib, i: nat, t: Lib) {
    && i < |s.queue| && t.mem == s.mem && t.queue == s.queue[..i] + s.queue[i + 1..]
    && var body := s.queue[i].body;
       multiset(t.registry) == multiset(s.registry) + if body == NULL then multiset{} else multiset{body}
  }

  /** A registered body is the caller's no more. */
  predicate Returned(s: Lib, p: Ptr, t: Lib) {
    multiset(t.registry) == multiset(s.registry) - if p == NULL then multiset{} else multiset{p}
  }

  /** What each operation does with queue, registry and blocks. */
  lemma OpMoves(s: Lib, op: Op)
    requires Inv(s)
    ensures var t := Do(s, op);
      match op
      case DoRead(inc) =>
        if Complete(s.mem, inc) && inc.room then
          t.queue == [EntryOf(inc)] + s.queue && t.registry == s.registry &&
          t.mem == if inc.words == [] then s.mem else s.mem[inc.at := inc.words]
        else t.mem == s.mem && t.queue == s.queue && t.registry == s.registry
      case DoGet => if s.queue == [] then t == s else Handed(s, 0, t)
      case DoSpecial(pat) =>
        && (NoMatch(pat, s.queue) ==> t == s)
        && forall i :: 0 <= i < |s.queue| && NoMatch(pat, s.queue[..i]) && Matches(pat, s.queue[i]) ==> Handed(s, i, t)
      case DoUnget(h, p, room) =>
        Returned(s, p, t) &&
        if room then t.mem == s.mem && t.queue == s.queue + [Entry(h, p)]
        else t.mem == s.mem - {p} && t.queue == s.queue
      case DoFree(p) =>
        if p in s.registry then Returned(s, p, t) && t.mem == s.mem - {p} && t.queue == s.queue else t == s
  {
    hide RemoveFirst, Bodies, Inv, Matches, Handed, Returned, Unget, FreeConfirmation, GetSpecial, TakeAt, NoMatch;
    NullIsFree(s);
    match op {
      case DoRead(inc) =>
      case DoGet => TakenAt(s, 0);
      case DoSpecial(pat) => SpecialMoves(s, pat);
      case DoUnget(h, p, room) => UngetMoves(s, h, p, room);
      case DoFree(p) => FreeMoves(s, p);
    }
  }

  /** What each operation answers: a read 1, 0 if nothing came in time, or -1; the others
      the message they hand over, if any; and putting back -1 exactly without memory. */
  lemma OpAnswers(s: Lib, inc: Incoming, pat: Pattern, h: Header, p: Ptr, room: bool)
    ensures Read(s, inc).1 == if inc.NoneYet? then 0 else if Complete(s.mem, inc) && inc.room then 1 else -1
    ensures Get(s).1 == if s.queue == [] then None else Some(s.queue[0])
    ensures NoMatch(pat, s.queue) ==> GetSpecial(s, pat).1 == None
    ensures forall i :: 0 <= i < |s.queue| && NoMatch(pat, s.queue[..i]) && Matches(pat, s.queue[i]) ==>
      GetSpecial(s, pat).1 == Some(s.queue[i])
    ensures Unget(s, h, p, room).1 == if room then 0 else -1
  {
    hide Matches;
    var k := FirstMatch(pat, s.queue);
    assert forall i :: 0 <= i < k ==> s.queue[..k][i] == s.queue[i];
    assert forall i :: k < i <= |s.queue| ==> s.queue[..i][k] == s.queue[k];
  }

  /** A pattern leaves a field open or demands its value. */
  lemma MatchesFields(x: Option<word>, v: Option<word>, r: Option<word>, e: Entry)
    ensures Matches(Pattern(x, v, r), e) <==>
      x in {None, Some(e.header.transid)} && v in {None, Some(e.header.ved)} && r in {None, Some(e.header.reqtype)}
  {
  }

  lemma NullIsFree(s: Lib)
    requires Inv(s)
    ensures NULL !in s.mem && NULL !in s.registry
  {
  }

  lemma UngetMoves(s: Lib, h: Header, p: Ptr, room: bool)
    requires NULL !in s.mem && NULL !in s.registry
    ensures var t := Unget(s, h, p, room).0;
      Returned(s, p, t) &&
      if room then t.mem == s.mem && t.queue == s.queue + [Entry(h, p)] else t.mem == s.mem - {p} && t.queue == s.queue
  {
    hide RemoveFirst;
    if p == NULL {
      assert s.mem - {p} == s.mem;
    } else {
      LessOne(s.registry, p);
    }
  }

  lemma FreeMoves(s: Lib, p: Ptr)
    requires NULL !in s.mem && NULL !in s.registry
    ensures var t := FreeConfirmation(s, p);
      if p in s.registry then Returned(s, p, t) && t.mem == s.mem - {p} && t.queue == s.queue else t == s
  {
    hide RemoveFirst;
    LessOne(s.registry, p);
    if p != NULL && p !in s.registry {
      RemoveNone<Ptr>(s.registry, p);
    }
  }

  lemma TakenAt(s: Lib, i: nat)
    ensures i < |s.queue| ==> Handed(s, i, TakeAt(s, i))
  {
  }

  lemma SpecialMoves(s: Lib, pat: Pattern)
    ensures NoMatch(pat, s.queue) ==> GetSpecial(s, pat).0 == s
    ensures forall i :: 0 <= i < |s.queue| && NoMatch(pat, s.queue[..i]) && Matches(pat, s.queue[i]) ==>
      Handed(s, i, GetSpecial(s, pat).0)
  {
    hide Matches;
    var k := FirstMatch(pat, s.queue);
    TakenAt(s, k);
    assert forall i :: 0 <= i < k ==> s.queue[..k][i] == s.queue[i];
    assert forall i :: k < i <= |s.queue| ==> s.queue[..i][k] == s.queue[k];
  }

  lemma LessOne(ps: seq<Ptr>, p: Ptr)
    ensures multiset(RemoveFirst<Ptr>(ps, p)) == multiset(ps) - multiset{p}
  {
    forall q: Ptr ensures multiset(RemoveFirst<Ptr>(ps, p))[q] == (multiset(ps) - multiset{p})[q] {
      RemoveFirstCounts(ps, p, q);
    }
  }

  const EMPTY := Lib(map[], [], [], 0, 0)

  function Run(ops: seq<Op>): Lib {
    if ops == [] then EMPTY else Do(Run(ops[..|ops| - 1]), ops[|ops| - 1])
  }

  /** The caller puts back only bodies it was handed and has not freed or put back. */
  predicate Disciplined(ops: seq<Op>) {
    forall k :: 0 <= k < |ops| ==> ops[k].DoUnget? ==> ops[k].p == NULL || ops[k].p in Run(ops[..k]).registry
  }

  /** Under all interleavings of reading, getting, putting back and freeing, every
      live body has exactly one owner, and nothing else is queued or registered. */
  lemma {:induction false} OneOwner(ops: seq<Op>)
    requires Disciplined(ops)
    ensures Inv(Run(ops))
  {
    hide Inv, Read, Unget, FreeConfirmation, TakeAt;
    if ops == [] {
      assert Inv(EMPTY) by { EmptyInv(); }
    } else {
      var n := |ops| - 1;
      assert ops[n].DoUnget? ==> ops[n].p == NULL || ops[n].p in Run(ops[..n]).registry;
      assert forall k :: 0 <= k < n ==> ops[..n][..k] == ops[..k];
      OneOwner(ops[..n]);
      KeepDo(Run(ops[..n]), ops[n]);
    }
  }

  lemma EmptyInv()
    ensures Inv(EMPTY)
  {
  }

  lemma KeepDo(s: Lib, op: Op)
    requires Inv(s) && (op.DoUnget? ==> op.p == NULL || op.p in s.registry)
    ensures Inv(Do(s, op))
  {
    hide Inv, Read, Unget, FreeConfirmation, TakeAt;
    match op {
      case DoRead(inc) => KeepRead(s, inc);
      case DoGet => if s.queue != [] { KeepTake(s, 0); }
      case DoSpecial(pat) =>
        if FirstMatch(pat, s.queue) < |s.queue| { KeepTake(s, FirstMatch(pat, s.queue)); }
      case DoUnget(h, p, room) => KeepUnget(s, h, p, room);
      case DoFree(p) => KeepFree(s, p);
    }
  }

  // ---- waiting for a confirmation ----

  /** How a wait ended: 1 with the message, 0 out of time, -1 for an error; `used` reads
      brought messages. */
  datatype Outcome = Outcome(lib: Lib, res: int, found: Option<Entry>, used: nat)

  /** GetSpecialConfirmation over what the reads bring until time is out. */
  function AwaitSpecial(s: Lib, pat: Pattern, incs: seq<Incoming>): Outcome
    decreases |incs|
  {
    var (s1, e) := GetSpecial(s, pat);
    if e.Some? then Outcome(s1, 1, e, 0)
    else if incs == [] then Outcome(s, 0, None, 0)
    else
      var (s2, res) := Read(s, incs[0]);
      if res < 1 then Outcome(s2, res, None, 0)
      else
        var o := AwaitSpecial(s2, pat, incs[1..]);
        o.(used := o.used + 1)
  }

  function Stored(mem: map<Ptr, seq<word>>, inc: Incoming): map<Ptr, seq<word>>
    requires inc.Arrives?
  {
    if inc.words == [] then mem else mem[inc.at := inc.words]
  }

  /** How many of these messages can be read one after the other. */
  function Readable(mem: map<Ptr, seq<word>>, incs: seq<Incoming>): (n: nat)
    ensures n <= |incs|
    decreases |incs|
  {
    if incs == [] || !Complete(mem, incs[0]) || !incs[0].room then 0
    else 1 + Readable(Stored(mem, incs[0]), incs[1..])
  }

  /** A wait ends without a message only when no more can be read: with 0 out of time
      and with -1 after a failure. */
  predicate Ended(mem: map<Ptr, seq<word>>, incs: seq<Incoming>, o: Outcome) {
    && o.used == Readable(mem, incs)
    && o.res == if o.used == |incs| || incs[o.used].NoneYet? then 0 else -1
  }

  predicate AllArrive(incs: seq<Incoming>) {
    forall i :: 0 <= i < |incs| ==> incs[i].Arrives?
  }

  function Arrivals(incs: seq<Incoming>): (q: seq<Entry>)
    requires AllArrive(incs)
    ensures |q| == |incs| && forall i :: 0 <= i < |q| ==> q[i] == EntryOf(incs[i])
  {
    seq(|incs|, i requires 0 <= i < |incs| => EntryOf(incs[i]))
  }

  function Backwards<T>(q: seq<T>): (r: seq<T>)
    ensures |r| == |q| && forall i :: 0 <= i < |q| ==> r[i] == q[|q| - 1 - i]
  {
    if q == [] then [] else Backwards(q[1..]) + [q[0]]
  }

  /** What a wait for a matching message leaves in the queue. */
  predicate SpecialLeaves(mem: map<Ptr, seq<word>>, old_: seq<Entry>, pat: Pattern, incs: seq<Incoming>, o: Outcome) {
    && o.used <= Readable(mem, incs) && AllArrive(incs[..o.used]) && (o.found.Some? ==> o.res == 1)
    && if o.found.None? then
         Ended(mem, incs, o) && NoMatch(pat, old_) && NoMatch(pat, Arrivals(incs[..o.used])) &&
         o.lib.queue == Backwards(Arrivals(incs[..o.used])) + old_
       else if o.used == 0 then
         var i := FirstMatch(pat, old_);
         i < |old_| && o.found.value == old_[i] && o.lib.queue == old_[..i] + old_[i + 1..]
       else
         NoMatch(pat, old_) && NoMatch(pat, Arrivals(incs[..o.used - 1])) &&
         Matches(pat, o.found.value) && o.found.value == EntryOf(incs[o.used - 1]) &&
         o.lib.queue == Backwards(Arrivals(incs[..o.used - 1])) + old_
  }

  lemma ArrivalsCons(incs: seq<Incoming>, n: nat)
    requires 0 < |incs| && n < |incs| && AllArrive(incs[1..][..n]) && incs[0].Arrives?
    ensures AllArrive(incs[..n + 1]) && Arrivals(incs[..n + 1]) == [EntryOf(incs[0])] + Arrivals(incs[1..][..n])
    ensures Backwards(Arrivals(incs[..n + 1])) == Backwards(Arrivals(incs[1..][..n])) + [EntryOf(incs[0])]
  {
    hide EntryOf, Backwards;
    var a, b := incs[..n + 1], incs[1..][..n];
    forall k | 0 <= k < |a| ensures a[k] == if k == 0 then incs[0] else b[k - 1] {
    }
    forall k | 0 <= k < |a| ensures a[k].Arrives? && EntryOf(a[k]) == ([EntryOf(incs[0])] + Arrivals(b))[k] {
      assert k > 0 ==> b[k - 1].Arrives?;
    }
    assert Arrivals(a) == [EntryOf(incs[0])] + Arrivals(b);
    BackwardsCons(EntryOf(incs[0]), Arrivals(b));
  }

  lemma BackwardsCons<T>(x: T, q: seq<T>)
    ensures Backwards([x] + q) == Backwards(q) + [x]
  {
    assert ([x] + q)[1..] == q;
  }

  lemma ReadOneMore(mem: map<Ptr, seq<word>>, incs: seq<Incoming>, o: Outcome)
    requires incs != [] && incs[0].Arrives? && Complete(mem, incs[0]) && incs[0].room
    ensures Readable(mem, incs) == 1 + Readable(Stored(mem, incs[0]), incs[1..])
    ensures Ended(Stored(mem, incs[0]), incs[1..], o) ==> Ended(mem, incs, o.(used := o.used + 1))
  {
    hide Complete, Stored;
  }

  /** One more message in front of the queue, which is found there or passed over. */
  lemma SpecialStep(mem: map<Ptr, seq<word>>, old_: seq<Entry>, pat: Pattern, incs: seq<Incoming>, o: Outcome)
    requires incs != [] && incs[0].Arrives? && Complete(mem, incs[0]) && incs[0].room && NoMatch(pat, old_)
    requires SpecialLeaves(Stored(mem, incs[0]), [EntryOf(incs[0])] + old_, pat, incs[1..], o)
    ensures SpecialLeaves(mem, old_, pat, incs, o.(used := o.used + 1))
  {
    hide EntryOf, Matches, Arrivals, Backwards, AllArrive, Complete, Stored, Readable, Ended;
    ReadOneMore(mem, incs, o);
    var e := EntryOf(incs[0]);
    var q := [e] + old_;
    if o.found.Some? && o.used == 0 {
      FirstIsFront(pat, e, old_);
      NothingArrived(incs);
      assert q[..0] + q[1..] == [] + old_;
    } else {
      FrontIsNone(pat, e, old_, incs, if o.found.None? then o.used else o.used - 1, o.used);
    }
  }

  lemma FirstIsFront(pat: Pattern, e: Entry, old_: seq<Entry>)
    requires NoMatch(pat, old_) && FirstMatch(pat, [e] + old_) < |[e] + old_|
    ensures FirstMatch(pat, [e] + old_) == 0 && Matches(pat, e)
  {
    var q := [e] + old_;
    assert forall i :: 0 <= i < |old_| ==> q[i + 1] == old_[i];
  }

  lemma FrontIsNone(pat: Pattern, e: Entry, old_: seq<Entry>, incs: seq<Incoming>, n: nat, used: nat)
    requires incs != [] && incs[0].Arrives? && e == EntryOf(incs[0])
    requires n <= used < |incs| && AllArrive(incs[1..][..used])
    requires AllArrive(incs[1..][..n]) ==> NoMatch(pat, [e] + old_) && NoMatch(pat, Arrivals(incs[1..][..n]))
    ensures AllArrive(incs[1..][..n]) && AllArrive(incs[..n + 1]) && AllArrive(incs[..used + 1])
    ensures NoMatch(pat, Arrivals(incs[..n + 1]))
    ensures Backwards(Arrivals(incs[1..][..n])) + ([e] + old_) == Backwards(Arrivals(incs[..n + 1])) + old_
  {
    hide EntryOf, Matches, Arrivals, Backwards, AllArrive;
    ArrivePrefix(incs[1..], used, n);
    ArrivalsCons(incs, n);
    ArrivalsCons(incs, used);
    assert ([e] + old_)[0] == e;
  }

  lemma ArrivePrefix(incs: seq<Incoming>, n: nat, k: nat)
    requires k <= n <= |incs| && AllArrive(incs[..n])
    ensures AllArrive(incs[..k])
  {
    assert forall i :: 0 <= i < k ==> incs[..k][i] == incs[..n][i];
  }

  lemma NothingArrived(incs: seq<Incoming>)
    ensures AllArrive(incs[..0]) && Arrivals(incs[..0]) == [] && Backwards(Arrivals(incs[..0])) == []
    ensures incs != [] && incs[0].Arrives? ==> AllArrive(incs[..1])
  {
  }

  lemma ReadPushes(s: Lib, inc: Incoming)
    requires Read(s, inc).1 >= 1
    ensures Complete(s.mem, inc) && inc.room && Read(s, inc).0.mem == Stored(s.mem, inc)
    ensures Read(s, inc).0.queue == [EntryOf(inc)] + s.queue
    ensures Read(s, inc).0 == Alloc(s, inc.at, inc.words).(queue := [EntryOf(inc)] + s.queue)
  {
  }

  lemma NothingReadable(s: Lib, incs: seq<Incoming>)
    ensures incs == [] ==> Readable(s.mem, incs) == 0
    ensures incs != [] && Read(s, incs[0]).1 < 1 ==>
      Readable(s.mem, incs) == 0 && Read(s, incs[0]).1 == if incs[0].NoneYet? then 0 else -1
  {
  }

  /** GetSpecialConfirmation returns the first queued message with the wanted
      transaction id, or else the first to arrive, and gives up only when nothing more
      can be read; all others stay queued, the older ones as they were and the newly
      read in front of them. */
  lemma {:induction false} SpecialGetsFirst(s: Lib, pat: Pattern, incs: seq<Incoming>)
    ensures SpecialLeaves(s.mem, s.queue, pat, incs, AwaitSpecial(s, pat, incs))
    decreases |incs|
  {
    hide EntryOf, Matches, Complete, Readable;
    NothingReadable(s, incs);
    var i := FirstMatch(pat, s.queue);
    if i == |s.queue| && incs != [] && Read(s, incs[0]).1 >= 1 {
      hide SpecialLeaves, Read;
      assert s.queue[..i] == s.queue;
      ReadPushes(s, incs[0]);
      SpecialGetsFirst(Read(s, incs[0]).0, pat, incs[1..]);
      SpecialStep(s.mem, s.queue, pat, incs, AwaitSpecial(Read(s, incs[0]).0, pat, incs[1..]));
    } else {
      assert s.queue[..i] == s.queue || i < |s.queue|;
      assert incs[..0] == [];
    }
  }

  /** It finds a message exactly if one is queued or can be read. */
  lemma SpecialFindsExactly(s: Lib, pat: Pattern, incs: seq<Incoming>)
    ensures AwaitSpecial(s, pat, incs).found.Some? <==>
      !NoMatch(pat, s.queue) || exists k :: 0 <= k < Readable(s.mem, incs) && ArrivesMatching(pat, incs[k])
  {
    hide Matches, EntryOf, AwaitSpecial, Readable;
    SpecialGetsFirst(s, pat, incs);
    var o := AwaitSpecial(s, pat, incs);
    if o.found.Some? {
      assert o.used > 0 ==> ArrivesMatching(pat, incs[o.used - 1]);
    } else {
      forall k | 0 <= k < o.used ensures !ArrivesMatching(pat, incs[k]) {
        assert Arrivals(incs[..o.used])[k] == EntryOf(incs[k]);
      }
    }
  }

  predicate ArrivesMatching(pat: Pattern, inc: Incoming) {
    inc.Arrives? && Matches(pat, EntryOf(inc))
  }

  /** The message's body, if there is one, is now registered behind the others. */
  predicate HandedOver(before: seq<Ptr>, o: Outcome) {
    o.lib.registry == before + if o.found.Some? && o.found.value.body != NULL then [o.found.value.body] else []
  }

  /** The wait hands over the message's body, and no other. */
  lemma {:induction false} SpecialRegisters(s: Lib, pat: Pattern, incs: seq<Incoming>)
    requires Inv(s)
    ensures var o := AwaitSpecial(s, pat, incs);
      Inv(o.lib) && HandedOver(s.registry, o)
    decreases |incs|
  {
    hide Inv, Matches, Complete, Owners;
    KeepDo(s, DoSpecial(pat));
    if FirstMatch(pat, s.queue) == |s.queue| && incs != [] {
      KeepRead(s, incs[0]);
      if Read(s, incs[0]).1 >= 1 {
        SpecialRegisters(Read(s, incs[0]).0, pat, incs[1..]);
      }
    }
  }

  // ---- waiting for a VED to be opened ----

  const OPEN_VED: word := 4

  function Bit(w: word, k: nat): bool
    requires k == 2 || k == 4
  {
    w / k % 2 == 1
  }

  /** The broker's later word on the VED: an unsolicited OpenVED message about it. */
  predicate Completes(mem: map<Ptr, seq<word>>, e: Entry, ved: word) {
    && Bit(e.header.flags, 2) && Bit(e.header.flags, 4) && e.header.reqtype == OPEN_VED
    && e.body in mem && |mem[e.body]| > 2 && mem[e.body][2] == ved
  }

  /** What one turn of the loop does with the message it got. */
  function Judge(s: Lib, e: Entry): Lib {
    Unget(s, e.header, e.body, true).0
  }

  /** GetExtraConfirmation: the head of the queue; unless an old one will do, a message
      is read first, which is then at the head. */
  function Extra(s: Lib, inc: Incoming, neu: bool): (Lib, int, Option<Entry>) {
    if !neu && s.queue != [] then (Get(s).0, 1, Get(s).1)
    else
      var (s1, res) := Read(s, inc);
      if res < 1 then (s1, res, None) else (Get(s1).0, 1, Get(s1).1)
  }

  /** The turns that read (neu == 1). */
  function AwaitNew(s: Lib, ved: word, incs: seq<Incoming>): Outcome
    decreases |incs|
  {
    if incs == [] then Outcome(s, 0, None, 0)
    else
      var (s1, res, e) := Extra(s, incs[0], true);
      if res < 1 then Outcome(s1, res, None, 0)
      else
        assert e.Some? by { ReadPushes(s, incs[0]); }
        if Completes(s1.mem, e.value, ved) then Outcome(s1, 1, e, 1)
        else
          var o := AwaitNew(Judge(s1, e.value), ved, incs[1..]);
          o.(used := o.used + 1)
  }

  /** The wait of OpenVED: its first turn takes the head of the queue, if there is one. */
  function AwaitOpened(s: Lib, ved: word, incs: seq<Incoming>): Outcome {
    var (s1, e) := Get(s);
    if e.None? then AwaitNew(s, ved, incs)
    else if Completes(s1.mem, e.value, ved) then Outcome(s1, 1, e, 0)
    else AwaitNew(Judge(s1, e.value), ved, incs)
  }

  /** The message that arrives completes the opening of the VED. */
  predicate CompletesOnArrival(inc: Incoming, ved: word) {
    inc.Arrives? && Bit(inc.header.flags, 2) && Bit(inc.header.flags, 4) && inc.header.reqtype == OPEN_VED &&
    |inc.words| > 2 && inc.words[2] == ved
  }

  /** What the reading turns leave: nothing is lost, and what did not complete the
      opening is at the tail in the order of arrival. */
  predicate NewLeaves(mem: map<Ptr, seq<word>>, q: seq<Entry>, ved: word, incs: seq<Incoming>, o: Outcome) {
    var n := if o.found.Some? then o.used - 1 else o.used;
    && 0 <= n && o.used <= Readable(mem, incs) && (if o.found.Some? then o.res == 1 else Ended(mem, incs, o))
    && AllArrive(incs[..o.used]) && AllArrive(incs[..n])
    && o.lib.queue == q + Arrivals(incs[..n])
    && (forall k :: 0 <= k < n ==> !CompletesOnArrival(incs[k], ved))
    && (o.found.Some? ==> o.found.value == EntryOf(incs[o.used - 1]) && CompletesOnArrival(incs[o.used - 1], ved))
  }

  /** A message is read, taken and put back: it is at the tail and nothing else changed. */
  lemma ReadAndPutBack(s: Lib, inc: Incoming)
    requires Inv(s) && Read(s, inc).1 >= 1
    ensures var (s2, e) := Get(Read(s, inc).0);
      && Complete(s.mem, inc) && inc.room && s2.mem == Stored(s.mem, inc)
      && e == Some(EntryOf(inc)) && Inv(Read(s, inc).0) && Inv(s2)
      && s2.registry == Register(s, EntryOf(inc).body).registry && s2.queue == s.queue
      && (forall ved :: Completes(s2.mem, EntryOf(inc), ved) <==> CompletesOnArrival(inc, ved))
      && Judge(s2, EntryOf(inc)) == s2.(registry := s.registry, queue := s.queue + [EntryOf(inc)])
      && Inv(Judge(s2, EntryOf(inc)))
  {
    hide Bodies, Owners, Bit;
    KeepRead(s, inc);
    var s1, e := Read(s, inc).0, EntryOf(inc);
    assert s1.queue[..0] + s1.queue[0 + 1..] == s.queue;
    KeepTake(s1, 0);
    var s2 := Get(s1).0;
    if e.body != NULL {
      OwnerIs(s1, e.body);
      assert Bodies(s1.queue)[0] == e.body by { BodyAt(s1.queue, 0); }
      RemoveLast(s.registry, e.body);
    }
    KeepUnget(s2, e.header, e.body, true);
  }

  lemma {:induction false} RemoveLast(ps: seq<Ptr>, p: Ptr)
    requires p !in ps
    ensures RemoveFirst<Ptr>(ps + [p], p) == ps
  {
    if ps != [] {
      assert (ps + [p])[1..] == ps[1..] + [p];
      RemoveLast(ps[1..], p);
    }
  }

  lemma NewStep(mem: map<Ptr, seq<word>>, q: seq<Entry>, ved: word, incs: seq<Incoming>, o: Outcome)
    requires incs != [] && incs[0].Arrives? && Complete(mem, incs[0]) && incs[0].room &&
      !CompletesOnArrival(incs[0], ved)
    requires NewLeaves(Stored(mem, incs[0]), q + [EntryOf(incs[0])], ved, incs[1..], o)
    ensures NewLeaves(mem, q, ved, incs, o.(used := o.used + 1))
  {
    hide EntryOf, CompletesOnArrival, Arrivals, AllArrive, Complete, Stored, Readable, Ended, Backwards;
    ReadOneMore(mem, incs, o);
    var n := if o.found.Some? then o.used - 1 else o.used;
    ArrivalsCons(incs, n);
    ArrivalsCons(incs, o.used);
    assert q + [EntryOf(incs[0])] + Arrivals(incs[1..][..n]) == q + Arrivals(incs[..n + 1]);
    forall k | 0 <= k < n + 1 ensures !CompletesOnArrival(incs[k], ved) {
      assert k > 0 ==> incs[k] == incs[1..][k - 1];
    }
  }

  lemma {:induction false} NewConserves(s: Lib, ved: word, incs: seq<Incoming>)
    requires Inv(s)
    ensures var o := AwaitNew(s, ved, incs);
      Inv(o.lib) && NewLeaves(s.mem, s.queue, ved, incs, o) && HandedOver(s.registry, o)
    decreases |incs|
  {
    hide Inv, EntryOf, CompletesOnArrival, Judge, Completes, Get;
    if incs == [] || Read(s, incs[0]).1 < 1 {
      NewNothing(s, ved, incs);
    } else {
      hide NewLeaves, Read;
      var inc := incs[0];
      ReadAndPutBack(s, inc);
      var s2 := Get(Read(s, inc).0).0;
      if Completes(s2.mem, EntryOf(inc), ved) {
        NewFound(s.mem, s2, s.queue, ved, incs);
      } else {
        NewConserves(Judge(s2, EntryOf(inc)), ved, incs[1..]);
        NewStep(s.mem, s.queue, ved, incs, AwaitNew(Judge(s2, EntryOf(inc)), ved, incs[1..]));
      }
    }
  }

  lemma NewNothing(s: Lib, ved: word, incs: seq<Incoming>)
    requires Inv(s) && (incs == [] || Read(s, incs[0]).1 < 1)
    ensures var o := AwaitNew(s, ved, incs);
      Inv(o.lib) && NewLeaves(s.mem, s.queue, ved, incs, o) && HandedOver(s.registry, o)
  {
    hide Inv, EntryOf, Get;
    if incs != [] {
      KeepRead(s, incs[0]);
    }
    assert incs[..0] == [];
    assert s.queue + Arrivals([]) == s.queue;
  }

  lemma NewFound(mem: map<Ptr, seq<word>>, s2: Lib, q: seq<Entry>, ved: word, incs: seq<Incoming>)
    requires incs != [] && Complete(mem, incs[0]) && incs[0].room
    requires CompletesOnArrival(incs[0], ved) && s2.queue == q
    ensures NewLeaves(mem, q, ved, incs, Outcome(s2, 1, Some(EntryOf(incs[0])), 1))
  {
    hide EntryOf, CompletesOnArrival;
    assert q + Arrivals(incs[..0]) == q;
  }

  /** The queue as it is when the loop starts to read. */
  function Rotated(q: seq<Entry>): seq<Entry> {
    if q == [] then [] else q[1..] + [q[0]]
  }

  /** The wait of OpenVED conserves every message that is not its answer: the old head
      and the newly read ones go to the tail, in this order, and the rest stays. */
  lemma OpenConserves(s: Lib, ved: word, incs: seq<Incoming>)
    requires Inv(s)
    ensures var o := AwaitOpened(s, ved, incs);
      && Inv(o.lib) && HandedOver(s.registry, o)
      && if s.queue != [] && Completes(s.mem, s.queue[0], ved)
         then o.found == Some(s.queue[0]) && o.lib.queue == s.queue[1..]
         else NewLeaves(s.mem, Rotated(s.queue), ved, incs, o)
  {
    hide Inv, NewLeaves, AwaitNew, Completes, Read;
    if s.queue == [] {
      NewConserves(s, ved, incs);
    } else {
      var e := s.queue[0];
      TakeAndPutBack(s);
      if !Completes(s.mem, e, ved) {
        NewConserves(Judge(TakeAt(s, 0), e), ved, incs);
      }
    }
  }

  lemma TakeAndPutBack(s: Lib)
    requires Inv(s) && s.queue != []
    ensures var e := s.queue[0];
      && Inv(TakeAt(s, 0)) && TakeAt(s, 0) == Register(s, e.body).(queue := s.queue[1..])
      && Judge(TakeAt(s, 0), e) == s.(queue := Rotated(s.queue)) && Inv(Judge(TakeAt(s, 0), e))
  {
    hide Bodies, Owners;
    var e := s.queue[0];
    assert s.queue[..0] + s.queue[0 + 1..] == s.queue[1..];
    KeepTake(s, 0);
    if e.body != NULL {
      OwnerIs(s, e.body);
      assert Bodies(s.queue)[0] == e.body by { BodyAt(s.queue, 0); }
      RemoveLast(s.registry, e.body);
    }
    KeepUnget(TakeAt(s, 0), e.header, e.body, true);
  }

  /** The messages of the queue and the one handed over. */
  function All(o: Outcome): multiset<Entry> {
    multiset(o.lib.queue) + if o.found.Some? then multiset{o.found.value} else multiset{}
  }

  /** As a multiset the queue only gains what arrived and loses what was found. */
  lemma OpenKeepsMultiset(s: Lib, ved: word, incs: seq<Incoming>)
    requires Inv(s)
    ensures var o := AwaitOpened(s, ved, incs);
      o.used <= |incs| && AllArrive(incs[..o.used]) && All(o) == multiset(s.queue) + multiset(Arrivals(incs[..o.used]))
  {
    hide Inv, Completes, Read, AwaitNew, Rotated, Arrivals, AllArrive, NewLeaves, HandedOver, Bit;
    OpenConserves(s, ved, incs);
    RotatedKeeps(s.queue);
    if s.queue != [] && Completes(s.mem, s.queue[0], ved) {
      NothingArrived(incs);
    } else {
      LeavesMultiset(s.mem, Rotated(s.queue), ved, incs, AwaitOpened(s, ved, incs));
    }
  }

  lemma LeavesMultiset(mem: map<Ptr, seq<word>>, q: seq<Entry>, ved: word, incs: seq<Incoming>, o: Outcome)
    requires NewLeaves(mem, q, ved, incs, o)
    ensures o.used <= |incs| && AllArrive(incs[..o.used])
    ensures All(o) == multiset(q) + multiset(Arrivals(incs[..o.used]))
  {
    hide EntryOf, CompletesOnArrival, Arrivals, AllArrive, Readable, Ended;
    if o.found.Some? {
      ArrivalsSnoc(incs, o.used);
    }
  }

  lemma ArrivalsSnoc(incs: seq<Incoming>, n: nat)
    requires 0 < n <= |incs| && AllArrive(incs[..n])
    ensures AllArrive(incs[..n - 1]) && Arrivals(incs[..n]) == Arrivals(incs[..n - 1]) + [EntryOf(incs[n - 1])]
  {
    hide EntryOf;
    assert forall k :: 0 <= k < n - 1 ==> incs[..n - 1][k] == incs[..n][k];
  }

  lemma RotatedKeeps(q: seq<Entry>)
    ensures multiset(Rotated(q)) == multiset(q)
    ensures q != [] ==> multiset(q) == multiset(q[1..]) + multiset{q[0]}
  {
    assert q != [] ==> q == [q[0]] + q[1..];
  }

  /** It finds its answer exactly if that is the old head or can be read: one that is
      queued behind another message is never found. */
  lemma OpenFindsExactly(s: Lib, ved: word, incs: seq<Incoming>)
    requires Inv(s)
    ensures AwaitOpened(s, ved, incs).found.Some? <==>
      (s.queue != [] && Completes(s.mem, s.queue[0], ved))
      || exists k :: 0 <= k < Readable(s.mem, incs) && CompletesOnArrival(incs[k], ved)
  {
    hide Inv, Completes, Read, AwaitNew, CompletesOnArrival, AwaitOpened, Readable;
    OpenConserves(s, ved, incs);
    var o := AwaitOpened(s, ved, incs);
    if !(s.queue != [] && Completes(s.mem, s.queue[0], ved)) {
      if o.found.Some? {
        assert CompletesOnArrival(incs[o.used - 1], ved);
      } else {
        forall k | 0 <= k < Readable(s.mem, incs) ensures !CompletesOnArrival(incs[k], ved) {
        }
      }
    }
  }

  /** Two messages are read, the answer first: it is queued behind the other one, and
      the wait goes on until time is out. */
  lemma QueuedAnswerIsMissed(other: Header, answer: Header)
    requires other.size == 0 && answer.size == 3 && answer.flags == 6 && answer.reqtype == OPEN_VED
    ensures var s := Run([DoRead(Arrives(answer, [0, 1, 7], 1, true)), DoRead(Arrives(other, [], 2, true))]);
      && |s.queue| == 2 && Completes(s.mem, s.queue[1], 7)
      && AwaitOpened(s, 7, []).res == 0 && AwaitOpened(s, 7, []).found.None?
  {
    var first, second := DoRead(Arrives(answer, [0, 1, 7], 1, true)), DoRead(Arrives(other, [], 2, true));
    assert [first, second][..1] == [first] && [first][..0] == [];
    assert Run([first]) == Do(EMPTY, first);
    assert Bit(6, 2) && Bit(6, 4);
  }

  /** A message is put back twice: its body is queued twice. */
  lemma PutBackTwice(h: Header)
    requires h.size == 1
    ensures Inv(Run([DoRead(Arrives(h, [0], 1, true)), DoGet, DoUnget(h, 1, true)]))
    ensures !Inv(Run([DoRead(Arrives(h, [0], 1, true)), DoGet, DoUnget(h, 1, true), DoUnget(h, 1, true)]))
  {
    var a, b, c := DoRead(Arrives(h, [0], 1, true)), DoGet, DoUnget(h, 1, true);
    assert [a, b, c, c][..3] == [a, b, c] && [a, b, c][..2] == [a, b] && [a, b][..1] == [a] && [a][..0] == [];
    assert Run([a]) == Do(EMPTY, a);
    assert Run([a, b]) == Do(Run([a]), b);
    var s := Run([a, b]);
    assert s == Lib(map[1 := [0]], [], [1], 1, 0);
    var t := Run([a, b, c]);
    assert t == Do(s, c) == Lib(map[1 := [0]], [Entry(h, 1)], [], 1, 0);
    KeepDo(EMPTY, a);
    KeepDo(Run([a]), b);
    KeepUnget(s, h, 1, true);
    UngetKeepsExactly(t, h, 1, true);
  }
}
