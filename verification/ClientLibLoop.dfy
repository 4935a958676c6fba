/**
  clientlib/clientcommlib.c and the waits of clientlib/clientcomm.c in their own form:
  a singly linked message queue and a doubly linked registry, relinked in place.  Every
  method is proved to do what the operation of module ClientLib does.
*/
module ClientLibLoop {
  import opened Util
  import opened ByteOrder
  import opened MessageIo
  import L = ClientLib

  class ConfPtr {
    var ptr: L.Ptr
    var next: ConfPtr?
    var prev: ConfPtr?

    constructor (ptr: L.Ptr)
      ensures this.ptr == ptr && next == null && prev == null
    {
      this.ptr, next, prev := ptr, null, null;
    }
  }

  class Tsmsg {
    var next: Tsmsg?
    var header: Header
    var body: L.Ptr

    constructor (header: Header, body: L.Ptr)
      ensures this.header == header && this.body == body && next == null
    {
      this.header, this.body, next := header, body, null;
    }
  }

  /** p is the i-th node of a chain, or null outside it. */
  ghost predicate IsMsg(p: Tsmsg?, nodes: seq<Tsmsg>, i: int) {
    if 0 <= i < |nodes| then p == nodes[i] else p == null
  }

  ghost predicate IsConf(p: ConfPtr?, nodes: seq<ConfPtr>, i: int) {
    if 0 <= i < |nodes| then p == nodes[i] else p == null
  }

  predicate Distinct<T(==)>(s: seq<T>) {
    forall i, j :: 0 <= i < j < |s| ==> s[i] != s[j]
  }

  lemma DistinctFrom<T>(s: seq<T>, i: nat)
    requires Distinct(s) && i < |s|
    ensures forall k :: 0 <= k < |s| && k != i ==> s[k] != s[i]
  {
  }

  lemma DistinctWith<T>(s: seq<T>, x: T)
    requires Distinct(s) && x !in s
    ensures Distinct([x] + s) && Distinct(s + [x])
  {
  }

  lemma DistinctWithout<T>(s: seq<T>, i: nat)
    requires Distinct(s) && i < |s|
    ensures Distinct(s[..i] + s[i + 1..]) && s[i] !in s[..i] + s[i + 1..]
  {
  }

  lemma {:induction false} RemoveFirstAt(ps: seq<L.Ptr>, p: L.Ptr, i: nat)
    requires i <= |ps| && p !in ps[..i] && (i < |ps| ==> ps[i] == p)
    ensures RemoveFirst<L.Ptr>(ps, p) == if i < |ps| then ps[..i] + ps[i + 1..] else ps
  {
    if ps != [] && i > 0 {
      var rest := ps[1..];
      assert ps[..i] == [ps[0]] + rest[..i - 1];
      RemoveFirstAt(rest, p, i - 1);
      if i < |ps| {
        assert ps[..i] + ps[i + 1..] == [ps[0]] + (rest[..i - 1] + rest[i..]);
      }
    }
  }

  /** The chain without node i: its m-th node points on to where that of node i pointed
      if it was before node i. */
  lemma ChainWithout(nodes: seq<Tsmsg>, i: nat, k: nat, next: Tsmsg?)
    requires i < |nodes| && k + 1 < |nodes|
    requires IsMsg(next, nodes, if k < i - 1 then k + 1 else if k == i - 1 then i + 1 else k + 2)
    ensures IsMsg(next, nodes[..i] + nodes[i + 1..], k + 1)
  {
  }

  lemma ConfsWithout(nodes: seq<ConfPtr>, i: nat, k: nat, next: ConfPtr?, prev: ConfPtr?)
    requires i < |nodes| && k + 1 < |nodes|
    requires IsConf(next, nodes, if k < i - 1 then k + 1 else if k == i - 1 then i + 1 else k + 2)
    requires IsConf(prev, nodes, if k < i then k - 1 else if k == i then i - 1 else k)
    ensures IsConf(next, nodes[..i] + nodes[i + 1..], k + 1) && IsConf(prev, nodes[..i] + nodes[i + 1..], k - 1)
  {
  }

  lemma HeadsWithout(msgs: seq<Tsmsg>, confs: seq<ConfPtr>, i: nat, msg: Tsmsg?, conf: ConfPtr?)
    ensures i < |msgs| && IsMsg(msg, msgs, if i == 0 then 1 else 0) ==> IsMsg(msg, msgs[..i] + msgs[i + 1..], 0)
    ensures i < |confs| && IsConf(conf, confs, if i == 0 then 1 else 0) ==> IsConf(conf, confs[..i] + confs[i + 1..], 0)
  {
  }

  lemma NoMatchAt(pat: L.Pattern, q: seq<L.Entry>, n: nat, k: nat)
    requires k < n <= |q| && L.NoMatch(pat, q[..n])
    ensures !L.Matches(pat, q[k])
  {
    assert q[..n][k] == q[k];
  }

  lemma FirstMatchAt(pat: L.Pattern, q: seq<L.Entry>, i: nat)
    requires i <= |q| && L.NoMatch(pat, q[..i]) && (i < |q| ==> L.Matches(pat, q[i]))
    ensures L.FirstMatch(pat, q) == i
  {
    hide L.Matches;
    var j := L.FirstMatch(pat, q);
    if j < i {
      NoMatchAt(pat, q, i, j);
    } else if i < j {
      NoMatchAt(pat, q, j, i);
    }
  }

  class Library {
    var mem: map<L.Ptr, seq<word>>
    var smsg: Tsmsg?
    var confptrs: ConfPtr?
    ghost var msgs: seq<Tsmsg>
    ghost var confs: seq<ConfPtr>
    ghost var queue: seq<L.Entry>
    ghost var registry: seq<L.Ptr>
    ghost var allocs: nat
    ghost var frees: nat

    /** The queue's chain runs through these nodes. */
    ghost predicate QueueOk()
      reads this`smsg, this`msgs, this`queue, msgs
    {
      && |msgs| == |queue| && IsMsg(smsg, msgs, 0)
      && (forall i {:trigger msgs[i].next} :: 0 <= i < |msgs| ==> IsMsg(msgs[i].next, msgs, i + 1))
      && (forall i {:trigger queue[i]} :: 0 <= i < |msgs| ==> queue[i] == L.Entry(msgs[i].header, msgs[i].body))
      && Distinct(msgs)
    }

    /** The registry's chain runs through these nodes, and back. */
    ghost predicate RegistryOk()
      reads this`confptrs, this`confs, this`registry, confs
    {
      && |confs| == |registry| && IsConf(confptrs, confs, 0)
      && (forall i {:trigger confs[i].next} :: 0 <= i < |confs| ==> IsConf(confs[i].next, confs, i + 1))
      && (forall i {:trigger confs[i].prev} :: 0 <= i < |confs| ==> IsConf(confs[i].prev, confs, i - 1))
      && (forall i {:trigger registry[i]} :: 0 <= i < |confs| ==> registry[i] == confs[i].ptr)
      && Distinct(confs)
    }

    ghost predicate Valid()
      reads this, msgs, confs
    {
      QueueOk() && RegistryOk()
    }

    ghost function View(): L.Lib
      reads this
    {
      L.Lib(mem, queue, registry, allocs, frees)
    }

    constructor ()
      ensures Valid() && View() == L.EMPTY && msgs == [] && confs == []
    {
      mem, smsg, confptrs := map[], null, null;
      msgs, confs, queue, registry := [], [], [], [];
      allocs, frees := 0, 0;
    }

    // ---- the registry ----

    method AddConfPtr(ptr: L.Ptr)
      requires RegistryOk()
      modifies this`confptrs, this`confs, this`registry, confs
      ensures RegistryOk() && View() == L.Register(old(View()), ptr)
      ensures (forall c :: c in confs ==> c in old(confs) || fresh(c))
    {
      hide Distinct;
      if ptr == L.NULL {
        return;
      }
      var node := new ConfPtr(ptr);
      DistinctWith(confs, node);
      if confptrs == null {
        confptrs := node;
      } else {
        var ptr1 := confptrs;
        ghost var i := 0;
        while ptr1.next != null
          invariant 0 <= i < |confs| && ptr1 == confs[i]
          decreases |confs| - i
        {
          ptr1 := ptr1.next;
          i := i + 1;
        }
        DistinctFrom(confs, i);
        ptr1.next := node;
        node.prev := ptr1;
      }
      confs, registry := confs + [node], registry + [ptr];
    }

    method DelConfPtr(ptr: L.Ptr) returns (ok: bool)
      requires RegistryOk()
      modifies this`confptrs, this`confs, this`registry, confs
      ensures RegistryOk() && (View(), ok) == L.Deregister(old(View()), ptr)
      ensures forall c :: c in confs ==> c in old(confs)
    {
      hide Distinct;
      if ptr == L.NULL {
        return true;
      }
      var ptr1 := confptrs;
      ghost var i := 0;
      while ptr1 != null && ptr1.ptr != ptr
        invariant 0 <= i <= |confs| && IsConf(ptr1, confs, i)
        invariant ptr !in registry[..i]
        decreases |confs| - i
      {
        ptr1 := ptr1.next;
        i := i + 1;
      }
      RemoveFirstAt(registry, ptr, i);
      if ptr1 == null {
        assert registry[..i] == registry;
        return false;
      }
      Unlink(ptr1, i);
      return true;
    }

    /** The nodes before and after it, or the list's head, are linked to each other. */
    method BypassConf(ptr1: ConfPtr, ghost i: nat)
      requires RegistryOk() && i < |confs| && ptr1 == confs[i]
      modifies this`confptrs, confs`next, confs`prev
      ensures confptrs == if i == 0 then old(ptr1.next) else old(confptrs)
      ensures forall k {:trigger confs[k].next} :: 0 <= k < |confs| ==>
        confs[k].next == if k + 1 == i then old(ptr1.next) else old(confs[k].next)
      ensures forall k {:trigger confs[k].prev} :: 0 <= k < |confs| ==>
        confs[k].prev == if k == i + 1 then old(ptr1.prev) else old(confs[k].prev)
    {
      hide Distinct;
      if i > 0 {
        DistinctFrom(confs, i - 1);
      }
      if i + 1 < |confs| {
        DistinctFrom(confs, i + 1);
      }
      DistinctFrom(confs, i);
      if ptr1 == confptrs {
        confptrs := ptr1.next;
        if confptrs != null {
          confptrs.prev := null;
        }
      } else {
        if ptr1.next != null {
          ptr1.next.prev := ptr1.prev;
        }
        ptr1.prev.next := ptr1.next;
      }
    }

    /** Takes a node out of the chain. */
    method Unlink(ptr1: ConfPtr, ghost i: nat)
      requires RegistryOk() && i < |confs| && ptr1 == confs[i]
      modifies this`confptrs, this`confs, this`registry, confs
      ensures RegistryOk() && confs == old(confs)[..i] + old(confs)[i + 1..]
      ensures registry == old(registry)[..i] + old(registry)[i + 1..]
    {
      hide Distinct, IsConf;
      BypassConf(ptr1, i);
      DistinctWithout(confs, i);
      ghost var others := confs[..i] + confs[i + 1..];
      ghost var left := registry[..i] + registry[i + 1..];
      forall k | 0 <= k < |others|
        ensures IsConf(others[k].next, others, k + 1) && IsConf(others[k].prev, others, k - 1)
        ensures left[k] == others[k].ptr
      {
        ghost var m := if k < i then k else k + 1;
        assert others[k] == confs[m] && left[k] == registry[m];
        assert IsConf(old(confs[m].next), confs, m + 1) && IsConf(old(confs[m].prev), confs, m - 1);
        ConfsWithout(confs, i, k, others[k].next, others[k].prev);
      }
      assert IsConf(old(confs[i].next), confs, i + 1);
      HeadsWithout([], confs, i, null, confptrs);
      confs, registry := others, left;
    }

    /** free() of a message body */
    method FreeBody(p: L.Ptr)
      requires p == L.NULL || p in mem
      modifies this`mem, this`frees
      ensures View() == L.Free(old(View()), p)
    {
      if p != L.NULL {
        mem := mem - {p};
        frees := frees + 1;
      }
    }

    method FreeConfirmation(conf: L.Ptr)
      requires RegistryOk() && forall p :: p in registry ==> p in mem
      modifies this`confptrs, this`confs, this`registry, this`mem, this`frees, confs
      ensures RegistryOk() && View() == L.FreeConfirmation(old(View()), conf)
      ensures forall c :: c in confs ==> c in old(confs)
    {
      if conf == L.NULL {
        return;
      }
      var ok := DelConfPtr(conf);
      if !ok {
        RemoveNone<L.Ptr>(old(registry), conf);
        return;
      }
      FreeBody(conf);
    }

    // ---- the queue ----

    /** The part of readmessage after a message could be received. */
    method ReadMessage(inc: L.Incoming) returns (res: int)
      requires QueueOk()
      modifies this`smsg, this`msgs, this`queue, this`mem, this`allocs, this`frees
      ensures QueueOk() && (View(), res) == L.Read(old(View()), inc)
      ensures (forall m :: m in msgs ==> m in old(msgs) || fresh(m))
    {
      hide Distinct;
      if inc.NoneYet? {
        return 0;
      }
      if !L.Complete(mem, inc) {
        return -1;
      }
      var body := L.NULL;
      if inc.words != [] {
        body := inc.at;
        mem := mem[body := inc.words];
        allocs := allocs + 1;
      }
      if !inc.room {
        if body != L.NULL {
          FreeBody(body);
        }
        return -1;
      }
      Push(inc.header, body);
      return 1;
    }

    /** The new node goes in front. */
    method Push(header: Header, body: L.Ptr)
      requires QueueOk()
      modifies this`smsg, this`msgs, this`queue
      ensures QueueOk() && queue == [L.Entry(header, body)] + old(queue)
      ensures (forall m :: m in msgs ==> m in old(msgs) || fresh(m))
    {
      hide Distinct;
      var msg := new Tsmsg(header, body);
      if smsg == null {
        msg.next := null;
      } else {
        msg.next := smsg;
      }
      smsg := msg;
      DistinctWith(msgs, msg);
      msgs, queue := [msg] + msgs, [L.Entry(header, body)] + queue;
    }

    method UngetMessage(header: Header, body: L.Ptr, room: bool) returns (res: int)
      requires Valid() && (room || body == L.NULL || body in mem)
      modifies this, msgs, confs
      ensures Valid() && (View(), res) == L.Unget(old(View()), header, body, room)
      ensures (forall m :: m in msgs ==> m in old(msgs) || fresh(m)) && forall c :: c in confs ==> c in old(confs)
    {
      hide RemoveFirst, Distinct;
      var ok := DelConfPtr(body);
      if !room {
        FreeBody(body);
        return -1;
      }
      Append(header, body);
      return 0;
    }

    /** The new node goes behind the last one. */
    method Append(header: Header, body: L.Ptr)
      requires QueueOk()
      modifies this`smsg, this`msgs, this`queue, msgs
      ensures QueueOk() && queue == old(queue) + [L.Entry(header, body)]
      ensures (forall m :: m in msgs ==> m in old(msgs) || fresh(m))
    {
      hide Distinct;
      var msg := new Tsmsg(header, body);
      DistinctWith(msgs, msg);
      if smsg == null {
        smsg := msg;
      } else {
        var hmsg := smsg;
        ghost var i := 0;
        while hmsg.next != null
          invariant 0 <= i < |msgs| && hmsg == msgs[i]
          decreases |msgs| - i
        {
          hmsg := hmsg.next;
          i := i + 1;
        }
        DistinctFrom(msgs, i);
        hmsg.next := msg;
      }
      msgs, queue := msgs + [msg], queue + [L.Entry(header, body)];
    }

    method GetMessage() returns (e: Option<L.Entry>)
      requires Valid()
      modifies this, msgs, confs
      ensures Valid() && (View(), e) == L.Get(old(View()))
      ensures (forall m :: m in msgs ==> m in old(msgs)) && (forall c :: c in confs ==> c in old(confs) || fresh(c))
    {
      hide Distinct;
      if smsg == null {
        return None;
      }
      e := Some(L.Entry(smsg.header, smsg.body));
      UnlinkMsg(smsg, 0);
      AddConfPtr(e.value.body);
    }

    method GetSpecialMessage(pat: L.Pattern) returns (e: Option<L.Entry>)
      requires Valid()
      modifies this, msgs, confs
      ensures Valid() && (View(), e) == L.GetSpecial(old(View()), pat)
      ensures (forall m :: m in msgs ==> m in old(msgs)) && (forall c :: c in confs ==> c in old(confs) || fresh(c))
    {
      hide Distinct, L.Matches;
      var pntr1 := smsg;
      ghost var i := 0;
      while pntr1 != null && !L.Matches(pat, L.Entry(pntr1.header, pntr1.body))
        invariant 0 <= i <= |msgs| && IsMsg(pntr1, msgs, i)
        invariant forall k :: 0 <= k < i ==> !L.Matches(pat, queue[k])
        decreases |msgs| - i
      {
        pntr1 := pntr1.next;
        i := i + 1;
      }
      FirstMatchAt(pat, queue, i);
      if pntr1 == null {
        return None;
      }
      e := Some(L.Entry(pntr1.header, pntr1.body));
      UnlinkMsg(pntr1, i);
      AddConfPtr(e.value.body);
    }

    /** The node before it, which is looked for, points on to the node after it. */
    method Bypass(pntr1: Tsmsg, ghost i: nat)
      requires QueueOk() && i < |msgs| && pntr1 == msgs[i]
      modifies this`smsg, msgs`next
      ensures smsg == if i == 0 then old(pntr1.next) else old(smsg)
      ensures forall k {:trigger msgs[k].next} :: 0 <= k < |msgs| ==>
        msgs[k].next == if k + 1 == i then old(pntr1.next) else old(msgs[k].next)
    {
      hide Distinct;
      DistinctFrom(msgs, i);
      if pntr1 == smsg {
        smsg := smsg.next;
        return;
      }
      var pntr2 := smsg;
      ghost var j := 0;
      while pntr2.next != pntr1
        invariant 0 <= j < i && pntr2 == msgs[j]
        decreases i - j
      {
        assert j + 1 < i;
        pntr2 := pntr2.next;
        j := j + 1;
      }
      assert j + 1 == i;
      DistinctFrom(msgs, j);
      pntr2.next := pntr1.next;
    }

    /** Takes a message out of the chain. */
    method UnlinkMsg(pntr1: Tsmsg, ghost i: nat)
      requires QueueOk() && i < |msgs| && pntr1 == msgs[i]
      modifies this`smsg, this`msgs, this`queue, msgs
      ensures QueueOk() && msgs == old(msgs)[..i] + old(msgs)[i + 1..]
      ensures queue == old(queue)[..i] + old(queue)[i + 1..]
    {
      hide Distinct, IsMsg;
      Bypass(pntr1, i);
      DistinctWithout(msgs, i);
      ghost var others := msgs[..i] + msgs[i + 1..];
      assert forall k :: 0 <= k < |others| ==> others[k] in msgs;
      ghost var left := queue[..i] + queue[i + 1..];
      forall k | 0 <= k < |others|
        ensures IsMsg(others[k].next, others, k + 1) && left[k] == L.Entry(others[k].header, others[k].body)
      {
        ghost var m := if k < i then k else k + 1;
        assert others[k] == msgs[m] && left[k] == queue[m] && IsMsg(old(msgs[m].next), msgs, m + 1);
        ChainWithout(msgs, i, k, others[k].next);
      }
      assert IsMsg(old(msgs[i].next), msgs, i + 1);
      HeadsWithout(msgs, [], i, smsg, null);
      msgs, queue := others, left;
    }

    // ---- waiting ----

    /** GetSpecialConfirmation; the reads end when the time is out. */
    method GetSpecialConfirmation(pat: L.Pattern, incs: seq<L.Incoming>) returns (res: int, e: Option<L.Entry>,
      ghost used: nat)
      requires Valid()
      modifies this, msgs, confs
      ensures Valid() && L.Outcome(View(), res, e, used) == L.AwaitSpecial(old(View()), pat, incs)
      ensures (forall m :: m in msgs ==> m in old(msgs) || fresh(m)) &&
        (forall c :: c in confs ==> c in old(confs) || fresh(c))
    {
      hide L.GetSpecial, L.Read, Distinct;
      ghost var s := View();
      e := GetSpecialMessage(pat);
      used := 0;
      if e.Some? {
        return 1, e, used;
      }
      SpecialMiss(s, pat);
      var k := 0;
      while k < |incs|
        invariant 0 <= k <= |incs| && used == k && e.None?
        invariant Valid() && (forall m :: m in msgs ==> m in old(msgs) || fresh(m)) &&
          (forall c :: c in confs ==> c in old(confs) || fresh(c))
        invariant L.GetSpecial(View(), pat).1.None?
        invariant L.AwaitSpecial(s, pat, incs) == Later(L.AwaitSpecial(View(), pat, incs[k..]), used)
      {
        ghost var at := View();
        ghost var left := incs[k..];
        assert left[0] == incs[k] && left[1..] == incs[k + 1..];
        res := ReadMessage(incs[k]);
        if res < 1 {
          return;
        }
        ghost var now := View();
        assert forall i :: 0 <= i < |msgs| ==> msgs[i] in old(msgs) || fresh(msgs[i]);
        assert forall i :: 0 <= i < |confs| ==> confs[i] in old(confs) || fresh(confs[i]);
        e := GetSpecialMessage(pat);
        used := used + 1;
        k := k + 1;
        if e.Some? {
          return 1, e, used;
        }
        SpecialMiss(now, pat);
      }
      res := 0;
    }

    /** GetExtraConfirmation; its loop ends in the first turn, as a message was read. */
    method GetExtraConfirmation(inc: L.Incoming, neu: bool) returns (res: int, e: Option<L.Entry>)
      requires Valid()
      modifies this, msgs, confs
      ensures Valid() && (View(), res, e) == L.Extra(old(View()), inc, neu)
      ensures (forall m :: m in msgs ==> m in old(msgs) || fresh(m)) &&
        (forall c :: c in confs ==> c in old(confs) || fresh(c))
    {
      hide L.Read, L.TakeAt, Distinct;
      e := None;
      if !neu && smsg != null {
        e := GetMessage();
        return 1, e;
      }
      res := ReadMessage(inc);
      if res < 1 {
        return;
      }
      assert forall i :: 0 <= i < |msgs| ==> msgs[i] in old(msgs) || fresh(msgs[i]);
      e := GetMessage();
      res := 1;
    }

    /** The waiting loop of OpenVED. */
    method AwaitOpened(ved: word, incs: seq<L.Incoming>) returns (res: int, e: Option<L.Entry>, ghost used: nat)
      requires Valid()
      modifies this, msgs, confs
      ensures Valid() && L.Outcome(View(), res, e, used) == L.AwaitOpened(old(View()), ved, incs)
      ensures (forall m :: m in msgs ==> m in old(msgs) || fresh(m)) &&
        (forall c :: c in confs ==> c in old(confs) || fresh(c))
    {
      hide L.Extra, L.Completes, L.Unget, L.AwaitOpened, L.AwaitNew, Rest, Distinct;
      ghost var s := View();
      var neu, k := false, 0;
      used := 0;
      RestIsWhole(s, ved, incs);
      while !neu || k < |incs|
        invariant 0 <= k <= |incs| && used == k && (!neu ==> k == 0)
        invariant Valid() && (forall m :: m in msgs ==> m in old(msgs) || fresh(m)) &&
          (forall c :: c in confs ==> c in old(confs) || fresh(c))
        invariant L.AwaitOpened(s, ved, incs) == Later(Rest(View(), ved, incs, k, neu), used)
        decreases !neu, |incs| - k
      {
        assert forall i :: 0 <= i < |msgs| ==> msgs[i] in old(msgs) || fresh(msgs[i]);
        assert forall i :: 0 <= i < |confs| ==> confs[i] in old(confs) || fresh(confs[i]);
        var queued := !neu && smsg != null;
        var inc := if k < |incs| then incs[k] else L.NoneYet;
        TurnOf(View(), ved, incs, k, neu, inc);
        res, e := GetExtraConfirmation(inc, neu);
        neu := true;
        if res < 1 {
          return;
        }
        if !queued {
          k, used := k + 1, used + 1;
        }
        if L.Completes(mem, e.value, ved) {
          return;
        }
        assert forall i :: 0 <= i < |msgs| ==> msgs[i] in old(msgs) || fresh(msgs[i]);
        assert forall i :: 0 <= i < |confs| ==> confs[i] in old(confs) || fresh(confs[i]);
        var back := UngetMessage(e.value.header, e.value.body, true);
      }
      NoMoreReads(View(), ved, incs);
      res, e := 0, None;
    }
  }

  lemma NoMoreReads(s: L.Lib, ved: word, incs: seq<L.Incoming>)
    ensures Rest(s, ved, incs, |incs|, true) == L.Outcome(s, 0, None, 0)
  {
  }

  lemma RestIsWhole(s: L.Lib, ved: word, incs: seq<L.Incoming>)
    ensures Rest(s, ved, incs, 0, false) == L.AwaitOpened(s, ved, incs)
  {
  }

  /** An outcome after this many reads before. */
  ghost function Later(o: L.Outcome, n: nat): L.Outcome {
    o.(used := o.used + n)
  }

  /** What remains of a wait after k reads. */
  ghost function Rest(s: L.Lib, ved: word, incs: seq<L.Incoming>, k: nat, neu: bool): L.Outcome
    requires k <= |incs|
  {
    if neu then L.AwaitNew(s, ved, incs[k..]) else L.AwaitOpened(s, ved, incs)
  }

  lemma TurnOf(s: L.Lib, ved: word, incs: seq<L.Incoming>, k: nat, neu: bool, inc: L.Incoming)
    requires k <= |incs| && (!neu ==> k == 0) && inc == if k < |incs| then incs[k] else L.NoneYet
    ensures var queued := !neu && s.queue != [];
      var (s1, res, e) := L.Extra(s, inc, neu);
      && (res < 1 ==> e.None? && Rest(s, ved, incs, k, neu) == L.Outcome(s1, res, None, 0))
      && (res >= 1 ==> res == 1 && e.Some? && (queued || k < |incs|))
      && (res >= 1 ==>
           Rest(s, ved, incs, k, neu) ==
                if L.Completes(s1.mem, e.value, ved) then L.Outcome(s1, 1, e, if queued then 0 else 1)
                else if queued then Rest(L.Judge(s1, e.value), ved, incs, k, true)
                else Later(Rest(L.Judge(s1, e.value), ved, incs, k + 1, true), 1))
  {
    hide L.Completes, L.Judge, L.Complete;
    if L.Read(s, inc).1 >= 1 {
      L.ReadPushes(s, inc);
    }
    if k < |incs| {
      assert incs[k..][0] == incs[k] && incs[k..][1..] == incs[k + 1..];
    }
    assert incs[0..] == incs;
  }

  lemma SpecialMiss(s: L.Lib, pat: L.Pattern)
    requires L.GetSpecial(s, pat).1.None?
    ensures L.GetSpecial(s, pat).0 == s
  {
  }

  /** One operation of a caller that puts back only what it was handed. */
  method Step(lib: Library, op: L.Op)
    requires lib.Valid() && forall p :: p in lib.registry ==> p in lib.mem
    requires op.DoUnget? ==> op.p == L.NULL || op.p in lib.registry
    modifies lib, lib.msgs, lib.confs
    ensures lib.Valid() && lib.View() == L.Do(old(lib.View()), op)
    ensures forall m :: m in lib.msgs ==> m in old(lib.msgs) || fresh(m)
    ensures forall c :: c in lib.confs ==> c in old(lib.confs) || fresh(c)
  {
    hide L.Read, L.Unget, L.FreeConfirmation, L.Get, L.GetSpecial, Distinct;
    match op {
      case DoRead(inc) => var res := lib.ReadMessage(inc);
      case DoGet => var e := lib.GetMessage();
      case DoSpecial(pat) => var e := lib.GetSpecialMessage(pat);
      case DoUnget(h, p, room) => var res := lib.UngetMessage(h, p, room);
      case DoFree(p) => lib.FreeConfirmation(p);
    }
  }

  /** Any operations on a new library, as far as the caller puts back only what it was
      handed, do what the run of module ClientLib does. */
  method Run(ops: seq<L.Op>) returns (lib: Library)
    requires L.Disciplined(ops)
    ensures lib.Valid() && lib.View() == L.Run(ops)
  {
    hide L.Do, L.Inv, Distinct;
    lib := new Library();
    var i := 0;
    while i < |ops|
      invariant 0 <= i <= |ops| && fresh(lib) && lib.Valid() && lib.View() == L.Run(ops[..i])
      invariant forall k :: 0 <= k < |lib.msgs| ==> fresh(lib.msgs[k])
      invariant forall k :: 0 <= k < |lib.confs| ==> fresh(lib.confs[k])
    {
      assert ops[..i + 1][..i] == ops[..i];
      PrefixDisciplined(ops, i);
      L.OneOwner(ops[..i]);
      RegisteredLive(lib.View());
      ghost var msgs, confs := lib.msgs, lib.confs;
      Step(lib, ops[i]);
      assert forall k :: 0 <= k < |lib.msgs| ==> lib.msgs[k] in lib.msgs;
      assert forall k :: 0 <= k < |lib.confs| ==> lib.confs[k] in lib.confs;
      i := i + 1;
    }
    assert ops[..i] == ops;
  }

  lemma PrefixDisciplined(ops: seq<L.Op>, i: nat)
    requires L.Disciplined(ops) && i < |ops|
    ensures L.Disciplined(ops[..i])
    ensures ops[i].DoUnget? ==> ops[i].p == L.NULL || ops[i].p in L.Run(ops[..i]).registry
  {
    assert forall k :: 0 <= k < i ==> ops[..i][k] == ops[k] && ops[..i][..k] == ops[..k];
  }

  lemma RegisteredLive(s: L.Lib)
    requires L.Inv(s)
    ensures forall p :: p in s.registry ==> p in s.mem
  {
    forall p | p in s.registry ensures p in s.mem {
      L.OwnerIs(s, p);
    }
  }
}
