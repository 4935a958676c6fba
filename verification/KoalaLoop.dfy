/**
  events++/parse_koala.cc in its own form: event nodes that wander between the depot,
  the modules' prepared slots and queues and the koala event in use, all by relinking,
  and index-driven parsing loops.  Every method is proved to do what module Koala says
  and to keep each node in exactly one place: a node names its owner, its owner's chain
  runs through it once, and no node is without a place.
*/
module KoalaLoop {
  import opened Util
  import opened ByteOrder
  import K = Koala

  class Node {
    var next: Node?
    var ev: K.MxEvent
    ghost var owner: object?  // null in the koala event in use
    ghost var pos: int        // depth in the depot, number in its module's order, or PREPARED

    constructor ()
      ensures owner == null && next == null
    {
      next, ev, owner, pos := null, K.Blank(), null, 0;
    }
  }

  const PREPARED: int := -1

  ghost function SetOf(nodes: seq<Node>): set<Node> {
    set n | n in nodes
  }

  lemma SetOfRest(nodes: seq<Node>, m: nat)
    requires m < |nodes| && forall i, j :: 0 <= i < j < |nodes| ==> nodes[i] != nodes[j]
    ensures nodes[m] in SetOf(nodes[m..]) && SetOf(nodes[m..]) - {nodes[m]} == SetOf(nodes[m + 1..])
  {
    assert nodes[m..] == [nodes[m]] + nodes[m + 1..];
  }

  lemma SetOfSnoc(nodes: seq<Node>, n: Node)
    ensures SetOf(nodes + [n]) == SetOf(nodes) + {n}
    ensures n !in SetOf(nodes) ==> n !in nodes
  {
  }

  /** mxdc32_depot: empty event structures for recycling. */
  class Depot {
    var first: Node?
    ghost var stack: seq<Node>  // its top last

    ghost function Nodes(): set<Node>
      reads this`stack
    {
      set n | n in stack
    }

    ghost predicate Valid()
      reads this, stack
    {
      && first == (if stack == [] then null else stack[|stack| - 1])
      && (forall i {:trigger stack[i].owner} {:trigger stack[i].pos} :: 0 <= i < |stack| ==>
        stack[i].owner == this && stack[i].pos == i)
      && (forall i {:trigger stack[i].next} :: 0 <= i < |stack| ==>
        stack[i].next == if i == 0 then null else stack[i - 1])
    }

    constructor ()
      ensures Valid() && stack == [] && Nodes() == {}
    {
      first, stack := null, [];
    }

    method Get() returns (event: Node)
      requires Valid()
      modifies this, first
      ensures Valid() && event.owner == null && event !in Nodes()
      ensures if old(stack) == [] then fresh(event) && Nodes() == {}
        else event == old(first) && Nodes() + {event} == old(Nodes())
    {
      if first != null {
        event := first;
        first := event.next;
        assert event.pos == |stack| - 1;
        stack := stack[..|stack| - 1];
        assert forall i :: 0 <= i < |stack| ==> stack[i].pos == i;
        event.owner := null;
        assert forall n :: n in old(stack) <==> n == event || n in stack;
      } else {
        event := new Node();
      }
    }

    method Put(event: Node)
      requires Valid() && event.owner == null
      modifies this, event
      ensures Valid() && Nodes() == old(Nodes()) + {event}
    {
      assert forall i :: 0 <= i < |stack| ==> stack[i].owner == this;
      event.next := first;
      first := event;
      event.owner, event.pos := this, |stack|;
      stack := stack + [event];
    }
  }

  /** mxdc32_private: one module's event being filled and its queue. */
  class Private {
    var prepared: Node?
    var first: Node?
    var last: Node?
    var headers: nat
    var words: nat
    ghost var queue: seq<Node>
    ghost var dropped: nat
    ghost var mod: K.Mod

    ghost function Nodes(): set<Node>
      reads this`queue, this`prepared
    {
      (set n | n in queue) + if prepared == null then {} else {prepared}
    }

    ghost predicate QueueOk()
      reads this`first, this`last, this`queue, this`dropped, this`mod, queue
    {
      && first == (if queue == [] then null else queue[0])
      && last == (if queue == [] then null else queue[|queue| - 1])
      && (forall i {:trigger queue[i].owner} {:trigger queue[i].pos} :: 0 <= i < |queue| ==>
        queue[i].owner == this && queue[i].pos == dropped + i)
      && (forall i {:trigger queue[i].next} :: 0 <= i < |queue| ==>
        queue[i].next == if i == |queue| - 1 then null else queue[i + 1])
      && |mod.queue| == |queue| &&
        (forall i {:trigger mod.queue[i]} :: 0 <= i < |queue| ==> mod.queue[i] == queue[i].ev)
    }

    ghost predicate Valid()
      reads this, queue, prepared
    {
      && QueueOk()
      && mod.headers == headers && mod.words == words
      && mod.prepared == (if prepared == null then None else Some(prepared.ev))
      && (prepared != null ==> prepared.owner == this && prepared.pos == PREPARED)
    }

    constructor ()
      ensures Valid() && mod == K.EMPTY_MOD && Nodes() == {}
    {
      prepared, first, last, headers, words := null, null, null, 0, 0;
      queue, dropped, mod := [], 0, K.EMPTY_MOD;
    }

    /** Nodes of the queue have other numbers than the prepared one. */
    lemma PreparedApart()
      requires Valid() && prepared != null
      ensures prepared !in queue
    {
      assert forall i :: 0 <= i < |queue| ==> queue[i].pos >= 0;
    }

    /** Writes the event being filled. */
    method SetEvent(ev: K.MxEvent)
      requires Valid() && prepared != null
      modifies this`mod, prepared`ev
      ensures Valid() && mod == old(mod).(prepared := Some(ev))
    {
      PreparedApart();
      prepared.ev := ev;
      mod := mod.(prepared := Some(ev));
    }

    /** A node without owner becomes the prepared one. */
    method TakePrepared(event: Node)
      requires Valid() && prepared == null && event.owner == null
      modifies this`prepared, this`mod, event
      ensures Valid() && prepared == event && mod == old(mod).(prepared := Some(K.Blank()))
      ensures Nodes() == old(Nodes()) + {event}
    {
      assert forall i :: 0 <= i < |queue| ==> queue[i].owner == this;
      event.next, event.ev, event.owner, event.pos := null, K.Blank(), this, PREPARED;
      prepared, mod := event, mod.(prepared := Some(K.Blank()));
    }

    /** The statistics of a header. */
    method CountHeader(len: nat)
      requires Valid()
      modifies this`headers, this`words, this`mod
      ensures Valid() && mod == old(mod).(headers := old(mod).headers + 1, words := old(mod).words + len)
    {
      headers, words := headers + 1, words + len;
      mod := mod.(headers := headers, words := words);
    }

    method StoreEvent()
      requires Valid() && prepared != null
      modifies this, prepared, last
      ensures Valid() && mod == K.Store(old(mod), old(prepared.ev)) && Nodes() == old(Nodes())
    {
      hide QueueOk;
      PreparedApart();
      LinkLast(prepared);
      prepared := null;
      assert forall n :: n in queue <==> n in old(queue) || n == old(prepared);
    }

    /** Links a node behind the last one. */
    method LinkLast(event: Node)
      requires QueueOk() && event.owner == this && event !in queue
      modifies this`last, this`first, this`queue, this`mod, event, last
      ensures QueueOk() && queue == old(queue) + [event] && mod == K.Store(old(mod), old(event.ev))
    {
      assert forall i :: 0 <= i < |queue| ==> queue[i] != event && queue[i].pos == dropped + i;
      if last != null {
        last.next := event;
        last := event;
      } else {
        last := event;
        first := event;
      }
      event.next, event.pos := null, dropped + |queue|;
      queue, mod := queue + [event], K.Store(mod, event.ev);
    }

    method DropEvent() returns (help: Node?)
      requires Valid()
      modifies this, first
      ensures Valid() && (help == null <==> old(mod).queue == [])
      ensures help == null ==> unchanged(this)
      ensures help != null ==>
        old(queue) != [] && help == old(queue)[0] && help.owner == null && help.ev == old(mod).queue[0]
      ensures help != null ==> mod == K.Drop(old(mod)) && help !in Nodes() && Nodes() + {help} == old(Nodes())
    {
      hide QueueOk;
      FirstIs();
      if first == null {
        return null;
      }
      FirstApart();
      help := TakeFirst();
      assert forall n :: n in old(queue) <==> n == help || n in queue;
    }

    lemma FirstIs()
      requires QueueOk()
      ensures (first == null <==> queue == []) && (queue != [] ==> first == queue[0]) && |mod.queue| == |queue|
      ensures queue != [] ==> first.ev == mod.queue[0]
    {
    }

    lemma FirstApart()
      requires Valid() && queue != []
      ensures first != prepared && first !in queue[1..]
    {
      assert queue[0].pos == dropped;
      assert forall i :: 1 <= i < |queue| ==> queue[i].pos == dropped + i;
    }

    /** Unlinks the first node. */
    method TakeFirst() returns (help: Node)
      requires QueueOk() && first != null && first != prepared
      modifies this`last, this`first, this`queue, this`mod, this`dropped, first
      ensures QueueOk() && queue == old(queue)[1..] && help == old(first) && help.owner == null
      ensures mod == K.Drop(old(mod)) && help.ev == old(first.ev)
    {
      if last == first {
        last := null;
      }
      help := first;
      assert help.pos == dropped;
      first := first.next;
      queue, mod, dropped := queue[1..], K.Drop(mod), dropped + 1;
      assert forall i :: 0 <= i < |queue| ==> queue[i].pos == dropped + i;
      help.owner := null;
    }
  }

  const NR: nat := 3

  class Builder {
    const depot: Depot
    const privs: seq<Private>
    const env: K.Env
    var data: K.EventData
    var events: word
    var subevents: word
    ghost var nodes: set<Node>                 // all that were allocated
    ghost var emitted: seq<K.KoalaEvent>

    /** The nodes in the depot, the prepared slots and the queues. */
    ghost function Placed(): set<Node>
      reads depot, privs
      requires |privs| == NR
    {
      depot.Nodes() + privs[0].Nodes() + privs[1].Nodes() + privs[2].Nodes()
    }

    ghost predicate PartsOk()
      reads depot, privs, Placed()
      requires |privs| == NR
    {
      depot.Valid() && privs[0].Valid() && privs[1].Valid() && privs[2].Valid()
    }

    ghost predicate Distinct()
      requires |privs| == NR
    {
      privs[0] != privs[1] && privs[0] != privs[2] && privs[1] != privs[2]
    }

    /** Every node is in the depot or with a module, but for those in hand. */
    ghost predicate ValidBut(held: set<Node>)
      reads this`nodes, depot, privs, nodes
    {
      |privs| == NR && Distinct() && nodes == Placed() + held && PartsOk() && forall n :: n in held ==> n.owner == null
    }

    ghost predicate Valid()
      reads this`nodes, depot, privs, nodes
    {
      ValidBut({})
    }

    ghost function Mods(): (mods: seq<K.Mod>)
      reads privs
      requires |privs| == NR
      ensures |mods| == NR && forall m :: 0 <= m < NR ==> mods[m] == privs[m].mod
    {
      [privs[0].mod, privs[1].mod, privs[2].mod]
    }

    constructor (env: K.Env, data: K.EventData)
      ensures Valid() && nodes == {} && emitted == [] && this.env == env
      ensures |privs| == NR && fresh(depot) && forall k :: 0 <= k < NR ==> fresh(privs[k])
      ensures Mods() == [K.EMPTY_MOD, K.EMPTY_MOD, K.EMPTY_MOD] && this.data == data && events == subevents == 0
    {
      hide Depot.Valid, Private.Valid, Depot.Nodes, Private.Nodes;
      var d := new Depot();
      var p0 := new Private();
      var p1 := new Private();
      var p2 := new Private();
      depot, privs := d, [p0, p1, p2];
      this.env, this.data, events, subevents := env, data, 0, 0;
      nodes, emitted := {}, [];
      new;
      assert PartsOk();
    }

    /** The owners of the nodes. */
    lemma Owners()
      requires |privs| == NR && PartsOk()
      ensures forall n :: n in depot.Nodes() ==> n.owner == depot
      ensures forall m :: 0 <= m < NR ==> forall n :: n in privs[m].Nodes() ==> n.owner == privs[m]
    {
      assert forall i :: 0 <= i < |depot.stack| ==> depot.stack[i].owner == depot;
      forall m | 0 <= m < NR ensures forall n :: n in privs[m].Nodes() ==> n.owner == privs[m] {
        assert forall i :: 0 <= i < |privs[m].queue| ==> privs[m].queue[i].owner == privs[m];
      }
    }

    /** Every node is in one place: the depot, one module, or in hand. */
    lemma OnePlace(held: set<Node>)
      requires ValidBut(held)
      ensures depot.Nodes() !! held
      ensures forall m :: 0 <= m < NR ==> privs[m].Nodes() !! depot.Nodes() && privs[m].Nodes() !! held
      ensures forall m, k :: 0 <= m < k < NR ==> privs[m].Nodes() !! privs[k].Nodes()
    {
      hide Depot.Nodes, Private.Nodes, Depot.Valid, Private.Valid;
      Owners();
    }

    /** And it is there once: no chain meets itself, a prepared event is not queued. */
    lemma OnceInPlace(held: set<Node>)
      requires ValidBut(held)
      ensures forall i, j :: 0 <= i < j < |depot.stack| ==> depot.stack[i] != depot.stack[j]
      ensures forall m, i, j :: 0 <= m < NR && 0 <= i < j < |privs[m].queue| ==> privs[m].queue[i] != privs[m].queue[j]
      ensures forall m :: 0 <= m < NR ==> privs[m].prepared !in privs[m].queue
    {
      assert forall i :: 0 <= i < |depot.stack| ==> depot.stack[i].pos == i;
      forall m | 0 <= m < NR
        ensures privs[m].prepared !in privs[m].queue
        ensures forall i, j :: 0 <= i < j < |privs[m].queue| ==> privs[m].queue[i] != privs[m].queue[j]
      {
        assert forall i :: 0 <= i < |privs[m].queue| ==> privs[m].queue[i].pos == privs[m].dropped + i;
        if privs[m].prepared != null {
          privs[m].PreparedApart();
        }
      }
    }

    /** A node of one module is nowhere else. */
    lemma Alone(m: nat, n: Node, held: set<Node>)
      requires ValidBut(held) && m < NR && n in privs[m].Nodes()
      ensures n in nodes && n !in depot.stack && n !in held
      ensures forall k :: 0 <= k < NR && k != m ==> n !in privs[k].queue && n != privs[k].prepared
    {
      OnePlace(held);
      forall k | 0 <= k < NR && k != m ensures n !in privs[k].queue && n != privs[k].prepared {
        assert privs[m].Nodes() !! privs[k].Nodes();
      }
    }

    /** A node in hand is nowhere else. */
    lemma InHand(n: Node, held: set<Node>)
      requires ValidBut(held) && n in held
      ensures n in nodes && n !in depot.stack && n.owner == null
      ensures forall k :: 0 <= k < NR ==> n !in privs[k].queue && n != privs[k].prepared
    {
      OnePlace(held);
      forall k | 0 <= k < NR ensures n !in privs[k].queue && n != privs[k].prepared {
        assert privs[k].Nodes() !! held;
      }
    }

    lemma TopAlone()
      requires Valid() && depot.stack != []
      ensures depot.first != null && depot.first in nodes
      ensures forall k :: 0 <= k < NR ==> depot.first !in privs[k].queue && depot.first != privs[k].prepared
    {
      OnePlace({});
      forall k | 0 <= k < NR ensures depot.first !in privs[k].queue && depot.first != privs[k].prepared {
        assert depot.first in depot.Nodes() && privs[k].Nodes() !! depot.Nodes();
      }
    }

    lemma EmptyDepot()
      requires Valid()
      ensures depot.first == null <==> depot.stack == []
      ensures depot.stack == [] ==> depot.Nodes() == {}
    {
    }

    /** A node from the depot, or a new one. */
    method GetNode() returns (event: Node)
      requires Valid()
      modifies this`nodes, depot, nodes
      ensures ValidBut({event}) && Mods() == old(Mods())
      ensures forall m :: 0 <= m < NR ==> unchanged(privs[m])
      ensures old(nodes) <= nodes && fresh(nodes - old(nodes))
    {
      hide Private.Valid, Depot.Valid, Private.Nodes, Depot.Nodes;
      EmptyDepot();
      if depot.stack != [] {
        TopAlone();
      }
      event := depot.Get();
      nodes := nodes + {event};
    }

    /** The node in hand becomes the prepared one of module m. */
    method TakePrepared(m: nat, event: Node)
      requires ValidBut({event}) && m < NR && privs[m].prepared == null
      modifies privs, event
      ensures Valid() && privs[m].prepared == event
      ensures Mods() == old(Mods())[m := old(Mods())[m].(prepared := Some(K.Blank()))]
    {
      hide Private.Valid, Depot.Valid, Private.Nodes, Depot.Nodes, K.Blank;
      InHand(event, {event});
      privs[m].TakePrepared(event);
    }

    /** Writes the open event of a module. */
    method SetEvent(m: nat, ev: K.MxEvent)
      requires Valid() && m < NR && privs[m].prepared != null
      modifies privs, nodes
      ensures Valid() && Mods() == old(Mods())[m := old(Mods())[m].(prepared := Some(ev))]
      ensures privs[m].prepared == old(privs[m].prepared)
    {
      hide Private.Valid, Depot.Valid, Private.Nodes, Depot.Nodes;
      Theirs(m);
      Alone(m, privs[m].prepared, {});
      privs[m].SetEvent(ev);
    }

    /** mxdc32_private::prepare_event */
    method PrepareEvent(m: nat)
      requires Valid() && m < NR
      modifies this`nodes, depot, privs, nodes
      ensures Valid() && old(nodes) <= nodes && fresh(nodes - old(nodes)) && privs[m].prepared != null
      ensures Mods() == old(Mods())[m := old(Mods())[m].(prepared := Some(K.Blank()))]
    {
      hide Private.Valid, Depot.Valid;
      if privs[m].prepared == null {
        var event := GetNode();
        TakePrepared(m, event);
      } else {
        SetEvent(m, K.Blank());
      }
    }

    /** The statistics of a header. */
    method CountHeader(m: nat, len: nat)
      requires Valid() && m < NR && privs[m].prepared != null
      modifies privs
      ensures Valid() && privs[m].prepared == old(privs[m].prepared) && privs[m].headers == old(Mods())[m].headers + 1
      ensures Mods() == old(Mods())[m := old(Mods())[m].(headers := old(Mods())[m].headers + 1,
        words := old(Mods())[m].words + len)]
    {
      hide Private.Valid, Depot.Valid, Private.Nodes, Depot.Nodes;
      privs[m].CountHeader(len);
      CountIs(m);
    }

    /** A header of module m. */
    method StartEvent(m: nat, d: word)
      requires Valid() && m < NR
      modifies this`nodes, depot, privs, nodes
      ensures Valid() && old(nodes) <= nodes && fresh(nodes - old(nodes))
      ensures Mods() == old(Mods())[m := K.Prepare(old(Mods())[m], d)]
    {
      hide Private.Valid, Depot.Valid, ValidBut, Mods;
      Entries();
      ghost var mods := Mods();
      PrepareEvent(m);
      Entries();
      CountHeader(m, d % 0x1000);
      Entries();
      ghost var now := mods[m].(prepared := Some(K.Blank()), headers := mods[m].headers + 1,
        words := mods[m].words + d % 0x1000);
      assert Mods() == mods[m := now];
      SetEvent(m, K.Blank().(header := d, len := d % 0x1000, evnr := privs[m].headers));
    }

    lemma CountIs(m: nat)
      requires Valid() && m < NR
      ensures Mods()[m].headers == privs[m].headers
      ensures Mods()[m].prepared == if privs[m].prepared == null then None else Some(privs[m].prepared.ev)
    {
    }

    method StoreEvent(m: nat)
      requires Valid() && m < NR && privs[m].prepared != null
      modifies privs, nodes
      ensures Valid() && Mods() == old(Mods())[m := K.Store(old(Mods())[m], old(privs[m].prepared.ev))]
    {
      hide Private.Valid, Depot.Valid, Private.Nodes, Depot.Nodes, K.Store;
      Theirs(m);
      Alone(m, privs[m].prepared, {});
      if privs[m].last != null {
        Alone(m, privs[m].last, {});
      }
      privs[m].StoreEvent();
    }

    lemma Theirs(m: nat)
      requires Valid() && m < NR
      ensures privs[m].last != null ==> privs[m].last in privs[m].Nodes()
      ensures privs[m].prepared != null ==> privs[m].prepared in privs[m].Nodes()
    {
    }

    /** What parse_mxdc32 does with one word inside an event. */
    method ParseInside(cur: nat, d: word) returns (cur': int, verdict: K.Verdict)
      requires Valid() && K.InEvent(Mods(), cur)
      modifies privs, nodes
      ensures Valid() && (Mods(), cur', verdict) == K.ScanInside(old(Mods()), cur, d, env.beyond)
    {
      hide Private.Valid, Depot.Valid, ValidBut, Mods, K.KindOf, K.Fill, K.Finished;
      CountIs(cur);
      Entries();
      ghost var mods := Mods();
      var ev := privs[cur].prepared.ev;
      cur', verdict := cur, K.GoOn;
      match K.KindOf(d) {
        case Data(chan) =>
          var filled := K.Fill(cur, ev, d, chan, env.beyond);
          if filled.None? {
            verdict := K.Leave(-1);
          } else {
            SetEvent(cur, filled.value);
          }
        case Ext(stamp) =>
          SetEvent(cur, ev.(extStamp := stamp, extValid := true));
        case Footer(_) =>
          SetEvent(cur, K.Finished(ev, d));
          CountIs(cur);
          StoreEvent(cur);
          cur' := -1;
          assert Mods() == mods[cur := K.Store(mods[cur], K.Finished(ev, d))];
        case Header(_) =>
        case Dummy =>
        case Illegal =>
      }
    }

    lemma Entries()
      requires Valid()
      ensures |privs| == NR == |K.MODULES|
    {
    }

    /** One word of parse_mxdc32. */
    method ParseWord(cur: int, d: word) returns (cur': int, verdict: K.Verdict)
      requires Valid() && K.ScanOk(Mods(), cur)
      modifies this`nodes, depot, privs, nodes
      ensures Valid() && old(nodes) <= nodes && fresh(nodes - old(nodes))
      ensures (Mods(), cur', verdict) == K.ScanWord(old(Mods()), cur, d, env.beyond)
    {
      hide Private.Valid, Depot.Valid, ValidBut, K.KindOf, K.ScanInside, K.Prepare;
      Entries();
      cur', verdict := cur, K.GoOn;
      match K.KindOf(d) {
        case Header(id) =>
          cur' := K.IndexOfId(id);
          if cur' < 0 {
            verdict := K.Leave(0);
          } else {
            StartEvent(cur', d);
          }
        case Dummy =>
        case Illegal =>
        case Data(_) => if cur < 0 { verdict := K.Leave(-1); } else { cur', verdict := ParseInside(cur, d); }
        case Ext(_) => if cur < 0 { verdict := K.Leave(-1); } else { cur', verdict := ParseInside(cur, d); }
        case Footer(_) => if cur < 0 { verdict := K.Leave(-1); } else { cur', verdict := ParseInside(cur, d); }
      }
    }

    /** parse_mxdc32 */
    method ParseMxdc32(buf: seq<word>) returns (res: int)
      requires Valid()
      modifies this`nodes, depot, privs, nodes
      ensures Valid() && old(nodes) <= nodes && fresh(nodes - old(nodes))
      ensures var scan := K.ScanAll(old(Mods()), buf, env.beyond);
        |privs| == NR && Mods() == scan.mods && res == if scan.verdict.GoOn? then 0 else scan.verdict.res
    {
      hide Private.Valid, Depot.Valid, ValidBut, K.ScanWord, K.ScanOk;
      Entries();
      ghost var mods := Mods();
      var cur, i := -1, 0;
      while i < |buf|
        invariant 0 <= i <= |buf| && Valid() && |privs| == NR
        invariant old(nodes) <= nodes && fresh(nodes - old(nodes))
        invariant var s := K.ScanAll(mods, buf[..i], env.beyond);
          s.verdict == K.GoOn && Mods() == s.mods && cur == s.cur
      {
        var verdict;
        assert buf[..i + 1][..i] == buf[..i];
        LeavesAlone(Mods(), cur, buf[i], env.beyond);
        cur, verdict := ParseWord(cur, buf[i]);
        i := i + 1;
        if verdict.Leave? {
          K.Stops(mods, buf, i, env.beyond);
          return verdict.res;
        }
      }
      assert buf[..i] == buf;
      return 0;
    }

    // ---- the koala event ----

    ghost function View(): K.State
      reads this, privs
      requires |privs| == NR
    {
      K.State(Mods(), data, emitted, events, subevents)
    }

    /** A node of the koala event goes back to the depot. */
    method PutNode(event: Node, ghost held: set<Node>)
      requires ValidBut(held) && event in held
      modifies depot, event
      ensures ValidBut(held - {event}) && Mods() == old(Mods())
    {
      hide Private.Valid, Depot.Valid, Private.Nodes, Depot.Nodes;
      InHand(event, held);
      depot.Put(event);
    }

    /** The first event of module m comes into hand. */
    method DropEvent(m: nat, ghost held: set<Node>) returns (help: Node)
      requires ValidBut(held) && m < NR && Mods()[m].queue != []
      modifies privs, nodes - held
      ensures ValidBut(held + {help}) && help !in held && help.ev == old(Mods())[m].queue[0]
      ensures Mods() == old(Mods())[m := K.Drop(old(Mods())[m])]
    {
      hide Private.Valid, Depot.Valid, Private.Nodes, Depot.Nodes;
      FirstTheirs(m);
      Alone(m, privs[m].first, held);
      help := privs[m].DropEvent();
    }

    lemma FirstTheirs(m: nat)
      requires |privs| == NR && m < NR && privs[m].Valid() && privs[m].mod.queue != []
      ensures privs[m].queue != [] && privs[m].first == privs[m].queue[0] && privs[m].first in privs[m].Nodes()
    {
    }

    /** Whether all queues are empty, and whether one is. */
    method Survey() returns (empty: bool, notfull: bool)
      requires Valid()
      ensures empty <==> K.AllEmpty(Mods())
      ensures notfull <==> !K.NoneEmpty(Mods())
    {
      hide Mods, ValidBut;
      Entries();
      empty, notfull := true, false;
      var m := 0;
      while m < NR
        invariant 0 <= m <= NR
        invariant empty <==> forall k :: 0 <= k < m ==> Mods()[k].queue == []
        invariant notfull <==> exists k :: 0 <= k < m && Mods()[k].queue == []
      {
        FirstShows(m);
        if privs[m].first != null {
          empty := false;
        } else {
          notfull := true;
        }
        m := m + 1;
      }
    }

    lemma FirstShows(m: nat)
      requires Valid() && m < NR
      ensures privs[m].first == null <==> Mods()[m].queue == []
    {
    }

    lemma Counted(held: set<Node>)
      requires ValidBut(held)
      ensures |privs| == NR && held <= nodes
    {
    }

    /** The first events of all modules, in hand. */
    method TakeHeads() returns (heads: seq<Node>)
      requires Valid() && K.NoneEmpty(Mods())
      modifies privs, nodes
      ensures |heads| == NR && ValidBut(SetOf(heads))
      ensures forall i, j :: 0 <= i < j < NR ==> heads[i] != heads[j]
      ensures Mods() == K.DropAll(old(Mods()))
      ensures forall k :: 0 <= k < NR ==> heads[k].ev == K.Heads(old(Mods()))[k]
    {
      hide ValidBut, Mods, SetOf;
      Counted({});
      heads := [];
      ghost var mods := Mods();
      assert SetOf(heads) == {} by { NoHeads(); }
      var m := 0;
      while m < NR
        invariant 0 <= m <= NR && |heads| == m && ValidBut(SetOf(heads)) && |privs| == NR
        invariant forall i, j :: 0 <= i < j < m ==> heads[i] != heads[j]
        invariant forall k :: 0 <= k < m ==>
          heads[k] in SetOf(heads) && heads[k].ev == mods[k].queue[0] && Mods()[k] == K.Drop(mods[k])
        invariant forall k :: m <= k < NR ==> Mods()[k] == mods[k]
      {
        var help := DropEvent(m, SetOf(heads));
        SetOfSnoc(heads, help);
        heads := heads + [help];
        Counted(SetOf(heads));
        m := m + 1;
      }
    }

    /** ~koala_event */
    method Recycle(heads: seq<Node>)
      requires |heads| == NR && ValidBut(SetOf(heads))
      requires forall i, j :: 0 <= i < j < NR ==> heads[i] != heads[j]
      modifies depot, heads
      ensures Valid() && Mods() == old(Mods())
    {
      hide Private.Valid, Depot.Valid, Mods;
      var m := 0;
      while m < NR
        invariant 0 <= m <= NR && ValidBut(SetOf(heads[m..])) && Mods() == old(Mods())
      {
        SetOfRest(heads, m);
        PutNode(heads[m], SetOf(heads[m..]));
        m := m + 1;
      }
      assert SetOf(heads[m..]) == {};
    }

    /** Builds the koala event and hands it to use_koala_event, which deletes it. */
    method UseKoalaEvent() returns (koala: K.KoalaEvent)
      requires Valid() && K.NoneEmpty(Mods())
      modifies this`emitted, depot, privs, nodes
      ensures Valid() && |privs| == NR && koala == K.KoalaEvent(old(data), K.Heads(old(Mods())))
      ensures View() == old(View()).(mods := K.DropAll(old(Mods())), emitted := old(emitted) + [koala])
    {
      hide ValidBut, Mods, SetOf, K.NoneEmpty, K.DropAll;
      Counted({});
      var heads := TakeHeads();
      Counted(SetOf(heads));
      HeadsThere(heads);
      koala := K.KoalaEvent(data, [heads[0].ev, heads[1].ev, heads[2].ev]);
      assert koala.events == K.Heads(old(Mods()));
      emitted := emitted + [koala];
      Recycle(heads);
      Counted({});
    }

    /** collect_koala_event */
    method CollectKoalaEvent() returns (res: int)
      requires Valid()
      modifies this`emitted, depot, privs, nodes
      ensures Valid() && |privs| == NR && (View(), res) == K.Collect(old(View()), env.accepts)
    {
      hide ValidBut, Mods, K.NoneEmpty, K.AllEmpty, K.DropAll, K.Heads;
      Counted({});
      var empty, notfull := Survey();
      NoneOf(Mods());
      if empty || notfull {
        return 0;
      }
      var koala := UseKoalaEvent();
      if !env.accepts(koala) {
        return -1;
      }
      empty, notfull := Survey();
      return if empty then 0 else 1;
    }

    lemma HeadsThere(heads: seq<Node>)
      requires ValidBut(SetOf(heads))
      ensures forall i :: 0 <= i < |heads| ==> heads[i] in nodes
    {
    }

    /** The collecting loop of parse_event. */
    method CollectLoop() returns (res: int)
      requires Valid()
      modifies this`emitted, depot, privs, nodes
      ensures Valid() && |privs| == NR && (View(), res) == K.CollectAll(old(View()), env.accepts)
    {
      hide ValidBut, Mods, K.Collect;
      Counted({});
      ghost var s := View();
      res := 1;
      while res > 0
        invariant Valid() && |privs| == NR
        invariant K.CollectAll(s, env.accepts) == if res > 0 then K.CollectAll(View(), env.accepts) else (View(), res)
        decreases K.Queued(Mods()), res > 0
      {
        Shortens(View(), env.accepts);
        res := CollectKoalaEvent();
        Counted({});
      }
    }

    method ParseSubevent(id: word, buf: seq<word>) returns (res: int)
      requires Valid()
      modifies this`nodes, this`data, depot, privs, nodes
      ensures Valid() && |privs| == NR && old(nodes) <= nodes && fresh(nodes - old(nodes))
      ensures (View(), res) == K.ParseSubevent(old(View()), id, buf, env)
    {
      hide ValidBut, Mods, K.ScanAll;
      Counted({});
      if id == 1 {
        if |buf| != 32 {
          return -1;
        }
        data := data.(scaler := buf, scalerValid := true);
        return 0;
      } else if id == 10 {
        res := ParseMxdc32(buf);
      } else if id == 100 {
        if |buf| != 2 {
          return -1;
        }
        data := data.(tv := (buf[0], buf[1]), tvValid := true);
        return 0;
      } else {
        return if id == 0xFFFF_FFFF then 0 else K.OUTSIDE;
      }
    }

    /** The subevent loop of parse_event. */
    method SubeventLoop(buf: seq<word>, from: nat, nr: nat) returns (res: int, idx: nat)
      requires Valid()
      modifies this`nodes, this`data, depot, privs, nodes
      ensures Valid() && |privs| == NR && old(nodes) <= nodes && fresh(nodes - old(nodes))
      ensures (View(), res, idx) == K.ParseSubevents(old(View()), buf, from, nr, env)
    {
      hide ValidBut, Mods, K.ParseSubevent;
      Counted({});
      ghost var s := View();
      idx := from;
      var i := 0;
      while i < nr
        invariant 0 <= i <= nr && Valid() && |privs| == NR && old(nodes) <= nodes && fresh(nodes - old(nodes))
        invariant K.ParseSubevents(s, buf, from, nr, env) == K.ParseSubevents(View(), buf, idx, nr - i, env)
      {
        if |buf| < idx + 2 {
          return -1, idx;
        }
        var id, size := buf[idx], buf[idx + 1];
        if size >= 0x8000_0000 {
          return K.NegativeSize(id), idx;
        }
        if |buf| < idx + 2 + size {
          return -1, idx;
        }
        res := ParseSubevent(id, buf[idx + 2..idx + 2 + size]);
        if res < 0 {
          return;
        }
        idx := idx + 2 + size;
        i := i + 1;
      }
      res := 0;
    }

    method ParseEvent(buf: seq<word>) returns (res: int)
      requires Valid()
      modifies this`nodes, this`data, this`emitted, this`subevents, depot, privs, nodes
      ensures Valid() && |privs| == NR && old(nodes) <= nodes && fresh(nodes - old(nodes))
      ensures (View(), res) == K.ParseEvent(old(View()), buf, env)
    {
      hide ValidBut, Mods, K.ParseSubevents, K.CollectAll;
      Counted({});
      data := data.(nrValid := false, tvValid := false, scalerValid := false);
      if |buf| < 3 {
        return -1;
      }
      data := data.(nr := buf[0], nrValid := true);
      var idx;
      res, idx := SubeventLoop(buf, 3, Turns(buf[2]));
      if res < 0 {
        return;
      }
      if idx != |buf| {
        return -1;
      }
      subevents := (subevents + buf[2]) % 0x1_0000_0000;
      res := CollectLoop();
    }

    /** The event loop of parse_events. */
    method EventLoop(buf: seq<word>, from: nat, nr: nat) returns (res: int, idx: nat)
      requires Valid()
      modifies this`nodes, this`data, this`emitted, this`subevents, depot, privs, nodes
      ensures Valid() && |privs| == NR && old(nodes) <= nodes && fresh(nodes - old(nodes))
      ensures (View(), res, idx) == K.EventLoop(old(View()), buf, from, nr, env)
    {
      hide ValidBut, Mods, K.ParseEvent;
      Counted({});
      ghost var s := View();
      idx := from;
      var i := 0;
      while i < nr
        invariant 0 <= i <= nr && Valid() && |privs| == NR && old(nodes) <= nodes && fresh(nodes - old(nodes))
        invariant K.EventLoop(s, buf, from, nr, env) == K.EventLoop(View(), buf, idx, nr - i, env)
      {
        if |buf| < idx + 1 {
          return -1, idx;
        }
        var size := buf[idx];
        if size < 0x8000_0000 && |buf| < idx + 1 + size {
          return -1, idx;
        }
        var sub := if size < 0x8000_0000 then buf[idx + 1..idx + 1 + size] else [];
        res := ParseEvent(sub);
        if res < 0 {
          return;
        }
        idx := idx + 1 + |sub|;
        i := i + 1;
      }
      res := 0;
    }

    method ParseEvents(buf: seq<word>) returns (res: int)
      requires Valid()
      modifies this`nodes, this`data, this`emitted, this`events, this`subevents, depot, privs, nodes
      ensures Valid() && |privs| == NR && old(nodes) <= nodes && fresh(nodes - old(nodes))
      ensures (View(), res) == K.ParseEvents(old(View()), buf, env)
    {
      hide ValidBut, Mods, K.EventLoop, K.OptionWords;
      Counted({});
      var num := K.OptionWords(buf);
      if num.None? || |buf| < num.value + 4 {
        return -1;
      }
      var nr := buf[num.value + 3];
      var idx;
      res, idx := EventLoop(buf, num.value + 4, Turns(nr));
      if res < 0 {
        return;
      }
      if idx != |buf| {
        return -1;
      }
      events := (events + nr) % 0x1_0000_0000;
      return 0;
    }
  }

  lemma NoneOf(mods: seq<K.Mod>)
    requires mods != []
    ensures K.AllEmpty(mods) ==> !K.NoneEmpty(mods)
  {
    assert K.AllEmpty(mods) ==> mods[0].queue == [];
  }

  /** The collecting loop ends. */
  lemma Shortens(s: K.State, accepts: K.KoalaEvent -> bool)
    requires |s.mods| == NR
    ensures K.Collect(s, accepts).1 > 0 ==> K.Queued(K.Collect(s, accepts).0.mods) < K.Queued(s.mods)
    ensures K.Queued(K.Collect(s, accepts).0.mods) <= K.Queued(s.mods)
    ensures K.CollectAll(s, accepts) ==
      if K.Collect(s, accepts).1 > 0 then K.CollectAll(K.Collect(s, accepts).0, accepts) else K.Collect(s, accepts)
  {
    if K.NoneEmpty(s.mods) {
      K.DropShortens(s.mods);
    }
  }

  lemma NoHeads()
    ensures SetOf([]) == {}
  {
  }

  lemma LeavesAlone(mods: seq<K.Mod>, cur: int, d: word, beyond: K.Beyond)
    requires K.ScanOk(mods, cur)
    ensures K.ScanWord(mods, cur, d, beyond).2.Leave? ==> K.ScanWord(mods, cur, d, beyond).0 == mods
  {
    hide K.KindOf, K.Fill;
  }

  /** A new builder that parses these buffers, until one is refused, does what the state
      machine does with the file. */
  method ParseFile(env: K.Env, data: K.EventData, bufs: seq<seq<word>>) returns (b: Builder, res: int)
    ensures b.Valid() && |b.privs| == NR && (b.View(), res) == K.ParseFile(K.Start(data), bufs, env)
  {
    hide K.ParseEvents, Builder.ValidBut, Builder.Mods;
    b := new Builder(env, data);
    res := 0;
    var i := 0;
    while i < |bufs| && res >= 0
      invariant 0 <= i <= |bufs| && b.Valid() && |b.privs| == NR && b.env == env
      invariant fresh(b) && fresh(b.depot) && fresh(b.nodes) && forall k :: 0 <= k < NR ==> fresh(b.privs[k])
      invariant (b.View(), res) == K.ParseFile(K.Start(data), bufs[..i], env)
    {
      assert bufs[..i + 1][..i] == bufs[..i];
      res := b.ParseEvents(bufs[i]);
      i := i + 1;
    }
    Refused(K.Start(data), bufs, i, env);
  }

  /** After an error nothing more is parsed. */
  lemma {:induction false} Refused(s: K.State, bufs: seq<seq<word>>, n: nat, env: K.Env)
    requires |s.mods| == |K.MODULES| && n <= |bufs|
    requires n == |bufs| || K.ParseFile(s, bufs[..n], env).1 < 0
    ensures K.ParseFile(s, bufs, env) == K.ParseFile(s, bufs[..n], env)
    decreases |bufs|
  {
    if n < |bufs| {
      var rest := bufs[..|bufs| - 1];
      assert rest[..n] == bufs[..n];
      Refused(s, rest, n, env);
    } else {
      assert bufs[..n] == bufs;
    }
  }
}
