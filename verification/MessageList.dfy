/**
  Lists and output queues of commu_list_t.cc, commu_message.cc, commu_station.cc (commu).
*/
module MessageList {
  import opened Util

  /*
    The pointer list C_list on a growing and shrinking array, and the message queue
    C_messagelist on it, which stops at a high watermark and starts again at a low one.
  */

  // ---- the queue as a state machine ----

  datatype Queue<T> = Queue(items: seq<T>, stopped: bool)

  function Add<T>(low: int, high: int, q: Queue<T>, x: T): (Queue<T>, bool) {
    if q.stopped then
      if |q.items| > low then (q, false) else (Queue(q.items + [x], false), true)
    else if |q.items| == high then (q.(stopped := true), false)
    else (q.(items := q.items + [x]), true)
  }

  datatype Op<T> = Put(x: T) | Take

  /** A run's state with what was accepted and what was extracted so far, and whether
      a refusal has not been followed by an acceptance yet. */
  datatype Run<T> = Run(q: Queue<T>, accepted: seq<T>, taken: seq<T>, refused: bool)

  function Do<T>(low: int, high: int, r: Run<T>, op: Op<T>): Run<T> {
    match op
    case Put(x) =>
      var (q, ok) := Add(low, high, r.q, x);
      Run(q, if ok then r.accepted + [x] else r.accepted, r.taken, !ok)
    case Take =>
      if r.q.items == [] then r
      else r.(q := r.q.(items := r.q.items[1..]), taken := r.taken + [r.q.items[0]])
  }

  function DoAll<T>(low: int, high: int, ops: seq<Op<T>>): Run<T> {
    if ops == [] then Run(Queue([], false), [], [], false)
    else Do(low, high, DoAll(low, high, ops[..|ops| - 1]), ops[|ops| - 1])
  }

  lemma DoKeeps<T>(low: int, high: nat, r: Run<T>, op: Op<T>)
    requires low < high
    requires |r.q.items| <= high && r.taken + r.q.items == r.accepted && (r.refused ==> r.q.stopped)
    ensures var t := Do(low, high, r, op);
      |t.q.items| <= high && t.taken + t.q.items == t.accepted && (t.refused ==> t.q.stopped)
  {
    if op.Take? && r.q.items != [] {
      assert r.q.items == [r.q.items[0]] + r.q.items[1..];
    }
  }

  /** In every run the queue stays within the high mark, messages leave in the order
      in which they were accepted, and none is lost. */
  lemma {:induction false} QueueInvariant<T>(low: int, high: nat, ops: seq<Op<T>>)
    requires low < high
    ensures var r := DoAll(low, high, ops);
      && |r.q.items| <= high
      && r.taken + r.q.items == r.accepted
      && (r.refused ==> r.q.stopped)
  {
    if ops != [] {
      QueueInvariant(low, high, ops[..|ops| - 1]);
      DoKeeps(low, high, DoAll(low, high, ops[..|ops| - 1]), ops[|ops| - 1]);
    }
  }

  /** The queue is stopped exactly from a refusal to the next acceptance. */
  lemma {:induction false} StoppedIsRefused<T>(low: int, high: nat, ops: seq<Op<T>>)
    ensures DoAll(low, high, ops).refused <==> DoAll(low, high, ops).q.stopped
  {
    if ops != [] {
      StoppedIsRefused(low, high, ops[..|ops| - 1]);
    }
  }

  /** In every run the next message is accepted exactly if there is room: after a refusal
      up to the low mark, otherwise up to the high mark. */
  lemma AcceptsExactly<T>(low: int, high: nat, ops: seq<Op<T>>, x: T)
    requires low < high
    ensures var r := DoAll(low, high, ops);
      Add(low, high, r.q, x).1 <==> if r.refused then |r.q.items| <= low else |r.q.items| < high
  {
    StoppedIsRefused(low, high, ops);
    QueueInvariant(low, high, ops);
  }

  /** After a refusal the next message is accepted exactly when the queue has drained
      to the low mark. */
  lemma AcceptsAgainAtLowMark<T>(low: int, high: nat, ops: seq<Op<T>>, x: T)
    requires low < high && DoAll(low, high, ops).refused
    ensures var r := DoAll(low, high, ops);
      Add(low, high, r.q, x).1 <==> |r.q.items| <= low
  {
    QueueInvariant(low, high, ops);
  }

  /** Puts until one has been refused at the high mark and another tried. */
  function Fill<T>(x: T, n: nat): (ops: seq<Op<T>>)
    ensures |ops| == n
  {
    if n == 0 then [] else Fill(x, n - 1) + [Put(x)]
  }

  lemma {:induction false} FillTo<T>(low: int, high: nat, x: T, n: nat)
    requires n <= high
    ensures var r := DoAll(low, high, Fill(x, n)); |r.q.items| == n && !r.q.stopped
  {
    if n > 0 {
      FillTo(low, high, x, n - 1);
      assert Fill(x, n)[..n - 1] == Fill(x, n - 1);
    }
  }

  /** The bound needs the low mark below the high mark: otherwise the message after a
      refusal goes in on top of a full queue. */
  lemma OverflowsWithoutGap<T>(low: int, high: nat, x: T)
    requires low >= high
    ensures |DoAll(low, high, Fill(x, high + 2)).q.items| == high + 1
  {
    FillTo(low, high, x, high);
    assert Fill(x, high + 1)[..high] == Fill(x, high);
    assert Fill(x, high + 2)[..high + 1] == Fill(x, high + 1);
  }

  // ---- the array ----

  /** The size to which an array holding n entries may shrink. */
  function Roomy(n: nat, g: nat): nat
    requires g > 0
  {
    (n / g + 2) * g
  }

  lemma RoomyFits(n: nat, g: nat)
    requires g > 0
    ensures Roomy(n, g) > n && Roomy(n, g) >= g
  {
    assert n == n / g * g + n % g;
    assert (n / g + 2) * g == n / g * g + 2 * g;
  }

  class List<T(0,==)> {
    const growsize: nat
    const low: int
    const high: nat
    var list: array<T>
    var listsize: nat
    var firstfree: nat
    var stopped: bool

    ghost predicate Valid()
      reads this, list
    {
      0 < growsize && list.Length == listsize && firstfree <= listsize
    }

    ghost function Items(): (s: seq<T>)
      reads this, list
      requires Valid()
    {
      list[..firstfree]
    }

    ghost function View(): Queue<T>
      reads this, list
      requires Valid()
    {
      Queue(Items(), stopped)
    }

    constructor (size: nat, low: int, high: nat)
      requires 0 < size
      ensures Valid() && fresh(list) && View() == Queue([], false)
      ensures growsize == size && this.low == low && this.high == high
    {
      growsize, listsize, firstfree := size, size, 0;
      list := new T[size];
      this.low, this.high := low, high;
      stopped := false;
    }

    /** Room for one more. */
    method Growlist()
      requires Valid()
      modifies this`list, this`listsize
      ensures Valid() && Items() == old(Items()) && firstfree < listsize
      ensures list == old(list) || fresh(list)
      ensures listsize == if old(listsize) > firstfree then old(listsize) else old(listsize) + growsize
    {
      if listsize > firstfree {
        return;
      }
      var hlist := new T[listsize + growsize];
      var i := 0;
      while i < firstfree
        invariant 0 <= i <= firstfree && unchanged(this) && unchanged(list)
        invariant forall k :: 0 <= k < i ==> hlist[k] == list[k]
      {
        hlist[i] := list[i];
        i := i + 1;
      }
      list := hlist;
      listsize := listsize + growsize;
    }

    /** Gives back what is more than two steps above the need. */
    method Shrinklist()
      requires Valid()
      modifies this`list, this`listsize
      ensures Valid() && Items() == old(Items())
      ensures list == old(list) || fresh(list)
      ensures listsize == growsize || listsize <= Roomy(firstfree, growsize)
      ensures listsize <= old(listsize)
    {
      hide Roomy;
      if listsize == growsize {
        return;
      }
      var nlistsize := Roomy(firstfree, growsize);
      RoomyFits(firstfree, growsize);
      if listsize <= nlistsize {
        return;
      }
      var hlist := new T[nlistsize];
      var i := 0;
      while i < nlistsize
        invariant 0 <= i <= nlistsize && unchanged(this) && unchanged(list)
        invariant forall k :: 0 <= k < i ==> hlist[k] == list[k]
      {
        hlist[i] := list[i];
        i := i + 1;
      }
      listsize := nlistsize;
      list := hlist;
    }

    method Insert(entry: T)
      requires Valid()
      modifies this, list
      ensures Valid() && Items() == old(Items()) + [entry] && stopped == old(stopped)
      ensures list == old(list) || fresh(list)
    {
      Growlist();
      list[firstfree] := entry;
      firstfree := firstfree + 1;
    }

    /** Closes the gap at idx. */
    method CloseGap(idx: nat)
      requires Valid() && idx < firstfree
      modifies this, list
      ensures Valid() && Items() == old(Items())[..idx] + old(Items())[idx + 1..] && stopped == old(stopped)
      ensures list == old(list) || fresh(list)
      ensures listsize <= Roomy(firstfree, growsize)
    {
      hide Roomy;
      ghost var was := Items();
      firstfree := firstfree - 1;
      var j := idx;
      while j < firstfree
        invariant idx <= j <= firstfree == |was| - 1 && list == old(list) && listsize == old(listsize) &&
          stopped == old(stopped)
        invariant forall k :: 0 <= k < idx || j <= k <= firstfree ==> list[k] == was[k]
        invariant forall k :: idx <= k < j ==> list[k] == was[k + 1]
      {
        list[j] := list[j + 1];
        j := j + 1;
      }
      assert list[..firstfree] == was[..idx] + was[idx + 1..];
      RoomyFits(firstfree, growsize);
      Shrinklist();
    }

    method Remove(entry: T) returns (found: bool)
      requires Valid()
      modifies this, list
      ensures Valid() && stopped == old(stopped) && (list == old(list) || fresh(list))
      ensures found <==> entry in old(Items())
      ensures !found ==> Items() == old(Items())
      ensures found ==> exists i :: 0 <= i < |old(Items())| && old(Items())[i] == entry && entry !in old(Items())[..i]
                          && Items() == old(Items())[..i] + old(Items())[i + 1..]
    {
      var i := 0;
      while i < firstfree && list[i] != entry
        invariant 0 <= i <= firstfree
        invariant entry !in list[..i]
      {
        i := i + 1;
      }
      if i == firstfree {
        return false;
      }
      assert Items()[..i] == list[..i] && Items()[i] == entry;
      CloseGap(i);
      return true;
    }

    method ExtractFirst() returns (t: Option<T>)
      requires Valid()
      modifies this, list
      ensures Valid() && stopped == old(stopped) && (list == old(list) || fresh(list))
      ensures if old(Items()) == [] then t.None? && Items() == []
        else t == Some(old(Items())[0]) && Items() == old(Items())[1..]
      ensures t.Some? ==> listsize <= Roomy(firstfree, growsize)
    {
      if firstfree == 0 {
        return None;
      }
      t := Some(list[0]);
      CloseGap(0);
    }

    /** C_messagelist::add */
    method AddMessage(message: T) returns (ok: bool)
      requires Valid()
      modifies this, list
      ensures Valid() && (list == old(list) || fresh(list))
      ensures (View(), ok) == Add(low, high, old(View()), message)
    {
      if stopped {
        if firstfree > low {
          return false;
        }
        stopped := false;
      } else {
        if firstfree == high {
          stopped := true;
          return false;
        }
      }
      Insert(message);
      return true;
    }
  }

  /** C_io_station::addmessage: a message is queued, or refused; a refused one is
      deleted here or left to the caller. */
  class Station<T(0,==)> {
    const queue: List<T>
    const show: bool
    var towrite: bool
    var lostmessages: nat

    constructor (queue: List<T>, show: bool)
      ensures this.queue == queue && this.show == show && !towrite && lostmessages == 0
    {
      this.queue, this.show := queue, show;
      towrite, lostmessages := false, 0;
    }

    method AddMessage(message: T, keep: bool) returns (ok: bool, deleted: bool)
      requires queue.Valid()
      modifies this, queue, queue.list
      ensures queue.Valid() && (queue.list == old(queue.list) || fresh(queue.list))
      ensures (queue.View(), ok) == Add(queue.low, queue.high, old(queue.View()), message)
      ensures deleted <==> !ok && !keep
      ensures towrite == (old(towrite) || ok)
      ensures lostmessages == if !show then old(lostmessages) else if ok then 0 else old(lostmessages) + 1
    {
      ok := queue.AddMessage(message);
      deleted := false;
      if !ok {
        if show {
          lostmessages := lostmessages + 1;
        }
        deleted := !keep;
      } else {
        if show && lostmessages != 0 {
          lostmessages := 0;
        }
        towrite := true;
      }
    }
  }

  /** Any puts and takes on a new queue do what the run of the state machine does. */
  method Serve<T(0,==)>(growsize: nat, low: int, high: nat, show: bool, ops: seq<Op<T>>)
    returns (station: Station<T>, accepted: seq<T>, taken: seq<T>, refused: bool)
    requires growsize > 0
    ensures station.queue.Valid()
    ensures Run(station.queue.View(), accepted, taken, refused) == DoAll(low, high, ops)
  {
    hide Add;
    var queue := new List<T>(growsize, low, high);
    station := new Station<T>(queue, show);
    accepted, taken, refused := [], [], false;
    var i := 0;
    while i < |ops|
      invariant 0 <= i <= |ops| && fresh(station) && station.queue == queue && fresh(queue) && fresh(queue.list)
      invariant queue.Valid() && queue.low == low && queue.high == high
      invariant Run(queue.View(), accepted, taken, refused) == DoAll(low, high, ops[..i])
    {
      assert ops[..i + 1][..i] == ops[..i];
      match ops[i] {
        case Put(x) =>
          var ok, deleted := station.AddMessage(x, false);
          accepted, refused := if ok then accepted + [x] else accepted, !ok;
        case Take =>
          var first := queue.ExtractFirst();
          taken := if first.Some? then taken + [first.value] else taken;
      }
      i := i + 1;
    }
    assert ops[..i] == ops;
  }
}
