/**
  The queue of 64-bit values kept in a chain of blocks of 1024 (support/fifo.cc),
  proved to be a plain queue: put appends, drop and getdrop take from the front.
*/
module Fifo {
  import opened Util

  const BLOCK: nat := 1024

  /** fblock: the words from bfirst to blast are valid; empty if blast < bfirst. */
  class Fblock {
    var bfirst: int
    var blast: int
    const data: array<int>
    var next: Fblock?

    ghost predicate Valid()
      reads this`bfirst, this`blast
    {
      data.Length == BLOCK && 0 <= bfirst <= blast + 1 <= BLOCK
    }

    ghost function Words(): seq<int>
      reads this`bfirst, this`blast, data
      requires Valid()
    {
      data[bfirst..blast + 1]
    }

    constructor ()
      ensures Valid() && Words() == [] && next == null && fresh(data) && bfirst == 0 && !Full()
    {
      bfirst, blast, data, next := 0, -1, new int[BLOCK], null;
    }

    predicate Empty()
      reads this`bfirst, this`blast
    {
      blast < bfirst
    }

    predicate Full()
      reads this`blast
    {
      blast == BLOCK - 1
    }

    method Clear()
      requires Valid()
      modifies this`bfirst, this`blast
      ensures Valid() && Words() == [] && bfirst == 0 && !Full()
    {
      bfirst, blast := 0, -1;
    }

    method Drop()
      requires Valid() && !Empty()
      modifies this`bfirst
      ensures Valid() && Words() == old(Words())[1..]
    {
      bfirst := bfirst + 1;
    }

    method Put(val: int)
      requires Valid() && !Full()
      modifies this`blast, data
      ensures Valid() && Words() == old(Words()) + [val] && !Empty()
    {
      blast := blast + 1;
      data[blast] := val;
    }
  }

  ghost predicate Apart(s: seq<object>) {
    forall i, j :: 0 <= i < j < |s| ==> s[i] != s[j]
  }

  /** p is the i-th block of a chain, or null behind it. */
  ghost predicate IsBlock(p: Fblock?, blocks: seq<Fblock>, i: nat) {
    if i < |blocks| then p == blocks[i] else p == null
  }

  lemma FlattenFirst(parts: seq<seq<int>>)
    requires parts != [] && parts[0] != []
    ensures Flatten(parts) != [] && Flatten(parts)[0] == parts[0][0]
    ensures Flatten([parts[0][1..]] + parts[1..]) == Flatten(parts)[1..]
  {
    var after := [parts[0][1..]] + parts[1..];
    assert after[1..] == parts[1..];
  }

  lemma FlattenLast(front: seq<seq<int>>, part: seq<int>, val: int)
    ensures Flatten(front + [part + [val]]) == Flatten(front + [part]) + [val]
  {
    hide Flatten;
    FlattenSnoc(front, part + [val]);
    FlattenSnoc(front, part);
    assert Flatten(front) + (part + [val]) == Flatten(front) + part + [val];
  }

  class Fifo {
    var first: Fblock?
    var last: Fblock?
    ghost var blocks: seq<Fblock>
    ghost var arrays: seq<array<int>>
    ghost var parts: seq<seq<int>>

    /** The chain of blocks and what each holds. */
    ghost predicate ChainOk()
      reads this, blocks, arrays
    {
      && |blocks| == |arrays| == |parts|
      && IsBlock(first, blocks, 0) && last == (if blocks == [] then null else blocks[|blocks| - 1])
      && (forall i {:trigger blocks[i].next} :: 0 <= i < |blocks| ==> IsBlock(blocks[i].next, blocks, i + 1))
      && (forall i {:trigger parts[i]} :: 0 <= i < |blocks| ==>
            blocks[i].data == arrays[i] && blocks[i].Valid() && parts[i] == blocks[i].Words())
    }

    /** All blocks but the last are filled to the end and not empty, all but the first
        are filled from the beginning. */
    ghost predicate FrontOk()
      reads this, blocks
    {
      && (forall i :: 0 <= i < |blocks| - 1 ==> blocks[i].Full() && !blocks[i].Empty())
      && (forall i :: 0 < i < |blocks| ==> blocks[i].bfirst == 0)
    }

    /** And none is empty but a lone one, which is as new then. */
    ghost predicate FillOk()
      reads this, blocks
    {
      FrontOk() && (blocks != [] && blocks[|blocks| - 1].Empty() ==> |blocks| == 1 && !blocks[0].Full())
    }

    ghost predicate Valid()
      reads this, blocks, arrays
    {
      ChainOk() && FillOk() && Apart(blocks) && Apart(arrays)
    }

    /** The values in the queue, the oldest first. */
    ghost function Items(): seq<int>
      reads this
    {
      Flatten(parts)
    }

    constructor ()
      ensures Valid() && Items() == [] && blocks == [] && arrays == []
    {
      first, last, blocks, arrays, parts := null, null, [], [], [];
    }

    predicate Empty()
      reads this, first
    {
      first == null || first.Empty()
    }

    lemma BlockIs(i: nat)
      requires ChainOk() && i < |blocks|
      ensures blocks[i].data == arrays[i] && blocks[i].Valid() && parts[i] == blocks[i].Words()
      ensures parts[i] == [] <==> blocks[i].Empty()
      ensures i == 0 ==> first == blocks[0]
    {
      assert |parts[i]| >= 0;
    }

    lemma EmptyIs()
      requires Valid()
      ensures Empty() <==> Items() == []
      ensures !Empty() ==> blocks != [] && parts[0] != []
    {
      if blocks != [] {
        BlockIs(0);
        if first.Empty() {
          assert parts == [[]] && Flatten(parts[1..]) == [];
        } else {
          FlattenFirst(parts);
        }
      }
    }

    /** 17 stands for no value. */
    method Get() returns (val: int)
      requires Valid()
      ensures val == if Items() == [] then 17 else Items()[0]
    {
      EmptyIs();
      if !Empty() {
        BlockIs(0);
        FlattenFirst(parts);
        return first.data[first.bfirst];
      }
      return 17;
    }

    method Put(val: int)
      requires Valid()
      modifies this, last, if last == null then {} else {last.data}
      ensures Valid() && Items() == old(Items()) + [val]
      ensures (forall b :: b in blocks ==> b in old(blocks) || fresh(b))
      ensures (forall a :: a in arrays ==> a in old(arrays) || fresh(a))
    {
      hide Apart, Flatten, ChainOk, FillOk;
      LastIs();
      if last == null || last.Full() {
        AddBlock();
      }
      PutLast(val);
    }

    /** The ends of the chain are blocks of it. */
    lemma Frame()
      requires Valid()
      ensures first != null ==> first in blocks
      ensures last != null ==> last in blocks && last.data in arrays
    {
      if blocks != [] {
        BlockIs(0);
        BlockIs(|blocks| - 1);
      }
    }

    lemma LastIs()
      requires Valid()
      ensures FrontOk()
    {
    }

    /** A new block at the end, for a value that comes at once. */
    method AddBlock()
      requires Valid() && (last != null ==> last.Full())
      modifies this, if last == null then {} else {last}
      ensures ChainOk() && FrontOk() && Apart(blocks) && Apart(arrays) && Items() == old(Items())
      ensures last != null && fresh(last) && fresh(last.data) && !last.Full()
      ensures blocks == old(blocks) + [last] && arrays == old(arrays) + [last.data]
    {
      hide Apart, Flatten, ChainOk, FillOk, FrontOk, Fblock.Valid, Fblock.Words, Fblock.Empty, Fblock.Full;
      var bl := new Fblock();
      LoneFull();
      Ends();
      if last != null {
        ApartFrom(blocks, |blocks| - 1);
        last.next := bl;
      }
      last := bl;
      if first == null {
        first := bl;
      }
      ApartSnoc(blocks, bl);
      ApartSnoc(arrays, bl.data);
      FlattenSnoc(parts, []);
      assert Flatten(parts) + [] == Flatten(parts);
      blocks, arrays, parts := blocks + [bl], arrays + [bl.data], parts + [[]];
      ChainGrew();
      FrontGrew();
    }

    lemma Ends()
      requires ChainOk()
      ensures |blocks| == |arrays| == |parts| && IsBlock(first, blocks, 0)
      ensures last == if blocks == [] then null else blocks[|blocks| - 1]
    {
    }

    twostate lemma ChainGrew()
      requires old(ChainOk()) && last != null && last.Valid() && last.Words() == [] && last.next == null
      requires blocks == old(blocks) + [last] && arrays == old(arrays) + [last.data] && parts == old(parts) + [[]]
      requires first == if old(blocks) == [] then last else old(first)
      requires forall i {:trigger old(blocks)[i]} :: 0 <= i < |old(blocks)| ==>
        old(blocks)[i].bfirst == old(blocks[i].bfirst) && old(blocks)[i].blast == old(blocks[i].blast) &&
        old(blocks)[i].next == if i == |old(blocks)| - 1 then last else old(blocks[i].next)
      requires forall i {:trigger old(arrays)[i]} :: 0 <= i < |old(arrays)| ==> old(arrays)[i][..] == old(arrays[i][..])
      ensures ChainOk()
    {
      forall i | 0 <= i < |blocks|
        ensures blocks[i].data == arrays[i] && blocks[i].Valid() && parts[i] == blocks[i].Words()
        ensures IsBlock(blocks[i].next, blocks, i + 1)
      {
        if i < |old(blocks)| {
          assert parts[i] == old(parts)[i] && blocks[i] == old(blocks)[i] && arrays[i] == old(arrays)[i];
          assert arrays[i][..] == old(arrays[i][..]);
        }
      }
    }

    twostate lemma FrontGrew()
      requires old(FrontOk()) && last != null && last.bfirst == 0 && blocks == old(blocks) + [last]
      requires old(last) != null ==>
        old(blocks) != [] && old(last) == old(blocks)[|old(blocks)| - 1] && old(last.Full() && !last.Empty())
      requires old(last) == null ==> old(blocks) == []
      requires forall i {:trigger old(blocks)[i]} :: 0 <= i < |old(blocks)| ==>
        old(blocks)[i].bfirst == old(blocks[i].bfirst) && old(blocks)[i].blast == old(blocks[i].blast)
      ensures FrontOk()
    {
      assert forall i :: 0 <= i < |old(blocks)| ==> blocks[i] == old(blocks)[i];
    }

    /** A full block is not empty. */
    lemma LoneFull()
      requires Valid() && (last != null ==> last.Full())
      ensures (last != null ==> !last.Empty()) && FrontOk() && ChainOk() && Apart(blocks) && Apart(arrays)
    {
    }

    method PutLast(val: int)
      requires ChainOk() && FrontOk() && Apart(blocks) && Apart(arrays) && last != null && !last.Full()
      modifies this`parts, last, last.data
      ensures Valid() && Items() == old(Items()) + [val] && blocks == old(blocks) && arrays == old(arrays)
    {
      hide Apart, Flatten, ChainOk, FrontOk;
      Ends();
      ghost var n := |blocks| - 1;
      BlockIs(n);
      ApartFrom(blocks, n);
      ApartFrom(arrays, n);
      last.Put(val);
      FlattenLast(parts[..n], parts[n], val);
      assert parts == parts[..n] + [parts[n]];
      parts := parts[..n] + [parts[n] + [val]];
      LastGrew(val);
    }

    twostate lemma LastGrew(val: int)
      requires old(ChainOk() && FrontOk()) && old(blocks) != [] && |old(arrays)| == |old(parts)| == |old(blocks)|
      requires blocks == old(blocks) && arrays == old(arrays) && first == old(first) && last == old(last)
      requires parts == old(parts)[..|blocks| - 1] + [old(parts)[|blocks| - 1] + [val]]
      requires forall i :: 0 <= i < |blocks| - 1 ==> unchanged(old(blocks)[i]) && unchanged(old(arrays)[i])
      requires last.Valid() && last.Words() == parts[|blocks| - 1] && last.next == old(last.next)
      requires last.bfirst == old(last.bfirst) && !last.Empty()
      ensures ChainOk() && FillOk()
    {
      forall i | 0 <= i < |blocks|
        ensures blocks[i].data == arrays[i] && blocks[i].Valid() && parts[i] == blocks[i].Words()
        ensures IsBlock(blocks[i].next, blocks, i + 1)
        ensures i < |blocks| - 1 ==> blocks[i].Full() && !blocks[i].Empty()
        ensures i > 0 ==> blocks[i].bfirst == 0
      {
        assert old(parts)[i] == old(parts[i]);
        assert i < |blocks| - 1 ==> unchanged(blocks[i]) && unchanged(arrays[i]);
      }
    }

    /** The front block, emptied, is cleared if it is alone and unlinked otherwise. */
    method DropFirst()
      requires Valid() && Items() != []
      modifies this, first
      ensures Valid() && Items() == old(Items())[1..]
      ensures (forall b :: b in blocks ==> b in old(blocks)) && forall a :: a in arrays ==> a in old(arrays)
    {
      hide Apart, Flatten, ChainOk, FrontOk;
      LoneFirst();
      Ends();
      FlattenFirst(parts);
      ApartFrom(blocks, 0);
      first.Drop();
      ghost var rest := [parts[0][1..]] + parts[1..];
      if first.Empty() {
        if first == last {
          first.Clear();
          parts := rest;
          LoneCleared();
        } else {
          first := first.next;
          if first == null {
            last := null;
          }
          UnlinkedPart(rest);
          ApartTail(blocks);
          ApartTail(arrays);
          blocks, arrays, parts := blocks[1..], arrays[1..], rest[1..];
          FirstGone();
        }
      } else {
        parts := rest;
        FirstShrank();
      }
    }

    lemma UnlinkedPart(rest: seq<seq<int>>)
      requires rest != [] && rest[0] == []
      ensures Flatten(rest[1..]) == Flatten(rest)
    {
    }

    twostate lemma FirstShrank()
      requires old(Valid()) && old(blocks) != [] && |old(arrays)| == |old(parts)| == |old(blocks)| &&
        old(parts[0]) != []
      requires blocks == old(blocks) && arrays == old(arrays) && first == old(first) == blocks[0] && last == old(last)
      requires parts == [old(parts)[0][1..]] + old(parts)[1..]
      requires forall i :: 0 < i < |blocks| ==> unchanged(old(blocks)[i]) && unchanged(old(arrays)[i])
      requires first.Valid() && first.Words() == parts[0] && first.next == old(first.next)
      requires first.blast == old(first.blast) && !first.Empty()
      ensures ChainOk() && FillOk()
    {
      forall i | 0 <= i < |blocks|
        ensures blocks[i].data == arrays[i] && blocks[i].Valid() && parts[i] == blocks[i].Words()
        ensures IsBlock(blocks[i].next, blocks, i + 1)
        ensures i < |blocks| - 1 ==> blocks[i].Full() && !blocks[i].Empty()
        ensures i > 0 ==> blocks[i].bfirst == 0
        ensures i == |blocks| - 1 ==> !blocks[i].Empty()
      {
        assert old(parts)[i] == old(parts[i]);
        assert i > 0 ==> unchanged(blocks[i]) && unchanged(arrays[i]);
      }
    }

    twostate lemma LoneCleared()
      requires old(Valid()) && old(blocks) != [] && |old(arrays)| == |old(parts)| == |old(blocks)| &&
        old(parts[0]) != []
      requires blocks == old(blocks) && arrays == old(arrays) && first == old(first) == blocks[0] &&
        last == old(last) == first
      requires parts == [old(parts)[0][1..]] + old(parts)[1..] && parts[0] == []
      requires first.Valid() && first.Words() == [] && first.next == old(first.next) && first.bfirst == 0 &&
        !first.Full()
      ensures ChainOk() && FillOk()
    {
      assert old(blocks[0].next) == null && |blocks| == 1;
    }

    twostate lemma FirstGone()
      requires old(Valid()) && old(blocks) != [] && |old(arrays)| == |old(parts)| == |old(blocks)| &&
        old(first) != old(last)
      requires blocks == old(blocks)[1..] && arrays == old(arrays)[1..] && first == old(blocks[0].next)
      requires last == if first == null then null else old(last)
      requires parts == old(parts)[1..]
      requires forall i :: 0 < i < |old(blocks)| ==> unchanged(old(blocks)[i]) && unchanged(old(arrays)[i])
      ensures ChainOk() && FillOk()
    {
      forall i | 0 <= i < |blocks|
        ensures blocks[i].data == arrays[i] && blocks[i].Valid() && parts[i] == blocks[i].Words()
        ensures IsBlock(blocks[i].next, blocks, i + 1)
        ensures blocks[i].bfirst == 0 && !blocks[i].Empty()
        ensures i < |blocks| - 1 ==> blocks[i].Full()
      {
        assert unchanged(old(blocks)[i + 1]) && unchanged(old(arrays)[i + 1]) && blocks[i] == old(blocks)[i + 1] &&
          arrays[i] == old(arrays)[i + 1];
        assert parts[i] == old(parts)[i + 1] == old(parts[i + 1]);
      }
    }

    lemma LoneFirst()
      requires Valid() && Items() != []
      ensures first != null && first.Valid() && !first.Empty() && blocks != [] && first == blocks[0] && parts != [] &&
        parts[0] == first.Words()
      ensures parts[0] != []
    {
      EmptyIs();
      BlockIs(0);
    }

    method Drop()
      requires Valid()
      modifies this, first
      ensures Valid() && Items() == if old(Items()) == [] then [] else old(Items())[1..]
      ensures (forall b :: b in blocks ==> b in old(blocks)) && forall a :: a in arrays ==> a in old(arrays)
    {
      EmptyIs();
      if !Empty() {
        DropFirst();
      }
    }

    /** None: the program ends. */
    method GetDrop() returns (val: Option<int>)
      requires Valid()
      modifies this, first
      ensures Valid()
      ensures if old(Items()) == [] then val.None? && Items() == []
        else val == Some(old(Items())[0]) && Items() == old(Items())[1..]
      ensures (forall b :: b in blocks ==> b in old(blocks)) && forall a :: a in arrays ==> a in old(arrays)
    {
      EmptyIs();
      if Empty() {
        return None;
      }
      var v := Get();
      DropFirst();
      return Some(v);
    }
  }

  // ---- runs ----

  datatype Op = Put(val: int) | Drop | GetDrop

  /** A plain queue, what getdrop has returned from it, and whether that has ended the
      program. */
  datatype Plain = Plain(items: seq<int>, got: seq<int>, ended: bool)

  function Do(q: Plain, op: Op): Plain {
    if q.ended then q
    else
      match op
      case Put(val) => q.(items := q.items + [val])
      case Drop => if q.items == [] then q else q.(items := q.items[1..])
      case GetDrop =>
        if q.items == [] then q.(ended := true) else q.(items := q.items[1..], got := q.got + [q.items[0]])
  }

  function DoAll(ops: seq<Op>): Plain {
    if ops == [] then Plain([], [], false) else Do(DoAll(ops[..|ops| - 1]), ops[|ops| - 1])
  }

  /** Any run of operations on a new queue of blocks is the same run on the plain one. */
  method Run(ops: seq<Op>) returns (f: Fifo, got: seq<int>, ended: bool)
    ensures f.Valid() && Plain(f.Items(), got, ended) == DoAll(ops)
  {
    hide Flatten;
    f := new Fifo();
    got, ended := [], false;
    var i := 0;
    while i < |ops|
      invariant 0 <= i <= |ops| && fresh(f) && f.Valid()
      invariant (forall b :: b in f.blocks ==> fresh(b)) && forall a :: a in f.arrays ==> fresh(a)
      invariant Plain(f.Items(), got, ended) == DoAll(ops[..i])
    {
      assert ops[..i + 1][..i] == ops[..i];
      if !ended {
        f.Frame();
        match ops[i] {
          case Put(val) => f.Put(val);
          case Drop => f.Drop();
          case GetDrop =>
            var val := f.GetDrop();
            if val.None? {
              ended := true;
            } else {
              got := got + [val.value];
            }
        }
      }
      i := i + 1;
    }
    assert ops[..i] == ops;
  }

  /** All values put in so far, up to the end of the program. */
  function PutIn(ops: seq<Op>): seq<int> {
    if ops == [] then []
    else
      var n := |ops| - 1;
      PutIn(ops[..n]) + if ops[n].Put? && !DoAll(ops[..n]).ended then [ops[n].val] else []
  }

  /** The queue holds the last of the values put in, and nothing else. */
  lemma {:induction false} QueueIsTail(ops: seq<Op>)
    ensures |DoAll(ops).items| <= |PutIn(ops)|
    ensures DoAll(ops).items == PutIn(ops)[|PutIn(ops)| - |DoAll(ops).items|..]
  {
    if ops != [] {
      QueueIsTail(ops[..|ops| - 1]);
    }
  }

  lemma ApartFrom(s: seq<object>, i: nat)
    requires Apart(s) && i < |s|
    ensures forall k :: 0 <= k < |s| && k != i ==> s[k] != s[i]
  {
  }

  lemma ApartTail(s: seq<object>)
    requires Apart(s) && s != []
    ensures Apart(s[1..])
  {
  }

  lemma ApartSnoc(s: seq<object>, x: object)
    requires Apart(s) && x !in s
    ensures Apart(s + [x])
  {
  }
}
