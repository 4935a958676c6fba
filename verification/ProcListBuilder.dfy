/**
  The builder of procedure lists (C_proclist of proclib/proc_plist.cc): words are written
  as calls and parameters are added, counts are filled in later, and what is sent is the
  encoding of the calls.
*/
module ProcListBuilder {
  import opened Util
  import opened ByteOrder
  import Xdr
  import P = ProcList

  /** These words are a list of these calls, except for the count of the calls and the
      argument count of the last one, which are written by listend. */
  predicate IsList(ws: seq<word>, procIdx: nat, calls: seq<P.Call>) {
    && P.CallsOk(calls) && 1 <= |ws|
    && if calls == [] then |ws| == 1
       else
         var front, last := calls[..|calls| - 1], calls[|calls| - 1];
         && 1 <= procIdx && procIdx + 2 <= |ws| && ws[procIdx] == last.proc
         && ws[1..procIdx] == P.EncodedCalls(front) && ws[procIdx + 2..] == last.args
  }

  /** The last call's argument count filled in. */
  function Counted(ws: seq<word>, procIdx: nat, calls: seq<P.Call>): (r: seq<word>)
    requires IsList(ws, procIdx, calls)
    ensures |r| == |ws|
  {
    if calls == [] then ws else ws[procIdx + 1 := |ws| - procIdx - 2]
  }

  lemma CountedIs(ws: seq<word>, procIdx: nat, calls: seq<P.Call>)
    requires IsList(ws, procIdx, calls)
    ensures Counted(ws, procIdx, calls)[1..] == P.EncodedCalls(calls)
    ensures IsList(Counted(ws, procIdx, calls), procIdx, calls)
  {
    var r := Counted(ws, procIdx, calls);
    if calls != [] {
      var last := calls[|calls| - 1];
      assert r[1..procIdx] == ws[1..procIdx] && r[procIdx + 2..] == ws[procIdx + 2..];
      assert r[1..] == r[1..procIdx] + [r[procIdx], r[procIdx + 1]] + r[procIdx + 2..];
      assert r[1..] == P.EncodedCalls(calls[..|calls| - 1]) + P.EncodedCall(last);
    }
  }

  /** Parameters go to the last call. */
  function WithArgs(calls: seq<P.Call>, pars: seq<word>): (r: seq<P.Call>)
    requires calls != []
    ensures |r| == |calls|
  {
    var n := |calls| - 1;
    calls[n := calls[n].(args := calls[n].args + pars)]
  }

  lemma ParsAdded(ws: seq<word>, procIdx: nat, calls: seq<P.Call>, pars: seq<word>)
    requires IsList(ws, procIdx, calls) && calls != [] && P.CallsOk(WithArgs(calls, pars))
    ensures IsList(ws + pars, procIdx, WithArgs(calls, pars))
  {
    var after := WithArgs(calls, pars);
    assert after[..|after| - 1] == calls[..|calls| - 1];
    assert (ws + pars)[1..procIdx] == ws[1..procIdx];
    assert (ws + pars)[procIdx + 2..] == ws[procIdx + 2..] + pars;
  }

  lemma ProcAdded(ws: seq<word>, procIdx: nat, calls: seq<P.Call>, proc: word, any: word)
    requires IsList(ws, procIdx, calls)
    ensures IsList(Counted(ws, procIdx, calls) + [proc, any], |ws|, calls + [P.Call(proc, [])])
  {
    var after := calls + [P.Call(proc, [])];
    var r := Counted(ws, procIdx, calls) + [proc, any];
    CountedIs(ws, procIdx, calls);
    assert after[..|after| - 1] == calls;
    assert r[1..|ws|] == Counted(ws, procIdx, calls)[1..];
  }

  lemma EndedIs(ws: seq<word>, procIdx: nat, calls: seq<P.Call>)
    requires IsList(ws, procIdx, calls) && |calls| < 0x1_0000_0000
    ensures Counted(ws, procIdx, calls)[0 := |calls|] == P.Encoded(calls)
  {
    hide IsList;
    CountedIs(ws, procIdx, calls);
    var r := Counted(ws, procIdx, calls);
    NotEmpty(ws, procIdx, calls);
    assert r[0 := |calls|] == [|calls|] + r[1..];
  }

  lemma NotEmpty(ws: seq<word>, procIdx: nat, calls: seq<P.Call>)
    requires IsList(ws, procIdx, calls)
    ensures ws != [] && P.CallsOk(calls)
    ensures calls != [] ==> 1 <= procIdx && procIdx + 2 <= |ws|
  {
  }

  class Builder {
    const host: Endian
    var list: array<word>
    var listsize: nat
    var listIdx: nat
    var procIdx: nat
    var procNum: nat
    ghost var calls: seq<P.Call>

    /** Everything has been written that listend does not write. */
    ghost predicate Valid()
      reads this, list
    {
      list.Length == listsize && listIdx <= listsize && procNum == |calls| && IsList(list[..listIdx], procIdx, calls)
    }

    constructor (host: Endian)
      ensures Valid() && fresh(list) && calls == [] && this.host == host
    {
      this.host := host;
      listsize, listIdx, procIdx, procNum, calls := 100, 1, 0, 0, [];
      list := new word[100];
    }

    method Clear()
      requires Valid()
      modifies this
      ensures Valid() && calls == [] && list == old(list)
    {
      NotEmpty(list[..listIdx], procIdx, calls);
      listIdx, procNum, calls := 1, 0, [];
    }

    /** Room for num more words. */
    method Growlist(num: nat)
      requires Valid()
      modifies this`list, this`listsize
      ensures Valid() && listIdx + num <= listsize && (list == old(list) || fresh(list))
      ensures list[..listIdx] == old(list[..listIdx])
    {
      hide IsList;
      if listsize >= listIdx + num {
        return;
      }
      var help := new word[listIdx + num + 100];
      listsize := listIdx + num + 100;
      var i := 0;
      while i < listIdx
        invariant 0 <= i <= listIdx <= list.Length && list == old(list) && list[..] == old(list[..]) &&
          listsize == help.Length
        invariant forall k :: 0 <= k < i ==> help[k] == list[k]
      {
        help[i] := list[i];
        i := i + 1;
      }
      assert help[..listIdx] == list[..listIdx] == old(list[..listIdx]);
      list := help;
    }

    /** The argument count of the last call. */
    method CountLast()
      requires Valid() && |list[..listIdx]| < 0x8000_0000
      modifies list
      ensures Valid() && list[..listIdx] == Counted(old(list[..listIdx]), procIdx, calls)
    {
      hide IsList;
      NotEmpty(list[..listIdx], procIdx, calls);
      CountedIs(list[..listIdx], procIdx, calls);
      ghost var ws := list[..listIdx];
      if procNum > 0 {
        list[procIdx + 1] := listIdx - procIdx - 2;
      }
      assert list[..listIdx] == Counted(ws, procIdx, calls);
    }

    method Listend()
      requires Valid() && listIdx < 0x8000_0000 && |calls| < 0x8000_0000
      modifies list
      ensures Valid() && list[..listIdx] == P.Encoded(calls)
    {
      hide IsList;
      EndedIs(list[..listIdx], procIdx, calls);
      ghost var ws := list[..listIdx];
      CountLast();
      NotEmpty(list[..listIdx], procIdx, calls);
      list[0] := procNum;
      assert list[..listIdx] == Counted(ws, procIdx, calls)[0 := |calls|];
      FirstIsFree(Counted(ws, procIdx, calls), procIdx, calls, |calls|);
    }

    lemma FirstIsFree(ws: seq<word>, procIdx: nat, calls: seq<P.Call>, n: word)
      requires IsList(ws, procIdx, calls)
      ensures IsList(ws[0 := n], procIdx, calls)
    {
      if calls != [] {
        assert ws[0 := n][1..procIdx] == ws[1..procIdx] && ws[0 := n][procIdx + 2..] == ws[procIdx + 2..];
      }
    }

    method AddProc(proc: word)
      requires Valid() && listIdx < 0x8000_0000
      modifies this, list
      ensures Valid() && calls == old(calls) + [P.Call(proc, [])] && (list == old(list) || fresh(list))
    {
      hide IsList;
      Growlist(2);
      ghost var ws := list[..listIdx];
      CountLast();
      list[listIdx] := proc;
      ProcAdded(ws, procIdx, calls, proc, list[listIdx + 1]);
      assert list[..listIdx + 2] == list[..listIdx] + [proc, list[listIdx + 1]];
      procIdx := listIdx;
      procNum := procNum + 1;
      listIdx := listIdx + 2;
      calls := calls + [P.Call(proc, [])];
    }

    /** add_par with one or several parameters; false for the exception of a parameter
        without procedure. */
    method AddPars(pars: seq<word>) returns (ok: bool)
      requires Valid() && listIdx + |pars| < 0x8000_0000
      modifies this, list
      ensures Valid() && ok == (old(calls) != []) && (list == old(list) || fresh(list))
      ensures calls == if ok then WithArgs(old(calls), pars) else old(calls)
    {
      hide IsList;
      if procNum == 0 {
        return false;
      }
      Growlist(|pars|);
      ghost var ws := list[..listIdx];
      var i := 0;
      while i < |pars|
        invariant 0 <= i <= |pars| && listIdx == |ws| + i && |ws| + |pars| <= listsize == list.Length
        invariant list[..listIdx] == ws + pars[..i] && unchanged(`procIdx, `procNum, `calls)
        invariant list == old(list) || fresh(list)
      {
        list[listIdx] := pars[i];
        listIdx := listIdx + 1;
        i := i + 1;
      }
      assert pars[..i] == pars;
      Fits(ws, procIdx, calls, pars);
      ParsAdded(ws, procIdx, calls, pars);
      calls := WithArgs(calls, pars);
      return true;
    }

    lemma Fits(ws: seq<word>, procIdx: nat, calls: seq<P.Call>, pars: seq<word>)
      requires IsList(ws, procIdx, calls) && calls != [] && |ws| + |pars| < 0x8000_0000
      ensures P.CallsOk(WithArgs(calls, pars))
    {
    }

    /** The string's words behind the list. */
    method PutString(par: seq<byte>, len: nat)
      requires 0 !in par && |par| < 0x8000_0000 && len == |Xdr.Encoded(par)| && listIdx + len <= list.Length
      modifies list
      ensures list[..listIdx + len] == old(list[..listIdx]) + Xdr.Encoded(par)
    {
      hide Xdr.Encoded, Splice;
      Cut(par);
      ghost var was := list[..];
      var next := Xdr.OutString(host, list, listIdx, par, None);
      Appended(was, list[..], listIdx, Xdr.Encoded(par));
    }

    /** add_par with a string */
    method AddString(par: seq<byte>) returns (ok: bool)
      requires Valid() && 0 !in par && listIdx + |par| < 0x7FFF_FFF0
      modifies this, list
      ensures Valid() && ok == (old(calls) != []) && (list == old(list) || fresh(list))
      ensures calls == if ok then WithArgs(old(calls), Xdr.Encoded(par)) else old(calls)
    {
      hide IsList, WithArgs, Xdr.Encoded, Xdr.WordsFor;
      if procNum == 0 {
        return false;
      }
      var len := 1 + Xdr.WordsFor(|par|);
      Words(par);
      Growlist(len);
      ghost var ws, x := list[..listIdx], Xdr.Encoded(par);
      PutString(par, len);
      listIdx := listIdx + len;
      Fits(ws, procIdx, calls, x);
      ParsAdded(ws, procIdx, calls, x);
      calls := WithArgs(calls, x);
      return true;
    }

    lemma Words(par: seq<byte>)
      ensures Xdr.WordsFor(|par|) <= |par|
    {
    }

    lemma Cut(par: seq<byte>)
      ensures Xdr.Cut(par, None) == par
    {
    }

    lemma Appended(was: seq<word>, now: seq<word>, n: nat, x: seq<word>)
      requires n + |x| <= |was| && now == Splice(was, n, x)
      ensures now[..n + |x|] == was[..n] + x
    {
    }

    /** What is sent to the server: the encoding of the calls added. */
    method GetList() returns (liste: array<word>, size: nat)
      requires Valid() && listIdx < 0x8000_0000 && |calls| < 0x8000_0000
      modifies list
      ensures Valid() && liste == list && size == listIdx <= liste.Length && liste[..size] == P.Encoded(calls)
    {
      Listend();
      return list, listIdx;
    }
  }

  /** The words in front, and whatever lies in memory behind them. */
  function InMemory(ws: seq<word>, beyond: P.Mem): P.Mem {
    i requires 0 <= i => if i < |ws| then ws[i] else beyond(i)
  }

  /** What the server executes of a list that was built: the calls that were added, in
      order, up to the first that fails. */
  method ScanList(b: Builder, procs: P.Procs, beyond: P.Mem) returns (executed: seq<P.Call>, r: P.Scan)
    requires b.Valid() && b.listIdx < 0x8000_0000 && |b.calls| < 0x8000_0000
    modifies b.list
    ensures b.Valid() && P.Meant(procs, b.calls, executed, r)
  {
    hide IsList, P.Encoded, P.Execute, P.CallsAt, P.Meant;
    NotEmpty(b.list[..b.listIdx], b.procIdx, b.calls);
    var liste, size := b.GetList();
    var mem := InMemory(liste[..size], beyond);
    executed, r := P.ScanProclist(procs, mem);
    P.InterpretsEncoded(procs, mem, b.calls);
  }

  lemma SizeIs(ws: seq<word>, procIdx: nat, calls: seq<P.Call>)
    requires IsList(ws, procIdx, calls)
    ensures P.CallsOk(calls) && |ws| == 1 + |P.EncodedCalls(calls)|
  {
    CountedIs(ws, procIdx, calls);
  }

  lemma {:induction false} FrontIsShorter(calls: seq<P.Call>, n: nat)
    requires P.CallsOk(calls) && n < |calls|
    ensures |P.EncodedCalls(calls[..n])| + 2 + |calls[n].args| <= |P.EncodedCalls(calls)|
    ensures 2 * |calls| <= |P.EncodedCalls(calls)|
    decreases |calls|
  {
    var front := calls[..|calls| - 1];
    if n < |front| {
      assert front[..n] == calls[..n];
      FrontIsShorter(front, n);
    } else if front != [] {
      FrontIsShorter(front, 0);
    }
  }

  /** Calls that are added one after the other, each with its arguments, are executed as
      they are. */
  method BuildAndScan(host: Endian, calls: seq<P.Call>, procs: P.Procs, beyond: P.Mem)
    returns (executed: seq<P.Call>, r: P.Scan)
    requires P.CallsOk(calls) && |P.EncodedCalls(calls)| < 0x7FFF_FFFF
    ensures P.Meant(procs, calls, executed, r)
  {
    hide IsList, P.EncodedCalls, P.Meant;
    var b := new Builder(host);
    var i := 0;
    while i < |calls|
      invariant 0 <= i <= |calls| && fresh(b) && fresh(b.list) && b.Valid() && b.calls == calls[..i]
    {
      FrontIsShorter(calls, i);
      SizeIs(b.list[..b.listIdx], b.procIdx, b.calls);
      b.AddProc(calls[i].proc);
      SizeIs(b.list[..b.listIdx], b.procIdx, b.calls);
      OneMore(calls[..i], P.Call(calls[i].proc, []));
      var ok := b.AddPars(calls[i].args);
      WholeCall(calls, i);
      i := i + 1;
    }
    assert calls[..i] == calls;
    SizeIs(b.list[..b.listIdx], b.procIdx, b.calls);
    if calls != [] {
      FrontIsShorter(calls, 0);
    }
    executed, r := ScanList(b, procs, beyond);
  }

  lemma WholeCall(calls: seq<P.Call>, n: nat)
    requires n < |calls|
    ensures WithArgs(calls[..n] + [P.Call(calls[n].proc, [])], calls[n].args) == calls[..n + 1]
  {
    assert [] + calls[n].args == calls[n].args;
  }

  lemma OneMore(calls: seq<P.Call>, c: P.Call)
    requires P.CallsOk(calls) && P.CallOk(c)
    ensures |P.EncodedCalls(calls + [c])| == |P.EncodedCalls(calls)| + 2 + |c.args|
  {
    assert (calls + [c])[..|calls|] == calls;
  }
}
