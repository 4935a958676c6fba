/**
  Procedure lists: the builder (proclib/proc_plist.cc) and the test and the
  interpreter of the local servers (commu/commu_local_server_i.cc).
*/
module ProcList {
  import opened Util
  import opened ByteOrder

  /*
    A list is a count and, for each call, the procedure's number, the number of its
    arguments and the arguments.  The interpreter reads memory at any address; what the
    procedures do is left open: `Procs` says what each answers, given the calls executed
    before it.
  */

  datatype Call = Call(proc: word, args: seq<word>)

  /** Two more than the number of arguments still fits a word. */
  predicate CallOk(c: Call) {
    |c.args| < 0xFFFF_FFFE
  }

  function EncodedCall(c: Call): seq<word>
    requires CallOk(c)
  {
    [c.proc, |c.args|] + c.args
  }

  predicate CallsOk(calls: seq<Call>) {
    forall i :: 0 <= i < |calls| ==> CallOk(calls[i])
  }

  function EncodedCalls(calls: seq<Call>): seq<word>
    requires CallsOk(calls)
  {
    if calls == [] then [] else EncodedCalls(calls[..|calls| - 1]) + EncodedCall(calls[|calls| - 1])
  }

  function Encoded(calls: seq<Call>): (ws: seq<word>)
    requires CallsOk(calls) && |calls| < 0x1_0000_0000
    ensures |ws| == 1 + |EncodedCalls(calls)|
  {
    [|calls|] + EncodedCalls(calls)
  }

  // ---- reading ----

  type Mem = nat -> word

  /** Where the words lie in memory. */
  ghost predicate Holds(mem: Mem, at: nat, ws: seq<word>) {
    forall i :: 0 <= i < |ws| ==> mem(at + i) == ws[i]
  }

  /** The call a pointer points to. */
  function CallAt(mem: Mem, p: nat): Call {
    Call(mem(p), seq(mem(p + 1), i requires 0 <= i < mem(p + 1) => mem(p + 2 + i)))
  }

  /** The pointer behind the call: two more than the number of arguments, which is
      added up in a word. */
  function Next(mem: Mem, p: nat): nat {
    p + (mem(p + 1) + 2) % 0x1_0000_0000
  }

  /** The pointer after n calls. */
  function After(mem: Mem, p: nat, n: nat): (q: nat)
    ensures q >= p
    decreases n
  {
    if n == 0 then p else After(mem, Next(mem, p), n - 1)
  }

  /** The n calls from a pointer on. */
  function CallsAt(mem: Mem, p: nat, n: nat): (calls: seq<Call>)
    ensures |calls| == n
    decreases n
  {
    if n == 0 then [] else [CallAt(mem, p)] + CallsAt(mem, Next(mem, p), n - 1)
  }

  // ---- the interpreter ----

  /** The answers of the procedures (0 is plOK) and of their tests. */
  datatype Procs = Procs(count: nat, run: (seq<Call>, Call) -> word, test: Call -> word)

  /** Ran: all calls; Broke: the 1-based index of the failing call and its error. */
  datatype Scan = Ran | Broke(index: nat, error: word)

  /** The calls executed (the failing one last) and the outcome. */
  function Execute(procs: Procs, done: seq<Call>, calls: seq<Call>, index: nat): (seq<Call>, Scan)
    decreases |calls|
  {
    if calls == [] then (done, Ran)
    else
      var res := procs.run(done, calls[0]);
      if res != 0 then (done + [calls[0]], Broke(index, res))
      else Execute(procs, done + [calls[0]], calls[1..], index + 1)
  }

  /** What a list of calls is meant to do: the first that fails ends it. */
  predicate Meant(procs: Procs, calls: seq<Call>, executed: seq<Call>, r: Scan) {
    && executed <= calls
    && (forall k :: 0 <= k < |executed| && !(r.Broke? && k == |executed| - 1) ==> procs.run(calls[..k], calls[k]) == 0)
    && match r
       case Ran => executed == calls
       case Broke(index, error) =>
         index == |executed| > 0 && error != 0 && procs.run(calls[..index - 1], calls[index - 1]) == error
  }

  lemma {:induction false} ExecuteIsMeant(procs: Procs, done: seq<Call>, calls: seq<Call>)
    requires forall k :: 0 <= k < |done| ==> procs.run((done + calls)[..k], (done + calls)[k]) == 0
    ensures var (executed, r) := Execute(procs, done, calls, |done| + 1);
      Meant(procs, done + calls, executed, r)
    decreases |calls|
  {
    var all := done + calls;
    if calls == [] {
      assert all == done;
    } else {
      var next := done + [calls[0]];
      assert all == next + calls[1..] && all[..|done|] == done && all[|done|] == calls[0];
      if procs.run(done, calls[0]) == 0 {
        forall k | 0 <= k < |next| ensures procs.run(all[..k], all[k]) == 0 {
        }
        ExecuteIsMeant(procs, next, calls[1..]);
      }
    }
  }

  /** scan_proclist.  Its counter is a signed word that is counted down to 0: a count
      with the sign bit set runs through all its turns too. */
  method ScanProclist(procs: Procs, mem: Mem) returns (executed: seq<Call>, r: Scan)
    ensures (executed, r) == Execute(procs, [], CallsAt(mem, 1, mem(0)), 1)
  {
    var num: nat := mem(0);
    var i: nat, ptr: nat := num, 1;
    executed := [];
    while i > 0
      invariant 0 <= i <= num && ptr >= 1
      invariant Execute(procs, [], CallsAt(mem, 1, num), 1) == Execute(procs, executed, CallsAt(mem, ptr, i),
        num - i + 1)
    {
      i := i - 1;
      ghost var rest := CallsAt(mem, ptr, i + 1);
      assert rest[0] == CallAt(mem, ptr) && rest[1..] == CallsAt(mem, Next(mem, ptr), i);
      var call := CallAt(mem, ptr);
      var res := procs.run(executed, call);
      executed := executed + [call];
      if res != 0 {
        return executed, Broke(num - i, res);
      }
      ptr := Next(mem, ptr);
    }
    r := Ran;
  }

  // ---- the test ----

  datatype Verdict = Accepted | Rejected(index: nat, why: Why)
  datatype Why = NoSuchProc(proc: word) | BadArgCounter(args: word) | TestFailed(error: word)

  /** The word as the C int it is compared as. */
  function Signed(w: word): int {
    if w < 0x8000_0000 then w else w - 0x1_0000_0000
  }

  /** The complaint about the call at p, if any, in a list of len words. */
  function Complaint(procs: Procs, mem: Mem, len: int, p: nat): Option<Why> {
    if Signed(mem(p)) >= procs.count then Some(NoSuchProc(mem(p)))
    else if p + mem(p + 1) + 2 > len then Some(BadArgCounter(mem(p + 1)))
    else
      var res := procs.test(CallAt(mem, p));
      if res != 0 then Some(TestFailed(res)) else None
  }

  function Test(procs: Procs, mem: Mem, len: int, p: nat, n: nat, index: nat): Verdict
    decreases n
  {
    if n == 0 then Accepted
    else
      match Complaint(procs, mem, len, p)
      case Some(why) => Rejected(index, why)
      case None => Test(procs, mem, len, Next(mem, p), n - 1, index + 1)
  }

  /** test_proclist */
  method TestProclist(procs: Procs, mem: Mem, len: int) returns (v: Verdict)
    ensures v == Test(procs, mem, len, 1, Turns(mem(0)), 1)
  {
    var anz := Turns(mem(0));
    var ptr: nat := 1;
    var i := 0;
    while i < anz
      invariant 0 <= i <= anz
      invariant Test(procs, mem, len, 1, anz, 1) == Test(procs, mem, len, ptr, anz - i, i + 1)
    {
      if Signed(mem(ptr)) >= procs.count {
        return Rejected(i + 1, NoSuchProc(mem(ptr)));
      }
      if ptr + mem(ptr + 1) + 2 > len {
        return Rejected(i + 1, BadArgCounter(mem(ptr + 1)));
      }
      var res := procs.test(CallAt(mem, ptr));
      if res != 0 {
        return Rejected(i + 1, TestFailed(res));
      }
      ptr := Next(mem, ptr);
      i := i + 1;
    }
    return Accepted;
  }

  /** Every call from p on names a procedure there is, passes its test, and ends within
      len words. */
  ghost predicate AllGood(procs: Procs, mem: Mem, len: int, p: nat, n: nat) {
    forall k :: 0 <= k < n ==> Complaint(procs, mem, len, After(mem, p, k)).None?
  }

  lemma AllGoodCons(procs: Procs, mem: Mem, len: int, p: nat, n: nat)
    requires n > 0
    ensures AllGood(procs, mem, len, p, n) <==>
      Complaint(procs, mem, len, p).None? && AllGood(procs, mem, len, Next(mem, p), n - 1)
  {
    hide Complaint;
    var q := Next(mem, p);
    assert After(mem, p, 0) == p;
    assert forall k :: 0 <= k < n - 1 ==> After(mem, p, k + 1) == After(mem, q, k);
    if AllGood(procs, mem, len, p, n) {
      forall k | 0 <= k < n - 1 ensures Complaint(procs, mem, len, After(mem, q, k)).None? {
        assert After(mem, p, k + 1) == After(mem, q, k);
      }
    }
    if Complaint(procs, mem, len, p).None? && AllGood(procs, mem, len, q, n - 1) {
      forall k | 0 <= k < n ensures Complaint(procs, mem, len, After(mem, p, k)).None? {
        assert k > 0 ==> After(mem, p, k) == After(mem, q, k - 1);
      }
    }
  }

  /** The test accepts exactly the lists of good calls; otherwise it names the first that
      is not good, and what is wrong with it. */
  lemma {:induction false} AcceptsExactly(procs: Procs, mem: Mem, len: int, p: nat, n: nat, index: nat)
    ensures var v := Test(procs, mem, len, p, n, index);
      && (v.Accepted? <==> AllGood(procs, mem, len, p, n))
      && (v.Rejected? ==> index <= v.index < index + n && AllGood(procs, mem, len, p, v.index - index))
      && (v.Rejected? ==> Complaint(procs, mem, len, After(mem, p, v.index - index)) == Some(v.why))
    decreases n
  {
    hide Complaint, AllGood;
    if n == 0 {
      assert AllGood(procs, mem, len, p, n) by { NoneBad(procs, mem, len, p); }
    } else {
      var q := Next(mem, p);
      AllGoodCons(procs, mem, len, p, n);
      if Complaint(procs, mem, len, p).None? {
        AcceptsExactly(procs, mem, len, q, n - 1, index + 1);
        var v := Test(procs, mem, len, p, n, index);
        if v.Rejected? {
          AllGoodCons(procs, mem, len, p, v.index - index);
        }
      } else {
        NoneBad(procs, mem, len, p);
      }
    }
  }

  lemma NoneBad(procs: Procs, mem: Mem, len: int, p: nat)
    ensures AllGood(procs, mem, len, p, 0)
  {
  }

  lemma {:induction false} AfterSum(mem: Mem, p: nat, m: nat, n: nat)
    ensures After(mem, p, m + n) == After(mem, After(mem, p, m), n)
    decreases m
  {
    if m > 0 {
      AfterSum(mem, Next(mem, p), m - 1, n);
    }
  }

  /** The calls the interpreter comes to, and their arguments, lie within len words. */
  ghost predicate Within(mem: Mem, len: int, n: nat) {
    forall k :: 0 <= k < n ==> CallEnd(mem, k) <= len
  }

  /** Where the arguments of the k-th call of a list end. */
  function CallEnd(mem: Mem, k: nat): nat {
    After(mem, 1, k) + 2 + mem(After(mem, 1, k) + 1)
  }

  /** Calls within a length that fits an int take at least two words each. */
  lemma {:induction false} WithinAdvances(mem: Mem, len: int, n: nat)
    requires len < 0x8000_0000 && Within(mem, len, n)
    ensures After(mem, 1, n) >= 1 + 2 * n && (n > 0 ==> After(mem, 1, n) <= len)
  {
    hide After, CallEnd;
    if n == 0 {
      NoCalls(mem);
    } else {
      WithinAdvances(mem, len, n - 1);
      AfterSum(mem, 1, n - 1, 1);
      AfterOne(mem, After(mem, 1, n - 1));
      assert CallEnd(mem, n - 1) <= len;
      EndsAt(mem, n - 1);
    }
  }

  lemma NoCalls(mem: Mem)
    ensures After(mem, 1, 0) == 1
  {
  }

  lemma EndsAt(mem: Mem, k: nat)
    requires CallEnd(mem, k) < 0x8000_0000
    ensures Next(mem, After(mem, 1, k)) == CallEnd(mem, k) >= After(mem, 1, k) + 2
  {
    hide After;
  }

  /** A list the test accepts is interpreted within its length exactly if its count has
      no sign bit: a negative count is accepted unseen. */
  lemma AcceptedStaysWithin(procs: Procs, mem: Mem, len: int)
    requires 1 <= len < 0x8000_0000
    requires Test(procs, mem, len, 1, Turns(mem(0)), 1).Accepted?
    ensures Within(mem, len, mem(0)) <==> mem(0) < 0x8000_0000
  {
    hide Complaint, After;
    AcceptsExactly(procs, mem, len, 1, Turns(mem(0)), 1);
    if mem(0) < 0x8000_0000 {
      forall k | 0 <= k < mem(0) ensures CallEnd(mem, k) <= len {
        assert Complaint(procs, mem, len, After(mem, 1, k)).None?;
        NoComplaint(procs, mem, len, After(mem, 1, k));
      }
    } else if Within(mem, len, mem(0)) {
      WithinAdvances(mem, len, mem(0));
    }
  }

  lemma AfterOne(mem: Mem, p: nat)
    ensures After(mem, p, 1) == Next(mem, p)
  {
    assert After(mem, Next(mem, p), 0) == Next(mem, p);
  }

  lemma NoComplaint(procs: Procs, mem: Mem, len: int, p: nat)
    requires Complaint(procs, mem, len, p).None?
    ensures p + 2 + mem(p + 1) <= len
    ensures procs.count <= 0x8000_0000 ==> (mem(p) < procs.count <==> mem(p) < 0x8000_0000)
  {
  }

  /** And its calls name procedures there are exactly if their numbers have no sign bit. */
  lemma AcceptedProcsExist(procs: Procs, mem: Mem, len: int, k: nat)
    requires procs.count <= 0x8000_0000 && k < Turns(mem(0))
    requires Test(procs, mem, len, 1, Turns(mem(0)), 1).Accepted?
    ensures mem(After(mem, 1, k)) < procs.count <==> mem(After(mem, 1, k)) < 0x8000_0000
  {
    hide Complaint;
    AcceptsExactly(procs, mem, len, 1, Turns(mem(0)), 1);
    assert Complaint(procs, mem, len, After(mem, 1, k)).None?;
    NoComplaint(procs, mem, len, After(mem, 1, k));
  }

  /** Such lists exist. */
  lemma NegativeCountIsAccepted(procs: Procs, mem: Mem, len: int)
    requires mem(0) == 0x8000_0000 && 1 <= len < 0x8000_0000
    ensures Test(procs, mem, len, 1, Turns(mem(0)), 1).Accepted? && !Within(mem, len, mem(0))
  {
    AcceptedStaysWithin(procs, mem, len);
  }

  /** A list of one call of procedure -2^31, which no array of procedures has: it is
      accepted if what is called there answers 0. */
  lemma NegativeProcIsAccepted(procs: Procs, mem: Mem)
    requires mem(0) == 1 && mem(1) == 0x8000_0000 && mem(2) == 0
    requires procs.test(Call(0x8000_0000, [])) == 0
    ensures Test(procs, mem, 3, 1, Turns(mem(0)), 1).Accepted?
    ensures mem(After(mem, 1, 0)) == 0x8000_0000 && (procs.count <= 0x8000_0000 ==> !(mem(1) < procs.count))
  {
    assert CallAt(mem, 1) == Call(0x8000_0000, []);
    assert Complaint(procs, mem, 3, 1).None?;
    assert Test(procs, mem, 3, Next(mem, 1), 0, 2).Accepted?;
  }

  // ---- lists of calls in memory ----

  lemma {:induction false} CallsConcat(mem: Mem, p: nat, m: nat, n: nat)
    ensures CallsAt(mem, p, m + n) == CallsAt(mem, p, m) + CallsAt(mem, After(mem, p, m), n)
    decreases m
  {
    hide CallAt;
    if m > 0 {
      CallsConcat(mem, Next(mem, p), m - 1, n);
    }
  }

  lemma OneCall(mem: Mem, p: nat, c: Call)
    requires CallOk(c) && Holds(mem, p, EncodedCall(c))
    ensures CallsAt(mem, p, 1) == [c] && After(mem, p, 1) == p + 2 + |c.args|
  {
    var ws := EncodedCall(c);
    assert mem(p + 0) == ws[0] && mem(p + 1) == ws[1];
    forall i | 0 <= i < |c.args| ensures mem(p + 2 + i) == c.args[i] {
      assert mem(p + (2 + i)) == ws[2 + i];
    }
    assert CallAt(mem, p).args == c.args;
    AfterOne(mem, p);
    assert CallsAt(mem, Next(mem, p), 0) == [];
  }

  lemma ReadsOneMore(mem: Mem, p: nat, calls: seq<Call>, q: nat, c: Call)
    requires CallsAt(mem, p, |calls|) == calls && After(mem, p, |calls|) == q
    requires CallOk(c) && Holds(mem, q, EncodedCall(c))
    ensures CallsAt(mem, p, |calls| + 1) == calls + [c] && After(mem, p, |calls| + 1) == q + 2 + |c.args|
  {
    hide EncodedCall, CallAt, Holds, CallsAt, After;
    OneCall(mem, q, c);
    CallsConcat(mem, p, |calls|, 1);
    AfterSum(mem, p, |calls|, 1);
  }

  lemma {:induction false} ReadsCalls(mem: Mem, p: nat, calls: seq<Call>)
    requires CallsOk(calls) && Holds(mem, p, EncodedCalls(calls))
    ensures CallsAt(mem, p, |calls|) == calls && After(mem, p, |calls|) == p + |EncodedCalls(calls)|
  {
    hide EncodedCall, CallAt, Holds;
    if calls != [] {
      var n := |calls| - 1;
      var front, last := EncodedCalls(calls[..n]), EncodedCall(calls[n]);
      assert EncodedCalls(calls) == front + last;
      HoldsParts(mem, p, front, last);
      ReadsCalls(mem, p, calls[..n]);
      ReadsOneMore(mem, p, calls[..n], p + |front|, calls[n]);
      assert calls == calls[..n] + [calls[n]];
      CallSize(calls[n]);
    }
  }

  lemma CallSize(c: Call)
    requires CallOk(c)
    ensures |EncodedCall(c)| == 2 + |c.args|
  {
  }

  lemma HoldsParts(mem: Mem, p: nat, a: seq<word>, b: seq<word>)
    requires Holds(mem, p, a + b)
    ensures Holds(mem, p, a) && Holds(mem, p + |a|, b)
  {
    var c := a + b;
    forall i | 0 <= i < |a| ensures mem(p + i) == a[i] {
      assert mem(p + i) == c[i];
    }
    forall i | 0 <= i < |b| ensures mem(p + |a| + i) == b[i] {
      assert mem(p + (|a| + i)) == c[|a| + i];
    }
  }

  lemma ReadsEncoded(mem: Mem, calls: seq<Call>)
    requires CallsOk(calls) && |calls| < 0x1_0000_0000 && Holds(mem, 0, Encoded(calls))
    ensures mem(0) == |calls| && CallsAt(mem, 1, mem(0)) == calls && After(mem, 1, mem(0)) == |Encoded(calls)|
  {
    HoldsParts(mem, 0, [|calls|], EncodedCalls(calls));
    assert mem(0 + 0) == [|calls|][0];
    ReadsCalls(mem, 1, calls);
  }

  /** Any list of calls is interpreted as exactly these calls, in order, with their
      arguments, up to the first that fails, whose 1-based index is reported. */
  lemma InterpretsEncoded(procs: Procs, mem: Mem, calls: seq<Call>)
    requires CallsOk(calls) && |calls| < 0x1_0000_0000 && Holds(mem, 0, Encoded(calls))
    ensures var (executed, r) := Execute(procs, [], CallsAt(mem, 1, mem(0)), 1);
      Meant(procs, calls, executed, r)
  {
    hide Encoded, Holds, CallsAt, Execute, Meant;
    ReadsEncoded(mem, calls);
    ExecuteIsMeant(procs, [], calls);
    assert [] + calls == calls;
  }

  lemma {:induction false} CallsNth(mem: Mem, p: nat, n: nat, k: nat)
    requires k < n
    ensures CallsAt(mem, p, n)[k] == CallAt(mem, After(mem, p, k)) && After(mem, p, k + 1) <= After(mem, p, n)
    ensures After(mem, p, k + 1) == Next(mem, After(mem, p, k))
    decreases k
  {
    hide CallAt;
    if k == 0 {
      AfterOne(mem, p);
      AfterSum(mem, p, 1, n - 1);
    } else {
      CallsNth(mem, Next(mem, p), n - 1, k - 1);
    }
  }

  /** An encoded list within the length passed is accepted exactly if all its procedures
      are there and pass their tests. */
  lemma EncodedIsAcceptedIff(procs: Procs, mem: Mem, calls: seq<Call>, len: int)
    requires CallsOk(calls) && |calls| < 0x8000_0000 && Holds(mem, 0, Encoded(calls)) && |Encoded(calls)| <= len
    ensures Test(procs, mem, len, 1, Turns(mem(0)), 1).Accepted? <==>
      forall k :: 0 <= k < |calls| ==> Signed(calls[k].proc) < procs.count && procs.test(calls[k]) == 0
  {
    hide Complaint, CallsAt, CallAt, Encoded, Holds, Signed;
    ReadsEncoded(mem, calls);
    var n := |calls|;
    AcceptsExactly(procs, mem, len, 1, n, 1);
    forall k | 0 <= k < n
      ensures Complaint(procs, mem, len, After(mem, 1, k)).None? <==>
                Signed(calls[k].proc) < procs.count && procs.test(calls[k]) == 0
    {
      CallsNth(mem, 1, n, k);
      NoComplaintIff(procs, mem, len, After(mem, 1, k), calls[k]);
    }
  }

  lemma NoComplaintIff(procs: Procs, mem: Mem, len: int, p: nat, c: Call)
    requires CallOk(c) && CallAt(mem, p) == c && Next(mem, p) <= len
    ensures Complaint(procs, mem, len, p).None? <==> Signed(c.proc) < procs.count && procs.test(c) == 0
  {
    hide Signed;
    assert |c.args| == mem(p + 1);
  }

  /** What is wrong with the k-th call of a list passed with this length. */
  function Trouble(procs: Procs, calls: seq<Call>, len: int, k: nat): Option<Why>
    requires CallsOk(calls) && k < |calls|
  {
    var c := calls[k];
    if Signed(c.proc) >= procs.count then Some(NoSuchProc(c.proc))
    else if 1 + |EncodedCalls(calls[..k])| + 2 + |c.args| > len then Some(BadArgCounter(|c.args|))
    else if procs.test(c) != 0 then Some(TestFailed(procs.test(c)))
    else None
  }

  /** Where the k-th call lies, and that it is read there. */
  lemma NthLies(mem: Mem, calls: seq<Call>, k: nat)
    requires CallsOk(calls) && |calls| < 0x1_0000_0000 && Holds(mem, 0, Encoded(calls)) && k < |calls|
    ensures After(mem, 1, k) == 1 + |EncodedCalls(calls[..k])| && CallAt(mem, After(mem, 1, k)) == calls[k]
  {
    hide CallAt, After, CallsAt;
    ReadsEncoded(mem, calls);
    CallsNth(mem, 1, |calls|, k);
    HoldsParts(mem, 0, [|calls|], EncodedCalls(calls));
    EncodedFront(calls, k);
    HoldsParts(mem, 1, EncodedCalls(calls[..k]), EncodedCalls(calls)[|EncodedCalls(calls[..k])|..]);
    ReadsCalls(mem, 1, calls[..k]);
  }

  lemma {:induction false} EncodedFront(calls: seq<Call>, k: nat)
    requires CallsOk(calls) && k <= |calls|
    ensures EncodedCalls(calls[..k]) <= EncodedCalls(calls)
    decreases |calls|
  {
    hide EncodedCall;
    if k < |calls| {
      var front := calls[..|calls| - 1];
      assert front[..k] == calls[..k];
      EncodedFront(front, k);
    } else {
      assert calls[..k] == calls;
    }
  }

  lemma TroubleIs(procs: Procs, mem: Mem, len: int, calls: seq<Call>, k: nat)
    requires CallsOk(calls) && |calls| < 0x1_0000_0000 && Holds(mem, 0, Encoded(calls)) && k < |calls|
    ensures Complaint(procs, mem, len, After(mem, 1, k)) == Trouble(procs, calls, len, k)
  {
    hide Signed, Holds, Encoded, EncodedCalls, After;
    NthLies(mem, calls, k);
    var p := After(mem, 1, k);
    assert |calls[k].args| == mem(p + 1) && calls[k].proc == mem(p);
  }

  /** Whatever length is passed with it, an encoded list is rejected for the first call
      that is in trouble, with its 1-based index and what is wrong with it. */
  lemma EncodedVerdict(procs: Procs, mem: Mem, calls: seq<Call>, len: int, k: nat)
    requires CallsOk(calls) && |calls| < 0x8000_0000 && Holds(mem, 0, Encoded(calls)) && k <= |calls|
    requires forall j :: 0 <= j < k ==> Trouble(procs, calls, len, j).None?
    requires k < |calls| ==> Trouble(procs, calls, len, k).Some?
    ensures Test(procs, mem, len, 1, Turns(mem(0)), 1)
         == if k == |calls| then Accepted else Rejected(k + 1, Trouble(procs, calls, len, k).value)
  {
    hide Complaint, CallsAt, CallAt, Encoded, Holds, Trouble, After;
    ReadsEncoded(mem, calls);
    var n := |calls|;
    AcceptsExactly(procs, mem, len, 1, n, 1);
    forall j | 0 <= j < n
      ensures Complaint(procs, mem, len, After(mem, 1, j)) == Trouble(procs, calls, len, j)
    {
      TroubleIs(procs, mem, len, calls, j);
    }
  }
}
