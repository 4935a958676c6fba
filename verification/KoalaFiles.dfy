/** What the KOALA event builder stores of whole events, clusters and files. */
module KoalaFiles {
  import opened Util
  import opened ByteOrder
  import opened Koala

  /*
    An event is its number, a trigger word, a count and that many subevents, each its
    id, its size and its words; a cluster has options, three words, a count and that many
    events, each its size and its words.
  */

  datatype Sub = Sub(id: word, words: seq<word>)

  predicate Sized(words: seq<word>) {
    |words| < 0x8000_0000
  }

  predicate AllSized(subs: seq<Sub>) {
    forall i :: 0 <= i < |subs| ==> Sized(subs[i].words)
  }

  function SubWords(sub: Sub): seq<word>
    requires Sized(sub.words)
  {
    [sub.id, |sub.words|] + sub.words
  }

  function AllSubWords(subs: seq<Sub>): seq<word>
    requires AllSized(subs)
  {
    if subs == [] then [] else SubWords(subs[0]) + AllSubWords(subs[1..])
  }

  /** The words of an event hold these subevents. */
  predicate EventHas(buf: seq<word>, subs: seq<Sub>) {
    AllSized(subs) && |buf| >= 3 && |subs| == Turns(buf[2]) && buf[3..] == AllSubWords(subs)
  }

  // ---- what subevents close ----

  /** A header of a module that is not there. */
  predicate Unknown(d: word) {
    KindOf(d).Header? && KindOf(d).id !in {9, 10, 11}
  }

  /** The words before the first such header: the parser leaves the subevent there. */
  function Known(words: seq<word>): seq<word> {
    if words == [] || Unknown(words[0]) then [] else [words[0]] + Known(words[1..])
  }

  /** The words in which modules are looked for. */
  function ModuleWords(sub: Sub): seq<word> {
    if sub.id == 10 then Known(sub.words) else []
  }

  /** The events of module m that the subevents close, each within one subevent; their
      numbers go on from evnr. */
  function ClosedIn(subs: seq<Sub>, m: nat, evnr: nat): seq<MxEvent>
    requires m < |MODULES|
  {
    if subs == [] then []
    else
      var words := ModuleWords(subs[0]);
      ClosedEvents(words, m, evnr) + ClosedIn(subs[1..], m, evnr + HeadersOf(words, m))
  }

  function HeadersIn(subs: seq<Sub>, m: nat): nat {
    if subs == [] then 0 else HeadersOf(ModuleWords(subs[0]), m) + HeadersIn(subs[1..], m)
  }

  /** Every module has stored, behind what it had, exactly what the subevents close. */
  predicate Stored(a: seq<Mod>, subs: seq<Sub>, b: seq<Mod>) {
    |a| == |b| == |MODULES| && forall m :: 0 <= m < |MODULES| ==>
      b[m].stored == a[m].stored + ClosedIn(subs, m, a[m].headers) &&
      b[m].headers == a[m].headers + HeadersIn(subs, m)
  }

  lemma {:induction false} ClosedConcat(a: seq<Sub>, b: seq<Sub>, m: nat, evnr: nat)
    requires m < |MODULES|
    ensures ClosedIn(a + b, m, evnr) == ClosedIn(a, m, evnr) + ClosedIn(b, m, evnr + HeadersIn(a, m))
    ensures HeadersIn(a + b, m) == HeadersIn(a, m) + HeadersIn(b, m)
  {
    hide ModuleWords, ClosedEvents, HeadersOf;
    if a == [] {
      assert a + b == b;
    } else {
      assert (a + b)[1..] == a[1..] + b;
      ClosedConcat(a[1..], b, m, evnr + HeadersOf(ModuleWords(a[0]), m));
    }
  }

  lemma StoredTwice(a: seq<Mod>, x: seq<Sub>, b: seq<Mod>, y: seq<Sub>, c: seq<Mod>)
    requires Stored(a, x, b) && Stored(b, y, c)
    ensures Stored(a, x + y, c)
  {
    hide ClosedIn, HeadersIn;
    forall m | 0 <= m < |MODULES|
      ensures c[m].stored == a[m].stored + ClosedIn(x + y, m, a[m].headers)
      ensures c[m].headers == a[m].headers + HeadersIn(x + y, m)
    {
      ClosedConcat(x, y, m, a[m].headers);
      assert a[m].stored + (ClosedIn(x, m, a[m].headers) + ClosedIn(y, m, b[m].headers))
          == a[m].stored + ClosedIn(x, m, a[m].headers) + ClosedIn(y, m, b[m].headers);
    }
  }

  lemma StoredNothing(a: seq<Mod>, b: seq<Mod>)
    requires |a| == |b| == |MODULES|
    requires forall m :: 0 <= m < |a| ==> b[m].stored == a[m].stored && b[m].headers == a[m].headers
    ensures Stored(a, [], b)
  {
  }

  // ---- one subevent ----

  lemma {:induction false} KnownSnoc(words: seq<word>, d: word)
    ensures Known(words + [d]) == if Known(words) == words && !Unknown(d) then words + [d] else Known(words)
    ensures |Known(words)| <= |words| && Known(words) == words[..|Known(words)|]
  {
    hide Unknown;
    if words == [] {
      assert ([d])[1..] == [];
    } else {
      assert (words + [d])[1..] == words[1..] + [d];
      KnownSnoc(words[1..], d);
      assert words == [words[0]] + words[1..];
    }
  }

  /** The parser deals with the words before the first unknown header, or fails. */
  lemma {:induction false} UsesKnown(mods: seq<Mod>, words: seq<word>, beyond: Beyond)
    requires |mods| == |MODULES|
    ensures var s := ScanAll(mods, words, beyond);
      && (s.verdict.GoOn? || s.verdict == Leave(0) || s.verdict == Leave(-1))
      && (s.verdict.GoOn? ==> Known(words) == words)
      && (s.verdict == Leave(0) ==> Known(words) == words[..s.used] && Known(words) != words)
  {
    hide ScanWord, ScanOk, Known, KindOf, Unknown;
    if words == [] {
      KnownNothing();
    } else {
      var n := |words| - 1;
      var front, d := words[..n], words[n];
      UsesKnown(mods, front, beyond);
      KnownSnoc(front, d);
      assert words == front + [d];
      var s := ScanAll(mods, front, beyond);
      if s.verdict.GoOn? {
        LeavesAt(s.mods, s.cur, d, beyond);
        assert front == words[..n];
      } else {
        assert front[..s.used] == words[..s.used];
      }
    }
  }

  lemma KnownNothing()
    ensures Known([]) == []
  {
  }

  lemma LeavesAt(mods: seq<Mod>, cur: int, d: word, beyond: Beyond)
    requires ScanOk(mods, cur)
    ensures var v := ScanWord(mods, cur, d, beyond).2;
      (v.GoOn? || v == Leave(0) || v == Leave(-1)) && (v == Leave(0) <==> Unknown(d))
  {
    hide KindOf, Fill, Finished;
  }

  lemma ClosedOne(sub: Sub, m: nat, evnr: nat)
    requires m < |MODULES|
    ensures ClosedIn([sub], m, evnr) == ClosedEvents(ModuleWords(sub), m, evnr)
    ensures HeadersIn([sub], m) == HeadersOf(ModuleWords(sub), m)
  {
    assert [sub][1..] == [];
  }

  /** What parse_mxdc32 leaves is what the known words close. */
  lemma ScanStores(mods: seq<Mod>, words: seq<word>, beyond: Beyond, m: nat)
    requires |mods| == |MODULES| && m < |MODULES| && ScanAll(mods, words, beyond).verdict != Leave(-1)
    ensures var after := ScanAll(mods, words, beyond).mods;
      && |after| == |MODULES|
      && after[m].stored == mods[m].stored + ClosedEvents(Known(words), m, mods[m].headers)
      && after[m].headers == mods[m].headers + HeadersOf(Known(words), m)
  {
    hide KindOf, Known, ClosedEvents, HeadersOf, OpenIs, ScanAll;
    StoresClosedEvents(mods, words, beyond);
    UsesKnown(mods, words, beyond);
    var s := ScanAll(mods, words, beyond);
    assert words[..|words|] == words;
    assert Known(words) == words[..s.used];
    assert ModIs(mods[m], words[..s.used], s.mods[m], m);
  }

  lemma SubeventStores(s: State, sub: Sub, env: Env)
    requires |s.mods| == |MODULES|
    ensures var (t, res) := ParseSubevent(s, sub.id, sub.words, env);
      res <= 0 && (res == 0 ==> Stored(s.mods, [sub], t.mods))
  {
    hide Known, ClosedEvents, HeadersOf, ScanAll, ClosedIn, HeadersIn;
    ScanKeepsModules(s, sub.id, sub.words, env);
    var (t, res) := ParseSubevent(s, sub.id, sub.words, env);
    UsesKnown(s.mods, sub.words, env.beyond);
    if res == 0 {
      forall m | 0 <= m < |MODULES|
        ensures t.mods[m].stored == s.mods[m].stored + ClosedIn([sub], m, s.mods[m].headers)
        ensures t.mods[m].headers == s.mods[m].headers + HeadersIn([sub], m)
      {
        ClosedOne(sub, m, s.mods[m].headers);
        if sub.id == 10 {
          ScanStores(s.mods, sub.words, env.beyond, m);
        } else {
          NothingCloses(m, s.mods[m].headers);
        }
      }
    }
  }

  lemma NothingCloses(m: nat, evnr: nat)
    requires m < |MODULES|
    ensures ClosedEvents([], m, evnr) == [] && HeadersOf([], m) == 0
  {
  }

  // ---- the event data ----

  /** The words of the last subevent of this id. */
  function LastOf(subs: seq<Sub>, id: word): Option<seq<word>> {
    if subs == [] then None
    else
      var later := LastOf(subs[1..], id);
      if later.Some? then later else if subs[0].id == id then Some(subs[0].words) else None
  }

  /** The event data with the last scaler and the last time of these subevents. */
  predicate DataFrom(d: EventData, subs: seq<Sub>, e: EventData) {
    var time, scaler := LastOf(subs, 100), LastOf(subs, 1);
    && e.nr == d.nr && e.nrValid == d.nrValid
    && (if time.Some? then |time.value| == 2 && e.tv == (time.value[0], time.value[1]) && e.tvValid
        else e.tv == d.tv && e.tvValid == d.tvValid)
    && (if scaler.Some? then |scaler.value| == 32 && e.scaler == scaler.value && e.scalerValid
        else e.scaler == d.scaler && e.scalerValid == d.scalerValid)
  }

  lemma SubeventData(s: State, sub: Sub, env: Env)
    requires |s.mods| == |MODULES|
    ensures var (t, res) := ParseSubevent(s, sub.id, sub.words, env);
      t.emitted == s.emitted && (res >= 0 ==> DataFrom(s.data, [sub], t.data))
  {
    hide ScanAll, LastOf;
    LastCons(sub, [], 1);
    LastCons(sub, [], 100);
    LastNone(1);
    LastNone(100);
    assert [sub] + [] == [sub];
  }

  lemma LastCons(sub: Sub, rest: seq<Sub>, id: word)
    ensures LastOf([sub] + rest, id) ==
      if LastOf(rest, id).Some? then LastOf(rest, id) else if sub.id == id then Some(sub.words) else None
  {
    assert ([sub] + rest)[1..] == rest;
  }

  lemma LastNone(id: word)
    ensures LastOf([], id) == None
  {
  }

  lemma DataTwice(a: EventData, sub: Sub, b: EventData, rest: seq<Sub>, c: EventData)
    requires DataFrom(a, [sub], b) && DataFrom(b, rest, c)
    ensures DataFrom(a, [sub] + rest, c)
  {
    hide LastOf;
    LastCons(sub, rest, 1);
    LastCons(sub, rest, 100);
    LastCons(sub, [], 1);
    LastCons(sub, [], 100);
    LastNone(1);
    LastNone(100);
    assert [sub] + [] == [sub];
  }

  // ---- the subevents of an event ----

  lemma SubFirst(sub: Sub, rest: seq<Sub>)
    requires Sized(sub.words) && AllSized(rest)
    ensures AllSized([sub] + rest) && AllSubWords([sub] + rest) == SubWords(sub) + AllSubWords(rest)
  {
    assert ([sub] + rest)[1..] == rest;
  }

  /** These words behind index idx are n subevents. */
  ghost predicate Holds(buf: seq<word>, idx: nat, n: nat, end: nat, subs: seq<Sub>) {
    idx <= end <= |buf| && |subs| == n && AllSized(subs) && buf[idx..end] == AllSubWords(subs)
  }

  lemma HoldsFirst(buf: seq<word>, idx: nat, n: nat, end: nat, sub: Sub, rest: seq<Sub>)
    requires Sized(sub.words) && idx + 2 + |sub.words| <= |buf|
    requires buf[idx] == sub.id && buf[idx + 1] == |sub.words|
    requires buf[idx + 2..idx + 2 + |sub.words|] == sub.words
    requires Holds(buf, idx + 2 + |sub.words|, n, end, rest)
    ensures Holds(buf, idx, n + 1, end, [sub] + rest)
  {
    hide AllSubWords;
    SubFirst(sub, rest);
    var mid := idx + 2 + |sub.words|;
    assert buf[idx..end] == [buf[idx], buf[idx + 1]] + buf[idx + 2..mid] + buf[mid..end];
  }

  lemma {:induction false} SubeventsStore(s: State, buf: seq<word>, idx: nat, n: nat, env: Env)
    requires |s.mods| == |MODULES| && idx <= |buf|
    ensures var (t, res, end) := ParseSubevents(s, buf, idx, n, env);
      t.emitted == s.emitted &&
      (res >= 0 ==>
         exists subs :: Holds(buf, idx, n, end, subs) && Stored(s.mods, subs, t.mods) && DataFrom(s.data, subs, t.data))
    decreases n
  {
    hide ParseSubevent, Stored, Holds, DataFrom;
    if n == 0 {
      assert Holds(buf, idx, 0, idx, []) by { HoldsNothing(buf, idx); }
      StoredNothing(s.mods, s.mods);
      assert DataFrom(s.data, [], s.data) by { NoData(s.data); }
    } else if |buf| >= idx + 2 && buf[idx + 1] < 0x8000_0000 && |buf| >= idx + 2 + buf[idx + 1] {
      var mid := idx + 2 + buf[idx + 1];
      var sub := Sub(buf[idx], buf[idx + 2..mid]);
      SubeventStores(s, sub, env);
      SubeventData(s, sub, env);
      ScanKeepsModules(s, sub.id, sub.words, env);
      var (s1, res1) := ParseSubevent(s, sub.id, sub.words, env);
      if res1 >= 0 {
        SubeventsStore(s1, buf, mid, n - 1, env);
        var (t, res, end) := ParseSubevents(s1, buf, mid, n - 1, env);
        if res >= 0 {
          var rest :| Holds(buf, mid, n - 1, end, rest) && Stored(s1.mods, rest, t.mods) &&
            DataFrom(s1.data, rest, t.data);
          DataTwice(s.data, sub, s1.data, rest, t.data);
          HoldsFirst(buf, idx, n - 1, end, sub, rest);
          StoredTwice(s.mods, [sub], s1.mods, rest, t.mods);
        }
      }
    }
  }

  lemma NoData(d: EventData)
    ensures DataFrom(d, [], d)
  {
  }

  lemma HoldsNothing(buf: seq<word>, idx: nat)
    requires idx <= |buf|
    ensures Holds(buf, idx, 0, idx, [])
  {
  }

  lemma {:induction false} CollectKeepsStored(s: State, accepts: KoalaEvent -> bool)
    requires |s.mods| == |MODULES|
    ensures var (t, res) := CollectAll(s, accepts);
      && |t.mods| == |MODULES| && t.data == s.data && s.emitted <= t.emitted
      && t.events == s.events && t.subevents == s.subevents
      && (forall m :: 0 <= m < |MODULES| ==>
            t.mods[m].stored == s.mods[m].stored && t.mods[m].headers == s.mods[m].headers)
      && (forall k :: |s.emitted| <= k < |t.emitted| ==> t.emitted[k].data == s.data)
      && (res == 0 || (res == -1 && exists k :: |s.emitted| <= k < |t.emitted| && !accepts(t.emitted[k])))
    decreases Queued(s.mods)
  {
    var (s1, res) := Collect(s, accepts);
    if res > 0 {
      DropShortens(s.mods);
      CollectKeepsStored(s1, accepts);
      var t := CollectAll(s1, accepts).0;
      assert t.emitted[|s.emitted|] == s1.emitted[|s.emitted|];
    } else if res < 0 {
      assert !accepts(s1.emitted[|s.emitted|]);
    }
  }

  /** The koala events from number n on have this event's number and the last scaler and
      time among its subevents; what it has none of is marked so. */
  predicate Tagged(d: EventData, buf: seq<word>, subs: seq<Sub>, emitted: seq<KoalaEvent>, n: nat) {
    |buf| > 0 && forall k :: n <= k < |emitted| ==>
      DataFrom(EventData(buf[0], true, d.tv, false, d.scaler, false), subs, emitted[k].data)
  }

  /** A successful parse_event has stored exactly what the event's subevents close, and
      the koala events it emits carry the event's data. */
  lemma EventStores(s: State, buf: seq<word>, env: Env)
    requires |s.mods| == |MODULES|
    ensures var (t, res) := ParseEvent(s, buf, env);
      res >= 0 ==>
        s.emitted <= t.emitted &&
        exists subs ::
          EventHas(buf, subs) && Stored(s.mods, subs, t.mods) && Tagged(s.data, buf, subs, t.emitted, |s.emitted|)
  {
    hide ParseSubevents, CollectAll, Stored, AllSubWords, DataFrom;
    if |buf| >= 3 {
      var s1 := s.(data := EventData(buf[0], true, s.data.tv, false, s.data.scaler, false));
      var n := Turns(buf[2]);
      SubeventsStore(s1, buf, 3, n, env);
      SubeventsKeepModules(s1, buf, 3, n, env);
      var (s2, res, idx) := ParseSubevents(s1, buf, 3, n, env);
      if res >= 0 && idx == |buf| {
        var subs :| Holds(buf, 3, n, idx, subs) && Stored(s1.mods, subs, s2.mods) && DataFrom(s1.data, subs, s2.data);
        assert buf[3..] == buf[3..idx];
        var s3 := s2.(subevents := (s2.subevents + buf[2]) % 0x1_0000_0000);
        CollectKeepsStored(s3, env.accepts);
        var t := CollectAll(s3, env.accepts).0;
        StoredNothing(s3.mods, t.mods);
        StoredTwice(s.mods, subs, s3.mods, [], t.mods);
        assert subs + [] == subs;
        assert Tagged(s.data, buf, subs, t.emitted, |s.emitted|);
      }
    }
  }

  // ---- clusters ----

  predicate EventsSized(events: seq<seq<word>>) {
    forall i :: 0 <= i < |events| ==> Sized(events[i])
  }

  function WithSize(event: seq<word>): seq<word>
    requires Sized(event)
  {
    [|event|] + event
  }

  function EventWords(events: seq<seq<word>>): seq<word>
    requires EventsSized(events)
  {
    if events == [] then [] else WithSize(events[0]) + EventWords(events[1..])
  }

  /** n words of options are in front, their count included; for a count of -1 there are
      none, and the count is the first of the words behind them. */
  predicate Options(buf: seq<word>, n: nat) {
    |buf| >= 1 && if buf[0] == 0xFFFF_FFFF then n == 0 else buf[0] < 0x8000_0000 && n == buf[0] + 1
  }

  /** The words of a cluster hold these events. */
  predicate ClusterHas(buf: seq<word>, n: nat, events: seq<seq<word>>) {
    Options(buf, n) && |buf| >= n + 4 && |events| == Turns(buf[n + 3]) && EventsSized(events) &&
    buf[n + 4..] == EventWords(events)
  }

  /** The subevents of a list of events. */
  ghost predicate EventsHave(events: seq<seq<word>>, subs: seq<Sub>) {
    if events == [] then subs == []
    else exists a, b :: EventHas(events[0], a) && EventsHave(events[1..], b) && subs == a + b
  }

  ghost predicate ClusterHasSubs(buf: seq<word>, subs: seq<Sub>) {
    exists n: nat, events :: ClusterHas(buf, n, events) && EventsHave(events, subs)
  }

  /** The subevents of all clusters of a file. */
  ghost predicate FileHasSubs(bufs: seq<seq<word>>, subs: seq<Sub>) {
    if bufs == [] then subs == []
    else
      exists a, b :: FileHasSubs(bufs[..|bufs| - 1], a) && ClusterHasSubs(bufs[|bufs| - 1], b) && subs == a + b
  }

  ghost predicate HoldsEvents(buf: seq<word>, idx: nat, n: nat, end: nat, events: seq<seq<word>>) {
    idx <= end <= |buf| && |events| == n && EventsSized(events) && buf[idx..end] == EventWords(events)
  }

  lemma EventsFirst(buf: seq<word>, idx: nat, n: nat, end: nat, event: seq<word>, rest: seq<seq<word>>)
    requires Sized(event) && idx + 1 + |event| <= |buf| && buf[idx] == |event|
    requires buf[idx + 1..idx + 1 + |event|] == event && HoldsEvents(buf, idx + 1 + |event|, n, end, rest)
    ensures HoldsEvents(buf, idx, n + 1, end, [event] + rest)
  {
    var mid := idx + 1 + |event|;
    assert ([event] + rest)[1..] == rest;
    assert buf[idx..end] == [buf[idx]] + buf[idx + 1..mid] + buf[mid..end];
  }

  lemma EventsHaveFirst(event: seq<word>, a: seq<Sub>, rest: seq<seq<word>>, b: seq<Sub>)
    requires EventHas(event, a) && EventsHave(rest, b)
    ensures EventsHave([event] + rest, a + b)
  {
    hide EventHas;
    assert ([event] + rest)[1..] == rest;
  }

  lemma {:induction false} LoopStores(s: State, buf: seq<word>, idx: nat, n: nat, env: Env)
    requires |s.mods| == |MODULES| && idx <= |buf|
    ensures var (t, res, end) := EventLoop(s, buf, idx, n, env);
      res >= 0 ==>
        exists events, subs :: HoldsEvents(buf, idx, n, end, events) && EventsHave(events, subs) &&
          Stored(s.mods, subs, t.mods)
    decreases n
  {
    hide ParseEvent, Stored, HoldsEvents, EventsHave, EventHas;
    if n == 0 {
      NoEvents(buf, idx);
      StoredNothing(s.mods, s.mods);
    } else if |buf| >= idx + 1 {
      var size := buf[idx];
      if size >= 0x8000_0000 {
        TooShort(s, env);
      } else if |buf| >= idx + 1 + size {
        var event := buf[idx + 1..idx + 1 + size];
        EventStores(s, event, env);
        EventKeepsModules(s, event, env);
        var (s1, res1) := ParseEvent(s, event, env);
        if res1 >= 0 {
          var a :| EventHas(event, a) && Stored(s.mods, a, s1.mods);
          LoopStores(s1, buf, idx + 1 + size, n - 1, env);
          var (t, res, end) := EventLoop(s1, buf, idx + 1 + size, n - 1, env);
          if res >= 0 {
            var rest, b :| HoldsEvents(buf, idx + 1 + size, n - 1, end, rest) && EventsHave(rest, b) &&
              Stored(s1.mods, b, t.mods);
            EventsFirst(buf, idx, n - 1, end, event, rest);
            EventsHaveFirst(event, a, rest, b);
            StoredTwice(s.mods, a, s1.mods, b, t.mods);
          }
        }
      }
    }
  }

  lemma NoEvents(buf: seq<word>, idx: nat)
    requires idx <= |buf|
    ensures HoldsEvents(buf, idx, 0, idx, []) && EventsHave([], [])
  {
  }

  lemma TooShort(s: State, env: Env)
    requires |s.mods| == |MODULES|
    ensures ParseEvent(s, [], env).1 < 0
  {
  }

  /** A successful parse_events has stored exactly what the cluster's subevents close. */
  lemma ClusterStores(s: State, buf: seq<word>, env: Env)
    requires |s.mods| == |MODULES|
    ensures var (t, res) := ParseEvents(s, buf, env);
      res >= 0 ==> exists subs :: ClusterHasSubs(buf, subs) && Stored(s.mods, subs, t.mods)
  {
    hide EventLoop, Stored, EventsHave, EventWords;
    if OptionWords(buf).Some? && |buf| >= OptionWords(buf).value + 4 {
      var idx := OptionWords(buf).value + 4;
      var n := Turns(buf[idx - 1]);
      LoopStores(s, buf, idx, n, env);
      var (t, res, end) := EventLoop(s, buf, idx, n, env);
      if res >= 0 && end == |buf| {
        var events, subs :| HoldsEvents(buf, idx, n, end, events) && EventsHave(events, subs) &&
          Stored(s.mods, subs, t.mods);
        assert buf[idx..] == buf[idx..end];
        assert Options(buf, OptionWords(buf).value);
        assert ClusterHas(buf, OptionWords(buf).value, events);
      }
    }
  }

  /** Parsing a file without error stores exactly what all its subevents close: in every
      module the events numbered from 1, in the order of the words. */
  lemma {:induction false} FileStores(data: EventData, bufs: seq<seq<word>>, env: Env)
    ensures var (s, res) := ParseFile(Start(data), bufs, env);
      res >= 0 ==> exists subs :: FileHasSubs(bufs, subs) && Stored(Start(data).mods, subs, s.mods)
  {
    hide ParseEvents, Stored, ClusterHasSubs;
    var start := Start(data);
    if bufs == [] {
      StoredNothing(start.mods, start.mods);
      assert FileHasSubs(bufs, []);
    } else {
      var m := |bufs| - 1;
      FileStores(data, bufs[..m], env);
      var (s1, res1) := ParseFile(start, bufs[..m], env);
      if res1 >= 0 {
        ClusterStores(s1, bufs[m], env);
        var (s2, res2) := ParseEvents(s1, bufs[m], env);
        if res2 >= 0 {
          var a :| FileHasSubs(bufs[..m], a) && Stored(start.mods, a, s1.mods);
          var b :| ClusterHasSubs(bufs[m], b) && Stored(s1.mods, b, s2.mods);
          StoredTwice(start.mods, a, s1.mods, b, s2.mods);
          assert FileHasSubs(bufs, a + b);
        }
      }
    }
  }

  // ---- statistics ----

  lemma {:induction false} SubeventsCount(s: State, buf: seq<word>, idx: nat, n: nat, env: Env)
    requires |s.mods| == |MODULES|
    ensures var t := ParseSubevents(s, buf, idx, n, env).0; t.events == s.events && t.subevents == s.subevents
    decreases n
  {
    hide ScanAll;
    if n > 0 && |buf| >= idx + 2 && buf[idx + 1] < 0x8000_0000 && |buf| >= idx + 2 + buf[idx + 1] {
      var sub := buf[idx + 2..idx + 2 + buf[idx + 1]];
      ScanKeepsModules(s, buf[idx], sub, env);
      if ParseSubevent(s, buf[idx], sub, env).1 >= 0 {
        SubeventsCount(ParseSubevent(s, buf[idx], sub, env).0, buf, idx + 2 + buf[idx + 1], n - 1, env);
      }
    }
  }

  /** A parsed event adds its count of subevents, as a word, to the statistics. */
  lemma EventCounts(s: State, buf: seq<word>, env: Env)
    requires |s.mods| == |MODULES|
    ensures var (t, res) := ParseEvent(s, buf, env);
      t.events == s.events &&
      (res >= 0 ==> |buf| >= 3 && t.subevents == (s.subevents + buf[2]) % 0x1_0000_0000)
  {
    hide ParseSubevents, CollectAll;
    if |buf| >= 3 {
      var s1 := s.(data := EventData(buf[0], true, s.data.tv, false, s.data.scaler, false));
      SubeventsCount(s1, buf, 3, Turns(buf[2]), env);
      SubeventsKeepModules(s1, buf, 3, Turns(buf[2]), env);
      var s2 := ParseSubevents(s1, buf, 3, Turns(buf[2]), env).0;
      CollectKeepsStored(s2.(subevents := (s2.subevents + buf[2]) % 0x1_0000_0000), env.accepts);
    }
  }

  lemma {:induction false} LoopCounts(s: State, buf: seq<word>, idx: nat, n: nat, env: Env)
    requires |s.mods| == |MODULES|
    ensures EventLoop(s, buf, idx, n, env).0.events == s.events
    decreases n
  {
    hide ParseEvent;
    if n > 0 && |buf| >= idx + 1 && (buf[idx] >= 0x8000_0000 || |buf| >= idx + 1 + buf[idx]) {
      var sub := if buf[idx] < 0x8000_0000 then buf[idx + 1..idx + 1 + buf[idx]] else [];
      EventCounts(s, sub, env);
      EventKeepsModules(s, sub, env);
      if ParseEvent(s, sub, env).1 >= 0 {
        LoopCounts(ParseEvent(s, sub, env).0, buf, idx + 1 + |sub|, n - 1, env);
      }
    }
  }

  /** A parsed cluster adds its count of events; a refused one adds none. */
  lemma ClusterCounts(s: State, buf: seq<word>, env: Env, n: nat)
    requires |s.mods| == |MODULES| && Options(buf, n)
    ensures var (t, res) := ParseEvents(s, buf, env);
      if res >= 0 then |buf| >= n + 4 && t.events == (s.events + buf[n + 3]) % 0x1_0000_0000 else t.events == s.events
  {
    hide EventLoop;
    if |buf| >= n + 4 {
      LoopCounts(s, buf, n + 4, Turns(buf[n + 3]), env);
    }
  }

  // ---- well-formed files are parsed ----

  /** A subevent that can be dealt with. */
  predicate Fine(sub: Sub) {
    match sub.id
    case 1 => |sub.words| == 32
    case 10 => forall k :: 0 <= k < |Known(sub.words)| ==> Accepted(Known(sub.words), k)
    case 100 => |sub.words| == 2
    case id => id == 0xFFFF_FFFF
  }

  predicate InRange(sub: Sub) {
    sub.id == 10 ==> ChannelsInRange(Known(sub.words))
  }

  lemma {:induction false} KnownAll(words: seq<word>)
    ensures |Known(words)| <= |words| && Known(words) == words[..|Known(words)|] && Known(Known(words)) == Known(words)
    ensures |Known(words)| < |words| ==> Unknown(words[|Known(words)|])
  {
    hide Unknown;
    if words != [] && !Unknown(words[0]) {
      KnownAll(words[1..]);
      var rest := Known(words[1..]);
      assert ([words[0]] + rest)[1..] == rest;
      assert words == [words[0]] + words[1..];
    }
  }

  /** Of a subevent of modules the parser fails exactly if it fails before an unknown header. */
  lemma ScanFails(mods: seq<Mod>, words: seq<word>, beyond: Beyond)
    requires |mods| == |MODULES|
    ensures ScanAll(mods, words, beyond).verdict == Leave(-1) <==>
      !ScanAll(mods, Known(words), beyond).verdict.GoOn?
  {
    hide ScanWord, Known, Unknown, ScanOk;
    KnownAll(words);
    var n := |Known(words)|;
    var s := ScanAll(mods, words[..n], beyond);
    UsesKnown(mods, words, beyond);
    UsesKnown(mods, words[..n], beyond);
    if s.verdict.GoOn? && n < |words| {
      assert words[..n + 1][..n] == words[..n];
      LeavesAt(s.mods, s.cur, words[n], beyond);
      Stops(mods, words, n + 1, beyond);
    } else if n < |words| {
      Stops(mods, words, n, beyond);
    } else {
      assert words[..n] == words;
    }
  }

  lemma SubeventParses(s: State, sub: Sub, env: Env)
    requires |s.mods| == |MODULES| && InRange(sub)
    ensures ParseSubevent(s, sub.id, sub.words, env).1 == 0 <==> Fine(sub)
  {
    hide ScanAll, Known, Accepted;
    if sub.id == 10 {
      ScanFails(s.mods, sub.words, env.beyond);
      UsesKnown(s.mods, sub.words, env.beyond);
      DealsWithAll(s.mods, Known(sub.words), env.beyond);
    }
  }

  lemma HoldsRest(buf: seq<word>, idx: nat, n: nat, end: nat, subs: seq<Sub>)
    requires Holds(buf, idx, n, end, subs) && n > 0
    ensures var size := |subs[0].words|;
      && idx + 2 + size <= end && size < 0x8000_0000 && buf[idx] == subs[0].id && buf[idx + 1] == size
      && buf[idx + 2..idx + 2 + size] == subs[0].words
      && Holds(buf, idx + 2 + size, n - 1, end, subs[1..])
  {
    var all := buf[idx..end];
    var size := |subs[0].words|;
    hide AllSubWords;
    var rest := AllSubWords(subs[1..]);
    assert all == SubWords(subs[0]) + rest by { FirstOfAll(subs); }
    assert all[0] == subs[0].id && all[1] == size;
    assert all[2..2 + size] == subs[0].words && all[2 + size..] == rest;
    SliceSlice(buf, idx, end - idx, 2, 2 + size);
    SliceSlice(buf, idx, end - idx, 2 + size, end - idx);
  }

  lemma FirstOfAll(subs: seq<Sub>)
    requires AllSized(subs) && subs != []
    ensures AllSized(subs[1..]) && AllSubWords(subs) == SubWords(subs[0]) + AllSubWords(subs[1..])
  {
  }

  lemma {:induction false} SubeventsParse(s: State, buf: seq<word>, idx: nat, n: nat, subs: seq<Sub>, env: Env)
    requires |s.mods| == |MODULES| && Holds(buf, idx, n, |buf|, subs)
    requires forall i :: 0 <= i < |subs| ==> InRange(subs[i])
    ensures var (t, res, end) := ParseSubevents(s, buf, idx, n, env);
      (res >= 0 <==> forall i :: 0 <= i < |subs| ==> Fine(subs[i])) && (res >= 0 ==> res == 0 && end == |buf|)
    decreases n
  {
    hide ParseSubevent, Holds, Fine, InRange;
    if n == 0 {
      HoldsEnd(buf, idx, subs);
    } else {
      HoldsSome(buf, idx, n, subs);
      HoldsRest(buf, idx, n, |buf|, subs);
      var sub, mid := subs[0], idx + 2 + |subs[0].words|;
      SubeventParses(s, sub, env);
      SubeventStores(s, sub, env);
      ScanKeepsModules(s, sub.id, sub.words, env);
      assert forall i :: 1 <= i < |subs| ==> subs[i] == subs[1..][i - 1];
      if Fine(sub) {
        SubeventsParse(ParseSubevent(s, sub.id, sub.words, env).0, buf, mid, n - 1, subs[1..], env);
      }
    }
  }

  lemma HoldsSome(buf: seq<word>, idx: nat, n: nat, subs: seq<Sub>)
    requires Holds(buf, idx, n, |buf|, subs)
    ensures |subs| == n && idx <= |buf|
  {
  }

  lemma HoldsEnd(buf: seq<word>, idx: nat, subs: seq<Sub>)
    requires Holds(buf, idx, 0, |buf|, subs)
    ensures idx == |buf| && subs == []
  {
    assert |buf[idx..|buf|]| == |buf| - idx && AllSubWords(subs) == [];
  }

  /** Whatever is emitted is accepted. */
  ghost predicate AcceptsAll(env: Env) {
    forall e: KoalaEvent :: env.accepts(e)
  }

  /** An event with these subevents is parsed without error exactly if they are fine,
      unless an emitted koala event is refused. */
  lemma EventParses(s: State, buf: seq<word>, subs: seq<Sub>, env: Env)
    requires |s.mods| == |MODULES| && EventHas(buf, subs) && forall i :: 0 <= i < |subs| ==> InRange(subs[i])
    ensures ParseEvent(s, buf, env).1 == 0 ==> forall i :: 0 <= i < |subs| ==> Fine(subs[i])
    ensures AcceptsAll(env) && (forall i :: 0 <= i < |subs| ==> Fine(subs[i])) ==> ParseEvent(s, buf, env).1 == 0
  {
    hide ParseSubevents, CollectAll, Stored, AllSubWords, Fine, InRange;
    var s1 := s.(data := EventData(buf[0], true, s.data.tv, false, s.data.scaler, false));
    var n := Turns(buf[2]);
    assert buf[3..|buf|] == buf[3..];
    SubeventsParse(s1, buf, 3, n, subs, env);
    SubeventsKeepModules(s1, buf, 3, n, env);
    var s2 := ParseSubevents(s1, buf, 3, n, env).0;
    CollectKeepsStored(s2.(subevents := (s2.subevents + buf[2]) % 0x1_0000_0000), env.accepts);
  }

  predicate AllFine(subs: seq<Sub>) {
    forall i :: 0 <= i < |subs| ==> Fine(subs[i]) && InRange(subs[i])
  }

  lemma FineParts(a: seq<Sub>, b: seq<Sub>)
    requires AllFine(a + b)
    ensures AllFine(a) && AllFine(b)
  {
    hide Fine, InRange;
    assert forall i :: 0 <= i < |a| ==> (a + b)[i] == a[i];
    assert forall i :: 0 <= i < |b| ==> (a + b)[|a| + i] == b[i];
  }

  lemma EventsRest(buf: seq<word>, idx: nat, n: nat, end: nat, events: seq<seq<word>>)
    requires HoldsEvents(buf, idx, n, end, events) && n > 0
    ensures |events| == n
    ensures var size := |events[0]|;
      && idx + 1 + size <= end && size < 0x8000_0000 && buf[idx] == size
      && buf[idx + 1..idx + 1 + size] == events[0]
      && HoldsEvents(buf, idx + 1 + size, n - 1, end, events[1..])
  {
    var all, size := buf[idx..end], |events[0]|;
    var rest := EventWords(events[1..]);
    assert all == WithSize(events[0]) + rest;
    assert all[0] == size && all[1..1 + size] == events[0] && all[1 + size..] == rest;
    SliceSlice(buf, idx, end - idx, 1, 1 + size);
    SliceSlice(buf, idx, end - idx, 1 + size, end - idx);
  }

  lemma {:induction false} LoopParses(s: State, buf: seq<word>, idx: nat, n: nat, events: seq<seq<word>>,
                                      subs: seq<Sub>, env: Env)
    requires |s.mods| == |MODULES| && HoldsEvents(buf, idx, n, |buf|, events) && EventsHave(events, subs)
    requires AllFine(subs) && AcceptsAll(env)
    ensures var (t, res, end) := EventLoop(s, buf, idx, n, env); res == 0 && end == |buf|
    decreases n
  {
    hide ParseEvent, HoldsEvents, EventHas, AcceptsAll, AllFine;
    if n == 0 {
      EventsEnd(buf, idx, events);
    } else {
      EventsRest(buf, idx, n, |buf|, events);
      var event := events[0];
      var a, b :| EventHas(event, a) && EventsHave(events[1..], b) && subs == a + b;
      FineParts(a, b);
      FineEvent(s, event, a, env);
      EventKeepsModules(s, event, env);
      LoopParses(ParseEvent(s, event, env).0, buf, idx + 1 + |event|, n - 1, events[1..], b, env);
    }
  }

  lemma FineEvent(s: State, event: seq<word>, subs: seq<Sub>, env: Env)
    requires |s.mods| == |MODULES| && EventHas(event, subs) && AllFine(subs) && AcceptsAll(env)
    ensures ParseEvent(s, event, env).1 == 0
  {
    hide ParseEvent, EventHas, AcceptsAll, Fine, InRange;
    EventParses(s, event, subs, env);
  }

  lemma EventsEnd(buf: seq<word>, idx: nat, events: seq<seq<word>>)
    requires HoldsEvents(buf, idx, 0, |buf|, events)
    ensures idx == |buf|
  {
    assert |buf[idx..|buf|]| == |buf| - idx && EventWords(events) == [];
  }

  lemma ClusterParses(s: State, buf: seq<word>, subs: seq<Sub>, env: Env)
    requires |s.mods| == |MODULES| && ClusterHasSubs(buf, subs) && AllFine(subs) && AcceptsAll(env)
    ensures ParseEvents(s, buf, env).1 == 0
  {
    hide EventLoop, AllFine, EventsHave, AcceptsAll, EventWords;
    var n: nat, events :| ClusterHas(buf, n, events) && EventsHave(events, subs);
    assert OptionWords(buf) == Some(n);
    assert buf[n + 4..|buf|] == buf[n + 4..];
    assert HoldsEvents(buf, n + 4, Turns(buf[n + 3]), |buf|, events);
    LoopParses(s, buf, n + 4, Turns(buf[n + 3]), events, subs, env);
  }

  /** A file whose subevents are fine is parsed without error. */
  lemma {:induction false} FileParses(data: EventData, bufs: seq<seq<word>>, subs: seq<Sub>, env: Env)
    requires FileHasSubs(bufs, subs) && AllFine(subs) && AcceptsAll(env)
    ensures ParseFile(Start(data), bufs, env).1 == 0
  {
    hide ParseEvents, ClusterHasSubs, AllFine, AcceptsAll;
    if bufs != [] {
      var m := |bufs| - 1;
      var a, b :| FileHasSubs(bufs[..m], a) && ClusterHasSubs(bufs[m], b) && subs == a + b;
      FineParts(a, b);
      FileParses(data, bufs[..m], a, env);
      ClusterParses(ParseFile(Start(data), bufs[..m], env).0, bufs[m], b, env);
    }
  }

  // ---- the words determine the subevents ----

  lemma {:induction false} SubsOnce(a: seq<Sub>, b: seq<Sub>)
    requires AllSized(a) && AllSized(b) && AllSubWords(a) == AllSubWords(b)
    ensures a == b
  {
    if a != [] && b != [] {
      var x, y := AllSubWords(a), AllSubWords(b);
      hide AllSubWords;
      FirstOfAll(a);
      FirstOfAll(b);
      assert x[0] == a[0].id == b[0].id && x[1] == |a[0].words| == |b[0].words|;
      var n := 2 + |a[0].words|;
      assert a[0].words == x[2..n] == y[2..n] == b[0].words;
      assert AllSubWords(a[1..]) == x[n..] == y[n..] == AllSubWords(b[1..]);
      SubsOnce(a[1..], b[1..]);
      assert a == [a[0]] + a[1..] && b == [b[0]] + b[1..];
    }
  }

  lemma {:induction false} EventsOnce(a: seq<seq<word>>, b: seq<seq<word>>)
    requires EventsSized(a) && EventsSized(b) && EventWords(a) == EventWords(b)
    ensures a == b
  {
    if a != [] && b != [] {
      var x, y := EventWords(a), EventWords(b);
      assert x[0] == |a[0]| == |b[0]|;
      var n := 1 + |a[0]|;
      assert a[0] == x[1..n] == y[1..n] == b[0];
      assert EventWords(a[1..]) == x[n..] == y[n..] == EventWords(b[1..]);
      EventsOnce(a[1..], b[1..]);
      assert a == [a[0]] + a[1..] && b == [b[0]] + b[1..];
    }
  }

  lemma {:induction false} EventsHaveOnce(events: seq<seq<word>>, a: seq<Sub>, b: seq<Sub>)
    requires EventsHave(events, a) && EventsHave(events, b)
    ensures a == b
  {
    hide AllSubWords;
    if events != [] {
      var a1, a2 :| EventHas(events[0], a1) && EventsHave(events[1..], a2) && a == a1 + a2;
      var b1, b2 :| EventHas(events[0], b1) && EventsHave(events[1..], b2) && b == b1 + b2;
      SubsOnce(a1, b1);
      EventsHaveOnce(events[1..], a2, b2);
    }
  }

  lemma {:induction false} FileHasOnce(bufs: seq<seq<word>>, a: seq<Sub>, b: seq<Sub>)
    requires FileHasSubs(bufs, a) && FileHasSubs(bufs, b)
    ensures a == b
  {
    hide ClusterHasSubs;
    if bufs != [] {
      var m := |bufs| - 1;
      var a1, a2 :| FileHasSubs(bufs[..m], a1) && ClusterHasSubs(bufs[m], a2) && a == a1 + a2;
      var b1, b2 :| FileHasSubs(bufs[..m], b1) && ClusterHasSubs(bufs[m], b2) && b == b1 + b2;
      FileHasOnce(bufs[..m], a1, b1);
      ClusterHasOnce(bufs[m], a2, b2);
    }
  }

  lemma ClusterHasOnce(buf: seq<word>, a: seq<Sub>, b: seq<Sub>)
    requires ClusterHasSubs(buf, a) && ClusterHasSubs(buf, b)
    ensures a == b
  {
    hide EventsHave, EventWords;
    var n: nat, x :| ClusterHas(buf, n, x) && EventsHave(x, a);
    var k: nat, y :| ClusterHas(buf, k, y) && EventsHave(y, b);
    EventsOnce(x, y);
    EventsHaveOnce(x, a, b);
  }

  /** The k-th koala event is made of the k-th event that the file's subevents close in
      each module, and there are as many as in the module with the fewest. */
  ghost predicate Emits(subs: seq<Sub>, emitted: seq<KoalaEvent>) {
    && (forall k, m :: 0 <= k < |emitted| && 0 <= m < |MODULES| ==>
          k < |ClosedIn(subs, m, 0)| && m < |emitted[k].events| && emitted[k].events[m] == ClosedIn(subs, m, 0)[k])
    && exists m :: 0 <= m < |MODULES| && |emitted| == |ClosedIn(subs, m, 0)|
  }

  /** From the words of a file to its koala events: if the subevents are fine, the file is
      parsed and what is emitted is what they close, event by event. */
  lemma FileEmits(data: EventData, bufs: seq<seq<word>>, subs: seq<Sub>, env: Env)
    requires FileHasSubs(bufs, subs) && AllFine(subs) && AcceptsAll(env)
    ensures var (s, res) := ParseFile(Start(data), bufs, env); res == 0 && Emits(subs, s.emitted)
  {
    hide FileHasSubs, AllFine, AcceptsAll, ClosedIn, ParseFile;
    FileParses(data, bufs, subs, env);
    FileStores(data, bufs, env);
    Lockstep(data, bufs, env);
    var s := ParseFile(Start(data), bufs, env).0;
    var found :| FileHasSubs(bufs, found) && Stored(Start(data).mods, found, s.mods);
    FileHasOnce(bufs, found, subs);
    forall m | 0 <= m < |MODULES|
      ensures s.mods[m].stored == ClosedIn(subs, m, 0) && ModInStep(s.mods[m], s.emitted, m)
    {
      assert [] + ClosedIn(subs, m, 0) == ClosedIn(subs, m, 0);
    }
  }

  // ---- words and values ----

  /** The kinds of words, bit by bit: two bits on top say what it is. */
  lemma MarkWords(d: word, any: nat, x: nat, low: nat)
    requires any < 0x40 && low < 0x1_0000
    ensures d == 0x4000_0000 + any * 0x100_0000 + x * 0x1_0000 + low && x < 0x100 ==> KindOf(d) == Header(x)
    ensures d == 0xC000_0000 + x && x < 0x4000_0000 ==> KindOf(d) == Footer(x)
    ensures d == 0x8000_0000 + x && x < 0x4000_0000 ==> KindOf(d) == Illegal
  {
  }

  /** And eight more if they are 0. */
  lemma InnerWords(d: word, sub: nat, x: nat, low: nat)
    requires sub < 0x100 && x < 0x40 && low < 0x1_0000 && d == sub * 0x40_0000 + x * 0x1_0000 + low
    ensures KindOf(d) == if sub == 0 then Dummy else if sub == 0x10 then Data(x) else if sub == 0x12 then Ext(low)
                         else Illegal
  {
    assert d / 0x40_0000 == sub && d / 0x1_0000 == sub * 0x40 + x && d % 0x1_0000 == low;
  }

  /** A stored time stamp is the footer's 30 bits and above them the extended stamp. */
  lemma StampIs(ev: MxEvent, d: word)
    ensures var e := Finished(ev, d);
      && e == ev.(footer := d, timestamp := e.timestamp)
      && e.timestamp % 0x4000_0000 == d % 0x4000_0000
      && e.timestamp / 0x4000_0000 == if ev.extValid then ev.extStamp else 0
  {
  }

  predicate IsData(body: seq<word>, k: int, chan: nat) {
    0 <= k < |body| && KindOf(body[k]) == Data(chan)
  }

  ghost predicate IsFirst(body: seq<word>, k: int, chan: nat) {
    IsData(body, k, chan) && forall j :: IsData(body, j, chan) ==> k <= j
  }

  ghost predicate IsLast(body: seq<word>, k: int, chan: nat) {
    IsData(body, k, chan) && forall j :: IsData(body, j, chan) ==> j <= k
  }

  lemma {:induction false} FirstHitIs(body: seq<word>, chan: nat) returns (k: int)
    ensures if forall j :: !IsData(body, j, chan) then FirstHit(body, chan) == 0
      else IsFirst(body, k, chan) && FirstHit(body, chan) == body[k]
  {
    hide KindOf;
    k := 0;
    if body != [] && !IsData(body, 0, chan) {
      k := FirstHitIs(body[1..], chan);
      assert forall j {:trigger IsData(body, j, chan)} :: IsData(body, j, chan) <==> IsData(body[1..], j - 1, chan);
      assert forall j {:trigger IsData(body[1..], j, chan)} :: IsData(body[1..], j, chan) ==> IsData(body, j + 1, chan);
      k := k + 1;
    }
  }

  lemma {:induction false} LastHitIs(body: seq<word>, chan: nat) returns (k: int)
    ensures if forall j :: !IsData(body, j, chan) then LastHit(body, chan) == 0
      else IsLast(body, k, chan) && LastHit(body, chan) == body[k]
  {
    hide KindOf;
    k := |body| - 1;
    if body != [] && !IsData(body, k, chan) {
      assert forall j :: IsData(body, j, chan) <==> IsData(body[..k], j, chan);
      k := LastHitIs(body[..k], chan);
    }
  }

  /** What a stored event holds for a channel: nothing without a data word for it; the
      last one of module 9, the first one of the modules 10 and 11. */
  lemma HitIs(m: nat, body: seq<word>, chan: nat) returns (k: int)
    requires m < |MODULES|
    ensures if forall j :: !IsData(body, j, chan) then Hit(m, body, chan) == 0
      else
        (if MODULES[m].id == 9 then IsLast(body, k, chan) else IsFirst(body, k, chan)) && Hit(m, body, chan) == body[k]
  {
    hide KindOf, FirstHit, LastHit;
    if FirstHitWins(m) {
      k := FirstHitIs(body, chan);
    } else {
      k := LastHitIs(body, chan);
    }
  }
}
