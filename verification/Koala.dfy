/**
  The KOALA event builder (events++/parse_koala.cc): what the parser of one subevent
  stores, which events the builder puts together, and when.
*/
module Koala {
  import opened Util
  import opened ByteOrder

  /*
    The stream of each module is a list of events, each opened by a header word and
    closed by a footer word.  `stored` and `emitted` only record the run.
  */

  datatype MesyType = Madc32 | Mqdc32 | Mtdc32
  datatype Module = Module(id: nat, mesytype: MesyType)

  const MODULES := [Module(9, Madc32), Module(10, Mqdc32), Module(11, Mtdc32)]
  const CHANNELS: nat := 34

  datatype MxEvent = MxEvent(data: seq<word>, header: word, footer: word, extStamp: nat, extValid: bool,
                             timestamp: nat, evnr: nat, len: nat)

  function Blank(): MxEvent {
    MxEvent(seq(CHANNELS, i => 0), 0, 0, 0, false, 0, 0, 0)
  }

  /** A module's event being filled, its queue and its statistics. */
  datatype Mod = Mod(prepared: Option<MxEvent>, queue: seq<MxEvent>, stored: seq<MxEvent>, headers: nat, words: nat)

  /** The word found where data[chan] would lie behind the array. */
  type Beyond = (nat, MxEvent) -> word

  // ---- words ----

  datatype Kind = Header(id: nat) | Data(chan: nat) | Ext(stamp: nat) | Dummy | Footer(stamp: nat) | Illegal

  function KindOf(d: word): (k: Kind)
    ensures k.Data? ==> k.chan < 64 && d != 0
  {
    var top, sub := d / 0x4000_0000, d / 0x40_0000 % 256;
    if top == 1 then Header(d / 0x1_0000 % 256)
    else if top == 3 then Footer(d % 0x4000_0000)
    else if top == 2 then Illegal
    else if sub == 0 then Dummy
    else if sub == 0x10 then Data(d / 0x1_0000 % 64)
    else if sub == 0x12 then Ext(d % 0x1_0000)
    else Illegal
  }

  function IndexOfId(id: nat): (m: int)
    ensures -1 <= m < |MODULES| && (m >= 0 ==> MODULES[m].id == id)
    ensures m < 0 ==> forall k :: 0 <= k < |MODULES| ==> MODULES[k].id != id
  {
    if id == 9 then 0 else if id == 10 then 1 else if id == 11 then 2 else -1
  }

  predicate FirstHitWins(m: nat)
    requires m < |MODULES|
  {
    MODULES[m].mesytype != Madc32
  }

  // ---- the parser ----

  /** How parse_mxdc32 goes on. */
  datatype Verdict = GoOn | Leave(res: int)

  function Opened(d: word, evnr: nat): MxEvent {
    Blank().(header := d, len := d % 0x1000, evnr := evnr)
  }

  /** A header word: whatever was in the prepared event is wiped. */
  function Prepare(mod: Mod, d: word): Mod {
    mod.(prepared := Some(Opened(d, mod.headers + 1)), headers := mod.headers + 1, words := mod.words + d % 0x1000)
  }

  /** A data word; None is the error of an illegal channel. */
  function Fill(m: nat, ev: MxEvent, d: word, chan: nat, beyond: Beyond): Option<MxEvent>
    requires m < |MODULES| && |ev.data| == CHANNELS
  {
    if FirstHitWins(m) then
      var there := if chan < CHANNELS then ev.data[chan] else beyond(chan, ev);
      if there != 0 then Some(ev) else if chan >= CHANNELS then None else Some(ev.(data := ev.data[chan := d]))
    else if chan >= CHANNELS then None
    else Some(ev.(data := ev.data[chan := d]))
  }

  function Finished(ev: MxEvent, d: word): MxEvent {
    var stamp := d % 0x4000_0000;
    ev.(footer := d, timestamp := if ev.extValid then stamp + 0x4000_0000 * ev.extStamp else stamp)
  }

  function Store(mod: Mod, ev: MxEvent): Mod {
    mod.(prepared := None, queue := mod.queue + [ev], stored := mod.stored + [ev])
  }

  /** The open event, if the parser is inside one. */
  predicate InEvent(mods: seq<Mod>, cur: int) {
    0 <= cur < |mods| == |MODULES| && mods[cur].prepared.Some? && |mods[cur].prepared.value.data| == CHANNELS
  }

  predicate ScanOk(mods: seq<Mod>, cur: int) {
    |mods| == |MODULES| && (cur == -1 || InEvent(mods, cur))
  }

  datatype Scan = Scan(mods: seq<Mod>, cur: int, verdict: Verdict, used: nat)

  function ScanInside(mods: seq<Mod>, cur: int, d: word, beyond: Beyond): (seq<Mod>, int, Verdict)
    requires InEvent(mods, cur)
  {
    var mod, ev := mods[cur], mods[cur].prepared.value;
    match KindOf(d)
    case Data(chan) =>
      var filled := Fill(cur, ev, d, chan, beyond);
      if filled.None? then (mods, cur, Leave(-1)) else (mods[cur := mod.(prepared := filled)], cur, GoOn)
    case Ext(stamp) => (mods[cur := mod.(prepared := Some(ev.(extStamp := stamp, extValid := true)))], cur, GoOn)
    case Footer(_) => (mods[cur := Store(mod, Finished(ev, d))], -1, GoOn)
    case _ => (mods, cur, GoOn)
  }

  function ScanWord(mods: seq<Mod>, cur: int, d: word, beyond: Beyond): (r: (seq<Mod>, int, Verdict))
    requires ScanOk(mods, cur)
    ensures r.2.GoOn? ==> ScanOk(r.0, r.1)
  {
    match KindOf(d)
    case Header(id) =>
      var m := IndexOfId(id);
      if m < 0 then (mods, m, Leave(0)) else (mods[m := Prepare(mods[m], d)], m, GoOn)
    case Dummy => (mods, cur, GoOn)
    case Illegal => (mods, cur, GoOn)
    case _ => if cur < 0 then (mods, cur, Leave(-1)) else ScanInside(mods, cur, d, beyond)
  }

  /** parse_mxdc32 over a list of words; `used` of them were dealt with. */
  function ScanAll(mods: seq<Mod>, words: seq<word>, beyond: Beyond): (s: Scan)
    requires |mods| == |MODULES|
    ensures s.used <= |words| && (s.verdict.GoOn? ==> s.used == |words| && ScanOk(s.mods, s.cur))
  {
    if words == [] then Scan(mods, -1, GoOn, 0)
    else
      var s := ScanAll(mods, words[..|words| - 1], beyond);
      if !s.verdict.GoOn? then s
      else
        var (mods', cur, v) := ScanWord(s.mods, s.cur, words[|words| - 1], beyond);
        if v.GoOn? then Scan(mods', cur, v, |words|) else Scan(s.mods, s.cur, v, |words| - 1)
  }

  // ---- what is stored, said without the parser ----

  predicate IsMark(d: word) {
    KindOf(d).Header? || KindOf(d).Footer?
  }

  /** The index of the last header or footer word. */
  function LastMark(words: seq<word>): (k: int)
    ensures -1 <= k < |words| && (k >= 0 ==> IsMark(words[k]))
    ensures forall j :: k < j < |words| ==> !IsMark(words[j])
  {
    if words == [] then -1
    else if IsMark(words[|words| - 1]) then |words| - 1
    else LastMark(words[..|words| - 1])
  }

  /** The index of the header that is still open at the end of the words. */
  function OpenHeader(words: seq<word>): (h: int)
    ensures -1 <= h < |words| && (h >= 0 ==> KindOf(words[h]).Header?)
  {
    var k := LastMark(words);
    if k >= 0 && KindOf(words[k]).Header? then k else -1
  }

  function ModuleOf(d: word): int {
    match KindOf(d)
    case Header(id) => IndexOfId(id)
    case _ => -1
  }

  function FirstHit(body: seq<word>, chan: nat): word {
    if body == [] then 0 else if KindOf(body[0]) == Data(chan) then body[0] else FirstHit(body[1..], chan)
  }

  function LastHit(body: seq<word>, chan: nat): word {
    if body == [] then 0
    else if KindOf(body[|body| - 1]) == Data(chan) then body[|body| - 1]
    else LastHit(body[..|body| - 1], chan)
  }

  function Hit(m: nat, body: seq<word>, chan: nat): word
    requires m < |MODULES|
  {
    if FirstHitWins(m) then FirstHit(body, chan) else LastHit(body, chan)
  }

  /** The last extended time stamp. */
  function LastExt(body: seq<word>): Option<nat> {
    if body == [] then None
    else
      match KindOf(body[|body| - 1])
      case Ext(stamp) => Some(stamp)
      case _ => LastExt(body[..|body| - 1])
  }

  /** The event that a header and the words after it make, before its footer. */
  function Built(m: nat, header: word, body: seq<word>, evnr: nat): MxEvent
    requires m < |MODULES|
  {
    var ext := LastExt(body);
    MxEvent(seq(CHANNELS, c requires 0 <= c < CHANNELS => Hit(m, body, c)), header, 0,
            if ext.Some? then ext.value else 0, ext.Some?, 0, evnr, header % 0x1000)
  }

  /** Headers of module m. */
  function HeadersOf(words: seq<word>, m: nat): nat {
    if words == [] then 0
    else HeadersOf(words[..|words| - 1], m) + if ModuleOf(words[|words| - 1]) == m then 1 else 0
  }

  /** The lengths that the headers of module m announce. */
  function LengthsOf(words: seq<word>, m: nat): nat {
    if words == [] then 0
    else
      var d := words[|words| - 1];
      LengthsOf(words[..|words| - 1], m) + if ModuleOf(d) == m then d % 0x1000 else 0
  }

  /** The event of module m that this word closes, if it is a footer. */
  function ClosedBy(words: seq<word>, d: word, m: nat, evnr: nat): seq<MxEvent>
    requires m < |MODULES|
  {
    var h := OpenHeader(words);
    if KindOf(d).Footer? && h >= 0 && ModuleOf(words[h]) == m
    then [Finished(Built(m, words[h], words[h + 1..], evnr + HeadersOf(words, m)), d)]
    else []
  }

  /** The events of module m: one for each footer that closes one of its headers, made
      of the words between, and the time stamp put together. */
  function ClosedEvents(words: seq<word>, m: nat, evnr: nat): seq<MxEvent>
    requires m < |MODULES|
  {
    if words == [] then []
    else
      var before := words[..|words| - 1];
      ClosedEvents(before, m, evnr) + ClosedBy(before, words[|words| - 1], m, evnr)
  }

  /** Module m has stored exactly its closed events, and counted its headers and their words. */
  predicate ModIs(was: Mod, words: seq<word>, now: Mod, m: nat)
    requires m < |MODULES|
  {
    && now.queue == was.queue + ClosedEvents(words, m, was.headers)
    && now.stored == was.stored + ClosedEvents(words, m, was.headers)
    && now.headers == was.headers + HeadersOf(words, m)
    && now.words == was.words + LengthsOf(words, m)
  }

  /** The event being filled is what the words since the open header make. */
  predicate OpenIs(words: seq<word>, now: seq<Mod>, cur: int)
    requires |now| == |MODULES|
  {
    var h := OpenHeader(words);
    if h < 0 then cur == -1
    else
      && cur == ModuleOf(words[h]) && cur >= 0
      && now[cur].prepared == Some(Built(cur, words[h], words[h + 1..], now[cur].headers))
  }

  predicate ScanIs(mods: seq<Mod>, words: seq<word>, now: seq<Mod>, cur: int) {
    && |mods| == |now| == |MODULES|
    && (forall m :: 0 <= m < |MODULES| ==> ModIs(mods[m], words, now[m], m))
    && OpenIs(words, now, cur)
  }

  lemma {:induction false} FirstHitSnoc(body: seq<word>, d: word, chan: nat)
    ensures FirstHit(body + [d], chan) ==
      if FirstHit(body, chan) != 0 then FirstHit(body, chan) else if KindOf(d) == Data(chan) then d else 0
  {
    if body == [] {
      assert ([d])[1..] == [];
    } else {
      assert (body + [d])[1..] == body[1..] + [d];
      FirstHitSnoc(body[1..], d, chan);
    }
  }

  lemma HitSnoc(m: nat, body: seq<word>, d: word, chan: nat)
    requires m < |MODULES|
    ensures Hit(m, body + [d], chan) ==
      if KindOf(d) == Data(chan) && !(FirstHitWins(m) && Hit(m, body, chan) != 0) then d else Hit(m, body, chan)
  {
    hide KindOf;
    FirstHitSnoc(body, d, chan);
    assert (body + [d])[..|body|] == body;
    DataNotZero(d);
  }

  lemma DataNotZero(d: word)
    ensures KindOf(d).Data? ==> d != 0
  {
  }

  lemma LastExtSnoc(body: seq<word>, d: word)
    ensures LastExt(body + [d]) == if KindOf(d).Ext? then Some(KindOf(d).stamp) else LastExt(body)
  {
    hide KindOf;
    assert (body + [d])[..|body|] == body;
  }

  /** A data word fills the channel it names, in the way of its module, and no other. */
  lemma FillBuilds(m: nat, header: word, body: seq<word>, evnr: nat, d: word, beyond: Beyond)
    requires m < |MODULES| && KindOf(d).Data?
    ensures var filled := Fill(m, Built(m, header, body, evnr), d, KindOf(d).chan, beyond);
      filled.Some? ==> filled.value == Built(m, header, body + [d], evnr)
  {
    hide KindOf, Hit, FirstHitWins, LastExt;
    var e, e' := Built(m, header, body, evnr), Built(m, header, body + [d], evnr);
    LastExtSnoc(body, d);
    forall c | 0 <= c < CHANNELS
      ensures e'.data[c] == if KindOf(d) == Data(c) && !(FirstHitWins(m) && e.data[c] != 0) then d else e.data[c]
    {
      HitSnoc(m, body, d, c);
    }
    var filled := Fill(m, e, d, KindOf(d).chan, beyond);
    if filled.Some? {
      assert filled.value.data == e'.data;
    }
  }

  lemma ExtBuilds(m: nat, header: word, body: seq<word>, evnr: nat, d: word)
    requires m < |MODULES| && !KindOf(d).Data?
    ensures var e, e' := Built(m, header, body, evnr), Built(m, header, body + [d], evnr);
      e' == if KindOf(d).Ext? then e.(extStamp := KindOf(d).stamp, extValid := true) else e
  {
    hide KindOf, Hit, FirstHitWins, LastExt;
    var e, e' := Built(m, header, body, evnr), Built(m, header, body + [d], evnr);
    LastExtSnoc(body, d);
    forall c | 0 <= c < CHANNELS ensures e'.data[c] == e.data[c] {
      HitSnoc(m, body, d, c);
    }
    assert e'.data == e.data;
  }

  lemma OpenedBuilds(m: nat, header: word, evnr: nat)
    requires m < |MODULES|
    ensures Built(m, header, [], evnr) == Opened(header, evnr)
  {
    assert Built(m, header, [], evnr).data == Blank().data;
  }

  lemma MarkSnoc(words: seq<word>, d: word)
    ensures var h := OpenHeader(words);
      OpenHeader(words + [d]) == if KindOf(d).Header? then |words| else if KindOf(d).Footer? then -1 else h
    ensures forall m: nat :: HeadersOf(words + [d], m) == HeadersOf(words, m) + if ModuleOf(d) == m then 1 else 0
    ensures forall m: nat ::
      LengthsOf(words + [d], m) == LengthsOf(words, m) + if ModuleOf(d) == m then d % 0x1000 else 0
  {
    hide KindOf;
    assert (words + [d])[..|words|] == words;
  }

  lemma ClosedSnoc(words: seq<word>, d: word, m: nat, evnr: nat)
    requires m < |MODULES|
    ensures ClosedEvents(words + [d], m, evnr) == ClosedEvents(words, m, evnr) + ClosedBy(words, d, m, evnr)
  {
    hide ClosedBy;
    assert (words + [d])[..|words|] == words;
  }

  lemma KeepMod(was: Mod, words: seq<word>, now: Mod, m: nat, d: word, next: Mod)
    requires m < |MODULES| && ModIs(was, words, now, m)
    requires next.queue == now.queue + ClosedBy(words, d, m, was.headers)
    requires next.stored == now.stored + ClosedBy(words, d, m, was.headers)
    requires next.headers == now.headers + if ModuleOf(d) == m then 1 else 0
    requires next.words == now.words + if ModuleOf(d) == m then d % 0x1000 else 0
    ensures ModIs(was, words + [d], next, m)
  {
    hide ClosedBy, ClosedEvents, HeadersOf, LengthsOf, KindOf;
    MarkSnoc(words, d);
    ClosedSnoc(words, d, m, was.headers);
  }

  /** A module that neither starts nor finishes an event stays in step. */
  lemma KeepOther(was: Mod, words: seq<word>, now: Mod, m: nat, d: word, next: Mod)
    requires m < |MODULES| && ModIs(was, words, now, m) && next == now.(prepared := next.prepared)
    requires !KindOf(d).Footer? || OpenHeader(words) < 0 || ModuleOf(words[OpenHeader(words)]) != m
    requires ModuleOf(d) != m
    ensures ModIs(was, words + [d], next, m)
  {
    hide ClosedEvents, HeadersOf, LengthsOf, KindOf, ModIs;
    KeepMod(was, words, now, m, d, next) by {
      assert ClosedBy(words, d, m, was.headers) == [];
    }
  }

  lemma KeepHeader(mods: seq<Mod>, words: seq<word>, now: seq<Mod>, cur: int, d: word, m: nat)
    requires ScanIs(mods, words, now, cur) && KindOf(d).Header? && ModuleOf(d) == m
    ensures ScanIs(mods, words + [d], now[m := Prepare(now[m], d)], m)
  {
    hide ClosedEvents, HeadersOf, LengthsOf, KindOf, ModIs, Built, OpenHeader;
    var next := now[m := Prepare(now[m], d)];
    MarkSnoc(words, d);
    assert (words + [d])[|words|] == d && (words + [d])[|words| + 1..] == [];
    OpenedBuilds(m, d, now[m].headers + 1);
    forall k | 0 <= k < |MODULES| ensures ModIs(mods[k], words + [d], next[k], k) {
      if k == m {
        assert ClosedBy(words, d, m, mods[m].headers) == [];
        KeepMod(mods[m], words, now[m], m, d, next[m]);
      } else {
        KeepOther(mods[k], words, now[k], k, d, now[k]);
      }
    }
  }

  lemma KeepFooter(mods: seq<Mod>, words: seq<word>, now: seq<Mod>, cur: int, d: word)
    requires ScanIs(mods, words, now, cur) && InEvent(now, cur) && KindOf(d).Footer?
    ensures ScanIs(mods, words + [d], now[cur := Store(now[cur], Finished(now[cur].prepared.value, d))], -1)
  {
    hide ClosedEvents, HeadersOf, LengthsOf, KindOf, Built, OpenHeader, Finished;
    var next := now[cur := Store(now[cur], Finished(now[cur].prepared.value, d))];
    MarkSnoc(words, d);
    forall k | 0 <= k < |MODULES| ensures ModIs(mods[k], words + [d], next[k], k) {
      hide ModIs;
      if k == cur {
        KeepMod(mods[k], words, now[k], k, d, next[k]) by {
          assert ModIs(mods[k], words, now[k], k);
          FooterCloses(mods[k], words, now[k], k, d);
        }
      } else {
        KeepOther(mods[k], words, now[k], k, d, now[k]);
      }
    }
  }

  lemma FooterCloses(was: Mod, words: seq<word>, now: Mod, m: nat, d: word)
    requires m < |MODULES| && ModIs(was, words, now, m) && KindOf(d).Footer?
    requires OpenHeader(words) >= 0 && ModuleOf(words[OpenHeader(words)]) == m && now.prepared.Some?
    requires now.prepared == Some(Built(m, words[OpenHeader(words)], words[OpenHeader(words) + 1..], now.headers))
    ensures ClosedBy(words, d, m, was.headers) == [Finished(now.prepared.value, d)]
  {
    hide ClosedEvents, HeadersOf, LengthsOf, KindOf, Built, OpenHeader, Finished;
  }

  /** The other words change at most the event being filled. */
  lemma KeepInside(mods: seq<Mod>, words: seq<word>, now: seq<Mod>, cur: int, d: word, ev: Option<MxEvent>)
    requires ScanIs(mods, words, now, cur) && (cur >= 0 ==> InEvent(now, cur))
    requires !IsMark(d)
    requires cur >= 0 ==> ev == Some(Built(cur, words[OpenHeader(words)], words[OpenHeader(words) + 1..] + [d],
      now[cur].headers))
    ensures ScanIs(mods, words + [d], if cur < 0 then now else now[cur := now[cur].(prepared := ev)], cur)
  {
    hide ClosedEvents, HeadersOf, LengthsOf, KindOf, ModIs, OpenIs;
    var next := if cur < 0 then now else now[cur := now[cur].(prepared := ev)];
    KeepOpen(words, now, cur, d, ev);
    forall k | 0 <= k < |MODULES| ensures ModIs(mods[k], words + [d], next[k], k) {
      KeepOther(mods[k], words, now[k], k, d, next[k]);
    }
  }

  lemma KeepOpen(words: seq<word>, now: seq<Mod>, cur: int, d: word, ev: Option<MxEvent>)
    requires |now| == |MODULES| && OpenIs(words, now, cur) && !IsMark(d)
    requires cur >= 0 ==> ev == Some(Built(cur, words[OpenHeader(words)], words[OpenHeader(words) + 1..] + [d],
      now[cur].headers))
    ensures OpenIs(words + [d], if cur < 0 then now else now[cur := now[cur].(prepared := ev)], cur)
  {
    hide KindOf, Built, OpenHeader;
    MarkSnoc(words, d);
    var h := OpenHeader(words);
    if h >= 0 {
      assert (words + [d])[h + 1..] == words[h + 1..] + [d];
      assert (words + [d])[h] == words[h];
    }
  }

  /** One word keeps the parser in step with the closed events. */
  lemma KeepScan(mods: seq<Mod>, words: seq<word>, now: seq<Mod>, cur: int, d: word, beyond: Beyond)
    requires ScanIs(mods, words, now, cur) && ScanOk(now, cur)
    ensures var (next, cur', v) := ScanWord(now, cur, d, beyond);
      v.GoOn? ==> ScanIs(mods, words + [d], next, cur')
  {
    hide KindOf, Built, Finished, OpenHeader, Fill, Prepare, Store, ModIs, IndexOfId;
    var k := KindOf(d);
    if k.Header? {
      if IndexOfId(k.id) >= 0 {
        KeepHeader(mods, words, now, cur, d, IndexOfId(k.id));
      }
    } else if cur < 0 {
      if k.Dummy? || k.Illegal? {
        KeepInside(mods, words, now, cur, d, None);
      }
    } else {
      var h := OpenHeader(words);
      var ev := now[cur].prepared.value;
      if k.Footer? {
        KeepFooter(mods, words, now, cur, d);
      } else if k.Data? {
        FillBuilds(cur, words[h], words[h + 1..], now[cur].headers, d, beyond);
        var filled := Fill(cur, ev, d, k.chan, beyond);
        if filled.Some? {
          KeepInside(mods, words, now, cur, d, filled);
        }
      } else {
        ExtBuilds(cur, words[h], words[h + 1..], now[cur].headers, d);
        var after := Built(cur, words[h], words[h + 1..] + [d], now[cur].headers);
        KeepInside(mods, words, now, cur, d, Some(after));
        assert now[cur := now[cur].(prepared := Some(ev))] == now;
      }
    }
  }

  /** parse_mxdc32 stores one event for each footer that closes a header, made of the
      words between the two only, whatever an earlier interrupted event left behind. */
  lemma {:induction false} StoresClosedEvents(mods: seq<Mod>, words: seq<word>, beyond: Beyond)
    requires |mods| == |MODULES|
    ensures var s := ScanAll(mods, words, beyond);
      ScanIs(mods, words[..s.used], s.mods, s.cur)
  {
    hide ScanIs, ScanWord, ScanOk;
    if words == [] {
      ScanNothing(mods);
    } else {
      var n := |words| - 1;
      StoresClosedEvents(mods, words[..n], beyond);
      var s := ScanAll(mods, words[..n], beyond);
      assert words[..n][..s.used] == words[..s.used];
      if s.verdict.GoOn? {
        KeepScan(mods, words[..n], s.mods, s.cur, words[n], beyond);
        assert words == words[..n] + [words[n]];
        assert words[..|words|] == words && words[..n][..n] == words[..n];
      }
    }
  }

  lemma ScanNothing(mods: seq<Mod>)
    requires |mods| == |MODULES|
    ensures ScanIs(mods, [], mods, -1)
  {
  }

  /** A word the parser goes on after, with channels in range: known modules' headers,
      and nothing but headers and filling words outside an event. */
  predicate Accepted(words: seq<word>, k: nat)
    requires k < |words|
  {
    match KindOf(words[k])
    case Header(id) => IndexOfId(id) >= 0
    case Dummy => true
    case Illegal => true
    case _ => OpenHeader(words[..k]) >= 0
  }

  predicate ChannelsInRange(words: seq<word>) {
    forall k :: 0 <= k < |words| ==> KindOf(words[k]).Data? ==> KindOf(words[k]).chan < CHANNELS
  }

  lemma GoesOnExactly(mods: seq<Mod>, words: seq<word>, now: seq<Mod>, cur: int, k: nat, beyond: Beyond)
    requires k < |words| && ChannelsInRange(words)
    requires ScanIs(mods, words[..k], now, cur) && ScanOk(now, cur)
    ensures ScanWord(now, cur, words[k], beyond).2.GoOn? <==> Accepted(words, k)
  {
    hide KindOf, Built, Finished, OpenHeader, ModIs, IndexOfId;
    assert KindOf(words[k]).Data? ==> KindOf(words[k]).chan < CHANNELS;
  }

  /** The whole subevent is dealt with exactly if every word is acceptable. */
  lemma {:induction false} DealsWithAll(mods: seq<Mod>, words: seq<word>, beyond: Beyond)
    requires |mods| == |MODULES| && ChannelsInRange(words)
    ensures ScanAll(mods, words, beyond).verdict.GoOn? <==> forall k :: 0 <= k < |words| ==> Accepted(words, k)
  {
    hide ScanIs, ScanWord, ScanOk, Accepted;
    if words != [] {
      var n := |words| - 1;
      assert ChannelsInRange(words[..n]);
      DealsWithAll(mods, words[..n], beyond);
      StoresClosedEvents(mods, words[..n], beyond);
      assert words[..n][..n] == words[..n];
      forall k | 0 <= k < n ensures Accepted(words[..n], k) == Accepted(words, k) {
        AcceptedPrefix(words, n, k);
      }
      var s := ScanAll(mods, words[..n], beyond);
      if s.verdict.GoOn? {
        GoesOnExactly(mods, words, s.mods, s.cur, n, beyond);
      }
    }
  }

  lemma AcceptedPrefix(words: seq<word>, n: nat, k: nat)
    requires k < n <= |words|
    ensures Accepted(words[..n], k) == Accepted(words, k)
  {
    assert words[..n][..k] == words[..k];
  }

  lemma {:induction false} Stops(mods: seq<Mod>, words: seq<word>, n: nat, beyond: Beyond)
    requires |mods| == |MODULES| && n <= |words| && ScanAll(mods, words[..n], beyond).verdict.Leave?
    ensures ScanAll(mods, words, beyond) == ScanAll(mods, words[..n], beyond)
    decreases |words|
  {
    if n < |words| {
      var rest := words[..|words| - 1];
      assert rest[..n] == words[..n];
      Stops(mods, rest, n, beyond);
    } else {
      assert words[..n] == words;
    }
  }

  // ---- the event builder ----

  datatype EventData = EventData(nr: word, nrValid: bool, tv: (word, word), tvValid: bool, scaler: seq<word>,
    scalerValid: bool)

  datatype KoalaEvent = KoalaEvent(data: EventData, events: seq<MxEvent>)

  datatype State = State(mods: seq<Mod>, data: EventData, emitted: seq<KoalaEvent>, events: word, subevents: word)

  /** What lies behind the data arrays, and what use_koala_event answers. */
  datatype Env = Env(beyond: Beyond, accepts: KoalaEvent -> bool)

  /** The program leaves its tables or its buffer; nothing is promised after that. */
  const OUTSIDE: int := -2

  predicate NoneEmpty(mods: seq<Mod>) {
    forall m :: 0 <= m < |mods| ==> mods[m].queue != []
  }

  predicate AllEmpty(mods: seq<Mod>) {
    forall m :: 0 <= m < |mods| ==> mods[m].queue == []
  }

  function Drop(mod: Mod): Mod
    requires mod.queue != []
  {
    mod.(queue := mod.queue[1..])
  }

  function DropAll(mods: seq<Mod>): (r: seq<Mod>)
    requires NoneEmpty(mods)
    ensures |r| == |mods| && forall m :: 0 <= m < |mods| ==> r[m] == Drop(mods[m])
  {
    seq(|mods|, m requires 0 <= m < |mods| => Drop(mods[m]))
  }

  function Heads(mods: seq<Mod>): (r: seq<MxEvent>)
    requires NoneEmpty(mods)
    ensures |r| == |mods| && forall m :: 0 <= m < |mods| ==> r[m] == mods[m].queue[0]
  {
    seq(|mods|, m requires 0 <= m < |mods| => mods[m].queue[0])
  }

  /** collect_koala_event: 1 asks for another call. */
  function Collect(s: State, accepts: KoalaEvent -> bool): (State, int) {
    if !NoneEmpty(s.mods) then (s, 0)
    else
      var koala := KoalaEvent(s.data, Heads(s.mods));
      var s' := s.(mods := DropAll(s.mods), emitted := s.emitted + [koala]);
      (s', if !accepts(koala) then -1 else if AllEmpty(s'.mods) then 0 else 1)
  }

  function Queued(mods: seq<Mod>): nat {
    if mods == [] then 0 else |mods[0].queue| + Queued(mods[1..])
  }

  lemma {:induction false} DropShortens(mods: seq<Mod>)
    requires NoneEmpty(mods) && mods != []
    ensures Queued(DropAll(mods)) < Queued(mods)
  {
    assert DropAll(mods)[1..] == DropAll(mods[1..]);
    if |mods| > 1 {
      DropShortens(mods[1..]);
    }
  }

  /** The loop around it. */
  function CollectAll(s: State, accepts: KoalaEvent -> bool): (State, int)
    requires |s.mods| == |MODULES|
    decreases Queued(s.mods)
  {
    var (s', res) := Collect(s, accepts);
    if res > 0 then
      DropShortens(s.mods);
      CollectAll(s', accepts)
    else (s', res)
  }

  function ParseSubevent(s: State, id: word, buf: seq<word>, env: Env): (State, int)
    requires |s.mods| == |MODULES|
  {
    if id == 1 then
      if |buf| != 32 then (s, -1) else (s.(data := s.data.(scaler := buf, scalerValid := true)), 0)
    else if id == 10 then
      var scan := ScanAll(s.mods, buf, env.beyond);
      (s.(mods := scan.mods), if scan.verdict.GoOn? then 0 else scan.verdict.res)
    else if id == 100 then
      if |buf| != 2 then (s, -1) else (s.(data := s.data.(tv := (buf[0], buf[1]), tvValid := true)), 0)
    else if id == 0xFFFF_FFFF then (s, 0)
    else (s, OUTSIDE)
  }

  /** The answer to a subevent of negative size. */
  function NegativeSize(id: word): int {
    if id == 1 || id == 100 then -1 else OUTSIDE
  }

  function ParseSubevents(s: State, buf: seq<word>, idx: nat, n: nat, env: Env): (State, int, nat)
    requires |s.mods| == |MODULES|
    decreases n
  {
    if n == 0 then (s, 0, idx)
    else if |buf| < idx + 2 then (s, -1, idx)
    else
      var id, size := buf[idx], buf[idx + 1];
      if size >= 0x8000_0000 then (s, NegativeSize(id), idx)
      else if |buf| < idx + 2 + size then (s, -1, idx)
      else
        var (s', res) := ParseSubevent(s, id, buf[idx + 2..idx + 2 + size], env);
        if res < 0 then (s', res, idx)
        else
          ScanKeepsModules(s, id, buf[idx + 2..idx + 2 + size], env);
          ParseSubevents(s', buf, idx + 2 + size, n - 1, env)
  }

  lemma ScanKeepsModules(s: State, id: word, buf: seq<word>, env: Env)
    requires |s.mods| == |MODULES|
    ensures |ParseSubevent(s, id, buf, env).0.mods| == |MODULES|
  {
    hide ScanAll, KindOf;
    StoresClosedEvents(s.mods, buf, env.beyond);
  }

  /** parse_event */
  function ParseEvent(s: State, buf: seq<word>, env: Env): (State, int)
    requires |s.mods| == |MODULES|
  {
    var s0 := s.(data := s.data.(nrValid := false, tvValid := false, scalerValid := false));
    if |buf| < 3 then (s0, -1)
    else
      var s1 := s0.(data := s0.data.(nr := buf[0], nrValid := true));
      var (s2, res, idx) := ParseSubevents(s1, buf, 3, Turns(buf[2]), env);
      if res < 0 then (s2, res)
      else if idx != |buf| then (s2, -1)
      else
        SubeventsKeepModules(s1, buf, 3, Turns(buf[2]), env);
        CollectAll(s2.(subevents := (s2.subevents + buf[2]) % 0x1_0000_0000), env.accepts)
  }

  lemma {:induction false} SubeventsKeepModules(s: State, buf: seq<word>, idx: nat, n: nat, env: Env)
    requires |s.mods| == |MODULES|
    ensures |ParseSubevents(s, buf, idx, n, env).0.mods| == |MODULES|
    decreases n
  {
    hide ParseSubevent;
    if n > 0 && |buf| >= idx + 2 && buf[idx + 1] < 0x8000_0000 && |buf| >= idx + 2 + buf[idx + 1] {
      var sub := buf[idx + 2..idx + 2 + buf[idx + 1]];
      ScanKeepsModules(s, buf[idx], sub, env);
      if ParseSubevent(s, buf[idx], sub, env).1 >= 0 {
        SubeventsKeepModules(ParseSubevent(s, buf[idx], sub, env).0, buf, idx + 2 + buf[idx + 1], n - 1, env);
      }
    }
  }

  /** The event loop of parse_events; an event of negative size is too short. */
  function EventLoop(s: State, buf: seq<word>, idx: nat, n: nat, env: Env): (State, int, nat)
    requires |s.mods| == |MODULES|
    decreases n
  {
    if n == 0 then (s, 0, idx)
    else if |buf| < idx + 1 then (s, -1, idx)
    else
      var size := buf[idx];
      if size < 0x8000_0000 && |buf| < idx + 1 + size then (s, -1, idx)
      else
        var sub := if size < 0x8000_0000 then buf[idx + 1..idx + 1 + size] else [];
        var (s', res) := ParseEvent(s, sub, env);
        if res < 0 then (s', res, idx)
        else
          EventKeepsModules(s, sub, env);
          EventLoop(s', buf, idx + 1 + |sub|, n - 1, env)
  }

  lemma EventKeepsModules(s: State, buf: seq<word>, env: Env)
    requires |s.mods| == |MODULES|
    ensures |ParseEvent(s, buf, env).0.mods| == |MODULES|
  {
    hide ParseSubevents, CollectAll;
    if |buf| >= 3 {
      var s0 := s.(data := s.data.(nrValid := false, tvValid := false, scalerValid := false));
      var s1 := s0.(data := s0.data.(nr := buf[0], nrValid := true));
      SubeventsKeepModules(s1, buf, 3, Turns(buf[2]), env);
      var (s2, res, idx) := ParseSubevents(s1, buf, 3, Turns(buf[2]), env);
      if res >= 0 && idx == |buf| {
        CollectKeepsModules(s2.(subevents := (s2.subevents + buf[2]) % 0x1_0000_0000), env.accepts);
      }
    }
  }

  lemma {:induction false} CollectKeepsModules(s: State, accepts: KoalaEvent -> bool)
    requires |s.mods| == |MODULES|
    ensures |CollectAll(s, accepts).0.mods| == |MODULES|
    decreases Queued(s.mods)
  {
    if Collect(s, accepts).1 > 0 {
      DropShortens(s.mods);
      CollectKeepsModules(Collect(s, accepts).0, accepts);
    }
  }

  /** The words of the options in front of the events, or None. */
  function OptionWords(buf: seq<word>): Option<nat> {
    if |buf| < 1 then None
    else if buf[0] == 0xFFFF_FFFF then Some(0)
    else if buf[0] >= 0x8000_0000 || |buf| < 1 + buf[0] then None
    else Some(buf[0] + 1)
  }

  /** parse_events */
  function ParseEvents(s: State, buf: seq<word>, env: Env): (State, int)
    requires |s.mods| == |MODULES|
  {
    match OptionWords(buf)
    case None => (s, -1)
    case Some(idx) =>
      if |buf| < idx + 4 then (s, -1)
      else
        var (s', res, end) := EventLoop(s, buf, idx + 4, Turns(buf[idx + 3]), env);
        if res < 0 then (s', res)
        else if end != |buf| then (s', -1)
        else (s'.(events := (s'.events + buf[idx + 3]) % 0x1_0000_0000), 0)
  }

  // ---- lockstep ----

  /** Module m: the emitted events took its stored ones in order, the queue has the rest. */
  predicate ModInStep(mod: Mod, emitted: seq<KoalaEvent>, m: nat) {
    && |mod.stored| == |emitted| + |mod.queue| && mod.queue == mod.stored[|emitted|..]
    && forall k :: 0 <= k < |emitted| ==> m < |emitted[k].events| && emitted[k].events[m] == mod.stored[k]
  }

  predicate Inv(s: State) {
    && |s.mods| == |MODULES|
    && (forall k :: 0 <= k < |s.emitted| ==> |s.emitted[k].events| == |MODULES|)
    && (forall m :: 0 <= m < |MODULES| ==> ModInStep(s.mods[m], s.emitted, m))
  }

  function MinStored(mods: seq<Mod>): (n: nat)
    requires mods != []
    ensures (forall m :: 0 <= m < |mods| ==> n <= |mods[m].stored|) &&
      exists m :: 0 <= m < |mods| && n == |mods[m].stored|
  {
    if |mods| == 1 then |mods[0].stored|
    else
      var rest := MinStored(mods[1..]);
      assert forall m :: 1 <= m < |mods| ==> mods[m] == mods[1..][m - 1];
      var i :| 0 <= i < |mods| - 1 && rest == |mods[1..][i].stored|;
      assert rest == |mods[i + 1].stored|;
      Min(|mods[0].stored|, rest)
  }

  /** As many events have been emitted as the module with the fewest has stored. */
  predicate Complete(s: State) {
    Inv(s) && |s.emitted| == MinStored(s.mods)
  }

  lemma KeepDrop(s: State, accepts: KoalaEvent -> bool)
    requires Inv(s)
    ensures Inv(Collect(s, accepts).0)
  {
    if NoneEmpty(s.mods) {
      var t := Collect(s, accepts).0;
      forall m | 0 <= m < |MODULES| ensures ModInStep(t.mods[m], t.emitted, m) {
        assert ModInStep(s.mods[m], s.emitted, m);
        assert s.mods[m].queue[0] == s.mods[m].stored[|s.emitted|];
      }
    }
  }

  lemma InStepIsMin(s: State)
    requires Inv(s) && !NoneEmpty(s.mods)
    ensures Complete(s)
  {
    var m :| 0 <= m < |MODULES| && s.mods[m].queue == [];
    assert ModInStep(s.mods[m], s.emitted, m);
    assert forall k :: 0 <= k < |MODULES| ==> ModInStep(s.mods[k], s.emitted, k);
  }

  /** The collecting loop ends with one module empty, unless an event is refused. */
  lemma {:induction false} CollectsMin(s: State, accepts: KoalaEvent -> bool)
    requires Inv(s)
    ensures var (t, res) := CollectAll(s, accepts);
      && Inv(t) && (res == 0 || res == -1) && (res == 0 ==> Complete(t))
      && s.emitted <= t.emitted && (forall m :: 0 <= m < |MODULES| ==> t.mods[m].stored == s.mods[m].stored)
      && (res == -1 <==> exists k :: |s.emitted| <= k < |t.emitted| && !accepts(t.emitted[k]))
    decreases Queued(s.mods)
  {
    hide Inv, Complete;
    CollectInv(s);
    KeepDrop(s, accepts);
    var (s1, res1) := Collect(s, accepts);
    if res1 > 0 {
      DropShortens(s.mods);
      CollectsMin(s1, accepts);
      var t := CollectAll(s1, accepts).0;
      assert t.emitted[|s.emitted|] == s1.emitted[|s.emitted|];
    } else if res1 == 0 {
      assert s1.mods[0].queue == [] || !NoneEmpty(s1.mods);
      InStepIsMin(s1);
    } else {
      assert !accepts(s1.emitted[|s.emitted|]);
    }
  }

  lemma CollectInv(s: State)
    requires Inv(s)
    ensures |s.mods| == |MODULES| && s.mods != []
  {
  }

  lemma KeepSubevent(s: State, id: word, buf: seq<word>, env: Env)
    requires Inv(s)
    ensures Inv(ParseSubevent(s, id, buf, env).0) && ParseSubevent(s, id, buf, env).0.emitted == s.emitted
  {
    hide ScanAll, KindOf, ClosedEvents, HeadersOf, LengthsOf, OpenIs;
    if id == 10 {
      StoresClosedEvents(s.mods, buf, env.beyond);
      var t := ParseSubevent(s, id, buf, env).0;
      forall m | 0 <= m < |MODULES| ensures ModInStep(t.mods[m], t.emitted, m) {
        assert ModInStep(s.mods[m], s.emitted, m);
        assert exists w :: ModIs(s.mods[m], w, t.mods[m], m);
      }
    }
  }

  lemma {:induction false} KeepSubevents(s: State, buf: seq<word>, idx: nat, n: nat, env: Env)
    requires Inv(s)
    ensures |s.mods| == |MODULES| && Inv(ParseSubevents(s, buf, idx, n, env).0)
    decreases n
  {
    hide ParseSubevent, Inv;
    CollectInv(s);
    if n > 0 && |buf| >= idx + 2 && buf[idx + 1] < 0x8000_0000 && |buf| >= idx + 2 + buf[idx + 1] {
      var sub := buf[idx + 2..idx + 2 + buf[idx + 1]];
      KeepSubevent(s, buf[idx], sub, env);
      if ParseSubevent(s, buf[idx], sub, env).1 >= 0 {
        KeepSubevents(ParseSubevent(s, buf[idx], sub, env).0, buf, idx + 2 + buf[idx + 1], n - 1, env);
      }
    }
  }

  /** After a successful parse_event every complete set of events has been emitted. */
  lemma EventCompletes(s: State, buf: seq<word>, env: Env)
    requires Inv(s)
    ensures |s.mods| == |MODULES|
    ensures var (t, res) := ParseEvent(s, buf, env); Inv(t) && (res == 0 ==> Complete(t)) && res <= 0
  {
    hide ParseSubevents, CollectAll, Complete, Inv;
    CollectInv(s);
    var s0 := s.(data := s.data.(nrValid := false, tvValid := false, scalerValid := false));
    DataKeepsInv(s, s0);
    if |buf| >= 3 {
      var s1 := s0.(data := s0.data.(nr := buf[0], nrValid := true));
      DataKeepsInv(s, s1);
      KeepSubevents(s1, buf, 3, Turns(buf[2]), env);
      var (s2, res, idx) := ParseSubevents(s1, buf, 3, Turns(buf[2]), env);
      if res >= 0 && idx == |buf| {
        var s3 := s2.(subevents := (s2.subevents + buf[2]) % 0x1_0000_0000);
        DataKeepsInv(s2, s3);
        CollectsMin(s3, env.accepts);
      }
    }
  }

  lemma DataKeepsInv(s: State, t: State)
    requires t.mods == s.mods && t.emitted == s.emitted
    ensures Inv(s) ==> Inv(t)
    ensures Complete(s) ==> Complete(t)
  {
  }

  lemma {:induction false} KeepEventLoop(s: State, buf: seq<word>, idx: nat, n: nat, env: Env)
    requires Complete(s)
    ensures |s.mods| == |MODULES|
    ensures var (t, res, _) := EventLoop(s, buf, idx, n, env); Inv(t) && (res >= 0 ==> res == 0 && Complete(t))
    decreases n
  {
    hide ParseEvent, Inv, Complete;
    CompleteInv(s);
    if n > 0 && |buf| >= idx + 1 && (buf[idx] >= 0x8000_0000 || |buf| >= idx + 1 + buf[idx]) {
      var sub := if buf[idx] < 0x8000_0000 then buf[idx + 1..idx + 1 + buf[idx]] else [];
      EventCompletes(s, sub, env);
      if ParseEvent(s, sub, env).1 >= 0 {
        KeepEventLoop(ParseEvent(s, sub, env).0, buf, idx + 1 + |sub|, n - 1, env);
      }
    }
  }

  lemma CompleteInv(s: State)
    requires Complete(s)
    ensures Inv(s) && |s.mods| == |MODULES|
  {
  }

  // ---- whole files ----

  /** The event clusters of a file, up to the first error. */
  function ParseFile(s: State, bufs: seq<seq<word>>, env: Env): (r: (State, int))
    requires |s.mods| == |MODULES|
    ensures |r.0.mods| == |MODULES|
  {
    if bufs == [] then (s, 0)
    else
      var (s1, res) := ParseFile(s, bufs[..|bufs| - 1], env);
      if res < 0 then (s1, res)
      else
        EventsKeepModules(s1, bufs[|bufs| - 1], env);
        ParseEvents(s1, bufs[|bufs| - 1], env)
  }

  lemma EventsKeepModules(s: State, buf: seq<word>, env: Env)
    requires |s.mods| == |MODULES|
    ensures |ParseEvents(s, buf, env).0.mods| == |MODULES|
  {
    hide EventLoop;
    if OptionWords(buf).Some? && |buf| >= OptionWords(buf).value + 4 {
      var idx := OptionWords(buf).value;
      LoopKeepsModules(s, buf, idx + 4, Turns(buf[idx + 3]), env);
    }
  }

  lemma {:induction false} LoopKeepsModules(s: State, buf: seq<word>, idx: nat, n: nat, env: Env)
    requires |s.mods| == |MODULES|
    ensures |EventLoop(s, buf, idx, n, env).0.mods| == |MODULES|
    decreases n
  {
    hide ParseEvent;
    if n > 0 && |buf| >= idx + 1 && (buf[idx] >= 0x8000_0000 || |buf| >= idx + 1 + buf[idx]) {
      var sub := if buf[idx] < 0x8000_0000 then buf[idx + 1..idx + 1 + buf[idx]] else [];
      EventKeepsModules(s, sub, env);
      if ParseEvent(s, sub, env).1 >= 0 {
        LoopKeepsModules(ParseEvent(s, sub, env).0, buf, idx + 1 + |sub|, n - 1, env);
      }
    }
  }

  const EMPTY_MOD := Mod(None, [], [], 0, 0)

  function Start(data: EventData): (s: State)
    ensures |s.mods| == |MODULES|
  {
    State([EMPTY_MOD, EMPTY_MOD, EMPTY_MOD], data, [], 0, 0)
  }

  /** In every run the k-th koala event is made of the k-th stored event of every
      module; while no error has occurred there are as many koala events as the module
      with the fewest stored events has. */
  lemma {:induction false} Lockstep(data: EventData, bufs: seq<seq<word>>, env: Env)
    ensures var (s, res) := ParseFile(Start(data), bufs, env);
      Inv(s) && (res >= 0 ==> Complete(s))
  {
    hide EventLoop, Inv, Complete;
    if bufs == [] {
      StartComplete(data);
      CompleteInv(Start(data));
    } else {
      var n := |bufs| - 1;
      Lockstep(data, bufs[..n], env);
      var (s1, res) := ParseFile(Start(data), bufs[..n], env);
      if res >= 0 {
        EventsComplete(s1, bufs[n], env);
      }
    }
  }

  lemma StartComplete(data: EventData)
    ensures Complete(Start(data))
  {
  }

  lemma EventsComplete(s: State, buf: seq<word>, env: Env)
    requires Complete(s)
    ensures |s.mods| == |MODULES|
    ensures var (t, res) := ParseEvents(s, buf, env); Inv(t) && (res >= 0 ==> Complete(t))
  {
    hide EventLoop, Inv, Complete;
    CompleteInv(s);
    if OptionWords(buf).Some? && |buf| >= OptionWords(buf).value + 4 {
      var idx := OptionWords(buf).value;
      KeepEventLoop(s, buf, idx + 4, Turns(buf[idx + 3]), env);
      var t := EventLoop(s, buf, idx + 4, Turns(buf[idx + 3]), env).0;
      DataKeepsInv(t, t.(events := (t.events + buf[idx + 3]) % 0x1_0000_0000));
    }
  }
}
