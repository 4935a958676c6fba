/**
  Runs of the distributor: what its consumers get, what happens to its buffers, and
  how little the cutting of the input into reads matters.
*/
module DistributorRuns {
  import opened Util
  import opened ByteOrder
  import opened Distributor
  import opened DistributorTurn

  /** The state in which main_loop starts. */
  predicate IsStart(cfg: Config, s: State) {
    && s.mem == map[] && s.socks == [] && s.phase.Running?
    && |s.input.head| == 8 && s.input.buf.None? && s.input.position == 0 && !s.input.valid
    && s.hist == History([], [], 0, [], 0, 0, 0)
    && cfg.listener > 0
    && s.insock == (if cfg.mode.StdinMode? then 0 else -1)
    && (if cfg.mode.AcceptMode? then s.insockL > 0 && s.insockL != cfg.listener else s.insockL == -1)
  }

  /** The state after any number of turns. */
  function Run(cfg: Config, s: State, envs: seq<Env>): (t: State)
    requires IsStart(cfg, s)
    ensures HeadOk(cfg, t)
  {
    if envs == [] then s else Step(cfg, Run(cfg, s, envs[..|envs| - 1]), envs[|envs| - 1])
  }

  /** The clusters a socket has been sent completely. */
  function Drained(k: Sock): seq<nat> {
    if k.buf.None? || k.taken == [] then k.taken else k.taken[..|k.taken| - 1]
  }

  /** k was sent a selection of the clusters in order, each whole, then the first
      `position` bytes of the one it is draining; `position` is inside that one. */
  predicate Received(clusters: seq<seq<byte>>, k: Sock) {
    Ascending(k.taken, |clusters|) &&
    match k.buf
    case None => k.sent == Picked(clusters, k.taken)
    case Some(a) =>
      k.taken != [] &&
      var last := clusters[k.taken[|k.taken| - 1]];
      k.position < |last| && k.sent == Picked(clusters, Drained(k)) + last[..k.position]
  }

  lemma ReceivedIfOk(mem: map<Addr, Buffer>, clusters: seq<seq<byte>>, k: Sock)
    requires SockOk(mem, clusters, k)
    ensures Received(clusters, k)
  {
  }

  /** The clusters of all bytes that came in, connection by connection. */
  function Complete(cfg: Config, h: History): seq<seq<byte>> {
    AllClusters(cfg, h.past) + Clusters(cfg, h.conn)
  }

  /** In every run the completed clusters are those of the bytes that came in, over all
      connections, and the reader holds the rest of the present one. */
  lemma ClustersAreTheInput(cfg: Config, s: State, envs: seq<Env>)
    requires IsStart(cfg, s) && !Run(cfg, s, envs).phase.Overrun?
    ensures var t := Run(cfg, s, envs);
      && t.hist.clusters == Complete(cfg, t.hist) && Pending(t.mem, t.input) == Rest(cfg, t.hist.conn)
      && t.hist.base <= |t.hist.clusters| && t.hist.clusters[t.hist.base..] == Clusters(cfg, t.hist.conn)
  {
    hide Step, Run, SocksOk, CountsOk, FdsOk, StreamOk, Pending, Partial, Clusters, AllClusters, Rest, Framed;
    var t := Run(cfg, s, envs);
    PendingPartial(cfg, t);
    StreamLedger(cfg, t);
  }

  /** In every run, what a consumer has received is a selection of the clusters of the
      input in arrival order, each whole, then the first `position` bytes of the one it
      is draining. */
  lemma ConsumersGetWholeClusters(cfg: Config, s: State, envs: seq<Env>)
    requires IsStart(cfg, s) && !Run(cfg, s, envs).phase.Overrun?
    ensures var t := Run(cfg, s, envs);
      forall i :: 0 <= i < |t.socks| ==> Received(Complete(cfg, t.hist), t.socks[i])
  {
    hide Step, Received, Complete;
    var t := Run(cfg, s, envs);
    ClustersAreTheInput(cfg, s, envs);
    forall i | 0 <= i < |t.socks| ensures Received(t.hist.clusters, t.socks[i]) {
      assert SockOk(t.mem, t.hist.clusters, t.socks[i]);
      ReceivedIfOk(t.mem, t.hist.clusters, t.socks[i]);
    }
  }

  /** In every run, each live buffer counts the consumers that point at it, no buffer
      leaks, what consumers and the reader point at is live, and every block
      allocated has been freed once or is still live. */
  lemma BuffersAreCounted(cfg: Config, s: State, envs: seq<Env>)
    requires IsStart(cfg, s) && !Run(cfg, s, envs).phase.Overrun?
    ensures var t := Run(cfg, s, envs);
      && (forall a :: a in t.mem ==>
            t.mem[a].users == Users(t.socks, a) && (t.mem[a].users > 0 || t.input.buf == Some(a)))
      && (forall i :: 0 <= i < |t.socks| && t.socks[i].buf.Some? ==>
            t.socks[i].buf.value in t.mem && t.socks[i].buf != t.input.buf)
      && (t.input.buf.Some? ==> t.input.buf.value in t.mem && t.mem[t.input.buf.value].users == 0)
      && t.hist.allocs == t.hist.frees + |t.mem|
  {
    hide Step, Framed, FdsOk, StreamOk, Picked;
    var t := Run(cfg, s, envs);
    forall i | 0 <= i < |t.socks| && t.socks[i].buf.Some?
      ensures t.socks[i].buf.value in t.mem && t.socks[i].buf != t.input.buf
    {
      BusySock(cfg, t, i);
    }
  }

  /** In every run, no completed cluster ever went without a taker. */
  lemma EveryClusterIsTaken(cfg: Config, s: State, envs: seq<Env>)
    requires IsStart(cfg, s) && !Run(cfg, s, envs).phase.Overrun?
    ensures Run(cfg, s, envs).hist.unused == 0
  {
    hide Step;
  }

  /** t has one more cluster, in the buffer at a, which counts the sockets idle in s;
      these now point at its first byte and no other socket changed. */
  predicate Delivered(s: State, t: State, a: Addr) {
    var number := |s.hist.clusters|;
    && |t.hist.clusters| == number + 1 && t.hist.clusters[..number] == s.hist.clusters
    && a in t.mem && t.mem[a] == Buffer(t.hist.clusters[number], Idle(s.socks))
    && |t.socks| == |s.socks| && forall i :: 0 <= i < |s.socks| ==> t.socks[i] == Take(s.socks[i], a, number)
  }

  lemma HandOverDelivers(cfg: Config, s: State)
    requires InputOk(cfg, s.mem, s.input) && CountsOk(s.mem, s.socks, s.input) && s.input.valid && Idle(s.socks) > 0
    ensures s.input.buf.Some? && s.input.buf.value in s.mem && Delivered(s, HandOver(s), s.input.buf.value)
  {
    hide Framed, Users;
  }

  /** Serving the input, if it completes a cluster, gives it, from its first byte, to
      every socket that is idle by then and to no other. */
  lemma Delivery(cfg: Config, s: State, e: Env)
    requires LoopHead(cfg, s) && s.insock >= 0 && Idle(s.socks) > 0
    ensures var t := ServeInput(cfg, s, e);
      t.phase.Overrun? || t.hist.clusters == s.hist.clusters || exists a :: Delivered(s, t, a)
  {
    hide SocksOk, CountsOk, StreamOk, FdsOk, Framed, Clearable, DoRead, HandOver;
    KeepDoRead(cfg, s, e);
    DoReadKeepsClusters(cfg, s, e);
    var (u, ok) := DoRead(cfg, s, e);
    if ok && !u.phase.Overrun? && u.input.valid {
      HandOverDelivers(cfg, u);
      assert Delivered(s, HandOver(u), u.input.buf.value);
    }
  }

  lemma BeforeInputKeepsClusters(cfg: Config, s: State, e: Env, readable: set<int>, writable: set<int>)
    requires LoopHead(cfg, s) && WritableBusy(s, 0, writable)
    ensures BeforeInput(cfg, s, e, readable, writable).hist.clusters == s.hist.clusters
  {
    hide SocksOk, CountsOk, StreamOk, FdsOk, Clearable, InputOk, WriteLoop;
    WritesKeepHistory(cfg, s, 0, writable, e.writes);
    InvClearable(cfg, WriteLoop(cfg, s, 0, writable, e.writes));
  }

  /** When a turn completes a cluster, m is the state its input was served in: nothing
      else in the turn completes one or hands one over. */
  ghost predicate DeliveredAt(cfg: Config, s: State, m: State, t: State) {
    LoopHead(cfg, m) && IdleStay(s, m) && m.hist.clusters == s.hist.clusters && exists a :: Delivered(m, t, a)
  }

  /** A turn that completes a cluster gives it, from its first byte, to every socket that
      is idle when the input is served and to no other; the sockets idle at the head of the
      loop are among them. */
  lemma TurnDelivers(cfg: Config, s: State, e: Env)
    requires HeadOk(cfg, s)
    ensures var t := Step(cfg, s, e);
      t.phase.Overrun? || t.hist.clusters == s.hist.clusters || exists m :: DeliveredAt(cfg, s, m, t)
  {
    hide Inv, ServeInput, BeforeInput, Delivered;
    if s.phase.Running? && e.select.SomeReady? {
      KeepRequest(cfg, s, e);
      var s1 := RequestInput(cfg, s, e);
      var readable, writable := e.readable * PolledRead(cfg, s1), e.writable * PolledWrite(cfg, s1);
      InvFds(cfg, s1);
      PolledBusy(cfg, s1, writable);
      BeforeInputKeepsClusters(cfg, s1, e, readable, writable);
      var m := BeforeInput(cfg, s1, e, readable, writable);
      if m.insock >= 0 && m.insock in readable {
        PolledInput(cfg, s1, e, readable, writable);
        IdlePositive(m.socks);
        Delivery(cfg, m, e);
        var t := ServeInput(cfg, m, e);
        if !t.phase.Overrun? && t.hist.clusters != s.hist.clusters {
          assert DeliveredAt(cfg, s, m, t);
        }
      }
    }
  }

  lemma InvFds(cfg: Config, s: State)
    requires Inv(cfg, s)
    ensures FdsOk(cfg, s)
  {
  }

  lemma DoReadKeepsClusters(cfg: Config, s: State, e: Env)
    requires InputOk(cfg, s.mem, s.input)
    ensures DoRead(cfg, s, e).0.hist.clusters == s.hist.clusters
  {
    hide Framed, Announced;
  }

  /** These eight bytes are a new-format header that announces no further word. */
  predicate BareHeader(cfg: Config, head: seq<byte>) {
    !cfg.oldFormat && |head| == 8 && Announced(cfg, head) == Some(4)
  }

  /** The program has written past its block exactly if the present connection brought
      whole clusters and then a header that announces no further word. */
  lemma OverrunExactly(cfg: Config, s: State, envs: seq<Env>)
    requires IsStart(cfg, s)
    ensures var t := Run(cfg, s, envs); t.phase.Overrun? <==> BareHeader(cfg, Rest(cfg, t.hist.conn))
  {
    hide Step, Run, SocksOk, CountsOk, FdsOk, Announced, Clusters, AllClusters, Flatten, Rest, ClustersOk;
    var t := Run(cfg, s, envs);
    if t.phase.Overrun? {
      ClustersFrom(cfg, t.hist.clusters, t.hist.base);
      ClustersOfFlatten(cfg, t.hist.clusters[t.hist.base..], t.input.head);
    } else {
      PendingPartial(cfg, t);
      StreamLedger(cfg, t);
      PendingAnnouncesMore(cfg, t);
    }
  }

  lemma PendingAnnouncesMore(cfg: Config, s: State)
    requires LoopHead(cfg, s)
    ensures !BareHeader(cfg, Pending(s.mem, s.input))
  {
    hide SocksOk, CountsOk, FdsOk, Announced, StreamOk;
    if s.input.buf.Some? && !cfg.oldFormat && s.input.position == 8 {
      var d := s.mem[s.input.buf.value].data;
      assert d[..8][..8] == d[..8];
    }
  }

  /** It never happens on input whose headers all announce a further word. */
  lemma SaneInputNeverOverruns(cfg: Config, s: State, envs: seq<Env>, sent: seq<seq<byte>>)
    requires IsStart(cfg, s) && ClustersOk(cfg, sent) && Run(cfg, s, envs).hist.conn <= Flatten(sent)
    ensures !Run(cfg, s, envs).phase.Overrun?
  {
    hide Run, ClustersOk, Flatten, Rest, BareHeader;
    OverrunExactly(cfg, s, envs);
    RestOfPrefix(cfg, Run(cfg, s, envs).hist.conn, sent);
  }

  lemma {:induction false} RestOfPrefix(cfg: Config, p: seq<byte>, sent: seq<seq<byte>>)
    requires ClustersOk(cfg, sent) && p <= Flatten(sent)
    ensures !BareHeader(cfg, Rest(cfg, p))
    decreases |p|
  {
    hide Announced, ClustersOk, Partial;
    if sent == [] {
      NoClusters(cfg);
      HeaderPartial(cfg, p);
      NoneWhole(cfg, p);
    } else {
      var c := sent[0];
      ClustersFrom(cfg, sent, 1);
      if |p| < |c| {
        assert p == c[..|p|];
        PartOfCluster(cfg, c, |p|);
        NoneWhole(cfg, p);
      } else {
        assert p == c + p[|c|..];
        FirstCluster(cfg, c, p[|c|..]);
        WholeCluster(cfg, p);
        RestOfPrefix(cfg, p[|c|..], sent[1..]);
      }
    }
  }

  lemma PartOfCluster(cfg: Config, c: seq<byte>, n: nat)
    requires Framed(cfg, c) && |c| > HeaderSize(cfg) && n < |c|
    ensures Partial(cfg, c[..n]) && !BareHeader(cfg, c[..n])
  {
    hide Announced;
    var H := HeaderSize(cfg);
    if n >= H {
      assert c[..n][..H] == c[..H];
    }
    if n == 8 && !cfg.oldFormat {
      assert c[..8] == c[..H];
    }
  }

  /** Two runs whose input connections delivered the same bytes have completed the
      same clusters from them, however the bytes were cut into reads. */
  lemma ChunkingDoesNotMatter(cfg: Config, s: State, envs: seq<Env>, s': State, envs': seq<Env>)
    requires IsStart(cfg, s) && IsStart(cfg, s')
    requires !Run(cfg, s, envs).phase.Overrun?
    requires Run(cfg, s, envs).hist.conn == Run(cfg, s', envs').hist.conn
    ensures !Run(cfg, s', envs').phase.Overrun?
    ensures var t, t' := Run(cfg, s, envs), Run(cfg, s', envs');
      && t.hist.clusters[t.hist.base..] == t'.hist.clusters[t'.hist.base..]
      && Pending(t.mem, t.input) == Pending(t'.mem, t'.input)
      && (t.hist.past == t'.hist.past ==> t.hist.clusters == t'.hist.clusters)
  {
    hide Run, Pending, Clusters, AllClusters, Rest, BareHeader;
    OverrunExactly(cfg, s, envs);
    OverrunExactly(cfg, s', envs');
    ClustersAreTheInput(cfg, s, envs);
    ClustersAreTheInput(cfg, s', envs');
  }

  // ---- a run that overruns: one consumer, and eight bytes that announce nothing ----

  function OneConsumer(): Config { Config(Big, false, Never, StdinMode, false, 3) }

  function Began(head: seq<byte>, socks: seq<Sock>): State {
    State(map[], socks, Input(None, head, 0, false), 0, -1, Running, History([], [], 0, [], 0, 0, 0))
  }

  function Joins(writes: int -> Write): Env {
    Env(SomeReady, {3}, {}, writes, -1, false, -1, 5, true, WouldBlock, WouldBlock, NoMemory)
  }

  const BARE: seq<byte> := [0, 0, 0, 0, 0x12, 0x34, 0x56, 0x78]

  function Sends(writes: int -> Write, fill: nat -> byte): Env {
    Env(SomeReady, {0}, {}, writes, -1, false, -1, -1, true, Data(BARE), WouldBlock, Malloc(1, fill))
  }

  lemma BareAnnouncesNothing()
    ensures BareHeader(OneConsumer(), BARE)
  {
    FourValue(BARE[..4]);
    FourValue(BARE[4..]);
  }

  lemma JoinsStep(head: seq<byte>, writes: int -> Write)
    requires |head| == 8
    ensures IsStart(OneConsumer(), Began(head, [])) && HeadOk(OneConsumer(), Began(head, []))
    ensures Step(OneConsumer(), Began(head, []), Joins(writes)) == Began(head, [Sock(5, None, 0, [], [])])
  {
    var cfg, s, e := OneConsumer(), Began(head, []), Joins(writes);
    assert Run(cfg, s, []) == s;
    hide Inv;
    assert PolledRead(cfg, s) == {3} && PolledWrite(cfg, s) == {};
    assert RequestInput(cfg, s, e) == s;
    assert e.readable * PolledRead(cfg, s) == {3} && e.writable * PolledWrite(cfg, s) == {};
  }

  lemma SendsStep(head: seq<byte>, writes: int -> Write, fill: nat -> byte)
    requires |head| == 8 && HeadOk(OneConsumer(), Began(head, [Sock(5, None, 0, [], [])]))
    ensures Step(OneConsumer(), Began(head, [Sock(5, None, 0, [], [])]), Sends(writes, fill)).phase.Overrun?
  {
    hide Inv, Announced, OverrunOk;
    var cfg, s, e := OneConsumer(), Began(head, [Sock(5, None, 0, [], [])]), Sends(writes, fill);
    assert PolledRead(cfg, s) == {3, 0} && PolledWrite(cfg, s) == {};
    assert RequestInput(cfg, s, e) == s;
    assert e.readable * PolledRead(cfg, s) == {0} && e.writable * PolledWrite(cfg, s) == {};
    assert LoopHead(cfg, s) && WritableBusy(s, 0, {}) && WritableBusy(s, 1, {});
    assert Inv(cfg, s);
    assert WriteLoop(cfg, s, 1, {}, e.writes) == s;
    assert WriteLoop(cfg, s, 0, {}, e.writes) == s;
    assert BeforeInput(cfg, s, e, {0}, {}) == s;
    BareAnnouncesNothing();
    assert Kernel(e.read1, 8) == Data(BARE) by { assert BARE[..8] == BARE; }
    assert Splice(head, 0, BARE) == BARE;
    assert BARE[..8] == BARE;
    assert GotHeadBytes(s, BARE).input.head == BARE;
    assert StartCluster(cfg, GotHeadBytes(s, BARE), e.malloc).0.phase.Overrun?;
    assert DoRead(cfg, s, e).0.phase.Overrun?;
  }

  lemma BareHeaderOverruns(head: seq<byte>, writes: int -> Write, fill: nat -> byte)
    requires |head| == 8
    ensures IsStart(OneConsumer(), Began(head, []))
    ensures Run(OneConsumer(), Began(head, []), [Joins(writes), Sends(writes, fill)]).phase.Overrun?
  {
    hide Step, IsStart, HeadOk;
    var cfg, s, a, b := OneConsumer(), Began(head, []), Joins(writes), Sends(writes, fill);
    JoinsStep(head, writes);
    assert [a, b][..1] == [a] && [a][..0] == [];
    assert Run(cfg, s, [a]) == Step(cfg, s, a);
    SendsStep(head, writes, fill);
  }
}
