/**
 * Two routers that run the Database Description code against each other over FIFO channels that
 * may lose and repeat packets: safety, the number of packets, and what has been exchanged at the
 * end (sections 10.6 and 10.8 of RFC 2328).
 */
module DdExchange {
  import opened Basics
  import opened Lsa
  import opened Lsdb
  import opened NeighborSpec

  /**
   * The router with the lower id ends as slave. Each side has its own id, options and database;
   * the lists are the summaries of the two databases.
   */
  datatype Config = Config(slave: DdEnv, master: DdEnv, slaveList: seq<LsaHeader>, masterList: seq<LsaHeader>)

  ghost predicate ProperConfig(c: Config) {
    && c.slave.routerId < c.master.routerId
    && c.slaveList == DatabaseSummary(c.slave)
    && c.masterList == DatabaseSummary(c.master)
    && GoodTypes(c.slaveList)
    && GoodTypes(c.masterList)
  }

  /** Each side's structure for the other, and the packets in flight. */
  datatype Sys = Sys(slave: Nbr, master: Nbr, toSlave: seq<DdPacket>, toMaster: seq<DdPacket>)

  datatype Action =
    | SlaveOpens | MasterOpens
    | DeliverToSlave | DeliverToMaster
    | LoseToSlave(at: nat) | LoseToMaster(at: nat)
    | RepeatToSlave(at: nat) | RepeatToMaster(at: nat)

  /** A structure that has just entered ExStart for a neighbour with the given id. */
  predicate JustStarted(n: Nbr, id: uint32) {
    n.id == id && n == StartNegotiation(n) && n.trace == NO_TRACE && n.requests == []
  }

  predicate Initial(c: Config, s: Sys) {
    && JustStarted(s.slave, c.master.routerId)
    && JustStarted(s.master, c.slave.routerId)
    && s.toSlave == [] && s.toMaster == []
  }

  /** Packets sent between two snapshots of a structure. */
  function Emitted(before: Nbr, after: Nbr): seq<DdPacket> {
    if |before.trace.sent| <= |after.trace.sent| then after.trace.sent[|before.trace.sent|..] else []
  }

  function Drop<T>(s: seq<T>, i: nat): seq<T> {
    if i < |s| then s[..i] + s[i + 1..] else s
  }

  function Double<T>(s: seq<T>, i: nat): seq<T> {
    if i < |s| then s[..i + 1] + s[i..] else s
  }

  function Step(c: Config, s: Sys, a: Action): Sys {
    match a
    case SlaveOpens =>
      if s.slave.state == ExStart then s.(toMaster := s.toMaster + [EmptyDd(s.slave)]) else s
    case MasterOpens =>
      if s.master.state == ExStart then s.(toSlave := s.toSlave + [EmptyDd(s.master)]) else s
    case DeliverToSlave =>
      if s.toSlave == [] then s
      else
        var n := RecvDd(s.slave, c.slave, s.toSlave[0]);
        s.(slave := n, toSlave := s.toSlave[1..], toMaster := s.toMaster + Emitted(s.slave, n))
    case DeliverToMaster =>
      if s.toMaster == [] then s
      else
        var n := RecvDd(s.master, c.master, s.toMaster[0]);
        s.(master := n, toMaster := s.toMaster[1..], toSlave := s.toSlave + Emitted(s.master, n))
    case LoseToSlave(i) => s.(toSlave := Drop(s.toSlave, i))
    case LoseToMaster(i) => s.(toMaster := Drop(s.toMaster, i))
    case RepeatToSlave(i) => s.(toSlave := Double(s.toSlave, i))
    case RepeatToMaster(i) => s.(toMaster := Double(s.toMaster, i))
  }

  function Run(c: Config, s: Sys, actions: seq<Action>): Sys {
    if actions == [] then s else Step(c, Run(c, s, actions[..|actions| - 1]), actions[|actions| - 1])
  }

  // ---------------------------------------------------------------------------
  // The packets of the exchange
  // ---------------------------------------------------------------------------

  /** The part of a list that `k` packets cover, and the part they leave. */
  function Covered(list: seq<LsaHeader>, k: nat): seq<LsaHeader> {
    list[..Min(50 * k, |list|)]
  }

  function Rest(list: seq<LsaHeader>, k: nat): seq<LsaHeader> {
    list[Min(50 * k, |list|)..]
  }

  lemma RestStep(list: seq<LsaHeader>, k: nat)
    ensures var w := Min(|Rest(list, k)|, 50);
            && Rest(list, k)[w..] == Rest(list, k + 1)
            && OnWire(Covered(list, k)) + OnWire(Rest(list, k)[..w]) == OnWire(Covered(list, k + 1))
  {
    var w := Min(|Rest(list, k)|, 50);
    assert Covered(list, k) + Rest(list, k)[..w] == Covered(list, k + 1);
    OnWireConcat(Covered(list, k), Rest(list, k)[..w]);
  }

  lemma RestSize(list: seq<LsaHeader>, k: nat)
    ensures Rest(list, k) == [] <==> |list| <= 50 * k
    ensures |Rest(list, k)| > 50 <==> |list| > 50 * (k + 1)
    ensures k == 0 ==> Rest(list, k) == list && Covered(list, k) == [] && OnWire(Covered(list, k)) == []
  {
  }

  /** The packet that opens the exchange; both routers send the same one. */
  const OPENING: DdPacket := DdPacket(2, true, true, true, 0, [])

  /** The data packet of the master that carries the k-th part of its list. */
  function MasterData(c: Config, k: nat): DdPacket {
    NextPacket(c.master.options, false, SeqNum(k + 1), Rest(c.masterList, k))
  }

  /** All packets of the master by sequence number; the 0-th opens the exchange. */
  function MasterPacket(c: Config, k: nat): DdPacket {
    if k == 0 then OPENING else MasterData(c, k - 1)
  }

  function SlavePacket(c: Config, k: nat): DdPacket {
    NextPacket(c.slave.options, true, SeqNum(k), Rest(c.slaveList, k))
  }

  /** The k-th sequence number, counting from 0 with 32-bit wrap-around. */
  function SeqNum(k: nat): uint32 {
    if k == 0 then 0 else Next32(SeqNum(k - 1))
  }

  lemma {:induction false} SeqNumWraps(k: nat)
    ensures SeqNum(k) == Wrap32(k)
  {
    if k > 0 {
      SeqNumWraps(k - 1);
      WrapAdd(k - 1, 1);
    }
  }

  lemma WindowTypes(c: DdEnv, toMaster: bool, seqNum: uint32, list: seq<LsaHeader>, k: nat)
    requires GoodTypes(list)
    ensures GoodTypes(NextPacket(c.options, toMaster, seqNum, Rest(list, k)).headers)
  {
    OnWireTypes(Rest(list, k)[..Min(|Rest(list, k)|, 50)]);
  }

  lemma PacketTypes(c: Config, k: nat)
    requires ProperConfig(c)
    ensures GoodTypes(MasterData(c, k).headers)
    ensures GoodTypes(SlavePacket(c, k).headers)
  {
    WindowTypes(c.slave, true, SeqNum(k), c.slaveList, k);
    WindowTypes(c.master, false, SeqNum(k + 1), c.masterList, k);
  }

  // ---------------------------------------------------------------------------
  // The state of each side as a function of the number of packets matched
  // ---------------------------------------------------------------------------

  /** The slave is finished once `n` data packets of the master cover both lists. */
  predicate SlaveDone(c: Config, n: nat) {
    n >= 1 && |c.slaveList| <= 50 * n && |c.masterList| <= 50 * n
  }

  /** The master is finished once packet `k` of the slave ends its list and acknowledges all of ours. */
  predicate MasterDone(c: Config, k: nat) {
    |c.slaveList| <= 50 * (k + 1) && |c.masterList| <= 50 * k
  }

  /** The exit test of each side, on the packets of the exchange. */
  lemma DoneTests(c: Config, k: nat)
    ensures !SlavePacket(c, k).m && Rest(c.masterList, k) == [] <==> MasterDone(c, k)
    ensures !MasterData(c, k).m && Rest(c.slaveList, k + 1) == [] <==> SlaveDone(c, k + 1)
  {
    RestSize(c.slaveList, k);
    RestSize(c.masterList, k);
    RestSize(c.slaveList, k + 1);
  }

  predicate SlaveFresh(c: Config, x: Nbr) {
    JustStarted(x, c.master.routerId)
  }

  predicate MasterFresh(c: Config, x: Nbr) {
    && x.id == c.slave.routerId && x.state == ExStart && x.ddSeqNum == 0 && x.lastSend == None
    && x.trace == NO_TRACE && x.requests == []
    && (x.lastRecv == NO_DD_ID || x.lastRecv == IdOf(OPENING))
  }

  /** The slave after the opening packet and `n` data packets of the master. */
  ghost predicate SlaveAt(c: Config, x: Nbr, n: nat) {
    && x.id == c.master.routerId
    && x.state == (if SlaveDone(c, n) then Full else Exchange)
    && x.isMaster
    && x.ddSeqNum == SeqNum(n)
    && x.summary == Rest(c.slaveList, n)
    && x.lastSend == Some(SlavePacket(c, n))
    && (x.lastRecv == IdOf(MasterPacket(c, n)) || x.state == Full)
    && x.requests == WantedOf(c.slave, OnWire(Covered(c.masterList, n)))
    && x.trace.processed == OnWire(Covered(c.masterList, n))
    && x.trace.matched == n + 1 && x.trace.mismatches == 0 && !x.trace.popFault
  }

  /** The master after packets 0 to `k` of the slave. */
  ghost predicate MasterAt(c: Config, x: Nbr, k: nat) {
    && x.id == c.slave.routerId
    && x.state == (if MasterDone(c, k) then Full else Exchange)
    && !x.isMaster
    && x.ddSeqNum == SeqNum(k + 1)
    && x.summary == Rest(c.masterList, k)
    && x.lastSend == Some(MasterData(c, k))
    && (x.lastRecv == IdOf(SlavePacket(c, k)) || x.state == Full)
    && x.requests == WantedOf(c.master, OnWire(Covered(c.slaveList, k + 1)))
    && x.trace.processed == OnWire(Covered(c.slaveList, k + 1))
    && |x.trace.sent| == k + 1
    && x.trace.matched == k + 1 && x.trace.mismatches == 0 && !x.trace.popFault
  }

  /** The number of matched packets determines the state of a side. */
  ghost predicate SlaveKnown(c: Config, x: Nbr) {
    if x.trace.matched == 0 then SlaveFresh(c, x) else SlaveAt(c, x, x.trace.matched - 1)
  }

  ghost predicate MasterKnown(c: Config, x: Nbr) {
    if x.trace.matched == 0 then MasterFresh(c, x) else MasterAt(c, x, x.trace.matched - 1)
  }

  lemma SlaveKnownAt(c: Config, x: Nbr, k: nat)
    requires SlaveAt(c, x, k)
    ensures SlaveKnown(c, x)
  {
  }

  lemma MasterKnownAt(c: Config, x: Nbr, k: nat)
    requires MasterAt(c, x, k)
    ensures MasterKnown(c, x)
  {
  }

  /** The first step of each side and a later one, away from the packet dispatch. */
  lemma SlaveFirstStep(c: Config, e: Nbr, r: Nbr)
    requires Answered(e, c.slave, OPENING, r) && r.lastRecv == IdOf(OPENING)
    requires e.id == c.master.routerId && e.isMaster && e.requests == []
    requires e.trace.matched == 0 && e.trace.mismatches == 0 && !e.trace.popFault
    requires e.summary == c.slaveList && SentCount(e) == 0 && e.trace.processed == []
    ensures SlaveAt(c, r, 0)
    ensures r.trace.sent == e.trace.sent + [SlavePacket(c, 0)]
  {
    RestSize(c.slaveList, 0);
    RestSize(c.masterList, 0);
  }

  lemma SlaveStep(c: Config, e: Nbr, k: nat, r: Nbr)
    requires SlaveAt(c, e, k)
    requires Answered(e, c.slave, MasterData(c, k), r) && r.lastRecv == IdOf(MasterData(c, k))
    ensures SlaveAt(c, r, k + 1)
    ensures r.trace.sent == e.trace.sent + [SlavePacket(c, k + 1)]
  {
    hide Rest, Covered, OnWire, WantedOf;
    assert r.summary == Rest(c.slaveList, k + 1) by { RestStep(c.slaveList, k); }
    assert r.trace.processed == OnWire(Covered(c.masterList, k + 1)) by { RestStep(c.masterList, k); }
    assert r.requests == WantedOf(c.slave, r.trace.processed) by {
      WantedConcat(c.slave, e.trace.processed, MasterData(c, k).headers);
    }
    DoneTests(c, k);
  }

  lemma MasterFirstStep(c: Config, e: Nbr, r: Nbr)
    requires Answered(e, c.master, SlavePacket(c, 0), r) && r.lastRecv == IdOf(SlavePacket(c, 0))
    requires e.id == c.slave.routerId && !e.isMaster && e.requests == [] && e.ddSeqNum == 0
    requires e.trace.matched == 0 && e.trace.mismatches == 0 && !e.trace.popFault
    requires e.summary == c.masterList && SentCount(e) == 0 && e.trace.processed == [] && e.trace.sent == []
    ensures MasterAt(c, r, 0)
    ensures r.trace.sent == e.trace.sent + [MasterData(c, 0)]
  {
    hide Rest, Covered, OnWire;
    DoneTests(c, 0);
    RestSize(c.slaveList, 0);
    RestSize(c.masterList, 0);
    RestStep(c.slaveList, 0);
    assert r.summary == Rest(c.masterList, 0);
    assert r.trace.processed == OnWire(Covered(c.slaveList, 1));
    assert r.trace.processed == SlavePacket(c, 0).headers;
    assert r.requests == WantedOf(c.master, r.trace.processed);
  }

  lemma MasterStep(c: Config, e: Nbr, k: nat, j: nat, r: Nbr)
    requires MasterAt(c, e, k) && j == k + 1
    requires Answered(e, c.master, SlavePacket(c, j), r) && r.lastRecv == IdOf(SlavePacket(c, j))
    ensures MasterAt(c, r, j)
    ensures r.trace.sent == e.trace.sent + [MasterData(c, j)]
  {
    hide Rest, Covered, OnWire, WantedOf;
    assert r.summary == Rest(c.masterList, j) by { RestStep(c.masterList, k); }
    assert r.trace.processed == OnWire(Covered(c.slaveList, j + 1)) by { RestStep(c.slaveList, j); }
    assert r.requests == WantedOf(c.master, r.trace.processed) by {
      WantedConcat(c.master, e.trace.processed, SlavePacket(c, j).headers);
    }
    DoneTests(c, j);
  }

  /** The next packet of the other side is in sequence and not a repetition. */
  lemma SlaveReady(c: Config, x: Nbr, k: nat)
    requires SlaveAt(c, x, k) && x.state == Exchange
    ensures SentCount(x) <= |x.summary|
    ensures IdOf(MasterData(c, k)) != x.lastRecv && InSequence(x, MasterData(c, k))
  {
  }

  lemma MasterReady(c: Config, x: Nbr, k: nat)
    requires MasterAt(c, x, k) && x.state == Exchange
    ensures SentCount(x) <= |x.summary|
    ensures IdOf(SlavePacket(c, k + 1)) != x.lastRecv && InSequence(x, SlavePacket(c, k + 1))
  {
  }

  lemma SlaveStarts(c: Config, x: Nbr)
    requires ProperConfig(c) && SlaveFresh(c, x)
    ensures SlaveAt(c, RecvDd(x, c.slave, OPENING), 0)
    ensures Emitted(x, RecvDd(x, c.slave, OPENING)) == [SlavePacket(c, 0)]
  {
    assert Matched(x, c.slave, OPENING);
    NegotiationAnswers(x, c.slave, OPENING);
    EnteringFresh(x, c.slave, OPENING);
    SlaveFirstStep(c, Entering(AtDispatch(x, c.slave, OPENING), c.slave, OPENING), RecvDd(x, c.slave, OPENING));
  }

  lemma SlaveAdvances(c: Config, x: Nbr, k: nat)
    requires ProperConfig(c) && SlaveAt(c, x, k) && x.state == Exchange
    ensures SlaveAt(c, RecvDd(x, c.slave, MasterData(c, k)), k + 1)
    ensures Emitted(x, RecvDd(x, c.slave, MasterData(c, k))) == [SlavePacket(c, k + 1)]
  {
    var p := MasterData(c, k);
    PacketTypes(c, k);
    SlaveReady(c, x, k);
    ExchangeAnswers(x, c.slave, p);
    SlaveStep(c, x, k, RecvDd(x, c.slave, p));
  }

  lemma MasterStarts(c: Config, x: Nbr)
    requires ProperConfig(c) && MasterFresh(c, x)
    ensures MasterAt(c, RecvDd(x, c.master, SlavePacket(c, 0)), 0)
    ensures Emitted(x, RecvDd(x, c.master, SlavePacket(c, 0))) == [MasterData(c, 0)]
  {
    var p := SlavePacket(c, 0);
    assert Matched(x, c.master, p);
    PacketTypes(c, 0);
    NegotiationAnswers(x, c.master, p);
    EnteringFresh(x, c.master, p);
    MasterFirstStep(c, Entering(AtDispatch(x, c.master, p), c.master, p), RecvDd(x, c.master, p));
  }

  lemma MasterAdvances(c: Config, x: Nbr, k: nat)
    requires ProperConfig(c) && MasterAt(c, x, k) && x.state == Exchange
    ensures MasterAt(c, RecvDd(x, c.master, SlavePacket(c, k + 1)), k + 1)
    ensures Emitted(x, RecvDd(x, c.master, SlavePacket(c, k + 1))) == [MasterData(c, k + 1)]
  {
    var p := SlavePacket(c, k + 1);
    PacketTypes(c, k + 1);
    MasterReady(c, x, k);
    ExchangeAnswers(x, c.master, p);
    MasterStep(c, x, k, k + 1, RecvDd(x, c.master, p));
  }

  /** A repetition of the last packet is answered by a repetition; in Full nothing else happens. */
  lemma SlaveRepeats(c: Config, x: Nbr, k: nat, p: DdPacket)
    requires SlaveAt(c, x, k)
    requires p == MasterPacket(c, k) || x.state == Full
    ensures SlaveAt(c, RecvDd(x, c.slave, p), k)
    ensures Emitted(x, RecvDd(x, c.slave, p)) == [] || Emitted(x, RecvDd(x, c.slave, p)) == [SlavePacket(c, k)]
  {
  }

  /** The master ignores repetitions, and in Full everything. */
  lemma MasterRepeats(c: Config, x: Nbr, k: nat, p: DdPacket)
    requires MasterAt(c, x, k)
    requires p == SlavePacket(c, k) || x.state == Full
    ensures MasterAt(c, RecvDd(x, c.master, p), k)
    ensures Emitted(x, RecvDd(x, c.master, p)) == []
  {
  }

  /** Before the first data packet the master ignores the other side's opening packet. */
  lemma MasterIgnoresOpening(c: Config, x: Nbr)
    requires ProperConfig(c) && MasterFresh(c, x)
    ensures MasterFresh(c, RecvDd(x, c.master, OPENING))
    ensures Emitted(x, RecvDd(x, c.master, OPENING)) == []
  {
  }

  // ---------------------------------------------------------------------------
  // The invariant of the two routers and their channels
  // ---------------------------------------------------------------------------

  /** The i-th message of the slave: its opening packet, then its data packets. */
  function SlaveMessage(c: Config, i: nat): DdPacket {
    if i == 0 then OPENING else SlavePacket(c, i - 1)
  }

  /** Some copies of `a`, then some copies of `b`. */
  ghost predicate Ordered(ch: seq<DdPacket>, a: DdPacket, b: DdPacket) {
    && (forall i :: 0 <= i < |ch| ==> ch[i] == a || ch[i] == b)
    && (forall i, j :: 0 <= i < j < |ch| && ch[i] == b ==> ch[j] == b)
  }

  lemma OrderedTail(ch: seq<DdPacket>, a: DdPacket, b: DdPacket)
    requires Ordered(ch, a, b) && ch != []
    ensures Ordered(ch[1..], a, b)
    ensures ch[0] == b ==> Ordered(ch[1..], b, b)
  {
  }

  lemma OrderedAppend(ch: seq<DdPacket>, a: DdPacket, b: DdPacket, e: seq<DdPacket>)
    requires Ordered(ch, a, b) && (e == [] || e == [b])
    ensures Ordered(ch + e, a, b)
  {
  }

  lemma OrderedDrop(ch: seq<DdPacket>, a: DdPacket, b: DdPacket, i: nat)
    requires Ordered(ch, a, b)
    ensures Ordered(Drop(ch, i), a, b)
    ensures Ordered(Double(ch, i), a, b)
  {
    hide Ordered;
    if i < |ch| {
      OrderedAt(ch, a, b, Drop(ch, i), seq(|ch| - 1, x => if x < i then x else x + 1));
      OrderedAt(ch, a, b, Double(ch, i), seq(|ch| + 1, x => if x <= i then x else x - 1));
    }
  }

  /** Reading a channel at positions that never go back keeps the order. */
  lemma OrderedAt(ch: seq<DdPacket>, a: DdPacket, b: DdPacket, r: seq<DdPacket>, at: seq<int>)
    requires Ordered(ch, a, b) && |at| == |r|
    requires forall x :: 0 <= x < |at| ==> 0 <= at[x] < |ch| && r[x] == ch[at[x]]
    requires forall x, y :: 0 <= x < y < |at| ==> at[x] <= at[y]
    ensures Ordered(r, a, b)
  {
    forall x, y | 0 <= x < y < |r| && r[x] == b
      ensures r[y] == b
    {
      assert at[x] < at[y] || at[x] == at[y];
    }
  }

  /** A channel with one kind of message may start a second kind. */
  lemma OrderedExtend(ch: seq<DdPacket>, a: DdPacket, b: DdPacket)
    requires Ordered(ch, a, a)
    ensures Ordered(ch + [b], a, b)
  {
  }

  function Pred(k: nat): nat {
    if k == 0 then 0 else k - 1
  }

  /** The slave has matched as many packets as the master: the master has answered. */
  ghost predicate MasterAnswered(c: Config, s: Sys, m: nat) {
    && s.slave.trace.matched == m && s.master.trace.matched == m
    && Ordered(s.toMaster, SlaveMessage(c, m), SlaveMessage(c, m))
    && Ordered(s.toSlave, MasterPacket(c, Pred(m)), MasterPacket(c, m))
  }

  /** The slave has matched one packet more: it has answered. */
  ghost predicate SlaveAnswered(c: Config, s: Sys, m: nat) {
    && s.slave.trace.matched == m + 1 && s.master.trace.matched == m
    && Ordered(s.toMaster, SlaveMessage(c, m), SlaveMessage(c, m + 1))
    && Ordered(s.toSlave, MasterPacket(c, m), MasterPacket(c, m))
  }

  ghost predicate Inv(c: Config, s: Sys) {
    && SlaveKnown(c, s.slave)
    && MasterKnown(c, s.master)
    && (MasterAnswered(c, s, s.master.trace.matched) || SlaveAnswered(c, s, s.master.trace.matched))
  }

  /** What a message can do to a side: nothing but a repetition, or one step forward. */
  ghost predicate Moves(before: Nbr, after: Nbr, e: seq<DdPacket>, last: DdPacket, next: DdPacket, forward: bool) {
    || (after.trace.matched == before.trace.matched && (e == [] || e == [last]))
    || (forward && after.trace.matched == before.trace.matched + 1 && e == [next])
  }

  lemma SlaveReceives(c: Config, x: Nbr, m: nat, p: DdPacket, r: Nbr, e: seq<DdPacket>)
    requires ProperConfig(c) && SlaveKnown(c, x)
    requires x.trace.matched == m || x.trace.matched == m + 1
    requires p == MasterPacket(c, m) || (x.trace.matched == m && p == MasterPacket(c, Pred(m)))
    requires r == RecvDd(x, c.slave, p) && e == Emitted(x, r)
    ensures SlaveKnown(c, r)
    ensures Moves(x, r, e, SlaveMessage(c, x.trace.matched), SlaveMessage(c, x.trace.matched + 1),
                  x.trace.matched == m && p == MasterPacket(c, m))
    ensures x.trace.matched == m && p == MasterPacket(c, m) && x.state != Full ==> r.trace.matched == m + 1
    ensures r.trace.matched > x.trace.matched ==> x.state != Full
  {
    hide RecvDd, SlavePacket, MasterData, Rest, Covered, OnWire, WantedOf, SeqNum;
    var n := x.trace.matched;
    if n == 0 {
      SlaveStarts(c, x);
      SlaveKnownAt(c, r, 0);
    } else if n == m && p == MasterPacket(c, m) && x.state == Exchange {
      SlaveAdvances(c, x, n - 1);
      SlaveKnownAt(c, r, n);
    } else {
      SlaveRepeats(c, x, n - 1, p);
      SlaveKnownAt(c, r, n - 1);
    }
  }

  lemma MasterReceives(c: Config, x: Nbr, n: nat, p: DdPacket, r: Nbr, e: seq<DdPacket>)
    requires ProperConfig(c) && MasterKnown(c, x)
    requires n == x.trace.matched || n == x.trace.matched + 1
    requires p == SlaveMessage(c, x.trace.matched) || p == SlaveMessage(c, n)
    requires r == RecvDd(x, c.master, p) && e == Emitted(x, r)
    ensures MasterKnown(c, r)
    ensures Moves(x, r, e, MasterPacket(c, x.trace.matched), MasterPacket(c, x.trace.matched + 1),
                  n == x.trace.matched + 1 && p == SlaveMessage(c, n))
    ensures n == x.trace.matched + 1 && p == SlaveMessage(c, n) && x.state != Full ==> r.trace.matched == n
    ensures r.trace.matched == x.trace.matched ==> e == []
    ensures r.trace.matched > x.trace.matched ==> x.state != Full
  {
    hide RecvDd, MasterData, Rest, Covered, OnWire, WantedOf, SeqNum;
    var m := x.trace.matched;
    if p == OPENING && m == 0 {
      MasterIgnoresOpening(c, x);
    } else if m == 0 {
      MasterStarts(c, x);
      MasterKnownAt(c, r, 0);
    } else if n == m + 1 && p == SlaveMessage(c, n) && x.state == Exchange {
      MasterAdvances(c, x, m - 1);
      MasterKnownAt(c, r, m);
    } else {
      MasterRepeats(c, x, m - 1, p);
      MasterKnownAt(c, r, m - 1);
    }
  }

  lemma DeliverToSlaveKeeps(c: Config, s: Sys)
    requires ProperConfig(c) && Inv(c, s) && s.toSlave != []
    ensures Inv(c, Step(c, s, DeliverToSlave))
  {
    hide RecvDd, SlaveKnown, MasterKnown, SlaveMessage, MasterPacket;
    var p, m, x := s.toSlave[0], s.master.trace.matched, s.slave;
    var r := RecvDd(x, c.slave, p);
    var e := Emitted(x, r);
    SlaveReceives(c, x, m, p, r, e);
    SlaveChannels(c, s, m, r, e);
  }

  lemma SlaveChannels(c: Config, s: Sys, m: nat, r: Nbr, e: seq<DdPacket>)
    requires m == s.master.trace.matched && s.toSlave != []
    requires MasterAnswered(c, s, m) || SlaveAnswered(c, s, m)
    requires Moves(s.slave, r, e, SlaveMessage(c, s.slave.trace.matched), SlaveMessage(c, s.slave.trace.matched + 1),
                   s.slave.trace.matched == m && s.toSlave[0] == MasterPacket(c, m))
    ensures var t := s.(slave := r, toSlave := s.toSlave[1..], toMaster := s.toMaster + e);
            MasterAnswered(c, t, m) || SlaveAnswered(c, t, m)
  {
    var n := s.slave.trace.matched;
    if n == m {
      OrderedTail(s.toSlave, MasterPacket(c, Pred(m)), MasterPacket(c, m));
      if r.trace.matched == n + 1 {
        OrderedExtend(s.toMaster, SlaveMessage(c, m), SlaveMessage(c, m + 1));
      } else {
        OrderedAppend(s.toMaster, SlaveMessage(c, m), SlaveMessage(c, m), e);
      }
    } else {
      OrderedTail(s.toSlave, MasterPacket(c, m), MasterPacket(c, m));
      OrderedAppend(s.toMaster, SlaveMessage(c, m), SlaveMessage(c, m + 1), e);
    }
  }

  lemma DeliverToMasterKeeps(c: Config, s: Sys)
    requires ProperConfig(c) && Inv(c, s) && s.toMaster != []
    ensures Inv(c, Step(c, s, DeliverToMaster))
  {
    hide RecvDd, SlaveKnown, MasterKnown, SlaveMessage, MasterPacket;
    var p, n, x := s.toMaster[0], s.slave.trace.matched, s.master;
    var r := RecvDd(x, c.master, p);
    var e := Emitted(x, r);
    MasterReceives(c, x, n, p, r, e);
    MasterChannels(c, s, x.trace.matched, r, e);
  }

  lemma MasterChannels(c: Config, s: Sys, m: nat, r: Nbr, e: seq<DdPacket>)
    requires m == s.master.trace.matched && s.toMaster != []
    requires MasterAnswered(c, s, m) || SlaveAnswered(c, s, m)
    requires Moves(s.master, r, e, MasterPacket(c, m), MasterPacket(c, m + 1),
                   s.slave.trace.matched == m + 1 && s.toMaster[0] == SlaveMessage(c, m + 1))
    ensures var t := s.(master := r, toMaster := s.toMaster[1..], toSlave := s.toSlave + e);
            MasterAnswered(c, t, r.trace.matched) || SlaveAnswered(c, t, r.trace.matched)
  {
    if s.slave.trace.matched == m + 1 {
      OrderedTail(s.toMaster, SlaveMessage(c, m), SlaveMessage(c, m + 1));
      if r.trace.matched == m + 1 {
        OrderedExtend(s.toSlave, MasterPacket(c, m), MasterPacket(c, m + 1));
      } else {
        OrderedAppend(s.toSlave, MasterPacket(c, m), MasterPacket(c, m), e);
      }
    } else {
      OrderedTail(s.toMaster, SlaveMessage(c, m), SlaveMessage(c, m));
      OrderedAppend(s.toSlave, MasterPacket(c, Pred(m)), MasterPacket(c, m), e);
    }
  }

  lemma OpeningPackets(c: Config, s: Sys)
    requires Inv(c, s)
    ensures s.slave.state == ExStart ==> s.slave.trace.matched == 0 && EmptyDd(s.slave) == SlaveMessage(c, 0)
    ensures s.master.state == ExStart ==> s.master.trace.matched == 0 && EmptyDd(s.master) == MasterPacket(c, 0)
  {
    hide Ordered, WantedOf, OnWire, Covered, Rest, NextPacket, SeqNum, MasterAnswered, SlaveAnswered, ByteSwap32;
    ZeroStays();
  }

  lemma ZeroStays()
    ensures ByteSwap32(0) == 0
  {
  }

  lemma StepKeepsInv(c: Config, s: Sys, a: Action)
    requires ProperConfig(c) && Inv(c, s)
    ensures Inv(c, Step(c, s, a))
  {
    hide RecvDd, SlaveKnown, MasterKnown, SlaveMessage, MasterPacket;
    OpeningPackets(c, s);
    match a {
      case DeliverToSlave => if s.toSlave != [] { DeliverToSlaveKeeps(c, s); }
      case DeliverToMaster => if s.toMaster != [] { DeliverToMasterKeeps(c, s); }
      case _ => ChannelsKeep(c, s, a);
    }
  }

  /** The steps that only touch a channel. */
  lemma ChannelsKeep(c: Config, s: Sys, a: Action)
    requires !a.DeliverToSlave? && !a.DeliverToMaster?
    requires s.slave.state == ExStart ==> s.slave.trace.matched == 0 && EmptyDd(s.slave) == SlaveMessage(c, 0)
    requires s.master.state == ExStart ==> s.master.trace.matched == 0 && EmptyDd(s.master) == MasterPacket(c, 0)
    requires MasterAnswered(c, s, s.master.trace.matched) || SlaveAnswered(c, s, s.master.trace.matched)
    ensures var t := Step(c, s, a);
            && t.slave == s.slave && t.master == s.master
            && (MasterAnswered(c, t, s.master.trace.matched) || SlaveAnswered(c, t, s.master.trace.matched))
  {
    var m, n := s.master.trace.matched, s.slave.trace.matched;
    var older := MasterPacket(c, if n == m then Pred(m) else m);
    match a {
      case SlaveOpens => OrderedAppend(s.toMaster, SlaveMessage(c, m), SlaveMessage(c, n), [SlaveMessage(c, n)]);
      case MasterOpens => OrderedAppend(s.toSlave, older, MasterPacket(c, m), [MasterPacket(c, m)]);
      case LoseToSlave(i) => OrderedDrop(s.toSlave, older, MasterPacket(c, m), i);
      case LoseToMaster(i) => OrderedDrop(s.toMaster, SlaveMessage(c, m), SlaveMessage(c, n), i);
      case RepeatToSlave(i) => OrderedDrop(s.toSlave, older, MasterPacket(c, m), i);
      case RepeatToMaster(i) => OrderedDrop(s.toMaster, SlaveMessage(c, m), SlaveMessage(c, n), i);
    }
  }

  lemma {:induction false} RunKeepsInv(c: Config, s: Sys, actions: seq<Action>)
    requires ProperConfig(c) && Initial(c, s)
    ensures Inv(c, Run(c, s, actions))
  {
    if actions != [] {
      RunKeepsInv(c, s, actions[..|actions| - 1]);
      StepKeepsInv(c, Run(c, s, actions[..|actions| - 1]), actions[|actions| - 1]);
    }
  }

  // ---------------------------------------------------------------------------
  // Safety
  // ---------------------------------------------------------------------------

  lemma SlaveFacts(c: Config, x: Nbr)
    requires SlaveKnown(c, x)
    ensures x.trace.mismatches == 0 && !x.trace.popFault
    ensures x.state == ExStart <==> x.trace.matched == 0
    ensures x.state == Full <==> x.trace.matched >= 1 && SlaveDone(c, x.trace.matched - 1)
    ensures x.trace.matched >= 1 ==> x.ddSeqNum == SeqNum(x.trace.matched - 1)
    ensures x.state == Full ==> x.trace.processed == OnWire(c.masterList)
    ensures x.trace.matched >= 1 ==> x.requests == WantedOf(c.slave, x.trace.processed)
  {
    var n := x.trace.matched;
    assert n >= 1 && SlaveDone(c, n - 1) ==> Covered(c.masterList, n - 1) == c.masterList;
  }

  lemma MasterFacts(c: Config, x: Nbr)
    requires MasterKnown(c, x)
    ensures x.trace.mismatches == 0 && !x.trace.popFault
    ensures x.state == ExStart <==> x.trace.matched == 0
    ensures x.state == Full <==> x.trace.matched >= 1 && MasterDone(c, x.trace.matched - 1)
    ensures x.ddSeqNum == SeqNum(x.trace.matched)
    ensures x.state == Full ==> x.trace.processed == OnWire(c.slaveList)
    ensures |x.trace.sent| == x.trace.matched
    ensures x.trace.matched >= 1 ==> x.requests == WantedOf(c.master, x.trace.processed)
  {
    var m := x.trace.matched;
    assert m >= 1 && MasterDone(c, m - 1) ==> Covered(c.slaveList, m) == c.slaveList;
  }

  /**
   * Safety over every run, with packets lost or repeated in place at will: SeqNumberMismatch is
   * never raised, no empty list is popped, and once both sides have negotiated, the sequence number
   * of the master is the slave's or the next one.
   */
  lemma ExchangeIsSafe(c: Config, s: Sys, actions: seq<Action>)
    requires ProperConfig(c) && Initial(c, s)
    ensures var t := Run(c, s, actions);
            && t.slave.trace.mismatches == 0 && t.master.trace.mismatches == 0
            && !t.slave.trace.popFault && !t.master.trace.popFault
            && (t.slave.state != ExStart && t.master.state != ExStart ==>
                  t.master.ddSeqNum == t.slave.ddSeqNum || t.master.ddSeqNum == Next32(t.slave.ddSeqNum))
  {
    hide Run, Step, SlaveKnown, MasterKnown, SlaveMessage, MasterPacket, Ordered, SlaveDone, MasterDone;
    RunKeepsInv(c, s, actions);
    var t := Run(c, s, actions);
    SlaveFacts(c, t.slave);
    MasterFacts(c, t.master);
  }

  // ---------------------------------------------------------------------------
  // How many packets it takes
  // ---------------------------------------------------------------------------

  /** Packets needed for a list. */
  function PacketsFor(list: seq<LsaHeader>): nat {
    (|list| + 49) / 50
  }

  /** max(1, packets for the slave's list, packets for the master's list). */
  function RoundsNeeded(c: Config): nat {
    var a, b := PacketsFor(c.slaveList), PacketsFor(c.masterList);
    if a <= 1 && b <= 1 then 1 else if a <= b then b else a
  }

  lemma DoneFromRounds(c: Config, k: nat)
    ensures SlaveDone(c, k) <==> k >= RoundsNeeded(c)
    ensures k >= RoundsNeeded(c) ==> MasterDone(c, k)
    ensures MasterDone(c, k) ==> k + 1 >= RoundsNeeded(c)
  {
  }

  /** Neither side matches more packets than needed, and the master is never ahead. */
  ghost predicate Bounded(c: Config, s: Sys) {
    && s.slave.trace.matched <= RoundsNeeded(c) + 1
    && s.master.trace.matched <= s.slave.trace.matched
  }

  lemma StepKeepsBound(c: Config, s: Sys, a: Action)
    requires ProperConfig(c) && Inv(c, s) && Bounded(c, s)
    ensures Bounded(c, Step(c, s, a))
  {
    hide RecvDd, SlaveKnown, MasterKnown, SlaveMessage, MasterPacket, RoundsNeeded, SlaveDone, MasterDone;
    StepKeepsInv(c, s, a);
    SlaveFacts(c, s.slave);
    if s.slave.trace.matched >= 1 { DoneFromRounds(c, s.slave.trace.matched - 1); }
    if a.DeliverToSlave? && s.toSlave != [] {
      var r := RecvDd(s.slave, c.slave, s.toSlave[0]);
      SlaveReceives(c, s.slave, s.master.trace.matched, s.toSlave[0], r, Emitted(s.slave, r));
    }
    if a.DeliverToMaster? && s.toMaster != [] {
      var r := RecvDd(s.master, c.master, s.toMaster[0]);
      MasterReceives(c, s.master, s.slave.trace.matched, s.toMaster[0], r, Emitted(s.master, r));
    }
  }

  lemma {:induction false} RunKeepsBound(c: Config, s: Sys, actions: seq<Action>)
    requires ProperConfig(c) && Initial(c, s)
    ensures Bounded(c, Run(c, s, actions))
  {
    if actions != [] {
      var front := actions[..|actions| - 1];
      RunKeepsInv(c, s, front);
      RunKeepsBound(c, s, front);
      StepKeepsBound(c, Run(c, s, front), actions[|actions| - 1]);
    }
  }

  predicate BothFull(s: Sys) {
    s.slave.state == Full && s.master.state == Full
  }

  /**
   * The master never sends more than max(1, ceil(a/50), ceil(b/50)) data packets before both sides
   * are in Full, and at most one after.
   */
  lemma DataPacketBound(c: Config, s: Sys, actions: seq<Action>)
    requires ProperConfig(c) && Initial(c, s)
    ensures var t := Run(c, s, actions);
            && |t.master.trace.sent| <= RoundsNeeded(c) + 1
            && (!BothFull(t) ==> |t.master.trace.sent| <= RoundsNeeded(c))
            && (t.slave.state == Full <==> t.slave.trace.matched == RoundsNeeded(c) + 1)
  {
    RunKeepsInv(c, s, actions);
    RunKeepsBound(c, s, actions);
    var t := Run(c, s, actions);
    SlaveFacts(c, t.slave);
    MasterFacts(c, t.master);
    if t.slave.trace.matched >= 1 { DoneFromRounds(c, t.slave.trace.matched - 1); }
    if t.master.trace.matched >= 1 { DoneFromRounds(c, t.master.trace.matched - 1); }
  }

  /**
   * At the end of any run that brought both sides to Full, even a lossy one, each has processed
   * exactly the other's list, in order and once (up to the age field). Its whole request list is
   * the list of router LSAs it lacks or holds older: no network LSA is ever requested.
   */
  lemma ExchangeIsComplete(c: Config, s: Sys, actions: seq<Action>)
    requires ProperConfig(c) && Initial(c, s)
    requires BothFull(Run(c, s, actions))
    ensures var t := Run(c, s, actions);
            && t.slave.trace.processed == OnWire(c.masterList)
            && t.master.trace.processed == OnWire(c.slaveList)
            && t.slave.requests == MissingRoutersOf(c.slave, OnWire(c.masterList))
            && t.master.requests == MissingRoutersOf(c.master, OnWire(c.slaveList))
  {
    hide Run, Step, SlaveKnown, MasterKnown, SlaveMessage, MasterPacket, Ordered, SlaveDone, MasterDone;
    RunKeepsInv(c, s, actions);
    var t := Run(c, s, actions);
    SlaveFacts(c, t.slave);
    MasterFacts(c, t.master);
    OnWireWanted(c.slave, c.masterList);
    OnWireWanted(c.master, c.slaveList);
  }

  /** A network header of the peer's list that this side lacks or holds older. */
  predicate HidesNetwork(env: DdEnv, h: LsaHeader) {
    h.lsType == LSA_NETWORK && Supersedes(env.networks, WithoutAge(h))
  }

  /** Everything in the peer's list that this side misses is on its request list. */
  ghost predicate NothingMissed(env: DdEnv, list: seq<LsaHeader>, requests: seq<LsaHeader>) {
    forall h :: h in OnWire(list) && Missing(env, h) ==> h in requests
  }

  lemma MissedIff(env: DdEnv, list: seq<LsaHeader>)
    ensures NothingMissed(env, list, MissingRoutersOf(env, OnWire(list)))
            <==> forall i :: 0 <= i < |list| ==> !HidesNetwork(env, list[i])
  {
    var wire := OnWire(list);
    if forall i :: 0 <= i < |list| ==> !HidesNetwork(env, list[i]) {
      forall h | h in wire && Missing(env, h)
        ensures h in MissingRoutersOf(env, wire)
      {
        var i :| 0 <= i < |wire| && wire[i] == h;
        OnWireAt(list, i);
        assert !HidesNetwork(env, list[i]);
        WantedMember(env, wire, h);
      }
    } else {
      var i :| 0 <= i < |list| && HidesNetwork(env, list[i]);
      OnWireAt(list, i);
      WantedMember(env, wire, wire[i]);
      assert wire[i] in wire && Missing(env, wire[i]);
    }
  }

  /**
   * When both sides are in Full, everything a side misses of the other's list is requested if and
   * only if that list has no network header that is absent from its database or newer than there.
   */
  lemma NothingMissedIff(c: Config, s: Sys, actions: seq<Action>)
    requires ProperConfig(c) && Initial(c, s)
    requires BothFull(Run(c, s, actions))
    ensures var t := Run(c, s, actions);
            && (NothingMissed(c.slave, c.masterList, t.slave.requests)
                <==> forall i :: 0 <= i < |c.masterList| ==> !HidesNetwork(c.slave, c.masterList[i]))
            && (NothingMissed(c.master, c.slaveList, t.master.requests)
                <==> forall i :: 0 <= i < |c.slaveList| ==> !HidesNetwork(c.master, c.slaveList[i]))
  {
    hide Run, Missing, HidesNetwork, NothingMissed;
    ExchangeIsComplete(c, s, actions);
    MissedIff(c.slave, c.masterList);
    MissedIff(c.master, c.slaveList);
  }

  /** One such header is enough: it is described, missing, and not requested. */
  lemma HiddenNetworkIsMissed(c: Config, s: Sys, actions: seq<Action>, i: nat)
    requires ProperConfig(c) && Initial(c, s)
    requires BothFull(Run(c, s, actions))
    requires i < |c.masterList| && HidesNetwork(c.slave, c.masterList[i])
    ensures var h := WithoutAge(c.masterList[i]);
            && h in Run(c, s, actions).slave.trace.processed
            && Missing(c.slave, h) && h !in Run(c, s, actions).slave.requests
  {
    hide Run;
    ExchangeIsComplete(c, s, actions);
    OnWireAt(c.masterList, i);
    WantedMember(c.slave, OnWire(c.masterList), WithoutAge(c.masterList[i]));
    assert OnWire(c.masterList)[i] in OnWire(c.masterList);
  }

  lemma NoMissingRouterIff(env: DdEnv, list: seq<LsaHeader>)
    ensures MissingRoutersOf(env, OnWire(list)) == []
            <==> forall i :: 0 <= i < |list| ==> !MissingRouter(env, WithoutAge(list[i]))
  {
    var wire := OnWire(list);
    forall i | 0 <= i < |list|
      ensures wire[i] == WithoutAge(list[i])
      ensures MissingRouter(env, WithoutAge(list[i])) ==> wire[i] in MissingRoutersOf(env, wire)
    {
      OnWireAt(list, i);
      WantedMember(env, wire, wire[i]);
    }
    if MissingRoutersOf(env, wire) != [] {
      WantedMember(env, wire, MissingRoutersOf(env, wire)[0]);
    }
  }

  /**
   * The standard enters Full only with an empty request list. The code enters it regardless, and
   * the list is then empty if and only if the peer's list has no router LSA that is absent or newer.
   */
  lemma FullWithNothingRequestedIff(c: Config, s: Sys, actions: seq<Action>)
    requires ProperConfig(c) && Initial(c, s)
    requires BothFull(Run(c, s, actions))
    ensures var t := Run(c, s, actions);
            && (t.slave.requests == []
                <==> forall i :: 0 <= i < |c.masterList| ==> !MissingRouter(c.slave, WithoutAge(c.masterList[i])))
            && (t.master.requests == []
                <==> forall i :: 0 <= i < |c.slaveList| ==> !MissingRouter(c.master, WithoutAge(c.slaveList[i])))
  {
    hide Run, MissingRouter;
    ExchangeIsComplete(c, s, actions);
    NoMissingRouterIff(c.slave, c.masterList);
    NoMissingRouterIff(c.master, c.slaveList);
  }

  // ---------------------------------------------------------------------------
  // What each side knows of the other's database
  // ---------------------------------------------------------------------------

  /** Every LSA of a database is described by the packets that carry its summary list. */
  ghost predicate Describes(env: DdEnv, hs: seq<LsaHeader>) {
    && (forall l :: l in env.routers ==> WithoutAge(l.header) in hs)
    && (forall l :: l in env.networks ==> WithoutAge(l.header) in hs)
  }

  /** And they describe nothing else. */
  ghost predicate DescribesOnly(env: DdEnv, hs: seq<LsaHeader>) {
    forall h :: h in hs ==> (exists l :: l in env.routers && h == WithoutAge(l.header))
                            || (exists l :: l in env.networks && h == WithoutAge(l.header))
  }

  lemma SummaryDescribes(env: DdEnv)
    ensures Describes(env, OnWire(DatabaseSummary(env)))
    ensures DescribesOnly(env, OnWire(DatabaseSummary(env)))
  {
    hide DatabaseSummary;
    var list := DatabaseSummary(env);
    if |env.routers| + |env.networks| > 0 { SummaryAt(env, 0); }
    forall i: nat | i < |env.routers| + |env.networks|
      ensures i < |list| && OnWire(list)[i] in OnWire(list)
      ensures OnWire(list)[i]
           == WithoutAge(if i < |env.routers| then env.routers[i].header else env.networks[i - |env.routers|].header)
    {
      SummaryAt(env, i);
      OnWireAt(list, i);
    }
    forall l | l in env.networks
      ensures WithoutAge(l.header) in OnWire(list)
    {
      var j :| 0 <= j < |env.networks| && env.networks[j] == l;
      assert OnWire(list)[|env.routers| + j] == WithoutAge(l.header);
    }
    SummaryLength(env);
  }

  /** When both sides are in Full each has been told of every LSA in the other's database, and of nothing else. */
  lemma DatabasesAreDescribed(c: Config, s: Sys, actions: seq<Action>)
    requires ProperConfig(c) && Initial(c, s)
    requires BothFull(Run(c, s, actions))
    ensures var t := Run(c, s, actions);
            && Describes(c.master, t.slave.trace.processed) && DescribesOnly(c.master, t.slave.trace.processed)
            && Describes(c.slave, t.master.trace.processed) && DescribesOnly(c.slave, t.master.trace.processed)
  {
    hide Run, DatabaseSummary;
    ExchangeIsComplete(c, s, actions);
    SummaryDescribes(c.master);
    SummaryDescribes(c.slave);
  }

  /** Every router LSA of the peer is requested exactly when this database lacks it or holds it older. */
  ghost predicate RequestsWhatItLacks(env: DdEnv, peer: DdEnv, requests: seq<LsaHeader>) {
    forall l :: l in peer.routers && l.header.lsType == LSA_ROUTER ==>
      var h := WithoutAge(l.header);
      var stored := Find(env.routers, KeyOf(h));
      h in requests <==> stored.None? || Newer(h, stored.value.header)
  }

  lemma LackingIsRequested(env: DdEnv, peer: DdEnv)
    ensures RequestsWhatItLacks(env, peer, MissingRoutersOf(env, OnWire(DatabaseSummary(peer))))
  {
    hide DatabaseSummary, DescribesOnly;
    SummaryDescribes(peer);
    forall l | l in peer.routers && l.header.lsType == LSA_ROUTER
      ensures WithoutAge(l.header) in MissingRoutersOf(env, OnWire(DatabaseSummary(peer)))
              <==> MissingRouter(env, WithoutAge(l.header))
    {
      WantedMember(env, OnWire(DatabaseSummary(peer)), WithoutAge(l.header));
    }
  }

  lemma DatabasesAreRequested(c: Config, s: Sys, actions: seq<Action>)
    requires ProperConfig(c) && Initial(c, s)
    requires BothFull(Run(c, s, actions))
    ensures var t := Run(c, s, actions);
            && RequestsWhatItLacks(c.slave, c.master, t.slave.requests)
            && RequestsWhatItLacks(c.master, c.slave, t.master.requests)
  {
    hide Run, DatabaseSummary;
    ExchangeIsComplete(c, s, actions);
    LackingIsRequested(c.slave, c.master);
    LackingIsRequested(c.master, c.slave);
  }
}
