/**
 * Liveness of the Database Description exchange: over channels that lose nothing and repeat packets
 * only for a while, every fair run of the two routers ends with both in Full. Channels that repeat
 * for ever can prevent it.
 */
module DdLiveness {
  import opened NeighborSpec
  import opened DdExchange

  /** The steps of a system with reliable channels. */
  predicate Reliable(a: Action) {
    a.SlaveOpens? || a.MasterOpens? || a.DeliverToSlave? || a.DeliverToMaster?
  }

  /** A packet is repeated in place. */
  predicate Repeats(a: Action) {
    a.RepeatToSlave? || a.RepeatToMaster?
  }

  /** An infinite run over channels that lose nothing. */
  ghost predicate IsRun(c: Config, run: nat -> Sys, act: nat -> Action) {
    && Initial(c, run(0))
    && forall i: nat :: (Reliable(act(i)) || Repeats(act(i))) && run(i + 1) == Step(c, run(i), act(i))
  }

  /** From some time on nothing is repeated. */
  ghost predicate QuietFrom(act: nat -> Action, quiet: nat) {
    forall i: nat :: i >= quiet ==> Reliable(act(i))
  }

  predicate Enabled(s: Sys, a: Action) {
    match a
    case SlaveOpens => s.slave.state == ExStart
    case MasterOpens => s.master.state == ExStart
    case DeliverToSlave => s.toSlave != []
    case DeliverToMaster => s.toMaster != []
    case _ => false
  }

  /** Time `j` is good for an action: it is taken there, or it is not possible there. */
  ghost predicate Served(run: nat -> Sys, act: nat -> Action, a: Action, j: nat) {
    act(j) == a || !Enabled(run(j), a)
  }

  /**
   * Weak fairness of the deliveries and of the master's retransmission of its opening packet:
   * none of them stays possible for ever without being taken.
   */
  ghost predicate Fair(run: nat -> Sys, act: nat -> Action) {
    forall a, i: nat :: a == MasterOpens || a == DeliverToSlave || a == DeliverToMaster ==> ServedFrom(run, act, a, i)
  }

  ghost predicate ServedFrom(run: nat -> Sys, act: nat -> Action, a: Action, i: nat) {
    exists j :: j >= i && Served(run, act, a, j)
  }

  // ---------------------------------------------------------------------------
  // The packet that brings the exchange forward
  // ---------------------------------------------------------------------------

  /** Unless both sides are done, the next new packet is in its channel (or still to be opened with). */
  ghost predicate Useful(c: Config, s: Sys) {
    var m, n := s.master.trace.matched, s.slave.trace.matched;
    BothFull(s) || (if n == m then m == 0 || MasterPacket(c, m) in s.toSlave else SlaveMessage(c, m + 1) in s.toMaster)
  }

  ghost predicate Live(c: Config, s: Sys) {
    Inv(c, s) && Bounded(c, s) && Useful(c, s)
  }

  /** The action that makes progress. */
  function Helpful(s: Sys): Action {
    if s.slave.trace.matched != s.master.trace.matched then DeliverToMaster
    else if s.master.trace.matched == 0 && s.toSlave == [] then MasterOpens
    else DeliverToSlave
  }

  function FirstIndex(ch: seq<DdPacket>, p: DdPacket): nat {
    if ch == [] || ch[0] == p then 0 else 1 + FirstIndex(ch[1..], p)
  }

  /** Packets still to be matched. */
  ghost function Outstanding(c: Config, s: Sys): int {
    2 * RoundsNeeded(c) + 2 - s.slave.trace.matched - s.master.trace.matched
  }

  /** Deliveries before the next match. */
  ghost function Distance(c: Config, s: Sys): nat {
    var m := s.master.trace.matched;
    if s.slave.trace.matched != m then FirstIndex(s.toMaster, SlaveMessage(c, m + 1))
    else if m == 0 then (if s.toSlave == [] then 1 else 0)
    else FirstIndex(s.toSlave, MasterPacket(c, m))
  }

  ghost predicate Closer(c: Config, s: Sys, t: Sys) {
    Outstanding(c, t) < Outstanding(c, s) || (Outstanding(c, t) == Outstanding(c, s) && Distance(c, t) < Distance(c, s))
  }

  /** No step leads away; one that does not lead closer is not the helpful one and leaves it in place. */
  ghost predicate Progress(c: Config, s: Sys, a: Action, t: Sys) {
    || Closer(c, s, t)
    || (a != Helpful(s) && Helpful(t) == Helpful(s)
        && Outstanding(c, t) == Outstanding(c, s) && Distance(c, t) == Distance(c, s))
  }

  lemma {:induction false} FirstIndexAppend(ch: seq<DdPacket>, e: seq<DdPacket>, p: DdPacket)
    requires p in ch
    ensures p in ch + e && FirstIndex(ch + e, p) == FirstIndex(ch, p)
  {
    if ch[0] != p {
      assert (ch + e)[1..] == ch[1..] + e;
      FirstIndexAppend(ch[1..], e, p);
    }
  }

  /** The finished side pulls the other one along. */
  lemma OneFullMeansBoth(c: Config, s: Sys)
    requires Inv(c, s)
    ensures s.slave.trace.matched == s.master.trace.matched && s.slave.state == Full ==> BothFull(s)
    ensures s.slave.trace.matched != s.master.trace.matched && s.master.state == Full ==> BothFull(s)
  {
    hide SlaveKnown, MasterKnown, SlaveMessage, MasterPacket, Ordered, SlaveDone, MasterDone, RoundsNeeded;
    SlaveFacts(c, s.slave);
    MasterFacts(c, s.master);
    if s.slave.trace.matched >= 1 { DoneFromRounds(c, s.slave.trace.matched - 1); }
    if s.master.trace.matched >= 1 { DoneFromRounds(c, s.master.trace.matched - 1); }
  }

  lemma HelpfulIsEnabled(c: Config, s: Sys)
    requires Live(c, s) && !BothFull(s)
    ensures Enabled(s, Helpful(s))
  {
    hide SlaveKnown, SlaveMessage, MasterPacket;
    MasterFacts(c, s.master);
  }

  lemma DeliverToSlaveHelps(c: Config, s: Sys)
    requires ProperConfig(c) && Live(c, s) && !BothFull(s) && s.toSlave != []
    ensures var t := Step(c, s, DeliverToSlave); Useful(c, t) && Progress(c, s, DeliverToSlave, t)
  {
    hide RecvDd, SlaveKnown, MasterKnown, SlaveMessage, MasterPacket, RoundsNeeded;
    var x, m := s.slave, s.master.trace.matched;
    var r := RecvDd(x, c.slave, s.toSlave[0]);
    var e := Emitted(x, r);
    SlaveReceives(c, x, m, s.toSlave[0], r, e);
    OneFullMeansBoth(c, s);
    if x.trace.matched == m + 1 {
      FirstIndexAppend(s.toMaster, e, SlaveMessage(c, m + 1));
    } else if r.trace.matched == m && m > 0 {
      assert s.toSlave == [s.toSlave[0]] + s.toSlave[1..];
    }
  }

  lemma DeliverToMasterHelps(c: Config, s: Sys)
    requires ProperConfig(c) && Live(c, s) && !BothFull(s) && s.toMaster != []
    ensures var t := Step(c, s, DeliverToMaster); Useful(c, t) && Progress(c, s, DeliverToMaster, t)
  {
    hide RecvDd, SlaveKnown, MasterKnown, SlaveMessage, MasterPacket, RoundsNeeded;
    var x, n := s.master, s.slave.trace.matched;
    var m := x.trace.matched;
    var r := RecvDd(x, c.master, s.toMaster[0]);
    var e := Emitted(x, r);
    MasterReceives(c, x, n, s.toMaster[0], r, e);
    OneFullMeansBoth(c, s);
    if n == m && m > 0 {
      FirstIndexAppend(s.toSlave, e, MasterPacket(c, m));
    } else if n == m + 1 && r.trace.matched == m {
      assert s.toMaster == [s.toMaster[0]] + s.toMaster[1..];
    }
  }

  lemma OpeningHelps(c: Config, s: Sys, a: Action)
    requires Live(c, s) && !BothFull(s) && (a == SlaveOpens || a == MasterOpens)
    ensures var t := Step(c, s, a); Useful(c, t) && Progress(c, s, a, t)
  {
    hide SlaveKnown, MasterKnown, SlaveMessage, MasterPacket, Ordered, RoundsNeeded;
    SlaveFacts(c, s.slave);
    MasterFacts(c, s.master);
    HelpfulIsEnabled(c, s);
    if s.slave.trace.matched != s.master.trace.matched {
      FirstIndexAppend(s.toMaster, [EmptyDd(s.slave)], SlaveMessage(c, s.master.trace.matched + 1));
    } else if s.master.trace.matched > 0 {
      FirstIndexAppend(s.toSlave, [EmptyDd(s.master)], MasterPacket(c, s.master.trace.matched));
    }
  }

  lemma ReliableStep(c: Config, s: Sys, a: Action)
    requires ProperConfig(c) && Live(c, s) && !BothFull(s) && Reliable(a)
    ensures var t := Step(c, s, a); Live(c, t) && Progress(c, s, a, t)
  {
    hide RecvDd, Inv, Bounded, RoundsNeeded;
    StepKeepsInv(c, s, a);
    StepKeepsBound(c, s, a);
    HelpfulIsEnabled(c, s);
    match a {
      case DeliverToSlave => if s.toSlave != [] { DeliverToSlaveHelps(c, s); }
      case DeliverToMaster => if s.toMaster != [] { DeliverToMasterHelps(c, s); }
      case _ => OpeningHelps(c, s, a);
    }
  }

  /** A repetition takes no packet away. */
  lemma RepeatKeepsLive(c: Config, s: Sys, a: Action)
    requires ProperConfig(c) && Live(c, s) && Repeats(a)
    ensures Live(c, Step(c, s, a))
  {
    hide SlaveKnown, MasterKnown, SlaveMessage, MasterPacket, Ordered, RoundsNeeded;
    StepKeepsInv(c, s, a);
    StepKeepsBound(c, s, a);
    var t := Step(c, s, a);
    DoubleKeepsMembers(s.toSlave, a.at);
    DoubleKeepsMembers(s.toMaster, a.at);
  }

  lemma DoubleKeepsMembers(ch: seq<DdPacket>, i: nat)
    ensures forall p :: p in ch ==> p in Double(ch, i)
  {
    if i < |ch| {
      forall p | p in ch
        ensures p in Double(ch, i)
      {
        assert ch == ch[..i + 1] + ch[i + 1..] && Double(ch, i) == ch[..i + 1] + ([ch[i]] + ch[i + 1..]);
      }
    }
  }

  /** Once both are in Full they stay there. */
  lemma FullIsFinal(c: Config, s: Sys, a: Action)
    requires ProperConfig(c) && Live(c, s) && BothFull(s)
    ensures Live(c, Step(c, s, a)) && BothFull(Step(c, s, a))
  {
    hide SlaveKnown, MasterKnown, SlaveMessage, MasterPacket, Ordered;
    StepKeepsInv(c, s, a);
    StepKeepsBound(c, s, a);
  }

  // ---------------------------------------------------------------------------
  // Fair runs
  // ---------------------------------------------------------------------------

  lemma InitiallyLive(c: Config, s: Sys)
    requires ProperConfig(c) && Initial(c, s)
    ensures Live(c, s)
  {
    RunKeepsInv(c, s, []);
  }

  lemma {:induction false} AlwaysLive(c: Config, run: nat -> Sys, act: nat -> Action, i: nat)
    requires ProperConfig(c) && IsRun(c, run, act)
    ensures Live(c, run(i))
  {
    hide Live, Step;
    if i == 0 {
      InitiallyLive(c, run(0));
    } else {
      AlwaysLive(c, run, act, i - 1);
      assert run(i - 1 + 1) == Step(c, run(i - 1), act(i - 1));
      if BothFull(run(i - 1)) {
        FullIsFinal(c, run(i - 1), act(i - 1));
      } else if Repeats(act(i - 1)) {
        RepeatKeepsLive(c, run(i - 1), act(i - 1));
      } else {
        ReliableStep(c, run(i - 1), act(i - 1));
      }
    }
  }

  lemma {:induction false} FullFromThenOn(c: Config, run: nat -> Sys, act: nat -> Action, i: nat, j: nat)
    requires ProperConfig(c) && IsRun(c, run, act) && BothFull(run(i)) && i <= j
    ensures BothFull(run(j))
  {
    hide Live, Step;
    if i < j {
      FullFromThenOn(c, run, act, i, j - 1);
      AlwaysLive(c, run, act, j - 1);
      assert run(j - 1 + 1) == Step(c, run(j - 1), act(j - 1));
      FullIsFinal(c, run(j - 1), act(j - 1));
    }
  }

  lemma OutstandingIsNatural(c: Config, s: Sys)
    requires Live(c, s)
    ensures Outstanding(c, s) >= 0
  {
    hide Inv, Useful, RoundsNeeded;
  }

  /** From a quiet time `i`, with the helpful action served at `j`, the run reaches Full on both sides. */
  lemma {:induction false} FullFrom(c: Config, run: nat -> Sys, act: nat -> Action, i: nat, j: nat) returns (n: nat)
    requires ProperConfig(c) && IsRun(c, run, act) && Fair(run, act) && QuietFrom(act, i)
    requires j >= i && Served(run, act, Helpful(run(i)), j)
    ensures BothFull(run(n))
    decreases Outstanding(c, run(i)), Distance(c, run(i)), j - i
  {
    hide Live, Step, Outstanding, Distance, Enabled, BothFull;
    AlwaysLive(c, run, act, i);
    AlwaysLive(c, run, act, i + 1);
    OutstandingIsNatural(c, run(i));
    OutstandingIsNatural(c, run(i + 1));
    if BothFull(run(i)) {
      return i;
    }
    assert run(i + 1) == Step(c, run(i), act(i));
    ReliableStep(c, run(i), act(i));
    HelpfulIsEnabled(c, run(i));
    if Closer(c, run(i), run(i + 1)) {
      assert ServedFrom(run, act, Helpful(run(i + 1)), i + 1);
      var k :| k >= i + 1 && Served(run, act, Helpful(run(i + 1)), k);
      n := FullFrom(c, run, act, i + 1, k);
    } else {
      n := FullFrom(c, run, act, i + 1, j);
    }
  }

  /**
   * Two routers with different ids, both fresh in ExStart and connected by FIFO channels that lose
   * nothing and repeat packets at most finitely often, both reach Full in every fair run and stay
   * there, each having processed exactly the other's summary list, every header once and in order,
   * after at most max(1, ceil(a/50), ceil(b/50)) data packets of the master up to that point.
   */
  lemma ExchangeReachesFull(c: Config, run: nat -> Sys, act: nat -> Action, quiet: nat) returns (n: nat)
    requires ProperConfig(c) && IsRun(c, run, act) && Fair(run, act) && QuietFrom(act, quiet)
    ensures forall k :: k >= n ==> BothFull(run(k))
    ensures forall k :: 0 <= k < n ==> !BothFull(run(k)) && |run(k).master.trace.sent| <= RoundsNeeded(c)
    ensures forall k :: k >= n ==> run(k).slave.trace.processed == OnWire(c.masterList)
    ensures forall k :: k >= n ==> run(k).master.trace.processed == OnWire(c.slaveList)
  {
    hide Live, Step, BothFull, RoundsNeeded;
    assert ServedFrom(run, act, Helpful(run(quiet)), quiet);
    var j: nat :| j >= quiet && Served(run, act, Helpful(run(quiet)), j);
    var last := FullFrom(c, run, act, quiet, j);
    n := FirstFull(run, last);
    forall k | k >= n
      ensures BothFull(run(k))
      ensures run(k).slave.trace.processed == OnWire(c.masterList)
      ensures run(k).master.trace.processed == OnWire(c.slaveList)
    {
      FullFromThenOn(c, run, act, n, k);
      AlwaysLive(c, run, act, k);
      FullMeansProcessed(c, run(k));
    }
    forall k | 0 <= k < n
      ensures !BothFull(run(k)) && |run(k).master.trace.sent| <= RoundsNeeded(c)
    {
      AlwaysLive(c, run, act, k);
      PacketsBeforeFull(c, run(k));
    }
  }

  lemma {:induction false} FirstFull(run: nat -> Sys, last: nat) returns (n: nat)
    requires BothFull(run(last))
    ensures n <= last && BothFull(run(n)) && forall k :: 0 <= k < n ==> !BothFull(run(k))
  {
    n := 0;
    while !BothFull(run(n))
      invariant n <= last
      invariant forall k :: 0 <= k < n ==> !BothFull(run(k))
      decreases last - n
    {
      n := n + 1;
    }
  }

  lemma FullMeansProcessed(c: Config, s: Sys)
    requires Live(c, s) && BothFull(s)
    ensures s.slave.trace.processed == OnWire(c.masterList) && s.master.trace.processed == OnWire(c.slaveList)
  {
    hide SlaveKnown, MasterKnown;
    SlaveFacts(c, s.slave);
    MasterFacts(c, s.master);
  }

  lemma PacketsBeforeFull(c: Config, s: Sys)
    requires Live(c, s) && !BothFull(s)
    ensures |s.master.trace.sent| <= RoundsNeeded(c)
  {
    hide SlaveKnown, MasterKnown, RoundsNeeded, SlaveDone, MasterDone;
    SlaveFacts(c, s.slave);
    MasterFacts(c, s.master);
    if s.slave.trace.matched >= 1 { DoneFromRounds(c, s.slave.trace.matched - 1); }
    if s.master.trace.matched >= 1 { DoneFromRounds(c, s.master.trace.matched - 1); }
  }

  // ---------------------------------------------------------------------------
  // Repetition without end
  // ---------------------------------------------------------------------------

  /** After the opening the first packet to the master is repeated before each delivery. */
  function StarvingAction(i: nat): Action {
    if i == 0 then SlaveOpens
    else if i == 1 then MasterOpens
    else if i == 2 then DeliverToSlave
    else if i % 4 == 3 then RepeatToMaster(0)
    else if i % 4 == 0 then DeliverToMaster
    else if i % 4 == 1 then MasterOpens
    else DeliverToSlave
  }

  function StarvingRun(c: Config, s: Sys, i: nat): Sys {
    if i == 0 then s else Step(c, StarvingRun(c, s, i - 1), StarvingAction(i - 1))
  }

  /** The slave has answered, but its old opening packet is still first in the channel. */
  ghost predicate Starved(c: Config, s: Sys, copies: nat) {
    && Inv(c, s)
    && s.master.trace.matched == 0 && s.slave.trace.matched == 1
    && |s.toMaster| >= copies
    && forall k :: 0 <= k < copies ==> s.toMaster[k] == OPENING
  }

  /** Both routers have sent their opening packet. */
  ghost predicate Opened(c: Config, s: Sys) {
    && Inv(c, s)
    && s.master.trace.matched == 0 && s.slave.trace.matched == 0
    && s.toMaster == [OPENING] && s.toSlave == [OPENING]
  }

  lemma FreshOpening(n: Nbr)
    requires n.ddSeqNum == 0
    ensures EmptyDd(n) == OPENING
  {
  }

  lemma OpeningsSent(c: Config, s: Sys)
    requires Initial(c, s)
    ensures Step(c, Step(c, s, SlaveOpens), MasterOpens) == s.(toMaster := [OPENING], toSlave := [OPENING])
    ensures s.master.trace.matched == 0 && s.slave.trace.matched == 0
  {
    hide EmptyDd;
    FreshOpening(s.slave);
    FreshOpening(s.master);
  }

  lemma BothOpen(c: Config, s: Sys)
    requires ProperConfig(c) && Initial(c, s)
    ensures Opened(c, Step(c, Step(c, s, SlaveOpens), MasterOpens))
  {
    hide Inv, Step, EmptyDd, Initial;
    OpeningsSent(c, s);
    RunKeepsInv(c, s, []);
    NoSteps(c, s);
    StepKeepsInv(c, s, SlaveOpens);
    StepKeepsInv(c, Step(c, s, SlaveOpens), MasterOpens);
  }

  lemma FirstAnswer(c: Config, s: Sys)
    requires ProperConfig(c) && Opened(c, s)
    ensures Starved(c, Step(c, s, DeliverToSlave), 1)
  {
    hide RecvDd, SlavePacket, MasterData, Ordered;
    StepKeepsInv(c, s, DeliverToSlave);
    var r := RecvDd(s.slave, c.slave, OPENING);
    SlaveReceives(c, s.slave, 0, OPENING, r, Emitted(s.slave, r));
    SlaveFacts(c, s.slave);
  }

  lemma OpeningStarts(c: Config, s: Sys)
    requires ProperConfig(c) && Initial(c, s)
    ensures Starved(c, StarvingRun(c, s, 3), 1)
  {
    hide Starved, Opened, Step;
    BothOpen(c, s);
    FirstAnswer(c, Step(c, Step(c, s, SlaveOpens), MasterOpens));
    StarvingSteps(c, s);
  }

  lemma NoSteps(c: Config, s: Sys)
    ensures Run(c, s, []) == s
  {
  }

  lemma StarvingSteps(c: Config, s: Sys)
    ensures StarvingRun(c, s, 3) == Step(c, Step(c, Step(c, s, SlaveOpens), MasterOpens), DeliverToSlave)
  {
    assert StarvingRun(c, s, 1) == Step(c, s, SlaveOpens);
    assert StarvingRun(c, s, 2) == Step(c, Step(c, s, SlaveOpens), MasterOpens);
  }

  lemma StarvedStep(c: Config, s: Sys, a: Action)
    requires ProperConfig(c)
    requires a == RepeatToMaster(0) || a == DeliverToMaster || a == MasterOpens || a == DeliverToSlave
    requires Starved(c, s, if a == DeliverToMaster then 2 else 1)
    ensures Starved(c, Step(c, s, a), if a == RepeatToMaster(0) then 2 else 1)
  {
    hide RecvDd, SlaveKnown, MasterKnown, Ordered, SlavePacket, MasterData;
    StepKeepsInv(c, s, a);
    if a == DeliverToMaster {
      var r := RecvDd(s.master, c.master, OPENING);
      MasterReceives(c, s.master, 1, OPENING, r, Emitted(s.master, r));
      OpeningIsNoData(c, 0);
    } else if a == DeliverToSlave && s.toSlave != [] {
      assert s.toSlave[0] == OPENING by { StarvedChannel(c, s); }
      var r := RecvDd(s.slave, c.slave, OPENING);
      SlaveReceives(c, s.slave, 0, OPENING, r, Emitted(s.slave, r));
    }
  }

  lemma OpeningIsNoData(c: Config, k: nat)
    ensures SlavePacket(c, k) != OPENING
  {
  }

  lemma StarvedChannel(c: Config, s: Sys)
    requires Starved(c, s, 1) && s.toSlave != []
    ensures s.toSlave[0] == OPENING
  {
    hide SlaveKnown, MasterKnown, SlavePacket, MasterData;
  }

  lemma {:induction false} AlwaysStarved(c: Config, s: Sys, i: nat)
    requires ProperConfig(c) && Initial(c, s) && i >= 3
    ensures Starved(c, StarvingRun(c, s, i), if i % 4 == 0 then 2 else 1)
  {
    hide Starved, Step;
    if i == 3 {
      OpeningStarts(c, s);
    } else {
      AlwaysStarved(c, s, i - 1);
      StarvedStep(c, StarvingRun(c, s, i - 1), StarvingAction(i - 1));
    }
  }

  lemma StarvedIsNotFull(c: Config, s: Sys)
    requires Starved(c, s, 1)
    ensures !BothFull(s)
  {
    hide SlaveKnown, SlavePacket, MasterData;
    MasterFacts(c, s.master);
  }

  /** Every fair action comes round again. */
  lemma StarvingIsFair(run: nat -> Sys)
    ensures Fair(run, StarvingAction)
  {
    forall a, i: nat | a == MasterOpens || a == DeliverToSlave || a == DeliverToMaster
      ensures ServedFrom(run, StarvingAction, a, i)
    {
      var j := 4 * i + (if a == DeliverToMaster then 4 else if a == MasterOpens then 5 else 6);
      assert StarvingAction(j) == a;
      assert Served(run, StarvingAction, a, j);
    }
  }

  /**
   * With repetition in place for ever, fairness is not enough: from every initial state there is a
   * fair run without loss in which the two never both reach Full.
   */
  lemma EndlessRepetitionStarves(c: Config, s: Sys) returns (run: nat -> Sys, act: nat -> Action)
    requires ProperConfig(c) && Initial(c, s)
    ensures run(0) == s && IsRun(c, run, act) && Fair(run, act)
    ensures forall i :: !BothFull(run(i))
  {
    hide Step, Inv, BothFull, Initial;
    run, act := (i: nat) => StarvingRun(c, s, i), StarvingAction;
    StarvingIsFair(run);
    forall i: nat
      ensures !BothFull(run(i))
    {
      if i < 3 {
        StarvingStart(c, s, i);
      } else {
        AlwaysStarved(c, s, i);
        StarvedIsNotFull(c, StarvingRun(c, s, i));
      }
    }
  }

  lemma StarvingStart(c: Config, s: Sys, i: nat)
    requires Initial(c, s) && i < 3
    ensures !BothFull(StarvingRun(c, s, i))
  {
    assert StarvingRun(c, s, 1) == Step(c, s, SlaveOpens);
    assert StarvingRun(c, s, 2) == Step(c, Step(c, s, SlaveOpens), MasterOpens);
  }
}
