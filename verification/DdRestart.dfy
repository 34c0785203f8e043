/**
 * Renegotiation of two routers after a mismatch, over channels that lose and repeat packets: the
 * kept sequence number decides whether the master can ever leave ExStart again.
 */
module DdRestart {
  import opened Basics
  import opened NeighborSpec
  import opened DdExchange
  import opened DdLoss

  /** Both sides are in ExStart with the right ids, the channels are empty; everything else is arbitrary. */
  predicate Restarted(c: Config, s: Sys) {
    && c.slave.routerId < c.master.routerId
    && s.slave.state == ExStart && s.slave.id == c.master.routerId
    && s.master.state == ExStart && s.master.id == c.slave.routerId
    && s.toSlave == [] && s.toMaster == []
  }

  /** A packet that does not acknowledge the number `q`. */
  predicate Misses(p: DdPacket, q: uint32) {
    p.i || p.ms || p.seqNum != q
  }

  /** The slave has not started, or it follows the master's opening packet. */
  predicate SlaveFollows(c: Config, x: Nbr, opening: DdPacket, q: uint32) {
    && x.id == c.master.routerId
    && (x.state == ExStart
        || (x.state == Exchange && x.lastRecv == IdOf(opening) && x.isMaster
            && x.lastSend.Some? && Misses(x.lastSend.value, q)))
  }

  ghost predicate Stuck(c: Config, s: Sys, q: uint32) {
    var opening := EmptyDd(s.master);
    && s.master.state == ExStart && s.master.ddSeqNum == q && s.master.id == c.slave.routerId
    && SlaveFollows(c, s.slave, opening, q)
    && (forall i :: 0 <= i < |s.toSlave| ==> s.toSlave[i] == opening)
    && (forall i :: 0 <= i < |s.toMaster| ==> Misses(s.toMaster[i], q))
  }

  /** The master ignores whatever does not acknowledge its number. */
  lemma MasterStays(c: Config, x: Nbr, p: DdPacket)
    requires c.slave.routerId < c.master.routerId
    requires x.state == ExStart && x.id == c.slave.routerId && Misses(p, x.ddSeqNum)
    ensures var r := RecvDd(x, c.master, p);
            r.state == ExStart && r.id == x.id && r.ddSeqNum == x.ddSeqNum && Emitted(x, r) == []
  {
    hide Accept;
  }

  /** The slave's first answer carries the number as it arrived, octets reversed. */
  lemma SlaveOpensWrong(c: Config, x: Nbr, p: DdPacket, q: uint32)
    requires c.slave.routerId < c.master.routerId
    requires x.state == ExStart && x.id == c.master.routerId
    requires p.i && p.m && p.ms && p.headers == [] && p.seqNum != q
    ensures var r := RecvDd(x, c.slave, p);
            SlaveFollows(c, r, p, q) && Emitted(x, r) == [r.lastSend.value] && Misses(r.lastSend.value, q)
  {
    hide RecvDd, Accept, Entering, AtDispatch, PeerOpens;
    OpeningMatches(x, c.slave, p);
    MatchedOutcome(x, c.slave, p);
    EnteringFresh(x, c.slave, p);
    SlaveAnswer(Entering(AtDispatch(x, c.slave, p), c.slave, p), c.slave, p);
  }

  lemma SlaveAnswer(m: Nbr, env: DdEnv, p: DdPacket)
    requires m.state == Exchange && m.isMaster && p.m && p.headers == []
    ensures var r := Accept(m, env, p);
            && r.state == Exchange && r.id == m.id && r.isMaster && r.lastRecv == m.lastRecv && r.lastSend.Some?
            && !r.lastSend.value.i && !r.lastSend.value.ms && r.lastSend.value.seqNum == p.seqNum
            && r.trace.sent == m.trace.sent + [r.lastSend.value]
  {
    hide WantedOf, OnWire;
    AcceptGoodTypes(m, env, p);
  }

  /** Later copies are answered by a repetition. */
  lemma SlaveRepeatsWrong(c: Config, x: Nbr, p: DdPacket, q: uint32)
    requires SlaveFollows(c, x, p, q) && x.state == Exchange
    ensures var r := RecvDd(x, c.slave, p);
            SlaveFollows(c, r, p, q) && Emitted(x, r) == [x.lastSend.value]
  {
    hide Accept;
  }

  lemma SlaveDelivery(c: Config, s: Sys, q: uint32)
    requires c.slave.routerId < c.master.routerId && Stuck(c, s, q) && ByteSwap32(q) != q && s.toSlave != []
    ensures Stuck(c, Step(c, s, DeliverToSlave), q)
  {
    hide RecvDd, ByteSwap32, SlaveFollows;
    var p := EmptyDd(s.master);
    assert s.toSlave[0] == p;
    SlaveTakes(c, s.slave, p, q);
  }

  lemma SlaveTakes(c: Config, x: Nbr, p: DdPacket, q: uint32)
    requires c.slave.routerId < c.master.routerId && SlaveFollows(c, x, p, q)
    requires p.i && p.m && p.ms && p.headers == [] && p.seqNum != q
    ensures var r := RecvDd(x, c.slave, p);
            SlaveFollows(c, r, p, q) && forall i :: 0 <= i < |Emitted(x, r)| ==> Misses(Emitted(x, r)[i], q)
  {
    hide RecvDd, Misses, Emitted;
    if x.state == ExStart { SlaveOpensWrong(c, x, p, q); } else { SlaveRepeatsWrong(c, x, p, q); }
  }

  lemma MasterDelivery(c: Config, s: Sys, q: uint32)
    requires c.slave.routerId < c.master.routerId && Stuck(c, s, q) && s.toMaster != []
    ensures Stuck(c, Step(c, s, DeliverToMaster), q)
  {
    hide RecvDd, ByteSwap32, SlaveFollows;
    MasterStays(c, s.master, s.toMaster[0]);
  }

  lemma StepKeepsStuck(c: Config, s: Sys, a: Action, q: uint32)
    requires c.slave.routerId < c.master.routerId && Stuck(c, s, q) && ByteSwap32(q) != q
    ensures Stuck(c, Step(c, s, a), q)
  {
    hide RecvDd, ByteSwap32, SlaveFollows;
    match a {
      case DeliverToSlave => if s.toSlave != [] { SlaveDelivery(c, s, q); }
      case DeliverToMaster => if s.toMaster != [] { MasterDelivery(c, s, q); }
      case _ =>
    }
  }

  lemma {:induction false} RunKeepsStuck(c: Config, s: Sys, actions: seq<Action>, q: uint32)
    requires c.slave.routerId < c.master.routerId && Stuck(c, s, q) && ByteSwap32(q) != q
    ensures Stuck(c, Run(c, s, actions), q)
  {
    hide Step, Stuck, ByteSwap32;
    if actions != [] {
      RunKeepsStuck(c, s, actions[..|actions| - 1], q);
      StepKeepsStuck(c, Run(c, s, actions[..|actions| - 1]), actions[|actions| - 1], q);
    }
  }

  /** If the number survives the reversal, three steps are enough. */
  lemma RestartSucceeds(c: Config, s: Sys)
    requires Restarted(c, s) && ByteSwap32(s.master.ddSeqNum) == s.master.ddSeqNum
    requires GoodTypes(c.slaveList) && c.slaveList == DatabaseSummary(c.slave)
    ensures Run(c, s, [MasterOpens, DeliverToSlave, DeliverToMaster]).master.state != ExStart
  {
    hide RecvDd, ByteSwap32, Emitted, Run, Accept;
    ThreeSteps(c, s, MasterOpens, DeliverToSlave, DeliverToMaster);
    var p := EmptyDd(s.master);
    var x := RecvDd(s.slave, c.slave, p);
    OpenedSlave(c, s.slave, p);
    var reply := x.lastSend.value;
    assert Step(c, s, MasterOpens) == s.(toSlave := [p]);
    assert Step(c, s.(toSlave := [p]), DeliverToSlave) == s.(slave := x, toMaster := [reply]);
    MasterLeaves(c, s.master, reply);
  }

  lemma OpenedSlave(c: Config, x: Nbr, p: DdPacket)
    requires x.state == ExStart && x.id > c.slave.routerId && p.i && p.m && p.ms && p.headers == []
    requires GoodTypes(c.slaveList) && c.slaveList == DatabaseSummary(c.slave)
    ensures var r := RecvDd(x, c.slave, p);
            && r.lastSend.Some? && Emitted(x, r) == [r.lastSend.value]
            && !r.lastSend.value.i && !r.lastSend.value.ms && r.lastSend.value.seqNum == p.seqNum
            && GoodTypes(r.lastSend.value.headers)
  {
    hide RecvDd, Accept, Entering, AtDispatch, PeerOpens;
    OpeningMatches(x, c.slave, p);
    MatchedOutcome(x, c.slave, p);
    EnteringFresh(x, c.slave, p);
    var m := Entering(AtDispatch(x, c.slave, p), c.slave, p);
    SlaveAnswer(m, c.slave, p);
    AnswerTypes(m, c.slave, p);
  }

  lemma AnswerTypes(m: Nbr, env: DdEnv, p: DdPacket)
    requires p.headers == [] && GoodTypes(m.summary)
    ensures Accept(m, env, p).lastSend.Some? && GoodTypes(Accept(m, env, p).lastSend.value.headers)
  {
    hide WantedOf, OnWire;
    AcceptGoodTypes(m, env, p);
    var rest := Accept(m, env, p).summary;
    OnWireTypes(rest[..Min(|rest|, 50)]);
  }

  lemma MasterLeaves(c: Config, x: Nbr, reply: DdPacket)
    requires x.state == ExStart && x.id < c.master.routerId
    requires !reply.i && !reply.ms && reply.seqNum == x.ddSeqNum && GoodTypes(reply.headers)
    ensures RecvDd(x, c.master, reply).state != ExStart
  {
    hide RecvDd, Accept, Entering, AtDispatch;
    MatchesNumberIff(x, c.master, reply);
    MatchedOutcome(x, c.master, reply);
    EnteringFresh(x, c.master, reply);
    AcceptLeaves(Entering(AtDispatch(x, c.master, reply), c.master, reply), c.master, reply);
  }

  lemma AcceptLeaves(m: Nbr, env: DdEnv, p: DdPacket)
    requires m.state == Exchange && GoodTypes(p.headers)
    ensures Accept(m, env, p).state != ExStart
  {
    hide WantedOf, NextPacket;
    AcceptGoodTypes(m, env, p);
  }

  /**
   * From ExStart on both sides, whatever they keep from before, some run (with any losses and
   * repetitions) brings the master out of ExStart if and only if the number it kept is its own
   * octet reversal.
   */
  lemma RenegotiationEndsIff(c: Config, s: Sys)
    requires Restarted(c, s) && ProperConfig(c)
    ensures (exists actions :: Run(c, s, actions).master.state != ExStart)
            <==> ByteSwap32(s.master.ddSeqNum) == s.master.ddSeqNum
  {
    hide Run, ByteSwap32;
    var q := s.master.ddSeqNum;
    if ByteSwap32(q) == q {
      RestartSucceeds(c, s);
    } else {
      forall actions: seq<Action>
        ensures Run(c, s, actions).master.state == ExStart
      {
        RunKeepsStuck(c, s, actions, q);
      }
    }
  }
}
