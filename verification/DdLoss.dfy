/**
 * The Database Description exchange over channels that lose packets. The master never sends a data
 * packet again, so some losses are fatal: exactly which states can still reach Full.
 */
module DdLoss {
  import opened Lsa
  import opened NeighborSpec
  import opened DdExchange
  import opened DdLiveness

  /**
   * The exchange is done; or the master still repeats its opening packet; or the packet that is
   * due is in flight; or a copy of the master's last packet is, which the slave answers again.
   */
  ghost predicate Recoverable(c: Config, s: Sys) {
    var m, n := s.master.trace.matched, s.slave.trace.matched;
    || BothFull(s)
    || m == 0
    || (n == m && MasterPacket(c, m) in s.toSlave)
    || (n != m && (SlaveMessage(c, m + 1) in s.toMaster || s.toSlave != []))
  }

  /** Between the slave's answer and the master's, the slave remembers the packet it answered. */
  ghost predicate Remembers(c: Config, s: Sys) {
    s.slave.trace.matched != s.master.trace.matched ==>
      s.slave.lastRecv == IdOf(MasterPacket(c, s.master.trace.matched))
  }

  ghost predicate Sound(c: Config, s: Sys) {
    Inv(c, s) && Bounded(c, s) && Remembers(c, s)
  }

  lemma PacketIsRemembered(n: Nbr, env: DdEnv, p: DdPacket)
    requires n.state != Init
    ensures RecvDd(n, env, p).lastRecv == IdOf(p)
  {
    if Matched(n, env, p) {
      MatchedOutcome(n, env, p);
      AcceptRemembers(Entering(AtDispatch(n, env, p), env, p), env, p);
    } else {
      UnmatchedOutcome(n, env, p);
    }
  }

  lemma AcceptRemembers(n: Nbr, env: DdEnv, p: DdPacket)
    ensures Accept(n, env, p).lastRecv == n.lastRecv
  {
    CheckTypesRemembers(n.(ddSeqNum := Accepted(n, p)), p.headers);
  }

  lemma {:induction false} CheckTypesRemembers(n: Nbr, hs: seq<LsaHeader>)
    ensures CheckTypes(n, hs).lastRecv == n.lastRecv
  {
    if hs != [] {
      CheckTypesRemembers(n, hs[..|hs| - 1]);
    }
  }

  lemma SlaveIsPastInit(c: Config, x: Nbr)
    requires SlaveKnown(c, x)
    ensures x.state != Init
  {
  }

  lemma StepRemembers(c: Config, s: Sys, a: Action)
    requires ProperConfig(c) && Sound(c, s)
    ensures Remembers(c, Step(c, s, a))
  {
    hide RecvDd, SlaveKnown, MasterKnown, SlaveMessage, MasterPacket, Bounded;
    if a.DeliverToSlave? && s.toSlave != [] {
      var r := RecvDd(s.slave, c.slave, s.toSlave[0]);
      SlaveIsPastInit(c, s.slave);
      PacketIsRemembered(s.slave, c.slave, s.toSlave[0]);
      SlaveReceives(c, s.slave, s.master.trace.matched, s.toSlave[0], r, Emitted(s.slave, r));
    }
    if a.DeliverToMaster? && s.toMaster != [] {
      var r := RecvDd(s.master, c.master, s.toMaster[0]);
      MasterReceives(c, s.master, s.slave.trace.matched, s.toMaster[0], r, Emitted(s.master, r));
    }
  }

  lemma StepKeepsSound(c: Config, s: Sys, a: Action)
    requires ProperConfig(c) && Sound(c, s)
    ensures Sound(c, Step(c, s, a))
  {
    hide Inv, Bounded, Remembers, Step;
    StepKeepsInv(c, s, a);
    StepKeepsBound(c, s, a);
    StepRemembers(c, s, a);
  }

  lemma {:induction false} RunIsSound(c: Config, s: Sys, actions: seq<Action>)
    requires ProperConfig(c) && Initial(c, s)
    ensures Sound(c, Run(c, s, actions))
  {
    hide Step, Sound;
    if actions == [] {
      InitiallySound(c, s);
    } else {
      RunIsSound(c, s, actions[..|actions| - 1]);
      StepKeepsSound(c, Run(c, s, actions[..|actions| - 1]), actions[|actions| - 1]);
    }
  }

  lemma InitiallySound(c: Config, s: Sys)
    requires ProperConfig(c) && Initial(c, s)
    ensures Sound(c, s)
  {
    hide Inv, Bounded;
    InitiallyLive(c, s);
  }

  // ---------------------------------------------------------------------------
  // A fatal loss is final
  // ---------------------------------------------------------------------------

  /** No step of a lost state matches a packet. */
  lemma LostMatchesNothing(c: Config, s: Sys, a: Action)
    requires ProperConfig(c) && Sound(c, s) && !Recoverable(c, s)
    ensures Step(c, s, a).slave.trace.matched == s.slave.trace.matched
    ensures Step(c, s, a).master.trace.matched == s.master.trace.matched
    ensures a == DeliverToMaster && s.toMaster != [] ==> Step(c, s, a).toSlave == s.toSlave
  {
    hide RecvDd, SlaveKnown, MasterKnown, SlaveMessage, MasterPacket, Bounded, Remembers, BothFull;
    if a == DeliverToSlave && s.toSlave != [] {
      var r := RecvDd(s.slave, c.slave, s.toSlave[0]);
      SlaveReceives(c, s.slave, s.master.trace.matched, s.toSlave[0], r, Emitted(s.slave, r));
    }
    if a == DeliverToMaster && s.toMaster != [] {
      var r := RecvDd(s.master, c.master, s.toMaster[0]);
      MasterReceives(c, s.master, s.slave.trace.matched, s.toMaster[0], r, Emitted(s.master, r));
    }
  }

  lemma SlaveFullIff(c: Config, x: Nbr)
    requires SlaveKnown(c, x)
    ensures x.state == Full <==> x.trace.matched >= 1 && SlaveDone(c, x.trace.matched - 1)
  {
    hide SlaveKnown, SlaveDone;
    SlaveFacts(c, x);
  }

  lemma MasterFullIff(c: Config, x: Nbr)
    requires MasterKnown(c, x)
    ensures x.state == Full <==> x.trace.matched >= 1 && MasterDone(c, x.trace.matched - 1)
  {
    hide MasterKnown, MasterDone;
    MasterFacts(c, x);
  }

  lemma SameMatchesSameFull(c: Config, s: Sys, t: Sys)
    requires Inv(c, s) && Inv(c, t)
    requires s.slave.trace.matched == t.slave.trace.matched && s.master.trace.matched == t.master.trace.matched
    ensures BothFull(s) == BothFull(t)
  {
    hide SlaveKnown, MasterKnown, MasterAnswered, SlaveAnswered, SlaveDone, MasterDone;
    SlaveFullIff(c, s.slave);
    MasterFullIff(c, s.master);
    SlaveFullIff(c, t.slave);
    MasterFullIff(c, t.master);
  }

  /** Past ExStart neither side opens again. */
  lemma NoOpening(c: Config, s: Sys)
    requires Inv(c, s) && s.master.trace.matched >= 1
    ensures s.slave.state != ExStart && s.master.state != ExStart
  {
    hide SlaveKnown, MasterKnown, SlaveMessage, MasterPacket, Ordered;
    SlaveFacts(c, s.slave);
    MasterFacts(c, s.master);
  }

  lemma LostStaysLost(c: Config, s: Sys, a: Action)
    requires ProperConfig(c) && Sound(c, s) && !Recoverable(c, s)
    ensures !Recoverable(c, Step(c, s, a))
  {
    hide RecvDd, Inv, SlaveMessage, MasterPacket, Bounded, Remembers, EmptyDd, BothFull, Emitted;
    var t := Step(c, s, a);
    StepKeepsInv(c, s, a);
    LostMatchesNothing(c, s, a);
    SameMatchesSameFull(c, s, t);
    NoOpening(c, s);
  }

  lemma {:induction false} LostForEver(c: Config, s: Sys, actions: seq<Action>)
    requires ProperConfig(c) && Sound(c, s) && !Recoverable(c, s)
    ensures Sound(c, Run(c, s, actions)) && !Recoverable(c, Run(c, s, actions))
  {
    hide Step, Sound, Recoverable;
    if actions != [] {
      var t := Run(c, s, actions[..|actions| - 1]);
      LostForEver(c, s, actions[..|actions| - 1]);
      LostStaysLost(c, t, actions[|actions| - 1]);
      StepKeepsSound(c, t, actions[|actions| - 1]);
    }
  }

  // ---------------------------------------------------------------------------
  // Every other state can still finish
  // ---------------------------------------------------------------------------

  lemma {:induction false} RunConcat(c: Config, s: Sys, xs: seq<Action>, ys: seq<Action>)
    ensures Run(c, s, xs + ys) == Run(c, Run(c, s, xs), ys)
  {
    hide Step;
    if ys == [] {
      assert xs + ys == xs;
    } else {
      assert (xs + ys)[..|xs + ys| - 1] == xs + ys[..|ys| - 1];
      RunConcat(c, s, xs, ys[..|ys| - 1]);
    }
  }

  lemma OneStep(c: Config, s: Sys, a: Action)
    ensures Run(c, s, [a]) == Step(c, s, a)
  {
    assert [a][..0] == [];
    NoSteps(c, s);
  }

  /** The helpful actions, one after the other. */
  lemma {:induction false} HelpToFull(c: Config, s: Sys) returns (actions: seq<Action>)
    requires ProperConfig(c) && Live(c, s)
    ensures BothFull(Run(c, s, actions))
    decreases Outstanding(c, s), Distance(c, s)
  {
    hide Step, Live, Outstanding, Distance, BothFull, Run;
    NoSteps(c, s);
    if BothFull(s) {
      return [];
    }
    var a := Helpful(s);
    var t := Step(c, s, a);
    ReliableStep(c, s, a);
    OutstandingIsNatural(c, s);
    OutstandingIsNatural(c, t);
    var rest := HelpToFull(c, t);
    actions := [a] + rest;
    RunConcat(c, s, [a], rest);
    OneStep(c, s, a);
  }

  /** A copy of the packet it answered last makes the slave send its answer again. */
  lemma SlaveAnswersAgain(c: Config, x: Nbr, k: nat)
    requires SlaveAt(c, x, k) && x.lastRecv == IdOf(MasterPacket(c, k))
    ensures Emitted(x, RecvDd(x, c.slave, MasterPacket(c, k))) == [SlavePacket(c, k)]
  {
  }

  lemma SlaveMessageAgain(c: Config, x: Nbr)
    requires SlaveKnown(c, x) && x.trace.matched >= 1
    requires x.lastRecv == IdOf(MasterPacket(c, x.trace.matched - 1))
    ensures Emitted(x, RecvDd(x, c.slave, MasterPacket(c, x.trace.matched - 1))) == [SlaveMessage(c, x.trace.matched)]
  {
    hide RecvDd, SlavePacket, MasterData;
    SlaveAnswersAgain(c, x, x.trace.matched - 1);
  }

  lemma AnswerAgainIsLive(c: Config, s: Sys)
    requires ProperConfig(c) && Sound(c, s)
    requires s.slave.trace.matched != s.master.trace.matched && s.toSlave != []
    ensures Live(c, Step(c, s, DeliverToSlave))
  {
    hide RecvDd, SlaveKnown, MasterKnown, SlaveMessage, MasterPacket, Bounded;
    StepKeepsInv(c, s, DeliverToSlave);
    StepKeepsBound(c, s, DeliverToSlave);
    var r := RecvDd(s.slave, c.slave, s.toSlave[0]);
    SlaveReceives(c, s.slave, s.master.trace.matched, s.toSlave[0], r, Emitted(s.slave, r));
    SlaveMessageAgain(c, s.slave);
  }

  lemma OpeningAgain(c: Config, s: Sys)
    requires ProperConfig(c) && Sound(c, s) && s.master.trace.matched == 0
    ensures var t := Step(c, s, MasterOpens);
            && Sound(c, t) && t.toSlave != []
            && t.slave.trace.matched == s.slave.trace.matched && t.master.trace.matched == 0
  {
    hide SlaveKnown, MasterKnown, EmptyDd, Bounded;
    MasterFacts(c, s.master);
    StepKeepsSound(c, s, MasterOpens);
  }

  lemma StepThen(c: Config, s: Sys, a: Action, rest: seq<Action>)
    ensures Run(c, s, [a] + rest) == Run(c, Step(c, s, a), rest)
  {
    RunConcat(c, s, [a], rest);
    OneStep(c, s, a);
  }

  /** From a recoverable state the two can reach Full without any further loss. */
  lemma CanFinish(c: Config, s: Sys) returns (actions: seq<Action>)
    requires ProperConfig(c) && Sound(c, s) && Recoverable(c, s)
    ensures BothFull(Run(c, s, actions))
  {
    hide Step, Inv, Bounded, Run, BothFull, SlaveMessage, MasterPacket;
    if Useful(c, s) {
      actions := HelpToFull(c, s);
    } else if s.toSlave != [] {
      AnswerAgainIsLive(c, s);
      var rest := HelpToFull(c, Step(c, s, DeliverToSlave));
      actions := [DeliverToSlave] + rest;
      StepThen(c, s, DeliverToSlave, rest);
    } else {
      var t := Step(c, s, MasterOpens);
      OpeningAgain(c, s);
      AnswerAgainIsLive(c, t);
      var rest := HelpToFull(c, Step(c, t, DeliverToSlave));
      StepThen(c, t, DeliverToSlave, rest);
      StepThen(c, s, MasterOpens, [DeliverToSlave] + rest);
      actions := [MasterOpens] + ([DeliverToSlave] + rest);
    }
  }

  /**
   * After any run with losses and repetitions, Full on both sides can still be reached, with or
   * without further losses, if and only if the state is recoverable.
   */
  lemma FullIsReachableIff(c: Config, s: Sys, actions: seq<Action>)
    requires ProperConfig(c) && Initial(c, s)
    ensures var t := Run(c, s, actions);
            (exists more :: BothFull(Run(c, t, more))) <==> Recoverable(c, t)
  {
    hide Run, Sound, Step;
    var t := Run(c, s, actions);
    RunIsSound(c, s, actions);
    if Recoverable(c, t) {
      var more := CanFinish(c, t);
    } else {
      forall more: seq<Action>
        ensures !BothFull(Run(c, t, more))
      {
        LostForEver(c, t, more);
      }
    }
  }

  /** The loss of the master's first data packet is fatal. */
  lemma FatalLoss(c: Config, s: Sys, more: seq<Action>)
    requires ProperConfig(c) && Sound(c, s)
    requires s.slave.trace.matched == s.master.trace.matched == 1
    requires s.toSlave == [MasterPacket(c, 1)]
    ensures !BothFull(Run(c, Step(c, s, LoseToSlave(0)), more))
  {
    hide Inv, Bounded, Run, RoundsNeeded, SlaveKnown, MasterPacket;
    var t := Step(c, s, LoseToSlave(0));
    StepKeepsSound(c, s, LoseToSlave(0));
    assert !BothFull(t) by { FirstDataPending(c, s); }
    LostForEver(c, t, more);
  }

  /** The three steps after which that packet, and nothing else, is in flight. */
  lemma FirstDataInFlight(c: Config, s: Sys)
    requires ProperConfig(c) && Initial(c, s)
    ensures var t := Run(c, s, [MasterOpens, DeliverToSlave, DeliverToMaster]);
            && t.slave.trace.matched == t.master.trace.matched == 1
            && t.toSlave == [MasterPacket(c, 1)] && t.toMaster == []
  {
    hide Step, Initial, Inv, MasterPacket;
    var t1 := Step(c, s, MasterOpens);
    var t2 := Step(c, t1, DeliverToSlave);
    InitiallySound(c, s);
    StepKeepsInv(c, s, MasterOpens);
    StepKeepsInv(c, t1, DeliverToSlave);
    OnlyOpening(c, s);
    OnlyAnswer(c, t1);
    OnlyData(c, t2);
    ThreeSteps(c, s, MasterOpens, DeliverToSlave, DeliverToMaster);
  }

  lemma ThreeSteps(c: Config, s: Sys, a: Action, b: Action, d: Action)
    ensures Run(c, s, [a, b, d]) == Step(c, Step(c, Step(c, s, a), b), d)
  {
    hide Step;
    assert [a, b, d][..2] == [a, b] && [a, b][..1] == [a] && [a][..0] == [];
    NoSteps(c, s);
    assert Run(c, s, [a]) == Step(c, s, a);
    assert Run(c, s, [a, b]) == Step(c, Step(c, s, a), b);
  }

  lemma OnlyOpening(c: Config, s: Sys)
    requires Initial(c, s)
    ensures var t := Step(c, s, MasterOpens);
            && t.slave.trace.matched == t.master.trace.matched == 0
            && t.toSlave == [OPENING] && t.toMaster == []
  {
    hide EmptyDd;
    FreshOpening(s.master);
  }

  lemma OnlyAnswer(c: Config, s: Sys)
    requires ProperConfig(c) && Inv(c, s) && s.slave.trace.matched == s.master.trace.matched == 0
    requires s.toSlave == [OPENING] && s.toMaster == []
    ensures var t := Step(c, s, DeliverToSlave);
            && t.slave.trace.matched == 1 && t.master.trace.matched == 0
            && t.toSlave == [] && t.toMaster == [SlaveMessage(c, 1)]
  {
    hide RecvDd, SlavePacket, MasterData, Ordered;
    var r := RecvDd(s.slave, c.slave, OPENING);
    SlaveReceives(c, s.slave, 0, OPENING, r, Emitted(s.slave, r));
    SlaveFacts(c, s.slave);
  }

  lemma OnlyData(c: Config, s: Sys)
    requires ProperConfig(c) && Inv(c, s) && s.slave.trace.matched == 1 && s.master.trace.matched == 0
    requires s.toSlave == [] && s.toMaster == [SlaveMessage(c, 1)]
    ensures var t := Step(c, s, DeliverToMaster);
            && t.slave.trace.matched == t.master.trace.matched == 1
            && t.toSlave == [MasterPacket(c, 1)] && t.toMaster == []
  {
    hide RecvDd, SlavePacket, MasterData, Ordered;
    var r := RecvDd(s.master, c.master, SlaveMessage(c, 1));
    MasterReceives(c, s.master, 1, SlaveMessage(c, 1), r, Emitted(s.master, r));
    MasterFacts(c, s.master);
  }

  /** From every initial state: three deliveries, one loss, and Full is out of reach. */
  lemma FirstDataPacketLost(c: Config, s: Sys, more: seq<Action>)
    requires ProperConfig(c) && Initial(c, s)
    ensures var t := Run(c, s, [MasterOpens, DeliverToSlave, DeliverToMaster]);
            !BothFull(Run(c, Step(c, t, LoseToSlave(0)), more))
  {
    hide Run, Step, Sound, MasterPacket, Initial;
    FirstDataInFlight(c, s);
    RunIsSound(c, s, [MasterOpens, DeliverToSlave, DeliverToMaster]);
    FatalLoss(c, Run(c, s, [MasterOpens, DeliverToSlave, DeliverToMaster]), more);
  }

  lemma FirstDataPending(c: Config, s: Sys)
    requires Inv(c, s) && s.slave.trace.matched == 1
    ensures s.slave.state != Full
  {
    hide SlaveMessage, MasterPacket;
    SlaveFacts(c, s.slave);
  }
}
