/**
 * What every run of an interface keeps: the adjacency rule of section 10.4 of RFC 2328, empty
 * lists below Exchange, and an interface state that matches the elected roles.
 */
module InterfaceRuns {
  import opened Basics
  import opened Lsa
  import opened NeighborSpec
  import opened Election
  import opened LsuSpec
  import opened Lists
  import opened Lsdb
  import opened InterfaceSpec

  /** What a neighbour satisfies at all times, given whether an adjacency is required with it. */
  predicate NbrFine(n: Nbr, adjacent: bool) {
    && n.state != Attempt && n.state != Loading
    && (Rank(n.state) >= Rank(TwoWay) ==> (Rank(n.state) >= Rank(ExStart) <==> adjacent))
    && (Rank(n.state) < Rank(Exchange) ==> ListsEmpty(n))
  }

  /** Neighbour addresses are real, not ours, and all different. */
  ghost predicate AddressesFine(ip: uint32, ns: seq<Nbr>) {
    && ip != 0
    && (forall i :: 0 <= i < |ns| ==> ns[i].ip != 0 && ns[i].ip != ip)
    && (forall i, j :: 0 <= i < j < |ns| ==> ns[i].ip != ns[j].ip)
  }

  ghost predicate NeighborsFine(v: Iface) {
    && AddressesFine(v.ip, v.neighbors)
    && (forall i :: 0 <= i < |v.neighbors| ==> NbrFine(v.neighbors[i], Adjacent(v, v.neighbors[i].ip)))
  }

  /** The state is the one of the elected role, and nothing is elected before the waiting ends. */
  predicate RoleFine(v: Iface) {
    match v.state
    case Dr => v.ip == v.dr
    case BackupDr => v.ip != v.dr && v.ip == v.bdr
    case DrOther => v.ip != v.dr && v.ip != v.bdr
    case _ => v.dr == 0 && v.bdr == 0
  }

  ghost predicate Fine(v: Iface) {
    NeighborsFine(v) && RoleFine(v)
  }

  datatype Event =
    | Up
    | WaitOver
    | HelloIn(hello: Hello)
    | DdIn(src: uint32, packet: DdPacket, routers: seq<RouterLsa>, networks: seq<NetworkLsa>, originated: seq<LsaHeader>)
    | LsrIn(src: uint32, requests: seq<LsRequest>, routers: seq<RouterLsa>, networks: seq<NetworkLsa>)
    | LsuIn(src: uint32, items: seq<Item>, routers: seq<RouterLsa>, networks: seq<NetworkLsa>)
    | LsAckIn(src: uint32, acks: seq<LsaHeader>)
    | Silent(ip: uint32)

  function Step(v: Iface, e: Event): Option<Iface> {
    match e
    case Up => Some(InterfaceUp(v))
    case WaitOver => WaitTimer(v)
    case HelloIn(h) => RecvHello(v, h)
    case DdIn(src, p, routers, networks, originated) =>
      if DdFaults(v, src, p, routers, networks) then None
      else Some(RecvDdFrom(v, src, p, routers, networks, originated))
    case LsrIn(src, rs, routers, networks) => RecvLsr(v, src, rs, routers, networks)
    case LsuIn(src, items, routers, networks) => RecvLsu(v, src, items, routers, networks)
    case LsAckIn(src, hs) => RecvLsAck(v, src, hs)
    case Silent(ip) => HelloTimeout(v, ip)
  }

  function Run(v: Iface, es: seq<Event>): Option<Iface> {
    if es == [] then Some(v)
    else
      match Run(v, es[..|es| - 1])
      case None => None
      case Some(w) => Step(w, es[|es| - 1])
  }

  /** Sources are real addresses and the headers in DD packets have types 1 to 5. */
  predicate Proper(e: Event) {
    && (e.HelloIn? ==> e.hello.source != 0)
    && (e.DdIn? ==> GoodTypes(e.packet.headers))
  }

  predicate Initial(v: Iface) {
    v.ip != 0 && v.state == IfDown && v.dr == 0 && v.bdr == 0 && v.neighbors == []
  }

  // ---------------------------------------------------------------------------
  // Elections and votes
  // ---------------------------------------------------------------------------

  lemma AdjOkKeepsVote(n: Nbr, adjacent: bool)
    ensures Votes(AdjOk(n, adjacent)) == Votes(n)
    ensures CandidateOf(AdjOk(n, adjacent)) == CandidateOf(n)
  {
  }

  /** Two neighbour lists with the same voters. */
  lemma {:induction false} SameVotes(ns: seq<Nbr>, ms: seq<Nbr>)
    requires |ns| == |ms|
    requires forall i :: 0 <= i < |ns| ==> Votes(ns[i]) == Votes(ms[i]) && CandidateOf(ns[i]) == CandidateOf(ms[i])
    ensures Candidates(ns) == Candidates(ms)
  {
    if ns != [] {
      SameVotes(ns[..|ns| - 1], ms[..|ms| - 1]);
    }
  }

  /** AdjOK? changes no one's eligibility to vote, so an election does not disturb its own input. */
  lemma AdjOkKeepsVoters(v: Iface)
    ensures Candidates(AdjOkAll(v).neighbors) == Candidates(v.neighbors)
  {
    forall i | 0 <= i < |v.neighbors|
      ensures Votes(AdjOkAll(v).neighbors[i]) == Votes(v.neighbors[i])
      ensures CandidateOf(AdjOkAll(v).neighbors[i]) == CandidateOf(v.neighbors[i])
    {
      AdjOkKeepsVote(v.neighbors[i], Adjacent(v, v.neighbors[i].ip));
    }
    SameVotes(AdjOkAll(v).neighbors, v.neighbors);
  }

  lemma {:induction false} CandidatesAreNeighbors(ns: seq<Nbr>, c: Candidate)
    requires c in Candidates(ns)
    ensures exists i :: 0 <= i < |ns| && c == CandidateOf(ns[i])
  {
    if c in Candidates(ns[..|ns| - 1]) {
      CandidatesAreNeighbors(ns[..|ns| - 1], c);
      var i :| 0 <= i < |ns| - 1 && c == CandidateOf(ns[..|ns| - 1][i]);
      assert ns[..|ns| - 1][i] == ns[i];
    }
  }

  lemma VotersAreProper(v: Iface)
    requires AddressesFine(v.ip, v.neighbors)
    ensures ProperOthers(SelfOf(v), Candidates(v.neighbors))
  {
    forall c | c in Candidates(v.neighbors)
      ensures c.ip != v.ip && c.ip != 0
    {
      CandidatesAreNeighbors(v.neighbors, c);
    }
  }

  /** AdjOK? establishes the adjacency rule for the roles it runs under, whatever held before. */
  lemma AdjOkRestores(n: Nbr, before: bool, after: bool)
    requires NbrFine(n, before)
    ensures NbrFine(AdjOk(n, after), after)
    ensures AdjOk(n, after).ip == n.ip
  {
  }

  lemma ElectionKeepsNeighbors(v: Iface)
    requires NeighborsFine(v) && CallElectionOn(v).Some?
    ensures NeighborsFine(CallElectionOn(v).value)
    ensures CallElectionOn(v).value.ip == v.ip
  {
    hide CallElection, HasCandidate, Candidates;
    var w := CallElectionOn(v).value;
    var o := CallElection(SelfOf(v), Belief(v), Candidates(v.neighbors));
    if o != Belief(v) {
      var u := v.(dr := o.dr, bdr := o.bdr);
      forall i | 0 <= i < |v.neighbors|
        ensures w.neighbors[i].ip == v.neighbors[i].ip
        ensures NbrFine(w.neighbors[i], Adjacent(w, w.neighbors[i].ip))
      {
        AdjOkRestores(v.neighbors[i], Adjacent(v, v.neighbors[i].ip), Adjacent(u, v.neighbors[i].ip));
      }
    }
  }

  lemma ElectKeepsFine(v: Iface)
    requires NeighborsFine(v) && Elect(v).Some?
    ensures Fine(Elect(v).value)
  {
    hide CallElectionOn;
    ElectionKeepsNeighbors(v);
    var w := CallElectionOn(v).value;
    var r := Elect(v).value;
    assert forall i :: 0 <= i < |r.neighbors| ==> Adjacent(r, r.neighbors[i].ip) == Adjacent(w, w.neighbors[i].ip);
  }

  lemma RaiseKeepsFine(v: Iface, s: Signal)
    requires Fine(v) && Raise(v, s).Some?
    ensures Fine(Raise(v, s).value)
  {
    hide Elect;
    if Raise(v, s) != Some(v) {
      ElectKeepsFine(v);
    }
  }

  // ---------------------------------------------------------------------------
  // Neighbours
  // ---------------------------------------------------------------------------

  lemma DdKeepsNbr(n: Nbr, env: DdEnv, p: DdPacket)
    requires NbrFine(n, env.adjacent) && GoodTypes(p.headers)
    ensures NbrFine(RecvDd(n, env, p), env.adjacent)
    ensures RecvDd(n, env, p).ip == n.ip
  {
    hide RecvDd, Accept, Entering;
    if Matched(n, env, p) {
      MatchedOutcome(n, env, p);
      EnteringIsAdjacent(n, env, p);
      AcceptKeepsNbr(Entering(AtDispatch(n, env, p), env, p), env, p);
    } else {
      UnmatchedKeepsNbr(n, env, p);
    }
  }

  lemma EnteringIsAdjacent(n: Nbr, env: DdEnv, p: DdPacket)
    requires NbrFine(n, env.adjacent) && Matched(n, env, p)
    ensures env.adjacent && Entering(AtDispatch(n, env, p), env, p).ip == n.ip
  {
    hide DatabaseSummary;
  }

  lemma AcceptKeepsNbr(m: Nbr, env: DdEnv, p: DdPacket)
    requires m.state == Exchange && env.adjacent && GoodTypes(p.headers)
    ensures NbrFine(Accept(m, env, p), env.adjacent) && Accept(m, env, p).ip == m.ip
  {
    hide WantedOf, NextPacket;
    AcceptGoodTypes(m, env, p);
  }

  lemma UnmatchedKeepsNbr(n: Nbr, env: DdEnv, p: DdPacket)
    requires NbrFine(n, env.adjacent) && !Matched(n, env, p)
    ensures NbrFine(RecvDd(n, env, p), env.adjacent)
    ensures RecvDd(n, env, p).ip == n.ip
  {
    hide RecvDd, Matched;
    UnmatchedOutcome(n, env, p);
  }

  /** Replacing one neighbour by one with the same address. */
  lemma ReplaceKeepsFine(v: Iface, k: nat, n: Nbr)
    requires Fine(v) && k < |v.neighbors|
    requires n.ip == v.neighbors[k].ip && NbrFine(n, Adjacent(v, n.ip))
    ensures Fine(v.(neighbors := v.neighbors[k := n]))
  {
    hide NbrFine;
    var w := v.(neighbors := v.neighbors[k := n]);
    forall i | 0 <= i < |w.neighbors|
      ensures NbrFine(w.neighbors[i], Adjacent(w, w.neighbors[i].ip))
    {
      assert Adjacent(w, w.neighbors[i].ip) == Adjacent(v, w.neighbors[i].ip);
    }
  }

  lemma WithNeighborKeepsFine(v: Iface, ip: uint32)
    requires Fine(v) && ip != 0 && ip != v.ip
    ensures Fine(WithNeighbor(v, ip))
  {
    var w := WithNeighbor(v, ip);
    assert forall i :: 0 <= i < |v.neighbors| ==> w.neighbors[i] == v.neighbors[i];
  }

  /** Addresses stay fine when the sender of a Hello is entered or updated. */
  lemma HelloAddresses(v: Iface, h: Hello, n: Nbr)
    requires AddressesFine(v.ip, v.neighbors) && h.source != 0 && h.source != v.ip && n.ip == h.source
    ensures var w := WithNeighbor(v, h.source); AddressesFine(v.ip, w.neighbors[IndexOf(w.neighbors, h.source) := n])
  {
    var w := WithNeighbor(v, h.source);
    assert forall i :: 0 <= i < |v.neighbors| ==> w.neighbors[i] == v.neighbors[i];
  }

  lemma AfterHelloIsFine(v: Iface, h: Hello)
    requires Fine(v) && h.source != 0 && h.source != v.ip
    ensures Fine(AfterHello(v, h))
  {
    WithNeighborKeepsFine(v, h.source);
    var w := WithNeighbor(v, h.source);
    var k := IndexOf(w.neighbors, h.source);
    ReplaceKeepsFine(w, k, AfterHello(v, h).neighbors[k]);
  }

  lemma HelloKeepsFine(v: Iface, h: Hello)
    requires Fine(v) && h.source != 0 && RecvHello(v, h).Some?
    ensures Fine(RecvHello(v, h).value)
  {
    hide Raise, SignalOf, AfterHello;
    if AcceptsHello(v, h) {
      AfterHelloIsFine(v, h);
      RaiseKeepsFine(AfterHello(v, h), SignalOf(v, h));
    }
  }

  lemma DdInKeepsFine(v: Iface, src: uint32, p: DdPacket, routers: seq<RouterLsa>, networks: seq<NetworkLsa>,
                      originated: seq<LsaHeader>)
    requires Fine(v) && GoodTypes(p.headers)
    ensures Fine(RecvDdFrom(v, src, p, routers, networks, originated))
  {
    hide RecvDd;
    var k := IndexOf(v.neighbors, src);
    if src != v.ip && k < |v.neighbors| {
      var n := RecvDd(v.neighbors[k], EnvFor(v, src, routers, networks), p);
      DdKeepsNbr(v.neighbors[k], EnvFor(v, src, routers, networks), p);
      ReplaceKeepsFine(v, k, n);
      QueueKeepsFine(v.(neighbors := v.neighbors[k := n]), originated);
    }
  }

  lemma QueueKeepsFine(v: Iface, hs: seq<LsaHeader>)
    requires Fine(v)
    ensures Fine(v.(neighbors := QueueOwn(v.neighbors, hs)))
  {
    var w := v.(neighbors := QueueOwn(v.neighbors, hs));
    forall i | 0 <= i < |w.neighbors|
      ensures NbrFine(w.neighbors[i], Adjacent(w, w.neighbors[i].ip))
    {
      assert NbrFine(v.neighbors[i], Adjacent(v, v.neighbors[i].ip));
    }
  }

  lemma LsuInKeepsFine(v: Iface, src: uint32, items: seq<Item>, routers: seq<RouterLsa>, networks: seq<NetworkLsa>)
    requires Fine(v) && RecvLsu(v, src, items, routers, networks).Some?
    ensures Fine(RecvLsu(v, src, items, routers, networks).value)
  {
    hide ReceiveLsu;
    var k := IndexOf(v.neighbors, src);
    if src != v.ip {
      var st := LsuStateOf(v, routers, networks);
      var w := RecvLsu(v, src, items, routers, networks).value;
      forall i | 0 <= i < |w.neighbors|
        ensures w.neighbors[i].ip == v.neighbors[i].ip
        ensures NbrFine(w.neighbors[i], Adjacent(w, w.neighbors[i].ip))
      {
        LsuChangesLists(st, k, items, i);
        assert NbrFine(v.neighbors[i], Adjacent(v, v.neighbors[i].ip));
      }
    }
  }

  lemma LsAckInKeepsFine(v: Iface, src: uint32, hs: seq<LsaHeader>)
    requires Fine(v) && RecvLsAck(v, src, hs).Some?
    ensures Fine(RecvLsAck(v, src, hs).value)
  {
    var k := IndexOf(v.neighbors, src);
    if src != v.ip && Rank(v.neighbors[k].state) >= Rank(Exchange) {
      var n := v.neighbors[k];
      ReplaceKeepsFine(v, k, n.(retransmissions := AcknowledgeAll(n.retransmissions, hs)));
    }
  }

  /** An election after a timeout that is defined has its candidate, and proper addresses. */
  lemma TimeoutCanElect(v: Iface, k: nat)
    requires AddressesFine(v.ip, v.neighbors)
    requires k < |v.neighbors| && IndexOf(v.neighbors, v.neighbors[k].ip) == k && v.neighbors[k].state != Down
    requires v.state == Dr || v.state == BackupDr || v.state == DrOther
    requires HelloTimeout(v, v.neighbors[k].ip).Some?
    ensures CanElect(Lapsed(v, k))
  {
    hide CallElection, Candidates;
    VotersAreProper(Lapsed(v, k));
  }

  lemma TimeoutKeepsFine(v: Iface, ip: uint32)
    requires Fine(v) && HelloTimeout(v, ip).Some?
    ensures Fine(HelloTimeout(v, ip).value)
  {
    hide NeighborChange;
    var k := IndexOf(v.neighbors, ip);
    if k < |v.neighbors| && v.neighbors[k].state != Down {
      var w := v.(neighbors := v.neighbors[k := InactivityTimer(v.neighbors[k])]);
      ReplaceKeepsFine(v, k, InactivityTimer(v.neighbors[k]));
      RaiseKeepsFine(w, ChangeSignal);
      assert Raise(w, ChangeSignal) == NeighborChange(w);
    }
  }

  lemma StepKeepsFine(v: Iface, e: Event)
    requires Fine(v) && Proper(e) && Step(v, e).Some?
    ensures Fine(Step(v, e).value)
  {
    hide RecvHello, RecvDdFrom, RecvLsu, RecvLsAck, HelloTimeout, Elect;
    match e {
      case Up => assert Step(v, e).value.neighbors == v.neighbors;
      case WaitOver => if v.state == Waiting { ElectKeepsFine(v); }
      case HelloIn(h) => HelloKeepsFine(v, h);
      case DdIn(src, p, routers, networks, originated) => DdInKeepsFine(v, src, p, routers, networks, originated);
      case LsrIn(src, rs, _, _) =>
        if Step(v, e) != Some(v) {
          var k := IndexOf(v.neighbors, src);
          ReplaceKeepsFine(v, k, BadLsReq(v.neighbors[k]));
        }
      case LsuIn(src, items, routers, networks) => LsuInKeepsFine(v, src, items, routers, networks);
      case LsAckIn(src, hs) => LsAckInKeepsFine(v, src, hs);
      case Silent(ip) => TimeoutKeepsFine(v, ip);
    }
  }

  /**
   * Over every defined run from a cold start: each neighbour in 2-Way or better is in ExStart or
   * better exactly when an adjacency with it is required; below Exchange its three lists are
   * empty; and the interface state is the role found by comparing its address with dr, then bdr.
   */
  lemma {:induction false} RunKeepsFine(v: Iface, es: seq<Event>)
    requires Initial(v) && (forall i :: 0 <= i < |es| ==> Proper(es[i]))
    requires Run(v, es).Some?
    ensures Fine(Run(v, es).value)
  {
    hide Step;
    if es != [] {
      RunKeepsFine(v, es[..|es| - 1]);
      StepKeepsFine(Run(v, es[..|es| - 1]).value, es[|es| - 1]);
    }
  }

  // ---------------------------------------------------------------------------
  // When a run is defined
  // ---------------------------------------------------------------------------

  /** A request, update or acknowledgement from an address without neighbour structure. */
  predicate FromStranger(v: Iface, e: Event) {
    && (e.LsrIn? || e.LsuIn? || e.LsAckIn?)
    && e.src != v.ip && IndexOf(v.neighbors, e.src) == |v.neighbors|
  }

  predicate InRole(v: Iface) {
    v.state == Dr || v.state == BackupDr || v.state == DrOther
  }

  /** The interface on which the event runs an election, if it does. */
  function BeforeElection(v: Iface, e: Event): Option<Iface> {
    match e
    case WaitOver => if v.state == Waiting then Some(v) else None
    case HelloIn(h) =>
      if AcceptsHello(v, h)
         && ((SignalOf(v, h) == ChangeSignal && InRole(v)) || (SignalOf(v, h) == BackupSignal && v.state == Waiting))
      then Some(AfterHello(v, h)) else None
    case Silent(ip) =>
      var k := IndexOf(v.neighbors, ip);
      if k < |v.neighbors| && v.neighbors[k].state != Down && InRole(v) then Some(Lapsed(v, k)) else None
    case _ => None
  }

  predicate NoVoters(ns: seq<Nbr>) {
    forall i :: 0 <= i < |ns| ==> !Votes(ns[i])
  }

  lemma {:induction false} NoCandidatesIff(ns: seq<Nbr>)
    ensures Candidates(ns) == [] <==> NoVoters(ns)
  {
    if ns != [] {
      NoCandidatesIff(ns[..|ns| - 1]);
      assert NoVoters(ns) <==> NoVoters(ns[..|ns| - 1]) && !Votes(ns[|ns| - 1]);
    }
  }

  lemma ElectFaultsIff(v: Iface)
    ensures Elect(v).None? <==> v.pri == 0 && NoVoters(v.neighbors)
    ensures Elect(v).Some? ==> Elect(v).value.pri == v.pri
  {
    hide CallElection, Candidates, NoVoters;
    NoCandidatesIff(v.neighbors);
  }

  /** A DD packet whose answer pops more headers than are left. */
  predicate PopsFromEmpty(v: Iface, e: Event) {
    && e.DdIn?
    && (var k := IndexOf(v.neighbors, e.src);
        && e.src != v.ip && k < |v.neighbors|
        && PopsTooMany(v.neighbors[k], EnvFor(v, e.src, e.routers, e.networks), e.packet))
  }

  lemma DdFaultsIff(n: Nbr, env: DdEnv, p: DdPacket)
    ensures RecvDd(Unfaulted(n), env, p).trace.popFault <==> PopsTooMany(n, env, p)
  {
    hide RecvDd, DatabaseSummary, GoodTypes;
    PopFaultIff(Unfaulted(n), env, p);
  }

  /**
   * A step leads to undefined behaviour if and only if it is a request, update or acknowledgement
   * from a stranger, or a DD packet whose answer pops more headers than are left, or it runs an
   * election on a router of priority 0 whose neighbours do not vote.
   */
  lemma StepFaultsIff(v: Iface, e: Event)
    ensures Step(v, e).None?
            <==> || FromStranger(v, e)
                 || PopsFromEmpty(v, e)
                 || (v.pri == 0 && BeforeElection(v, e).Some? && NoVoters(BeforeElection(v, e).value.neighbors))
    ensures Step(v, e).Some? ==> Step(v, e).value.pri == v.pri
  {
    hide Elect, RecvDd, ReceiveLsu, NoVoters, TwoWayReceived, OneWayReceived, SignalOf, BadLsReq, SomeUnanswerable, PopsTooMany;
    if BeforeElection(v, e).Some? {
      ElectFaultsIff(BeforeElection(v, e).value);
    }
    if e.DdIn? && IndexOf(v.neighbors, e.src) < |v.neighbors| {
      DdFaultsIff(v.neighbors[IndexOf(v.neighbors, e.src)], EnvFor(v, e.src, e.routers, e.networks), e.packet);
    }
  }

  /** A router of priority 0 dereferences a null pointer exactly when its last voter falls silent. */
  lemma LastVoterSilentIff(v: Iface, k: nat)
    requires v.pri == 0 && InRole(v)
    requires k < |v.neighbors| && IndexOf(v.neighbors, v.neighbors[k].ip) == k && v.neighbors[k].state != Down
    ensures Step(v, Silent(v.neighbors[k].ip)).None?
            <==> forall i :: 0 <= i < |v.neighbors| && i != k ==> !Votes(v.neighbors[i])
  {
    hide Step;
    StepFaultsIff(v, Silent(v.neighbors[k].ip));
    var ns := Lapsed(v, k).neighbors;
    assert forall i :: 0 <= i < |ns| && i != k ==> ns[i] == v.neighbors[i];
    assert !Votes(ns[k]);
  }

  // ---------------------------------------------------------------------------
  // Re-election on a live interface
  // ---------------------------------------------------------------------------

  /**
   * A second NeighborChange with nothing received in between leaves the interface and all its
   * neighbours untouched, except after the loss of the DR role described by
   * `LosesDrButWinsBackup`.
   */
  lemma RepeatedChangeIsIdempotentIff(v: Iface)
    requires NeighborsFine(v) && Elect(v).Some?
    ensures Elect(Elect(v).value) == Elect(v)
            <==> !LosesDrButWinsBackup(SelfOf(v), Belief(v), Candidates(v.neighbors))
  {
    hide CallElection, LosesDrButWinsBackup, HasCandidate, Candidates;
    var me, o, cs := SelfOf(v), Belief(v), Candidates(v.neighbors);
    var w := Elect(v).value;
    VotersAreProper(v);
    RerunIsStableIff(me, o, cs);
    var first := CallElection(me, o, cs);
    AdjOkKeepsVoters(v.(dr := first.dr, bdr := first.bdr));
    assert SelfOf(w) == me && Belief(w) == first && Candidates(w.neighbors) == cs;
  }

  // ---------------------------------------------------------------------------
  // Which Hellos matter
  // ---------------------------------------------------------------------------

  /** Changes section 9.2 of RFC 2328 lists for a neighbour that is already known. */
  predicate HelloChanged(pre: Nbr, n: Nbr) {
    || pre.pri != n.pri
    || (pre.dr == n.ip) != (n.dr == n.ip)
    || (pre.bdr == n.ip) != (n.bdr == n.ip)
  }

  /**
   * Outside Waiting a Hello raises NeighborChange exactly when its sender was not in Down and its
   * priority or one of its declarations changed. In particular a new 2-Way neighbour raises nothing.
   */
  lemma NeighborChangeIff(pre: Nbr, n: Nbr, isNew: bool)
    ensures HelloSignal(pre, n, isNew, false) == (if !isNew && HelloChanged(pre, n) then ChangeSignal else NoSignal)
  {
  }

  /** When section 9.2 calls for BackupSeen: a DR without backup, or a backup, declares itself. */
  predicate BackupSeenDue(n: Nbr) {
    (n.dr == n.ip && n.bdr == 0) || n.bdr == n.ip
  }

  /** An earlier branch of the dispatch takes the Hello. */
  predicate Shadowed(pre: Nbr, n: Nbr, isNew: bool) {
    !isNew && (pre.pri != n.pri || (n.bdr == n.ip && (pre.dr == n.ip) != (n.dr == n.ip)))
  }

  /** In Waiting the interface leaves its state on a Hello exactly when BackupSeen is due and not shadowed. */
  lemma WaitingEndsIff(v: Iface, pre: Nbr, n: Nbr, isNew: bool)
    requires v.state == Waiting && n.ip != 0 && n.ip != v.ip
    requires HasCandidate(SelfOf(v), Candidates(v.neighbors))
    ensures var r := Raise(v, HelloSignal(pre, n, isNew, true));
            r.Some? && (r.value.state != Waiting <==> BackupSeenDue(n) && !Shadowed(pre, n, isNew))
  {
    hide CallElection, Candidates;
  }

  // ---------------------------------------------------------------------------
  // What a run shows on the outside
  // ---------------------------------------------------------------------------

  /** Network types without an election. */
  predicate PointLike(kind: NetworkKind) {
    kind in {PointToPoint, PointToMultipoint, VirtualLink}
  }

  predicate StateFits(v: Iface) {
    if PointLike(v.kind) then v.state in {IfDown, PointToPointLink}
    else v.state in {IfDown, Waiting, DrOther, BackupDr, Dr} && (v.state == Waiting ==> v.pri != 0)
  }

  /** The configured part of an interface. */
  predicate SameConfiguration(v: Iface, w: Iface) {
    w.kind == v.kind && w.ip == v.ip && w.pri == v.pri && w.settings == v.settings
  }

  lemma ElectFits(v: Iface)
    requires StateFits(v) && !PointLike(v.kind) && Elect(v).Some?
    ensures StateFits(Elect(v).value) && SameConfiguration(v, Elect(v).value) && Elect(v).value.state != IfDown
  {
    hide CallElection, Candidates;
  }

  lemma OnlyNeighborsChange(v: Iface, h: Hello)
    ensures AfterHello(v, h) == v.(neighbors := AfterHello(v, h).neighbors)
  {
    hide IndexOf, TwoWayReceived, OneWayReceived;
  }

  lemma DdChangesNeighbors(v: Iface, src: uint32, p: DdPacket, routers: seq<RouterLsa>, networks: seq<NetworkLsa>,
                           originated: seq<LsaHeader>)
    ensures var r := RecvDdFrom(v, src, p, routers, networks, originated); r == v.(neighbors := r.neighbors)
  {
    hide RecvDd, IndexOf;
  }

  lemma StepFits(v: Iface, e: Event)
    requires StateFits(v) && Step(v, e).Some?
    ensures var w := Step(v, e).value;
            && StateFits(w) && SameConfiguration(v, w)
            && (w.state == IfDown <==> v.state == IfDown && e != Up)
  {
    hide Elect, RecvDdFrom, ReceiveLsu, AfterHello, SignalOf, BadLsReq, SomeUnanswerable, AcknowledgeAll, DdFaults;
    hide IndexOf, InactivityTimer;
    match e {
      case HelloIn(h) => OnlyNeighborsChange(v, h);
      case DdIn(src, p, routers, networks, originated) => DdChangesNeighbors(v, src, p, routers, networks, originated);
      case _ =>
    }
    if BeforeElection(v, e).Some? {
      var u := BeforeElection(v, e).value;
      if Elect(u).Some? { ElectFits(u); }
    }
  }

  /**
   * Over every run: the configuration stays; the interface is down until it is brought up and never
   * again; and its states are those of its network type, Waiting only for an eligible router.
   */
  lemma {:induction false} RunFits(v: Iface, es: seq<Event>)
    requires Initial(v) && Run(v, es).Some?
    ensures var w := Run(v, es).value; StateFits(w) && SameConfiguration(v, w) && (w.state == IfDown <==> Up !in es)
  {
    hide Step;
    if es != [] {
      RunFits(v, es[..|es| - 1]);
      StepFits(Run(v, es[..|es| - 1]).value, es[|es| - 1]);
      assert es == es[..|es| - 1] + [es[|es| - 1]];
    }
  }

  /**
   * Which neighbours a router synchronises with, over every run: of those in 2-Way or better, all on
   * network types without an election; elsewhere all if this router is DR or backup, exactly the DR
   * and the backup if it is neither, and none while it waits.
   */
  lemma AdjacenciesOverRuns(v: Iface, es: seq<Event>, i: nat)
    requires Initial(v) && (forall k :: 0 <= k < |es| ==> Proper(es[k])) && Run(v, es).Some?
    requires i < |Run(v, es).value.neighbors| && Rank(Run(v, es).value.neighbors[i].state) >= Rank(TwoWay)
    ensures var w := Run(v, es).value;
            var n := w.neighbors[i];
            n.state in {ExStart, Exchange, Loading, Full}
            <==> || w.kind in {PointToPoint, PointToMultipoint, VirtualLink}
                 || w.state in {Dr, BackupDr}
                 || (w.state == DrOther && (n.ip == w.dr || n.ip == w.bdr))
  {
    hide Run;
    RunKeepsFine(v, es);
    RunFits(v, es);
    assert NbrFine(Run(v, es).value.neighbors[i], Adjacent(Run(v, es).value, Run(v, es).value.neighbors[i].ip));
  }

  /** An election or its absence changes of a neighbour at most how far an adjacency has come. */
  ghost predicate SameButAdjacency(n: Nbr, m: Nbr) {
    && m.ip == n.ip && m.id == n.id && m.pri == n.pri && m.dr == n.dr && m.bdr == n.bdr && m.options == n.options
    && (Rank(n.state) >= Rank(TwoWay) <==> Rank(m.state) >= Rank(TwoWay))
    && (Rank(n.state) < Rank(TwoWay) ==> m == n)
  }

  lemma RaiseKeepsNeighbors(v: Iface, s: Signal)
    requires Raise(v, s).Some?
    ensures var w := Raise(v, s).value;
            && |w.neighbors| == |v.neighbors|
            && forall i :: 0 <= i < |v.neighbors| ==> SameButAdjacency(v.neighbors[i], w.neighbors[i])
  {
    hide CallElection, Candidates, HasCandidate;
  }

  /**
   * A Hello is heard if and only if it comes from elsewhere and agrees on options and intervals. Then
   * its sender is known with the fields it sent, and in 2-Way or better exactly if it lists this
   * router; otherwise nothing happens at all.
   */
  lemma HelloIsHeardIff(v: Iface, h: Hello)
    requires Fine(v) && h.source != 0 && RecvHello(v, h).Some?
    ensures var w := RecvHello(v, h).value;
            if h.source != v.ip && h.options == v.settings.options && h.helloInterval == v.settings.helloInterval
               && h.deadInterval == v.settings.deadInterval
            then
              var k := IndexOf(w.neighbors, h.source);
              && k < |w.neighbors|
              && (var n := w.neighbors[k];
                  && n.id == h.routerId && n.pri == h.pri && n.dr == h.dr && n.bdr == h.bdr && n.options == h.options
                  && (if v.settings.routerId in h.neighbors then n.state in {TwoWay, ExStart, Exchange, Loading, Full}
                      else n.state == Init))
            else w == v
  {
    hide AfterHello, Raise, SignalOf, Fine, IndexOf;
    if AcceptsHello(v, h) {
      var u, w := AfterHello(v, h), RecvHello(v, h).value;
      HeardFields(v, h);
      RaiseKeepsNeighbors(u, SignalOf(v, h));
      SameAddresses(u.neighbors, w.neighbors, h.source);
      var k := IndexOf(u.neighbors, h.source);
      assert SameButAdjacency(u.neighbors[k], w.neighbors[k]);
    }
  }

  lemma HeardFields(v: Iface, h: Hello)
    requires Fine(v) && h.source != 0 && AcceptsHello(v, h)
    ensures var u := AfterHello(v, h);
            var k := IndexOf(u.neighbors, h.source);
            && k < |u.neighbors|
            && (var n := u.neighbors[k];
                && n.id == h.routerId && n.pri == h.pri && n.dr == h.dr && n.bdr == h.bdr && n.options == h.options
                && (if v.settings.routerId in h.neighbors then Rank(n.state) >= Rank(TwoWay) else n.state == Init))
  {
    WithNeighborKeepsFine(v, h.source);
    var w, u := WithNeighbor(v, h.source), AfterHello(v, h);
    hide WithNeighbor, IndexOf, Adjacent;
    SameAddresses(w.neighbors, u.neighbors, h.source);
    assert NbrFine(w.neighbors[IndexOf(w.neighbors, h.source)], Adjacent(w, h.source));
  }

  lemma {:induction false} SameAddresses(ns: seq<Nbr>, ms: seq<Nbr>, ip: uint32)
    requires |ns| == |ms| && forall i :: 0 <= i < |ns| ==> ms[i].ip == ns[i].ip
    ensures IndexOf(ms, ip) == IndexOf(ns, ip)
  {
    if ns != [] && ns[0].ip != ip {
      SameAddresses(ns[1..], ms[1..], ip);
    }
  }

  /**
   * A neighbour that falls silent is Down with empty lists, keeps no vote, and a second silence of it
   * changes nothing.
   */
  lemma SilenceForgets(v: Iface, ip: uint32)
    requires IndexOf(v.neighbors, ip) < |v.neighbors| && v.neighbors[IndexOf(v.neighbors, ip)].state != Down
    requires HelloTimeout(v, ip).Some?
    ensures var w := HelloTimeout(v, ip).value;
            var k := IndexOf(v.neighbors, ip);
            && |w.neighbors| == |v.neighbors|
            && w.neighbors[k].state == Down && ListsEmpty(w.neighbors[k])
            && HelloTimeout(w, ip) == Some(w)
            && (forall i :: 0 <= i < |v.neighbors| && i != k ==> SameButAdjacency(v.neighbors[i], w.neighbors[i]))
  {
    hide Raise;
    var k := IndexOf(v.neighbors, ip);
    var u, w := Lapsed(v, k), HelloTimeout(v, ip).value;
    ChangeIsNeighborChange(u);
    hide NeighborChange;
    RaiseKeepsNeighbors(u, ChangeSignal);
    assert SameButAdjacency(u.neighbors[k], w.neighbors[k]);
    SameAddresses(v.neighbors, w.neighbors, ip);
  }

  lemma ChangeIsNeighborChange(v: Iface)
    ensures Raise(v, ChangeSignal) == NeighborChange(v)
  {
  }

  /**
   * When a neighbour reaches Full the new own LSAs are queued behind what is queued already, for all
   * neighbours in Full, it included, and for nobody else; no other DD packet touches any other neighbour.
   */
  lemma OwnLsasAreQueuedForFull(v: Iface, src: uint32, p: DdPacket, routers: seq<RouterLsa>, networks: seq<NetworkLsa>,
                                originated: seq<LsaHeader>, i: nat)
    requires src != v.ip && IndexOf(v.neighbors, src) < |v.neighbors| && i < |v.neighbors|
    ensures var k := IndexOf(v.neighbors, src);
            var n := RecvDd(v.neighbors[k], EnvFor(v, src, routers, networks), p);
            var before := if i == k then n else v.neighbors[i];
            RecvDdFrom(v, src, p, routers, networks, originated).neighbors[i]
            == if n.state == Full && v.neighbors[k].state != Full && before.state == Full
               then before.(retransmissions := before.retransmissions + originated) else before
  {
    hide RecvDd;
  }

  /**
   * A request packet from a neighbour in Exchange or later sends it back to ExStart with empty lists
   * exactly when there is no reply; otherwise, and from any other neighbour, nothing changes.
   */
  lemma RequestRestartsIff(v: Iface, src: uint32, rs: seq<LsRequest>, routers: seq<RouterLsa>, networks: seq<NetworkLsa>, i: nat)
    requires src != v.ip && IndexOf(v.neighbors, src) < |v.neighbors| && i < |v.neighbors|
    ensures var r := RecvLsr(v, src, rs, routers, networks);
            && r.Some? && |r.value.neighbors| == |v.neighbors| && Belief(r.value) == Belief(v) && r.value.state == v.state
            && (var n, m := v.neighbors[i], r.value.neighbors[i];
                if i == IndexOf(v.neighbors, src) && n.state in {Exchange, Loading, Full} && ReplyTo(rs, routers, networks).None?
                then && m.state == ExStart && ListsEmpty(m) && m.ip == n.ip && m.id == n.id
                     && m.ddSeqNum == n.ddSeqNum && m.lastSend == n.lastSend
                else m == n)
  {
    hide SomeUnanswerable, IndexOf, ReplyTo;
    ReplyIsCompleteIff(rs, routers, networks);
  }

  /**
   * The opening packet of a neighbour in ExStart: the higher router id is master. A neighbour with the
   * higher one gets a reply with this router's options, and the list built for it is this router's
   * database; any other one's opening packet is only remembered.
   */
  lemma OpeningSettlesRoles(v: Iface, src: uint32, p: DdPacket, routers: seq<RouterLsa>, networks: seq<NetworkLsa>,
                            originated: seq<LsaHeader>)
    requires src != v.ip && IndexOf(v.neighbors, src) < |v.neighbors|
    requires v.neighbors[IndexOf(v.neighbors, src)].state == ExStart && p.i && p.m && p.ms && p.headers == []
    ensures var k := IndexOf(v.neighbors, src);
            var n, m := v.neighbors[k], RecvDdFrom(v, src, p, routers, networks, originated).neighbors[k];
            if n.id > v.settings.routerId then
              && m.state == Exchange && m.isMaster && m.ddSeqNum == p.seqNum
              && m.lastSend.Some? && m.lastSend.value.options == v.settings.options && m.lastSend.value.seqNum == p.seqNum
              && |m.trace.built| == |routers| + |networks|
              && (forall i :: 0 <= i < |routers| ==> m.trace.built[i] == routers[i].header)
              && (forall i :: 0 <= i < |networks| ==> m.trace.built[|routers| + i] == networks[i].header)
            else m == n.(lastRecv := DdId(p.seqNum, true, true, true), options := p.options)
  {
    hide RecvDd, DatabaseSummary, IndexOf;
    var n, env := v.neighbors[IndexOf(v.neighbors, src)], EnvFor(v, src, routers, networks);
    if n.id > v.settings.routerId {
      MatchedOutcome(n, env, p);
      MatchedReply(n, env, p);
      SlaveEnters(n, env, p);
      forall i: nat | i < |routers| + |networks|
        ensures |DatabaseSummary(env)| == |routers| + |networks|
        ensures DatabaseSummary(env)[i] == if i < |routers| then routers[i].header else networks[i - |routers|].header
      {
        SummaryAt(env, i);
      }
      SummaryLength(env);
    } else {
      OpeningIgnored(n, env, p);
    }
  }

  lemma SlaveEnters(n: Nbr, env: DdEnv, p: DdPacket)
    requires n.state == ExStart && p.i && p.m && p.ms && p.headers == [] && n.id > env.routerId
    ensures var r := RecvDd(n, env, p);
            r.state == Exchange && r.isMaster && r.ddSeqNum == p.seqNum && r.trace.built == DatabaseSummary(env)
  {
    hide DatabaseSummary, WantedOf, NextPacket;
    MatchedOutcome(n, env, p);
    AcceptGoodTypes(Entering(AtDispatch(n, env, p), env, p), env, p);
  }

  lemma OpeningIgnored(n: Nbr, env: DdEnv, p: DdPacket)
    requires n.state == ExStart && p.i && n.id <= env.routerId
    ensures RecvDd(n, env, p) == n.(lastRecv := DdId(p.seqNum, p.i, p.m, p.ms), options := p.options)
  {
  }

  /**
   * The answer to an instance accepted from a neighbour, read off the interface: it goes back out if
   * flooding queued it for some neighbour, the sender is neither DR nor backup and this router is not
   * the backup; else it is acknowledged, by a backup only to the DR.
   */
  lemma AcceptedIsAnsweredBy(v: Iface, routers: seq<RouterLsa>, networks: seq<NetworkLsa>, at: nat, item: Item)
    requires at < |v.neighbors|
    requires PassesTests(v.neighbors, item) && IsNews(LsuStateOf(v, routers, networks), item.advert)
    ensures var r, h, src := ReceiveLsa(LsuStateOf(v, routers, networks), at, item), HeaderOf(item.advert), v.neighbors[at].ip;
            && (r.flooded == [h] <==>
                  && (exists i :: 0 <= i < |v.neighbors|
                        && FloodTo(v.neighbors[i], h, v.neighbors[i].ip == src).retransmissions
                           == v.neighbors[i].retransmissions + [h])
                  && src != v.dr && src != v.bdr && v.state != BackupDr)
            && (r.acks == [h] <==> r.flooded != [h] && (v.state == BackupDr ==> src == v.dr))
  {
    hide PassesTests, IsNews, FloodTo, FloodAll, Queues;
    var st, h := LsuStateOf(v, routers, networks), HeaderOf(item.advert);
    FloodedBackIff(st, at, item);
    assert st.flooded + [h] == [h] && st.acks + [h] == [h];
  }

  /** A whole update packet on the interface: an accepted instance clears its key from every neighbour's list. */
  lemma UpdateClearsKey(v: Iface, src: uint32, item: Item, routers: seq<RouterLsa>, networks: seq<NetworkLsa>, i: nat)
    requires src != v.ip && IndexOf(v.neighbors, src) < |v.neighbors| && i < |v.neighbors|
    requires PassesTests(v.neighbors, item) && IsNews(LsuStateOf(v, routers, networks), item.advert)
    ensures var r, k := RecvLsu(v, src, [item], routers, networks), KeyOf(HeaderOf(item.advert));
            && r.Some? && |r.value.neighbors| == |v.neighbors|
            && Collected(v.neighbors[i].retransmissions, h => DiffersFrom(h, k), h => h, r.value.neighbors[i].retransmissions)
  {
    hide PassesTests, IsNews, ReceiveLsa, Collected, IndexOf;
    var st, at := LsuStateOf(v, routers, networks), IndexOf(v.neighbors, src);
    AcceptedClearsKey(st, at, item, i);
    assert [item][..0] == [];
    assert ReceiveLsu(st, at, []) == st;
    assert ReceiveLsu(st, at, [item]) == ReceiveLsa(st, at, item);
  }

  /**
   * An acknowledgement packet takes from its sender's list exactly the entries that it names, if that
   * neighbour is in Exchange or later and has no entry twice; nothing else changes.
   */
  lemma AcksAreTaken(v: Iface, src: uint32, hs: seq<LsaHeader>, i: nat)
    requires src != v.ip && IndexOf(v.neighbors, src) < |v.neighbors| && i < |v.neighbors|
    requires DistinctEntries(v.neighbors[i].retransmissions)
    ensures var r := RecvLsAck(v, src, hs);
            && r.Some? && |r.value.neighbors| == |v.neighbors|
            && (var n, m := v.neighbors[i], r.value.neighbors[i];
                && m == n.(retransmissions := m.retransmissions)
                && if i == IndexOf(v.neighbors, src) && n.state in {Exchange, Loading, Full}
                   then forall x :: x in m.retransmissions
                                    <==> x in n.retransmissions && forall j :: 0 <= j < |hs| ==> !Acknowledges(hs[j], x)
                   else m == n)
  {
    hide AcknowledgeAll, Acknowledges, DistinctEntries, IndexOf;
    AcknowledgedLeave(v.neighbors[i].retransmissions, hs);
  }

  /** A router ignores its own packets. */
  lemma OwnPacketsAreIgnored(v: Iface, e: Event)
    requires match e
             case HelloIn(h) => h.source == v.ip
             case DdIn(src, _, _, _, _) => src == v.ip
             case LsrIn(src, _, _, _) => src == v.ip
             case LsuIn(src, _, _, _) => src == v.ip
             case LsAckIn(src, _) => src == v.ip
             case _ => false
    ensures Step(v, e) == Some(v)
  {
    hide RecvDd, ReceiveLsu, IndexOf, AfterHello;
  }
}
