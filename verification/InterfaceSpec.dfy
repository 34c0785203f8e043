/**
 * The interface machine, its neighbours and the packets it receives as functions on values
 * (src/interface.cpp, and the dispatch of the receive thread in src/ospf.cpp). `None` stands for
 * undefined behaviour: a null Designated Router dereferenced by an election without candidates, a
 * failed assertion, or a pop from an empty list.
 */
module InterfaceSpec {
  import opened Basics
  import opened Lsa
  import opened Lsdb
  import opened NeighborSpec
  import opened Election
  import opened LsuSpec
  import opened Lists

  datatype NetworkKind = PointToPoint | Broadcast | Nbma | PointToMultipoint | VirtualLink

  datatype InterfaceState = IfDown | Loopback | Waiting | PointToPointLink | DrOther | BackupDr | Dr

  /** The configuration an interface reads. */
  datatype Settings = Settings(routerId: uint32, options: uint8, helloInterval: uint16, deadInterval: uint32)

  datatype Iface = Iface(
    kind: NetworkKind, state: InterfaceState, ip: uint32, pri: uint32, dr: uint32, bdr: uint32,
    neighbors: seq<Nbr>, settings: Settings)

  /** Section 10.4 of RFC 2328. */
  predicate NeedsAdjacency(kind: NetworkKind, ip: uint32, dr: uint32, bdr: uint32, peer: uint32) {
    || kind == PointToPoint || kind == PointToMultipoint || kind == VirtualLink
    || dr == ip || bdr == ip || dr == peer || bdr == peer
  }

  predicate Adjacent(v: Iface, peer: uint32) {
    NeedsAdjacency(v.kind, v.ip, v.dr, v.bdr, peer)
  }

  // ---------------------------------------------------------------------------
  // Elections
  // ---------------------------------------------------------------------------

  /** Eligible to vote: 2-Way or better and of nonzero priority. */
  predicate Votes(n: Nbr) {
    Rank(n.state) >= Rank(TwoWay) && n.pri != 0
  }

  function CandidateOf(n: Nbr): Candidate {
    Candidate(n.id, n.ip, n.pri, n.dr, n.bdr)
  }

  function Candidates(ns: seq<Nbr>): seq<Candidate> {
    if ns == [] then []
    else Candidates(ns[..|ns| - 1]) + (if Votes(ns[|ns| - 1]) then [CandidateOf(ns[|ns| - 1])] else [])
  }

  /** The candidates of an election are the neighbours in 2-Way or better of nonzero priority, in list order. */
  lemma {:induction false} CandidatesCollected(ns: seq<Nbr>)
    ensures Collected(ns, n => MayVote(n), (n: Nbr) => Candidate(n.id, n.ip, n.pri, n.dr, n.bdr), Candidates(ns))
  {
    hide Collected;
    if ns == [] {
      NothingCollected((n: Nbr) => MayVote(n), (n: Nbr) => Candidate(n.id, n.ip, n.pri, n.dr, n.bdr));
    } else {
      CandidatesCollected(ns[..|ns| - 1]);
      OneMoreCollected(ns, n => MayVote(n), (n: Nbr) => Candidate(n.id, n.ip, n.pri, n.dr, n.bdr), Candidates(ns[..|ns| - 1]));
    }
  }

  predicate MayVote(n: Nbr) {
    n.state in {TwoWay, ExStart, Exchange, Loading, Full} && n.pri > 0
  }

  function SelfOf(v: Iface): Self {
    Self(v.settings.routerId, v.ip, v.pri)
  }

  function Belief(v: Iface): Outcome {
    Outcome(v.dr, v.bdr)
  }

  /** AdjOK? on every neighbour. */
  function AdjOkAll(v: Iface): (r: Iface)
    ensures |r.neighbors| == |v.neighbors|
    ensures forall i :: 0 <= i < |v.neighbors| ==> r.neighbors[i] == AdjOk(v.neighbors[i], Adjacent(v, v.neighbors[i].ip))
  {
    v.(neighbors := seq(|v.neighbors|, i requires 0 <= i < |v.neighbors| =>
                          AdjOk(v.neighbors[i], Adjacent(v, v.neighbors[i].ip))))
  }

  /** An election has a candidate, and neighbours' addresses are real and not ours. */
  ghost predicate CanElect(v: Iface) {
    ProperOthers(SelfOf(v), Candidates(v.neighbors)) && HasCandidate(SelfOf(v), Candidates(v.neighbors))
  }

  function CallElectionOn(v: Iface): Option<Iface> {
    if !HasCandidate(SelfOf(v), Candidates(v.neighbors)) then None
    else
      var o := CallElection(SelfOf(v), Belief(v), Candidates(v.neighbors));
      Some(if o == Belief(v) then v else AdjOkAll(v.(dr := o.dr, bdr := o.bdr)))
  }

  /** The interface state for a router that plays the roles it believes in. */
  function RoleState(ip: uint32, dr: uint32, bdr: uint32): InterfaceState {
    if ip == dr then Dr else if ip == bdr then BackupDr else DrOther
  }

  function Elect(v: Iface): Option<Iface> {
    match CallElectionOn(v)
    case None => None
    case Some(w) => Some(w.(state := RoleState(w.ip, w.dr, w.bdr)))
  }

  // ---------------------------------------------------------------------------
  // Interface events
  // ---------------------------------------------------------------------------

  function InterfaceUp(v: Iface): Iface {
    if v.state != IfDown then v
    else if v.kind == PointToPoint || v.kind == PointToMultipoint || v.kind == VirtualLink then
      v.(state := PointToPointLink)
    else v.(state := if v.pri != 0 then Waiting else DrOther)
  }

  function WaitTimer(v: Iface): Option<Iface> {
    if v.state == Waiting then Elect(v) else Some(v)
  }

  function BackupSeen(v: Iface): Option<Iface> {
    if v.state == Waiting then Elect(v) else Some(v)
  }

  function NeighborChange(v: Iface): Option<Iface> {
    if v.state == Dr || v.state == BackupDr || v.state == DrOther then Elect(v) else Some(v)
  }

  // ---------------------------------------------------------------------------
  // Packets
  // ---------------------------------------------------------------------------

  /** `find_neighbor`: the first position with the address, or the end. */
  function IndexOf(ns: seq<Nbr>, ip: uint32): (k: nat)
    ensures k <= |ns|
    ensures k < |ns| ==> ns[k].ip == ip
    ensures forall i :: 0 <= i < k ==> ns[i].ip != ip
  {
    if ns == [] || ns[0].ip == ip then 0 else 1 + IndexOf(ns[1..], ip)
  }

  datatype Hello = Hello(
    source: uint32, routerId: uint32, options: uint8, helloInterval: uint16, deadInterval: uint32,
    pri: uint8, dr: uint32, bdr: uint32, neighbors: seq<uint32>)

  datatype Signal = NoSignal | ChangeSignal | BackupSignal

  /**
   * Which interface event a Hello raises: `pre` is the neighbour before its Hello fields are taken
   * over, `n` after, `isNew` whether it was in state Down.
   */
  function HelloSignal(pre: Nbr, n: Nbr, isNew: bool, waiting: bool): Signal {
    if pre.pri != n.pri && !isNew then ChangeSignal
    else if n.dr == n.ip && n.bdr == 0 && waiting then BackupSignal
    else if pre.dr != n.ip && n.dr == n.ip && !isNew then ChangeSignal
    else if pre.dr == n.ip && n.dr != n.ip && !isNew then ChangeSignal
    else if n.bdr == n.ip && waiting then BackupSignal
    else if pre.bdr != n.ip && n.bdr == n.ip && !isNew then ChangeSignal
    else if pre.bdr == n.ip && n.bdr != n.ip && !isNew then ChangeSignal
    else NoSignal
  }

  function Raise(v: Iface, s: Signal): Option<Iface> {
    match s
    case NoSignal => Some(v)
    case ChangeSignal => NeighborChange(v)
    case BackupSignal => BackupSeen(v)
  }

  lemma NoSignalNoEvent(v: Iface)
    ensures Raise(v, NoSignal) == Some(v)
  {
  }

  /** The address and interval tests on a Hello packet. */
  predicate AcceptsHello(v: Iface, h: Hello) {
    && h.source != v.ip
    && h.options == v.settings.options
    && h.helloInterval == v.settings.helloInterval
    && h.deadInterval == v.settings.deadInterval
  }

  /** The interface with the sender in its list, created in state Down if it is new. */
  function WithNeighbor(v: Iface, ip: uint32): (r: Iface)
    ensures IndexOf(r.neighbors, ip) < |r.neighbors|
  {
    if IndexOf(v.neighbors, ip) < |v.neighbors| then v
    else
      IndexOfAppended(v.neighbors, NewNbr(ip));
      v.(neighbors := v.neighbors + [NewNbr(ip)])
  }

  lemma IndexOfAppended(ns: seq<Nbr>, n: Nbr)
    ensures IndexOf(ns + [n], n.ip) < |ns + [n]|
  {
    assert (ns + [n])[|ns|] == n;
    IndexOfReaches(ns + [n], |ns|);
  }

  lemma {:induction false} IndexOfReaches(ns: seq<Nbr>, i: nat)
    requires i < |ns|
    ensures IndexOf(ns, ns[i].ip) <= i
  {
    if ns[0].ip != ns[i].ip {
      IndexOfReaches(ns[1..], i - 1);
    }
  }

  /** A neighbour that takes over the fields of a Hello. */
  function TakeHello(n: Nbr, h: Hello): Nbr {
    n.(id := h.routerId, dr := h.dr, bdr := h.bdr, pri := h.pri, options := h.options)
  }

  /** The interface once the sender's structure has seen the Hello. */
  function AfterHello(v: Iface, h: Hello): (r: Iface)
    ensures |r.neighbors| == |WithNeighbor(v, h.source).neighbors|
  {
    var w := WithNeighbor(v, h.source);
    var k := IndexOf(w.neighbors, h.source);
    var n := TakeHello(HelloReceived(w.neighbors[k]), h);
    w.(neighbors := w.neighbors[k := if w.settings.routerId in h.neighbors then TwoWayReceived(n, Adjacent(w, n.ip))
                                     else OneWayReceived(n)])
  }

  /** The event that follows; a Hello that does not list us raises none. */
  function SignalOf(v: Iface, h: Hello): Signal {
    var w := WithNeighbor(v, h.source);
    var k := IndexOf(w.neighbors, h.source);
    if w.settings.routerId in h.neighbors then
      HelloSignal(HelloReceived(w.neighbors[k]), AfterHello(v, h).neighbors[k], w.neighbors[k].state == Down, w.state == Waiting)
    else NoSignal
  }

  function RecvHello(v: Iface, h: Hello): Option<Iface> {
    if AcceptsHello(v, h) then Raise(AfterHello(v, h), SignalOf(v, h)) else Some(v)
  }

  /** The environment in which a neighbour's DD packet is processed. */
  function EnvFor(v: Iface, peer: uint32, routers: seq<RouterLsa>, networks: seq<NetworkLsa>): DdEnv {
    DdEnv(v.settings.routerId, v.settings.options, Adjacent(v, peer), routers, networks)
  }

  /** `update_lsas` as far as neighbours are concerned: new own LSAs are queued for everyone in Full. */
  function QueueOwn(ns: seq<Nbr>, hs: seq<LsaHeader>): (r: seq<Nbr>)
    ensures |r| == |ns|
    ensures forall i :: 0 <= i < |ns| ==> r[i] == QueueFor(ns[i], hs)
  {
    seq(|ns|, i requires 0 <= i < |ns| => QueueFor(ns[i], hs))
  }

  function QueueFor(n: Nbr, hs: seq<LsaHeader>): Nbr {
    if n.state == Full then n.(retransmissions := n.retransmissions + hs) else n
  }

  /**
   * A DD packet. A neighbour that reaches Full triggers the origination of own LSAs, whose
   * headers are `originated`.
   */
  function RecvDdFrom(v: Iface, src: uint32, p: DdPacket, routers: seq<RouterLsa>, networks: seq<NetworkLsa>,
                      originated: seq<LsaHeader>): Iface {
    var k := IndexOf(v.neighbors, src);
    if src == v.ip || k == |v.neighbors| then v
    else
      var n := RecvDd(v.neighbors[k], EnvFor(v, src, routers, networks), p);
      var ns := v.neighbors[k := n];
      v.(neighbors := if n.state == Full && v.neighbors[k].state != Full then QueueOwn(ns, originated) else ns)
  }

  function Unfaulted(n: Nbr): Nbr {
    n.(trace := n.trace.(popFault := false))
  }

  /** The packet makes its neighbour's structure pop from an empty summary list, which is undefined. */
  predicate DdFaults(v: Iface, src: uint32, p: DdPacket, routers: seq<RouterLsa>, networks: seq<NetworkLsa>) {
    var k := IndexOf(v.neighbors, src);
    && src != v.ip && k < |v.neighbors|
    && RecvDd(Unfaulted(v.neighbors[k]), EnvFor(v, src, routers, networks), p).trace.popFault
  }

  datatype LsRequest = LsRequest(lsType: uint32, key: Key)

  /** A request for a router or network LSA that the database does not hold. */
  predicate Unanswerable(r: LsRequest, routers: seq<RouterLsa>, networks: seq<NetworkLsa>) {
    || (r.lsType == LSA_ROUTER && Find(routers, r.key).None?)
    || (r.lsType == LSA_NETWORK && Find(networks, r.key).None?)
  }

  predicate SomeUnanswerable(rs: seq<LsRequest>, routers: seq<RouterLsa>, networks: seq<NetworkLsa>) {
    exists i :: 0 <= i < |rs| && Unanswerable(rs[i], routers, networks)
  }

  /** The stored LSA a request asks for. */
  function AnswerTo(r: LsRequest, routers: seq<RouterLsa>, networks: seq<NetworkLsa>): seq<Advert> {
    if r.lsType == LSA_ROUTER && Find(routers, r.key).Some? then [RouterAdvert(Find(routers, r.key).value)]
    else if r.lsType == LSA_NETWORK && Find(networks, r.key).Some? then [NetworkAdvert(Find(networks, r.key).value)]
    else []
  }

  /** The reply to a request packet: all answers in order, or nothing when one LSA is missing. */
  function ReplyTo(rs: seq<LsRequest>, routers: seq<RouterLsa>, networks: seq<NetworkLsa>): Option<seq<Advert>> {
    if rs == [] then Some([])
    else
      var front, r := ReplyTo(rs[..|rs| - 1], routers, networks), rs[|rs| - 1];
      if front.None? || Unanswerable(r, routers, networks) then None
      else Some(front.value + AnswerTo(r, routers, networks))
  }

  /** Nothing after a missing LSA is looked at. */
  lemma {:induction false} NoReplyStays(rs: seq<LsRequest>, i: nat, routers: seq<RouterLsa>, networks: seq<NetworkLsa>)
    requires i <= |rs| && ReplyTo(rs[..i], routers, networks).None?
    ensures ReplyTo(rs, routers, networks).None?
  {
    if i == |rs| {
      assert rs[..i] == rs;
    } else {
      assert rs[..|rs| - 1][..i] == rs[..i];
      NoReplyStays(rs[..|rs| - 1], i, routers, networks);
    }
  }

  predicate Answerable(r: LsRequest) {
    r.lsType == LSA_ROUTER || r.lsType == LSA_NETWORK
  }

  /**
   * There is no reply exactly when some LSA is missing. The reply announces one LSA per request and
   * carries as many exactly when all requests are for router or network LSAs.
   */
  lemma {:induction false} ReplyIsCompleteIff(rs: seq<LsRequest>, routers: seq<RouterLsa>, networks: seq<NetworkLsa>)
    ensures var reply := ReplyTo(rs, routers, networks);
            && (reply.None? <==> SomeUnanswerable(rs, routers, networks))
            && (reply.Some? ==> |reply.value| <= |rs|)
            && (reply.Some? ==> (|reply.value| == |rs| <==> forall i :: 0 <= i < |rs| ==> Answerable(rs[i])))
  {
    if rs != [] {
      var front, r := rs[..|rs| - 1], rs[|rs| - 1];
      ReplyIsCompleteIff(front, routers, networks);
      if SomeUnanswerable(front, routers, networks) {
        var i :| 0 <= i < |front| && Unanswerable(front[i], routers, networks);
        assert Unanswerable(rs[i], routers, networks);
      }
      assert (forall i :: 0 <= i < |rs| ==> Answerable(rs[i]))
        <==> (forall i :: 0 <= i < |front| ==> Answerable(front[i])) && Answerable(r);
    }
  }

  /** The advertisement is the stored one of the requested type and key. */
  ghost predicate Answers(a: Advert, r: LsRequest, routers: seq<RouterLsa>, networks: seq<NetworkLsa>) {
    match a
    case RouterAdvert(l) => r.lsType == 1 && FirstWith(routers, r.key, l)
    case NetworkAdvert(l) => r.lsType == 2 && FirstWith(networks, r.key, l)
    case OtherAdvert(_) => false
  }

  lemma AnswerAnswers(r: LsRequest, routers: seq<RouterLsa>, networks: seq<NetworkLsa>)
    requires !Unanswerable(r, routers, networks)
    ensures var answer := AnswerTo(r, routers, networks);
            if Answerable(r) then |answer| == 1 && Answers(answer[0], r, routers, networks) else answer == []
  {
    if r.lsType == LSA_ROUTER { FindIsFirst(routers, r.key); }
    if r.lsType == LSA_NETWORK { FindIsFirst(networks, r.key); }
  }

  /** The requests for router and network LSAs. */
  function AnswerableOf(rs: seq<LsRequest>): seq<LsRequest> {
    if rs == [] then []
    else AnswerableOf(rs[..|rs| - 1]) + (if Answerable(rs[|rs| - 1]) then [rs[|rs| - 1]] else [])
  }

  lemma {:induction false} AnswerableCollected(rs: seq<LsRequest>)
    ensures Collected(rs, (r: LsRequest) => r.lsType == 1 || r.lsType == 2, r => r, AnswerableOf(rs))
  {
    hide Collected;
    if rs == [] {
      NothingCollected((r: LsRequest) => r.lsType == 1 || r.lsType == 2, (r: LsRequest) => r);
    } else {
      AnswerableCollected(rs[..|rs| - 1]);
      OneMoreCollected(rs, (r: LsRequest) => r.lsType == 1 || r.lsType == 2, r => r, AnswerableOf(rs[..|rs| - 1]));
    }
  }

  /**
   * If there is a reply, its advertisements are, one by one and in order, the stored LSAs of the type
   * and key that the requests for router and network LSAs name.
   */
  lemma {:induction false} ReplyAnswers(rs: seq<LsRequest>, routers: seq<RouterLsa>, networks: seq<NetworkLsa>)
    requires ReplyTo(rs, routers, networks).Some?
    ensures var reply, asked := ReplyTo(rs, routers, networks).value, AnswerableOf(rs);
            && |reply| == |asked|
            && forall i :: 0 <= i < |asked| ==> Answers(reply[i], asked[i], routers, networks)
  {
    hide Answers, AnswerTo, Unanswerable, Answerable;
    if rs != [] {
      ReplyAnswers(rs[..|rs| - 1], routers, networks);
      AnswerAnswers(rs[|rs| - 1], routers, networks);
    }
  }

  /** A request packet: its effect on the neighbour. */
  function RecvLsr(v: Iface, src: uint32, rs: seq<LsRequest>, routers: seq<RouterLsa>, networks: seq<NetworkLsa>): Option<Iface> {
    var k := IndexOf(v.neighbors, src);
    if src == v.ip then Some(v)
    else if k == |v.neighbors| then None
    else if Rank(v.neighbors[k].state) >= Rank(Exchange) && SomeUnanswerable(rs, routers, networks) then
      Some(v.(neighbors := v.neighbors[k := BadLsReq(v.neighbors[k])]))
    else Some(v)
  }

  /** What an update packet meets on this interface. */
  function LsuStateOf(v: Iface, routers: seq<RouterLsa>, networks: seq<NetworkLsa>): LsuState {
    LsuState(v.neighbors, routers, networks, false, Receiver(v.state == BackupDr, v.dr, v.bdr), [], [])
  }

  /** An update packet: the neighbours' part of the state after it. */
  function RecvLsu(v: Iface, src: uint32, items: seq<Item>, routers: seq<RouterLsa>, networks: seq<NetworkLsa>): Option<Iface> {
    var k := IndexOf(v.neighbors, src);
    if src == v.ip then Some(v)
    else if k == |v.neighbors| then None
    else Some(v.(neighbors := ReceiveLsu(LsuStateOf(v, routers, networks), k, items).neighbors))
  }

  /** `find_if` and `erase` on a retransmission list; here the type is compared too. */
  function Acknowledge(list: seq<LsaHeader>, h: LsaHeader): seq<LsaHeader> {
    if list == [] then []
    else if list[0].lsType == h.lsType && KeyOf(list[0]) == KeyOf(h) then list[1..]
    else [list[0]] + Acknowledge(list[1..], h)
  }

  function AcknowledgeAll(list: seq<LsaHeader>, hs: seq<LsaHeader>): seq<LsaHeader> {
    if hs == [] then list else Acknowledge(AcknowledgeAll(list, hs[..|hs| - 1]), hs[|hs| - 1])
  }

  predicate Acknowledges(h: LsaHeader, x: LsaHeader) {
    x.lsType == h.lsType && x.linkStateId == h.linkStateId && x.advRouter == h.advRouter
  }

  /** One header removes the first entry of its type and key, and nothing else. */
  lemma {:induction false} AcknowledgeExact(list: seq<LsaHeader>, h: LsaHeader, p: nat)
    requires p <= |list| && (forall q :: 0 <= q < p ==> !Acknowledges(h, list[q])) && (p < |list| ==> Acknowledges(h, list[p]))
    ensures Acknowledge(list, h) == if p < |list| then list[..p] + list[p + 1..] else list
  {
    if p > 0 {
      AcknowledgeExact(list[1..], h, p - 1);
      if p < |list| { assert [list[0]] + (list[1..][..p - 1] + list[1..][p..]) == list[..p] + list[p + 1..]; }
    }
  }

  /** No two entries of one type and key. */
  predicate DistinctEntries(list: seq<LsaHeader>) {
    forall i, j :: 0 <= i < j < |list| ==> !Acknowledges(list[i], list[j])
  }

  lemma DropKeepsDistinct(list: seq<LsaHeader>, p: nat)
    requires DistinctEntries(list) && p < |list|
    ensures DistinctEntries(list[..p] + list[p + 1..])
  {
  }

  lemma AcknowledgeKeepsDistinct(list: seq<LsaHeader>, h: LsaHeader)
    requires DistinctEntries(list)
    ensures DistinctEntries(Acknowledge(list, h))
  {
    hide DistinctEntries, Acknowledge;
    var p := FirstAcknowledged(list, h);
    AcknowledgeExact(list, h, p);
    if p < |list| { DropKeepsDistinct(list, p); }
  }

  lemma {:induction false} AcknowledgeMembers(list: seq<LsaHeader>, h: LsaHeader)
    requires DistinctEntries(list)
    ensures forall x :: x in Acknowledge(list, h) <==> x in list && !Acknowledges(h, x)
  {
    if list != [] {
      assert list == [list[0]] + list[1..];
      if Acknowledges(h, list[0]) {
        forall x | x in list[1..]
          ensures !Acknowledges(h, x)
        {
          var q :| 0 <= q < |list| - 1 && list[1..][q] == x;
          assert list[q + 1] == x;
        }
      } else {
        AcknowledgeMembers(list[1..], h);
      }
    }
  }

  lemma {:induction false} FirstAcknowledged(list: seq<LsaHeader>, h: LsaHeader) returns (p: nat)
    ensures p <= |list| && (forall q :: 0 <= q < p ==> !Acknowledges(h, list[q])) && (p < |list| ==> Acknowledges(h, list[p]))
  {
    if list == [] || Acknowledges(h, list[0]) {
      p := 0;
    } else {
      p := FirstAcknowledged(list[1..], h);
      p := p + 1;
    }
  }

  /** What stays queued after an acknowledgement packet: exactly the entries that none of its headers names. */
  lemma {:induction false} AcknowledgedLeave(list: seq<LsaHeader>, hs: seq<LsaHeader>)
    requires DistinctEntries(list)
    ensures DistinctEntries(AcknowledgeAll(list, hs))
    ensures forall x :: x in AcknowledgeAll(list, hs)
                        <==> x in list && forall i :: 0 <= i < |hs| ==> !Acknowledges(hs[i], x)
  {
    hide Acknowledge, Acknowledges, DistinctEntries;
    if hs != [] {
      var n := |hs| - 1;
      AcknowledgedLeave(list, hs[..n]);
      AcknowledgeKeepsDistinct(AcknowledgeAll(list, hs[..n]), hs[n]);
      AcknowledgeMembers(AcknowledgeAll(list, hs[..n]), hs[n]);
      assert forall x :: ((forall i :: 0 <= i < |hs| ==> !Acknowledges(hs[i], x))
                          <==> (forall i :: 0 <= i < n ==> !Acknowledges(hs[..n][i], x)) && !Acknowledges(hs[n], x));
    }
  }

  function RecvLsAck(v: Iface, src: uint32, hs: seq<LsaHeader>): Option<Iface> {
    var k := IndexOf(v.neighbors, src);
    if src == v.ip then Some(v)
    else if k == |v.neighbors| then None
    else if Rank(v.neighbors[k].state) < Rank(Exchange) then Some(v)
    else
      var n := v.neighbors[k];
      Some(v.(neighbors := v.neighbors[k := n.(retransmissions := AcknowledgeAll(n.retransmissions, hs))]))
  }

  /** The interface after the inactivity timer of one neighbour. */
  function Lapsed(v: Iface, k: nat): Iface
    requires k < |v.neighbors|
  {
    v.(neighbors := v.neighbors[k := InactivityTimer(v.neighbors[k])])
  }

  /** No Hello for too long from a neighbour that is not Down. */
  function HelloTimeout(v: Iface, ip: uint32): Option<Iface> {
    var k := IndexOf(v.neighbors, ip);
    if k == |v.neighbors| || v.neighbors[k].state == Down then Some(v)
    else NeighborChange(Lapsed(v, k))
  }
}
