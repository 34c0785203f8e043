/**
 * The neighbour machine and the Database Description exchange as functions on values: sections
 * 10.3, 10.6 and 10.8 of RFC 2328 as implemented in src/neighbor.cpp and src/ospf.cpp.
 */
module NeighborSpec {
  import opened Basics
  import opened Lsa
  import opened Lsdb
  import opened Lists

  datatype NeighborState = Down | Attempt | Init | TwoWay | ExStart | Exchange | Loading | Full

  function Rank(s: NeighborState): nat {
    match s
    case Down => 0
    case Attempt => 1
    case Init => 2
    case TwoWay => 3
    case ExStart => 4
    case Exchange => 5
    case Loading => 6
    case Full => 7
  }

  /** A Database Description packet; the interface MTU is never inspected and left out. */
  datatype DdPacket = DdPacket(options: uint8, i: bool, m: bool, ms: bool, seqNum: uint32, headers: seq<LsaHeader>)

  /** The part of the last received packet that is remembered to recognise a repetition. */
  datatype DdId = DdId(seqNum: uint32, i: bool, m: bool, ms: bool)

  function IdOf(p: DdPacket): DdId {
    DdId(p.seqNum, p.i, p.m, p.ms)
  }

  const NO_DD_ID: DdId := DdId(0, false, false, false)

  /** Bytes of a Database Description body: 8 of its own header, 20 for each LSA header. */
  function DataLen(p: DdPacket): int {
    8 + 20 * |p.headers|
  }

  /**
   * What happened so far, none of it read by the code: data packets sent, how many of them before
   * the last NegotiationDone, and since then the list built, the headers acknowledged, the packets
   * matched and the headers they carried.
   */
  datatype Trace = Trace(
    sent: seq<DdPacket>, since: nat, built: seq<LsaHeader>, acked: seq<LsaHeader>, processed: seq<LsaHeader>,
    matched: nat, mismatches: nat, popFault: bool)

  const NO_TRACE: Trace := Trace([], 0, [], [], [], 0, 0, false)

  /** A neighbour structure. `lastSend` is `None` when the stored packet length is zero. */
  datatype Nbr = Nbr(
    ip: uint32, id: uint32, pri: uint32, options: uint8, dr: uint32, bdr: uint32,
    state: NeighborState, isMaster: bool, ddSeqNum: uint32, lastRecv: DdId, lastSend: Option<DdPacket>,
    retransmissions: seq<LsaHeader>, summary: seq<LsaHeader>, requests: seq<LsaHeader>, trace: Trace)

  function NewNbr(ip: uint32): Nbr {
    Nbr(ip, 0, 0, 2, 0, 0, Down, false, 0, NO_DD_ID, None, [], [], [], NO_TRACE)
  }

  function ClearLists(n: Nbr): Nbr {
    n.(retransmissions := [], summary := [], requests := [])
  }

  predicate ListsEmpty(n: Nbr) {
    n.retransmissions == [] && n.summary == [] && n.requests == []
  }

  // ---------------------------------------------------------------------------
  // Events
  // ---------------------------------------------------------------------------

  function HelloReceived(n: Nbr): Nbr {
    if n.state == Down then n.(state := Init, dr := 0, bdr := 0, pri := 0) else n
  }

  /** Entry into ExStart with all Database Description fields reset. */
  function StartNegotiation(n: Nbr): Nbr {
    n.(state := ExStart, isMaster := true, ddSeqNum := 0, lastRecv := NO_DD_ID, lastSend := None)
  }

  function TwoWayReceived(n: Nbr, adjacent: bool): Nbr {
    if n.state != Init then n
    else if adjacent then StartNegotiation(n)
    else n.(state := TwoWay)
  }

  function OneWayReceived(n: Nbr): Nbr {
    if Rank(n.state) >= Rank(TwoWay) then ClearLists(n).(state := Init) else n
  }

  function AdjOk(n: Nbr, adjacent: bool): Nbr {
    if n.state == TwoWay then (if adjacent then StartNegotiation(n) else n)
    else if Rank(n.state) >= Rank(ExStart) then (if adjacent then n else ClearLists(n).(state := TwoWay))
    else n
  }

  /** The headers of a vector of advertisements, in order. */
  function Headers<B>(v: seq<Lsa<B>>): (hs: seq<LsaHeader>)
    ensures |hs| == |v|
  {
    if v == [] then [] else Headers(v[..|v| - 1]) + [v[|v| - 1].header]
  }

  function DatabaseSummary(env: DdEnv): seq<LsaHeader> {
    Headers(env.routers) + Headers(env.networks)
  }

  lemma {:induction false} HeadersAt<B>(v: seq<Lsa<B>>, i: nat)
    requires i < |v|
    ensures Headers(v)[i] == v[i].header
  {
    if i < |v| - 1 {
      HeadersAt(v[..|v| - 1], i);
    }
  }

  /** The summary list describes every stored LSA: the router vector first, then the network vector, each in order. */
  lemma SummaryAt(env: DdEnv, i: nat)
    requires i < |env.routers| + |env.networks|
    ensures |DatabaseSummary(env)| == |env.routers| + |env.networks|
    ensures DatabaseSummary(env)[i]
         == if i < |env.routers| then env.routers[i].header else env.networks[i - |env.routers|].header
  {
    if i < |env.routers| { HeadersAt(env.routers, i); } else { HeadersAt(env.networks, i - |env.routers|); }
  }

  lemma SummaryLength(env: DdEnv)
    ensures |DatabaseSummary(env)| == |env.routers| + |env.networks|
  {
  }

  function NegotiationDone(n: Nbr, env: DdEnv): Nbr {
    if n.state != ExStart then n
    else
      var list := DatabaseSummary(env);
      n.(state := Exchange, summary := list,
         trace := n.trace.(since := |n.trace.sent|, built := list, acked := [], processed := [], matched := 0))
  }

  /** Back to ExStart from any later state. The stored last packet and its length stay. */
  function Renegotiate(n: Nbr): Nbr {
    if Rank(n.state) >= Rank(Exchange) then ClearLists(n).(state := ExStart) else n
  }

  function SeqNumberMismatch(n: Nbr): Nbr {
    Renegotiate(n).(trace := n.trace.(mismatches := n.trace.mismatches + 1))
  }

  function BadLsReq(n: Nbr): Nbr {
    Renegotiate(n)
  }

  /** The test on the request list is disabled in the code, so the exchange ends in Full. */
  function ExchangeDone(n: Nbr): Nbr {
    if n.state == Exchange then n.(state := Full) else n
  }

  function LoadingDone(n: Nbr): Nbr {
    if n.state == Loading then n.(state := Full) else n
  }

  function InactivityTimer(n: Nbr): Nbr {
    ClearLists(n).(state := Down)
  }

  // ---------------------------------------------------------------------------
  // Database Description packets
  // ---------------------------------------------------------------------------

  /** What processing a packet reads from outside the neighbour structure. */
  datatype DdEnv = DdEnv(routerId: uint32, options: uint8, adjacent: bool, routers: seq<RouterLsa>, networks: seq<NetworkLsa>)

  predicate GoodType(h: LsaHeader) {
    1 <= h.lsType <= 5
  }

  predicate GoodTypes(hs: seq<LsaHeader>) {
    forall i :: 0 <= i < |hs| ==> GoodType(hs[i])
  }

  /** The type check: every header outside 1..5 raises SeqNumberMismatch, and the loop goes on. */
  function CheckTypes(n: Nbr, hs: seq<LsaHeader>): Nbr {
    if hs == [] then n
    else
      var r := CheckTypes(n, hs[..|hs| - 1]);
      if GoodType(hs[|hs| - 1]) then r else SeqNumberMismatch(r)
  }

  /**
   * Whether a described instance is requested: it is absent from the database or newer there.
   * The second test of the code looks at the age field, not at the type.
   */
  predicate Wanted(env: DdEnv, h: LsaHeader) {
    if h.lsType == LSA_ROUTER then Supersedes(env.routers, h)
    else h.age == LSA_NETWORK && Supersedes(env.networks, h)
  }

  function WantedOf(env: DdEnv, hs: seq<LsaHeader>): seq<LsaHeader> {
    if hs == [] then []
    else WantedOf(env, hs[..|hs| - 1]) + (if Wanted(env, hs[|hs| - 1]) then [hs[|hs| - 1]] else [])
  }

  function Min(a: int, b: int): int {
    if a <= b then a else b
  }

  /** Number of headers the last sent packet carried. */
  function SentCount(n: Nbr): nat {
    if n.lastSend.Some? then |n.lastSend.value.headers| else 0
  }

  /** Headers as they leave the host. */
  function OnWire(hs: seq<LsaHeader>): (r: seq<LsaHeader>)
    ensures |r| == |hs|
  {
    if hs == [] then [] else OnWire(hs[..|hs| - 1]) + [WithoutAge(hs[|hs| - 1])]
  }

  lemma {:induction false} OnWireConcat(a: seq<LsaHeader>, b: seq<LsaHeader>)
    ensures OnWire(a + b) == OnWire(a) + OnWire(b)
  {
    if b == [] {
      assert a + b == a;
    } else {
      assert (a + b)[..|a + b| - 1] == a + b[..|b| - 1];
      OnWireConcat(a, b[..|b| - 1]);
    }
  }

  lemma {:induction false} OnWireTypes(hs: seq<LsaHeader>)
    requires GoodTypes(hs)
    ensures GoodTypes(OnWire(hs))
  {
    if hs != [] {
      OnWireTypes(hs[..|hs| - 1]);
    }
  }

  /** The next data packet for a list: as many headers as fit 1024 bytes (50), M set when some are left. */
  function NextPacket(options: uint8, toMaster: bool, seqNum: uint32, list: seq<LsaHeader>): DdPacket {
    DdPacket(options, false, |list| > 50, !toMaster, seqNum, OnWire(list[..Min(|list|, 50)]))
  }

  function Resend(n: Nbr): Nbr {
    if n.lastSend.Some? then n.(trace := n.trace.(sent := n.trace.sent + [n.lastSend.value])) else n
  }

  /** The sequence number after a match, before the reply. */
  function Accepted(n: Nbr, p: DdPacket): uint32 {
    if n.isMaster then p.seqNum else n.ddSeqNum
  }

  /**
   * The part after the type check: request what is missing, drop what the peer has acknowledged,
   * finish the exchange when both sides have nothing more, and reply. Popping an empty list is
   * undefined in the code and recorded as a fault.
   */
  function Answer(n: Nbr, env: DdEnv, p: DdPacket): Nbr {
    var k := Min(SentCount(n), |n.summary|);
    var rest := n.summary[k..];
    var seqNum := if n.isMaster then n.ddSeqNum else Next32(n.ddSeqNum);
    var reply := NextPacket(env.options, n.isMaster, seqNum, rest);
    n.(state := if n.state == Exchange && !p.m && rest == [] then Full else n.state,
       ddSeqNum := seqNum,
       lastSend := Some(reply),
       summary := rest,
       requests := n.requests + WantedOf(env, p.headers),
       trace := Trace(n.trace.sent + [reply], n.trace.since, n.trace.built, n.trace.acked + n.summary[..k],
                      n.trace.processed + p.headers, n.trace.matched + 1, n.trace.mismatches,
                      n.trace.popFault || SentCount(n) > |n.summary|))
  }

  /** A packet whose sequence number matches. */
  function Accept(n: Nbr, env: DdEnv, p: DdPacket): Nbr {
    Answer(CheckTypes(n.(ddSeqNum := Accepted(n, p)), p.headers), env, p)
  }

  /** In ExStart: the peer opens the exchange as master. */
  predicate PeerOpens(n: Nbr, env: DdEnv, p: DdPacket) {
    p.i && p.m && p.ms && n.id > env.routerId
  }

  /** In ExStart: the peer acknowledges this router as master. */
  predicate PeerFollows(n: Nbr, env: DdEnv, p: DdPacket) {
    !p.i && !p.ms && p.seqNum == n.ddSeqNum && n.id < env.routerId
  }

  /** In Exchange: the expected next packet. */
  predicate InSequence(n: Nbr, p: DdPacket) {
    !p.i && (if n.isMaster then p.ms && p.seqNum == Next32(n.ddSeqNum) else !p.ms && p.seqNum == n.ddSeqNum)
  }

  /** The structure with which a matched packet is processed: in ExStart the roles are settled first. */
  function Entering(n: Nbr, env: DdEnv, p: DdPacket): Nbr {
    if n.state != ExStart then n
    else if PeerOpens(n, env, p) then NegotiationDone(n.(isMaster := true, ddSeqNum := p.seqNum), env)
    else NegotiationDone(n.(isMaster := false), env)
  }

  /** The state dispatch of the receive path, entered once the last-received fields are updated. */
  function Dispatch(n: Nbr, env: DdEnv, p: DdPacket, duplicate: bool): Nbr {
    match n.state
    case Down => n
    case Attempt => n
    case Init => n
    case TwoWay => n
    case ExStart =>
      if PeerOpens(n, env, p) || PeerFollows(n, env, p) then Accept(Entering(n, env, p), env, p) else n
    case Exchange =>
      if duplicate then (if n.isMaster then Resend(n) else n)
      else if InSequence(n, p) then Accept(Entering(n, env, p), env, p)
      else SeqNumberMismatch(n)
    case Loading => if duplicate && n.isMaster then Resend(n) else n
    case Full => if duplicate && n.isMaster then Resend(n) else n
  }

  /** The whole DD branch for one packet. */
  function RecvDd(n: Nbr, env: DdEnv, p: DdPacket): Nbr {
    Dispatch(AtDispatch(n, env, p), env, p, IdOf(p) == n.lastRecv)
  }

  /** The structure when the dispatch starts: packet remembered, Init possibly left. */
  function AtDispatch(n: Nbr, env: DdEnv, p: DdPacket): Nbr {
    var n1 := n.(lastRecv := IdOf(p), options := p.options);
    if n1.state == Init then TwoWayReceived(n1, env.adjacent) else n1
  }

  /** The packet is processed, rather than ignored, answered with a repetition or rejected. */
  predicate Matched(n: Nbr, env: DdEnv, p: DdPacket) {
    var d := AtDispatch(n, env, p);
    || (d.state == ExStart && (PeerOpens(d, env, p) || PeerFollows(d, env, p)))
    || (d.state == Exchange && IdOf(p) != n.lastRecv && InSequence(d, p))
  }

  /** A matched packet goes through `Accept` in state Exchange. */
  lemma MatchedOutcome(n: Nbr, env: DdEnv, p: DdPacket)
    requires Matched(n, env, p)
    ensures var d := AtDispatch(n, env, p);
            && RecvDd(n, env, p) == Accept(Entering(d, env, p), env, p)
            && Entering(d, env, p).state == Exchange
            && (d.state == Exchange ==> n.state == Exchange && d == n.(lastRecv := IdOf(p), options := p.options))
  {
  }

  /** Any other packet is ignored, answered by a repetition, or raises SeqNumberMismatch. */
  lemma UnmatchedOutcome(n: Nbr, env: DdEnv, p: DdPacket)
    requires !Matched(n, env, p)
    ensures var d := AtDispatch(n, env, p);
            || RecvDd(n, env, p) == d
            || (RecvDd(n, env, p) == Resend(d) && Rank(n.state) >= Rank(Exchange))
            || (RecvDd(n, env, p) == SeqNumberMismatch(d) && n.state == Exchange)
  {
  }

  /** Reversal of the octets of a 32-bit word. */
  function ByteSwap32(x: uint32): uint32 {
    x % 0x100 * 0x100_0000 + x / 0x100 % 0x100 * 0x1_0000 + x / 0x1_0000 % 0x100 * 0x100 + x / 0x100_0000
  }

  lemma SwapReverses(a: uint8, b: uint8, c: uint8, d: uint8)
    ensures ByteSwap32(a as int * 0x100_0000 + b as int * 0x1_0000 + c as int * 0x100 + d)
         == d as int * 0x100_0000 + c as int * 0x1_0000 + b as int * 0x100 + a
  {
    var x: uint32 := a as int * 0x100_0000 + b as int * 0x1_0000 + c as int * 0x100 + d;
    var q3, q2 := a as int * 0x1_0000 + b as int * 0x100 + c, a as int * 0x100 + b;
    LastOctet(x, q3, d);
    LastOctet(q3, q2, c);
    LastOctet(q2, a, b);
    Quotients(x);
  }

  lemma LastOctet(x: nat, q: nat, r: uint8)
    requires x == q * 0x100 + r
    ensures x / 0x100 == q && x % 0x100 == r
  {
  }

  lemma Quotients(x: nat)
    ensures x / 0x1_0000 == x / 0x100 / 0x100 && x / 0x100_0000 == x / 0x100 / 0x100 / 0x100
  {
  }

  /** The packet of the ExStart sender; its sequence number is stored without conversion. */
  function EmptyDd(n: Nbr): DdPacket {
    DdPacket(2, true, true, true, ByteSwap32(n.ddSeqNum), [])
  }

  // ---------------------------------------------------------------------------
  // Request-list exactness
  // ---------------------------------------------------------------------------

  /** A described router instance that this database lacks or holds older. */
  predicate MissingRouter(env: DdEnv, h: LsaHeader) {
    h.lsType == LSA_ROUTER
    && (Find(env.routers, KeyOf(h)).None? || Newer(h, Find(env.routers, KeyOf(h)).value.header))
  }

  /** The router headers of a list that satisfy the test, in order. */
  function MissingRoutersOf(env: DdEnv, hs: seq<LsaHeader>): seq<LsaHeader> {
    if hs == [] then []
    else MissingRoutersOf(env, hs[..|hs| - 1]) + (if MissingRouter(env, hs[|hs| - 1]) then [hs[|hs| - 1]] else [])
  }

  /** A described network instance that this database lacks or holds older. */
  predicate MissingNetwork(env: DdEnv, h: LsaHeader) {
    h.lsType == LSA_NETWORK
    && (Find(env.networks, KeyOf(h)).None? || Newer(h, Find(env.networks, KeyOf(h)).value.header))
  }

  /** What section 10.6 of RFC 2328 asks to be requested, of the two types the database stores. */
  predicate Missing(env: DdEnv, h: LsaHeader) {
    MissingRouter(env, h) || MissingNetwork(env, h)
  }

  function MissingOf(env: DdEnv, hs: seq<LsaHeader>): seq<LsaHeader> {
    if hs == [] then []
    else MissingOf(env, hs[..|hs| - 1]) + (if Missing(env, hs[|hs| - 1]) then [hs[|hs| - 1]] else [])
  }

  /** The three lists hold exactly the headers that pass their test, in order and each occurrence once. */
  lemma {:induction false} RequestsAreCollected(env: DdEnv, hs: seq<LsaHeader>)
    ensures Collected(hs, h => Wanted(env, h), h => h, WantedOf(env, hs))
    ensures Collected(hs, h => MissingRouter(env, h), h => h, MissingRoutersOf(env, hs))
    ensures Collected(hs, h => Missing(env, h), h => h, MissingOf(env, hs))
  {
    hide Wanted, Missing, MissingRouter, Collected;
    if hs == [] {
      NothingCollected((h: LsaHeader) => Wanted(env, h), (h: LsaHeader) => h);
      NothingCollected((h: LsaHeader) => MissingRouter(env, h), (h: LsaHeader) => h);
      NothingCollected((h: LsaHeader) => Missing(env, h), (h: LsaHeader) => h);
    } else {
      RequestsAreCollected(env, hs[..|hs| - 1]);
      OneMoreCollected(hs, h => Wanted(env, h), h => h, WantedOf(env, hs[..|hs| - 1]));
      OneMoreCollected(hs, h => MissingRouter(env, h), h => h, MissingRoutersOf(env, hs[..|hs| - 1]));
      OneMoreCollected(hs, h => Missing(env, h), h => h, MissingOf(env, hs[..|hs| - 1]));
    }
  }

  /** News to the network vector, with type and age fields that disagree on its being a network LSA. */
  predicate Misread(env: DdEnv, h: LsaHeader) {
    h.lsType != LSA_ROUTER && Supersedes(env.networks, h) && (h.lsType == LSA_NETWORK) != (h.age == LSA_NETWORK)
  }

  lemma {:induction false} WantedMember(env: DdEnv, hs: seq<LsaHeader>, h: LsaHeader)
    ensures h in WantedOf(env, hs) <==> h in hs && Wanted(env, h)
    ensures h in MissingOf(env, hs) <==> h in hs && Missing(env, h)
    ensures h in MissingRoutersOf(env, hs) <==> h in hs && MissingRouter(env, h)
  {
    if hs != [] {
      WantedMember(env, hs[..|hs| - 1], h);
      assert hs == hs[..|hs| - 1] + [hs[|hs| - 1]];
    }
  }

  lemma {:induction false} SameWhenNoneMisread(env: DdEnv, hs: seq<LsaHeader>)
    requires forall i :: 0 <= i < |hs| ==> !Misread(env, hs[i])
    ensures WantedOf(env, hs) == MissingOf(env, hs)
  {
    if hs != [] {
      SameWhenNoneMisread(env, hs[..|hs| - 1]);
      assert !Misread(env, hs[|hs| - 1]);
    }
  }

  /** A packet's headers are requested exactly as the standard asks if and only if none is misread. */
  lemma WantedIsMissingIff(env: DdEnv, hs: seq<LsaHeader>)
    ensures WantedOf(env, hs) == MissingOf(env, hs) <==> forall i :: 0 <= i < |hs| ==> !Misread(env, hs[i])
  {
    if forall i :: 0 <= i < |hs| ==> !Misread(env, hs[i]) {
      SameWhenNoneMisread(env, hs);
    } else {
      var i :| 0 <= i < |hs| && Misread(env, hs[i]);
      WantedMember(env, hs, hs[i]);
    }
  }

  lemma {:induction false} OnWireAt(hs: seq<LsaHeader>, i: nat)
    requires i < |hs|
    ensures OnWire(hs)[i] == WithoutAge(hs[i])
  {
    if i < |hs| - 1 {
      OnWireAt(hs[..|hs| - 1], i);
    }
  }

  /** Of headers that arrive from another router of this kind, only router LSAs are ever requested. */
  lemma {:induction false} OnWireWanted(env: DdEnv, hs: seq<LsaHeader>)
    ensures WantedOf(env, OnWire(hs)) == MissingRoutersOf(env, OnWire(hs))
  {
    if hs != [] {
      OnWireWanted(env, hs[..|hs| - 1]);
      assert OnWire(hs)[..|hs| - 1] == OnWire(hs[..|hs| - 1]);
    }
  }

  /** The router part of a request list. */
  function RoutersIn(hs: seq<LsaHeader>): seq<LsaHeader> {
    if hs == [] then []
    else RoutersIn(hs[..|hs| - 1]) + (if hs[|hs| - 1].lsType == LSA_ROUTER then [hs[|hs| - 1]] else [])
  }

  lemma {:induction false} RoutersInConcat(a: seq<LsaHeader>, b: seq<LsaHeader>)
    ensures RoutersIn(a + b) == RoutersIn(a) + RoutersIn(b)
  {
    if b == [] {
      assert a + b == a;
    } else {
      assert (a + b)[..|a + b| - 1] == a + b[..|b| - 1];
      RoutersInConcat(a, b[..|b| - 1]);
    }
  }

  lemma {:induction false} WantedRouters(env: DdEnv, hs: seq<LsaHeader>)
    ensures RoutersIn(WantedOf(env, hs)) == MissingRoutersOf(env, hs)
  {
    if hs != [] {
      var front, l := hs[..|hs| - 1], hs[|hs| - 1];
      WantedRouters(env, front);
      RoutersInConcat(WantedOf(env, front), if Wanted(env, l) then [l] else []);
      assert [l][..0] == [];
    }
  }

  lemma {:induction false} WantedConcat(env: DdEnv, a: seq<LsaHeader>, b: seq<LsaHeader>)
    ensures WantedOf(env, a + b) == WantedOf(env, a) + WantedOf(env, b)
  {
    if b == [] {
      assert a + b == a;
    } else {
      assert (a + b)[..|a + b| - 1] == a + b[..|b| - 1];
      WantedConcat(env, a, b[..|b| - 1]);
    }
  }

  lemma {:induction false} GoodTypesPass(n: Nbr, hs: seq<LsaHeader>)
    requires GoodTypes(hs)
    ensures CheckTypes(n, hs) == n
  {
    if hs != [] {
      GoodTypesPass(n, hs[..|hs| - 1]);
    }
  }

  /**
   * For a matched packet with valid types the router part of the request list grows, in order, by
   * exactly the router headers that are absent from the database or newer than the stored copy. The
   * whole list grows by exactly the missing router and network headers if and only if no header
   * is misread. Any other packet appends nothing.
   */
  lemma RequestsAreExact(n: Nbr, env: DdEnv, p: DdPacket)
    requires GoodTypes(p.headers)
    ensures var r := RecvDd(n, env, p);
            if Matched(n, env, p)
            then && RoutersIn(r.requests) == RoutersIn(n.requests) + MissingRoutersOf(env, p.headers)
                 && (r.requests == n.requests + MissingOf(env, p.headers)
                     <==> forall i :: 0 <= i < |p.headers| ==> !Misread(env, p.headers[i]))
                 && r.trace.mismatches == n.trace.mismatches
            else r.requests == (if r.trace.mismatches == n.trace.mismatches then n.requests else [])
  {
    if Matched(n, env, p) {
      MatchedOutcome(n, env, p);
      AcceptRequests(Entering(AtDispatch(n, env, p), env, p), env, p);
      RoutersInConcat(n.requests, WantedOf(env, p.headers));
      WantedRouters(env, p.headers);
      WantedIsMissingIff(env, p.headers);
      SameTail(n.requests, WantedOf(env, p.headers), MissingOf(env, p.headers));
    } else {
      UnmatchedOutcome(n, env, p);
    }
  }

  lemma SameTail<T>(a: seq<T>, b: seq<T>, c: seq<T>)
    ensures a + b == a + c <==> b == c
  {
    if a + b == a + c {
      assert b == (a + b)[|a|..] == (a + c)[|a|..] == c;
    }
  }

  lemma AcceptGoodTypes(n: Nbr, env: DdEnv, p: DdPacket)
    requires GoodTypes(p.headers)
    ensures Accept(n, env, p) == Answer(n.(ddSeqNum := Accepted(n, p)), env, p)
  {
    GoodTypesPass(n.(ddSeqNum := Accepted(n, p)), p.headers);
  }

  /** A matched packet with valid types, field by field, once the roles are settled. */
  ghost predicate Answered(n: Nbr, env: DdEnv, p: DdPacket, r: Nbr) {
    && SentCount(n) <= |n.summary|
    && r.id == n.id && r.isMaster == n.isMaster
    && r.summary == n.summary[SentCount(n)..]
    && r.state == (if !p.m && r.summary == [] then Full else Exchange)
    && r.ddSeqNum == (if n.isMaster then p.seqNum else Next32(n.ddSeqNum))
    && r.lastSend == Some(NextPacket(env.options, n.isMaster, r.ddSeqNum, r.summary))
    && r.requests == n.requests + WantedOf(env, p.headers)
    && r.trace == Trace(n.trace.sent + [r.lastSend.value], n.trace.since, n.trace.built,
                        n.trace.acked + n.summary[..SentCount(n)], n.trace.processed + p.headers,
                        n.trace.matched + 1, n.trace.mismatches, n.trace.popFault)
  }

  lemma AcceptAnswers(n: Nbr, env: DdEnv, p: DdPacket)
    requires n.state == Exchange && SentCount(n) <= |n.summary|
    requires GoodTypes(p.headers)
    ensures Answered(n, env, p, Accept(n, env, p))
    ensures Accept(n, env, p).lastRecv == n.lastRecv
  {
    AcceptGoodTypes(n, env, p);
  }

  /** A matched packet in Exchange. */
  lemma ExchangeAnswers(x: Nbr, env: DdEnv, p: DdPacket)
    requires x.state == Exchange && SentCount(x) <= |x.summary|
    requires IdOf(p) != x.lastRecv && InSequence(x, p)
    requires GoodTypes(p.headers)
    ensures Answered(x, env, p, RecvDd(x, env, p))
    ensures RecvDd(x, env, p).lastRecv == IdOf(p)
  {
    hide RecvDd, Accept, NextPacket, WantedOf;
    var d := AtDispatch(x, env, p);
    assert d == x.(lastRecv := IdOf(p), options := p.options) && Entering(d, env, p) == d;
    MatchedOutcome(x, env, p);
    AcceptAnswers(d, env, p);
  }

  /** What a negotiation hands to `Accept`. */
  lemma EnteringFresh(n: Nbr, env: DdEnv, p: DdPacket)
    requires n.state == ExStart && Matched(n, env, p)
    ensures var m := Entering(AtDispatch(n, env, p), env, p);
            && m.id == n.id && m.isMaster == PeerOpens(n, env, p) && m.lastRecv == IdOf(p)
            && m.summary == m.trace.built == DatabaseSummary(env)
            && m.ddSeqNum == p.seqNum && m.state == Exchange
            && m.lastSend == n.lastSend && m.requests == n.requests
            && m.trace == Trace(n.trace.sent, |n.trace.sent|, m.summary, [], [], 0, n.trace.mismatches, n.trace.popFault)
  {
  }

  /** The first matched packet of a fresh negotiation. */
  lemma NegotiationAnswers(x: Nbr, env: DdEnv, p: DdPacket)
    requires x.state == ExStart && x.lastSend == None && Matched(x, env, p)
    requires GoodTypes(p.headers)
    ensures var m := Entering(AtDispatch(x, env, p), env, p);
            Answered(m, env, p, RecvDd(x, env, p)) && RecvDd(x, env, p).lastRecv == IdOf(p)
  {
    MatchedOutcome(x, env, p);
    EnteringFresh(x, env, p);
    AcceptAnswers(Entering(AtDispatch(x, env, p), env, p), env, p);
  }

  lemma AcceptRequests(n: Nbr, env: DdEnv, p: DdPacket)
    requires GoodTypes(p.headers)
    ensures Accept(n, env, p).requests == n.requests + WantedOf(env, p.headers)
    ensures Accept(n, env, p).trace.mismatches == n.trace.mismatches
  {
    AcceptGoodTypes(n, env, p);
  }

  // ---------------------------------------------------------------------------
  // Conservation of the summary list on one side
  // ---------------------------------------------------------------------------

  /** The headers of a row of data packets, a packet equal to the one before it counted once. */
  function NewHeaders(ps: seq<DdPacket>): seq<LsaHeader> {
    if ps == [] then []
    else
      NewHeaders(ps[..|ps| - 1])
      + (if |ps| >= 2 && ps[|ps| - 2] == ps[|ps| - 1] then [] else ps[|ps| - 1].headers)
  }

  /** The data packets sent since NegotiationDone. */
  ghost function SentSince(n: Nbr): seq<DdPacket> {
    if n.trace.since <= |n.trace.sent| then n.trace.sent[n.trace.since..] else []
  }

  /**
   * In ExStart nothing is outstanding. From Exchange on, what was acknowledged followed by what is
   * left is the list built at NegotiationDone; the last packet carries a prefix of what is left; and
   * what was sent since NegotiationDone, repetitions apart, is exactly what was acknowledged
   * followed by the headers of that last packet. In Full nothing is left.
   */
  ghost predicate Conserved(n: Nbr) {
    && !n.trace.popFault && n.state != Loading
    && (n.state == ExStart ==> n.lastSend == None)
    && (Rank(n.state) >= Rank(Exchange) ==>
          && n.trace.acked + n.summary == n.trace.built
          && n.lastSend.Some?
          && |n.lastSend.value.headers| <= |n.summary|
          && n.lastSend.value.headers == OnWire(n.summary[..|n.lastSend.value.headers|])
          && NewHeaders(SentSince(n)) == OnWire(n.trace.acked) + n.lastSend.value.headers
          && LastIsStored(n))
    && (n.state == Full ==> n.summary == [])
  }

  /** The last data packet sent is the stored one and carries the current sequence number. */
  ghost predicate LastIsStored(n: Nbr) {
    && n.lastSend.Some? && n.lastSend.value.seqNum == n.ddSeqNum
    && n.trace.since < |n.trace.sent| && n.trace.sent[|n.trace.sent| - 1] == n.lastSend.value
  }

  /** Everything that can happen to a neighbour, apart from SeqNumberMismatch and BadLSReq. */
  datatype NbrEvent =
    | HelloEvent(id: uint32, pri: uint32, options: uint8, dr: uint32, bdr: uint32)
    | TwoWayEvent(adjacent: bool)
    | OneWayEvent
    | AdjOkEvent(adjacent: bool)
    | LoadingDoneEvent
    | InactivityEvent
    | DdEvent(env: DdEnv, packet: DdPacket)

  function Apply(n: Nbr, e: NbrEvent): Nbr {
    match e
    case HelloEvent(id, pri, options, dr, bdr) =>
      HelloReceived(n).(id := id, pri := pri, options := options, dr := dr, bdr := bdr)
    case TwoWayEvent(adjacent) => TwoWayReceived(n, adjacent)
    case OneWayEvent => OneWayReceived(n)
    case AdjOkEvent(adjacent) => AdjOk(n, adjacent)
    case LoadingDoneEvent => LoadingDone(n)
    case InactivityEvent => InactivityTimer(n)
    case DdEvent(env, packet) => RecvDd(n, env, packet)
  }

  function ApplyAll(n: Nbr, es: seq<NbrEvent>): Nbr {
    if es == [] then n else Apply(ApplyAll(n, es[..|es| - 1]), es[|es| - 1])
  }

  lemma {:induction false} CheckTypesCounts(n: Nbr, hs: seq<LsaHeader>)
    ensures CheckTypes(n, hs).trace.mismatches >= n.trace.mismatches
    ensures CheckTypes(n, hs).trace.mismatches == n.trace.mismatches ==> CheckTypes(n, hs) == n
    ensures CheckTypes(n, hs).trace.mismatches == n.trace.mismatches <==> GoodTypes(hs)
  {
    if hs != [] {
      CheckTypesCounts(n, hs[..|hs| - 1]);
      assert GoodTypes(hs) <==> GoodTypes(hs[..|hs| - 1]) && GoodType(hs[|hs| - 1]);
    }
  }

  /** The next packet carries a prefix of the list. */
  lemma NextPacketIsPrefix(options: uint8, toMaster: bool, seqNum: uint32, list: seq<LsaHeader>)
    ensures var hs := NextPacket(options, toMaster, seqNum, list).headers;
            |hs| <= |list| && hs == OnWire(list[..|hs|])
  {
  }

  lemma AckSplit(acked: seq<LsaHeader>, list: seq<LsaHeader>, k: nat)
    requires k <= |list|
    ensures (acked + list[..k]) + list[k..] == acked + list
  {
    assert list[..k] + list[k..] == list;
  }

  lemma NewHeadersAppend(ps: seq<DdPacket>, x: DdPacket)
    ensures NewHeaders(ps + [x])
         == NewHeaders(ps) + (if ps != [] && ps[|ps| - 1] == x then [] else x.headers)
  {
    var qs := ps + [x];
    assert qs[..|qs| - 1] == ps && qs[|qs| - 1] == x;
    assert ps != [] ==> qs[|qs| - 2] == ps[|ps| - 1];
  }

  /** What is sent, acknowledged and left, before the matched packet is answered. */
  ghost predicate ReadyToPop(n: Nbr, p: DdPacket) {
    && !n.trace.popFault
    && n.state == Exchange
    && n.trace.acked + n.summary == n.trace.built
    && SentCount(n) <= |n.summary|
    && NewHeaders(SentSince(n)) == OnWire(n.trace.acked) + OnWire(n.summary[..SentCount(n)])
    && (n.trace.since == |n.trace.sent| || (LastIsStored(n) && InSequence(n, p)))
  }

  /** A new reply adds its headers to what was sent. */
  lemma ReplyIsNew(n: Nbr, env: DdEnv, p: DdPacket, r: Nbr)
    requires ReadyToPop(n, p) && Answered(n, env, p, r)
    ensures NewHeaders(SentSince(r)) == OnWire(r.trace.acked) + r.lastSend.value.headers
    ensures LastIsStored(r)
  {
    hide NextPacket, WantedOf, NewHeaders;
    var reply, k := r.lastSend.value, SentCount(n);
    assert SentSince(r) == SentSince(n) + [reply];
    NewHeadersAppend(SentSince(n), reply);
    OnWireConcat(n.trace.acked, n.summary[..k]);
    NextPacketNumber(env.options, n.isMaster, r.ddSeqNum, r.summary);
    assert n.trace.since < |n.trace.sent| ==> SentSince(n)[|SentSince(n)| - 1].seqNum != reply.seqNum;
  }

  lemma NextPacketNumber(options: uint8, toMaster: bool, seqNum: uint32, list: seq<LsaHeader>)
    ensures NextPacket(options, toMaster, seqNum, list).seqNum == seqNum
  {
  }

  lemma AcceptConserves(n: Nbr, env: DdEnv, p: DdPacket)
    requires ReadyToPop(n, p)
    ensures Accept(n, env, p).trace.mismatches >= n.trace.mismatches
    ensures Accept(n, env, p).trace.mismatches == n.trace.mismatches ==> Conserved(Accept(n, env, p))
  {
    var n1 := n.(ddSeqNum := Accepted(n, p));
    CheckTypesCounts(n1, p.headers);
    if CheckTypes(n1, p.headers) == n1 {
      AnswerIsAnswered(n, env, p);
      AnsweredConserves(n, env, p, Answer(n1, env, p));
    }
  }

  lemma AnswerIsAnswered(n: Nbr, env: DdEnv, p: DdPacket)
    requires n.state == Exchange && SentCount(n) <= |n.summary|
    ensures Answered(n, env, p, Answer(n.(ddSeqNum := Accepted(n, p)), env, p))
  {
  }

  lemma AnsweredConserves(n: Nbr, env: DdEnv, p: DdPacket, r: Nbr)
    requires ReadyToPop(n, p) && Answered(n, env, p, r)
    ensures Conserved(r)
  {
    hide NextPacket, WantedOf, NewHeaders, LastIsStored, OnWire, InSequence, SentSince;
    ReplyIsNew(n, env, p, r);
    NextPacketIsPrefix(env.options, n.isMaster, r.ddSeqNum, r.summary);
    AckSplit(n.trace.acked, n.summary, SentCount(n));
  }

  /** One event keeps conservation unless it raises SeqNumberMismatch. */
  lemma ConservedStep(n: Nbr, e: NbrEvent)
    requires Conserved(n)
    ensures Apply(n, e).trace.mismatches >= n.trace.mismatches
    ensures Apply(n, e).trace.mismatches == n.trace.mismatches ==> Conserved(Apply(n, e))
  {
    if e.DdEvent? {
      ConservedDd(n, e.env, e.packet);
    }
  }

  lemma ConservedDd(n: Nbr, env: DdEnv, p: DdPacket)
    requires Conserved(n)
    ensures RecvDd(n, env, p).trace.mismatches >= n.trace.mismatches
    ensures RecvDd(n, env, p).trace.mismatches == n.trace.mismatches ==> Conserved(RecvDd(n, env, p))
  {
    hide RecvDd, Accept, Conserved, Entering, AtDispatch, ReadyToPop;
    if Matched(n, env, p) {
      MatchedOutcome(n, env, p);
      EnteringIsReady(n, env, p);
      AcceptConserves(Entering(AtDispatch(n, env, p), env, p), env, p);
    } else {
      UnmatchedConserves(n, env, p);
    }
  }

  lemma UnmatchedConserves(n: Nbr, env: DdEnv, p: DdPacket)
    requires Conserved(n) && !Matched(n, env, p)
    ensures RecvDd(n, env, p).trace.mismatches >= n.trace.mismatches
    ensures RecvDd(n, env, p).trace.mismatches == n.trace.mismatches ==> Conserved(RecvDd(n, env, p))
  {
    hide RecvDd, Conserved, PeerOpens, PeerFollows, InSequence, Matched, AtDispatch;
    var d := AtDispatch(n, env, p);
    UnmatchedOutcome(n, env, p);
    DispatchConserves(n, env, p);
    if RecvDd(n, env, p) == Resend(d) && Rank(n.state) >= Rank(Exchange) {
      ResendConserves(d);
    }
  }

  lemma DispatchConserves(n: Nbr, env: DdEnv, p: DdPacket)
    requires Conserved(n)
    ensures Conserved(AtDispatch(n, env, p))
    ensures AtDispatch(n, env, p).trace == n.trace
    ensures Rank(n.state) >= Rank(Exchange) ==> AtDispatch(n, env, p).state == n.state
  {
    hide NewHeaders, OnWire;
  }

  lemma EnteringIsReady(n: Nbr, env: DdEnv, p: DdPacket)
    requires Conserved(n) && Matched(n, env, p)
    ensures var m := Entering(AtDispatch(n, env, p), env, p);
            ReadyToPop(m, p) && m.trace.mismatches == n.trace.mismatches
  {
    hide WantedOf, DatabaseSummary;
    var d := AtDispatch(n, env, p);
    if d.state == ExStart {
      EnteringFresh(d, env, p);
    }
  }

  /** Sending the stored packet again adds nothing new. */
  lemma ResendConserves(n: Nbr)
    requires Conserved(n) && Rank(n.state) >= Rank(Exchange)
    ensures Conserved(Resend(n))
  {
    var r := Resend(n);
    assert SentSince(r) == SentSince(n) + [n.lastSend.value];
    NewHeadersAppend(SentSince(n), n.lastSend.value);
  }

  /** A new neighbour conserves, and so does a negotiation started by 2-WayReceived or AdjOK?, whatever happened before it. */
  lemma StartConserves(n: Nbr)
    ensures Conserved(NewNbr(n.ip))
    ensures !n.trace.popFault ==> Conserved(StartNegotiation(n))
  {
  }

  /**
   * Conservation over every run of one side against an arbitrary peer: from any structure that
   * conserves, a new one or one that has just started a negotiation, until the next
   * SeqNumberMismatch.
   */
  lemma {:induction false} ConservationOverRuns(n: Nbr, es: seq<NbrEvent>)
    requires Conserved(n)
    ensures ApplyAll(n, es).trace.mismatches >= n.trace.mismatches
    ensures ApplyAll(n, es).trace.mismatches == n.trace.mismatches ==> Conserved(ApplyAll(n, es))
  {
    hide Conserved, Apply;
    if es != [] {
      var front := es[..|es| - 1];
      ConservationOverRuns(n, front);
      MismatchesGrow(ApplyAll(n, front), es[|es| - 1]);
      if ApplyAll(n, es).trace.mismatches == n.trace.mismatches {
        ConservedStep(ApplyAll(n, front), es[|es| - 1]);
      }
    }
  }

  /** A side in Full has sent every header of its list exactly once, repetitions apart, in order. */
  lemma FullMeansAllSent(n: Nbr, es: seq<NbrEvent>)
    requires Conserved(n)
    requires ApplyAll(n, es).trace.mismatches == n.trace.mismatches && ApplyAll(n, es).state == Full
    ensures var r := ApplyAll(n, es); NewHeaders(SentSince(r)) == OnWire(r.trace.built)
  {
    hide ApplyAll;
    ConservationOverRuns(n, es);
    var r := ApplyAll(n, es);
    assert r.trace.acked == r.trace.built;
  }

  lemma MismatchesGrow(n: Nbr, e: NbrEvent)
    ensures Apply(n, e).trace.mismatches >= n.trace.mismatches
  {
    if e.DdEvent? {
      if Matched(n, e.env, e.packet) {
        MatchedOutcome(n, e.env, e.packet);
        AcceptMismatches(Entering(AtDispatch(n, e.env, e.packet), e.env, e.packet), e.env, e.packet);
      } else {
        UnmatchedOutcome(n, e.env, e.packet);
      }
    }
  }

  lemma AcceptMismatches(n: Nbr, env: DdEnv, p: DdPacket)
    ensures Accept(n, env, p).trace.mismatches >= n.trace.mismatches
  {
    CheckTypesCounts(n.(ddSeqNum := Accepted(n, p)), p.headers);
    assert n.(ddSeqNum := n.ddSeqNum) == n;
  }

  /**
   * A packet equal to the remembered one never changes the lists or the counters: a slave answers it
   * with its last packet, a master ignores it. Whether the last packet is remembered is the subject of
   * `RepeatAfterMatchIff`.
   */
  lemma DuplicateOnlyResends(n: Nbr, env: DdEnv, p: DdPacket)
    requires Rank(n.state) >= Rank(Exchange) && IdOf(p) == n.lastRecv
    ensures RecvDd(n, env, p)
         == if n.isMaster && n.lastSend.Some?
            then n.(options := p.options, trace := n.trace.(sent := n.trace.sent + [n.lastSend.value]))
            else n.(options := p.options)
  {
  }

  /**
   * A packet raises SeqNumberMismatch if and only if it is matched and has a header of an invalid type,
   * or it arrives in Exchange, differs from the remembered one in its number or one of its three bits,
   * and is not the next one: I set, the wrong MS bit, or the wrong number.
   */
  lemma MismatchIff(n: Nbr, env: DdEnv, p: DdPacket)
    ensures RecvDd(n, env, p).trace.mismatches > n.trace.mismatches
            <==> || (Matched(n, env, p) && !GoodTypes(p.headers))
                 || (&& n.state == Exchange
                     && (p.seqNum != n.lastRecv.seqNum || p.i != n.lastRecv.i || p.m != n.lastRecv.m || p.ms != n.lastRecv.ms)
                     && (p.i || p.ms != n.isMaster || p.seqNum != (if n.isMaster then Next32(n.ddSeqNum) else n.ddSeqNum)))
  {
    hide WantedOf, NextPacket, DatabaseSummary, GoodTypes, CheckTypes;
    if Matched(n, env, p) {
      MatchedOutcome(n, env, p);
      var m := Entering(AtDispatch(n, env, p), env, p);
      CheckTypesCounts(m.(ddSeqNum := Accepted(m, p)), p.headers);
    }
  }

  /**
   * The reply to a matched packet: with the router's options, never I, MS set by the master only, the
   * received number returned by the slave and followed by the master, the next headers of the list
   * that is left, at most 50, and M exactly when that is not all.
   */
  lemma MatchedReply(n: Nbr, env: DdEnv, p: DdPacket)
    requires Matched(n, env, p) && GoodTypes(p.headers)
    ensures var r := RecvDd(n, env, p);
            && r.lastSend.Some? && r.trace.sent == n.trace.sent + [r.lastSend.value]
            && (var q := r.lastSend.value;
                && q.options == env.options && !q.i && q.ms != p.ms && q.ms == !r.isMaster
                && q.seqNum == r.ddSeqNum && q.seqNum == (if p.ms then p.seqNum else Next32(p.seqNum))
                && |q.headers| <= 50 && |q.headers| <= |r.summary|
                && (q.m <==> |q.headers| < |r.summary|) && (q.m ==> |q.headers| == 50)
                && q.headers == OnWire(r.summary[..|q.headers|]))
  {
    hide WantedOf, DatabaseSummary, OnWire;
    MatchedOutcome(n, env, p);
    AcceptGoodTypes(Entering(AtDispatch(n, env, p), env, p), env, p);
  }

  /**
   * A neighbour that fell silent and is heard again is treated like a new one: same state, no
   * declaration, no priority, no list, and a negotiation that starts from the same fields.
   */
  lemma HeardAgainIsNew(n: Nbr)
    ensures var m, x := HelloReceived(InactivityTimer(n)), HelloReceived(NewNbr(n.ip));
            && m.state == x.state == Init && m.dr == x.dr == 0 && m.bdr == x.bdr == 0 && m.pri == x.pri == 0
            && ListsEmpty(m) && ListsEmpty(x)
            && (var a, b := TwoWayReceived(m, true), TwoWayReceived(x, true);
                && a.state == b.state == ExStart && a.isMaster && b.isMaster && a.ddSeqNum == b.ddSeqNum == 0
                && a.lastRecv == b.lastRecv && a.lastSend == b.lastSend == None)
  {
  }

  /** The two events that end an exchange lead to Full, each from its own state only. */
  lemma DoneLeadsToFull(n: Nbr)
    ensures ExchangeDone(n).state == Full <==> n.state in {Exchange, Full}
    ensures LoadingDone(n).state == Full <==> n.state in {Loading, Full}
  {
  }

  /**
   * A packet that arrives in Init is remembered before the DD fields are reset, and so forgotten.
   * The second copy of a processed packet raises no SeqNumberMismatch if and only if the first did
   * not arrive in Init, or is the one packet that looks like none.
   */
  lemma RepeatAfterMatchIff(n: Nbr, env: DdEnv, p: DdPacket)
    requires Matched(n, env, p) && GoodTypes(p.headers)
    ensures var r := RecvDd(n, env, p);
            RecvDd(r, env, p).trace.mismatches == r.trace.mismatches <==> n.state != Init || IdOf(p) == NO_DD_ID
  {
    var m, r := Entering(AtDispatch(n, env, p), env, p), RecvDd(n, env, p);
    MatchedOutcome(n, env, p);
    AcceptGoodTypes(m, env, p);
    AfterMatch(n, env, p);
    hide Accept, Answer, WantedOf, NextPacket, DatabaseSummary;
    if Matched(r, env, p) {
      MatchedOutcome(r, env, p);
      assert false;
    } else {
      UnmatchedOutcome(r, env, p);
    }
  }

  /** What the second copy of a packet meets. */
  lemma AfterMatch(n: Nbr, env: DdEnv, p: DdPacket)
    requires Matched(n, env, p) && GoodTypes(p.headers)
    ensures var r := RecvDd(n, env, p);
            && (r.state == Exchange || (r.state == Full && !p.m))
            && r.lastRecv == (if n.state == Init then NO_DD_ID else IdOf(p))
            && (r.state == Exchange && n.state == Init ==> !InSequence(r, p))
            && (n.state == Init && !p.m ==> IdOf(p) == NO_DD_ID)
  {
    hide WantedOf, NextPacket, DatabaseSummary;
    MatchedOutcome(n, env, p);
    AcceptGoodTypes(Entering(AtDispatch(n, env, p), env, p), env, p);
  }

  /** The failing input: the peer's opening packet, received twice by a neighbour in Init. */
  lemma OpeningTwiceFromInit(n: Nbr, env: DdEnv, options: uint8)
    requires n.state == Init && env.adjacent && n.id > env.routerId
    ensures var p := DdPacket(options, true, true, true, 0, []);
            var r := RecvDd(RecvDd(n, env, p), env, p);
            r.state == ExStart && r.trace.mismatches == n.trace.mismatches + 1
  {
    hide WantedOf, NextPacket, DatabaseSummary;
    var p := DdPacket(options, true, true, true, 0, []);
    var m := Entering(AtDispatch(n, env, p), env, p);
    MatchedOutcome(n, env, p);
    AcceptGoodTypes(m, env, p);
    AfterMatch(n, env, p);
  }

  /**
   * After a mismatch the stored packet length survives into the next negotiation: the first
   * matched packet then drops that many headers of the new list without ever sending them, and
   * runs off the end of the list exactly when it is shorter. Conservation holds exactly when there
   * was no stored header to begin with.
   */
  lemma StaleLengthSkipsHeaders(n: Nbr, env: DdEnv, p: DdPacket)
    requires n.state == ExStart && !n.trace.popFault && Matched(n, env, p)
    requires GoodTypes(p.headers)
    ensures var r := RecvDd(n, env, p);
            var list := DatabaseSummary(env);
            && r.trace.built == list
            && r.trace.acked == list[..Min(SentCount(n), |list|)]
            && (r.trace.popFault <==> SentCount(n) > |list|)
            && |r.trace.sent| == |n.trace.sent| + 1
            && (Conserved(r) <==> SentCount(n) == 0)
  {
    hide RecvDd, Accept, Conserved, NextPacket, WantedOf;
    var m := Entering(AtDispatch(n, env, p), env, p);
    MatchedOutcome(n, env, p);
    EnteringFresh(n, env, p);
    StaleAnswer(m, env, p);
  }

  lemma ApplyLast(n: Nbr, es: seq<NbrEvent>, e: NbrEvent)
    ensures ApplyAll(n, es + [e]) == Apply(ApplyAll(n, es), e)
  {
    assert (es + [e])[..|es|] == es;
  }

  /** A run that reaches such a state: the peer opens the exchange, then opens it again with a new number. */
  lemma StaleLengthIsReachable(ip: uint32, id: uint32, env: DdEnv) returns (es: seq<NbrEvent>)
    requires id > env.routerId
    ensures var n := ApplyAll(NewNbr(ip), es);
            n.state == ExStart && !n.trace.popFault && SentCount(n) == Min(|DatabaseSummary(env)|, 50)
  {
    hide RecvDd, ApplyAll, DatabaseSummary;
    var p, q := DdPacket(2, true, true, true, 1, []), DdPacket(2, true, true, true, 2, []);
    var prefix := [HelloEvent(id, 1, 2, 0, 0), TwoWayEvent(true)];
    es := prefix + [DdEvent(env, p)] + [DdEvent(env, q)];
    var x := ApplyAll(NewNbr(ip), prefix);
    ApplyLast(NewNbr(ip), prefix, DdEvent(env, p));
    ApplyLast(NewNbr(ip), prefix + [DdEvent(env, p)], DdEvent(env, q));
    StartedNbr(ip, id);
    OpenedTwice(x, env, p, q);
  }

  lemma StartedNbr(ip: uint32, id: uint32)
    ensures var x := ApplyAll(NewNbr(ip), [HelloEvent(id, 1, 2, 0, 0), TwoWayEvent(true)]);
            x.id == id && x == StartNegotiation(x) && x.trace == NO_TRACE
  {
    var e, f := HelloEvent(id, 1, 2, 0, 0), TwoWayEvent(true);
    assert [e, f] == ([] + [e]) + [f];
    ApplyLast(NewNbr(ip), [], e);
    ApplyLast(NewNbr(ip), [] + [e], f);
  }

  lemma OpenedTwice(x: Nbr, env: DdEnv, p: DdPacket, q: DdPacket)
    requires x == StartNegotiation(x) && x.id > env.routerId && x.trace == NO_TRACE
    requires p.i && p.m && p.ms && q.i && IdOf(q) != IdOf(p) && p.headers == []
    ensures var r := RecvDd(RecvDd(x, env, p), env, q);
            r.state == ExStart && !r.trace.popFault && SentCount(r) == Min(|DatabaseSummary(env)|, 50)
  {
    hide RecvDd;
    OpenedFacts(x, env, p);
    UnexpectedOpening(RecvDd(x, env, p), env, q);
  }

  /** A fresh structure after the peer's opening packet. */
  lemma OpenedFacts(x: Nbr, env: DdEnv, p: DdPacket)
    requires x == StartNegotiation(x) && x.id > env.routerId && x.trace == NO_TRACE
    requires p.i && p.m && p.ms && p.headers == []
    ensures var r := RecvDd(x, env, p);
            && r.state == Exchange && !r.trace.popFault && r.trace.mismatches == 0 && r.isMaster
            && r.ddSeqNum == p.seqNum && r.lastRecv == IdOf(p)
            && SentCount(r) == Min(|DatabaseSummary(env)|, 50)
  {
    hide RecvDd, Accept, DatabaseSummary, WantedOf, OnWire, Entering, AtDispatch;
    OpeningMatches(x, env, p);
    NegotiationAnswers(x, env, p);
    EnteringFresh(x, env, p);
  }

  lemma OpeningMatches(x: Nbr, env: DdEnv, p: DdPacket)
    requires x.state == ExStart && x.id > env.routerId && p.i && p.m && p.ms
    ensures Matched(x, env, p) && PeerOpens(x, env, p)
  {
  }

  lemma UnexpectedOpening(r: Nbr, env: DdEnv, q: DdPacket)
    requires r.state == Exchange && q.i && IdOf(q) != r.lastRecv
    ensures RecvDd(r, env, q) == SeqNumberMismatch(r.(lastRecv := IdOf(q), options := q.options))
  {
    hide Accept;
  }

  /** The first answer to a new list, with a stored packet of any length. */
  lemma StaleAnswer(m: Nbr, env: DdEnv, p: DdPacket)
    requires m.state == Exchange && !m.trace.popFault && m.summary == m.trace.built && m.trace.acked == []
    requires m.trace.since == |m.trace.sent|
    requires GoodTypes(p.headers)
    ensures var r := Accept(m, env, p);
            && r.trace.built == m.summary
            && r.trace.acked == m.summary[..Min(SentCount(m), |m.summary|)]
            && (r.trace.popFault <==> SentCount(m) > |m.summary|)
            && |r.trace.sent| == |m.trace.sent| + 1
            && (Conserved(r) <==> SentCount(m) == 0)
  {
    hide NextPacket, WantedOf;
    AcceptGoodTypes(m, env, p);
    var r := Accept(m, env, p);
    if SentCount(m) == 0 {
      assert m.trace.acked + m.summary == m.trace.built;
      AcceptConserves(m, env, p);
    } else {
      assert SentSince(r) == [] + [r.lastSend.value];
      NewHeadersAppend([], r.lastSend.value);
    }
  }

  /** Whether the three lists are empty in every state below Exchange. */
  predicate CleanBelowExchange(n: Nbr) {
    Rank(n.state) < Rank(Exchange) ==> ListsEmpty(n)
  }

  lemma {:induction false} CheckTypesOutcome(n: Nbr, hs: seq<LsaHeader>)
    requires n.state == Exchange
    ensures if GoodTypes(hs) then CheckTypes(n, hs) == n
            else CheckTypes(n, hs) == ClearLists(n).(state := ExStart, trace := CheckTypes(n, hs).trace)
  {
    if hs != [] {
      CheckTypesOutcome(n, hs[..|hs| - 1]);
    }
  }

  /** How many headers are left to pop when a matched packet is answered. */
  function HeadersLeft(n: Nbr, env: DdEnv, p: DdPacket): nat {
    if !GoodTypes(p.headers) then 0
    else if n.state == Exchange then |n.summary|
    else |DatabaseSummary(env)|
  }

  /** The answer pops more headers than the list has. */
  predicate PopsTooMany(n: Nbr, env: DdEnv, p: DdPacket) {
    Matched(n, env, p) && n.state != Init && SentCount(n) > HeadersLeft(n, env, p)
  }

  /**
   * A packet makes the code pop an empty list if and only if it is matched and the stored packet,
   * which entry from Init resets, has more headers than the list: a list of a new negotiation, or
   * one that an invalid type in the same packet has just cleared.
   */
  lemma PopFaultIff(n: Nbr, env: DdEnv, p: DdPacket)
    requires !n.trace.popFault
    ensures RecvDd(n, env, p).trace.popFault <==> PopsTooMany(n, env, p)
  {
    hide RecvDd, Accept, GoodTypes, DatabaseSummary;
    if Matched(n, env, p) {
      MatchedOutcome(n, env, p);
      AcceptPops(Entering(AtDispatch(n, env, p), env, p), env, p);
      EnteringPops(n, env, p);
    } else {
      UnmatchedPops(n, env, p);
    }
  }

  lemma AcceptPops(m: Nbr, env: DdEnv, p: DdPacket)
    requires m.state == Exchange && !m.trace.popFault
    ensures Accept(m, env, p).trace.popFault <==> SentCount(m) > (if GoodTypes(p.headers) then |m.summary| else 0)
  {
    hide GoodTypes, WantedOf, NextPacket;
    var m1 := m.(ddSeqNum := Accepted(m, p));
    CheckTypesOutcome(m1, p.headers);
    CheckTypesFault(m1, p.headers);
  }

  lemma {:induction false} CheckTypesFault(n: Nbr, hs: seq<LsaHeader>)
    ensures CheckTypes(n, hs).trace.popFault == n.trace.popFault
  {
    if hs != [] {
      CheckTypesFault(n, hs[..|hs| - 1]);
    }
  }

  lemma EnteringPops(n: Nbr, env: DdEnv, p: DdPacket)
    requires Matched(n, env, p)
    ensures var m := Entering(AtDispatch(n, env, p), env, p);
            && m.trace.popFault == n.trace.popFault
            && SentCount(m) == (if n.state == Init then 0 else SentCount(n))
            && m.summary == (if n.state == Exchange then n.summary else DatabaseSummary(env))
  {
    hide DatabaseSummary;
  }

  lemma UnmatchedPops(n: Nbr, env: DdEnv, p: DdPacket)
    requires !Matched(n, env, p)
    ensures RecvDd(n, env, p).trace.popFault == n.trace.popFault
  {
    hide RecvDd, Matched;
    UnmatchedOutcome(n, env, p);
  }

  /**
   * A run from a new neighbour to such a pop: the peer opens the exchange, and its first data packet
   * describes one LSA of an invalid type.
   */
  lemma BadTypePopIsReachable(ip: uint32, id: uint32, env: DdEnv, h: LsaHeader)
      returns (es: seq<NbrEvent>, p: DdPacket)
    requires id > env.routerId && DatabaseSummary(env) != [] && !GoodType(h)
    ensures var n := ApplyAll(NewNbr(ip), es);
            && p.headers == [h] && n.state == Exchange && !n.trace.popFault && n.trace.mismatches == 0
            && ApplyAll(NewNbr(ip), es + [DdEvent(env, p)]).trace.popFault
  {
    hide RecvDd, ApplyAll, DatabaseSummary, PopsTooMany;
    var q := DdPacket(2, true, true, true, 1, []);
    p := DdPacket(2, false, false, true, 2, [h]);
    var prefix := [HelloEvent(id, 1, 2, 0, 0), TwoWayEvent(true)];
    es := prefix + [DdEvent(env, q)];
    StartedNbr(ip, id);
    ApplyLast(NewNbr(ip), prefix, DdEvent(env, q));
    ApplyLast(NewNbr(ip), es, DdEvent(env, p));
    OpenedOnce(ApplyAll(NewNbr(ip), prefix), env, q, p);
    PopFaultIff(ApplyAll(NewNbr(ip), es), env, p);
  }

  lemma OpenedOnce(x: Nbr, env: DdEnv, q: DdPacket, p: DdPacket)
    requires x == StartNegotiation(x) && x.id > env.routerId && x.trace == NO_TRACE && DatabaseSummary(env) != []
    requires q.i && q.m && q.ms && q.headers == [] && q.seqNum == 1
    requires !p.i && p.ms && p.seqNum == 2 && |p.headers| == 1 && !GoodType(p.headers[0])
    ensures var r := RecvDd(x, env, q);
            r.state == Exchange && !r.trace.popFault && r.trace.mismatches == 0 && PopsTooMany(r, env, p)
  {
    hide RecvDd, DatabaseSummary;
    OpenedFacts(x, env, q);
  }

  /**
   * The check for invalid types does not leave the packet. A matched packet with an invalid type
   * falls back to ExStart, but what it describes is requested all the same: the lists are empty
   * below Exchange exactly when all types are valid or nothing in the packet is wanted. That is
   * where the code gets to at all: if the stored packet had headers, it pops the cleared list first.
   */
  lemma InvalidTypeLeaksRequests(n: Nbr, env: DdEnv, p: DdPacket)
    requires Matched(n, env, p)
    ensures CleanBelowExchange(RecvDd(n, env, p)) <==> GoodTypes(p.headers) || WantedOf(env, p.headers) == []
    ensures !GoodTypes(p.headers) && !n.trace.popFault ==>
              (RecvDd(n, env, p).trace.popFault <==> n.state != Init && SentCount(n) > 0)
  {
    hide RecvDd, Accept, CleanBelowExchange, GoodTypes, WantedOf;
    MatchedOutcome(n, env, p);
    AcceptLeaks(Entering(AtDispatch(n, env, p), env, p), env, p);
    if !n.trace.popFault {
      PopFaultIff(n, env, p);
    }
  }

  lemma AcceptLeaks(m: Nbr, env: DdEnv, p: DdPacket)
    requires m.state == Exchange
    ensures CleanBelowExchange(Accept(m, env, p)) <==> GoodTypes(p.headers) || WantedOf(env, p.headers) == []
  {
    hide GoodTypes, WantedOf, NextPacket;
    CheckTypesOutcome(m.(ddSeqNum := Accepted(m, p)), p.headers);
  }

  // ---------------------------------------------------------------------------
  // Renegotiation
  // ---------------------------------------------------------------------------

  /** The opening packet of one side, answered by the other. */
  function AnswerToOpening(n: Nbr, peer: Nbr, env: DdEnv): Option<DdPacket> {
    RecvDd(peer, env, EmptyDd(n)).lastSend
  }

  /**
   * The ExStart sender does not convert its sequence number to network order. With both sides in
   * ExStart, the slave's answer to the master's opening packet matches exactly when the master's
   * number reads the same with its octets reversed.
   */
  lemma RenegotiationMatchesIff(n: Nbr, own: DdEnv, peer: Nbr, env: DdEnv)
    requires n.state == ExStart && n.id < own.routerId
    requires peer.state == ExStart && peer.id > env.routerId
    ensures AnswerToOpening(n, peer, env).Some?
    ensures Matched(n, own, AnswerToOpening(n, peer, env).value) <==> ByteSwap32(n.ddSeqNum) == n.ddSeqNum
  {
    hide RecvDd, Accept, ByteSwap32, Entering, AtDispatch;
    var p := EmptyDd(n);
    OpeningIsMatched(n, peer, env);
    MatchedOutcome(peer, env, p);
    EnteringFresh(peer, env, p);
    SlaveReply(Entering(AtDispatch(peer, env, p), env, p), env, p);
    MatchesNumberIff(n, own, AnswerToOpening(n, peer, env).value);
  }

  lemma OpeningIsMatched(n: Nbr, peer: Nbr, env: DdEnv)
    requires peer.state == ExStart && peer.id > env.routerId
    ensures Matched(peer, env, EmptyDd(n)) && PeerOpens(peer, env, EmptyDd(n))
  {
    hide ByteSwap32;
  }

  lemma SlaveReply(m: Nbr, env: DdEnv, p: DdPacket)
    requires m.isMaster && p.headers == []
    ensures var reply := Accept(m, env, p).lastSend;
            reply.Some? && !reply.value.i && !reply.value.ms && reply.value.seqNum == p.seqNum
  {
    hide WantedOf, OnWire;
    AcceptGoodTypes(m, env, p);
  }

  lemma MatchesNumberIff(n: Nbr, own: DdEnv, reply: DdPacket)
    requires n.state == ExStart && n.id < own.routerId && !reply.i && !reply.ms
    ensures Matched(n, own, reply) <==> reply.seqNum == n.ddSeqNum
  {
  }

  /**
   * A fresh negotiation starts from 0 and matches. After a mismatch the number is kept, and no
   * exchange of fewer than 65536 packets has left one that matches again.
   */
  lemma SmallNumbersStall(q: uint32)
    requires q < 0x1_0000
    ensures ByteSwap32(q) == q <==> q == 0
  {
    assert q / 0x1_0000 == 0 && q / 0x100_0000 == 0;
    assert q == q / 0x100 * 0x100 + q % 0x100 && q / 0x100 % 0x100 == q / 0x100;
  }
}
