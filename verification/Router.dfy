/**
 * The structures the router updates in place: neighbours (src/neighbor.cpp and the DD branch of
 * src/ospf.cpp) and interfaces (src/interface.cpp and the other branches). Every method is proved
 * equal to the function of the same step on values.
 */
module Router {
  import opened Basics
  import opened Lsa
  import opened Lsdb
  import opened NeighborSpec
  import opened Election
  import opened LsuSpec
  import opened InterfaceSpec
  import opened InterfaceRuns

  class Neighbor {
    const ip: uint32
    var interface: Interface?

    var id: uint32
    var pri: uint32
    var options: uint8
    var dr: uint32
    var bdr: uint32
    var state: NeighborState

    var isMaster: bool
    var ddSeqNum: uint32
    var lastRecv: DdId
    var lastSendData: DdPacket
    var lastSendLen: nat

    var retransmissionList: seq<LsaHeader>
    var summaryList: seq<LsaHeader>
    var requestList: seq<LsaHeader>

    /** History for the specification; the code never reads it. */
    ghost var trace: Trace

    ghost predicate Valid()
      reads this
    {
      lastSendLen == 0 || lastSendLen == DataLen(lastSendData)
    }

    ghost function LastSend(): Option<DdPacket>
      reads this
    {
      if lastSendLen == 0 then None else Some(lastSendData)
    }

    /** The neighbour as a value. */
    ghost function View(): (v: Nbr)
      reads this
      ensures v.ip == ip
    {
      Nbr(ip, id, pri, options, dr, bdr, state, isMaster, ddSeqNum, lastRecv, LastSend(),
          retransmissionList, summaryList, requestList, trace)
    }

    constructor (ip: uint32)
      ensures Valid() && interface == null && this.ip == ip && View() == NewNbr(ip)
    {
      this.ip := ip;
      interface := null;
      id, pri, options, dr, bdr, state := 0, 0, 2, 0, 0, Down;
      isMaster, ddSeqNum, lastSendLen := false, 0, 0;
      lastRecv := NO_DD_ID;
      retransmissionList, summaryList, requestList := [], [], [];
      lastSendData := DdPacket(0, false, false, false, 0, []);
      trace := NO_TRACE;
    }

    /** The adjacency test on the interface this neighbour belongs to. */
    predicate AdjacencyRequired()
      requires interface != null
      reads this, interface
    {
      NeedsAdjacency(interface.kind, interface.ip, interface.dr, interface.bdr, ip)
    }

    method EventHelloReceived()
      requires Valid()
      modifies this
      ensures Valid() && interface == old(interface)
      ensures View() == HelloReceived(old(View()))
    {
      if state == Down {
        state := Init;
        dr, bdr, pri := 0, 0, 0;
      }
    }

    method ResetDd()
      modifies this
      ensures Valid() && interface == old(interface)
      ensures View() == StartNegotiation(old(View()))
    {
      lastRecv := NO_DD_ID;
      lastSendLen := 0;
      ddSeqNum := 0;
      isMaster := true;
      state := ExStart;
    }

    method Event2WayReceived()
      requires Valid() && interface != null
      modifies this
      ensures Valid() && interface == old(interface)
      ensures View() == TwoWayReceived(old(View()), old(AdjacencyRequired()))
    {
      if state == Init {
        if AdjacencyRequired() {
          ResetDd();
        } else {
          state := TwoWay;
        }
      }
    }

    method ClearAllLists()
      requires Valid()
      modifies this
      ensures Valid() && interface == old(interface)
      ensures View() == ClearLists(old(View()))
    {
      retransmissionList := [];
      summaryList := [];
      requestList := [];
    }

    method Event1WayReceived()
      requires Valid()
      modifies this
      ensures Valid() && interface == old(interface)
      ensures View() == OneWayReceived(old(View()))
    {
      if Rank(state) >= Rank(TwoWay) {
        state := Init;
        ClearAllLists();
      }
    }

    method EventAdjOk()
      requires Valid() && interface != null
      modifies this
      ensures Valid() && interface == old(interface)
      ensures View() == AdjOk(old(View()), old(AdjacencyRequired()))
    {
      if state == TwoWay {
        if AdjacencyRequired() {
          ResetDd();
        }
      } else if Rank(state) >= Rank(ExStart) {
        if !AdjacencyRequired() {
          state := TwoWay;
          ClearAllLists();
        }
      }
    }

    /** The two loops that copy the headers of the database. */
    method ListDatabase(lsdb: Database)
      modifies `summaryList
      ensures summaryList == Headers(lsdb.routers) + Headers(lsdb.networks)
    {
      summaryList := [];
      for i := 0 to |lsdb.routers|
        invariant summaryList == Headers(lsdb.routers[..i])
      {
        assert lsdb.routers[..i + 1][..i] == lsdb.routers[..i];
        summaryList := summaryList + [lsdb.routers[i].header];
      }
      assert lsdb.routers[..|lsdb.routers|] == lsdb.routers;
      for i := 0 to |lsdb.networks|
        invariant summaryList == Headers(lsdb.routers) + Headers(lsdb.networks[..i])
      {
        assert lsdb.networks[..i + 1][..i] == lsdb.networks[..i];
        summaryList := summaryList + [lsdb.networks[i].header];
      }
      assert lsdb.networks[..|lsdb.networks|] == lsdb.networks;
    }

    method EventNegotiationDone(ghost env: DdEnv, lsdb: Database)
      requires Valid() && env.routers == lsdb.routers && env.networks == lsdb.networks
      modifies this
      ensures Valid() && interface == old(interface)
      ensures View() == NegotiationDone(old(View()), env)
    {
      if state == ExStart {
        ListDatabase(lsdb);
        state := Exchange;
        trace := trace.(since := |trace.sent|, built := summaryList, acked := [], processed := [], matched := 0);
      }
    }

    method Restart()
      requires Valid()
      modifies this
      ensures Valid() && interface == old(interface)
      ensures View() == Renegotiate(old(View()))
    {
      if Rank(state) >= Rank(Exchange) {
        state := ExStart;
        ClearAllLists();
      }
    }

    method EventSeqNumberMismatch()
      requires Valid()
      modifies this
      ensures Valid() && interface == old(interface)
      ensures View() == SeqNumberMismatch(old(View()))
    {
      Restart();
      trace := trace.(mismatches := trace.mismatches + 1);
    }

    method EventBadLsReq()
      requires Valid()
      modifies this
      ensures Valid() && interface == old(interface)
      ensures View() == BadLsReq(old(View()))
    {
      Restart();
    }

    method EventExchangeDone()
      modifies `state
      ensures View() == ExchangeDone(old(View()))
    {
      if state == Exchange {
        state := Full;
      }
    }

    method EventLoadingDone()
      requires Valid()
      modifies this
      ensures Valid() && interface == old(interface)
      ensures View() == LoadingDone(old(View()))
    {
      if state == Loading {
        state := Full;
      }
    }

    method EventInactivityTimer()
      requires Valid()
      modifies this
      ensures Valid() && interface == old(interface)
      ensures View() == InactivityTimer(old(View()))
    {
      state := Down;
      ClearAllLists();
    }

    /** Own LSAs are queued for a neighbour in Full. */
    method Queue(hs: seq<LsaHeader>)
      requires Valid()
      modifies this
      ensures Valid() && interface == old(interface)
      ensures View() == QueueFor(old(View()), hs)
    {
      if state == Full {
        retransmissionList := retransmissionList + hs;
      }
    }

    /** The loop over the headers of an acknowledgement. */
    method Acknowledged(hs: seq<LsaHeader>)
      requires Valid()
      modifies `retransmissionList
      ensures Valid()
      ensures View() == old(View()).(retransmissions := AcknowledgeAll(old(retransmissionList), hs))
    {
      var list := retransmissionList;
      for i := 0 to |hs|
        invariant retransmissionList == old(retransmissionList)
        invariant list == AcknowledgeAll(retransmissionList, hs[..i])
      {
        assert hs[..i + 1][..i] == hs[..i];
        list := EraseFirst(list, hs[i]);
      }
      assert hs[..|hs|] == hs;
      retransmissionList := list;
    }

    /** `flooding_lsa` for this neighbour. */
    method FloodLsa(h: LsaHeader, isSource: bool) returns (added: bool)
      requires Valid()
      modifies this
      ensures Valid() && interface == old(interface)
      ensures View() == FloodTo(old(View()), h, isSource)
      ensures added == Queues(old(View()), h, isSource)
    {
      added := false;
      if h.lsType == LSA_ASEXTERNAL || Rank(state) < Rank(Exchange) {
        return;
      }
      if state == Exchange || state == Loading {
        var at := FindHeader(requestList, KeyOf(h));
        if at != |requestList| {
          var result := Compare(h, requestList[at]);
          if result == 0 {
            requestList := requestList[..at] + requestList[at + 1..];
            return;
          } else if result < 0 {
            requestList := requestList[..at] + requestList[at + 1..];
          } else {
            return;
          }
          if !isSource {
            retransmissionList := retransmissionList + [h];
            added := true;
          }
        } else {
          retransmissionList := retransmissionList + [h];
          added := true;
        }
      }
    }

    method AcceptsRequests() returns (yes: bool)
      ensures yes == (Rank(View().state) >= Rank(Exchange))
    {
      yes := !(state != Exchange && state != Loading && state != Full);
    }

    /** An advertisement from this neighbour that is no news; `bad` when it is still requested. */
    method ReceiveOldLsa(h: LsaHeader, result: int) returns (bad: bool)
      requires Valid()
      modifies this
      ensures Valid() && interface == old(interface)
      ensures bad == (Position(old(requestList), KeyOf(h)) < |old(requestList)|)
      ensures old(requestList) == old(View()).requests
      ensures View() == if bad then BadLsReq(old(View())) else if result == 0 then Cleaned(old(View()), KeyOf(h)) else old(View())
    {
      var at := FindHeader(requestList, KeyOf(h));
      bad := at < |requestList|;
      if bad {
        EventBadLsReq();
      } else if result == 0 {
        DropQueued(KeyOf(h));
      }
    }

    /** `remove_if` on the retransmission list. */
    method DropQueued(k: Key)
      requires Valid()
      modifies this
      ensures Valid() && interface == old(interface)
      ensures View() == Cleaned(old(View()), k)
    {
      retransmissionList := RemoveHeaders(retransmissionList, k);
    }

    // -------------------------------------------------------------------------
    // The Hello branch
    // -------------------------------------------------------------------------

    /** The neighbour's part of a Hello up to the interface events; `twoWay` when we are listed in it. */
    method ProcessHello(h: Hello, routerId: uint32)
      returns (twoWay: bool, isNew: bool, preDr: uint32, preBdr: uint32, prePri: uint32)
      requires Valid() && interface != null
      modifies this
      ensures Valid() && interface == old(interface)
      ensures twoWay == (routerId in h.neighbors) && isNew == (old(View()).state == Down)
      ensures var pre := HelloReceived(old(View())); preDr == pre.dr && preBdr == pre.bdr && prePri == pre.pri
      ensures var n := TakeHello(HelloReceived(old(View())), h);
              View() == if twoWay then TwoWayReceived(n, old(AdjacencyRequired())) else OneWayReceived(n)
    {
      isNew := state == Down;
      EventHelloReceived();
      preDr, preBdr, prePri := dr, bdr, pri;
      id, dr, bdr, pri, options := h.routerId, h.dr, h.bdr, h.pri, h.options;
      assert View() == TakeHello(HelloReceived(old(View())), h);
      twoWay := false;
      for i := 0 to |h.neighbors|
        invariant Valid() && interface == old(interface) && View() == TakeHello(HelloReceived(old(View())), h)
        invariant !twoWay && routerId !in h.neighbors[..i]
      {
        if h.neighbors[i] == routerId {
          twoWay := true;
          break;
        }
      }
      if twoWay {
        Event2WayReceived();
      } else {
        Event1WayReceived();
      }
    }

    // -------------------------------------------------------------------------
    // The DD branch
    // -------------------------------------------------------------------------

    /** The loop over header types; a bad one raises the event and the loop goes on. */
    method CheckLsaTypes(hs: seq<LsaHeader>)
      requires Valid()
      modifies this
      ensures Valid() && interface == old(interface)
      ensures View() == CheckTypes(old(View()), hs)
    {
      for i := 0 to |hs|
        invariant Valid() && interface == old(interface)
        invariant View() == CheckTypes(old(View()), hs[..i])
      {
        assert hs[..i + 1][..i] == hs[..i];
        if hs[i].lsType < 1 || hs[i].lsType > 5 {
          EventSeqNumberMismatch();
        }
      }
      assert hs[..|hs|] == hs;
    }

    /** The loop that compares the described instances with the database. */
    method RequestMissing(hs: seq<LsaHeader>, lsdb: Database, ghost env: DdEnv)
      requires env.routers == lsdb.routers && env.networks == lsdb.networks
      modifies `requestList
      ensures requestList == old(requestList) + WantedOf(env, hs)
    {
      for i := 0 to |hs|
        invariant requestList == old(requestList) + WantedOf(env, hs[..i])
      {
        assert hs[..i + 1][..i] == hs[..i];
        var h := hs[i];
        if h.lsType == LSA_ROUTER {
          var stored := lsdb.FindRouterLsa(h.linkStateId, h.advRouter);
          if stored == None {
            requestList := requestList + [h];
          } else if Compare(h, stored.value.header) < 0 {
            requestList := requestList + [h];
          }
        } else if h.age == LSA_NETWORK {
          var stored := lsdb.FindNetworkLsa(h.linkStateId, h.advRouter);
          if stored == None {
            requestList := requestList + [h];
          } else if Compare(h, stored.value.header) < 0 {
            requestList := requestList + [h];
          }
        }
      }
      assert hs[..|hs|] == hs;
    }

    /**
     * Drops the headers of the last packet, whose number is recovered from its length. A pop from
     * an empty list is undefined in the code and reported as a fault.
     */
    method PopAcknowledged() returns (ghost fault: bool)
      requires Valid()
      modifies `summaryList
      ensures summaryList == old(summaryList)[Min(SentCount(View()), |old(summaryList)|)..]
      ensures fault == (SentCount(View()) > |old(summaryList)|)
    {
      fault := false;
      if lastSendLen != 0 {
        var cnt := (lastSendLen - 8) / 20;
        ghost var total := cnt;
        ghost var list := summaryList;
        assert total == |lastSendData.headers|;
        while cnt != 0
          invariant 0 <= cnt <= total
          invariant summaryList == list[Min(total - cnt, |list|)..]
          invariant fault == (total - cnt > |list|)
        {
          if summaryList != [] {
            summaryList := summaryList[1..];
          } else {
            fault := true;
          }
          cnt := cnt - 1;
        }
      }
    }

    /** Builds and remembers the reply that is sent. */
    method SendDd(ddOptions: uint8)
      modifies `ddSeqNum, `lastSendData, `lastSendLen
      ensures ddSeqNum == if isMaster then old(ddSeqNum) else Next32(old(ddSeqNum))
      ensures lastSendData == NextPacket(ddOptions, isMaster, ddSeqNum, summaryList)
      ensures lastSendLen == DataLen(lastSendData)
    {
      var sendLen := 8;
      var ms: bool;
      if isMaster {
        ms := false;
      } else {
        ddSeqNum := Next32(ddSeqNum);
        ms := true;
      }
      var headers := [];
      var more := false;
      for i := 0 to |summaryList|
        invariant i <= 50 && sendLen == 8 + 20 * i && !more
        invariant headers == OnWire(summaryList[..i])
      {
        if sendLen + 20 > 1024 {
          more := true;
          break;
        }
        assert summaryList[..i + 1][..i] == summaryList[..i];
        headers := headers + [WithoutAge(summaryList[i])];
        sendLen := sendLen + 20;
      }
      assert more <==> |summaryList| > 50;
      assert headers == OnWire(summaryList[..Min(|summaryList|, 50)]) by {
        assert |summaryList| <= 50 ==> summaryList[..|summaryList|] == summaryList;
      }
      lastSendData := DdPacket(ddOptions, false, more, ms, ddSeqNum, headers);
      lastSendLen := sendLen;
    }

    /** The part of the DD branch that a packet with a matching sequence number reaches. */
    method AcceptDd(p: DdPacket, ddOptions: uint8, lsdb: Database, ghost env: DdEnv)
      requires Valid() && env.routers == lsdb.routers && env.networks == lsdb.networks && env.options == ddOptions
      modifies this
      ensures Valid() && interface == old(interface)
      ensures View() == Accept(old(View()), env, p)
    {
      if isMaster {
        ddSeqNum := p.seqNum;
      }
      CheckLsaTypes(p.headers);
      ghost var n := View();
      assert n == CheckTypes(old(View()).(ddSeqNum := Accepted(old(View()), p)), p.headers);
      AnswerDd(p, ddOptions, lsdb, env);
    }

    /** Up to the reply: request, drop what is acknowledged, and finish when nothing is left. */
    method SettleDd(p: DdPacket, lsdb: Database, ghost env: DdEnv) returns (ghost fault: bool)
      requires Valid() && env.routers == lsdb.routers && env.networks == lsdb.networks
      modifies `requestList, `summaryList, `state
      ensures var n := old(View()); var k := Min(SentCount(n), |n.summary|);
              && fault == (SentCount(n) > |n.summary|)
              && View() == n.(summary := n.summary[k..], requests := n.requests + WantedOf(env, p.headers),
                              state := if n.state == Exchange && !p.m && n.summary[k..] == [] then Full else n.state)
    {
      RequestMissing(p.headers, lsdb, env);
      fault := PopAcknowledged();
      if !p.m && summaryList == [] {
        EventExchangeDone();
      }
    }

    method AnswerDd(p: DdPacket, ddOptions: uint8, lsdb: Database, ghost env: DdEnv)
      requires Valid() && env.routers == lsdb.routers && env.networks == lsdb.networks && env.options == ddOptions
      modifies this
      ensures Valid() && interface == old(interface)
      ensures View() == Answer(old(View()), env, p)
    {
      hide NextPacket, WantedOf, Next32;
      ghost var n := View();
      ghost var fault := SettleDd(p, lsdb, env);
      SendDd(ddOptions);
      trace := Trace(trace.sent + [lastSendData], trace.since, trace.built,
                     trace.acked + n.summary[..Min(SentCount(n), |n.summary|)], trace.processed + p.headers,
                     trace.matched + 1, trace.mismatches, trace.popFault || fault);
    }

    /** Sends the stored packet again, if there is one. */
    method ResendDd()
      requires Valid()
      modifies this
      ensures Valid() && interface == old(interface)
      ensures View() == Resend(old(View()))
    {
      if lastSendLen != 0 {
        trace := trace.(sent := trace.sent + [lastSendData]);
      }
    }

    /**
     * The DD branch for one packet. Its test of the packet's options against the neighbour's
     * compares a field with itself, which cannot fail, and is omitted.
     */
    method ProcessDd(p: DdPacket, routerId: uint32, ddOptions: uint8, lsdb: Database) returns (reachesFull: bool)
      requires Valid() && interface != null
      modifies this
      ensures Valid() && interface == old(interface)
      ensures View() == RecvDd(old(View()), DdEnv(routerId, ddOptions, old(AdjacencyRequired()), lsdb.routers, lsdb.networks), p)
      ensures reachesFull <==> View().state == Full && old(View()).state != Full
    {
      var before := state;
      ghost var env := DdEnv(routerId, ddOptions, AdjacencyRequired(), lsdb.routers, lsdb.networks);
      var duplicate := lastRecv == DdId(p.seqNum, p.i, p.m, p.ms);
      if !duplicate {
        lastRecv := DdId(p.seqNum, p.i, p.m, p.ms);
      }
      options := p.options;
      if state == Init {
        Event2WayReceived();
      }
      assert View() == AtDispatch(old(View()), env, p);
      DispatchDd(p, routerId, ddOptions, lsdb, env, duplicate);
      reachesFull := state == Full && before != Full;
    }

    method DispatchDd(p: DdPacket, routerId: uint32, ddOptions: uint8, lsdb: Database, ghost env: DdEnv, duplicate: bool)
      requires Valid() && state != Init
      requires env.routers == lsdb.routers && env.networks == lsdb.networks
      requires env.options == ddOptions && env.routerId == routerId
      modifies this
      ensures Valid() && interface == old(interface)
      ensures View() == Dispatch(old(View()), env, p, duplicate)
    {
      hide Accept, DatabaseSummary;
      if state == Down || state == Attempt {
        return;
      } else if state == TwoWay {
        return;
      } else if state == ExStart {
        if p.i && p.m && p.ms && id > routerId {
          isMaster := true;
          ddSeqNum := p.seqNum;
          EventNegotiationDone(env, lsdb);
        } else if !p.i && !p.ms && p.seqNum == ddSeqNum && id < routerId {
          isMaster := false;
          EventNegotiationDone(env, lsdb);
        } else {
          return;
        }
      } else if state == Exchange {
        if duplicate {
          if isMaster {
            ResendDd();
          }
          return;
        }
        if p.i {
          EventSeqNumberMismatch();
          return;
        }
        if isMaster {
          if !p.ms || p.seqNum != Next32(ddSeqNum) {
            EventSeqNumberMismatch();
            return;
          }
        } else {
          if p.ms || p.seqNum != ddSeqNum {
            EventSeqNumberMismatch();
            return;
          }
        }
      } else {
        if duplicate {
          if isMaster {
            ResendDd();
          }
        }
        return;
      }
      assert View() == Entering(old(View()), env, p);
      AcceptDd(p, ddOptions, lsdb, env);
    }
  }

  ghost function ViewsOf(ns: seq<Neighbor>): (r: seq<Nbr>)
    reads ns
    ensures |r| == |ns|
    ensures forall i :: 0 <= i < |ns| ==> r[i] == ns[i].View()
  {
    seq(|ns|, i requires 0 <= i < |ns| reads ns => ns[i].View())
  }

  class Interface {
    const kind: NetworkKind
    const ip: uint32
    const priority: uint32
    const settings: Settings
    const lsdb: Database

    var state: InterfaceState
    var dr: uint32
    var bdr: uint32
    var neighbors: seq<Neighbor>

    ghost predicate Valid()
      reads this, neighbors, lsdb
    {
      && lsdb.Valid()
      && (forall i :: 0 <= i < |neighbors| ==> neighbors[i].Valid() && neighbors[i].interface == this)
      && (forall i, j :: 0 <= i < j < |neighbors| ==> neighbors[i] != neighbors[j])
    }

    ghost function Views(): (r: seq<Nbr>)
      reads `neighbors, neighbors
      ensures |r| == |neighbors|
      ensures forall i :: 0 <= i < |neighbors| ==> r[i] == neighbors[i].View()
    {
      ViewsOf(neighbors)
    }

    /** The interface with its neighbours as a value. */
    ghost function View(): Iface
      reads this, neighbors
    {
      Iface(kind, state, ip, priority, dr, bdr, Views(), settings)
    }

    constructor (kind: NetworkKind, ip: uint32, priority: uint32, settings: Settings, lsdb: Database)
      requires lsdb.Valid()
      ensures Valid() && this.lsdb == lsdb
      ensures View() == Iface(kind, IfDown, ip, priority, 0, 0, [], settings)
    {
      this.kind, this.ip, this.priority, this.settings, this.lsdb := kind, ip, priority, settings, lsdb;
      state, dr, bdr, neighbors := IfDown, 0, 0, [];
    }

    method FindNeighbor(address: uint32) returns (n: Neighbor?, ghost k: nat)
      requires Valid()
      ensures k == IndexOf(Views(), address)
      ensures n == null <==> forall i :: 0 <= i < |neighbors| ==> neighbors[i].ip != address
      ensures if k == |neighbors| then n == null else n == neighbors[k] && n.ip == address
    {
      for i := 0 to |neighbors|
        invariant forall j :: 0 <= j < i ==> neighbors[j].ip != address
      {
        if neighbors[i].ip == address {
          return neighbors[i], i;
        }
      }
      return null, |neighbors|;
    }

    method AddNeighbor(n: Neighbor)
      requires Valid() && n.Valid() && n !in neighbors
      modifies `neighbors, n`interface
      ensures Valid() && neighbors == old(neighbors) + [n]
      ensures View() == old(View()).(neighbors := old(Views()) + [old(n.View())])
    {
      n.interface := this;
      neighbors := neighbors + [n];
    }

    // -------------------------------------------------------------------------
    // Elections
    // -------------------------------------------------------------------------

    /** The neighbours that vote, as the election loop collects them. */
    method Voters() returns (cs: seq<Candidate>)
      ensures cs == Candidates(Views())
    {
      cs := [];
      for i := 0 to |neighbors|
        invariant cs == Candidates(Views()[..i])
      {
        assert Views()[..i + 1][..i] == Views()[..i];
        var n := neighbors[i];
        if Rank(n.state) >= Rank(TwoWay) && n.pri != 0 {
          cs := cs + [Candidate(n.id, n.ip, n.pri, n.dr, n.bdr)];
        }
      }
      assert Views()[..|neighbors|] == Views();
    }

    /**
     * The literal `while(1)` of the election. The Designated Router dereferenced in each pass
     * exists, and the loop ends after at most two passes.
     */
    method RepeatElection(ghost others: seq<Candidate>) returns (ghost passes: nat)
      requires others == Candidates(Views())
      requires var me := Self(settings.routerId, ip, priority); ProperOthers(me, others) && HasCandidate(me, others)
      modifies `dr, `bdr
      ensures Outcome(dr, bdr)
           == CallElection(Self(settings.routerId, ip, priority), Outcome(old(dr), old(bdr)), others)
      ensures 1 <= passes <= 2
    {
      hide ElectedDr, ElectedBdr, Candidates;
      var me := Self(settings.routerId, ip, priority);
      ghost var o := Outcome(dr, bdr);
      ghost var first := Pass(me, o, others, false);
      var noBdr := false;
      passes := 0;
      FirstPassFindsDrIff(me, o, others);
      while true
        invariant Candidates(Views()) == others
        invariant passes == 0 ==> Outcome(dr, bdr) == o && !noBdr
        invariant passes == 1 ==> Outcome(dr, bdr) == first && noBdr == NewlyDr(me, o, first)
                                  && (NewlyDr(me, o, first) || NewlyBdr(me, o, first))
        invariant passes <= 1
        decreases 2 - passes
      {
        if passes == 1 {
          if noBdr { PassAfterDrPromotion(me, o, others); } else { PassAfterBdrPromotion(me, o, others); }
        }
        var voters := Voters();
        var newDr, newBdr := ElectionForDrAndBdr(me, Outcome(dr, bdr), voters, noBdr);
        var oldDr, oldBdr := dr, bdr;
        dr := newDr.value.ip;
        bdr := if newBdr == None then 0 else newBdr.value.ip;
        passes := passes + 1;
        if ip == dr && ip != oldDr {
          noBdr := true;
        } else if ip == bdr && ip != oldBdr {
          noBdr := false;
        } else {
          break;
        }
      }
    }

    method AdjOkEveryone()
      requires Valid()
      modifies neighbors
      ensures Valid() && View() == AdjOkAll(old(View()))
    {
      ghost var v := View();
      for i := 0 to |neighbors|
        invariant Valid()
        invariant forall j :: 0 <= j < i ==> neighbors[j].View() == AdjOk(v.neighbors[j], Adjacent(v, v.neighbors[j].ip))
        invariant forall j :: i <= j < |neighbors| ==> neighbors[j].View() == v.neighbors[j]
      {
        neighbors[i].EventAdjOk();
      }
    }

    method CallElectionAndAdjust()
      requires Valid()
      requires CanElect(View())
      modifies `dr, `bdr, neighbors
      ensures Valid() && Some(View()) == CallElectionOn(old(View()))
    {
      ghost var v := View();
      var oldDr, oldBdr := dr, bdr;
      ghost var passes := RepeatElection(Candidates(v.neighbors));
      assert View() == v.(dr := dr, bdr := bdr);
      if oldDr != dr || oldBdr != bdr {
        AdjOkEveryone();
      }
    }

    // -------------------------------------------------------------------------
    // Events
    // -------------------------------------------------------------------------

    /** An election and the state of the elected role. */
    method ElectAndSettle()
      requires Valid() && CanElect(View())
      modifies `state, `dr, `bdr, neighbors
      ensures Valid() && Some(View()) == Elect(old(View()))
    {
      hide Neighbor.View, CanElect, Interface.Views, CallElection, AdjOkAll, Candidates;
      CallElectionAndAdjust();
      if ip == dr {
        state := Dr;
      } else if ip == bdr {
        state := BackupDr;
      } else {
        state := DrOther;
      }
    }

    method EventInterfaceUp()
      requires Valid()
      modifies `state
      ensures Valid() && View() == InterfaceUp(old(View()))
    {
      if state == IfDown {
        if kind == PointToPoint || kind == PointToMultipoint || kind == VirtualLink {
          state := PointToPointLink;
        } else {
          if priority != 0 {
            state := Waiting;
          } else {
            state := DrOther;
          }
        }
      }
    }

    method EventWaitTimer()
      requires Valid() && (state == Waiting ==> CanElect(View()))
      modifies `state, `dr, `bdr, neighbors
      ensures Valid() && Some(View()) == WaitTimer(old(View()))
    {
      if state == Waiting {
        ElectAndSettle();
      }
    }

    method EventBackupSeen()
      requires Valid() && (state == Waiting ==> CanElect(View()))
      modifies `state, `dr, `bdr, neighbors
      ensures Valid() && Some(View()) == BackupSeen(old(View()))
    {
      if state == Waiting {
        ElectAndSettle();
      }
    }

    method EventNeighborChange()
      requires Valid() && (state == Dr || state == BackupDr || state == DrOther ==> CanElect(View()))
      modifies `state, `dr, `bdr, neighbors
      ensures Valid() && Some(View()) == NeighborChange(old(View()))
    {
      if state == Dr || state == BackupDr || state == DrOther {
        ElectAndSettle();
      }
    }

    method LapseStep(n: Neighbor, ghost k: nat)
      requires Valid() && k < |neighbors| && n == neighbors[k]
      modifies n
      ensures Valid() && View() == Lapsed(old(View()), k)
    {
      hide Neighbor.View;
      ghost var v := View();
      n.EventInactivityTimer();
      assert Views() == v.neighbors[k := n.View()];
    }

    /** The receive loop's check of one neighbour's last Hello. */
    method InactivityTimeout(k: nat)
      requires Valid() && k < |neighbors| && k == IndexOf(Views(), neighbors[k].ip)
      requires AddressesFine(ip, Views()) && HelloTimeout(View(), neighbors[k].ip).Some?
      modifies `state, `dr, `bdr, neighbors
      ensures Valid() && Some(View()) == HelloTimeout(old(View()), old(neighbors[k].ip))
    {
      hide CanElect, Lapsed, InactivityTimer, NeighborChange, Interface.Views;
      if neighbors[k].state == Down {
        return;
      }
      if state == Dr || state == BackupDr || state == DrOther {
        TimeoutCanElect(View(), k);
      }
      LapseStep(neighbors[k], k);
      EventNeighborChange();
    }

    // -------------------------------------------------------------------------
    // Packets
    // -------------------------------------------------------------------------

    method MeetNeighbor(address: uint32) returns (n: Neighbor, ghost k: nat)
      requires Valid()
      modifies `neighbors
      ensures Valid() && View() == WithNeighbor(old(View()), address)
      ensures k == IndexOf(Views(), address) && k < |neighbors| && n == neighbors[k]
      ensures n.ip == address && (fresh(n) || n in old(neighbors))
      ensures forall m :: m in neighbors ==> fresh(m) || m in old(neighbors)
    {
      hide Neighbor.View, NewNbr;
      var found, i := FindNeighbor(address);
      if found != null {
        return found, i;
      }
      ghost var v := View();
      n := new Neighbor(address);
      AddNeighbor(n);
      k := |v.neighbors|;
      IndexOfAppended(v.neighbors, NewNbr(address));
    }

    method HelloStep(n: Neighbor, ghost k: nat, h: Hello)
      returns (twoWay: bool, isNew: bool, preDr: uint32, preBdr: uint32, prePri: uint32)
      requires Valid() && k < |neighbors| && n == neighbors[k]
      modifies n
      ensures Valid()
      ensures twoWay == (settings.routerId in h.neighbors) && isNew == (old(Views())[k].state == Down)
      ensures var pre := HelloReceived(old(Views())[k]); preDr == pre.dr && preBdr == pre.bdr && prePri == pre.pri
      ensures var v := old(View()); var m := TakeHello(HelloReceived(v.neighbors[k]), h);
              View() == v.(neighbors := v.neighbors[k :=
                             if twoWay then TwoWayReceived(m, Adjacent(v, n.ip)) else OneWayReceived(m)])
    {
      hide Neighbor.View, TwoWayReceived, OneWayReceived, HelloReceived;
      ghost var v := View();
      twoWay, isNew, preDr, preBdr, prePri := n.ProcessHello(h, settings.routerId);
      assert Views() == v.neighbors[k := n.View()];
    }

    /**
     * A Hello packet. The election it may cause needs a candidate, as everywhere in the code.
     */
    method RecvHelloPacket(h: Hello)
      requires Valid() && AddressesFine(ip, Views()) && h.source != 0 && InterfaceSpec.RecvHello(View(), h).Some?
      modifies `state, `dr, `bdr, `neighbors, neighbors
      ensures Valid() && Some(View()) == InterfaceSpec.RecvHello(old(View()), h)
    {
      hide Neighbor.View, TwoWayReceived, OneWayReceived, Interface.Views, Raise, HelloSignal, WithNeighbor;
      if h.source == ip || h.options != settings.options || h.helloInterval != settings.helloInterval
         || h.deadInterval != settings.deadInterval {
        return;
      }
      var n, k := MeetNeighbor(h.source);
      ghost var w := View();
      var twoWay, isNew, preDr, preBdr, prePri := HelloStep(n, k, h);
      if twoWay {
        HelloAddresses(old(View()), h, Views()[k]);
        assert forall i :: 0 <= i < |neighbors| ==> fresh(neighbors[i]) || neighbors[i] in old(neighbors);
        Notify(n, preDr, preBdr, prePri, isNew, HelloReceived(w.neighbors[k]));
      } else {
        NoSignalNoEvent(View());
      }
    }

    /** The dispatch of interface events after a Hello. */
    method Notify(n: Neighbor, preDr: uint32, preBdr: uint32, prePri: uint32, isNew: bool, ghost pre: Nbr)
      requires Valid() && AddressesFine(ip, Views())
      requires pre.dr == preDr && pre.bdr == preBdr && pre.pri == prePri
      requires Raise(View(), HelloSignal(pre, n.View(), isNew, state == Waiting)).Some?
      modifies `state, `dr, `bdr, neighbors
      ensures Valid()
      ensures Some(View()) == Raise(old(View()), HelloSignal(pre, old(n.View()), isNew, old(state) == Waiting))
    {
      VotersAreProper(View());
      if prePri != n.pri && !isNew {
        EventNeighborChange();
      } else if n.dr == n.ip && n.bdr == 0 && state == Waiting {
        EventBackupSeen();
      } else if preDr != n.ip && n.dr == n.ip && !isNew {
        EventNeighborChange();
      } else if preDr == n.ip && n.dr != n.ip && !isNew {
        EventNeighborChange();
      } else if n.bdr == n.ip && state == Waiting {
        EventBackupSeen();
      } else if preBdr != n.ip && n.bdr == n.ip && !isNew {
        EventNeighborChange();
      } else if preBdr == n.ip && n.bdr != n.ip && !isNew {
        EventNeighborChange();
      }
    }

    method DdStep(n: Neighbor, ghost k: nat, p: DdPacket) returns (reachesFull: bool)
      requires Valid() && k < |neighbors| && n == neighbors[k]
      modifies n
      ensures Valid()
      ensures var v := old(View()); var m := RecvDd(v.neighbors[k], EnvFor(v, n.ip, lsdb.routers, lsdb.networks), p);
              && View() == v.(neighbors := v.neighbors[k := m])
              && reachesFull == (m.state == Full && v.neighbors[k].state != Full)
    {
      hide Neighbor.View, RecvDd;
      ghost var v := View();
      reachesFull := n.ProcessDd(p, settings.routerId, settings.options, lsdb);
      assert Views() == v.neighbors[k := n.View()];
    }

    method RecvDdPacket(src: uint32, p: DdPacket, originated: seq<LsaHeader>)
      requires Valid()
      modifies neighbors
      ensures Valid()
      ensures View() == RecvDdFrom(old(View()), src, p, lsdb.routers, lsdb.networks, originated)
    {
      hide Neighbor.View, RecvDd, QueueOwn, Interface.Views;
      if src == ip {
        return;
      }
      var n, k := FindNeighbor(src);
      if n == null {
        return;
      }
      var reachesFull := DdStep(n, k, p);
      if reachesFull {
        QueueOwnLsas(originated);
      }
    }

    /** The effect of `update_lsas` on the neighbours. */
    method QueueOwnLsas(hs: seq<LsaHeader>)
      requires Valid()
      modifies neighbors
      ensures Valid()
      ensures View() == old(View()).(neighbors := QueueOwn(old(Views()), hs))
    {
      hide Neighbor.View, QueueFor;
      ghost var v := View();
      for i := 0 to |neighbors|
        invariant Valid()
        invariant forall j :: 0 <= j < i ==> neighbors[j].View() == QueueFor(v.neighbors[j], hs)
        invariant forall j :: i <= j < |neighbors| ==> neighbors[j].View() == v.neighbors[j]
      {
        neighbors[i].Queue(hs);
      }
      assert Views() == QueueOwn(v.neighbors, hs);
    }

    /** The loop over a request packet: the reply, or nothing at the first LSA that is missing. */
    method CollectReply(rs: seq<LsRequest>) returns (reply: Option<seq<Advert>>)
      ensures reply == ReplyTo(rs, lsdb.routers, lsdb.networks)
    {
      var found := [];
      for i := 0 to |rs|
        invariant ReplyTo(rs[..i], lsdb.routers, lsdb.networks) == Some(found)
      {
        assert rs[..i + 1][..i] == rs[..i] && found + [] == found;
        if rs[i].lsType == LSA_ROUTER {
          var stored := lsdb.FindRouterLsa(rs[i].key.linkStateId, rs[i].key.advRouter);
          if stored == None {
            NoReplyStays(rs, i + 1, lsdb.routers, lsdb.networks);
            return None;
          }
          found := found + [RouterAdvert(stored.value)];
        } else if rs[i].lsType == LSA_NETWORK {
          var stored := lsdb.FindNetworkLsa(rs[i].key.linkStateId, rs[i].key.advRouter);
          if stored == None {
            NoReplyStays(rs, i + 1, lsdb.routers, lsdb.networks);
            return None;
          }
          found := found + [NetworkAdvert(stored.value)];
        }
      }
      assert rs[..|rs|] == rs;
      return Some(found);
    }

    /** A request packet, with the LSAs of the reply. */
    method RecvLsrPacket(src: uint32, rs: seq<LsRequest>) returns (reply: Option<seq<Advert>>)
      requires Valid() && src != ip && IndexOf(Views(), src) < |neighbors|
      modifies neighbors
      ensures Valid() && Some(View()) == RecvLsr(old(View()), src, rs, lsdb.routers, lsdb.networks)
      ensures reply == if Rank(old(Views())[IndexOf(old(Views()), src)].state) < Rank(Exchange) then None
                       else ReplyTo(rs, lsdb.routers, lsdb.networks)
    {
      hide Neighbor.View, BadLsReq, SomeUnanswerable, Interface.Views, ReplyTo;
      var n, k := FindNeighbor(src);
      var ready := n.AcceptsRequests();
      if !ready {
        return None;
      }
      reply := CollectReply(rs);
      ReplyIsCompleteIff(rs, lsdb.routers, lsdb.networks);
      if reply == None {
        BadRequestStep(n, k);
      }
    }

    method BadRequestStep(n: Neighbor, ghost k: nat)
      requires Valid() && k < |neighbors| && n == neighbors[k]
      modifies n
      ensures Valid() && Views() == old(Views())[k := BadLsReq(old(Views())[k])]
    {
      hide Neighbor.View;
      ghost var ns := Views();
      n.EventBadLsReq();
      assert Views() == ns[k := n.View()];
    }

    /** What an update packet works on, as a value, with what has gone out so far. */
    ghost function LsuView(aborted: bool, flooded: seq<LsaHeader>, acks: seq<LsaHeader>): LsuState
      reads this, neighbors, lsdb
    {
      LsuState(Views(), lsdb.routers, lsdb.networks, aborted, Receiver(state == BackupDr, dr, bdr), flooded, acks)
    }

    /** Flooding to all neighbours; `back` when the instance also leaves by this interface. */
    method FloodingLsa(h: LsaHeader, src: uint32, ghost st: LsuState) returns (back: bool)
      requires Valid() && st.neighbors == Views() && st.receiver == Receiver(state == BackupDr, dr, bdr)
      modifies neighbors
      ensures Valid()
      ensures forall j :: 0 <= j < |neighbors| ==> neighbors[j].View() == FloodTo(old(Views())[j], h, old(Views())[j].ip == src)
      ensures back == FloodsBack(st, h, src)
    {
      hide Neighbor.View, FloodTo, Queues;
      ghost var ns := Views();
      var added := false;
      for i := 0 to |neighbors|
        invariant Valid()
        invariant forall j :: 0 <= j < i ==> neighbors[j].View() == FloodTo(ns[j], h, ns[j].ip == src)
        invariant forall j :: i <= j < |neighbors| ==> neighbors[j].View() == ns[j]
        invariant added <==> exists j :: 0 <= j < i && Queues(ns[j], h, ns[j].ip == src)
      {
        var one := neighbors[i].FloodLsa(h, neighbors[i].ip == src);
        added := added || one;
      }
      back := added && src != dr && src != bdr && state != BackupDr;
    }

    /** Flooding, the removal of queued copies from all neighbours, and the choice of an answer. */
    method FloodAndClean(h: LsaHeader, src: uint32, ghost st: LsuState) returns (back: bool, ack: bool)
      requires Valid() && st.neighbors == Views() && st.receiver == Receiver(state == BackupDr, dr, bdr)
      modifies neighbors
      ensures Valid() && Views() == FloodAll(old(Views()), h, src)
      ensures back == FloodsBack(st, h, src) && ack == AcknowledgesLater(st, h, src)
    {
      hide Neighbor.View, FloodTo, Cleaned, Queues;
      ghost var ns := Views();
      back := FloodingLsa(h, src, st);
      CleanEveryone(h);
      assert Views() == FloodAll(ns, h, src);
      ack := false;
      if !back {
        if state == BackupDr {
          if src == dr {
            ack := true;
          }
        } else {
          ack := true;
        }
      }
    }

    method CleanEveryone(h: LsaHeader)
      requires Valid()
      modifies neighbors
      ensures Valid()
      ensures forall j :: 0 <= j < |neighbors| ==> neighbors[j].View() == Cleaned(old(Views())[j], KeyOf(h))
    {
      ghost var ns := Views();
      for i := 0 to |neighbors|
        invariant Valid()
        invariant forall j :: 0 <= j < i ==> neighbors[j].View() == Cleaned(ns[j], KeyOf(h))
        invariant forall j :: i <= j < |neighbors| ==> neighbors[j].View() == ns[j]
      {
        neighbors[i].DropQueued(KeyOf(h));
      }
    }

    /** The tests before the database lookup: checksum, type, MaxAge without a synchronising neighbour. */
    method PassesLsaTests(item: Item) returns (ok: bool)
      requires Valid()
      ensures ok == PassesTests(Views(), item)
    {
      var h := HeaderOf(item.advert);
      if !item.checksumOk {
        return false;
      }
      if h.lsType < 1 || h.lsType > 5 {
        return false;
      }
      var loadingOrExchange := false;
      for i := 0 to |neighbors|
        invariant forall j :: 0 <= j < i ==> neighbors[j].state != Exchange && neighbors[j].state != Loading
        invariant !loadingOrExchange
      {
        if neighbors[i].state == Exchange || neighbors[i].state == Loading {
          loadingOrExchange := true;
          assert Views()[i].state == neighbors[i].state;
          break;
        }
      }
      assert loadingOrExchange == SomeoneExchanges(Views());
      return !(h.age == MAX_AGE && !loadingOrExchange);
    }

    /** The lookup of the stored copy: whether there is one, and how the received one compares. */
    method LookUp(a: Advert, ghost st: LsuState) returns (known: bool, result: int)
      requires st.routers == lsdb.routers && st.networks == lsdb.networks
      ensures known ==> (IsNews(st, a) <==> result < 0)
      ensures !known ==> IsNews(st, a)
      ensures !IsNews(st, a) ==> result == CompareStored(st, a)
    {
      known, result := false, 0;
      match a
      case RouterAdvert(l) =>
        var stored := lsdb.FindRouterLsa(l.header.linkStateId, l.header.advRouter);
        if stored != None {
          known, result := true, Compare(l.header, stored.value.header);
        }
      case NetworkAdvert(l) =>
        var stored := lsdb.FindNetworkLsa(l.header.linkStateId, l.header.advRouter);
        if stored != None {
          known, result := true, Compare(l.header, stored.value.header);
        }
      case OtherAdvert(_) =>
    }

    method InstallAdvert(a: Advert, ghost aborted: bool, ghost flooded: seq<LsaHeader>, ghost acks: seq<LsaHeader>)
      requires Valid()
      modifies lsdb
      ensures Valid() && LsuView(aborted, flooded, acks) == Store(old(LsuView(aborted, flooded, acks)), a)
    {
      match a
      case RouterAdvert(l) => lsdb.InstallRouterLsa(l);
      case NetworkAdvert(l) => lsdb.InstallNetworkLsa(l);
      case OtherAdvert(_) =>
    }

    /** The sender's part when the received instance is no news; `bad` cuts the packet short. */
    method SenderStep(n: Neighbor, ghost k: nat, h: LsaHeader, result: int) returns (bad: bool)
      requires Valid() && k < |neighbors| && n == neighbors[k]
      modifies n
      ensures Valid()
      ensures var sender := old(Views())[k];
              && bad == (Position(sender.requests, KeyOf(h)) < |sender.requests|)
              && Views() == old(Views())[k := if bad then BadLsReq(sender)
                                              else if result == 0 then Cleaned(sender, KeyOf(h)) else sender]
    {
      hide Neighbor.View, Cleaned, BadLsReq, Position;
      ghost var ns := Views();
      bad := n.ReceiveOldLsa(h, result);
      assert Views() == ns[k := n.View()];
    }

    /** One advertisement; the outgoing lists are passed through. */
    method ReceiveOne(n: Neighbor, ghost k: nat, item: Item, flooded: seq<LsaHeader>, acks: seq<LsaHeader>)
      returns (bad: bool, flooded2: seq<LsaHeader>, acks2: seq<LsaHeader>)
      requires Valid() && k < |neighbors| && n == neighbors[k]
      modifies neighbors, lsdb
      ensures Valid() && LsuView(bad, flooded2, acks2) == ReceiveLsa(old(LsuView(false, flooded, acks)), k, item)
    {
      hide Neighbor.View, Interface.Views, Cleaned, BadLsReq, IsNews, CompareStored, PassesTests, Store, Install,
        FloodsBack, AcknowledgesLater, LsuSpec.FloodAndClean;
      ghost var st := LsuView(false, flooded, acks);
      bad, flooded2, acks2 := false, flooded, acks;
      var ok := PassesLsaTests(item);
      if !ok {
        return;
      }
      var h := HeaderOf(item.advert);
      var known, result := LookUp(item.advert, st);
      if !known || result < 0 {
        var back, ack := FloodAndClean(h, n.ip, st);
        if back {
          flooded2 := flooded + [h];
        }
        if ack {
          acks2 := acks + [h];
        }
        assert LsuView(false, flooded2, acks2) == Flood(st, h, n.ip);
        InstallAdvert(item.advert, false, flooded2, acks2);
        return;
      }
      bad := SenderStep(n, k, h, result);
      if !bad && item.advert.NetworkAdvert? {
        InstallAdvert(item.advert, false, flooded, acks);
      }
    }

    /** A whole update packet: what was flooded back, and the acknowledgement packet if one is sent. */
    method RecvLsuPacket(src: uint32, items: seq<Item>) returns (flooded: seq<LsaHeader>, ack: Option<seq<LsaHeader>>)
      requires Valid() && src != ip && IndexOf(Views(), src) < |neighbors|
      modifies neighbors, lsdb
      ensures Valid()
      ensures var st := ReceiveLsu(LsuStateOf(old(View()), old(lsdb.routers), old(lsdb.networks)), IndexOf(old(Views()), src), items);
              LsuView(st.aborted, flooded, st.acks) == st && ack == AckPacket(st)
      ensures Some(View()) == RecvLsu(old(View()), src, items, old(lsdb.routers), old(lsdb.networks))
    {
      hide Neighbor.View, ReceiveLsa;
      var n, k := FindNeighbor(src);
      ghost var st := LsuView(false, [], []);
      var bad := false;
      var acks := [];
      flooded := [];
      for i := 0 to |items|
        invariant Valid() && !bad
        invariant LsuView(false, flooded, acks) == ReceiveLsu(st, k, items[..i])
      {
        assert items[..i + 1][..i] == items[..i];
        bad, flooded, acks := ReceiveOne(n, k, items[i], flooded, acks);
        if bad {
          AbortedStays(st, k, items, i + 1);
          break;
        }
      }
      assert items[..|items|] == items;
      ack := if !bad && |acks| > 0 then Some(acks) else None;
    }

    method RecvLsAckPacket(src: uint32, hs: seq<LsaHeader>)
      requires Valid() && src != ip && IndexOf(Views(), src) < |neighbors|
      modifies neighbors
      ensures Valid() && Some(View()) == RecvLsAck(old(View()), src, hs)
    {
      var n, k := FindNeighbor(src);
      if Rank(n.state) < Rank(Exchange) {
        return;
      }
      AckStep(n, k, hs);
    }

    method AckStep(n: Neighbor, ghost k: nat, hs: seq<LsaHeader>)
      requires Valid() && k < |neighbors| && n == neighbors[k]
      modifies n
      ensures Valid()
      ensures var v := old(View());
              View() == v.(neighbors := v.neighbors[k := v.neighbors[k].(retransmissions :=
                             AcknowledgeAll(v.neighbors[k].retransmissions, hs))])
    {
      ghost var v := View();
      n.Acknowledged(hs);
      assert Views() == v.neighbors[k := n.View()];
    }
  }

  method FindHeader(list: seq<LsaHeader>, k: Key) returns (at: nat)
    ensures at == Position(list, k)
  {
    at := 0;
    while at < |list|
      invariant at <= |list| && Position(list, k) == at + Position(list[at..], k)
    {
      if KeyOf(list[at]) == k {
        return;
      }
      assert list[at..][1..] == list[at + 1..];
      at := at + 1;
    }
  }

  method RemoveHeaders(list: seq<LsaHeader>, k: Key) returns (r: seq<LsaHeader>)
    ensures r == Without(list, k)
  {
    r := [];
    for i := 0 to |list|
      invariant r == Without(list[..i], k)
    {
      assert list[..i + 1][..i] == list[..i];
      if KeyOf(list[i]) != k {
        r := r + [list[i]];
      }
    }
    assert list[..|list|] == list;
  }

  /** The search and the erasure of one acknowledged header. */
  method EraseFirst(list: seq<LsaHeader>, h: LsaHeader) returns (r: seq<LsaHeader>)
    ensures r == Acknowledge(list, h)
  {
    hide Acknowledge;
    for i := 0 to |list|
      invariant Acknowledge(list, h) == list[..i] + Acknowledge(list[i..], h)
    {
      AcknowledgeHead(list[i..], h);
      assert list[i..][1..] == list[i + 1..];
      if list[i].lsType == h.lsType && list[i].linkStateId == h.linkStateId && list[i].advRouter == h.advRouter {
        return list[..i] + list[i + 1..];
      }
      assert list[..i + 1] == list[..i] + [list[i]];
    }
    AcknowledgeNone(h);
    return list;
  }

  lemma AcknowledgeHead(list: seq<LsaHeader>, h: LsaHeader)
    requires list != []
    ensures Acknowledge(list, h)
         == if list[0].lsType == h.lsType && KeyOf(list[0]) == KeyOf(h) then list[1..]
            else [list[0]] + Acknowledge(list[1..], h)
  {
  }

  lemma AcknowledgeNone(h: LsaHeader)
    ensures Acknowledge([], h) == []
  {
  }
}
