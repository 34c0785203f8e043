/**
 * Link State Update packets as functions on values: section 13 of RFC 2328 as implemented in the
 * LSU branch of the receive thread and in `flooding_lsa` (src/ospf.cpp).
 */
module LsuSpec {
  import opened Basics
  import opened Lsa
  import opened Lsdb
  import opened NeighborSpec
  import opened Lists

  datatype Advert = RouterAdvert(router: RouterLsa) | NetworkAdvert(network: NetworkLsa) | OtherAdvert(other: LsaHeader)

  function HeaderOf(a: Advert): LsaHeader {
    match a
    case RouterAdvert(l) => l.header
    case NetworkAdvert(l) => l.header
    case OtherAdvert(h) => h
  }

  /** The constructor follows the type octet. */
  predicate WellTyped(a: Advert) {
    match a
    case RouterAdvert(l) => l.header.lsType == LSA_ROUTER
    case NetworkAdvert(l) => l.header.lsType == LSA_NETWORK
    case OtherAdvert(h) => h.lsType != LSA_ROUTER && h.lsType != LSA_NETWORK
  }

  /** An advertisement as the walk over the packet finds it, with the result of its checksum test. */
  datatype Item = Item(advert: Advert, checksumOk: bool)

  /** What flooding and acknowledgement read of the receiving interface. */
  datatype Receiver = Receiver(isBackup: bool, dr: uint32, bdr: uint32)

  /**
   * The neighbours of the receiving interface and the database; `aborted` after a bad request. The
   * two lists collect what goes out of that interface: instances flooded back, delayed acknowledgements.
   */
  datatype LsuState = LsuState(
    neighbors: seq<Nbr>, routers: seq<RouterLsa>, networks: seq<NetworkLsa>, aborted: bool,
    receiver: Receiver, flooded: seq<LsaHeader>, acks: seq<LsaHeader>)

  // ---------------------------------------------------------------------------
  // Header lists
  // ---------------------------------------------------------------------------

  /** `remove_if` on a list of headers; the type is not compared. */
  function Without(list: seq<LsaHeader>, k: Key): seq<LsaHeader> {
    if list == [] then []
    else Without(list[..|list| - 1], k) + (if KeyOf(list[|list| - 1]) == k then [] else [list[|list| - 1]])
  }

  /** `find_if` on a list of headers: the first position with the key, or the end. */
  function Position(list: seq<LsaHeader>, k: Key): (i: nat)
    ensures i <= |list|
    ensures i < |list| ==> KeyOf(list[i]) == k
  {
    if list == [] || KeyOf(list[0]) == k then 0 else 1 + Position(list[1..], k)
  }

  function Erase(list: seq<LsaHeader>, i: nat): seq<LsaHeader>
    requires i < |list|
  {
    list[..i] + list[i + 1..]
  }

  ghost predicate HasKey(list: seq<LsaHeader>, k: Key) {
    exists i :: 0 <= i < |list| && KeyOf(list[i]) == k
  }

  lemma {:induction false} PositionFindsFirst(list: seq<LsaHeader>, k: Key)
    ensures Position(list, k) < |list| <==> HasKey(list, k)
    ensures forall i :: 0 <= i < Position(list, k) ==> KeyOf(list[i]) != k
  {
    if list != [] && KeyOf(list[0]) != k {
      PositionFindsFirst(list[1..], k);
      if HasKey(list, k) {
        var i :| 0 <= i < |list| && KeyOf(list[i]) == k;
        assert list[1..][i - 1] == list[i];
      }
    }
  }

  lemma {:induction false} PositionIs(list: seq<LsaHeader>, k: Key, p: nat)
    requires p <= |list| && (forall q :: 0 <= q < p ==> KeyOf(list[q]) != k)
    requires p < |list| ==> KeyOf(list[p]) == k
    ensures Position(list, k) == p
  {
    if p > 0 {
      PositionIs(list[1..], k, p - 1);
    }
  }

  lemma {:induction false} WithoutHasNone(list: seq<LsaHeader>, k: Key)
    ensures !HasKey(Without(list, k), k)
  {
    if list != [] {
      WithoutHasNone(list[..|list| - 1], k);
    }
  }

  /** Exactly the headers with that key go; the others stay, in order and as often as before. */
  lemma {:induction false} WithoutCollected(list: seq<LsaHeader>, k: Key)
    ensures Collected(list, h => DiffersFrom(h, k), h => h, Without(list, k))
  {
    hide Collected;
    if list == [] {
      NothingCollected((h: LsaHeader) => DiffersFrom(h, k), (h: LsaHeader) => h);
    } else {
      WithoutCollected(list[..|list| - 1], k);
      OneMoreCollected(list, h => DiffersFrom(h, k), h => h,
                       Without(list[..|list| - 1], k));
    }
  }

  // ---------------------------------------------------------------------------
  // One advertisement
  // ---------------------------------------------------------------------------

  /** `flooding_lsa` for one neighbour of the interface. Neighbours in Full are passed over. */
  function FloodTo(n: Nbr, h: LsaHeader, isSource: bool): Nbr {
    if h.lsType == LSA_ASEXTERNAL || !(n.state == Exchange || n.state == Loading) then n
    else
      var i := Position(n.requests, KeyOf(h));
      if i == |n.requests| then n.(retransmissions := n.retransmissions + [h])
      else if Compare(h, n.requests[i]) > 0 then n
      else if Compare(h, n.requests[i]) == 0 || isSource then n.(requests := Erase(n.requests, i))
      else n.(requests := Erase(n.requests, i), retransmissions := n.retransmissions + [h])
  }

  /** Whether flooding queues the instance for a neighbour. */
  predicate Queues(n: Nbr, h: LsaHeader, isSource: bool) {
    && h.lsType != LSA_ASEXTERNAL && (n.state == Exchange || n.state == Loading)
    && (var i := Position(n.requests, KeyOf(h));
        i == |n.requests| || (!isSource && Newer(h, n.requests[i])))
  }

  lemma FloodQueues(n: Nbr, h: LsaHeader, isSource: bool)
    ensures FloodTo(n, h, isSource).retransmissions
         == n.retransmissions + (if Queues(n, h, isSource) then [h] else [])
  {
  }

  /** The instance goes out of the interface it came in on. */
  predicate FloodsBack(st: LsuState, h: LsaHeader, src: uint32) {
    && (exists i :: 0 <= i < |st.neighbors| && Queues(st.neighbors[i], h, st.neighbors[i].ip == src))
    && src != st.receiver.dr && src != st.receiver.bdr && !st.receiver.isBackup
  }

  /** Otherwise it is acknowledged, by a backup only to the Designated Router. */
  predicate AcknowledgesLater(st: LsuState, h: LsaHeader, src: uint32) {
    !FloodsBack(st, h, src) && (st.receiver.isBackup ==> src == st.receiver.dr)
  }

  /** The neighbours' lists and the outgoing lists after an accepted instance. */
  function Flood(st: LsuState, h: LsaHeader, src: uint32): (r: LsuState)
    ensures |r.neighbors| == |st.neighbors|
  {
    st.(neighbors := FloodAll(st.neighbors, h, src),
        flooded := if FloodsBack(st, h, src) then st.flooded + [h] else st.flooded,
        acks := if AcknowledgesLater(st, h, src) then st.acks + [h] else st.acks)
  }

  function Cleaned(n: Nbr, k: Key): Nbr {
    n.(retransmissions := Without(n.retransmissions, k))
  }

  /** Flooding, then the removal of older copies from the same neighbour's list. */
  function FloodAndClean(n: Nbr, h: LsaHeader, src: uint32): Nbr {
    Cleaned(FloodTo(n, h, n.ip == src), KeyOf(h))
  }

  function FloodAll(ns: seq<Nbr>, h: LsaHeader, src: uint32): (r: seq<Nbr>)
    ensures |r| == |ns|
    ensures forall i :: 0 <= i < |ns| ==> r[i] == FloodAndClean(ns[i], h, src)
  {
    if ns == [] then [] else FloodAll(ns[..|ns| - 1], h, src) + [FloodAndClean(ns[|ns| - 1], h, src)]
  }

  /** Whether the received instance is installed and flooded. */
  predicate IsNews(st: LsuState, a: Advert) {
    match a
    case RouterAdvert(l) => Supersedes(st.routers, l.header)
    case NetworkAdvert(l) => Supersedes(st.networks, l.header)
    case OtherAdvert(_) => true
  }

  /** The comparison with the stored copy, which exists when the instance is no news. */
  function CompareStored(st: LsuState, a: Advert): int
    requires !IsNews(st, a)
  {
    match a
    case RouterAdvert(l) => Compare(l.header, Find(st.routers, KeyOf(l.header)).value.header)
    case NetworkAdvert(l) => Compare(l.header, Find(st.networks, KeyOf(l.header)).value.header)
  }

  /** Installation; advertisements of other types are not stored. */
  function Store(st: LsuState, a: Advert): LsuState {
    match a
    case RouterAdvert(l) => st.(routers := Install(st.routers, l))
    case NetworkAdvert(l) => st.(networks := Install(st.networks, l))
    case OtherAdvert(_) => st
  }

  predicate SomeoneExchanges(ns: seq<Nbr>) {
    exists i :: 0 <= i < |ns| && (ns[i].state == Exchange || ns[i].state == Loading)
  }

  /** The tests before the database is consulted: checksum, type, and discarding of MaxAge. */
  predicate PassesTests(ns: seq<Nbr>, item: Item) {
    var h := HeaderOf(item.advert);
    item.checksumOk && GoodType(h) && (h.age == MAX_AGE ==> SomeoneExchanges(ns))
  }

  /** One advertisement from the neighbour at position `at`. */
  function ReceiveLsa(st: LsuState, at: nat, item: Item): (r: LsuState)
    requires at < |st.neighbors|
    ensures |r.neighbors| == |st.neighbors|
  {
    var sender := st.neighbors[at];
    var h := HeaderOf(item.advert);
    if !PassesTests(st.neighbors, item) then st
    else if IsNews(st, item.advert) then
      Store(Flood(st, h, sender.ip), item.advert)
    else if Position(sender.requests, KeyOf(h)) < |sender.requests| then
      st.(neighbors := st.neighbors[at := BadLsReq(sender)], aborted := true)
    else
      var acked := if CompareStored(st, item.advert) == 0 then Cleaned(sender, KeyOf(h)) else sender;
      var st1 := st.(neighbors := st.neighbors[at := acked]);
      if item.advert.NetworkAdvert? then Store(st1, item.advert) else st1
  }

  /** The loop over a packet; a bad request ends it. */
  function ReceiveLsu(st: LsuState, at: nat, items: seq<Item>): (r: LsuState)
    requires at < |st.neighbors|
    ensures |r.neighbors| == |st.neighbors|
  {
    if items == [] then st
    else
      var s := ReceiveLsu(st, at, items[..|items| - 1]);
      if s.aborted then s else ReceiveLsa(s, at, items[|items| - 1])
  }

  /** Nothing after a bad request is looked at. */
  lemma {:induction false} AbortedStays(st: LsuState, at: nat, items: seq<Item>, i: nat)
    requires at < |st.neighbors| && i <= |items| && ReceiveLsu(st, at, items[..i]).aborted
    ensures ReceiveLsu(st, at, items) == ReceiveLsu(st, at, items[..i])
  {
    if i == |items| {
      assert items[..i] == items;
    } else {
      assert items[..|items| - 1][..i] == items[..i];
      AbortedStays(st, at, items[..|items| - 1], i);
    }
  }

  // ---------------------------------------------------------------------------
  // The database after packets
  // ---------------------------------------------------------------------------

  /** The ages that the conversion from network order leaves. */
  predicate Converted(items: seq<Item>) {
    forall i :: 0 <= i < |items| ==> HeaderOf(items[i].advert).age == 0 && WellTyped(items[i].advert)
  }

  /** The router advertisements of a packet that pass the checksum, in order. */
  function ValidRouters(items: seq<Item>): seq<RouterLsa> {
    if items == [] then []
    else
      var i := items[|items| - 1];
      ValidRouters(items[..|items| - 1]) + (if i.advert.RouterAdvert? && i.checksumOk then [i.advert.router] else [])
  }

  function ValidNetworks(items: seq<Item>): seq<NetworkLsa> {
    if items == [] then []
    else
      var i := items[|items| - 1];
      ValidNetworks(items[..|items| - 1]) + (if i.advert.NetworkAdvert? && i.checksumOk then [i.advert.network] else [])
  }

  lemma {:induction false} ReceiveRoutersAppend<B>(v: seq<Lsa<B>>, ls: seq<Lsa<B>>, l: Lsa<B>)
    ensures ReceiveRouters(v, ls + [l]) == ReceiveRouter(ReceiveRouters(v, ls), l)
    decreases ls
  {
    if ls == [] {
      assert [l][1..] == [];
    } else {
      assert (ls + [l])[1..] == ls[1..] + [l];
      ReceiveRoutersAppend(ReceiveRouter(v, ls[0]), ls[1..], l);
    }
  }

  /**
   * A packet that is not cut short by a bad request changes the database exactly like its valid
   * advertisements fed to the two vectors one by one, whatever the neighbours' lists hold.
   */
  lemma {:induction false} DatabaseAfterLsu(st: LsuState, at: nat, items: seq<Item>)
    requires at < |st.neighbors| && Converted(items)
    requires !ReceiveLsu(st, at, items).aborted
    ensures ReceiveLsu(st, at, items).routers == ReceiveRouters(st.routers, ValidRouters(items))
    ensures ReceiveLsu(st, at, items).networks == ReceiveNetworks(st.networks, ValidNetworks(items))
  {
    if items != [] {
      var front, i := items[..|items| - 1], items[|items| - 1];
      hide ReceiveLsa, ReceiveRouters, ReceiveNetworks, ReceiveRouter, Install;
      DatabaseAfterLsu(st, at, front);
      DatabaseAfterLsa(ReceiveLsu(st, at, front), at, i);
      if i.advert.RouterAdvert? && i.checksumOk {
        ReceiveRoutersAppend(st.routers, ValidRouters(front), i.advert.router);
      } else {
        assert ValidRouters(items) == ValidRouters(front);
      }
      if i.advert.NetworkAdvert? && i.checksumOk {
        ReceiveNetworksAppend(st.networks, ValidNetworks(front), i.advert.network);
      } else {
        assert ValidNetworks(items) == ValidNetworks(front);
      }
    }
  }

  lemma DatabaseAfterLsa(st: LsuState, at: nat, item: Item)
    requires at < |st.neighbors| && Converted([item])
    requires !ReceiveLsa(st, at, item).aborted && !st.aborted
    ensures ReceiveLsa(st, at, item).routers
         == if item.advert.RouterAdvert? && item.checksumOk then ReceiveRouter(st.routers, item.advert.router) else st.routers
    ensures ReceiveLsa(st, at, item).networks
         == if item.advert.NetworkAdvert? && item.checksumOk then Install(st.networks, item.advert.network) else st.networks
  {
    assert [item][0] == item;
  }

  /** A packet is cut short exactly at an advertisement that is no news but still requested from its sender. */
  lemma AbortsIff(st: LsuState, at: nat, item: Item)
    requires at < |st.neighbors| && !st.aborted
    ensures ReceiveLsa(st, at, item).aborted
            <==> (&& PassesTests(st.neighbors, item) && !IsNews(st, item.advert)
                  && HasKey(st.neighbors[at].requests, KeyOf(HeaderOf(item.advert))))
  {
    PositionFindsFirst(st.neighbors[at].requests, KeyOf(HeaderOf(item.advert)));
  }

  /** A packet and the position of its sender in the neighbour list. */
  datatype Delivery = Delivery(at: nat, items: seq<Item>)

  /** A run of packets; each starts with the abort flag cleared. */
  function ReceiveAll(st: LsuState, ds: seq<Delivery>): (r: LsuState)
    ensures |r.neighbors| == |st.neighbors|
  {
    if ds == [] then st
    else
      var s := ReceiveAll(st, ds[..|ds| - 1]);
      var d := ds[|ds| - 1];
      if d.at < |s.neighbors| then ReceiveLsu(s.(aborted := false), d.at, d.items) else s
  }

  /** Every packet has a known sender, carries converted headers, and is processed to its end. */
  ghost predicate CleanRun(st: LsuState, ds: seq<Delivery>) {
    forall k :: 0 <= k < |ds| ==> CleanDelivery(st, ds, k)
  }

  ghost predicate CleanDelivery(st: LsuState, ds: seq<Delivery>, k: nat)
    requires k < |ds|
  {
    && ds[k].at < |st.neighbors| && Converted(ds[k].items)
    && !ReceiveAll(st, ds[..k + 1]).aborted
  }

  function AllValidRouters(ds: seq<Delivery>): seq<RouterLsa> {
    if ds == [] then [] else AllValidRouters(ds[..|ds| - 1]) + ValidRouters(ds[|ds| - 1].items)
  }

  lemma {:induction false} ReceiveRoutersConcat<B>(v: seq<Lsa<B>>, xs: seq<Lsa<B>>, ys: seq<Lsa<B>>)
    ensures ReceiveRouters(v, xs + ys) == ReceiveRouters(ReceiveRouters(v, xs), ys)
    decreases xs
  {
    if xs == [] {
      assert xs + ys == ys;
    } else {
      assert (xs + ys)[1..] == xs[1..] + ys;
      ReceiveRoutersConcat(ReceiveRouter(v, xs[0]), xs[1..], ys);
    }
  }

  lemma {:induction false} RoutersAfterRun(st: LsuState, ds: seq<Delivery>)
    requires CleanRun(st, ds)
    ensures ReceiveAll(st, ds).routers == ReceiveRouters(st.routers, AllValidRouters(ds))
  {
    if ds != [] {
      var front, d := ds[..|ds| - 1], ds[|ds| - 1];
      forall k: nat | k < |front|
        ensures CleanDelivery(st, front, k)
      {
        assert CleanDelivery(st, ds, k);
        assert front[..k + 1] == ds[..k + 1];
      }
      RoutersAfterRun(st, front);
      assert CleanDelivery(st, ds, |ds| - 1) && ds[..|ds|] == ds;
      DatabaseAfterLsu(ReceiveAll(st, front).(aborted := false), d.at, d.items);
      ReceiveRoutersConcat(st.routers, AllValidRouters(front), ValidRouters(d.items));
    }
  }

  /**
   * Flooding converges at the level of packets: two routers that start with the same router
   * vector and receive the same valid router LSAs, split into packets, ordered, repeated and mixed
   * with network LSAs in any way and from any neighbours, end with the same map up to age,
   * provided no packet is cut short.
   */
  lemma PacketFloodingConverges(s: LsuState, t: LsuState, ds: seq<Delivery>, es: seq<Delivery>)
    requires CleanRun(s, ds) && CleanRun(t, es)
    requires s.routers == t.routers
    requires forall l :: l in AllValidRouters(ds) <==> l in AllValidRouters(es)
    requires Coherent(iset l | l in s.routers || l in AllValidRouters(ds))
    ensures SameMapUpToAge(ReceiveAll(s, ds).routers, ReceiveAll(t, es).routers)
  {
    RoutersAfterRun(s, ds);
    RoutersAfterRun(t, es);
    FloodingConverges(s.routers, AllValidRouters(ds), AllValidRouters(es));
  }

  // ---------------------------------------------------------------------------
  // Answers
  // ---------------------------------------------------------------------------

  /**
   * Every accepted instance is answered on the interface it came from, by flooding it back or by an
   * acknowledgement and never by both, unless this router is the backup and the sender not the DR.
   */
  lemma AcceptedIsAnsweredIff(st: LsuState, at: nat, item: Item)
    requires at < |st.neighbors| && PassesTests(st.neighbors, item) && IsNews(st, item.advert)
    ensures var r, h, n := ReceiveLsa(st, at, item), HeaderOf(item.advert), st.neighbors[at];
            && (r.flooded == st.flooded + [h] || r.flooded == st.flooded)
            && (r.acks == st.acks + [h] || r.acks == st.acks)
            && !(r.flooded != st.flooded && r.acks != st.acks)
            && (r.flooded == st.flooded && r.acks == st.acks
                <==> st.receiver.isBackup && n.ip != st.receiver.dr)
  {
    hide FloodAll, Queues, Install;
    var r, h := ReceiveLsa(st, at, item), HeaderOf(item.advert);
    assert st.flooded + [h] != st.flooded && st.acks + [h] != st.acks;
  }

  /**
   * An accepted instance goes back out of the interface if and only if flooding added it to some
   * neighbour's retransmission list, its sender is neither DR nor backup, and this router is not
   * the backup.
   */
  lemma FloodedBackIff(st: LsuState, at: nat, item: Item)
    requires at < |st.neighbors| && PassesTests(st.neighbors, item) && IsNews(st, item.advert)
    ensures var h, src := HeaderOf(item.advert), st.neighbors[at].ip;
            ReceiveLsa(st, at, item).flooded == st.flooded + [h]
            <==> && (exists i :: 0 <= i < |st.neighbors|
                       && FloodTo(st.neighbors[i], h, st.neighbors[i].ip == src).retransmissions
                          == st.neighbors[i].retransmissions + [h])
                 && src != st.receiver.dr && src != st.receiver.bdr && !st.receiver.isBackup
  {
    hide PassesTests, IsNews, Without;
    var h, src := HeaderOf(item.advert), st.neighbors[at].ip;
    forall i | 0 <= i < |st.neighbors|
      ensures FloodTo(st.neighbors[i], h, st.neighbors[i].ip == src).retransmissions == st.neighbors[i].retransmissions + [h]
              <==> Queues(st.neighbors[i], h, st.neighbors[i].ip == src)
    {
      FloodQueues(st.neighbors[i], h, st.neighbors[i].ip == src);
      assert st.neighbors[i].retransmissions + [h] != st.neighbors[i].retransmissions;
    }
    assert st.flooded + [h] != st.flooded;
  }

  /**
   * News that can be answered is discarded if and only if its checksum fails, its type is unknown, or
   * it has the maximal age and no neighbour is in Exchange or Loading.
   */
  lemma DiscardedIff(st: LsuState, at: nat, item: Item)
    requires at < |st.neighbors| && IsNews(st, item.advert)
    requires st.receiver.isBackup ==> st.neighbors[at].ip == st.receiver.dr
    ensures var h := HeaderOf(item.advert);
            ReceiveLsa(st, at, item) == st
            <==> || !item.checksumOk || h.lsType < 1 || h.lsType > 5
                 || (h.age == 3600
                     && forall i :: 0 <= i < |st.neighbors| ==> st.neighbors[i].state !in {Exchange, Loading})
  {
    hide IsNews, FloodsBack, Install, FloodAll;
    assert st.flooded + [HeaderOf(item.advert)] != st.flooded && st.acks + [HeaderOf(item.advert)] != st.acks;
  }

  /** The acknowledgement packet after the loop; a bad request drops it. */
  function AckPacket(st: LsuState): Option<seq<LsaHeader>> {
    if !st.aborted && st.acks != [] then Some(st.acks) else None
  }

  /** Instances that are no news are neither flooded nor acknowledged by the packet. */
  lemma OldIsNotAnswered(st: LsuState, at: nat, item: Item)
    requires at < |st.neighbors| && !(PassesTests(st.neighbors, item) && IsNews(st, item.advert))
    ensures ReceiveLsa(st, at, item).flooded == st.flooded && ReceiveLsa(st, at, item).acks == st.acks
  {
  }

  /**
   * Unless this router is a backup that hears somebody other than the DR, an advertisement that passes
   * the tests is answered if and only if the database has no instance of it or an older one; of types
   * that are not stored every instance is.
   */
  lemma AnsweredIffNews(st: LsuState, at: nat, item: Item)
    requires at < |st.neighbors| && PassesTests(st.neighbors, item)
    requires st.receiver.isBackup ==> st.neighbors[at].ip == st.receiver.dr
    ensures var r := ReceiveLsa(st, at, item);
            r.flooded != st.flooded || r.acks != st.acks
            <==> match item.advert
                 case RouterAdvert(l) =>
                   var stored := Find(st.routers, KeyOf(l.header)); stored.None? || Newer(l.header, stored.value.header)
                 case NetworkAdvert(l) =>
                   var stored := Find(st.networks, KeyOf(l.header)); stored.None? || Newer(l.header, stored.value.header)
                 case OtherAdvert(_) => true
  {
    hide PassesTests, FloodsBack, FloodAll, Install;
    assert st.flooded + [HeaderOf(item.advert)] != st.flooded && st.acks + [HeaderOf(item.advert)] != st.acks;
  }

  /** One bad request drops the acknowledgements of the whole packet; otherwise there is one for all that is due. */
  lemma BadRequestDropsAcks(st: LsuState, at: nat, items: seq<Item>, i: nat)
    requires at < |st.neighbors| && i <= |items|
    ensures ReceiveLsu(st, at, items[..i]).aborted ==> AckPacket(ReceiveLsu(st, at, items)) == None
    ensures var r := ReceiveLsu(st, at, items); !r.aborted && r.acks != [] ==> AckPacket(r) == Some(r.acks)
  {
    if ReceiveLsu(st, at, items[..i]).aborted { AbortedStays(st, at, items, i); }
  }

  // ---------------------------------------------------------------------------
  // Retransmission lists
  // ---------------------------------------------------------------------------

  /**
   * The clean-up of older copies runs after the new copy was queued and does not tell them apart:
   * after an accepted advertisement no neighbour of the receiving interface has it queued.
   */
  lemma AcceptedCopyIsNotQueued(st: LsuState, at: nat, item: Item, i: nat)
    requires at < |st.neighbors| && i < |st.neighbors|
    requires PassesTests(st.neighbors, item) && IsNews(st, item.advert)
    ensures !HasKey(ReceiveLsa(st, at, item).neighbors[i].retransmissions, KeyOf(HeaderOf(item.advert)))
  {
    var n := st.neighbors[i];
    var h := HeaderOf(item.advert);
    WithoutHasNone(FloodTo(n, h, n.ip == st.neighbors[at].ip).retransmissions, KeyOf(h));
  }

  lemma CopyIsCleaned(n: Nbr, h: LsaHeader, isSource: bool)
    ensures Without(FloodTo(n, h, isSource).retransmissions, KeyOf(h)) == Without(n.retransmissions, KeyOf(h))
  {
    var list := n.retransmissions;
    assert (list + [h])[..|list + [h]| - 1] == list;
  }

  /**
   * After an accepted advertisement each neighbour's retransmission list is the old one with exactly
   * the entries of that key gone.
   */
  lemma AcceptedClearsKey(st: LsuState, at: nat, item: Item, i: nat)
    requires at < |st.neighbors| && i < |st.neighbors|
    requires PassesTests(st.neighbors, item) && IsNews(st, item.advert)
    ensures var k := KeyOf(HeaderOf(item.advert));
            Collected(st.neighbors[i].retransmissions, h => DiffersFrom(h, k), h => h,
                      ReceiveLsa(st, at, item).neighbors[i].retransmissions)
  {
    hide Collected, FloodTo, Without, PassesTests, IsNews, FloodsBack, AcknowledgesLater;
    var n := st.neighbors[i];
    var h := HeaderOf(item.advert);
    CopyIsCleaned(n, h, n.ip == st.neighbors[at].ip);
    WithoutCollected(n.retransmissions, KeyOf(h));
  }

  /**
   * An advertisement that is no news and not requested: the very copy in the database acknowledges
   * what was sent to its sender, and nothing else happens to any neighbour.
   */
  lemma OldAcknowledgesExactly(st: LsuState, at: nat, item: Item, i: nat)
    requires at < |st.neighbors| && i < |st.neighbors|
    requires PassesTests(st.neighbors, item) && !IsNews(st, item.advert)
    requires !HasKey(st.neighbors[at].requests, KeyOf(HeaderOf(item.advert)))
    ensures var n, m := st.neighbors[i], ReceiveLsa(st, at, item).neighbors[i];
            && m == n.(retransmissions := m.retransmissions)
            && if i == at && CompareStored(st, item.advert) == 0
               then var k := KeyOf(HeaderOf(item.advert));
                    Collected(n.retransmissions, h => DiffersFrom(h, k), h => h,
                              m.retransmissions)
               else m == n
  {
    hide Collected, Without, PassesTests, IsNews, CompareStored, Install;
    PositionFindsFirst(st.neighbors[at].requests, KeyOf(HeaderOf(item.advert)));
    WithoutCollected(st.neighbors[i].retransmissions, KeyOf(HeaderOf(item.advert)));
  }

  // ---------------------------------------------------------------------------
  // Request lists
  // ---------------------------------------------------------------------------

  /**
   * What an accepted instance does to the request list of each neighbour it is flooded to: the first
   * request with its key leaves if the instance is at least as new, and nothing else.
   */
  lemma AcceptedTakesRequest(st: LsuState, at: nat, item: Item, i: nat, p: nat)
    requires at < |st.neighbors| && i < |st.neighbors|
    requires PassesTests(st.neighbors, item) && IsNews(st, item.advert)
    requires var list, k := st.neighbors[i].requests, KeyOf(HeaderOf(item.advert));
             && p <= |list| && (forall q :: 0 <= q < p ==> KeyOf(list[q]) != k)
             && (p < |list| ==> KeyOf(list[p]) == k)
    ensures var n, h := st.neighbors[i], HeaderOf(item.advert);
            ReceiveLsa(st, at, item).neighbors[i].requests
            == if (n.state == Exchange || n.state == Loading) && h.lsType != LSA_ASEXTERNAL
                  && p < |n.requests| && !Newer(n.requests[p], h)
               then n.requests[..p] + n.requests[p + 1..]
               else n.requests
  {
    hide PassesTests, IsNews, FloodsBack, AcknowledgesLater, Without, Compare;
    var n, h := st.neighbors[i], HeaderOf(item.advert);
    PositionIs(n.requests, KeyOf(h), p);
    if p < |n.requests| { CompareFlips(h, n.requests[p]); }
  }

  lemma CompareFlips(a: LsaHeader, b: LsaHeader)
    ensures Compare(a, b) > 0 <==> Newer(b, a)
  {
  }

  /**
   * An advertisement that is no news but still requested sends its sender back to ExStart with empty
   * lists; other neighbours, the database and the outgoing lists stay.
   */
  lemma AbortRestartsSender(st: LsuState, at: nat, item: Item)
    requires at < |st.neighbors| && !st.aborted && ReceiveLsa(st, at, item).aborted
    requires Rank(st.neighbors[at].state) >= Rank(Exchange)
    ensures var r := ReceiveLsa(st, at, item);
            && r.neighbors[at].state == ExStart && ListsEmpty(r.neighbors[at])
            && r.neighbors[at].ddSeqNum == st.neighbors[at].ddSeqNum && r.neighbors[at].lastSend == st.neighbors[at].lastSend
            && (forall i :: 0 <= i < |st.neighbors| && i != at ==> r.neighbors[i] == st.neighbors[i])
            && r.routers == st.routers && r.networks == st.networks && r.flooded == st.flooded && r.acks == st.acks
  {
    hide PassesTests, IsNews, CompareStored, Position;
  }

  /** The parts of a neighbour that no LSU changes, and the one transition it can cause. */
  ghost predicate OnlyListsChange(n: Nbr, m: Nbr) {
    && m.ip == n.ip && m.id == n.id && m.pri == n.pri && m.dr == n.dr && m.bdr == n.bdr
    && (m.state == n.state || (m.state == ExStart && Rank(n.state) >= Rank(Exchange)))
    && (Rank(m.state) < Rank(Exchange) && ListsEmpty(n) ==> ListsEmpty(m))
    && (Rank(m.state) < Rank(Exchange) && m.state != n.state ==> ListsEmpty(m))
  }

  lemma FloodChangesLists(n: Nbr, h: LsaHeader, src: uint32)
    ensures OnlyListsChange(n, FloodAndClean(n, h, src))
  {
  }

  lemma SenderChangesLists(n: Nbr, k: Key)
    ensures OnlyListsChange(n, BadLsReq(n)) && OnlyListsChange(n, Cleaned(n, k))
  {
  }

  lemma SameLists(n: Nbr)
    ensures OnlyListsChange(n, n)
  {
  }

  lemma LsaChangesLists(st: LsuState, at: nat, item: Item, i: nat)
    requires at < |st.neighbors| && i < |st.neighbors|
    ensures OnlyListsChange(st.neighbors[i], ReceiveLsa(st, at, item).neighbors[i])
  {
    hide FloodAndClean, FloodsBack, AcknowledgesLater, IsNews, PassesTests, CompareStored, Install, OnlyListsChange, Cleaned;
    var n := st.neighbors[at];
    SenderChangesLists(n, KeyOf(HeaderOf(item.advert)));
    SameLists(st.neighbors[i]);
    FloodChangesLists(st.neighbors[i], HeaderOf(item.advert), st.neighbors[at].ip);
  }

  lemma {:induction false} LsuChangesLists(st: LsuState, at: nat, items: seq<Item>, i: nat)
    requires at < |st.neighbors| && i < |st.neighbors|
    ensures OnlyListsChange(st.neighbors[i], ReceiveLsu(st, at, items).neighbors[i])
  {
    if items != [] {
      LsuChangesLists(st, at, items[..|items| - 1], i);
      if !ReceiveLsu(st, at, items[..|items| - 1]).aborted {
        LsaChangesLists(ReceiveLsu(st, at, items[..|items| - 1]), at, items[|items| - 1], i);
      }
    }
  }
}
