/** Generation and storage of the router's own LSAs (src/lsa.cpp). */
module LsaOrigination {
  import opened Basics
  import opened Lsa
  import opened Lsdb
  import opened NeighborSpec
  import opened InterfaceSpec
  import opened LsuSpec
  import opened Fletcher
  import opened LsuCodec
  import opened Lists

  /** An interface with the two attributes that only LSAs mention. */
  datatype Port = Port(iface: Iface, mask: uint32, cost: uint16)

  function Bits(x: uint32): bv32 {
    x as bv32
  }

  function And32(a: uint32, b: uint32): uint32 {
    (Bits(a) & Bits(b)) as int
  }

  /** A neighbour through which the port reaches the network's Designated Router, or a client of ours. */
  predicate IsTransitNeighbor(p: Port, n: Nbr) {
    n.state == Full && (p.iface.state == Dr || n.ip == p.iface.dr)
  }

  predicate HasTransitNeighbor(p: Port) {
    exists i :: 0 <= i < |p.iface.neighbors| && IsTransitNeighbor(p, p.iface.neighbors[i])
  }

  /** The one link that describes a port; `tos` is the octet the code never initialises. */
  function LinkOf(p: Port, tos: uint8): RouterLink {
    if p.iface.state == Loopback then RouterLink(p.iface.ip, 0xFFFF_FFFF, 3, tos, 0)
    else if p.iface.state != Waiting && HasTransitNeighbor(p) then
      RouterLink(p.iface.dr, p.iface.ip, 2, tos, p.cost)
    else RouterLink(And32(p.iface.ip, p.mask), p.mask, 3, tos, p.cost)
  }

  function LinksOf(ports: seq<Port>, tos: uint8): (r: seq<RouterLink>)
    ensures |r| == |ports|
  {
    if ports == [] then [] else LinksOf(ports[..|ports| - 1], tos) + [LinkOf(ports[|ports| - 1], tos)]
  }

  lemma {:induction false} LinksAtPorts(ports: seq<Port>, tos: uint8, i: nat)
    requires i < |ports|
    ensures LinksOf(ports, tos)[i] == LinkOf(ports[i], tos)
  {
    if i < |ports| - 1 {
      LinksAtPorts(ports[..|ports| - 1], tos, i);
    }
  }

  /** Ids of the neighbours in Full. */
  function AttachedTo(ns: seq<Nbr>): seq<uint32> {
    if ns == [] then []
    else AttachedTo(ns[..|ns| - 1]) + (if ns[|ns| - 1].state == Full then [ns[|ns| - 1].id] else [])
  }

  function OwnRouterLsa(ports: seq<Port>, settings: Settings, seqNum: uint32, tos: uint8): RouterLsa {
    Lsa(LsaHeader(1, settings.options, LSA_ROUTER, settings.routerId, settings.routerId, seqNum, 0,
                  (24 + 12 * |ports|) % 0x1_0000),
        RouterBody(false, false, false, LinksOf(ports, tos)))
  }

  function OwnNetworkLsa(p: Port, seqNum: uint32): NetworkLsa {
    var attached := AttachedTo(p.iface.neighbors);
    Lsa(LsaHeader(1, p.iface.settings.options, LSA_NETWORK, p.iface.ip, p.iface.settings.routerId, seqNum, 0,
                  (24 + 4 * |attached|) % 0x1_0000),
        NetworkBody(p.mask, attached))
  }

  lemma LengthGrows(x: int, d: int)
    ensures (x % 0x1_0000 + d) % 0x1_0000 == (x + d) % 0x1_0000
  {
    assert x == x / 0x1_0000 * 0x1_0000 + x % 0x1_0000;
    assert x + d == (x % 0x1_0000 + d) + x / 0x1_0000 * 0x1_0000;
  }

  /** The loop over the neighbours of one port. */
  method DescribePort(p: Port, tos: uint8) returns (link: RouterLink)
    ensures link == LinkOf(p, tos)
  {
    if p.iface.state == Loopback {
      return RouterLink(p.iface.ip, 0xFFFF_FFFF, 3, tos, 0);
    }
    var flag := false;
    link := RouterLink(0, 0, 0, tos, 0);
    if p.iface.state != Waiting {
      for i := 0 to |p.iface.neighbors|
        invariant flag <==> exists j :: 0 <= j < i && IsTransitNeighbor(p, p.iface.neighbors[j])
        invariant flag ==> link == RouterLink(p.iface.dr, p.iface.ip, 2, tos, p.cost)
      {
        var n := p.iface.neighbors[i];
        if n.state == Full {
          if p.iface.state == Dr || n.ip == p.iface.dr {
            assert IsTransitNeighbor(p, n);
            link := RouterLink(p.iface.dr, p.iface.ip, 2, tos, p.cost);
            flag := true;
          }
        }
      }
    }
    if p.iface.state == Waiting || !flag {
      link := RouterLink(And32(p.iface.ip, p.mask), p.mask, 3, tos, p.cost);
    }
  }

  method GenerateRouterLsa(ports: seq<Port>, settings: Settings, sequenceCnt: uint32, tos: uint8)
    returns (l: RouterLsa, nextCnt: uint32)
    ensures l == OwnRouterLsa(ports, settings, sequenceCnt, tos)
    ensures nextCnt == Next32(sequenceCnt)
  {
    var length := 24;
    var links := [];
    nextCnt := Next32(sequenceCnt);
    for i := 0 to |ports|
      invariant links == LinksOf(ports[..i], tos) && length == (24 + 12 * i) % 0x1_0000
    {
      assert ports[..i + 1][..i] == ports[..i];
      var link := DescribePort(ports[i], tos);
      links := links + [link];
      LengthGrows(24 + 12 * i, 12);
      length := (length + 12) % 0x1_0000;
    }
    assert ports[..|ports|] == ports;
    l := Lsa(LsaHeader(1, settings.options, LSA_ROUTER, settings.routerId, settings.routerId, sequenceCnt, 0, length),
             RouterBody(false, false, false, links));
  }

  method GenerateNetworkLsa(p: Port, sequenceCnt: uint32) returns (l: NetworkLsa, nextCnt: uint32)
    ensures l == OwnNetworkLsa(p, sequenceCnt)
    ensures nextCnt == Next32(sequenceCnt)
  {
    var length := 24;
    var attached := [];
    nextCnt := Next32(sequenceCnt);
    var ns := p.iface.neighbors;
    for i := 0 to |ns|
      invariant attached == AttachedTo(ns[..i]) && length == (24 + 4 * |attached|) % 0x1_0000
    {
      assert ns[..i + 1][..i] == ns[..i];
      if ns[i].state == Full {
        attached := attached + [ns[i].id];
        LengthGrows(24 + 4 * (|attached| - 1), 4);
        length := (length + 4) % 0x1_0000;
      }
    }
    assert ns[..|ns|] == ns;
    l := Lsa(LsaHeader(1, p.iface.settings.options, LSA_NETWORK, p.iface.ip, p.iface.settings.routerId, sequenceCnt, 0, length),
             NetworkBody(p.mask, attached));
  }

  // ---------------------------------------------------------------------------
  // What own LSAs say
  // ---------------------------------------------------------------------------

  /** The attached routers are the neighbours in Full, by id, each once and in list order. */
  lemma {:induction false} AttachedCollected(ns: seq<Nbr>)
    ensures Collected(ns, (n: Nbr) => n.state == Full, (n: Nbr) => n.id, AttachedTo(ns))
  {
    hide Collected;
    if ns == [] {
      NothingCollected((n: Nbr) => n.state == Full, (n: Nbr) => n.id);
    } else {
      AttachedCollected(ns[..|ns| - 1]);
      OneMoreCollected(ns, (n: Nbr) => n.state == Full, (n: Nbr) => n.id, AttachedTo(ns[..|ns| - 1]));
    }
  }

  lemma {:induction false} FullIsAttached(ns: seq<Nbr>, i: nat)
    requires i < |ns| && ns[i].state == Full
    ensures ns[i].id in AttachedTo(ns)
  {
    if i < |ns| - 1 {
      FullIsAttached(ns[..|ns| - 1], i);
    }
  }

  /** `net` agrees with the address under the mask and has no host bit. */
  predicate IsNetworkOf(net: bv32, ip: bv32, mask: bv32) {
    net & !mask == 0 && net & mask == ip & mask
  }

  lemma BitsBack(b: bv32)
    ensures Bits(b as int) == b
  {
  }

  lemma MaskedIsNetwork(ip: bv32, mask: bv32)
    ensures IsNetworkOf(ip & mask, ip, mask)
  {
  }

  lemma MaskedAddress(ip: uint32, mask: uint32)
    ensures IsNetworkOf(Bits(And32(ip, mask)), Bits(ip), Bits(mask))
  {
    hide Bits, IsNetworkOf;
    BitsBack(Bits(ip) & Bits(mask));
    MaskedIsNetwork(Bits(ip), Bits(mask));
  }

  /** A port reaches the Designated Router: it is the DR and has a neighbour in Full, or the DR is one. */
  ghost predicate ReachesDr(p: Port) {
    exists n :: n in p.iface.neighbors && n.state == Full && (p.iface.state == Dr || n.ip == p.iface.dr)
  }

  /**
   * The link of a port. Loopback: a host route. If the port reaches its Designated Router (and does
   * not wait): a transit link named by the router's address. Else a stub link named by the network's
   * address, which has no bit outside the mask.
   */
  lemma LinkDescribesPort(p: Port, tos: uint8)
    ensures var l := LinkOf(p, tos);
            && (l.kind == 2 <==> p.iface.state !in {Loopback, Waiting} && ReachesDr(p))
            && (l.kind == 2 || l.kind == 3)
            && (l.kind == 2 ==> l.linkId == p.iface.dr && l.linkData == p.iface.ip && l.metric == p.cost)
            && (l.kind == 3 && p.iface.state == Loopback ==>
                  l.linkId == p.iface.ip && l.linkData == 0xFFFF_FFFF && l.metric == 0)
            && (l.kind == 3 && p.iface.state != Loopback ==>
                  && l.linkData == p.mask && l.metric == p.cost
                  && IsNetworkOf(Bits(l.linkId), Bits(p.iface.ip), Bits(l.linkData)))
  {
    hide And32, Bits, IsNetworkOf;
    MaskedAddress(p.iface.ip, p.mask);
    if HasTransitNeighbor(p) {
      var i :| 0 <= i < |p.iface.neighbors| && IsTransitNeighbor(p, p.iface.neighbors[i]);
      assert p.iface.neighbors[i] in p.iface.neighbors;
    }
    if ReachesDr(p) {
      var n :| n in p.iface.neighbors && n.state == Full && (p.iface.state == Dr || n.ip == p.iface.dr);
      var i :| 0 <= i < |p.iface.neighbors| && p.iface.neighbors[i] == n;
      assert IsTransitNeighbor(p, p.iface.neighbors[i]);
    }
  }

  /**
   * The two generators fit together. Two routers on one network with `q`'s the Designated Router: the
   * transit link in the LSA of the router behind `p` names the network LSA of `q`, and its data is the
   * address by which `q` knows that router; if `q` has it in Full, its network LSA lists the id under
   * which that router's own LSA is stored.
   */
  lemma NetworkIsLinkedBothWays(ports: seq<Port>, settings: Settings, i: nat, q: Port, k: nat, m: uint32, n: uint32, tos: uint8)
    requires i < |ports| && k < |q.iface.neighbors|
    requires ports[i].iface.dr == q.iface.ip && ports[i].iface.state !in {Loopback, Waiting} && ReachesDr(ports[i])
    requires q.iface.neighbors[k].ip == ports[i].iface.ip && q.iface.neighbors[k].id == settings.routerId
    ensures var router, network := OwnRouterLsa(ports, settings, m, tos), OwnNetworkLsa(q, n);
            && |router.body.links| == |ports|
            && router.body.links[i].kind == 2
            && router.body.links[i].linkId == network.header.linkStateId
            && router.body.links[i].linkData == q.iface.neighbors[k].ip
            && (q.iface.neighbors[k].state == Full ==> router.header.linkStateId in network.body.attached)
            && network.header.advRouter == q.iface.settings.routerId && network.body.mask == q.mask
            && network.header.age == 1 && network.header.checksum == 0
  {
    LinksAtPorts(ports, tos, i);
    LinkDescribesPort(ports[i], tos);
    if q.iface.neighbors[k].state == Full { FullIsAttached(q.iface.neighbors, k); }
  }

  /**
   * Other routers find the own router LSA as it was generated: under the router's own id, with the
   * number drawn from the counter and one link per port, in order.
   */
  lemma PeersFindOwnRouterLsa(v: seq<RouterLsa>, ports: seq<Port>, settings: Settings, n: uint32, tos: uint8)
    requires |ports| <= 5459 && Find(v, Key(settings.routerId, settings.routerId)).None?
    ensures Printable(RouterAdvert(OwnRouterLsa(ports, settings, n, tos)))
    ensures var l := Transported(RouterAdvert(OwnRouterLsa(ports, settings, n, tos)), 0).router;
            && Find(ReceiveRouter(v, l), Key(settings.routerId, settings.routerId)) == Some(l)
            && l.header.lsType == 1 && l.header.seqNum == n && l.header.options == settings.options
            && |l.body.links| == |ports| && !l.body.v && !l.body.e && !l.body.b
            && forall i :: 0 <= i < |ports| ==> l.body.links[i] == LinkOf(ports[i], tos)
  {
    hide Find, LinkOf, ChecksumOf, HeaderBytes;
    var l := Transported(RouterAdvert(OwnRouterLsa(ports, settings, n, tos)), 0).router;
    FindAfterInstall(v, l, KeyOf(l.header));
    forall i | 0 <= i < |ports|
      ensures LinksOf(ports, tos)[i] == LinkOf(ports[i], tos)
    {
      LinksAtPorts(ports, tos, i);
    }
  }

  /** And the own network LSA under the interface's address and the router's id. */
  lemma PeersFindOwnNetworkLsa(v: seq<NetworkLsa>, p: Port, n: uint32, mask: uint32)
    requires |AttachedTo(p.iface.neighbors)| <= 16377
    ensures Printable(NetworkAdvert(OwnNetworkLsa(p, n)))
    ensures var l := Transported(NetworkAdvert(OwnNetworkLsa(p, n)), mask).network;
            && Find(Install(v, l), Key(p.iface.ip, p.iface.settings.routerId)) == Some(l)
            && l.header.lsType == 2 && l.header.seqNum == n && l.header.options == p.iface.settings.options
            && Collected(p.iface.neighbors, (x: Nbr) => x.state == Full, (x: Nbr) => x.id, l.body.attached)
  {
    hide Find, Install, ChecksumOf, HeaderBytes, Collected;
    var l := Transported(NetworkAdvert(OwnNetworkLsa(p, n)), mask).network;
    FindAfterInstall(v, l, KeyOf(l.header));
    AttachedCollected(p.iface.neighbors);
  }

  // ---------------------------------------------------------------------------
  // Sizes
  // ---------------------------------------------------------------------------

  /** The 16-bit length field counts the octets exactly up to 5459 interfaces. */
  lemma OwnRouterLsaIsPrintableIff(ports: seq<Port>, settings: Settings, seqNum: uint32, tos: uint8)
    ensures Printable(RouterAdvert(OwnRouterLsa(ports, settings, seqNum, tos))) <==> |ports| <= 5459
  {
  }

  /** For a network LSA the bound is 16377 attached routers. */
  lemma OwnNetworkLsaIsPrintableIff(p: Port, seqNum: uint32)
    ensures Printable(NetworkAdvert(OwnNetworkLsa(p, seqNum))) <==> |AttachedTo(p.iface.neighbors)| <= 16377
  {
  }

  /**
   * The packet of `update_lsas` fits its 1024 octets if and only if 28 and 12 for each interface,
   * with 24 and 4 for each neighbour in Full when this router is DR, do.
   */
  lemma OwnPacketFitsIff(ports: seq<Port>, p: Port, settings: Settings, n: uint32, m: uint32, tos: uint8, delay: uint16)
    requires |ports| <= 5459 && |AttachedTo(p.iface.neighbors)| <= 16377
    ensures var r := RouterAdvert(OwnRouterLsa(ports, settings, m, tos));
            && AllPrintable([r])
            && (|PrintLsu([r], delay)| <= 1024 <==> 28 + 12 * |ports| <= 1024)
    ensures var r := RouterAdvert(OwnRouterLsa(ports, settings, m, tos));
            var w := NetworkAdvert(OwnNetworkLsa(p, n));
            && AllPrintable([w, r])
            && (|PrintLsu([w, r], delay)| <= 1024
                <==> 28 + 12 * |ports| + 24 + 4 * |AttachedTo(p.iface.neighbors)| <= 1024)
  {
    hide Print, OwnRouterLsa, OwnNetworkLsa, Printable;
    var r := RouterAdvert(OwnRouterLsa(ports, settings, m, tos));
    var w := NetworkAdvert(OwnNetworkLsa(p, n));
    OwnLengths(ports, p, settings, n, m, tos);
    assert [r][..0] == [] && [w][..0] == [] && [w, r][..1] == [w];
    assert PrintAll([r], delay) == Print(r, delay);
    assert PrintAll([w, r], delay) == Print(w, delay) + Print(r, delay);
  }

  lemma OwnLengths(ports: seq<Port>, p: Port, settings: Settings, n: uint32, m: uint32, tos: uint8)
    requires |ports| <= 5459 && |AttachedTo(p.iface.neighbors)| <= 16377
    ensures var r := RouterAdvert(OwnRouterLsa(ports, settings, m, tos));
            Printable(r) && HeaderOf(r).length == 24 + 12 * |ports|
    ensures var w := NetworkAdvert(OwnNetworkLsa(p, n));
            Printable(w) && HeaderOf(w).length == 24 + 4 * |AttachedTo(p.iface.neighbors)|
  {
  }

  /** An id is listed as often as neighbours in Full have it. */
  lemma {:induction false} AttachedAreFull(ns: seq<Nbr>, id: uint32)
    ensures multiset(AttachedTo(ns))[id] == |FullWith(ns, id)|
  {
    if ns != [] {
      AttachedAreFull(ns[..|ns| - 1], id);
    }
  }

  /** The neighbours in Full that have a given id. */
  function FullWith(ns: seq<Nbr>, id: uint32): seq<Nbr> {
    if ns == [] then []
    else FullWith(ns[..|ns| - 1], id)
         + (if ns[|ns| - 1].state == Full && ns[|ns| - 1].id == id then [ns[|ns| - 1]] else [])
  }

  // ---------------------------------------------------------------------------
  // Storing own LSAs
  // ---------------------------------------------------------------------------

  /** The router part of `update_lsas`: append, replace, or leave alone. */
  function OriginateRouter(v: seq<RouterLsa>, l: RouterLsa): seq<RouterLsa> {
    var stored := Find(v, KeyOf(l.header));
    if stored.None? then v + [l]
    else if Compare(l.header, stored.value.header) < 0 then Remove(v, KeyOf(l.header)) + [l]
    else v
  }

  lemma {:induction false} RemoveAbsent<B>(v: seq<Lsa<B>>, k: Key)
    requires Find(v, k).None?
    ensures Remove(v, k) == v
  {
    if v != [] {
      RemoveAbsent(v[1..], k);
    }
  }

  /** Origination obeys the rule for received router LSAs, so it keeps the maximum too. */
  lemma OriginationIsReception(v: seq<RouterLsa>, l: RouterLsa)
    ensures OriginateRouter(v, l) == ReceiveRouter(v, l)
    ensures Unique(v) ==> Unique(OriginateRouter(v, l))
  {
    if Find(v, KeyOf(l.header)).None? {
      RemoveAbsent(v, KeyOf(l.header));
    }
    if Unique(v) {
      InstallKeepsUnique(v, l);
    }
  }

  /** The counter after `i` increments, fewer than 2^32. */
  function Nth(first: uint32, i: nat): int {
    if first + i < 0x1_0000_0000 then first + i else first + i - 0x1_0000_0000
  }

  lemma NthCounts(first: uint32, i: nat)
    requires i < 0xFFFF_FFFF
    ensures 0 <= Nth(first, i) < 0x1_0000_0000 && Nth(first, i + 1) == Next32(Nth(first, i))
  {
  }

  /** Numbers drawn from the counter by a row of updates; a Designated Router draws one for its network LSA first. */
  function Drawn(isDr: seq<bool>): nat {
    if isDr == [] then 0 else Drawn(isDr[..|isDr| - 1]) + (if isDr[|isDr| - 1] then 2 else 1)
  }

  /** The offset of the router LSA of update `i`. */
  function RouterOffset(isDr: seq<bool>, i: nat): nat
    requires i < |isDr|
  {
    Drawn(isDr[..i]) + (if isDr[i] then 1 else 0)
  }

  /** Router LSAs are numbered one or two apart, whatever roles the router plays meanwhile. */
  lemma RouterOffsetsGrow(isDr: seq<bool>, i: nat)
    requires i + 1 < |isDr|
    ensures RouterOffset(isDr, i + 1) == RouterOffset(isDr, i) + (if isDr[i + 1] then 2 else 1)
  {
    assert isDr[..i + 1][..i] == isDr[..i];
  }

  /** Own LSAs whose numbers are drawn from the counter at growing offsets, the first one at `first`. */
  predicate Numbered(ls: seq<RouterLsa>, at: seq<nat>, first: uint32, k: Key) {
    && |at| == |ls| && (ls != [] ==> at[0] == 0)
    && (forall i, j :: 0 <= i < j < |at| ==> at[i] < at[j])
    && (forall i :: 0 <= i < |ls| ==>
          at[i] < 0x1_0000_0000 && ls[i].header.seqNum == Nth(first, at[i]) && KeyOf(ls[i].header) == k)
  }

  /** What is stored once all but the last own LSA are out: the old copy, or one numbered below the last. */
  lemma BeforeLast(v: seq<RouterLsa>, ls: seq<RouterLsa>, at: seq<nat>, first: uint32, k: Key)
    requires Numbered(ls, at, first, k) && ls != [] && first + at[|ls| - 1] < 0x1_0000_0000
    ensures var g, f := Find(ReceiveRouters(v, ls[..|ls| - 1]), k), Find(v, k);
            && (f.Some? ==> g.Some? && !Outranks(f.value.header, g.value.header))
            && (g != f ==> g.Some? && g.value.header.seqNum < ls[|ls| - 1].header.seqNum)
  {
    hide ReceiveRouters, Find;
    HoldsMaximum(v, ls[..|ls| - 1], k);
    FindHasKey(v, k);
  }

  lemma StoreOne(w: seq<RouterLsa>, l: RouterLsa)
    ensures var g := Find(w, KeyOf(l.header));
            Find(ReceiveRouter(w, l), KeyOf(l.header)) == Some(l) <==> g.None? || g.value == l || Newer(l.header, g.value.header)
  {
    FindAfterInstall(w, l, KeyOf(l.header));
  }

  lemma LastIsStoredIff(v: seq<RouterLsa>, ls: seq<RouterLsa>, at: seq<nat>, first: uint32, k: Key)
    requires Numbered(ls, at, first, k) && ls != [] && first + at[|ls| - 1] < 0x1_0000_0000
    ensures var last, f := ls[|ls| - 1], Find(v, k);
            Find(ReceiveRouters(v, ls), k) == Some(last) <==> f.None? || f.value == last || Newer(last.header, f.value.header)
  {
    hide ReceiveRouters, ReceiveRouter, Find;
    var front, last := ls[..|ls| - 1], ls[|ls| - 1];
    assert front + [last] == ls;
    BeforeLast(v, ls, at, first, k);
    ReceiveRoutersAppend(v, front, last);
    StoreOne(ReceiveRouters(v, front), last);
  }

  /** With it: the first LSA of the series outranks the last one. */
  lemma WrappedLastIsNotStored(v: seq<RouterLsa>, ls: seq<RouterLsa>, at: seq<nat>, first: uint32, k: Key)
    requires Numbered(ls, at, first, k) && ls != [] && first + at[|ls| - 1] >= 0x1_0000_0000
    ensures Find(ReceiveRouters(v, ls), k) != Some(ls[|ls| - 1])
  {
    assert ls[0] in ls && ls[0].header.seqNum == first;
    HoldsMaximum(v, ls, k);
  }

  /**
   * After a series of own LSAs (over fewer than 2^32 numbers) the stored copy is the one generated
   * last if and only if the counter did not wrap, and the copy stored before the series, if any, is
   * that very LSA or older than it. A copy with a higher number left over from before a restart, or
   * one with the same number that compares newer, therefore stays.
   */
  lemma OwnCopyIsLatestIff(v: seq<RouterLsa>, ls: seq<RouterLsa>, at: seq<nat>, first: uint32, k: Key)
    requires Numbered(ls, at, first, k) && ls != []
    ensures var last, f := ls[|ls| - 1], Find(v, k);
            Find(ReceiveRouters(v, ls), k) == Some(last)
            <==> first + at[|ls| - 1] < 0x1_0000_0000 && (f.None? || f.value == last || Newer(last.header, f.value.header))
  {
    if first + at[|ls| - 1] < 0x1_0000_0000 {
      LastIsStoredIff(v, ls, at, first, k);
    } else {
      WrappedLastIsNotStored(v, ls, at, first, k);
    }
  }

  /** The network part of `update_lsas`: a newer own LSA removes the old one and is not inserted. */
  function OriginateNetwork(v: seq<NetworkLsa>, l: NetworkLsa): seq<NetworkLsa> {
    var stored := Find(v, KeyOf(l.header));
    if stored.None? then v + [l]
    else if Compare(l.header, stored.value.header) < 0 then Remove(v, KeyOf(l.header))
    else v
  }

  /** So the own network LSA is in the database after an update exactly when it was absent or not older before. */
  lemma NetworkRefreshRemovesIff(v: seq<NetworkLsa>, l: NetworkLsa)
    ensures var k := KeyOf(l.header);
            Find(OriginateNetwork(v, l), k).None? <==> Find(v, k).Some? && Newer(l.header, Find(v, k).value.header)
  {
    FindAfterRemove(v, KeyOf(l.header), KeyOf(l.header));
    FindAfterAppend(v, l, KeyOf(l.header));
  }

  /** What it does to the map: other keys stay, and the own one is added, kept, or lost to its refresh. */
  lemma OriginateNetworkAt(v: seq<NetworkLsa>, l: NetworkLsa, q: Key)
    ensures var was := Find(v, q);
            Find(OriginateNetwork(v, l), q)
            == if q != KeyOf(l.header) then was
               else if was.None? then Some(l)
               else if Newer(l.header, was.value.header) then None
               else was
    ensures Find(v, KeyOf(l.header)).None? ==> OriginateNetwork(v, l)[..|v|] == v
  {
    FindAfterRemove(v, KeyOf(l.header), q);
    FindAfterAppend(v, l, q);
  }

  method StoreOwnRouterLsa(lsdb: Database, l: RouterLsa) returns (isFlooding: bool)
    requires lsdb.Valid()
    modifies lsdb`routers
    ensures lsdb.Valid() && lsdb.routers == OriginateRouter(old(lsdb.routers), l)
    ensures isFlooding == Supersedes(old(lsdb.routers), l.header)
  {
    OriginationIsReception(lsdb.routers, l);
    var stored := lsdb.FindRouterLsa(l.header.linkStateId, l.header.advRouter);
    if stored == None {
      lsdb.routers := lsdb.routers + [l];
      isFlooding := true;
    } else if Compare(l.header, stored.value.header) < 0 {
      lsdb.RemoveRouterLsa(l.header.linkStateId, l.header.advRouter);
      lsdb.routers := lsdb.routers + [l];
      isFlooding := true;
    } else {
      isFlooding := false;
    }
  }

  method StoreOwnNetworkLsa(lsdb: Database, l: NetworkLsa) returns (isFlooding: bool)
    requires lsdb.Valid()
    modifies lsdb`networks
    ensures lsdb.Valid() && lsdb.networks == OriginateNetwork(old(lsdb.networks), l)
    ensures isFlooding == Supersedes(old(lsdb.networks), l.header)
  {
    InstallKeepsUnique(lsdb.networks, l);
    var stored := lsdb.FindNetworkLsa(l.header.linkStateId, l.header.advRouter);
    if stored == None {
      RemoveAbsent(lsdb.networks, KeyOf(l.header));
      lsdb.networks := lsdb.networks + [l];
      isFlooding := true;
    } else if Compare(l.header, stored.value.header) < 0 {
      lsdb.RemoveNetworkLsa(l.header.linkStateId, l.header.advRouter);
      isFlooding := true;
    } else {
      isFlooding := false;
    }
  }

  // ---------------------------------------------------------------------------
  // Own LSAs that come back
  // ---------------------------------------------------------------------------

  lemma OctetNonzero(x: int)
    ensures Octet(TruncRem(x, 255)) != 0
  {
  }

  lemma CheckOctetsNonzero(data: seq<uint8>, weight: int)
    ensures CheckOctets(data, weight).0 != 0 && CheckOctets(data, weight).1 != 0
  {
    hide Octet, TruncRem, AsInt32, Wrap32, Sum0, Sum1;
    forall x: int
      ensures Octet(TruncRem(x, 255)) != 0
    {
      OctetNonzero(x);
    }
  }

  /**
   * The checksum is computed only on the way out and never stored, so the database copy of an own
   * LSA carries checksum 0. The same instance received back therefore always counts as newer,
   * and replaces the copy it was printed from.
   */
  lemma EchoSupersedesOwnCopy(v: seq<RouterLsa>, l: RouterLsa)
    requires Printable(RouterAdvert(l)) && l.header.checksum == 0
    requires Find(v, KeyOf(l.header)) == Some(l)
    ensures var echo := Transported(RouterAdvert(l), 0).router;
            && echo.body == l.body && echo.header.seqNum == l.header.seqNum
            && Newer(echo.header, l.header)
            && Find(ReceiveRouter(v, echo), KeyOf(l.header)) == Some(echo)
  {
    hide ChecksumOf, HeaderBytes, BodyBytes, Find, Install;
    var echo := Transported(RouterAdvert(l), 0).router;
    ChecksumNonzero(HeaderBytes(WithoutAge(l.header)) + BodyBytes(RouterAdvert(l)));
    FindAfterInstall(v, echo, KeyOf(l.header));
  }

  /** This is so for the LSA of `GenerateRouterLsa`, which starts with age 1 and comes back with age 0. */
  lemma OwnRouterLsaIsEchoed(v: seq<RouterLsa>, ports: seq<Port>, settings: Settings, n: uint32, tos: uint8)
    requires |ports| <= 5459
    requires Find(v, Key(settings.routerId, settings.routerId)) == Some(OwnRouterLsa(ports, settings, n, tos))
    ensures var own := OwnRouterLsa(ports, settings, n, tos);
            && own.header.age == 1 && Printable(RouterAdvert(own))
            && (var echo := Transported(RouterAdvert(own), 0).router;
                && echo.header.age == 0 && Newer(echo.header, own.header)
                && Find(ReceiveRouter(v, echo), Key(settings.routerId, settings.routerId)) == Some(echo))
  {
    hide ChecksumOf, HeaderBytes, BodyBytes, Find, Install, LinksOf;
    EchoSupersedesOwnCopy(v, OwnRouterLsa(ports, settings, n, tos));
  }

  lemma ChecksumNonzero(b: seq<uint8>)
    requires |b| >= 18
    ensures ChecksumOf(b) != 0
  {
    hide CheckOctets, Covered;
    CheckOctetsNonzero(Covered(b), |b| - 16);
  }

  // ---------------------------------------------------------------------------
  // Flooding over the wire
  // ---------------------------------------------------------------------------

  function RoutersOf(list: seq<Advert>): seq<RouterLsa>
    requires AllPrintable(list)
  {
    if list == [] then []
    else RoutersOf(list[..|list| - 1])
         + (if list[|list| - 1].RouterAdvert? then [Transported(list[|list| - 1], 0).router] else [])
  }

  lemma TransportedAs(a: Advert, mask: uint32)
    requires Printable(a)
    ensures var t := Transported(a, mask);
            && HeaderOf(t).age == 0 && WellTyped(t) && (t.RouterAdvert? <==> a.RouterAdvert?)
            && (a.RouterAdvert? ==> t == Transported(a, 0))
  {
    hide ChecksumOf;
  }

  lemma {:induction false} TransportedRouters(list: seq<Advert>, mask: uint32)
    requires AllPrintable(list)
    ensures ValidRouters(TransportedItems(list, mask)) == RoutersOf(list)
    ensures Converted(TransportedItems(list, mask))
  {
    hide PrintedHeader, Transported;
    if list != [] {
      var front, a := list[..|list| - 1], list[|list| - 1];
      TransportedRouters(front, mask);
      TransportedAs(a, mask);
      var items := TransportedItems(list, mask);
      assert items == TransportedItems(front, mask) + [Item(Transported(a, mask), true)];
      assert items[..|list| - 1] == TransportedItems(front, mask);
    }
  }

  /**
   * From the printer of one router to the database of another: a packet that is not cut short by
   * a bad request changes the receiver's router vector exactly like the sender's router LSAs fed to
   * it one by one.
   */
  lemma PrintedPacketIsReceived(st: LsuState, at: nat, s: seq<uint8>, list: seq<Advert>, delay: uint16, mask: uint32)
    requires at < |st.neighbors| && AllPrintable(list) && |list| < 0x1_0000_0000
    requires Holds(s, 0, PrintLsu(list, delay))
    requires !ReceiveLsu(st, at, ParseLsu(s, mask)).aborted
    ensures ReceiveLsu(st, at, ParseLsu(s, mask)).routers == ReceiveRouters(st.routers, RoutersOf(list))
  {
    ParsedBack(s, list, delay, mask);
    TransportedRouters(list, mask);
    DatabaseAfterLsu(st, at, ParseLsu(s, mask));
  }
}
