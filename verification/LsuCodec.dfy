/**
 * The octets of Link State Update packets: the printer of `update_lsas` (src/lsa.cpp) with its
 * moving pointer, the walk by length, and the parsers of `install_router_lsa` and
 * `install_network_lsa` (src/link_state.cpp).
 */
module LsuCodec {
  import opened Basics
  import opened Lsa
  import opened LsuSpec
  import opened Fletcher

  // ---------------------------------------------------------------------------
  // Fields
  // ---------------------------------------------------------------------------

  function U16(x: uint16): (r: seq<uint8>)
    ensures |r| == 2
  {
    [x / 0x100, x % 0x100]
  }

  function U32(x: uint32): (r: seq<uint8>)
    ensures |r| == 4
  {
    [x / 0x100_0000, x / 0x1_0000 % 0x100, x / 0x100 % 0x100, x % 0x100]
  }

  /** The octet at a position; what follows the packet in the receive buffer is taken as 0. */
  function At(s: seq<uint8>, i: nat): uint8 {
    if i < |s| then s[i] else 0
  }

  function Read16(s: seq<uint8>, i: nat): uint16 {
    At(s, i) * 0x100 + At(s, i + 1)
  }

  function Read32(s: seq<uint8>, i: nat): uint32 {
    At(s, i) * 0x100_0000 + At(s, i + 1) * 0x1_0000 + At(s, i + 2) * 0x100 + At(s, i + 3)
  }

  /** Octets `b` stand at position `i` of `s`. */
  ghost predicate Holds(s: seq<uint8>, i: nat, b: seq<uint8>) {
    i + |b| <= |s| && s[i..i + |b|] == b
  }

  lemma HoldsPart(s: seq<uint8>, i: nat, a: seq<uint8>, b: seq<uint8>)
    requires Holds(s, i, a + b)
    ensures Holds(s, i, a) && Holds(s, i + |a|, b)
  {
    assert s[i..i + |a|] == (a + b)[..|a|];
    assert s[i + |a|..i + |a| + |b|] == (a + b)[|a|..];
  }

  lemma Read16Back(s: seq<uint8>, i: nat, x: uint16)
    requires Holds(s, i, U16(x))
    ensures Read16(s, i) == x
  {
    assert s[i] == s[i..i + 2][0] && s[i + 1] == s[i..i + 2][1];
  }

  lemma Digits(x: uint32)
    ensures x / 0x100_0000 * 0x100_0000 + x / 0x1_0000 % 0x100 * 0x1_0000 + x / 0x100 % 0x100 * 0x100 + x % 0x100 == x
  {
    assert x / 0x1_0000 == x / 0x100_0000 * 0x100 + x / 0x1_0000 % 0x100;
    assert x / 0x100 == x / 0x1_0000 * 0x100 + x / 0x100 % 0x100;
  }

  lemma Read32Back(s: seq<uint8>, i: nat, x: uint32)
    requires Holds(s, i, U32(x))
    ensures Read32(s, i) == x
  {
    Digits(x);
    assert s[i] == s[i..i + 4][0] && s[i + 1] == s[i..i + 4][1];
    assert s[i + 2] == s[i..i + 4][2] && s[i + 3] == s[i..i + 4][3];
  }

  // ---------------------------------------------------------------------------
  // Advertisements as octets
  // ---------------------------------------------------------------------------

  /** 20 octets. */
  function HeaderBytes(h: LsaHeader): (r: seq<uint8>)
    ensures |r| == 20
  {
    U16(h.age) + ([h.options, h.lsType] + (U32(h.linkStateId) + (U32(h.advRouter) + (U32(h.seqNum)
    + (U16(h.checksum) + U16(h.length))))))
  }

  /** V, E and B in the three high bits of one octet, as the compiler lays out the bit-fields. */
  function Flags(b: RouterBody): uint8 {
    (if b.v then 32 else 0) + (if b.e then 64 else 0) + (if b.b then 128 else 0)
  }

  /** 12 octets. */
  function LinkBytes(l: RouterLink): (r: seq<uint8>)
    ensures |r| == 12
  {
    U32(l.linkId) + (U32(l.linkData) + ([l.kind, l.tosNum] + U16(l.metric)))
  }

  function LinksBytes(ls: seq<RouterLink>): (r: seq<uint8>)
    ensures |r| == 12 * |ls|
  {
    if ls == [] then [] else LinksBytes(ls[..|ls| - 1]) + LinkBytes(ls[|ls| - 1])
  }

  function AddressesBytes(rs: seq<uint32>): (r: seq<uint8>)
    ensures |r| == 4 * |rs|
  {
    if rs == [] then [] else AddressesBytes(rs[..|rs| - 1]) + U32(rs[|rs| - 1])
  }

  function RouterBodyBytes(b: RouterBody): (r: seq<uint8>)
    requires |b.links| < 0x1_0000
    ensures |r| == 4 + 12 * |b.links|
  {
    [Flags(b), 0] + (U16(|b.links|) + LinksBytes(b.links))
  }

  function NetworkBodyBytes(b: NetworkBody): (r: seq<uint8>)
    ensures |r| == 4 + 4 * |b.attached|
  {
    U32(b.mask) + AddressesBytes(b.attached)
  }

  /** A router or network advertisement whose length field counts its octets. */
  predicate Printable(a: Advert) {
    match a
    case RouterAdvert(l) => l.header.lsType == LSA_ROUTER && l.header.length == 24 + 12 * |l.body.links|
    case NetworkAdvert(l) => l.header.lsType == LSA_NETWORK && l.header.length == 24 + 4 * |l.body.attached|
    case OtherAdvert(_) => false
  }

  function BodyBytes(a: Advert): (r: seq<uint8>)
    requires Printable(a)
    ensures 20 + |r| == HeaderOf(a).length
  {
    match a
    case RouterAdvert(l) => RouterBodyBytes(l.body)
    case NetworkAdvert(l) => NetworkBodyBytes(l.body)
  }

  /** The octets the checksum covers: all but the age, with the checksum field zeroed. */
  function Covered(b: seq<uint8>): seq<uint8>
    requires |b| >= 18
  {
    b[2..][14 := 0][15 := 0]
  }

  /** `lsa_checksum` of an advertisement in network order. */
  function ChecksumOf(b: seq<uint8>): uint16
    requires |b| >= 18
  {
    var octets := CheckOctets(Covered(b), |b| - 16);
    octets.0 * 0x100 + octets.1
  }

  /** The header as printed: age replaced by the transmission delay, checksum computed. */
  function PrintedHeader(a: Advert, delay: uint16): LsaHeader
    requires Printable(a)
  {
    var h := HeaderOf(a);
    h.(age := delay, checksum := ChecksumOf(HeaderBytes(WithoutAge(h)) + BodyBytes(a)))
  }

  function Print(a: Advert, delay: uint16): (r: seq<uint8>)
    requires Printable(a)
    ensures |r| == HeaderOf(a).length
  {
    HeaderBytes(PrintedHeader(a, delay)) + BodyBytes(a)
  }

  predicate AllPrintable(list: seq<Advert>) {
    forall i :: 0 <= i < |list| ==> Printable(list[i])
  }

  function PrintAll(list: seq<Advert>, delay: uint16): seq<uint8>
    requires AllPrintable(list)
  {
    if list == [] then [] else PrintAll(list[..|list| - 1], delay) + Print(list[|list| - 1], delay)
  }

  /** A Link State Update body: the number of advertisements, then the advertisements. */
  function PrintLsu(list: seq<Advert>, delay: uint16): seq<uint8>
    requires AllPrintable(list) && |list| < 0x1_0000_0000
  {
    U32(|list|) + PrintAll(list, delay)
  }

  // ---------------------------------------------------------------------------
  // Reading
  // ---------------------------------------------------------------------------

  /** `ntoh`: the age becomes 0. */
  function HeaderAt(s: seq<uint8>, i: nat): LsaHeader {
    LsaHeader(0, At(s, i + 2), At(s, i + 3), Read32(s, i + 4), Read32(s, i + 8), Read32(s, i + 12),
              Read16(s, i + 16), Read16(s, i + 18))
  }

  function LinkAt(s: seq<uint8>, i: nat): RouterLink {
    RouterLink(Read32(s, i), Read32(s, i + 4), At(s, i + 8), At(s, i + 9), Read16(s, i + 10))
  }

  function LinksAt(s: seq<uint8>, i: nat, n: nat): (r: seq<RouterLink>)
    ensures |r| == n
  {
    if n == 0 then [] else LinksAt(s, i, n - 1) + [LinkAt(s, i + 12 * (n - 1))]
  }

  function AddressesAt(s: seq<uint8>, i: nat, n: nat): (r: seq<uint32>)
    ensures |r| == n
  {
    if n == 0 then [] else AddressesAt(s, i, n - 1) + [Read32(s, i + 4 * (n - 1))]
  }

  function WithFlags(f: uint8, links: seq<RouterLink>): RouterBody {
    RouterBody(f / 32 % 2 == 1, f / 64 % 2 == 1, f / 128 == 1, links)
  }

  /** `install_router_lsa`: as many links as the body says. */
  function RouterAt(s: seq<uint8>, i: nat): RouterLsa {
    Lsa(HeaderAt(s, i), WithFlags(At(s, i + 20), LinksAt(s, i + 24, Read16(s, i + 22))))
  }

  /** `install_network_lsa`: as many routers as the length says. The mask is never read from the packet. */
  function NetworkAt(s: seq<uint8>, i: nat, mask: uint32): NetworkLsa {
    var h := HeaderAt(s, i);
    Lsa(h, NetworkBody(mask, AddressesAt(s, i + 24, if h.length >= 24 then (h.length - 24) / 4 else 0)))
  }

  /** The receiver's test: the stored checksum against the recomputed one. */
  predicate ChecksumMatches(s: seq<uint8>, i: nat) {
    var n := Read16(s, i + 18);
    18 <= n && i + n <= |s| && Read16(s, i + 16) == ChecksumOf(s[i..i + n])
  }

  /** One advertisement as the receive path sees it; `mask` is whatever the new structure contains. */
  function ItemAt(s: seq<uint8>, i: nat, mask: uint32): Item {
    var t := At(s, i + 3);
    Item(if t == LSA_ROUTER then RouterAdvert(RouterAt(s, i))
         else if t == LSA_NETWORK then NetworkAdvert(NetworkAt(s, i, mask))
         else OtherAdvert(HeaderAt(s, i)),
         ChecksumMatches(s, i))
  }

  /** The positions the walk visits: each one is the previous plus its length field. */
  function WalkTo(s: seq<uint8>, i: nat, n: nat): nat {
    if n == 0 then i else WalkTo(s, i, n - 1) + Read16(s, WalkTo(s, i, n - 1) + 18)
  }

  function ItemsAt(s: seq<uint8>, i: nat, n: nat, mask: uint32): (r: seq<Item>)
    ensures |r| == n
  {
    if n == 0 then [] else ItemsAt(s, i, n - 1, mask) + [ItemAt(s, WalkTo(s, i, n - 1), mask)]
  }

  /** All advertisements of a Link State Update body. */
  function ParseLsu(s: seq<uint8>, mask: uint32): seq<Item> {
    ItemsAt(s, 4, Read32(s, 0), mask)
  }

  // ---------------------------------------------------------------------------
  // Round trip
  // ---------------------------------------------------------------------------

  lemma HeaderBack(s: seq<uint8>, i: nat, h: LsaHeader)
    requires Holds(s, i, HeaderBytes(h))
    ensures HeaderAt(s, i) == WithoutAge(h)
  {
    hide Read16, Read32, U16, U32;
    var t6 := U16(h.checksum) + U16(h.length);
    var t5 := U32(h.seqNum) + t6;
    var t4 := U32(h.advRouter) + t5;
    var t3 := U32(h.linkStateId) + t4;
    var t2 := [h.options, h.lsType] + t3;
    HoldsPart(s, i, U16(h.age), t2);
    HoldsPart(s, i + 2, [h.options, h.lsType], t3);
    HoldsPart(s, i + 4, U32(h.linkStateId), t4);
    HoldsPart(s, i + 8, U32(h.advRouter), t5);
    HoldsPart(s, i + 12, U32(h.seqNum), t6);
    HoldsPart(s, i + 16, U16(h.checksum), U16(h.length));
    assert s[i + 2] == s[i + 2..i + 4][0] && s[i + 3] == s[i + 2..i + 4][1];
    Read32Back(s, i + 4, h.linkStateId);
    Read32Back(s, i + 8, h.advRouter);
    Read32Back(s, i + 12, h.seqNum);
    Read16Back(s, i + 16, h.checksum);
    Read16Back(s, i + 18, h.length);
  }

  lemma LinkBack(s: seq<uint8>, i: nat, l: RouterLink)
    requires Holds(s, i, LinkBytes(l))
    ensures LinkAt(s, i) == l
  {
    hide Read16, Read32, U16, U32;
    var t3 := [l.kind, l.tosNum] + U16(l.metric);
    HoldsPart(s, i, U32(l.linkId), U32(l.linkData) + t3);
    HoldsPart(s, i + 4, U32(l.linkData), t3);
    HoldsPart(s, i + 8, [l.kind, l.tosNum], U16(l.metric));
    assert s[i + 8] == s[i + 8..i + 10][0] && s[i + 9] == s[i + 8..i + 10][1];
    Read32Back(s, i, l.linkId);
    Read32Back(s, i + 4, l.linkData);
    Read16Back(s, i + 10, l.metric);
  }

  lemma {:induction false} LinksBack(s: seq<uint8>, i: nat, ls: seq<RouterLink>)
    requires Holds(s, i, LinksBytes(ls))
    ensures LinksAt(s, i, |ls|) == ls
  {
    hide Holds, LinkBytes, LinkAt;
    if ls != [] {
      var front, l := ls[..|ls| - 1], ls[|ls| - 1];
      HoldsPart(s, i, LinksBytes(front), LinkBytes(l));
      LinksBack(s, i, front);
      LinkBack(s, i + 12 * (|ls| - 1), l);
    }
  }

  lemma {:induction false} AddressesBack(s: seq<uint8>, i: nat, rs: seq<uint32>)
    requires Holds(s, i, AddressesBytes(rs))
    ensures AddressesAt(s, i, |rs|) == rs
  {
    hide Holds, U32, Read32;
    if rs != [] {
      var front, r := rs[..|rs| - 1], rs[|rs| - 1];
      HoldsPart(s, i, AddressesBytes(front), U32(r));
      AddressesBack(s, i, front);
      Read32Back(s, i + 4 * (|rs| - 1), r);
    }
  }

  lemma FlagsBack(b: RouterBody)
    ensures WithFlags(Flags(b), b.links) == b
  {
  }

  lemma RouterBodyBack(s: seq<uint8>, i: nat, b: RouterBody)
    requires |b.links| < 0x1_0000 && Holds(s, i + 20, RouterBodyBytes(b))
    ensures RouterAt(s, i).body == b
  {
    hide Read16, U16, Flags, WithFlags, LinksAt, LinksBytes;
    FlagsBack(b);
    HoldsPart(s, i + 20, [Flags(b), 0], U16(|b.links|) + LinksBytes(b.links));
    HoldsPart(s, i + 22, U16(|b.links|), LinksBytes(b.links));
    assert s[i + 20] == s[i + 20..i + 22][0];
    Read16Back(s, i + 22, |b.links|);
    LinksBack(s, i + 24, b.links);
  }

  lemma NetworkBodyBack(s: seq<uint8>, i: nat, b: NetworkBody, mask: uint32)
    requires Holds(s, i + 20, NetworkBodyBytes(b)) && HeaderAt(s, i).length == 24 + 4 * |b.attached|
    ensures NetworkAt(s, i, mask).body == NetworkBody(mask, b.attached)
  {
    HoldsPart(s, i + 20, U32(b.mask), AddressesBytes(b.attached));
    AddressesBack(s, i + 24, b.attached);
  }

  /** The checksum does not depend on the age or on what the checksum field holds. */
  lemma ChecksumIgnores(b: seq<uint8>, c: seq<uint8>)
    requires |b| == |c| >= 18
    requires forall k :: 2 <= k < |b| && k != 16 && k != 17 ==> b[k] == c[k]
    ensures ChecksumOf(b) == ChecksumOf(c)
  {
    assert Covered(b) == Covered(c);
  }

  lemma HeaderBytesExcept(h: LsaHeader, age: uint16, checksum: uint16, k: nat)
    requires 2 <= k < 20 && k != 16 && k != 17
    ensures HeaderBytes(h.(age := age, checksum := checksum))[k] == HeaderBytes(h)[k]
  {
    hide U16, U32;
  }

  /** What the receiver recomputes over a printed advertisement is what was printed into it. */
  lemma PrintedChecksum(a: Advert, delay: uint16)
    requires Printable(a)
    ensures ChecksumOf(Print(a, delay)) == PrintedHeader(a, delay).checksum
  {
    hide HeaderBytes, ChecksumOf;
    var h := HeaderOf(a);
    var raw := HeaderBytes(WithoutAge(h)) + BodyBytes(a);
    forall k | 2 <= k < |raw| && k != 16 && k != 17
      ensures Print(a, delay)[k] == raw[k]
    {
      if k < 20 {
        HeaderBytesExcept(WithoutAge(h), delay, PrintedHeader(a, delay).checksum, k);
      }
    }
    ChecksumIgnores(Print(a, delay), raw);
  }

  /** What an advertisement becomes on the receiving side: everything but the age and a network's mask survives. */
  function Transported(a: Advert, mask: uint32): Advert
    requires Printable(a)
  {
    var h := PrintedHeader(a, 0);
    match a
    case RouterAdvert(l) => RouterAdvert(Lsa(h, l.body))
    case NetworkAdvert(l) => NetworkAdvert(Lsa(h, NetworkBody(mask, l.body.attached)))
  }

  lemma LengthBack(s: seq<uint8>, i: nat, a: Advert, delay: uint16)
    requires Printable(a) && Holds(s, i, Print(a, delay))
    ensures Read16(s, i + 18) == |Print(a, delay)|
  {
    hide HeaderBytes, ChecksumOf, BodyBytes, Read16, Read32, Holds;
    HoldsPart(s, i, HeaderBytes(PrintedHeader(a, delay)), BodyBytes(a));
    HeaderBack(s, i, PrintedHeader(a, delay));
    assert HeaderAt(s, i).length == Read16(s, i + 18);
  }

  lemma AdvertBack(s: seq<uint8>, i: nat, a: Advert, delay: uint16, mask: uint32)
    requires Printable(a) && Holds(s, i, Print(a, delay))
    ensures ItemAt(s, i, mask) == Item(Transported(a, mask), true)
  {
    hide HeaderBytes, ChecksumOf, RouterBodyBytes, NetworkBodyBytes, Read16, Read32;
    var h := PrintedHeader(a, delay);
    HoldsPart(s, i, HeaderBytes(h), BodyBytes(a));
    HeaderBack(s, i, h);
    PrintedChecksum(a, delay);
    assert HeaderAt(s, i) == PrintedHeader(a, 0);
    match a {
      case RouterAdvert(l) => RouterBodyBack(s, i, l.body);
      case NetworkAdvert(l) => NetworkBodyBack(s, i, l.body, mask);
    }
  }

  lemma {:induction false} PrintAllConcat(a: seq<Advert>, b: seq<Advert>, delay: uint16)
    requires AllPrintable(a) && AllPrintable(b)
    ensures AllPrintable(a + b) && PrintAll(a + b, delay) == PrintAll(a, delay) + PrintAll(b, delay)
  {
    hide Print;
    if b == [] {
      assert a + b == a;
    } else {
      assert (a + b)[..|a + b| - 1] == a + b[..|b| - 1];
      PrintAllConcat(a, b[..|b| - 1], delay);
    }
  }

  lemma PrintAllSplit(list: seq<Advert>, delay: uint16, k: nat)
    requires AllPrintable(list) && k < |list|
    ensures PrintAll(list, delay) == PrintAll(list[..k], delay) + (Print(list[k], delay) + PrintAll(list[k + 1..], delay))
  {
    hide Print, Printable;
    PrintAllConcat(list[..k], [list[k]], delay);
    PrintAllConcat(list[..k + 1], list[k + 1..], delay);
    assert list[..k] + [list[k]] == list[..k + 1] && list[..k + 1] + list[k + 1..] == list;
    assert [list[k]][..0] == [];
    assert PrintAll([list[k]], delay) == Print(list[k], delay);
  }

  /** The printer starts the k-th advertisement after the first k ones. */
  lemma StandsAfter(s: seq<uint8>, list: seq<Advert>, delay: uint16, k: nat)
    requires AllPrintable(list) && |list| < 0x1_0000_0000 && k < |list|
    requires Holds(s, 0, PrintLsu(list, delay))
    ensures Holds(s, 4 + |PrintAll(list[..k], delay)|, Print(list[k], delay))
    ensures |PrintAll(list[..k + 1], delay)| == |PrintAll(list[..k], delay)| + |Print(list[k], delay)|
  {
    hide Print, Printable, Holds;
    PrintAllSplit(list, delay, k);
    var front, rest := PrintAll(list[..k], delay), PrintAll(list[k + 1..], delay);
    assert U32(|list|) + (front + (Print(list[k], delay) + rest)) == (U32(|list|) + front) + (Print(list[k], delay) + rest);
    HoldsPart(s, 0, U32(|list|) + front, Print(list[k], delay) + rest);
    HoldsPart(s, 4 + |front|, Print(list[k], delay), rest);
    assert list[..k + 1][..k] == list[..k];
  }

  lemma NothingPrinted(delay: uint16)
    ensures PrintAll([], delay) == []
  {
  }

  /** The walk by length stands exactly where the printer started each advertisement. */
  lemma {:induction false} WalkVisits(s: seq<uint8>, list: seq<Advert>, delay: uint16, k: nat)
    requires AllPrintable(list) && |list| < 0x1_0000_0000 && k <= |list|
    requires Holds(s, 0, PrintLsu(list, delay))
    ensures WalkTo(s, 4, k) == 4 + |PrintAll(list[..k], delay)|
  {
    hide Print, PrintLsu, PrintAll, Printable, Holds, Read16;
    if k == 0 {
      assert PrintAll(list[..0], delay) == [] by { NothingPrinted(delay); }
    } else {
      var j := k - 1;
      WalkVisits(s, list, delay, j);
      StandsAfter(s, list, delay, j);
      LengthBack(s, WalkTo(s, 4, j), list[j], delay);
      assert WalkTo(s, 4, k) == WalkTo(s, 4, j) + Read16(s, WalkTo(s, 4, j) + 18);
    }
  }

  function TransportedItems(list: seq<Advert>, mask: uint32): seq<Item>
    requires AllPrintable(list)
  {
    seq(|list|, k requires 0 <= k < |list| => Item(Transported(list[k], mask), true))
  }

  lemma {:induction false} ItemsBack(s: seq<uint8>, list: seq<Advert>, delay: uint16, mask: uint32, k: nat)
    requires AllPrintable(list) && |list| < 0x1_0000_0000 && k <= |list|
    requires Holds(s, 0, PrintLsu(list, delay))
    ensures ItemsAt(s, 4, k, mask) == TransportedItems(list[..k], mask)
  {
    hide ItemAt, PrintLsu, Print, PrintAll, Printable, Holds, Transported;
    if k > 0 {
      ItemsBack(s, list, delay, mask, k - 1);
      WalkVisits(s, list, delay, k - 1);
      StandsAfter(s, list, delay, k - 1);
      AdvertBack(s, WalkTo(s, 4, k - 1), list[k - 1], delay, mask);
      assert list[..k][..k - 1] == list[..k - 1];
    }
  }

  lemma ParsedBack(s: seq<uint8>, list: seq<Advert>, delay: uint16, mask: uint32)
    requires AllPrintable(list) && |list| < 0x1_0000_0000
    requires Holds(s, 0, PrintLsu(list, delay))
    ensures ParseLsu(s, mask) == TransportedItems(list, mask)
  {
    HoldsPart(s, 0, U32(|list|), PrintAll(list, delay));
    Read32Back(s, 0, |list|);
    ItemsBack(s, list, delay, mask, |list|);
    assert list[..|list|] == list;
  }

  /**
   * Round trip: parsing what was printed returns the same list, in order, each advertisement with
   * a checksum that passes and with every header field, router flag, link and attached router
   * intact; the age reads 0 and a network's mask is not restored. What follows in the receive
   * buffer is irrelevant.
   */
  lemma LsuRoundTrip(list: seq<Advert>, delay: uint16, mask: uint32, buffer: seq<uint8>)
    requires AllPrintable(list) && |list| < 0x1_0000_0000
    ensures ParseLsu(PrintLsu(list, delay) + buffer, mask) == TransportedItems(list, mask)
  {
    hide ParseLsu, TransportedItems, PrintLsu;
    ParsedBack(PrintLsu(list, delay) + buffer, list, delay, mask);
  }

  /**
   * The reply to a request stores its 16-bit count at the front of the 32-bit field. The receiver
   * reads the number of LSAs that was meant if and only if there is none.
   */
  lemma ReplyCountIsReadIff(n: uint16, rest: seq<uint8>)
    ensures Read32(U16(n) + [0, 0] + rest, 0) == 0x1_0000 * n
    ensures Read32(U16(n) + [0, 0] + rest, 0) == n <==> n == 0
  {
    var s: seq<uint8> := U16(n) + [0, 0] + rest;
    assert s[0] == n / 0x100 && s[1] == n % 0x100 && s[2] == 0 && s[3] == 0;
    assert n == n / 0x100 * 0x100 + n % 0x100;
  }

  /** The printed checksums satisfy the standard's test unless one of the two sign patches misses. */
  lemma PrintedChecksumBalancesIff(a: Advert, delay: uint16)
    requires Printable(a)
    requires Sum1(Covered(Print(a, delay))) < 0x1_0000_0000
    ensures var data: seq<uint8> := Covered(Print(a, delay));
            Balanced(Print(a, delay)[2..]) <==> ChecksumSound(data, |data| - 14)
  {
    hide CheckOctets, Balanced, Sum1, Print, ChecksumSound;
    var data: seq<uint8> := Covered(Print(a, delay));
    SoundWhenPlaced(data, |data| - 14);
    PlacedOctets(a, delay);
  }

  lemma SoundWhenPlaced(data: seq<uint8>, weight: nat)
    requires 2 <= weight && |data| == 14 + weight <= 0xFFFF
    requires data[14] == 0 && data[15] == 0 && Sum1(data) < 0x1_0000_0000
    ensures Balanced(data[14 := CheckOctets(data, weight).0][15 := CheckOctets(data, weight).1])
            <==> ChecksumSound(data, weight)
  {
    hide Balanced, CheckOctets, Sum0, Sum1, FirstOctetMisses, SecondOctetMisses;
    FletcherExact(data, 14, weight);
  }

  /** The covered octets with the check octets in place are the printed octets after the age. */
  lemma PlacedOctets(a: Advert, delay: uint16)
    requires Printable(a)
    ensures var data: seq<uint8> := Covered(Print(a, delay)); var octets := CheckOctets(data, |data| - 14);
            data[14 := octets.0][15 := octets.1] == Print(a, delay)[2..]
  {
    hide CheckOctets, BodyBytes;
    var b := Print(a, delay);
    PrintedChecksum(a, delay);
    var cs: int := ChecksumOf(b);
    assert b[16] == cs / 0x100 && b[17] == cs % 0x100;
  }

  // ---------------------------------------------------------------------------
  // Corruption
  // ---------------------------------------------------------------------------

  /** The checksum of the advertisement at `i` neither overflows nor misses a sign patch. */
  predicate SoundAt(s: seq<uint8>, i: nat) {
    var n := Read16(s, i + 18);
    18 <= n && i + n <= |s| && Sum1(Covered(s[i..i + n])) < 0x1_0000_0000 && ChecksumSound(Covered(s[i..i + n]), n - 16)
  }

  lemma OctetsSame(a: (uint8, uint8), b: (uint8, uint8))
    ensures a.0 * 0x100 + a.1 == b.0 * 0x100 + b.1 <==> a == b
  {
  }

  /** Reading is not affected by an octet elsewhere. */
  lemma ReadElsewhere(s: seq<uint8>, j: nat, k: nat, v: uint8)
    requires k < |s| && k != j && k != j + 1
    ensures Read16(s[k := v], j) == Read16(s, j)
  {
  }

  /**
   * The receiver's test rejects an accepted advertisement after any change of one octet, the age and
   * the length field aside, unless the change exchanges 0 and 255 outside the checksum field.
   */
  lemma CorruptionPassesIff(s: seq<uint8>, i: nat, k: nat, v: uint8)
    requires ChecksumMatches(s, i) && 2 <= k < Read16(s, i + 18) && k != 18 && k != 19 && v != s[i + k]
    requires SoundAt(s, i) && SoundAt(s[i + k := v], i)
    ensures ChecksumMatches(s[i + k := v], i) <==> k != 16 && k != 17 && (v - s[i + k]) % 255 == 0
  {
    hide CheckOctets, Sum0, Sum1, ChecksumSound;
    var n, t := Read16(s, i + 18), s[i + k := v];
    var b := s[i..i + n];
    ReadElsewhere(s, i + 18, i + k, v);
    assert t[i..i + n] == b[k := v];
    if k == 16 || k == 17 {
      ChecksumIgnores(b[k := v], b);
    } else {
      ReadElsewhere(s, i + 16, i + k, v);
      assert Covered(b[k := v]) == Covered(b)[k - 2 := v];
      OneOctetDetectedIff(Covered(b), 14, n - 16, k - 2, v);
      OctetsSame(CheckOctets(Covered(b), n - 16), CheckOctets(Covered(b[k := v]), n - 16));
    }
  }

  // ---------------------------------------------------------------------------
  // The layout of what is printed
  // ---------------------------------------------------------------------------

  /** Network byte order, most significant octet first. */
  predicate Word16(b: seq<uint8>, i: nat, x: uint16) {
    i + 2 <= |b| && x == b[i] as int * 256 + b[i + 1]
  }

  predicate Word32(b: seq<uint8>, i: nat, x: uint32) {
    i + 4 <= |b| && x == b[i] as int * 0x100_0000 + b[i + 1] as int * 0x1_0000 + b[i + 2] as int * 0x100 + b[i + 3]
  }

  /** Section A.4.1 of RFC 2328. */
  predicate HeaderLayout(b: seq<uint8>, h: LsaHeader, age: uint16, checksum: uint16) {
    && Word16(b, 0, age) && |b| >= 20 && b[2] == h.options && b[3] == h.lsType
    && Word32(b, 4, h.linkStateId) && Word32(b, 8, h.advRouter) && Word32(b, 12, h.seqNum)
    && Word16(b, 16, checksum) && Word16(b, 18, h.length)
  }

  /** Section A.4.2 of RFC 2328, but for the place of the flags, which the bit-fields put in the high bits. */
  predicate RouterLayout(b: seq<uint8>, body: RouterBody) {
    var links := body.links;
    && |b| == 24 + 12 * |links| && |links| < 0x1_0000 && b[21] == 0 && Word16(b, 22, |links|)
    && b[20] % 32 == 0 && (b[20] / 32 % 2 == 1 <==> body.v) && (b[20] / 64 % 2 == 1 <==> body.e) && (b[20] / 128 == 1 <==> body.b)
    && (forall j :: 0 <= j < |links| ==> LinkLayout(b, 24 + 12 * j, links[j]))
  }

  predicate LinkLayout(b: seq<uint8>, i: nat, l: RouterLink) {
    i + 12 <= |b| && Word32(b, i, l.linkId) && Word32(b, i + 4, l.linkData)
    && b[i + 8] == l.kind && b[i + 9] == l.tosNum && Word16(b, i + 10, l.metric)
  }

  /** Section A.4.3 of RFC 2328. */
  predicate NetworkLayout(b: seq<uint8>, mask: uint32, attached: seq<uint32>) {
    && |b| == 24 + 4 * |attached| && Word32(b, 20, mask)
    && (forall j :: 0 <= j < |attached| ==> Word32(b, 24 + 4 * j, attached[j]))
  }

  lemma Word16Stands(b: seq<uint8>, i: nat, x: uint16)
    requires Holds(b, i, U16(x))
    ensures Word16(b, i, x)
  {
    Read16Back(b, i, x);
  }

  lemma Word32Stands(b: seq<uint8>, i: nat, x: uint32)
    requires Holds(b, i, U32(x))
    ensures Word32(b, i, x)
  {
    Read32Back(b, i, x);
  }

  lemma HeaderStands(b: seq<uint8>, h: LsaHeader)
    requires Holds(b, 0, HeaderBytes(h))
    ensures HeaderLayout(b, h, h.age, h.checksum)
  {
    hide U16, U32, Word16, Word32;
    var t6 := U16(h.checksum) + U16(h.length);
    var t5 := U32(h.seqNum) + t6;
    var t4 := U32(h.advRouter) + t5;
    var t3 := U32(h.linkStateId) + t4;
    var t2 := [h.options, h.lsType] + t3;
    HoldsPart(b, 0, U16(h.age), t2);
    HoldsPart(b, 2, [h.options, h.lsType], t3);
    HoldsPart(b, 4, U32(h.linkStateId), t4);
    HoldsPart(b, 8, U32(h.advRouter), t5);
    HoldsPart(b, 12, U32(h.seqNum), t6);
    HoldsPart(b, 16, U16(h.checksum), U16(h.length));
    assert b[2] == b[2..4][0] && b[3] == b[2..4][1];
    Word16Stands(b, 0, h.age);
    Word32Stands(b, 4, h.linkStateId);
    Word32Stands(b, 8, h.advRouter);
    Word32Stands(b, 12, h.seqNum);
    Word16Stands(b, 16, h.checksum);
    Word16Stands(b, 18, h.length);
  }

  lemma LinkStands(b: seq<uint8>, i: nat, l: RouterLink)
    requires Holds(b, i, LinkBytes(l))
    ensures LinkLayout(b, i, l)
  {
    hide U16, U32, Word16, Word32;
    var t3 := [l.kind, l.tosNum] + U16(l.metric);
    HoldsPart(b, i, U32(l.linkId), U32(l.linkData) + t3);
    HoldsPart(b, i + 4, U32(l.linkData), t3);
    HoldsPart(b, i + 8, [l.kind, l.tosNum], U16(l.metric));
    assert b[i + 8] == b[i + 8..i + 10][0] && b[i + 9] == b[i + 8..i + 10][1];
    Word32Stands(b, i, l.linkId);
    Word32Stands(b, i + 4, l.linkData);
    Word16Stands(b, i + 10, l.metric);
  }

  lemma {:induction false} LinkAmongLinks(b: seq<uint8>, i: nat, ls: seq<RouterLink>, j: nat)
    requires Holds(b, i, LinksBytes(ls)) && j < |ls|
    ensures Holds(b, i + 12 * j, LinkBytes(ls[j]))
  {
    hide Holds, LinkBytes;
    HoldsPart(b, i, LinksBytes(ls[..|ls| - 1]), LinkBytes(ls[|ls| - 1]));
    if j < |ls| - 1 {
      LinkAmongLinks(b, i, ls[..|ls| - 1], j);
    }
  }

  lemma {:induction false} AddressAmongAddresses(b: seq<uint8>, i: nat, rs: seq<uint32>, j: nat)
    requires Holds(b, i, AddressesBytes(rs)) && j < |rs|
    ensures Holds(b, i + 4 * j, U32(rs[j]))
  {
    hide Holds, U32;
    HoldsPart(b, i, AddressesBytes(rs[..|rs| - 1]), U32(rs[|rs| - 1]));
    if j < |rs| - 1 {
      AddressAmongAddresses(b, i, rs[..|rs| - 1], j);
    }
  }

  lemma FlagBits(body: RouterBody)
    ensures var f := Flags(body);
            && f % 32 == 0 && (f / 32 % 2 == 1 <==> body.v) && (f / 64 % 2 == 1 <==> body.e) && (f / 128 == 1 <==> body.b)
  {
  }

  lemma RouterStands(b: seq<uint8>, body: RouterBody)
    requires |body.links| < 0x1_0000 && Holds(b, 20, RouterBodyBytes(body)) && |b| == 24 + 12 * |body.links|
    ensures RouterLayout(b, body)
  {
    hide U16, Word16, LinkLayout, LinksBytes, Flags, LinkBytes;
    HoldsPart(b, 20, [Flags(body), 0], U16(|body.links|) + LinksBytes(body.links));
    HoldsPart(b, 22, U16(|body.links|), LinksBytes(body.links));
    assert b[20] == b[20..22][0] && b[21] == b[20..22][1];
    FlagBits(body);
    Word16Stands(b, 22, |body.links|);
    forall j | 0 <= j < |body.links|
      ensures LinkLayout(b, 24 + 12 * j, body.links[j])
    {
      LinkAmongLinks(b, 24, body.links, j);
      LinkStands(b, 24 + 12 * j, body.links[j]);
    }
  }

  lemma NetworkStands(b: seq<uint8>, body: NetworkBody)
    requires Holds(b, 20, NetworkBodyBytes(body)) && |b| == 24 + 4 * |body.attached|
    ensures NetworkLayout(b, body.mask, body.attached)
  {
    hide U32, Word32, AddressesBytes;
    HoldsPart(b, 20, U32(body.mask), AddressesBytes(body.attached));
    Word32Stands(b, 20, body.mask);
    forall j | 0 <= j < |body.attached|
      ensures Word32(b, 24 + 4 * j, body.attached[j])
    {
      AddressAmongAddresses(b, 24, body.attached, j);
      Word32Stands(b, 24 + 4 * j, body.attached[j]);
    }
  }

  /** The octets of a printed advertisement are laid out as the standard says, a network's mask included. */
  lemma PrintedLayout(a: Advert, delay: uint16)
    requires Printable(a)
    ensures var b := Print(a, delay);
            && HeaderLayout(b, HeaderOf(a), delay, ChecksumOf(b))
            && (match a
                case RouterAdvert(l) => RouterLayout(b, l.body)
                case NetworkAdvert(l) => NetworkLayout(b, l.body.mask, l.body.attached)
                case OtherAdvert(_) => false)
  {
    hide HeaderBytes, ChecksumOf, RouterBodyBytes, NetworkBodyBytes, Word16, Word32, Holds, RouterLayout, NetworkLayout;
    var b, h := Print(a, delay), PrintedHeader(a, delay);
    PrintedChecksum(a, delay);
    HoldsWhole(b);
    HoldsPart(b, 0, HeaderBytes(h), BodyBytes(a));
    HeaderStands(b, h);
    match a {
      case RouterAdvert(l) => RouterStands(b, l.body);
      case NetworkAdvert(l) => NetworkStands(b, l.body);
    }
  }

  /** A packet begins with the number of its advertisements. */
  lemma CountStands(list: seq<Advert>, delay: uint16)
    requires AllPrintable(list) && |list| < 0x1_0000_0000
    ensures Word32(PrintLsu(list, delay), 0, |list|)
  {
    hide U32, PrintAll;
    HoldsPart(PrintLsu(list, delay), 0, U32(|list|), PrintAll(list, delay));
    Word32Stands(PrintLsu(list, delay), 0, |list|);
  }

  lemma HoldsWhole(b: seq<uint8>)
    ensures Holds(b, 0, b)
  {
  }
}
