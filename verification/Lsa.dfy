/** Link state advertisements and the order of their instances (src/link_state.cpp). */
module Lsa {
  import opened Basics

  const MAX_AGE: int := 3600
  const MAX_AGE_DIFF: int := 900

  const LSA_ROUTER: int := 1
  const LSA_NETWORK: int := 2
  const LSA_ASEXTERNAL: int := 5

  datatype LsaHeader = LsaHeader(
    age: uint16, options: uint8, lsType: uint8, linkStateId: uint32, advRouter: uint32,
    seqNum: uint32, checksum: uint16, length: uint16)

  /** The pair the database looks up within one type of advertisement. */
  datatype Key = Key(linkStateId: uint32, advRouter: uint32)

  function KeyOf(h: LsaHeader): Key {
    Key(h.linkStateId, h.advRouter)
  }

  /** A header after a trip through `hton` or `ntoh`: the 32-bit swap of the 16-bit age leaves 0. */
  function WithoutAge(h: LsaHeader): LsaHeader {
    h.(age := 0)
  }

  /** An advertisement with a type-specific body. */
  datatype Lsa<+B> = Lsa(header: LsaHeader, body: B)

  datatype RouterLink = RouterLink(linkId: uint32, linkData: uint32, kind: uint8, tosNum: uint8, metric: uint16)
  datatype RouterBody = RouterBody(v: bool, e: bool, b: bool, links: seq<RouterLink>)
  datatype NetworkBody = NetworkBody(mask: uint32, attached: seq<uint32>)

  type RouterLsa = Lsa<RouterBody>
  type NetworkLsa = Lsa<NetworkBody>

  // ---------------------------------------------------------------------------
  // Instance order
  // ---------------------------------------------------------------------------

  /** `lsa_header_cmp`: negative when `a` is the newer instance, positive when `b` is. */
  function Compare(a: LsaHeader, b: LsaHeader): int {
    if a.seqNum != b.seqNum then
      if a.seqNum < b.seqNum then 1 else -1
    else if a.checksum != b.checksum then
      if a.checksum < b.checksum then 1 else -1
    else if a.age == MAX_AGE && b.age == MAX_AGE then 0
    else if a.age == MAX_AGE then -1
    else if b.age == MAX_AGE then 1
    else if a.age - b.age >= MAX_AGE_DIFF || b.age - a.age >= MAX_AGE_DIFF then
      if a.age > b.age then 1 else -1
    else 0
  }

  predicate Newer(a: LsaHeader, b: LsaHeader) {
    Compare(a, b) < 0
  }

  /** The order on (sequence number, checksum), both unsigned, that comes before any age rule. */
  predicate Outranks(a: LsaHeader, b: LsaHeader) {
    a.seqNum > b.seqNum || (a.seqNum == b.seqNum && a.checksum > b.checksum)
  }

  predicate SameRank(a: LsaHeader, b: LsaHeader) {
    a.seqNum == b.seqNum && a.checksum == b.checksum
  }

  /** Age placed on a line on which "newer" means "at least 900 to the left". */
  function AgeLine(h: LsaHeader): int {
    if h.age == MAX_AGE then -MAX_AGE_DIFF else h.age
  }

  /** The comparator is a lexicographic order with a semi-order on age at the end. */
  lemma NewerIsLexicographic(a: LsaHeader, b: LsaHeader)
    ensures Newer(a, b) <==> Outranks(a, b) || (SameRank(a, b) && AgeLine(a) + MAX_AGE_DIFF <= AgeLine(b))
    ensures Compare(a, b) == -Compare(b, a)
    ensures Compare(a, b) == 0 <==> !Newer(a, b) && !Newer(b, a)
  {
  }

  lemma NewerTransitive(a: LsaHeader, b: LsaHeader, c: LsaHeader)
    requires Newer(a, b) && Newer(b, c)
    ensures Newer(a, c) && !Newer(c, a)
  {
    NewerIsLexicographic(a, b);
    NewerIsLexicographic(b, c);
    NewerIsLexicographic(a, c);
  }

  /** "Newer" is an interval order, so disagreements between two chains always resolve across. */
  lemma NewerIsIntervalOrder(a: LsaHeader, b: LsaHeader, c: LsaHeader, d: LsaHeader)
    requires Newer(a, b) && Newer(c, d)
    ensures Newer(a, d) || Newer(c, b)
  {
    NewerIsLexicographic(a, b);
    NewerIsLexicographic(c, d);
    NewerIsLexicographic(a, d);
    NewerIsLexicographic(c, b);
  }

  /** Ties do not chain: every header has two others it ties with that are ordered between them. */
  lemma TiesAreNotTransitive(h: LsaHeader) returns (a: LsaHeader, b: LsaHeader, c: LsaHeader)
    ensures SameRank(a, h) && SameRank(b, h) && SameRank(c, h)
    ensures Compare(a, b) == 0 && Compare(b, c) == 0 && Newer(a, c)
  {
    a, b, c := h.(age := 0), h.(age := 600), h.(age := 1200);
  }

  /** A sequence number read as the signed 32-bit integer of section 12.1.6 of RFC 2328. */
  function SignedSeq(h: LsaHeader): int {
    AsInt32(h.seqNum)
  }

  predicate TopBit(h: LsaHeader) {
    h.seqNum >= 0x8000_0000
  }

  /**
   * The code compares sequence numbers unsigned. For different numbers that agrees with the
   * signed order of the standard exactly when both have the same top bit.
   */
  lemma UnsignedOrderMatchesStandardIff(a: LsaHeader, b: LsaHeader)
    requires a.seqNum != b.seqNum
    ensures (Newer(a, b) <==> SignedSeq(a) > SignedSeq(b)) <==> (TopBit(a) <==> TopBit(b))
  {
    NewerIsLexicographic(a, b);
  }
}
