/** The one's-complement packet checksum of `ospf_checksum` (src/ospf.cpp). */
module InternetChecksum {
  import opened Basics

  /** Exact sum of the 16-bit words as a little-endian host loads them; an odd last octet counts alone. */
  function LittleSum(s: seq<uint8>): nat {
    if s == [] then 0
    else if |s| == 1 then s[0]
    else s[0] + 0x100 * s[1] + LittleSum(s[2..])
  }

  /** Exact sum of the words in network order; an odd last octet is padded on the right with zero. */
  function NetworkSum(s: seq<uint8>): nat {
    if s == [] then 0
    else if |s| == 1 then 0x100 * s[0]
    else 0x100 * s[0] + s[1] + NetworkSum(s[2..])
  }

  /** The one's-complement representative of a sum: zero only for zero, otherwise in 1..65535. */
  function Fold(sum: nat): uint16 {
    if sum == 0 then 0 else (sum - 1) % 0xFFFF + 1
  }

  function Complement(x: uint16): uint16 {
    0xFFFF - x
  }

  /** The stored checksum of a buffer. */
  function Checksum(s: seq<uint8>): uint16 {
    Complement(Fold(LittleSum(s)))
  }

  /** The carry loop: it ends, keeps the residue modulo 65535 and keeps non-zeroness. */
  method FoldCarries(start: uint32) returns (sum: uint16)
    ensures sum == Fold(start)
    ensures sum % 0xFFFF == start % 0xFFFF
    ensures sum == 0 <==> start == 0
  {
    var s: int := start;
    while s / 0x1_0000 != 0
      invariant 0 <= s <= start
      invariant s % 0xFFFF == start % 0xFFFF
      invariant s == 0 <==> start == 0
      decreases s
    {
      CarryStep(s);
      s := s % 0x1_0000 + s / 0x1_0000;
    }
    sum := s;
    FoldIsUnique(sum, start);
  }

  lemma CarryStep(s: nat)
    requires s >= 0x1_0000
    ensures 0 < s % 0x1_0000 + s / 0x1_0000 < s
    ensures (s % 0x1_0000 + s / 0x1_0000) % 0xFFFF == s % 0xFFFF
  {
    assert s == s % 0x1_0000 + s / 0x1_0000 + 0xFFFF * (s / 0x1_0000);
  }

  /** `Fold` is the only 16-bit number with the residue and the zeroness of the sum. */
  lemma FoldIsUnique(r: uint16, sum: nat)
    requires r % 0xFFFF == sum % 0xFFFF
    requires r == 0 <==> sum == 0
    ensures r == Fold(sum)
  {
    if sum != 0 {
      var k := (sum - 1) / 0xFFFF;
      assert sum == 0xFFFF * k + Fold(sum);
      var j := sum / 0xFFFF;
      assert sum == 0xFFFF * j + sum % 0xFFFF;
    }
  }

  lemma LittleSumStep(s: seq<uint8>, i: nat, word: int)
    requires i + 2 <= |s| && word == s[i] + 0x100 * (s[i + 1] as int)
    ensures LittleSum(s[i..]) == word + LittleSum(s[i + 2..])
  {
    assert s[i..][2..] == s[i + 2..];
  }

  /** 32-bit accumulation of the words of a buffer; the accumulator wraps silently. */
  method AddWords(data: seq<uint8>) returns (sum: uint32)
    ensures sum == Wrap32(LittleSum(data))
  {
    sum := 0;
    ghost var total := 0;
    for i := 0 to |data| / 2
      invariant total + LittleSum(data[2 * i..]) == LittleSum(data)
      invariant sum == Wrap32(total)
    {
      var word: int := data[2 * i] + 0x100 * (data[2 * i + 1] as int);
      LittleSumStep(data, 2 * i, word);
      WrapAdd(total, word);
      sum := Wrap32(sum as int + word);
      total := total + word;
    }
    if |data| % 2 == 1 {
      assert data[2 * (|data| / 2)..] == [data[|data| - 1]];
      WrapAdd(total, data[|data| - 1]);
      sum := Wrap32(sum as int + data[|data| - 1]);
    }
  }

  method OspfChecksum(data: seq<uint8>) returns (checksum: uint16)
    ensures checksum == Complement(Fold(Wrap32(LittleSum(data))))
  {
    var sum := AddWords(data);
    var folded := FoldCarries(sum);
    checksum := Complement(folded);
  }

  // ---------------------------------------------------------------------------
  // Overflow bound
  // ---------------------------------------------------------------------------

  lemma {:induction false} LittleSumBound(s: seq<uint8>)
    ensures LittleSum(s) <= (|s| / 2) * 0xFFFF + (|s| % 2) * 0xFF
  {
    if |s| >= 2 {
      LittleSumBound(s[2..]);
    }
  }

  /** Up to 131074 octets the accumulator cannot wrap, so `OspfChecksum` returns `Checksum`. */
  lemma NoOverflow(s: seq<uint8>)
    requires |s| <= 131074
    ensures Wrap32(LittleSum(s)) == LittleSum(s)
  {
    LittleSumBound(s);
  }

  lemma {:induction false} SumOfOnes(s: seq<uint8>)
    requires forall i :: 0 <= i < |s| ==> s[i] == 0xFF
    ensures LittleSum(s) == (|s| / 2) * 0xFFFF + (|s| % 2) * 0xFF
  {
    if |s| >= 2 {
      SumOfOnes(s[2..]);
    }
  }

  /** The bound is tight: 131075 octets of 0xFF reach 2^32. */
  lemma OverflowBoundIsTight(s: seq<uint8>)
    requires |s| == 131075
    requires forall i :: 0 <= i < |s| ==> s[i] == 0xFF
    ensures LittleSum(s) >= TWO32
  {
    SumOfOnes(s);
  }

  // ---------------------------------------------------------------------------
  // Verification of a stored checksum
  // ---------------------------------------------------------------------------

  /** The buffer with the checksum stored, as a host word, at an even offset. */
  function Store(s: seq<uint8>, at: nat, checksum: uint16): (r: seq<uint8>)
    requires at + 2 <= |s|
    ensures |r| == |s|
  {
    s[at := checksum % 0x100][at + 1 := checksum / 0x100]
  }

  lemma {:induction false} StoreAddsWord(s: seq<uint8>, at: nat, checksum: uint16)
    requires at + 2 <= |s| && at % 2 == 0
    requires s[at] == 0 && s[at + 1] == 0
    ensures LittleSum(Store(s, at, checksum)) == LittleSum(s) + checksum
  {
    if at == 0 {
      assert Store(s, at, checksum)[2..] == s[2..];
    } else {
      assert Store(s, at, checksum)[2..] == Store(s[2..], at - 2, checksum);
      StoreAddsWord(s[2..], at - 2, checksum);
    }
  }

  /** Writing the checksum into its zeroed aligned field makes a recomputation return zero. */
  lemma StoredChecksumVerifies(s: seq<uint8>, at: nat)
    requires at + 2 <= |s| && at % 2 == 0
    requires s[at] == 0 && s[at + 1] == 0
    ensures Checksum(Store(s, at, Checksum(s))) == 0
  {
    var sum := LittleSum(s);
    var c := Checksum(s);
    StoreAddsWord(s, at, c);
    FoldResidue(sum);
    assert sum + c == 0xFFFF + 0xFFFF * ((sum - Fold(sum)) / 0xFFFF);
    FoldIsUnique(0xFFFF, sum + c);
  }

  lemma FoldResidue(sum: nat)
    ensures (sum - Fold(sum)) % 0xFFFF == 0
    ensures Fold(sum) <= sum
  {
    if sum != 0 {
      assert sum - Fold(sum) == 0xFFFF * ((sum - 1) / 0xFFFF);
    }
  }

  // ---------------------------------------------------------------------------
  // Byte-order independence
  // ---------------------------------------------------------------------------

  function SwapBytes(x: uint16): uint16 {
    x % 0x100 * 0x100 + x / 0x100
  }

  /** Swapping the octets of a word multiplies its residue modulo 65535 by 256. */
  lemma SwapResidue(x: uint16)
    ensures SwapBytes(x) % 0xFFFF == 0x100 * x % 0xFFFF
    ensures SwapBytes(x) == 0 <==> x == 0
  {
    AddMultiple(SwapBytes(x), x / 0x100);
    assert 0x100 * (x as int) == SwapBytes(x) + 0xFFFF * (x / 0x100);
  }

  lemma Cofactor(n: int, m: int) returns (k: int)
    requires n % 0xFFFF == m % 0xFFFF
    ensures n == m + 0xFFFF * k
  {
    k := n / 0xFFFF - m / 0xFFFF;
    assert n == 0xFFFF * (n / 0xFFFF) + n % 0xFFFF;
    assert m == 0xFFFF * (m / 0xFFFF) + m % 0xFFFF;
  }

  lemma WordResidue(a: int, b: int, n: int, l: int)
    requires n % 0xFFFF == 0x100 * l % 0xFFFF
    ensures (0x100 * a + b + n) % 0xFFFF == 0x100 * (a + 0x100 * b + l) % 0xFFFF
  {
    var k := Cofactor(n, 0x100 * l);
    var x := 0x100 * a + b + n;
    assert 0x100 * (a + 0x100 * b + l) == x + 0xFFFF * (b - k);
    AddMultiple(x, b - k);
  }

  lemma {:induction false} NetworkSumResidue(s: seq<uint8>)
    ensures NetworkSum(s) % 0xFFFF == 0x100 * LittleSum(s) % 0xFFFF
    ensures NetworkSum(s) == 0 <==> LittleSum(s) == 0
  {
    if |s| >= 2 {
      NetworkSumResidue(s[2..]);
      var a: int, b: int := s[0], s[1];
      WordResidue(a, b, NetworkSum(s[2..]), LittleSum(s[2..]));
    }
  }

  /**
   * Host-order words on a little-endian machine and network-order words produce the same two
   * stored octets, odd lengths included.
   */
  lemma ByteOrderIndependent(s: seq<uint8>)
    ensures Complement(Fold(NetworkSum(s))) == SwapBytes(Checksum(s))
  {
    NetworkSumResidue(s);
    var f := Fold(LittleSum(s));
    FoldResidue(LittleSum(s));
    SwappedFold(f, LittleSum(s));
    FoldIsUnique(SwapBytes(f), NetworkSum(s));
    ComplementSwap(f);
  }

  lemma ComplementSwap(f: uint16)
    ensures Complement(SwapBytes(f)) == SwapBytes(Complement(f))
  {
    var hi, lo := f / 0x100, f % 0x100;
    assert Complement(f) == 0x100 * (0xFF - hi) + (0xFF - lo);
  }

  lemma SwappedFold(f: uint16, sum: nat)
    requires f <= sum && (sum - f) % 0xFFFF == 0
    requires f == 0 <==> sum == 0
    ensures SwapBytes(f) % 0xFFFF == 0x100 * sum % 0xFFFF
    ensures SwapBytes(f) == 0 <==> sum == 0
  {
    SwapResidue(f);
    var k := (sum - f) / 0xFFFF;
    assert 0x100 * sum == 0x100 * f + 0xFFFF * (0x100 * k);
    AddMultiple(0x100 * f as int, 0x100 * k);
  }

  lemma AddMultiple(a: int, k: int)
    ensures (a + 0xFFFF * k) % 0xFFFF == a % 0xFFFF
  {
  }
}
