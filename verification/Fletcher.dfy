/** The Fletcher checksum of link state advertisements (src/link_state.cpp). */
module Fletcher {
  import opened Basics

  /** The exact octet sum, as an unbounded integer. */
  function Sum0(s: seq<uint8>): nat {
    if s == [] then 0 else Sum0(s[..|s| - 1]) + s[|s| - 1]
  }

  /** The exact sum of all prefix sums, as an unbounded integer. */
  function Sum1(s: seq<uint8>): nat {
    if s == [] then 0 else Sum1(s[..|s| - 1]) + Sum0(s)
  }

  /** Both check sums vanish modulo 255: the test a receiver of a Fletcher-protected block applies. */
  predicate Balanced(s: seq<uint8>) {
    Sum0(s) % 255 == 0 && Sum1(s) % 255 == 0
  }

  lemma ReduceAdd(a: int, b: int)
    ensures (a % 255 + b) % 255 == (a + b) % 255
    ensures (a % 255 + b % 255) % 255 == (a + b) % 255
  {
    assert a + b == a % 255 + b + 255 * (a / 255);
    assert a + b == a % 255 + b % 255 + 255 * (a / 255 + b / 255);
  }

  /** Stepwise reduction: every addition is reduced modulo 255 at once. */
  method Fletcher16(data: seq<uint8>) returns (sum: uint16)
    ensures sum == Sum1(data) % 255 * 256 + Sum0(data) % 255
  {
    var sum1: int, sum2: int := 0, 0;
    assert data[..0] == [];
    for index := 0 to |data|
      invariant sum1 == Sum0(data[..index]) % 255
      invariant sum2 == Sum1(data[..index]) % 255
    {
      assert data[..index + 1][..index] == data[..index];
      ReduceAdd(Sum0(data[..index]), data[index]);
      ReduceAdd(Sum1(data[..index]), Sum0(data[..index + 1]));
      sum1 := (sum1 + data[index]) % 255;
      sum2 := (sum2 + sum1) % 255;
    }
    assert data[..|data|] == data;
    sum := sum2 * 256 + sum1;
  }

  lemma WrapSum(a: int, b: int)
    ensures Wrap32(Wrap32(a) as int + Wrap32(b)) == Wrap32(a + b)
  {
    WrapAdd(a, Wrap32(b));
    WrapAdd(b, a);
  }

  /** Deferred reduction: 32-bit accumulators, reduced once after the loop. */
  method DeferredSums(data: seq<uint8>) returns (c0: uint32, c1: uint32)
    ensures c0 == Wrap32(Sum0(data)) % 255
    ensures c1 == Wrap32(Sum1(data)) % 255
  {
    c0, c1 := 0, 0;
    assert data[..0] == [];
    for index := 0 to |data|
      invariant c0 == Wrap32(Sum0(data[..index]))
      invariant c1 == Wrap32(Sum1(data[..index]))
    {
      assert data[..index + 1][..index] == data[..index];
      WrapAdd(Sum0(data[..index]), data[index]);
      WrapSum(Sum1(data[..index]), Sum0(data[..index + 1]));
      c0 := Wrap32(c0 as int + data[index]);
      c1 := Wrap32(c1 as int + c0);
    }
    assert data[..|data|] == data;
    c0 := c0 % 255;
    c1 := c1 % 255;
  }

  /** A truncated remainder as the octet that is stored: 0 becomes 255, a negative one wraps. */
  function Octet(rem: int): uint8 {
    (if rem == 0 then 255 else rem) % 256
  }

  /** The octet that goes first (the high byte of the result), from the weighted first sum. */
  function FirstOctet(mul: int, c0: int, c1: int): uint8 {
    var x := AsInt32(mul - c0 - c1);
    Octet(TruncRem(if x < 0 then x - 1 else x, 255))
  }

  /** The octet that goes second (the low byte of the result). */
  function SecondOctet(mul: int, c1: int): uint8 {
    var y := AsInt32(c1 - mul - 1);
    Octet(TruncRem(if y >= 0 then y + 1 else y, 255))
  }

  /**
   * The check octets as the code computes them; `weight` is the distance of the checksum field
   * from the end of the block.
   */
  function CheckOctets(data: seq<uint8>, weight: int): (uint8, uint8) {
    var c0: int := Wrap32(Sum0(data)) % 255;
    var c1: int := Wrap32(Sum1(data)) % 255;
    var mul: int := Wrap32(weight * c0);
    (FirstOctet(mul, c0, c1), SecondOctet(mul, c1))
  }

  method Fletcher16Ru(data: seq<uint8>, offset: int) returns (checksum: uint16)
    ensures checksum == CheckOctets(data, |data| - offset).0 * 256 + CheckOctets(data, |data| - offset).1
  {
    var c0, c1 := DeferredSums(data);
    var mul: int := Wrap32((|data| - offset) * c0);
    var x := AsInt32(mul - c0 - c1);
    var y := AsInt32(c1 as int - mul - 1);
    if y >= 0 { y := y + 1; }
    if x < 0 { x := x - 1; }
    x := TruncRem(x, 255);
    y := TruncRem(y, 255);
    if x == 0 { x := 255; }
    if y == 0 { y := 255; }
    checksum := x % 256 * 256 + y % 256;
  }

  // ---------------------------------------------------------------------------
  // Deferred reduction against stepwise reduction
  // ---------------------------------------------------------------------------

  lemma {:induction false} SumBounds(s: seq<uint8>)
    ensures Sum0(s) <= 255 * |s|
    ensures 2 * Sum1(s) <= 255 * (|s| * (|s| + 1))
  {
    if s != [] {
      var t := s[..|s| - 1];
      SumBounds(t);
      assert |s| * (|s| + 1) == |t| * (|t| + 1) + 2 * |s|;
    }
  }

  /** 2^32 is 1 modulo 255, so each lost carry out of the accumulator shifts the residue by one. */
  lemma WrapResidue(x: nat)
    requires x < 255 * TWO32
    ensures Wrap32(x) % 255 == x % 255 <==> x < TWO32
  {
    var carries := x / TWO32;
    assert x == Wrap32(x) + carries + 255 * (0x101_0101 * carries);
    var r := Wrap32(x);
    assert x % 255 == (r + carries) % 255;
  }

  lemma SquareBound(n: nat, m: nat)
    requires n <= m
    ensures n * (n + 1) <= m * (m + 1)
  {
    assert n * (n + 1) <= m * (n + 1) <= m * (m + 1);
  }

  /**
   * For every block an LSA length field can describe, deferring the reduction agrees with
   * reducing at each step exactly when the second accumulator never leaves 32 bits.
   */
  lemma DeferredIffNoOverflow(s: seq<uint8>)
    requires |s| <= 0xFFFF
    ensures Wrap32(Sum0(s)) % 255 == Sum0(s) % 255
    ensures Wrap32(Sum1(s)) % 255 == Sum1(s) % 255 <==> Sum1(s) < TWO32
  {
    SumBounds(s);
    SquareBound(|s|, 0xFFFF);
    WrapResidue(Sum0(s));
    WrapResidue(Sum1(s));
  }

  /** The safe length: up to 5803 octets no content can overflow the accumulators. */
  lemma DeferredRefinesStepwise(s: seq<uint8>)
    requires |s| <= 5803
    ensures Sum1(s) < TWO32
    ensures Wrap32(Sum0(s)) % 255 == Sum0(s) % 255
    ensures Wrap32(Sum1(s)) % 255 == Sum1(s) % 255
  {
    SumBounds(s);
    SquareBound(|s|, 5803);
    DeferredIffNoOverflow(s);
  }

  lemma {:induction false} SumsOfOnes(s: seq<uint8>)
    requires forall i :: 0 <= i < |s| ==> s[i] == 255
    ensures Sum0(s) == 255 * |s|
    ensures 2 * Sum1(s) == 255 * (|s| * (|s| + 1))
  {
    if s != [] {
      var t := s[..|s| - 1];
      SumsOfOnes(t);
      assert |s| * (|s| + 1) == |t| * (|t| + 1) + 2 * |s|;
    }
  }

  /** The length bound is tight: one octet more, all bits set, wraps and gives a different sum. */
  lemma DeferredBoundIsTight(s: seq<uint8>)
    requires |s| == 5804
    requires forall i :: 0 <= i < |s| ==> s[i] == 255
    ensures Wrap32(Sum1(s)) % 255 != Sum1(s) % 255
  {
    SumsOfOnes(s);
    DeferredIffNoOverflow(s);
  }

  // ---------------------------------------------------------------------------
  // Exactness of the check octets
  // ---------------------------------------------------------------------------

  /** Replacing the octet at `i` moves the second sum by its weight, the distance to the end. */
  lemma {:induction false} SumUpdate(s: seq<uint8>, i: nat, v: uint8)
    requires i < |s|
    ensures Sum0(s[i := v]) == Sum0(s) + v - s[i]
    ensures Sum1(s[i := v]) == Sum1(s) + (|s| - i) * (v - s[i])
  {
    var t := s[..|s| - 1];
    if i == |s| - 1 {
      assert s[i := v][..|s| - 1] == t;
    } else {
      assert s[i := v][..|s| - 1] == t[i := v];
      SumUpdate(t, i, v);
      var d := v - s[i];
      assert (|s| - i) * d == (|t| - i) * d + d;
    }
  }

  /** The two inputs on which the sign patching in front of the remainder is off by one. */
  predicate FirstOctetMisses(c0: int, c1: int) {
    c0 == 0 && c1 == 254
  }

  predicate SecondOctetMisses(mul: int, c1: int) {
    mul >= c1 && (mul - c1) % 255 == 254
  }

  lemma ScaledBounds(weight: int, c0: int)
    requires 2 <= weight <= 0xFFFF && 0 <= c0 < 255
    ensures 2 * c0 <= weight * c0 <= 0xFFFF * 254
  {
    assert (weight - 2) * c0 >= 0;
    assert weight * c0 <= weight * 254;
  }

  /** A non-negative value keeps its residue. */
  lemma PositivePatch(x: int)
    requires x >= 0
    ensures Octet(TruncRem(x, 255)) != 0
    ensures Octet(TruncRem(x, 255)) % 255 == x % 255
  {
  }

  /** A non-positive value moved down by one keeps its residue unless the remainder vanishes. */
  lemma NegativePatch(x: int)
    requires x <= 0
    ensures Octet(TruncRem(x - 1, 255)) != 0
    ensures Octet(TruncRem(x - 1, 255)) % 255 == (x - (if (-x) % 255 == 254 then 1 else 0)) % 255
  {
    var q, m := (1 - x) / 255, (1 - x) % 255;
    if m == 0 {
      Divide255(-x, q - 1, 254);
      Divide255(x - 1, -q, 0);
    } else {
      Divide255(-x, q, m - 1);
      assert TruncRem(x - 1, 255) == -m;
      assert Octet(-m) == 256 - m;
      if m == 1 { Divide255(x, -q, 0); } else { Divide255(x, -q - 1, 256 - m); }
    }
  }

  lemma Divide255(x: int, q: int, r: int)
    requires x == 255 * q + r && 0 <= r < 255
    ensures x % 255 == r
  {
  }

  lemma SignedSmall(x: int)
    requires -0x8000_0000 <= x < 0x8000_0000
    ensures AsInt32(x) == x
  {
  }

  /** The first octet is never zero and has residue mul - c0 - c1, less one on a miss. */
  lemma FirstOctetResidue(mul: int, c0: int, c1: int)
    requires 0 <= c0 < 255 && 0 <= c1 < 255 && 2 * c0 <= mul <= 0xFFFF * 254
    requires c0 == 0 ==> mul == 0
    ensures FirstOctet(mul, c0, c1) != 0
    ensures FirstOctet(mul, c0, c1) % 255
         == (mul - c0 - c1 - (if FirstOctetMisses(c0, c1) then 1 else 0)) % 255
  {
    var x := mul - c0 - c1;
    SignedSmall(x);
    if x < 0 {
      NegativePatch(x);
      assert 0 < -x <= 254;
    } else {
      PositivePatch(x);
    }
  }

  /** The second octet is never zero and has residue c1 - mul, less one on a miss. */
  lemma SecondOctetResidue(mul: int, c1: int)
    requires 0 <= c1 < 255 && 0 <= mul <= 0xFFFF * 254
    ensures SecondOctet(mul, c1) != 0
    ensures SecondOctet(mul, c1) % 255 == (c1 - mul - (if SecondOctetMisses(mul, c1) then 1 else 0)) % 255
  {
    var y := c1 - mul;
    SignedSmall(y - 1);
    if y <= 0 {
      NegativePatch(y);
    } else {
      PositivePatch(y);
    }
  }

  /** Two numbers that agree modulo 255 differ by a multiple of 255. */
  lemma Quotient(x: int, y: int) returns (k: int)
    requires x % 255 == y % 255
    ensures x == y + 255 * k
  {
    k := x / 255 - y / 255;
  }

  /** The weighted octets cancel the second sum: pure algebra over the exact quotients. */
  lemma WeightedCancel(weight: int, c0: int, c1: int, x: int, y: int, kx: int, ky: int)
    requires x == weight * c0 - c0 - c1 + 255 * kx
    requires y == c1 - weight * c0 + 255 * ky
    ensures c1 + weight * x + (weight - 1) * y == 255 * (weight * kx + weight * ky - ky)
  {
    var u := x + y;
    assert u == 255 * (kx + ky) - c0;
    assert weight * u == 255 * (weight * (kx + ky)) - weight * c0 by {
      assert weight * (255 * (kx + ky)) == 255 * (weight * (kx + ky));
    }
    assert weight * (kx + ky) == weight * kx + weight * ky;
    assert weight * x + (weight - 1) * y == weight * u - y;
  }

  lemma FirstSum(s0: int, x: int, y: int, ex: int, ey: int, d: int, kx: int, ky: int)
    requires x == d - s0 % 255 - ex + 255 * kx
    requires y == -d - ey + 255 * ky
    requires 0 <= ex <= 1 && 0 <= ey <= 1
    ensures (s0 + x + y) % 255 == 0 <==> ex == ey == 0
  {
    assert s0 + x + y == -ex - ey + 255 * (s0 / 255 + kx + ky);
  }

  /** Residues modulo 255 of the two sums once the octets are in place. */
  lemma PlacedResidues(weight: int, s0: int, s1: int, x: int, y: int, ex: int, ey: int)
    requires x % 255 == (weight * (s0 % 255) - s0 % 255 - s1 % 255 - ex) % 255
    requires y % 255 == (s1 % 255 - weight * (s0 % 255) - ey) % 255
    requires 0 <= ex <= 1 && 0 <= ey <= 1
    ensures Cancels(weight, s0, s1, x, y) <==> ex == ey == 0
  {
    var c0, c1 := s0 % 255, s1 % 255;
    var w := weight * c0;
    var kx := Quotient(x, w - c0 - c1 - ex);
    var ky := Quotient(y, c1 - w - ey);
    FirstSum(s0, x, y, ex, ey, w - c1, kx, ky);
    if ex == ey == 0 {
      WeightedCancel(weight, c0, c1, x, y, kx, ky);
      var k := weight * kx + weight * ky - ky;
      assert s1 + weight * x + (weight - 1) * y == 255 * (s1 / 255 + k);
    }
  }

  /** Octets x and y, the first at distance `weight` from the end, cancel the sums s0 and s1. */
  predicate Cancels(weight: int, s0: int, s1: int, x: int, y: int) {
    (s0 + x + y) % 255 == 0 && (s1 + weight * x + (weight - 1) * y) % 255 == 0
  }

  /** The arithmetic of exactness, free of sequences. */
  lemma OctetsBalance(weight: int, s0: nat, s1: nat, mul: int, x: int, y: int)
    requires 2 <= weight <= 0xFFFF && mul == weight * (s0 % 255)
    requires x == FirstOctet(mul, s0 % 255, s1 % 255) && y == SecondOctet(mul, s1 % 255)
    ensures x != 0 && y != 0
    ensures Cancels(weight, s0, s1, x, y)
            <==> !FirstOctetMisses(s0 % 255, s1 % 255) && !SecondOctetMisses(mul, s1 % 255)
  {
    var c0, c1 := s0 % 255, s1 % 255;
    ScaledBounds(weight, c0);
    FirstOctetResidue(mul, c0, c1);
    SecondOctetResidue(mul, c1);
    if FirstOctetMisses(c0, c1) {
      PlacedResidues(weight, s0, s1, x, y, 1, 0);
    } else if SecondOctetMisses(mul, c1) {
      PlacedResidues(weight, s0, s1, x, y, 0, 1);
    } else {
      PlacedResidues(weight, s0, s1, x, y, 0, 0);
    }
  }

  /**
   * Fletcher exactness. With the checksum octets zeroed and no accumulator overflow, placing the
   * two returned octets balances the block if and only if neither sign patch misses; in every
   * case neither octet is zero.
   */
  lemma FletcherExact(data: seq<uint8>, offset: nat, weight: nat)
    requires 2 <= weight && |data| == offset + weight <= 0xFFFF
    requires data[offset] == 0 && data[offset + 1] == 0
    requires Sum1(data) < TWO32
    ensures CheckOctets(data, weight).0 != 0 && CheckOctets(data, weight).1 != 0
    ensures Balanced(data[offset := CheckOctets(data, weight).0][offset + 1 := CheckOctets(data, weight).1])
            <==> (&& !FirstOctetMisses(Sum0(data) % 255, Sum1(data) % 255)
                  && !SecondOctetMisses(weight * (Sum0(data) % 255), Sum1(data) % 255))
  {
    var mul := weight * (Sum0(data) % 255);
    var octets := CheckOctets(data, weight);
    CheckOctetsExact(data, weight, mul);
    OctetsExact(data, offset, weight, mul, octets.0, octets.1);
  }

  lemma OctetsExact(data: seq<uint8>, offset: nat, weight: int, mul: int, x: uint8, y: uint8)
    requires offset + 2 <= |data| <= 0xFFFF && weight == |data| - offset
    requires data[offset] == 0 && data[offset + 1] == 0
    requires mul == weight * (Sum0(data) % 255)
    requires x == FirstOctet(mul, Sum0(data) % 255, Sum1(data) % 255) && y == SecondOctet(mul, Sum1(data) % 255)
    ensures x != 0 && y != 0
    ensures Balanced(data[offset := x][offset + 1 := y])
            <==> (&& !FirstOctetMisses(Sum0(data) % 255, Sum1(data) % 255)
                  && !SecondOctetMisses(mul, Sum1(data) % 255))
  {
    OctetsBalance(weight, Sum0(data), Sum1(data), mul, x, y);
    BalancedWhenPlaced(data, offset, weight, x, y);
  }

  lemma BalancedWhenPlaced(data: seq<uint8>, offset: nat, weight: int, x: uint8, y: uint8)
    requires offset + 2 <= |data| && weight == |data| - offset
    requires data[offset] == 0 && data[offset + 1] == 0
    ensures Balanced(data[offset := x][offset + 1 := y]) <==> Cancels(weight, Sum0(data), Sum1(data), x, y)
  {
    PlacedSums(data, offset, weight, x, y);
  }

  lemma CheckOctetsExact(data: seq<uint8>, weight: int, mul: int)
    requires 2 <= weight <= |data| <= 0xFFFF
    requires mul == weight * (Sum0(data) % 255)
    requires Sum1(data) < TWO32
    ensures CheckOctets(data, weight)
         == (FirstOctet(mul, Sum0(data) % 255, Sum1(data) % 255), SecondOctet(mul, Sum1(data) % 255))
  {
    DeferredIffNoOverflow(data);
    ScaledBounds(weight, Sum0(data) % 255);
    SmallWrap(mul);
  }

  lemma SmallWrap(x: int)
    requires 0 <= x < TWO32
    ensures Wrap32(x) == x
  {
  }

  lemma PlacedSums(data: seq<uint8>, offset: nat, weight: int, x: uint8, y: uint8)
    requires offset + 2 <= |data| && weight == |data| - offset
    requires data[offset] == 0 && data[offset + 1] == 0
    ensures Sum0(data[offset := x][offset + 1 := y]) == Sum0(data) + x + y
    ensures Sum1(data[offset := x][offset + 1 := y]) == Sum1(data) + weight * x + (weight - 1) * y
  {
    SumUpdate(data, offset, x);
    SumUpdate(data[offset := x], offset + 1, y);
  }

  // ---------------------------------------------------------------------------
  // Detection
  // ---------------------------------------------------------------------------

  /** Neither sign patch of the generator misses. */
  predicate ChecksumSound(data: seq<uint8>, weight: nat) {
    && !FirstOctetMisses(Sum0(data) % 255, Sum1(data) % 255)
    && !SecondOctetMisses(weight * (Sum0(data) % 255), Sum1(data) % 255)
  }

  lemma ResidueMoves(a: int, d: int, w: int)
    requires d % 255 == 0
    ensures (a + w * d) % 255 == a % 255
  {
    var q := d / 255;
    assert w * d == 255 * (w * q);
    assert a + w * d == 255 * (a / 255 + w * q) + a % 255;
    Divide255(a + w * d, a / 255 + w * q, a % 255);
  }

  lemma SameResiduesSameOctets(data: seq<uint8>, other: seq<uint8>, weight: int)
    requires 2 <= weight <= |data| <= 0xFFFF && |other| == |data|
    requires Sum1(data) < TWO32 && Sum1(other) < TWO32
    requires Sum0(data) % 255 == Sum0(other) % 255 && Sum1(data) % 255 == Sum1(other) % 255
    ensures CheckOctets(data, weight) == CheckOctets(other, weight)
  {
    hide CheckOctets, Sum0, Sum1;
    CheckOctetsExact(data, weight, weight * (Sum0(data) % 255));
    CheckOctetsExact(other, weight, weight * (Sum0(other) % 255));
  }

  lemma Difference(a: int, b: int)
    requires a % 255 == 0 && b % 255 == 0
    ensures (a - b) % 255 == 0
  {
    Divide255(a - b, a / 255 - b / 255, 0);
  }

  /** Two balanced blocks that differ in one octet differ there by a multiple of 255. */
  lemma BalancedDiffer(s: seq<uint8>, p: nat, v: uint8)
    requires p < |s| && Balanced(s) && Balanced(s[p := v])
    ensures (v - s[p]) % 255 == 0
  {
    hide Sum0, Sum1;
    SumUpdate(s, p, v);
    Difference(Sum0(s[p := v]), Sum0(s));
    assert v - s[p] == Sum0(s[p := v]) - Sum0(s);
  }

  /**
   * A change of one octet outside the checksum field changes the check octets, unless it exchanges 0
   * and 255, which the sums modulo 255 cannot tell apart. Both blocks are free of overflow and of
   * a missed sign patch.
   */
  lemma OneOctetDetectedIff(data: seq<uint8>, offset: nat, weight: nat, p: nat, v: uint8)
    requires 2 <= weight && |data| == offset + weight <= 0xFFFF
    requires data[offset] == 0 && data[offset + 1] == 0
    requires p < |data| && p != offset && p != offset + 1
    requires Sum1(data) < TWO32 && Sum1(data[p := v]) < TWO32
    requires ChecksumSound(data, weight) && ChecksumSound(data[p := v], weight)
    ensures CheckOctets(data[p := v], weight) == CheckOctets(data, weight) <==> (v - data[p]) % 255 == 0
  {
    hide CheckOctets, Sum0, Sum1, Balanced, FirstOctetMisses, SecondOctetMisses;
    var other: seq<uint8> := data[p := v];
    var o := CheckOctets(data, weight);
    if CheckOctets(other, weight) == o {
      FletcherExact(data, offset, weight);
      FletcherExact(other, offset, weight);
      var s: seq<uint8> := data[offset := o.0][offset + 1 := o.1];
      var t: seq<uint8> := other[offset := o.0][offset + 1 := o.1];
      assert t == s[p := v];
      BalancedDiffer(s, p, v);
    }
    if (v - data[p]) % 255 == 0 {
      SumUpdate(data, p, v);
      ResidueMoves(Sum0(data), v - data[p], 1);
      ResidueMoves(Sum1(data), v - data[p], |data| - p);
      SameResiduesSameOctets(data, other, weight);
    }
  }
}
