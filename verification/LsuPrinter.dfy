/**
 * The printer of Link State Update packets as it runs: a buffer with a moving pointer, checksum
 * and age patched in afterwards (src/lsa.cpp), and the loops of the parsers (src/link_state.cpp).
 */
module LsuPrinter {
  import opened Basics
  import opened Lsa
  import opened LsuSpec
  import opened Fletcher
  import opened LsuCodec

  class Writer {
    const buffer: array<uint8>
    var ptr: nat

    ghost predicate Valid()
      reads this
    {
      ptr <= buffer.Length
    }

    /** What is in the buffer up to the pointer. */
    ghost function Written(): (s: seq<uint8>)
      requires Valid()
      reads this, buffer
      ensures |s| == ptr
    {
      buffer[..ptr]
    }

    constructor (capacity: nat)
      ensures Valid() && fresh(buffer) && buffer.Length == capacity && Written() == []
    {
      buffer := new uint8[capacity];
      ptr := 0;
    }

    method Put8(x: uint8)
      requires Valid() && ptr < buffer.Length
      modifies this, buffer
      ensures Valid() && Written() == old(Written()) + [x]
    {
      buffer[ptr] := x;
      ptr := ptr + 1;
    }

    method Put16(x: uint16)
      requires Valid() && ptr + 2 <= buffer.Length
      modifies this, buffer
      ensures Valid() && Written() == old(Written()) + U16(x)
    {
      Put8(x / 0x100);
      Put8(x % 0x100);
    }

    method Put32(x: uint32)
      requires Valid() && ptr + 4 <= buffer.Length
      modifies this, buffer
      ensures Valid() && Written() == old(Written()) + U32(x)
    {
      Put8(x / 0x100_0000);
      Put8(x / 0x1_0000 % 0x100);
      Put8(x / 0x100 % 0x100);
      Put8(x % 0x100);
    }

    /** Overwrites a 16-bit field behind the pointer. */
    method Patch16(at: nat, x: uint16)
      requires Valid() && at + 2 <= ptr
      modifies buffer
      ensures Written() == old(Written())[..at] + U16(x) + old(Written())[at + 2..]
    {
      buffer[at] := x / 0x100;
      buffer[at + 1] := x % 0x100;
    }

    method Patch32(at: nat, x: uint32)
      requires Valid() && at + 4 <= ptr
      modifies buffer
      ensures Written() == old(Written())[..at] + U32(x) + old(Written())[at + 4..]
    {
      buffer[at] := x / 0x100_0000;
      buffer[at + 1] := x / 0x1_0000 % 0x100;
      buffer[at + 2] := x / 0x100 % 0x100;
      buffer[at + 3] := x % 0x100;
    }

    method PutHeader(h: LsaHeader)
      requires Valid() && ptr + 20 <= buffer.Length
      modifies this, buffer
      ensures Valid() && Written() == old(Written()) + HeaderBytes(h)
    {
      hide U16, U32, Writer.Written;
      ghost var front := Written();
      Put16(h.age);
      Put8(h.options);
      Put8(h.lsType);
      Put32(h.linkStateId);
      Put32(h.advRouter);
      Put32(h.seqNum);
      Put16(h.checksum);
      Put16(h.length);
      HeaderFieldByField(front, h);
    }

    method PutRouterBody(b: RouterBody)
      requires Valid() && |b.links| < 0x1_0000 && ptr + |RouterBodyBytes(b)| <= buffer.Length
      modifies this, buffer
      ensures Valid() && Written() == old(Written()) + RouterBodyBytes(b)
    {
      hide U16, U32, Flags, LinkBytes;
      Put8(Flags(b));
      Put8(0);
      Put16(|b.links|);
      ghost var front := Written();
      for i := 0 to |b.links|
        invariant Valid() && Written() == front + LinksBytes(b.links[..i])
      {
        assert b.links[..i + 1][..i] == b.links[..i];
        PutLink(b.links[i]);
      }
      assert b.links[..|b.links|] == b.links;
    }

    method PutLink(l: RouterLink)
      requires Valid() && ptr + 12 <= buffer.Length
      modifies this, buffer
      ensures Valid() && Written() == old(Written()) + LinkBytes(l)
    {
      hide U16, U32;
      Put32(l.linkId);
      Put32(l.linkData);
      Put8(l.kind);
      Put8(l.tosNum);
      Put16(l.metric);
    }

    method PutNetworkBody(b: NetworkBody)
      requires Valid() && ptr + |NetworkBodyBytes(b)| <= buffer.Length
      modifies this, buffer
      ensures Valid() && Written() == old(Written()) + NetworkBodyBytes(b)
    {
      hide U32;
      Put32(b.mask);
      ghost var front := Written();
      for i := 0 to |b.attached|
        invariant Valid() && Written() == front + AddressesBytes(b.attached[..i])
      {
        assert b.attached[..i + 1][..i] == b.attached[..i];
        Put32(b.attached[i]);
      }
      assert b.attached[..|b.attached|] == b.attached;
    }

    /** Header, body, then the checksum over what was printed, then the age. */
    method PutAdvert(a: Advert, delay: uint16)
      requires Valid() && Printable(a) && ptr + |Print(a, delay)| <= buffer.Length
      modifies this, buffer
      ensures Valid() && Written() == old(Written()) + Print(a, delay)
    {
      hide HeaderBytes, BodyBytes, ChecksumOf, U16, Writer.Written;
      var start := ptr;
      ghost var front := Written();
      var h := HeaderOf(a);
      ghost var raw := HeaderBytes(WithoutAge(h)) + BodyBytes(a);
      PutHeader(WithoutAge(h));
      PutBody(a);
      assert Written() == front + raw;
      assert Written()[start..start + |raw|] == raw;
      var checksum := ChecksumFrom(start, h.length);
      Patch16(start + 16, checksum);
      Patch16(start, delay);
      PatchedHeader(front, a, delay);
    }

    method PutBody(a: Advert)
      requires Valid() && Printable(a) && ptr + |BodyBytes(a)| <= buffer.Length
      modifies this, buffer
      ensures Valid() && Written() == old(Written()) + BodyBytes(a)
    {
      match a {
        case RouterAdvert(l) => PutRouterBody(l.body);
        case NetworkAdvert(l) => PutNetworkBody(l.body);
      }
    }

    method ChecksumFrom(start: nat, length: nat) returns (checksum: uint16)
      requires Valid() && 18 <= length && start + length <= ptr
      ensures checksum == ChecksumOf(Written()[start..start + length])
    {
      assert Written()[start..start + length] == buffer[start..start + length];
      checksum := LsaChecksum(buffer, start, length);
    }

    /** The whole packet: the count starts at 0 and is raised for each advertisement. */
    method PutLsu(list: seq<Advert>, delay: uint16)
      requires Valid() && ptr == 0 && AllPrintable(list) && |list| < 0x1_0000_0000
      requires 4 + |PrintAll(list, delay)| <= buffer.Length
      modifies this, buffer
      ensures Valid() && Written() == PrintLsu(list, delay)
    {
      Put32(0);
      for i := 0 to |list|
        invariant Valid() && Written() == U32(i) + PrintAll(list[..i], delay)
      {
        hide U32, Print, Printable, Writer.Written;
        PrefixFits(list, delay, i);
        PutNext(i, PrintAll(list[..i], delay), list[i], delay);
      }
      assert list[..|list|] == list;
    }

    method PutNext(num: uint32, ghost printed: seq<uint8>, a: Advert, delay: uint16)
      requires Valid() && Printable(a) && ptr + |Print(a, delay)| <= buffer.Length
      requires num < 0xFFFF_FFFF && Written() == U32(num) + printed
      modifies this, buffer
      ensures Valid() && Written() == U32(num + 1) + (printed + Print(a, delay))
    {
      hide U32, Print, Printable, Writer.Written;
      Patch32(0, num + 1);
      assert Written() == U32(num + 1) + printed;
      PutAdvert(a, delay);
    }
  }

  /** The fields of a header one after the other are its octets. */
  lemma HeaderFieldByField(front: seq<uint8>, h: LsaHeader)
    ensures front + U16(h.age) + [h.options] + [h.lsType] + U32(h.linkStateId) + U32(h.advRouter) + U32(h.seqNum)
            + U16(h.checksum) + U16(h.length)
         == front + HeaderBytes(h)
  {
    hide U16, U32;
    assert [h.options] + [h.lsType] == [h.options, h.lsType];
  }

  /** One more advertisement fits, and extends what is printed. */
  lemma PrefixFits(list: seq<Advert>, delay: uint16, k: nat)
    requires AllPrintable(list) && k < |list|
    ensures PrintAll(list[..k + 1], delay) == PrintAll(list[..k], delay) + Print(list[k], delay)
    ensures |PrintAll(list[..k + 1], delay)| <= |PrintAll(list, delay)|
  {
    hide Print, Printable;
    PrintAllSplit(list, delay, k);
    assert list[..k + 1][..k] == list[..k];
  }

  /** Patching checksum and age turns what was printed first into the finished advertisement. */
  lemma PatchedHeader(front: seq<uint8>, a: Advert, delay: uint16)
    requires Printable(a)
    ensures var h := HeaderOf(a);
            var s0 := front + (HeaderBytes(WithoutAge(h)) + BodyBytes(a));
            var s1 := s0[..|front| + 16] + U16(PrintedHeader(a, delay).checksum) + s0[|front| + 18..];
            s1[..|front|] + U16(delay) + s1[|front| + 2..] == front + Print(a, delay)
  {
    hide U32, ChecksumOf, BodyBytes;
  }

  /** `lsa_checksum`: a copy with the checksum field zeroed, without the age. */
  method LsaChecksum(buffer: array<uint8>, start: nat, length: nat) returns (checksum: uint16)
    requires 18 <= length && start + length <= buffer.Length
    ensures checksum == ChecksumOf(buffer[start..start + length])
  {
    var copy: seq<uint8> := buffer[start..start + length];
    var data: seq<uint8> := copy[2..][14 := 0][15 := 0];
    checksum := Fletcher16Ru(data, 14);
  }

  // ---------------------------------------------------------------------------
  // Parsing
  // ---------------------------------------------------------------------------

  /** `install_router_lsa` up to the insertion. */
  method ParseRouter(s: seq<uint8>, start: nat) returns (l: RouterLsa)
    ensures l == RouterAt(s, start)
  {
    var num := Read16(s, start + 22);
    var at := start + 24;
    var links := [];
    for i := 0 to num
      invariant at == start + 24 + 12 * i && links == LinksAt(s, start + 24, i)
    {
      links := links + [RouterLink(Read32(s, at), Read32(s, at + 4), At(s, at + 8), At(s, at + 9), Read16(s, at + 10))];
      at := at + 12;
    }
    l := Lsa(HeaderAt(s, start), WithFlags(At(s, start + 20), links));
  }

  /** `install_network_lsa` up to the insertion; its pointer test needs a length that hits the end exactly. */
  method ParseNetwork(s: seq<uint8>, start: nat, mask: uint32) returns (l: NetworkLsa)
    requires HeaderAt(s, start).length >= 24 && (HeaderAt(s, start).length - 24) % 4 == 0
    ensures l == NetworkAt(s, start, mask)
  {
    var h := HeaderAt(s, start);
    var at := start + 24;
    var end := start + h.length;
    var attached := [];
    ghost var n := 0;
    while at != end
      invariant at == start + 24 + 4 * n && at <= end
      invariant attached == AddressesAt(s, start + 24, n)
      decreases end - at
    {
      attached := attached + [Read32(s, at)];
      at := at + 4;
      n := n + 1;
    }
    l := Lsa(h, NetworkBody(mask, attached));
  }

  /** The loop of the receive thread over a packet: where each advertisement starts. */
  method Walk(s: seq<uint8>) returns (starts: seq<nat>)
    ensures |starts| == Read32(s, 0)
    ensures forall k :: 0 <= k < |starts| ==> starts[k] == WalkTo(s, 4, k)
  {
    hide Read16, Read32;
    starts := [];
    var at := 4;
    for i := 0 to Read32(s, 0)
      invariant |starts| == i && at == WalkTo(s, 4, i)
      invariant forall k :: 0 <= k < i ==> starts[k] == WalkTo(s, 4, k)
    {
      starts := starts + [at];
      at := at + Read16(s, at + 18);
    }
  }
}
