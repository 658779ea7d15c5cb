/**
 The egress address predicate: octet and bit-mask tests against CIDR membership, its two IPv6
 embeddings of IPv4, and its two users, the pre-flight check and the connect-time resolver.
 Addresses are bit vectors, so every statement ranges over all addresses.
 */
module Egress {
  import opened Common

  type V4 = bv32
  type V6 = bv128

  // ---- the source's tests -------------------------------------------------------------------------

  function Octet0(a: V4): V4 { a >> 24 }
  function Octet1(a: V4): V4 { (a >> 16) & 0xff }
  function Octet2(a: V4): V4 { (a >> 8) & 0xff }

  function Segment0(a: V6): V6 { a >> 112 }
  function Segment1(a: V6): V6 { (a >> 96) & 0xffff }
  function Segment2(a: V6): V6 { (a >> 80) & 0xffff }
  function Segment3(a: V6): V6 { (a >> 64) & 0xffff }
  function Segment4(a: V6): V6 { (a >> 48) & 0xffff }
  function Segment5(a: V6): V6 { (a >> 32) & 0xffff }
  function Segment6(a: V6): V6 { (a >> 16) & 0xffff }
  function Segment7(a: V6): V6 { a & 0xffff }

  predicate IsLoopbackV4(a: V4) { Octet0(a) == 127 }

  predicate IsPrivate(a: V4) {
    || Octet0(a) == 10
    || (Octet0(a) == 172 && 16 <= Octet1(a) <= 31)
    || (Octet0(a) == 192 && Octet1(a) == 168)
  }

  predicate IsLinkLocalV4(a: V4) { Octet0(a) == 169 && Octet1(a) == 254 }

  predicate IsMulticastV4(a: V4) { 224 <= Octet0(a) <= 239 }

  predicate IsBroadcast(a: V4) { a == 0xffff_ffff }

  predicate IsUnspecifiedV4(a: V4) { a == 0 }

  predicate IsDocumentation(a: V4) {
    || (Octet0(a) == 192 && Octet1(a) == 0 && Octet2(a) == 2)
    || (Octet0(a) == 198 && Octet1(a) == 51 && Octet2(a) == 100)
    || (Octet0(a) == 203 && Octet1(a) == 0 && Octet2(a) == 113)
  }

  predicate IsShared(a: V4) { Octet0(a) == 100 && 64 <= Octet1(a) <= 127 }

  predicate IsThisNetwork(a: V4) { Octet0(a) == 0 }

  predicate IsIetfProtocol(a: V4) { Octet0(a) == 192 && Octet1(a) == 0 && Octet2(a) == 0 }

  predicate IsBenchmarking(a: V4) { Octet0(a) == 198 && (Octet1(a) == 18 || Octet1(a) == 19) }

  predicate IsReservedClassE(a: V4) { Octet0(a) >= 240 }

  predicate IsForbiddenV4(a: V4) {
    || IsLoopbackV4(a) || IsPrivate(a) || IsLinkLocalV4(a) || IsMulticastV4(a) || IsBroadcast(a)
    || IsUnspecifiedV4(a) || IsDocumentation(a) || IsShared(a) || IsThisNetwork(a) || IsIetfProtocol(a)
    || IsBenchmarking(a) || IsReservedClassE(a)
  }

  predicate IsUla(a: V6) { Segment0(a) & 0xfe00 == 0xfc00 }

  predicate IsLinkLocalV6(a: V6) { Segment0(a) & 0xffc0 == 0xfe80 }

  predicate IsForbiddenV6(a: V6) {
    || a == 1 || Segment0(a) & 0xff00 == 0xff00 || a == 0 || IsUla(a) || IsLinkLocalV6(a)
  }

  /** The low 32 bits, octet by octet from the last two segments. */
  function EmbeddedV4(a: V6): V4 {
    var hi, lo := Segment6(a) as bv32, Segment7(a) as bv32;
    ((hi >> 8) << 24) | ((hi & 0xff) << 16) | ((lo >> 8) << 8) | (lo & 0xff)
  }

  function MappedV4(a: V6): (r: Option<V4>) {
    if Segment0(a) == 0 && Segment1(a) == 0 && Segment2(a) == 0 && Segment3(a) == 0
       && Segment4(a) == 0 && Segment5(a) == 0xffff
    then Some(EmbeddedV4(a)) else None
  }

  function Nat64EmbeddedV4(a: V6): (r: Option<V4>) {
    if Segment0(a) == 0x64 && Segment1(a) == 0xff9b && Segment2(a) == 0 && Segment3(a) == 0
       && Segment4(a) == 0 && Segment5(a) == 0
    then Some(EmbeddedV4(a)) else None
  }

  datatype IpAddr = Ip4(v4: V4) | Ip6(v6: V6)

  predicate IsForbiddenIp(ip: IpAddr) {
    match ip
    case Ip4(a) => IsForbiddenV4(a)
    case Ip6(a) =>
      if MappedV4(a).Some? then IsForbiddenV4(MappedV4(a).value)
      else if Nat64EmbeddedV4(a).Some? then IsForbiddenV4(Nat64EmbeddedV4(a).value)
      else IsForbiddenV6(a)
  }

  // ---- CIDR blocks --------------------------------------------------------------------------------

  /** Membership of a block given by its network and its netmask. */
  predicate InV4(a: V4, net: V4, mask: V4) {
    a & mask == net
  }

  predicate InV6(a: V6, net: V6, mask: V6) {
    a & mask == net
  }

  const V4_LEN_4: V4 := 0xf000_0000
  const V4_LEN_8: V4 := 0xff00_0000
  const V4_LEN_10: V4 := 0xffc0_0000
  const V4_LEN_12: V4 := 0xfff0_0000
  const V4_LEN_15: V4 := 0xfffe_0000
  const V4_LEN_16: V4 := 0xffff_0000
  const V4_LEN_24: V4 := 0xffff_ff00

  /** The fixed union of IPv4 blocks. */
  predicate InForbiddenV4Blocks(a: V4) {
    || InV4(a, 0x0000_0000, V4_LEN_8)   // 0.0.0.0/8
    || InV4(a, 0x0a00_0000, V4_LEN_8)   // 10.0.0.0/8
    || InV4(a, 0x6440_0000, V4_LEN_10)  // 100.64.0.0/10
    || InV4(a, 0x7f00_0000, V4_LEN_8)   // 127.0.0.0/8
    || InV4(a, 0xa9fe_0000, V4_LEN_16)  // 169.254.0.0/16
    || InV4(a, 0xac10_0000, V4_LEN_12)  // 172.16.0.0/12
    || InV4(a, 0xc000_0000, V4_LEN_24)  // 192.0.0.0/24
    || InV4(a, 0xc000_0200, V4_LEN_24)  // 192.0.2.0/24
    || InV4(a, 0xc0a8_0000, V4_LEN_16)  // 192.168.0.0/16
    || InV4(a, 0xc612_0000, V4_LEN_15)  // 198.18.0.0/15
    || InV4(a, 0xc633_6400, V4_LEN_24)  // 198.51.100.0/24
    || InV4(a, 0xcb00_7100, V4_LEN_24)  // 203.0.113.0/24
    || InV4(a, 0xe000_0000, V4_LEN_4)   // 224.0.0.0/4
    || InV4(a, 0xf000_0000, V4_LEN_4)   // 240.0.0.0/4
  }

  const V6_LEN_7: V6 := 0xfe00_0000_0000_0000_0000_0000_0000_0000
  const V6_LEN_8: V6 := 0xff00_0000_0000_0000_0000_0000_0000_0000
  const V6_LEN_10: V6 := 0xffc0_0000_0000_0000_0000_0000_0000_0000
  const V6_LEN_96: V6 := 0xffff_ffff_ffff_ffff_ffff_ffff_0000_0000
  const V6_LEN_128: V6 := 0xffff_ffff_ffff_ffff_ffff_ffff_ffff_ffff

  predicate InForbiddenV6Blocks(a: V6) {
    || InV6(a, 0, V6_LEN_128)                                            // ::/128
    || InV6(a, 1, V6_LEN_128)                                            // ::1/128
    || InV6(a, 0xfc00_0000_0000_0000_0000_0000_0000_0000, V6_LEN_7)      // fc00::/7
    || InV6(a, 0xfe80_0000_0000_0000_0000_0000_0000_0000, V6_LEN_10)     // fe80::/10
    || InV6(a, 0xff00_0000_0000_0000_0000_0000_0000_0000, V6_LEN_8)      // ff00::/8
  }

  const MAPPED_PREFIX: V6 := 0xffff_0000_0000
  const NAT64_PREFIX: V6 := 0x0064_ff9b_0000_0000_0000_0000_0000_0000

  /** `::ffff:a.b.c.d`, section 2.5.5.2 of RFC 4291. */
  function Mapped(v: V4): V6 {
    MAPPED_PREFIX | (v as bv128)
  }

  /** `64:ff9b::a.b.c.d`, section 2.1 of RFC 6052. */
  function Nat64(v: V4): V6 {
    NAT64_PREFIX | (v as bv128)
  }

  lemma FirstOctetBlocks(a: V4)
    ensures IsLoopbackV4(a) <==> InV4(a, 0x7f00_0000, V4_LEN_8)
    ensures IsThisNetwork(a) <==> InV4(a, 0x0000_0000, V4_LEN_8)
    ensures IsMulticastV4(a) <==> InV4(a, 0xe000_0000, V4_LEN_4)
    ensures IsReservedClassE(a) <==> InV4(a, 0xf000_0000, V4_LEN_4)
    ensures IsUnspecifiedV4(a) ==> IsThisNetwork(a)
    ensures IsBroadcast(a) ==> IsReservedClassE(a)
  {
  }

  lemma TwelveBitBlock(a: V4)
    ensures Octet0(a) == 172 && 16 <= Octet1(a) <= 31 <==> InV4(a, 0xac10_0000, V4_LEN_12)
  {
  }

  lemma PrivateBlocks(a: V4)
    ensures IsPrivate(a) <==>
            InV4(a, 0x0a00_0000, V4_LEN_8) || InV4(a, 0xac10_0000, V4_LEN_12) || InV4(a, 0xc0a8_0000, V4_LEN_16)
  {
    TwelveBitBlock(a);
    assert Octet0(a) == 10 <==> InV4(a, 0x0a00_0000, V4_LEN_8);
    assert Octet0(a) == 192 && Octet1(a) == 168 <==> InV4(a, 0xc0a8_0000, V4_LEN_16);
  }

  lemma SecondOctetBlocks(a: V4)
    ensures IsLinkLocalV4(a) <==> InV4(a, 0xa9fe_0000, V4_LEN_16)
    ensures IsShared(a) <==> InV4(a, 0x6440_0000, V4_LEN_10)
    ensures IsBenchmarking(a) <==> InV4(a, 0xc612_0000, V4_LEN_15)
  {
  }

  lemma ThirdOctetBlocks(a: V4)
    ensures IsIetfProtocol(a) <==> InV4(a, 0xc000_0000, V4_LEN_24)
    ensures IsDocumentation(a) <==>
            InV4(a, 0xc000_0200, V4_LEN_24) || InV4(a, 0xc633_6400, V4_LEN_24) || InV4(a, 0xcb00_7100, V4_LEN_24)
  {
  }

  /** The octet tests are membership in the block union, for every IPv4 address. */
  lemma ForbiddenV4IffBlocks(a: V4)
    ensures IsForbiddenV4(a) <==> InForbiddenV4Blocks(a)
  {
    FirstOctetBlocks(a);
    PrivateBlocks(a);
    SecondOctetBlocks(a);
    ThirdOctetBlocks(a);
  }

  lemma FirstSegmentBlocks(a: V6)
    ensures IsUla(a) <==> InV6(a, 0xfc00_0000_0000_0000_0000_0000_0000_0000, V6_LEN_7)
    ensures IsLinkLocalV6(a) <==> InV6(a, 0xfe80_0000_0000_0000_0000_0000_0000_0000, V6_LEN_10)
  {
  }

  lemma MulticastBlock(a: V6)
    ensures Segment0(a) & 0xff00 == 0xff00 <==> InV6(a, 0xff00_0000_0000_0000_0000_0000_0000_0000, V6_LEN_8)
  {
  }

  lemma SingleAddresses(a: V6)
    ensures a == 0 <==> InV6(a, 0, V6_LEN_128)
    ensures a == 1 <==> InV6(a, 1, V6_LEN_128)
  {
  }

  lemma ForbiddenV6IffBlocks(a: V6)
    ensures IsForbiddenV6(a) <==> InForbiddenV6Blocks(a)
  {
    FirstSegmentBlocks(a);
    MulticastBlock(a);
    SingleAddresses(a);
  }

  /** The prefix tests recognise exactly the two embeddings and undo them. */
  lemma MappedExactly(a: V6)
    ensures MappedV4(a).Some? <==> InV6(a, MAPPED_PREFIX, V6_LEN_96)
    ensures MappedV4(a).Some? ==> Mapped(MappedV4(a).value) == a
  {
  }

  lemma Nat64Exactly(a: V6)
    ensures Nat64EmbeddedV4(a).Some? <==> InV6(a, NAT64_PREFIX, V6_LEN_96)
    ensures Nat64EmbeddedV4(a).Some? ==> Nat64(Nat64EmbeddedV4(a).value) == a
  {
  }

  lemma EmbeddingsRecovered(v: V4)
    ensures MappedV4(Mapped(v)) == Some(v)
    ensures MappedV4(Nat64(v)) == None && Nat64EmbeddedV4(Nat64(v)) == Some(v)
  {
  }

  /** One verdict for an IPv4 address, its mapped form and its NAT64 form. */
  lemma VerdictSharedByEmbeddings(v: V4)
    ensures IsForbiddenIp(Ip6(Mapped(v))) == IsForbiddenIp(Ip4(v)) == IsForbiddenIp(Ip6(Nat64(v)))
  {
    EmbeddingsRecovered(v);
  }

  /** The whole predicate as block membership. */
  lemma ForbiddenIpIffBlocks(ip: IpAddr)
    ensures IsForbiddenIp(ip) <==>
            match ip
            case Ip4(a) => InForbiddenV4Blocks(a)
            case Ip6(a) =>
              if InV6(a, MAPPED_PREFIX, V6_LEN_96) || InV6(a, NAT64_PREFIX, V6_LEN_96) then
                InForbiddenV4Blocks(EmbeddedV4(a))
              else InForbiddenV6Blocks(a)
  {
    match ip
    case Ip4(a) => ForbiddenV4IffBlocks(a);
    case Ip6(a) =>
      MappedExactly(a);
      Nat64Exactly(a);
      ForbiddenV4IffBlocks(EmbeddedV4(a));
      ForbiddenV6IffBlocks(a);
  }

  // ---- the two users ------------------------------------------------------------------------------

  /** The pre-flight loop: the first forbidden address rejects the destination. */
  method CheckAddresses(resolved: seq<IpAddr>) returns (rejected: Option<IpAddr>)
    ensures rejected.None? <==> forall ip <- resolved :: !IsForbiddenIp(ip)
    ensures rejected.Some? ==>
              exists i :: 0 <= i < |resolved| && resolved[i] == rejected.value && IsForbiddenIp(resolved[i])
                          && forall j :: 0 <= j < i ==> !IsForbiddenIp(resolved[j])
  {
    for i := 0 to |resolved|
      invariant forall j :: 0 <= j < i ==> !IsForbiddenIp(resolved[j])
    {
      if IsForbiddenIp(resolved[i]) {
        return Some(resolved[i]);
      }
    }
    return None;
  }

  predicate Permitted(ip: IpAddr) {
    !IsForbiddenIp(ip)
  }

  /** The resolver's filter; `None` is the fail-closed error. */
  function Screen(resolved: seq<IpAddr>): (r: Option<seq<IpAddr>>) {
    var permitted := Filter(resolved, Permitted);
    if permitted == [] then None else Some(permitted)
  }

  /**
   The resolver hands out the answer read off at exactly the permitted positions, once each and in
   order, and fails when there are none; it hands out the whole answer precisely when the pre-flight
   check accepts that answer.
   */
  lemma ScreenAgreesWithPreflight(resolved: seq<IpAddr>)
    ensures Screen(resolved).Some? <==> exists ip <- resolved :: Permitted(ip)
    ensures Screen(resolved).Some? ==> exists picks :: PicksAll(resolved, Permitted, picks, Screen(resolved).value)
    ensures Screen(resolved) == Some(resolved) <==> resolved != [] && forall ip <- resolved :: Permitted(ip)
  {
    FilterNonempty(resolved, Permitted);
    FilterWhole(resolved, Permitted);
    var picks := FilterPositions(resolved, Permitted);
  }
}
