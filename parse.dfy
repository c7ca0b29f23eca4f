/** The read-only part of `xdp_router`: admission of the Ethernet header, the
    skip over at most one 802.1Q/802.1ad tag, the IPv4/IPv6 header checks and
    the building of the FIB query. It decides either an action at once or a
    lookup, and it reads no octet outside the frame. */
module Parse {
  import opened Bytes
  import opened FibLookup

  const ETH_HLEN: nat := 14    // sizeof(struct ethhdr)
  const VLAN_HLEN: nat := 4    // sizeof(struct vlan_hdr)
  const IPV4_HLEN: nat := 20   // sizeof(struct iphdr)
  const IPV6_HLEN: nat := 40   // sizeof(struct ipv6hdr)

  const ETH_P_IP: nat := 0x0800
  const ETH_P_IPV6: nat := 0x86DD
  const ETH_P_8021Q: nat := 0x8100
  const ETH_P_8021AD: nat := 0x88A8

  const AF_INET: nat := 2
  const AF_INET6: nat := 10

  /** The XDP verdict. `Redirect` stands for what `bpf_redirect(ifindex, 0)` returns. */
  datatype Action = Drop | Pass | Redirect(ifindex: nat)

  /** Where the link layer leaves the parse: a frame too short for its
      Ethernet header or for its tag, or the cursor `l3hdr` and the working
      `ether_proto`. */
  datatype Link = Truncated | Cursor(l3: nat, etherType: nat)

  /** The parse's verdict: an action taken before any lookup, or a lookup to
      issue for the header of protocol `proto` at offset `l3`. */
  datatype ParseOutcome =
    | Early(action: Action)
    | Lookup(proto: nat, l3: nat, query: FibQuery)

  predicate IsTag(etherType: nat)
  {
    etherType == ETH_P_8021Q || etherType == ETH_P_8021AD
  }

  /** The length the router checks for a network-layer header of `proto`. */
  function HeaderLen(proto: nat): nat
  {
    if proto == ETH_P_IP then IPV4_HLEN else if proto == ETH_P_IPV6 then IPV6_HLEN else 0
  }

  /** Where the TTL (IPv4) or hop limit (IPv6) sits in the network header. */
  function TtlOffset(proto: nat): nat
  {
    if proto == ETH_P_IP then 8 else 7
  }

  /** The link layer as `xdp_router` walks it: `bpf_ntohs(eth->h_proto)`, and
      for a tag the raw `vhdr->inner_ether_proto`, loaded without `bpf_ntohs`. */
  function LinkLayer(frame: seq<Byte>, host: Endian): (c: Link)
    ensures c.Truncated? <==> |frame| < ETH_HLEN || (IsTag(BE16(frame, 12)) && |frame| < ETH_HLEN + VLAN_HLEN)
    ensures c.Cursor? ==> c.l3 <= |frame| && (c.l3 == ETH_HLEN + VLAN_HLEN <==> IsTag(BE16(frame, 12)))
    ensures c.Cursor? && c.l3 == ETH_HLEN ==> c.etherType == BE16(frame, 12)
    ensures c.Cursor? && c.l3 != ETH_HLEN ==> c.l3 == ETH_HLEN + VLAN_HLEN && c.etherType == Load16(frame, 16, host)
  {
    if |frame| < ETH_HLEN then
      Truncated
    else
      NetOrderOfLoad16(frame, 12, host);
      var etherType := NetOrder16(host, Load16(frame, 12, host));
      if IsTag(etherType) then
        if |frame| < ETH_HLEN + VLAN_HLEN then Truncated
        else Cursor(ETH_HLEN + VLAN_HLEN, Load16(frame, ETH_HLEN + 2, host))
      else
        Cursor(ETH_HLEN, etherType)
  }

  /** The whole parse of `xdp_router`, up to the lookup. A header is looked
      up exactly when the link layer leaves a cursor at an IPv4 or IPv6 header
      that fits in the frame with a TTL or hop limit of two or more, and the
      frame is dropped exactly when the link layer or that header is cut short. */
  function ParseFrame(frame: seq<Byte>, ingress: nat, host: Endian): (p: ParseOutcome)
    ensures p.Early? ==> !p.action.Redirect?
    ensures p.Lookup? ==> (p.l3 == ETH_HLEN || p.l3 == ETH_HLEN + VLAN_HLEN) && ValidLookup(frame, p, ingress)
    ensures var c := LinkLayer(frame, host);
      && (p.Lookup? <==> c.Cursor? && Admits(frame, c.l3, c.etherType))
      && (p.Lookup? ==> p.proto == c.etherType && p.l3 == c.l3)
      && (p == Early(Drop) <==> c.Truncated? || (c.Cursor? && HeaderCut(frame, c.l3, c.etherType)))
  {
    ParseFrom(frame, LinkLayer(frame, host), ingress, host)
  }

  /** The parse after the link layer has left it at `link`. */
  function ParseFrom(frame: seq<Byte>, link: Link, ingress: nat, host: Endian): (p: ParseOutcome)
    requires link.Cursor? ==> link.l3 <= |frame|
    ensures p.Early? ==> !p.action.Redirect?
    ensures p.Lookup? ==> link.Cursor? && p.l3 == link.l3 && p.proto == link.etherType && ValidLookup(frame, p, ingress)
    ensures p.Lookup? <==> link.Cursor? && Admits(frame, link.l3, link.etherType)
    ensures p == Early(Drop) <==> link.Truncated? || (link.Cursor? && HeaderCut(frame, link.l3, link.etherType))
  {
    match link
    case Truncated => Early(Drop)
    case Cursor(l3, etherType) => Network(frame[l3..], l3, etherType, ingress, host)
  }

  /** A lookup names IPv4 or IPv6, lies wholly inside the frame, is for a
      header whose TTL or hop limit is at least two, and is stamped with the
      ingress interface. */
  predicate ValidLookup(frame: seq<Byte>, p: ParseOutcome, ingress: nat)
    requires p.Lookup?
  {
    && (p.proto == ETH_P_IP || p.proto == ETH_P_IPV6)
    && p.l3 + HeaderLen(p.proto) <= |frame|
    && frame[p.l3 + TtlOffset(p.proto)] >= 2
    && p.query.ifindex == ingress
  }

  /** The header at `l3` is IPv4 or IPv6, fits in the frame, and has a TTL
      or hop limit of two or more: the case that reaches `goto forward`. */
  predicate Admits(frame: seq<Byte>, l3: nat, proto: nat)
  {
    || (proto == ETH_P_IP && l3 + IPV4_HLEN <= |frame| && frame[l3 + 8] >= 2)
    || (proto == ETH_P_IPV6 && l3 + IPV6_HLEN <= |frame| && frame[l3 + 7] >= 2)
  }

  /** The header at `l3` is IPv4 or IPv6 and runs past the end of the frame. */
  predicate HeaderCut(frame: seq<Byte>, l3: nat, proto: nat)
  {
    (proto == ETH_P_IP || proto == ETH_P_IPV6) && |frame| < l3 + HeaderLen(proto)
  }

  /** The network layer at the cursor: `h` is the frame from offset `l3` on.
      It looks up exactly the admitted headers, drops exactly the cut ones,
      and passes everything else. */
  function Network(h: seq<Byte>, l3: nat, etherType: nat, ingress: nat, host: Endian): (p: ParseOutcome)
    ensures p.Early? ==> !p.action.Redirect?
    ensures p.Lookup? ==> p.l3 == l3 && p.proto == etherType && ValidLookup(h, p.(l3 := 0), ingress)
    ensures p.Lookup? <==> Admits(h, 0, etherType)
    ensures p == Early(Drop) <==> HeaderCut(h, 0, etherType)
  {
    if etherType == ETH_P_IP then
      if |h| < IPV4_HLEN then Early(Drop)
      else if h[8] <= 1 then Early(Pass)
      else Lookup(etherType, l3, Ipv4Query(h, host).(ifindex := ingress))
    else if etherType == ETH_P_IPV6 then
      if |h| < IPV6_HLEN then Early(Drop)
      else if h[7] <= 1 then Early(Pass)
      else Lookup(etherType, l3, Ipv6Query(h, host).(ifindex := ingress))
    else
      Early(Pass)
  }

  /** The query filled from an IPv4 header: `tos` (octet 1) into the zeroed
      tos/flowinfo union, the protocol (octet 9), `bpf_ntohs(tot_len)`
      (octets 2-3), and the addresses (octets 12-15 and 16-19) into the
      zeroed address unions. */
  function Ipv4Query(h: seq<Byte>, host: Endian): FibQuery
    requires |h| >= IPV4_HLEN
  {
    ZeroQuery.(
      family := AF_INET,
      tosFlowinfo := Overlay(ZeroQuery.tosFlowinfo, [h[1]]),
      l4Protocol := h[9],
      sport := 0,
      dport := 0,
      totLen := NetOrder16(host, Load16(h, 2, host)),
      src := Overlay(ZeroQuery.src, h[12..16]),
      dst := Overlay(ZeroQuery.dst, h[16..20]))
  }

  /** The query filled from an IPv6 header: the first word masked with
      `bpf_htonl(0x0FFFFFFF)`, the next header (octet 6),
      `bpf_ntohs(payload_len)` (octets 4-5), and the addresses (octets 8-23
      and 24-39). */
  function Ipv6Query(h: seq<Byte>, host: Endian): FibQuery
    requires |h| >= IPV6_HLEN
  {
    ZeroQuery.(
      family := AF_INET6,
      tosFlowinfo := Store32(host, And32(Load32(h, 0, host), NetOrder32(host, LOW_28_BITS))),
      l4Protocol := h[6],
      sport := 0,
      dport := 0,
      totLen := NetOrder16(host, Load16(h, 4, host)),
      src := h[8..24],
      dst := h[24..40])
  }

  /** Every field of an IPv4 query, in terms of the header's octets on the
      wire, whatever the host: octets the header does not supply stay zero. */
  lemma Ipv4QueryContents(h: seq<Byte>, host: Endian)
    requires |h| >= IPV4_HLEN
    ensures var q := Ipv4Query(h, host);
      && q.family == AF_INET
      && q.tosFlowinfo == [h[1], 0, 0, 0]
      && q.l4Protocol == h[9]
      && q.sport == 0 && q.dport == 0
      && q.totLen == BE16(h, 2)
      && q.src == h[12..16] + Zeros(12)
      && q.dst == h[16..20] + Zeros(12)
      && q.ifindex == 0
  {
    NetOrderOfLoad16(h, 2, host);
    assert Zeros(16)[4..] == Zeros(12);
    assert Zeros(4)[1..] == [0, 0, 0];
  }

  /** Every field of an IPv6 query, whatever the host: the flow information is
      the first header word with its four version bits cleared. */
  lemma Ipv6QueryContents(h: seq<Byte>, host: Endian)
    requires |h| >= IPV6_HLEN
    ensures var q := Ipv6Query(h, host);
      && q.family == AF_INET6
      && q.tosFlowinfo == [h[0] % 16, h[1], h[2], h[3]]
      && q.l4Protocol == h[6]
      && q.sport == 0 && q.dport == 0
      && q.totLen == BE16(h, 4)
      && q.src == h[8..24]
      && q.dst == h[24..40]
      && q.ifindex == 0
  {
    NetOrderOfLoad16(h, 4, host);
    MaskedWordImage(h, 0, host);
  }

  /** For a frame without a tag, the parse does not depend on the host's byte order. */
  lemma UntaggedParseHostIndependent(frame: seq<Byte>, ingress: nat)
    requires |frame| >= ETH_HLEN ==> !IsTag(BE16(frame, 12))
    ensures ParseFrame(frame, ingress, Little) == ParseFrame(frame, ingress, Big)
  {
    if |frame| >= ETH_HLEN {
      var h := frame[ETH_HLEN..];
      if BE16(frame, 12) == ETH_P_IP && |h| >= IPV4_HLEN {
        Ipv4QueryContents(h, Little);
        Ipv4QueryContents(h, Big);
      } else if BE16(frame, 12) == ETH_P_IPV6 && |h| >= IPV6_HLEN {
        Ipv6QueryContents(h, Little);
        Ipv6QueryContents(h, Big);
      }
    }
  }

  // ---------------------------------------------------------------------
  // The tag's inner ethertype

  /** On a little-endian host the raw load of the tag's inner ethertype turns
      IPv4 (0x0800 on the wire) into 0x0008 and IPv6 (0x86DD) into 0xDD86, so a
      tagged IPv4 or IPv6 frame is never looked up: it is passed to the stack. */
  lemma TaggedIpPassesOnLittleEndian(frame: seq<Byte>, ingress: nat)
    requires |frame| >= ETH_HLEN + VLAN_HLEN && IsTag(BE16(frame, 12))
    requires BE16(frame, 16) == ETH_P_IP || BE16(frame, 16) == ETH_P_IPV6
    ensures ParseFrame(frame, ingress, Little) == Early(Pass)
  {
    assert Load16(frame, 16, Little) == 0x0008 || Load16(frame, 16, Little) == 0xDD86;
  }

  /** A concrete frame: an 802.1Q-tagged IPv4 packet with TTL 64. On a
      big-endian host it is looked up; on a little-endian host it is passed. */
  lemma TaggedIpv4Example()
    ensures var frame := SampleTaggedIpv4Frame();
      ParseFrame(frame, 1, Big).Lookup? && ParseFrame(frame, 1, Little) == Early(Pass)
  {
    SampleIsTaggedIpv4();
    TaggedIpPassesOnLittleEndian(SampleTaggedIpv4Frame(), 1);
    TaggedIpv4LookedUpOnBigEndian(SampleTaggedIpv4Frame(), 1);
  }

  /** The sample's tag, inner ethertype and TTL. */
  lemma SampleIsTaggedIpv4()
    ensures var frame := SampleTaggedIpv4Frame();
      BE16(frame, 12) == ETH_P_8021Q && BE16(frame, 16) == ETH_P_IP && frame[ETH_HLEN + VLAN_HLEN + 8] == 64
  {
  }

  /** On a big-endian host the raw load is the network-order value, so a tagged
      IPv4 frame with room for its header and a TTL above one is looked up. */
  lemma TaggedIpv4LookedUpOnBigEndian(frame: seq<Byte>, ingress: nat)
    requires |frame| >= ETH_HLEN + VLAN_HLEN + IPV4_HLEN && IsTag(BE16(frame, 12)) && BE16(frame, 16) == ETH_P_IP
    requires frame[ETH_HLEN + VLAN_HLEN + 8] >= 2
    ensures ParseFrame(frame, ingress, Big).Lookup?
  {
    assert LinkLayer(frame, Big) == Cursor(ETH_HLEN + VLAN_HLEN, ETH_P_IP);
    assert frame[ETH_HLEN + VLAN_HLEN..][8] == frame[ETH_HLEN + VLAN_HLEN + 8];
  }

  function SampleTaggedIpv4Frame(): (frame: seq<Byte>)
    ensures |frame| == ETH_HLEN + VLAN_HLEN + IPV4_HLEN
  {
    [2, 0, 0, 0, 0, 1,  2, 0, 0, 0, 0, 2,  0x81, 0x00,  0x00, 0x0A,  0x08, 0x00,
     0x45, 0, 0, 20,  0, 0, 0, 0,  64, 17, 0, 0,  10, 0, 0, 1,  10, 0, 0, 2]
  }

  /** The link layer with the inner ethertype converted by `bpf_ntohs`, as the
      outer one is. */
  function LinkLayerCorrected(frame: seq<Byte>, host: Endian): (c: Link)
    ensures c.Truncated? <==> LinkLayer(frame, host).Truncated?
    ensures c.Cursor? ==> c.l3 == LinkLayer(frame, host).l3
    ensures c.Cursor? && c.l3 != ETH_HLEN ==> c.etherType == BE16(frame, 16)
    ensures c.Cursor? && c.l3 == ETH_HLEN ==> c.etherType == BE16(frame, 12)
  {
    var c := LinkLayer(frame, host);
    if c.Cursor? && c.l3 == ETH_HLEN + VLAN_HLEN then
      NetOrderOfLoad16(frame, 16, host);
      Cursor(c.l3, NetOrder16(host, c.etherType))
    else
      c
  }

  /** The parse with the corrected link layer: the same conditions as the
      parse as written, with the network-order inner ethertype. */
  function ParseCorrected(frame: seq<Byte>, ingress: nat, host: Endian): (p: ParseOutcome)
    ensures p.Early? ==> !p.action.Redirect?
    ensures p.Lookup? ==> (p.l3 == ETH_HLEN || p.l3 == ETH_HLEN + VLAN_HLEN) && ValidLookup(frame, p, ingress)
    ensures var c := LinkLayerCorrected(frame, host);
      && (p.Lookup? <==> c.Cursor? && Admits(frame, c.l3, c.etherType))
      && (p.Lookup? ==> p.proto == c.etherType && p.l3 == c.l3)
      && (p == Early(Drop) <==> c.Truncated? || (c.Cursor? && HeaderCut(frame, c.l3, c.etherType)))
  {
    ParseFrom(frame, LinkLayerCorrected(frame, host), ingress, host)
  }

  /** The frame with its four tag octets (offsets 12-15) cut out. */
  function Untagged(frame: seq<Byte>): (u: seq<Byte>)
    requires |frame| >= ETH_HLEN + VLAN_HLEN
    ensures |u| == |frame| - VLAN_HLEN
  {
    frame[..12] + frame[16..]
  }

  /** A lookup whose header lies `k` octets further on. */
  function Shifted(p: ParseOutcome, k: nat): ParseOutcome
  {
    if p.Lookup? then p.(l3 := p.l3 + k) else p
  }

  /** With the correction a single tag is transparent, on every host: a tagged
      frame parses as the same frame without its tag, with the network header
      four octets further on. */
  lemma CorrectedTagTransparent(frame: seq<Byte>, ingress: nat, host: Endian)
    requires |frame| >= ETH_HLEN + VLAN_HLEN && IsTag(BE16(frame, 12)) && !IsTag(BE16(frame, 16))
    ensures ParseCorrected(frame, ingress, host) == Shifted(ParseCorrected(Untagged(frame), ingress, host), VLAN_HLEN)
  {
    var u := Untagged(frame);
    assert BE16(u, 12) == BE16(frame, 16);
    assert u[ETH_HLEN..] == frame[ETH_HLEN + VLAN_HLEN..];
  }

  /** The corrected parse does not depend on the host's byte order, and on a
      big-endian host the code as written already behaves this way. */
  lemma CorrectedHostIndependent(frame: seq<Byte>, ingress: nat)
    ensures ParseCorrected(frame, ingress, Little) == ParseCorrected(frame, ingress, Big)
    ensures ParseFrame(frame, ingress, Big) == ParseCorrected(frame, ingress, Big)
  {
    var c := LinkLayerCorrected(frame, Big);
    if c.Cursor? {
      var h := frame[c.l3..];
      if c.etherType == ETH_P_IP && |h| >= IPV4_HLEN {
        Ipv4QueryContents(h, Little);
        Ipv4QueryContents(h, Big);
      } else if c.etherType == ETH_P_IPV6 && |h| >= IPV6_HLEN {
        Ipv6QueryContents(h, Little);
        Ipv6QueryContents(h, Big);
      }
    }
  }
}
