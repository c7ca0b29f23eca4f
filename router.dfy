/** `xdp_router` end to end: the parse, the lookup, the dispatch on its result
    code and, on success, the in-place rewrite of the frame (`_decr_ttl` and
    the two MAC copies) before the redirect. `Route` says what one invocation
    decides and what the frame holds afterwards; `XdpRouter` does it on an
    array and is proved to agree with `Route`. */
module Router {
  import opened Bytes
  import opened Checksum
  import opened FibLookup
  import opened Parse

  /** The external `bpf_fib_lookup`: a fixed function from query to reply. */
  type Fib = FibQuery -> FibReply

  /** What one invocation returns, and the frame's octets afterwards. */
  datatype Outcome = Outcome(action: Action, frame: seq<Byte>)

  /** The octets after `_decr_ttl(proto, l3hdr)`: for IPv4 the TTL and the
      checksum, for IPv6 the hop limit (octet 7), and for any other protocol nothing. */
  function TtlDecremented(s: seq<Byte>, proto: nat, l3: nat, host: Endian): (r: seq<Byte>)
    requires l3 + HeaderLen(proto) <= |s|
    ensures |r| == |s|
  {
    if proto == ETH_P_IP then Ipv4TtlDecremented(s, l3, host)
    else if proto == ETH_P_IPV6 then s[l3 + 7 := (s[l3 + 7] as int + 255) % 256]
    else s
  }

  /** The octets after the two `__builtin_memcpy` calls into `eth->h_dest` and `eth->h_source`. */
  function MacsRewritten(s: seq<Byte>, dmac: Mac, smac: Mac): (r: seq<Byte>)
    requires |s| >= ETH_HLEN
    ensures |r| == |s|
  {
    dmac + smac + s[12..]
  }

  /** The frame of a successful lookup, as it is redirected. */
  function Forwarded(s: seq<Byte>, proto: nat, l3: nat, host: Endian, reply: FibReply): (r: seq<Byte>)
    requires ETH_HLEN <= l3 && l3 + HeaderLen(proto) <= |s|
    ensures |r| == |s|
  {
    MacsRewritten(TtlDecremented(s, proto, l3, host), reply.dmac, reply.smac)
  }

  /** What the router decides for a parse outcome `p` of `frame`. */
  function Decide(frame: seq<Byte>, p: ParseOutcome, host: Endian, fib: Fib): (o: Outcome)
    requires p.Lookup? ==> ETH_HLEN <= p.l3 && p.l3 + HeaderLen(p.proto) <= |frame|
    ensures |o.frame| == |frame|
  {
    match p
    case Early(action) => Outcome(action, frame)
    case Lookup(proto, l3, query) =>
      var reply := fib(query);
      match Dispatch(reply.rc)
      case Forward => Outcome(Redirect(reply.ifindex), Forwarded(frame, proto, l3, host, reply))
      case Discard => Outcome(Drop, frame)
      case Defer => Outcome(Pass, frame)
  }

  /** One invocation of `xdp_router` on `frame`, arriving on interface `ingress`. */
  function Route(frame: seq<Byte>, ingress: nat, host: Endian, fib: Fib): (o: Outcome)
    ensures |o.frame| == |frame|
  {
    Decide(frame, ParseFrame(frame, ingress, host), host, fib)
  }

  /** The same, with the tag's inner ethertype converted by `bpf_ntohs`. */
  function RouteCorrected(frame: seq<Byte>, ingress: nat, host: Endian, fib: Fib): (o: Outcome)
    ensures |o.frame| == |frame|
  {
    Decide(frame, ParseCorrected(frame, ingress, host), host, fib)
  }

  // ---------------------------------------------------------------------
  // The program, on the frame buffer

  /** `_decr_ttl`: lowers the TTL or hop limit of the header at `l3` in place. */
  method DecrTtl(frame: array<Byte>, proto: nat, l3: nat, host: Endian)
    requires l3 + HeaderLen(proto) <= frame.Length
    modifies frame
    ensures frame[..] == TtlDecremented(old(frame[..]), proto, l3, host)
  {
    if proto == ETH_P_IP {
      var c := Load16(frame[..], l3 + 10, host);
      c := c + NetOrder16(host, 0x0100);
      var check := Store16(host, (c + (if c >= 0xFFFF then 1 else 0)) % 0x1_0000);
      frame[l3 + 10] := check[0];
      frame[l3 + 11] := check[1];
      frame[l3 + 8] := (frame[l3 + 8] as int + 255) % 256;
    } else if proto == ETH_P_IPV6 {
      frame[l3 + 7] := (frame[l3 + 7] as int + 255) % 256;
    }
  }

  /** The two MAC copies into the Ethernet header. */
  method RewriteMacs(frame: array<Byte>, dmac: Mac, smac: Mac)
    requires frame.Length >= ETH_HLEN
    modifies frame
    ensures frame[..] == MacsRewritten(old(frame[..]), dmac, smac)
  {
    forall i | 0 <= i < 6 {
      frame[i] := dmac[i];
    }
    forall i | 6 <= i < 12 {
      frame[i] := smac[i - 6];
    }
  }

  /** `xdp_router`: returns the verdict and leaves in `frame` what `Route` says. */
  method XdpRouter(frame: array<Byte>, ingress: nat, host: Endian, fib: Fib) returns (action: Action)
    modifies frame
    ensures Outcome(action, frame[..]) == Route(old(frame[..]), ingress, host, fib)
  {
    var p := ParseFrame(frame[..], ingress, host);
    if p.Early? {
      return p.action;
    }
    var reply := fib(p.query);
    match Dispatch(reply.rc) {
      case Forward =>
        DecrTtl(frame, p.proto, p.l3, host);
        RewriteMacs(frame, reply.dmac, reply.smac);
        action := Redirect(reply.ifindex);
      case Discard =>
        action := Drop;
      case Defer =>
        action := Pass;
    }
  }

  // ---------------------------------------------------------------------
  // Properties of one invocation

  /** A frame shorter than its Ethernet header is dropped, untouched. */
  lemma ShortFrameDrops(frame: seq<Byte>, ingress: nat, host: Endian, fib: Fib)
    requires |frame| < ETH_HLEN
    ensures Route(frame, ingress, host, fib) == Outcome(Drop, frame)
  {
  }

  /** A tagged frame without room for the whole tag is dropped, untouched. */
  lemma TruncatedTagDrops(frame: seq<Byte>, ingress: nat, host: Endian, fib: Fib)
    requires ETH_HLEN <= |frame| < ETH_HLEN + VLAN_HLEN && IsTag(BE16(frame, 12))
    ensures Route(frame, ingress, host, fib) == Outcome(Drop, frame)
  {
  }

  /** A network header that the frame cannot hold is dropped, untouched:
      fewer than 20 octets at the cursor for IPv4, fewer than 40 for IPv6. */
  lemma TruncatedNetworkHeaderDrops(frame: seq<Byte>, ingress: nat, host: Endian, fib: Fib)
    requires LinkLayer(frame, host).Cursor?
    requires var c := LinkLayer(frame, host);
      (c.etherType == ETH_P_IP || c.etherType == ETH_P_IPV6) && |frame| < c.l3 + HeaderLen(c.etherType)
    ensures Route(frame, ingress, host, fib) == Outcome(Drop, frame)
  {
  }

  /** An IPv4 TTL or IPv6 hop limit of at most one sends the frame to the
      stack untouched, without a lookup. */
  lemma ExpiringPasses(frame: seq<Byte>, ingress: nat, host: Endian, fib: Fib)
    requires LinkLayer(frame, host).Cursor?
    requires var c := LinkLayer(frame, host);
      || (c.etherType == ETH_P_IP && c.l3 + IPV4_HLEN <= |frame| && frame[c.l3 + 8] <= 1)
      || (c.etherType == ETH_P_IPV6 && c.l3 + IPV6_HLEN <= |frame| && frame[c.l3 + 7] <= 1)
    ensures ParseFrame(frame, ingress, host) == Early(Pass)
    ensures Route(frame, ingress, host, fib) == Outcome(Pass, frame)
  {
  }

  /** Any working ethertype other than IPv4 and IPv6 sends the frame to the
      stack untouched, without a lookup; so does a second tag, since only one
      is skipped. */
  lemma OtherProtocolPasses(frame: seq<Byte>, ingress: nat, host: Endian, fib: Fib)
    requires LinkLayer(frame, host).Cursor?
    requires var c := LinkLayer(frame, host); c.etherType != ETH_P_IP && c.etherType != ETH_P_IPV6
    ensures ParseFrame(frame, ingress, host) == Early(Pass)
    ensures Route(frame, ingress, host, fib) == Outcome(Pass, frame)
  {
  }

  /** A frame with two tags: the working ethertype is the raw load of octets
      16-17; when that is a tag value again, the frame goes to the stack untouched. */
  lemma SecondTagPasses(frame: seq<Byte>, ingress: nat, host: Endian, fib: Fib)
    requires |frame| >= ETH_HLEN + VLAN_HLEN && IsTag(BE16(frame, 12))
    requires IsTag(Load16(frame, 16, host))
    ensures Route(frame, ingress, host, fib) == Outcome(Pass, frame)
  {
    OtherProtocolPasses(frame, ingress, host, fib);
  }

  /** The query handed to the lookup, field by field, in terms of the header on the wire. */
  lemma QueryContents(frame: seq<Byte>, ingress: nat, host: Endian)
    requires ParseFrame(frame, ingress, host).Lookup?
    ensures var p := ParseFrame(frame, ingress, host);
      var h, q := frame[p.l3..], p.query;
      && q.ifindex == ingress
      && q.sport == 0 && q.dport == 0
      && (p.proto == ETH_P_IP ==>
            && q.family == AF_INET && q.tosFlowinfo == [h[1], 0, 0, 0] && q.l4Protocol == h[9]
            && q.totLen == BE16(h, 2) && q.src == h[12..16] + Zeros(12) && q.dst == h[16..20] + Zeros(12))
      && (p.proto == ETH_P_IPV6 ==>
            && q.family == AF_INET6 && q.tosFlowinfo == [h[0] % 16, h[1], h[2], h[3]] && q.l4Protocol == h[6]
            && q.totLen == BE16(h, 4) && q.src == h[8..24] && q.dst == h[24..40])
  {
    var p := ParseFrame(frame, ingress, host);
    var h := frame[p.l3..];
    if p.proto == ETH_P_IP {
      Ipv4QueryContents(h, host);
    } else {
      Ipv6QueryContents(h, host);
    }
  }

  /** The dispatch on the lookup's result code: SUCCESS redirects out of the
      egress interface the lookup resolved; BLACKHOLE, UNREACHABLE and
      PROHIBIT drop; every other code, named or not, passes. Only SUCCESS
      changes the frame. */
  lemma LookupDispatch(frame: seq<Byte>, ingress: nat, host: Endian, fib: Fib)
    requires ParseFrame(frame, ingress, host).Lookup?
    ensures var reply := fib(ParseFrame(frame, ingress, host).query);
      var o := Route(frame, ingress, host, fib);
      && (reply.rc == BPF_FIB_LKUP_RET_SUCCESS ==> o.action == Redirect(reply.ifindex))
      && ((|| reply.rc == BPF_FIB_LKUP_RET_BLACKHOLE
           || reply.rc == BPF_FIB_LKUP_RET_UNREACHABLE
           || reply.rc == BPF_FIB_LKUP_RET_PROHIBIT) ==> o.action == Drop)
      && (reply.rc < BPF_FIB_LKUP_RET_SUCCESS || BPF_FIB_LKUP_RET_PROHIBIT < reply.rc ==> o.action == Pass)
      && (reply.rc != BPF_FIB_LKUP_RET_SUCCESS ==> o.frame == frame)
  {
  }

  /** A frame whose link layer leaves the cursor at an IPv4 or IPv6 header
      that fits in the frame with a TTL or hop limit of two or more is looked
      up, for that header, and a SUCCESS reply redirects it. */
  lemma LookupWhenValid(frame: seq<Byte>, ingress: nat, host: Endian, fib: Fib)
    requires LinkLayer(frame, host).Cursor?
    requires var c := LinkLayer(frame, host);
      || (c.etherType == ETH_P_IP && c.l3 + IPV4_HLEN <= |frame| && frame[c.l3 + 8] >= 2)
      || (c.etherType == ETH_P_IPV6 && c.l3 + IPV6_HLEN <= |frame| && frame[c.l3 + 7] >= 2)
    ensures var c, p := LinkLayer(frame, host), ParseFrame(frame, ingress, host);
      p.Lookup? && p.proto == c.etherType && p.l3 == c.l3
    ensures var reply := fib(ParseFrame(frame, ingress, host).query);
      reply.rc == BPF_FIB_LKUP_RET_SUCCESS ==> Route(frame, ingress, host, fib).action == Redirect(reply.ifindex)
  {
  }

  /** A concrete untagged IPv4 frame with TTL 64, and a lookup that answers
      SUCCESS with egress interface 3: on either host the frame is redirected
      to interface 3 with the next hop's MACs and TTL 63. */
  lemma UntaggedIpv4Forwarded(host: Endian)
    ensures var frame, fib := SampleIpv4Frame(), SuccessTo3;
      var o := Route(frame, 1, host, fib);
      o.action == Redirect(3) && o.frame[..12] == SampleMacs() && o.frame[ETH_HLEN + 8] == 63
  {
    var frame := SampleIpv4Frame();
    assert BE16(frame, 12) == ETH_P_IP && frame[ETH_HLEN + 8] == 64;
    assert LinkLayer(frame, host) == Cursor(ETH_HLEN, ETH_P_IP);
    ForwardedToInterface3(frame, host);
  }

  lemma ForwardedToInterface3(frame: seq<Byte>, host: Endian)
    requires LinkLayer(frame, host) == Cursor(ETH_HLEN, ETH_P_IP)
    requires ETH_HLEN + IPV4_HLEN <= |frame| && frame[ETH_HLEN + 8] >= 2
    ensures var o := Route(frame, 1, host, SuccessTo3);
      o.action == Redirect(3) && o.frame[..12] == SampleMacs() && o.frame[ETH_HLEN + 8] == frame[ETH_HLEN + 8] - 1
  {
    LookupWhenValid(frame, 1, host, SuccessTo3);
    ForwardedFrame(frame, 1, host, SuccessTo3);
    var r := Route(frame, 1, host, SuccessTo3).frame;
    assert r[..12] == r[..6] + r[6..12];
  }

  /** An untagged IPv4 packet (UDP, 10.0.0.1 to 10.0.0.2) with TTL 64. */
  function SampleIpv4Frame(): (frame: seq<Byte>)
    ensures |frame| == ETH_HLEN + IPV4_HLEN
  {
    [2, 0, 0, 0, 0, 1,  2, 0, 0, 0, 0, 2,  0x08, 0x00,
     0x45, 0, 0, 20,  0, 0, 0, 0,  64, 17, 0, 0,  10, 0, 0, 1,  10, 0, 0, 2]
  }

  /** The next hop's MAC followed by the egress interface's MAC. */
  function SampleMacs(): (m: seq<Byte>)
    ensures |m| == 12
  {
    [2, 0, 0, 0, 0, 9,  2, 0, 0, 0, 0, 3]
  }

  /** A lookup that resolves every query to interface 3. */
  function SuccessTo3(q: FibQuery): FibReply
  {
    FibReply(BPF_FIB_LKUP_RET_SUCCESS, 3, SampleMacs()[..6], SampleMacs()[6..])
  }

  /** Whatever happens, the frame keeps its length, and it changes only when the frame is redirected. */
  lemma OnlyRedirectMutates(frame: seq<Byte>, ingress: nat, host: Endian, fib: Fib)
    ensures var o := Route(frame, ingress, host, fib);
      |o.frame| == |frame| && (!o.action.Redirect? ==> o.frame == frame)
  {
  }

  /** On success exactly these octets change: 0-5 become the next hop's MAC,
      6-11 the egress MAC, the TTL or hop limit drops by one, and for IPv4 the
      checksum (octets 10-11 of the header) becomes the old one plus 0x0100
      in one's-complement arithmetic. Every other octet, a skipped tag
      included, is left as it was. */
  lemma ForwardedFrame(frame: seq<Byte>, ingress: nat, host: Endian, fib: Fib)
    requires ParseFrame(frame, ingress, host).Lookup?
    requires fib(ParseFrame(frame, ingress, host).query).rc == BPF_FIB_LKUP_RET_SUCCESS
    ensures var p, reply := ParseFrame(frame, ingress, host), fib(ParseFrame(frame, ingress, host).query);
      ForwardedOctets(frame, p.proto, p.l3, Route(frame, ingress, host, fib).frame, reply.dmac, reply.smac)
  {
    var p := ParseFrame(frame, ingress, host);
    var reply := fib(p.query);
    ForwardedChanges(frame, p.proto, p.l3, host, reply);
  }

  /** The octets of `r` are those of `s` forwarded with the MACs `dmac` and
      `smac`, for the header of `proto` at `l3`. */
  predicate ForwardedOctets(s: seq<Byte>, proto: nat, l3: nat, r: seq<Byte>, dmac: Mac, smac: Mac)
    requires ETH_HLEN <= l3 && l3 + HeaderLen(proto) <= |s| && (proto == ETH_P_IP || proto == ETH_P_IPV6)
  {
    var ttl := l3 + TtlOffset(proto);
    && |r| == |s|
    && r[..6] == dmac && r[6..12] == smac
    && r[ttl] as int == s[ttl] as int - 1
    && (proto == ETH_P_IP ==> BE16(r, l3 + 10) == (BE16(s, l3 + 10) + 0x0100) % M && BE16(r, l3 + 10) != 0xFFFF)
    && forall j :: 12 <= j < |s| && j != ttl && !(proto == ETH_P_IP && l3 + 10 <= j <= l3 + 11) ==> r[j] == s[j]
  }

  lemma ForwardedChanges(s: seq<Byte>, proto: nat, l3: nat, host: Endian, reply: FibReply)
    requires ETH_HLEN <= l3 && l3 + HeaderLen(proto) <= |s| && (proto == ETH_P_IP || proto == ETH_P_IPV6)
    requires s[l3 + TtlOffset(proto)] >= 1
    ensures ForwardedOctets(s, proto, l3, Forwarded(s, proto, l3, host, reply), reply.dmac, reply.smac)
  {
    var t := TtlDecremented(s, proto, l3, host);
    if proto == ETH_P_IP {
      Ipv4TtlDecrementedBytes(s, l3, host);
    }
    MacsRewrittenKeeps(t, reply.dmac, reply.smac, l3, l3 + HeaderLen(proto));
  }

  /** The MAC copies leave every octet from 12 on as it was. */
  lemma MacsRewrittenKeeps(s: seq<Byte>, dmac: Mac, smac: Mac, a: nat, b: nat)
    requires ETH_HLEN <= a <= b <= |s|
    ensures var r := MacsRewritten(s, dmac, smac);
      r[..6] == dmac && r[6..12] == smac && r[a..b] == s[a..b]
      && forall j :: 12 <= j < |s| ==> r[j] == s[j]
  {
    var r := MacsRewritten(s, dmac, smac);
    assert forall j :: 12 <= j < |s| ==> r[j] == s[j];
    assert r[a..b] == s[a..b];
  }

  /** On success an IPv4 header whose checksum verified before still verifies
      as it is redirected, for any header length `n` (20 octets, or more with options). */
  lemma ForwardedChecksumVerifies(frame: seq<Byte>, ingress: nat, host: Endian, fib: Fib, n: nat)
    requires var p := ParseFrame(frame, ingress, host);
      && p.Lookup? && p.proto == ETH_P_IP && fib(p.query).rc == BPF_FIB_LKUP_RET_SUCCESS
      && IsIpv4HeaderLength(n) && p.l3 + n <= |frame| && HeaderVerifies(frame[p.l3..p.l3 + n])
    ensures var l3 := ParseFrame(frame, ingress, host).l3;
      HeaderVerifies(Route(frame, ingress, host, fib).frame[l3..l3 + n])
  {
    var p := ParseFrame(frame, ingress, host);
    SuccessForwards(frame, ingress, host, fib);
    ForwardedVerifies(frame, p.l3, n, host, fib(p.query));
  }

  /** On success, when the IPv4 checksum was the from-scratch one, the
      redirected header carries the from-scratch checksum of its new contents. */
  lemma ForwardedChecksumFromScratch(frame: seq<Byte>, ingress: nat, host: Endian, fib: Fib, n: nat)
    requires var p := ParseFrame(frame, ingress, host);
      && p.Lookup? && p.proto == ETH_P_IP && fib(p.query).rc == BPF_FIB_LKUP_RET_SUCCESS
      && IsIpv4HeaderLength(n) && p.l3 + n <= |frame| && BE16(frame, p.l3 + 10) == FromScratch(frame[p.l3..p.l3 + n])
    ensures var l3, r := ParseFrame(frame, ingress, host).l3, Route(frame, ingress, host, fib).frame;
      BE16(r, l3 + 10) == FromScratch(r[l3..l3 + n])
  {
    var p := ParseFrame(frame, ingress, host);
    SuccessForwards(frame, ingress, host, fib);
    ForwardedFromScratch(frame, p.l3, n, host, fib(p.query));
  }

  /** On success the frame is redirected to the egress interface the lookup
      resolved, as `Forwarded` specifies it. */
  lemma SuccessForwards(frame: seq<Byte>, ingress: nat, host: Endian, fib: Fib)
    requires var p := ParseFrame(frame, ingress, host);
      p.Lookup? && fib(p.query).rc == BPF_FIB_LKUP_RET_SUCCESS
    ensures var p := ParseFrame(frame, ingress, host);
      var reply := fib(p.query);
      Route(frame, ingress, host, fib) == Outcome(Redirect(reply.ifindex), Forwarded(frame, p.proto, p.l3, host, reply))
  {
  }

  lemma ForwardedVerifies(s: seq<Byte>, l3: nat, n: nat, host: Endian, reply: FibReply)
    requires ETH_HLEN <= l3 && IsIpv4HeaderLength(n) && l3 + n <= |s| && s[l3 + 8] >= 2
    requires HeaderVerifies(s[l3..l3 + n])
    ensures HeaderVerifies(Forwarded(s, ETH_P_IP, l3, host, reply)[l3..l3 + n])
  {
    ChecksumStillVerifies(s, l3, n, host);
    ForwardedHeader(s, l3, n, host, reply);
  }

  lemma ForwardedFromScratch(s: seq<Byte>, l3: nat, n: nat, host: Endian, reply: FibReply)
    requires ETH_HLEN <= l3 && IsIpv4HeaderLength(n) && l3 + n <= |s| && s[l3 + 8] >= 2
    requires BE16(s, l3 + 10) == FromScratch(s[l3..l3 + n])
    ensures var r := Forwarded(s, ETH_P_IP, l3, host, reply);
      BE16(r, l3 + 10) == FromScratch(r[l3..l3 + n])
  {
    IncrementalMatchesFromScratch(s, l3, n, host);
    ForwardedHeader(s, l3, n, host, reply);
  }

  /** The IPv4 header of a forwarded frame is the header `_decr_ttl` left. */
  lemma ForwardedHeader(s: seq<Byte>, l3: nat, n: nat, host: Endian, reply: FibReply)
    requires ETH_HLEN <= l3 && IPV4_HLEN <= n && l3 + n <= |s|
    ensures var r, t := Forwarded(s, ETH_P_IP, l3, host, reply), Ipv4TtlDecremented(s, l3, host);
      r[l3..l3 + n] == t[l3..l3 + n] && BE16(r, l3 + 10) == BE16(t, l3 + 10)
  {
    MacsRewrittenKeeps(Ipv4TtlDecremented(s, l3, host), reply.dmac, reply.smac, l3, l3 + n);
  }

  /** For a frame without a tag, the verdict and the resulting frame do not
      depend on the host's byte order. */
  lemma UntaggedRouteHostIndependent(frame: seq<Byte>, ingress: nat, fib: Fib)
    requires |frame| >= ETH_HLEN ==> !IsTag(BE16(frame, 12))
    ensures Route(frame, ingress, Little, fib) == Route(frame, ingress, Big, fib)
  {
    UntaggedParseHostIndependent(frame, ingress);
    var p := ParseFrame(frame, ingress, Big);
    if p.Lookup? && p.proto == ETH_P_IP {
      Ipv4TtlDecrementedHostIndependent(frame, p.l3);
    }
  }

  /** With the correction, a tagged frame is decided as the same frame without
      its tag, on every host: the same action, the same octets outside the tag,
      and the tag itself left in place. */
  lemma CorrectedRouteTagTransparent(frame: seq<Byte>, ingress: nat, host: Endian, fib: Fib)
    requires |frame| >= ETH_HLEN + VLAN_HLEN && IsTag(BE16(frame, 12)) && !IsTag(BE16(frame, 16))
    ensures var o, u := RouteCorrected(frame, ingress, host, fib), RouteCorrected(Untagged(frame), ingress, host, fib);
      o.action == u.action && Untagged(o.frame) == u.frame && o.frame[12..16] == frame[12..16]
  {
    CorrectedTagTransparent(frame, ingress, host);
    DecideUntagged(frame, ParseCorrected(Untagged(frame), ingress, host), host, fib);
  }

  /** Deciding a tagged frame on a parse four octets further on is deciding the
      untagged frame, with the tag left in place. */
  lemma DecideUntagged(frame: seq<Byte>, q: ParseOutcome, host: Endian, fib: Fib)
    requires |frame| >= ETH_HLEN + VLAN_HLEN
    requires q.Lookup? ==> ETH_HLEN <= q.l3 && q.l3 + HeaderLen(q.proto) + VLAN_HLEN <= |frame|
    ensures var o, u := Decide(frame, Shifted(q, VLAN_HLEN), host, fib), Decide(Untagged(frame), q, host, fib);
      o.action == u.action && Untagged(o.frame) == u.frame && o.frame[12..16] == frame[12..16]
  {
    if q.Lookup? && Dispatch(fib(q.query).rc) == Forward {
      var reply := fib(q.query);
      var r := Forwarded(frame, q.proto, q.l3 + VLAN_HLEN, host, reply);
      assert Decide(frame, Shifted(q, VLAN_HLEN), host, fib) == Outcome(Redirect(reply.ifindex), r);
      assert Decide(Untagged(frame), q, host, fib)
          == Outcome(Redirect(reply.ifindex), Forwarded(Untagged(frame), q.proto, q.l3, host, reply));
      UntaggedForwarded(frame, q.proto, q.l3 + VLAN_HLEN, host, reply);
    }
  }

  /** Cutting the tag out commutes with the whole rewrite of a forwarded frame. */
  lemma UntaggedForwarded(s: seq<Byte>, proto: nat, l3: nat, host: Endian, reply: FibReply)
    requires ETH_HLEN + VLAN_HLEN <= l3 && l3 + HeaderLen(proto) <= |s|
    ensures var r := Forwarded(s, proto, l3, host, reply);
      Untagged(r) == Forwarded(Untagged(s), proto, l3 - VLAN_HLEN, host, reply) && r[12..16] == s[12..16]
  {
    UntaggedTtlDecremented(s, proto, l3, host);
    UntaggedMacsRewritten(TtlDecremented(s, proto, l3, host), reply.dmac, reply.smac);
  }

  /** Cutting the tag out commutes with `_decr_ttl` on the header behind it. */
  lemma UntaggedTtlDecremented(s: seq<Byte>, proto: nat, l3: nat, host: Endian)
    requires ETH_HLEN + VLAN_HLEN <= l3 && l3 + HeaderLen(proto) <= |s|
    ensures var t := TtlDecremented(s, proto, l3, host);
      Untagged(t) == TtlDecremented(Untagged(s), proto, l3 - VLAN_HLEN, host) && t[12..16] == s[12..16]
  {
    if proto == ETH_P_IP {
      UntaggedIpv4TtlDecremented(s, l3, host);
    } else if proto == ETH_P_IPV6 {
      assert Untagged(s)[l3 + 3] == s[l3 + 7];
      UntaggedUpdate(s, l3 + 7, (s[l3 + 7] as int + 255) % 256);
    }
  }

  lemma UntaggedIpv4TtlDecremented(s: seq<Byte>, l3: nat, host: Endian)
    requires ETH_HLEN + VLAN_HLEN <= l3 && l3 + IPV4_HLEN <= |s|
    ensures var t := Ipv4TtlDecremented(s, l3, host);
      Untagged(t) == Ipv4TtlDecremented(Untagged(s), l3 - VLAN_HLEN, host) && t[12..16] == s[12..16]
  {
    var u := Untagged(s);
    assert u[l3 + 6] == s[l3 + 10] && u[l3 + 7] == s[l3 + 11] && u[l3 + 4] == s[l3 + 8];
    var check := Store16(host, IncrementalCheck(host, Load16(s, l3 + 10, host)));
    assert check == Store16(host, IncrementalCheck(host, Load16(u, l3 + 6, host)));
    var s1 := s[l3 + 10 := check[0]];
    var s2 := s1[l3 + 11 := check[1]];
    UntaggedUpdate(s, l3 + 10, check[0]);
    UntaggedUpdate(s1, l3 + 11, check[1]);
    UntaggedUpdate(s2, l3 + 8, (s[l3 + 8] as int + 255) % 256);
  }

  lemma UntaggedUpdate(s: seq<Byte>, i: nat, v: Byte)
    requires ETH_HLEN + VLAN_HLEN <= i < |s|
    ensures Untagged(s[i := v]) == Untagged(s)[i - VLAN_HLEN := v] && s[i := v][12..16] == s[12..16]
  {
    assert Untagged(s[i := v]) == Untagged(s)[i - VLAN_HLEN := v];
  }

  /** Cutting the tag out commutes with the MAC copies. */
  lemma UntaggedMacsRewritten(s: seq<Byte>, dmac: Mac, smac: Mac)
    requires |s| >= ETH_HLEN + VLAN_HLEN
    ensures var r := MacsRewritten(s, dmac, smac);
      Untagged(r) == MacsRewritten(Untagged(s), dmac, smac) && r[12..16] == s[12..16]
  {
    var r := MacsRewritten(s, dmac, smac);
    assert Untagged(r) == MacsRewritten(Untagged(s), dmac, smac);
  }
}
