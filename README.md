# xdp-router: a Dafny model of `xdp_router`

This project models the forwarding routine of the XDP router (`router.c`). It
is run once per received frame:

- It bounds-checks the 14-octet Ethernet header.
- It skips at most one 802.1Q/802.1ad tag.
- It checks the IPv4 or IPv6 header and refuses a TTL or hop limit of one or less.
- It fills a `bpf_fib_lookup` query.
- It dispatches on the lookup's result code.
- On success it lowers the TTL (patching the IPv4 checksum incrementally),
  rewrites both MAC addresses in place, and redirects the frame to the
  egress interface.

Modules:

- `Bytes` holds octets, loads and stores, and byte order. The host's byte
  order is an explicit parameter (`Endian`). A raw load depends on it;
  `bpf_ntohs`/`bpf_htons`/`bpf_htonl` are `NetOrder16`/`NetOrder32`.
  A 32-bit value is kept as its four octets (`Word32`). The C `&` works on
  it octet by octet, through a bitwise and (`BitAnd`) defined one binary
  digit at a time.
- `Checksum` holds the Internet checksum as in RFC 1071 and the incremental
  update that `_decr_ttl` applies. The update is the RFC 1141 form: it adds
  0x0100 to the stored checksum. Its `c >= 0xffff` fold avoids the all-ones
  result that section 3 of RFC 1624 discusses.
- `FibLookup` holds the query, the reply and the nine result codes. The
  lookup itself is a function parameter `FibQuery -> FibReply`.
- `Parse` is the read-only part. It maps a frame to an early verdict or to a
  lookup.
- `Router` has two parts:
  - `Route`, the specification of one invocation: the verdict and the frame
    as it is afterwards.
  - The program on the frame buffer: `DecrTtl`, `RewriteMacs` and
    `XdpRouter` over an `array`. Each is proved to leave exactly what the
    specification says.

Pointers into the packet are modelled as offsets into the frame. A check
`l3hdr + sizeof(T) > data_end` becomes a length comparison.

The query's three unions are kept as the octets they occupy:

- `tos`/`flowinfo` is 4 octets.
- `ipv4_src`/`ipv6_src` and `ipv4_dst`/`ipv6_dst` are 16 octets each.

So an IPv4 query's addresses are the header's four octets followed by twelve
zero octets.

Two points about the tag, where the model follows what the code does:

- The comment at `router.c:50` says a tag is stripped. The code at
  `router.c:56` only advances the header cursor over it, so the tag stays in
  the redirected frame (`Router.CorrectedRouteTagTransparent`,
  `Router.ForwardedFrame`).
- By that comment, a tagged IPv4 frame is meant to be forwarded like an
  untagged one. On a little-endian host the code at `router.c:57` does not
  forward it (see Findings).

`Checksum.OnesAdd` and `Checksum.OnesSum` are the reference arithmetic of
RFC 1071, not code of the router. `Checksum.IncrementalCheckIsOnesAdd` relates
the fold at `router.c:24` to `OnesAdd`: the two agree, except that the fold
writes an all-ones result as zero.

## Model

| member | source | states |
|---|---|---|
| Bytes.NetOrderOfLoad16 | router.c:46 | `bpf_ntohs` of a raw load is the field's network-order value on every host |
| Bytes.LoadStore16 | router.c:22-24 | a raw 16-bit store and a raw 16-bit load are inverse on every host |
| Bytes.StoredOnWire16 | router.c:24 | the network-order value a raw store writes is the value itself on a big-endian host and its octet swap on a little-endian one |
| Bytes.MaskedWordImage | router.c:85 | masking the first IPv6 word with `bpf_htonl(0x0FFFFFFF)` writes the first octet's low nibble and the next three octets unchanged, on every host |
| Bytes.BitAndLowMask | router.c:85 | a mask of `k` low one-bits keeps exactly the `k` low bits of a value: `x & (2^k - 1) == x mod 2^k` |
| Checksum.IncrementalCheckIsOnesAdd | router.c:23-24 | the fold `(__u16)(c + (c >= 0xffff))` equals RFC 1071's end-around-carry addition of the raw checksum and `bpf_htons(0x0100)`, except that an all-ones sum is written as zero |
| Checksum.IncrementalCheckFoldsAllOnes | router.c:23-24 | on a big-endian host the raw checksum 0xFEFF gives an all-ones end-around-carry sum but is folded to zero |
| Checksum.OnesSumIsSumModM | router.c:22-24 | the one's-complement sum of a header's words is congruent to their plain sum modulo 0xFFFF, and is zero exactly when every word is zero |
| Checksum.IncrementalCheck | router.c:22-24 | the folded checksum is never 0xFFFF and is congruent to the old raw checksum plus `bpf_htons(0x0100)` modulo 0xFFFF |
| Checksum.IncrementalCheckOnWire | router.c:22-24 | on every host the checksum written to the wire is (old + 0x0100) mod 0xFFFF and is never 0xFFFF |
| Checksum.IncrementalCheckHostIndependent | router.c:22-24 | the two checksum octets written are the same on little- and big-endian hosts |
| Checksum.Ipv4TtlDecrementedBytes | router.c:20-25 | `Ipv4TtlDecremented`: the IPv4 branch of `_decr_ttl` lowers the TTL by one, sets the checksum octets to the updated value, and leaves every other octet unchanged |
| Checksum.Ipv4TtlDecrementedHostIndependent | router.c:20-25 | the IPv4 branch of `_decr_ttl` writes the same octets on either host |
| Checksum.DecrementedWords | router.c:20-25 | as 16-bit words, the header loses 0x0100 in the TTL/protocol word and gains 0x0100 (mod 0xFFFF) in the checksum word; no other word changes |
| Checksum.ChecksumStillVerifies | router.c:20-25 | with a TTL of two or more, as the parse guarantees, a header of any even length of 20 octets or more whose checksum verified before still verifies after the update |
| Checksum.IncrementalMatchesFromScratch | router.c:20-25 | with a TTL of two or more, as the parse guarantees, if the old checksum was the from-scratch one, the incremental one is the from-scratch checksum of the new header |
| FibLookup.Dispatch | router.c:103-121 | the result-code switch is total: SUCCESS forwards; BLACKHOLE, UNREACHABLE and PROHIBIT drop; every other code, named or not, passes |
| Parse.LinkLayer | router.c:37-58 | the frame is truncated exactly when it is shorter than the Ethernet header, or is tagged and shorter than header plus tag; a tag moves the cursor to 18 and the working ethertype is the raw load of octets 16-17; otherwise the cursor is 14 and the ethertype is the network-order field |
| Parse.ParseFrame | router.c:37-96 | an early verdict is never a redirect; a header is looked up exactly when the link layer leaves a cursor at an IPv4 or IPv6 header that fits in the frame with a TTL or hop limit of two or more, and the lookup is for that header at offset 14 or 18, stamped with the ingress interface; the frame is dropped exactly when the link layer or that header is cut short |
| Parse.Network | router.c:60-96 | at the cursor, an IPv4 or IPv6 header is looked up exactly when it fits and its TTL or hop limit is two or more, dropped exactly when it does not fit, and every other case passes; the lookup is stamped with the ingress interface |
| Parse.Ipv4QueryContents | router.c:66-73 | `Ipv4Query`: an IPv4 query has family AF_INET, tos then three zero octets, the protocol, ports 0, the value of `tot_len` (`bpf_ntohs` of the field, host order), and the addresses followed by twelve zero octets |
| Parse.Ipv6QueryContents | router.c:84-91 | `Ipv6Query`: an IPv6 query has family AF_INET6, the first word without its version bits, the next header, ports 0, the value of `payload_len` (`bpf_ntohs` of the field, host order), and both addresses |
| Parse.UntaggedParseHostIndependent | router.c:43-96 | for an untagged frame the parse, query included, is the same on either host |
| Parse.TaggedIpPassesOnLittleEndian | router.c:51-60 | on a little-endian host a tagged frame whose inner ethertype is IPv4 or IPv6 is passed to the stack without a lookup |
| Parse.TaggedIpv4Example | router.c:51-75 | a concrete 802.1Q-tagged IPv4 frame with TTL 64 is looked up on a big-endian host and passed on a little-endian one |
| Parse.TaggedIpv4LookedUpOnBigEndian | router.c:51-75 | on a big-endian host a tagged IPv4 frame with room for its header and a TTL above one is looked up |
| Parse.LinkLayerCorrected | router.c:51-58 | with `bpf_ntohs` on the inner ethertype, the link layer has the same truncation and cursor as written, and the network-order inner ethertype |
| Parse.ParseCorrected | router.c:37-96 | with the network-order inner ethertype, a header is looked up exactly when the corrected link layer leaves a cursor at an IPv4 or IPv6 header that fits with a TTL or hop limit of two or more, and dropped exactly when the link layer or that header is cut short |
| Parse.CorrectedTagTransparent | router.c:51-58 | with the correction, a single tag is transparent on every host: the tagged frame parses as the untagged one, with the header four octets further on |
| Parse.CorrectedHostIndependent | router.c:46-57 | the corrected parse is the same on either host, and on a big-endian host the code as written already equals it |
| Router.TtlDecremented | router.c:19-27 | `_decr_ttl` keeps the frame's length (contents: `Router.ForwardedFrame`) |
| Router.Route | router.c:30-122 | one invocation keeps the frame's length; its verdicts and contents are the lemmas below |
| Router.DecrTtl | router.c:19-27 | the in-place `_decr_ttl` leaves exactly the octets `TtlDecremented` specifies |
| Router.RewriteMacs | router.c:106-107 | the two in-place MAC copies leave exactly the octets `MacsRewritten` specifies |
| Router.XdpRouter | router.c:30-122 | the program returns the verdict `Route` decides and leaves the frame `Route` specifies |
| Router.ShortFrameDrops | router.c:38-40 | a frame shorter than 14 octets is dropped untouched |
| Router.TruncatedTagDrops | router.c:51-54 | a tagged frame shorter than 18 octets is dropped untouched |
| Router.TruncatedNetworkHeaderDrops | router.c:60-79 | an IPv4 header shorter than 20 octets (router.c:61), or an IPv6 header shorter than 40 (router.c:79), is dropped untouched |
| Router.ExpiringPasses | router.c:64-82 | a TTL (router.c:64) or hop limit (router.c:82) of at most one passes the frame untouched, without a lookup |
| Router.OtherProtocolPasses | router.c:96 | any working ethertype other than IPv4 and IPv6 passes the frame untouched, without a lookup |
| Router.SecondTagPasses | router.c:51-58 | only one tag is skipped: when the working ethertype is a tag again, the frame passes untouched |
| Router.QueryContents | router.c:66-99 | the query handed to the lookup, field by field, in terms of the header on the wire and the ingress interface |
| Router.LookupDispatch | router.c:101-121 | `Decide`: SUCCESS redirects to the resolved egress interface; BLACKHOLE, UNREACHABLE and PROHIBIT drop; all other codes pass; only SUCCESS changes the frame |
| Router.LookupWhenValid | router.c:60-108 | an IPv4 or IPv6 header at the cursor that fits in the frame with a TTL or hop limit of two or more is looked up for that header, and a SUCCESS reply redirects the frame to the interface it resolved |
| Router.UntaggedIpv4Forwarded | router.c:30-108 | a concrete untagged IPv4 frame with TTL 64, given a SUCCESS reply for interface 3, is redirected to interface 3 on either host, with the reply's MACs and TTL 63 |
| Router.OnlyRedirectMutates | router.c:30-122 | every verdict keeps the frame's length, and a verdict other than redirect leaves the frame unchanged |
| Router.ForwardedFrame | router.c:104-108 | on success octets 0-5 are the next hop's MAC and 6-11 the egress MAC; the TTL or hop limit drops by one; the IPv4 checksum becomes (old + 0x0100) mod 0xFFFF, never 0xFFFF; every other octet, tag included, is unchanged |
| Router.SuccessForwards | router.c:104-108 | on SUCCESS the verdict is a redirect to the egress interface the lookup resolved, with the frame rewritten as `Forwarded` specifies |
| Router.ForwardedChecksumVerifies | router.c:104-108 | on success an IPv4 header whose checksum verified still verifies as it is redirected |
| Router.ForwardedChecksumFromScratch | router.c:104-108 | on success an IPv4 header that carried its from-scratch checksum carries the from-scratch checksum of its new contents |
| Router.UntaggedRouteHostIndependent | router.c:30-122 | for an untagged frame the verdict and the resulting frame are the same on either host |
| Router.CorrectedRouteTagTransparent | router.c:51-58 | with the correction, a tagged frame gets the verdict of the untagged frame, the same octets outside the tag, and the tag in place |

## Left out

- The kernel side of `bpf_fib_lookup` (routing table, neighbour table) is a function parameter. Its MTU check and the lookup's output fields other than the egress interface and the two MACs are not modelled.
- `bpf_redirect` is modelled as the verdict `Redirect(ifindex)`. The transmission itself and the XDP action codes as integers are not modelled.
- The `xdp_md` context is reduced to the frame's octets and the ingress interface index.
- The license string and section annotations are not modelled.
- The declarations at `router.h:5-25` (`MAX_TRUNK_VLANS`, `MAX_IFACES`, `enum vlan_mode`, `struct if_vlan_info`) are not modelled: the routine never uses them. Only the layout of `struct vlan_hdr` (`router.h:27-30`) is modelled, as `VLAN_HLEN` and the inner ethertype at octets 16-17.
- Concurrency is not modelled: each invocation is one call on one frame.
- The IPv4 header length (IHL) and options are not read by the code. Its checks use the fixed 20 octets, and so does the model. `Checksum.ChecksumStillVerifies` holds for any even header length from 20 octets.
- The IPv4 header's own checksum is never checked by the code before forwarding. `Router.ForwardedChecksumVerifies` therefore assumes that it verified.
- Router.Route: its own contract states only the length. What it decides is stated by the Router lemmas listed above.
- Router.TtlDecremented: its own contract states only the length. Its contents are stated by `Router.ForwardedFrame` and `Checksum.Ipv4TtlDecrementedBytes`.
- The corrected decision is `Router.RouteCorrected`. `Router.XdpRouter` keeps the code as written, because it models the program.

## Findings

| source | as written | input that shows it | evidently intended | confidence | as-written member | corrected member |
|---|---|---|---|---|---|---|
| router.c:57 | the tag's inner ethertype is a raw 16-bit load, without `bpf_ntohs`, and is compared with host-order constants | an 802.1Q-tagged IPv4 frame (outer 0x8100, inner 0x0800, TTL 64) on a little-endian host: the inner ethertype loads as 0x0008, so the frame is passed to the stack and never forwarded (IPv6 loads as 0xDD86 likewise) | `ether_proto = bpf_ntohs(vhdr->inner_ether_proto)`, making a single tag transparent | high (not executed) | Parse.TaggedIpPassesOnLittleEndian | Parse.CorrectedTagTransparent |
