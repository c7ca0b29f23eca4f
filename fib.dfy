/** The router's side of the kernel's `bpf_fib_lookup` helper: the query it
    fills in, the reply it reads back, and the meaning it gives to each of the
    helper's result codes. The lookup itself (the kernel's FIB and neighbour
    tables) is a function parameter of the router. */
module FibLookup {
  import opened Bytes

  // The `BPF_FIB_LKUP_RET_*` result codes, in the order of the kernel's enumeration.
  const BPF_FIB_LKUP_RET_SUCCESS: int := 0
  const BPF_FIB_LKUP_RET_BLACKHOLE: int := 1
  const BPF_FIB_LKUP_RET_UNREACHABLE: int := 2
  const BPF_FIB_LKUP_RET_PROHIBIT: int := 3
  const BPF_FIB_LKUP_RET_NOT_FWDED: int := 4
  const BPF_FIB_LKUP_RET_FWD_DISABLED: int := 5
  const BPF_FIB_LKUP_RET_UNSUPP_LWT: int := 6
  const BPF_FIB_LKUP_RET_NO_NEIGH: int := 7
  const BPF_FIB_LKUP_RET_FRAG_NEEDED: int := 8

  /** The input fields of `struct bpf_fib_lookup`. The three unions the router
      writes through are kept as the octets they occupy: `tosFlowinfo` is the
      4-octet union of `tos` and `flowinfo`, and `src`/`dst` are the 16-octet
      unions of the IPv4 and IPv6 addresses. `totLen` is a host-order value. */
  datatype FibQuery = FibQuery(
    family: nat,
    l4Protocol: Byte,
    sport: nat,
    dport: nat,
    totLen: nat,
    ifindex: nat,
    tosFlowinfo: seq<Byte>,
    src: seq<Byte>,
    dst: seq<Byte>)

  /** `struct bpf_fib_lookup fib_params = {}`: every field and every union octet zero. */
  const ZeroQuery: FibQuery := FibQuery(0, 0, 0, 0, 0, 0, Zeros(4), Zeros(16), Zeros(16))

  /** What the lookup hands back: its return code and, for a successful one,
      the egress interface (written over `fib_params.ifindex`) and the MAC
      addresses of the next hop and of the egress interface. */
  datatype FibReply = FibReply(rc: int, ifindex: nat, dmac: Mac, smac: Mac)

  /** What the router does about a lookup's result. */
  datatype Disposition =
    | Forward  // rewrite the frame and redirect it
    | Discard  // XDP_DROP
    | Defer    // XDP_PASS: leave the frame to the kernel's stack

  /** The `switch` on the lookup's return code, with its fall-through to
      `return XDP_PASS` for any code it does not name. */
  function Dispatch(rc: int): (d: Disposition)
    ensures d == Forward <==> rc == BPF_FIB_LKUP_RET_SUCCESS
    ensures d == Discard <==>
      rc == BPF_FIB_LKUP_RET_BLACKHOLE || rc == BPF_FIB_LKUP_RET_UNREACHABLE || rc == BPF_FIB_LKUP_RET_PROHIBIT
    ensures d == Defer <==> !(BPF_FIB_LKUP_RET_SUCCESS <= rc <= BPF_FIB_LKUP_RET_PROHIBIT)
  {
    if rc == BPF_FIB_LKUP_RET_SUCCESS then
      Forward
    else if rc == BPF_FIB_LKUP_RET_BLACKHOLE || rc == BPF_FIB_LKUP_RET_UNREACHABLE
         || rc == BPF_FIB_LKUP_RET_PROHIBIT then
      Discard
    else if rc == BPF_FIB_LKUP_RET_NOT_FWDED || rc == BPF_FIB_LKUP_RET_FWD_DISABLED
         || rc == BPF_FIB_LKUP_RET_UNSUPP_LWT || rc == BPF_FIB_LKUP_RET_NO_NEIGH
         || rc == BPF_FIB_LKUP_RET_FRAG_NEEDED then
      Defer
    else
      Defer
  }
}
