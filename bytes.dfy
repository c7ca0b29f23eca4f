/** Octets of a frame, and the loads and stores of 16- and 32-bit fields the
    router performs on them. The host's byte order is an explicit parameter:
    a raw load (`ip->check`, `vhdr->inner_ether_proto`) yields a value that
    depends on it, while `bpf_ntohs`/`bpf_htons` undo that dependence. */
module Bytes {

  /** One octet, as the unsigned value the C code sees in a `__u8`. */
  type Byte = b: int | 0 <= b < 256

  /** A link-layer address: ETH_ALEN = 6 octets. */
  type Mac = s: seq<Byte> | |s| == 6 witness [0, 0, 0, 0, 0, 0]

  /** The byte order of the host the program runs on. */
  datatype Endian = Little | Big

  /** `n` zero octets. */
  function Zeros(n: nat): (z: seq<Byte>)
    ensures |z| == n && forall i :: 0 <= i < n ==> z[i] == 0
  {
    seq(n, _ => 0)
  }

  /** Copying `bytes` to the start of a buffer that held `base`. */
  function Overlay(base: seq<Byte>, bytes: seq<Byte>): (r: seq<Byte>)
    requires |bytes| <= |base|
    ensures |r| == |base|
    ensures r[..|bytes|] == bytes && r[|bytes|..] == base[|bytes|..]
  {
    bytes + base[|bytes|..]
  }

  /** The value of the 16-bit field at `i`, read in network (big-endian) order. */
  function BE16(s: seq<Byte>, i: nat): (v: nat)
    requires i + 2 <= |s|
    ensures v < 0x1_0000
  {
    (s[i] as int) * 256 + s[i + 1]
  }

  /** A raw `__u16` load of the two octets at `i` on a host of order `host`. */
  function Load16(s: seq<Byte>, i: nat, host: Endian): (v: nat)
    requires i + 2 <= |s|
    ensures v < 0x1_0000
  {
    match host
    case Big => (s[i] as int) * 256 + s[i + 1]
    case Little => (s[i] as int) + (s[i + 1] as int) * 256
  }

  /** The two octets a raw `__u16` store of `v` writes on a host of order `host`. */
  function Store16(host: Endian, v: nat): (s: seq<Byte>)
    requires v < 0x1_0000
    ensures |s| == 2
  {
    match host
    case Big => [v / 256, v % 256]
    case Little => [v % 256, v / 256]
  }

  /** Exchanging the two octets of a 16-bit value. */
  function Swap16(v: nat): (r: nat)
    requires v < 0x1_0000
    ensures r < 0x1_0000
  {
    (v % 256) * 256 + v / 256
  }

  /** `bpf_ntohs` and `bpf_htons`: both swap the octets on a little-endian host
      and leave the value alone on a big-endian one. */
  function NetOrder16(host: Endian, v: nat): (r: nat)
    requires v < 0x1_0000
    ensures r < 0x1_0000
  {
    match host
    case Big => v
    case Little => Swap16(v)
  }

  /** A 32-bit value, by its four octets from the most significant down. A
      raw load or store only decides the order of the octets in memory, and
      `&` works octet by octet. */
  datatype Word32 = Word32(b3: Byte, b2: Byte, b1: Byte, b0: Byte)

  /** The constant 0x0FFFFFFF: every bit but the top four. */
  const LOW_28_BITS: Word32 := Word32(0x0F, 0xFF, 0xFF, 0xFF)

  /** A raw `__u32` load of the four octets at `i`. */
  function Load32(s: seq<Byte>, i: nat, host: Endian): (w: Word32)
    requires i + 4 <= |s|
  {
    match host
    case Big => Word32(s[i], s[i + 1], s[i + 2], s[i + 3])
    case Little => Word32(s[i + 3], s[i + 2], s[i + 1], s[i])
  }

  /** The four octets a raw `__u32` store of `w` writes. */
  function Store32(host: Endian, w: Word32): (s: seq<Byte>)
    ensures |s| == 4
  {
    match host
    case Big => [w.b3, w.b2, w.b1, w.b0]
    case Little => [w.b0, w.b1, w.b2, w.b3]
  }

  /** `bpf_htonl`: the octet reversal on a little-endian host, the identity on a big-endian one. */
  function NetOrder32(host: Endian, w: Word32): Word32
  {
    match host
    case Big => w
    case Little => Word32(w.b0, w.b1, w.b2, w.b3)
  }

  /** The C `&` of two 32-bit values. */
  function And32(a: Word32, b: Word32): Word32
  {
    Word32(BitAnd(a.b3, b.b3), BitAnd(a.b2, b.b2), BitAnd(a.b1, b.b1), BitAnd(a.b0, b.b0))
  }

  /** The bitwise and of two naturals, one binary digit at a time from the
      least significant. It is never larger than either operand. */
  function BitAnd(x: nat, y: nat): (r: nat)
    ensures r <= x && r <= y
    decreases x
  {
    if x == 0 || y == 0 then 0
    else 2 * BitAnd(x / 2, y / 2) + (if x % 2 == 1 && y % 2 == 1 then 1 else 0)
  }

  /** Two to the power `k`. */
  function Pow2(k: nat): (p: nat)
    ensures p >= 1
  {
    if k == 0 then 1 else 2 * Pow2(k - 1)
  }

  /** A mask of `k` low one-bits keeps `x`'s `k` low bits and clears the rest. */
  lemma {:induction false} BitAndLowMask(x: nat, k: nat)
    ensures BitAnd(x, Pow2(k) - 1) == x % Pow2(k)
  {
    if k == 0 {
    } else if x == 0 {
    } else {
      var p := Pow2(k - 1);
      assert (Pow2(k) - 1) / 2 == p - 1 && (Pow2(k) - 1) % 2 == 1;
      BitAndLowMask(x / 2, k - 1);
      ModDouble(x, p);
    }
  }

  lemma ModDouble(x: nat, p: nat)
    requires p >= 1
    ensures x % (2 * p) == 2 * ((x / 2) % p) + x % 2
  {
    var q := x / 2;
    ModUnique(x, 2 * p, q / p, 2 * (q % p) + x % 2);
  }

  /** The remainder of a division is the only one in range. */
  lemma ModUnique(x: int, d: int, q: int, r: int)
    requires d > 0 && x == d * q + r && 0 <= r < d
    ensures x % d == r
  {
    var q', r' := x / d, x % d;
    assert x == d * q' + r';
    assert d * (q - q') == r' - r by {
      assert d * (q - q') == d * q - d * q';
    }
    SmallMultiple(d, q - q');
  }

  lemma SmallMultiple(d: int, k: int)
    requires d > 0 && -d < d * k < d
    ensures k == 0
  {
  }

  /** An octet masked with 0xFF is itself; masked with 0x0F it is its value
      modulo 16. The masks are reached through `MaskAbove` and `LowMask`, whose
      power of two is a parameter: with the literal masks in the same proof,
      the solver keeps unfolding `BitAnd` on them. */
  lemma OctetMasks(x: Byte)
    ensures BitAnd(x, 0xFF) == x && BitAnd(x, 0x0F) == x % 16
  {
    Pow2Values();
    MaskAbove(x, 8, 256);
    LowMask(x, 4, 16);
  }

  /** A mask of `k` low ones leaves a value below `2^k` as it is. */
  lemma MaskAbove(x: nat, k: nat, p: nat)
    requires p == Pow2(k) && x < p
    ensures BitAnd(x, p - 1) == x
  {
    LowMask(x, k, p);
    ModUnique(x, p, 0, x);
  }

  /** `BitAndLowMask` with the power of two named. */
  lemma LowMask(x: nat, k: nat, p: nat)
    requires p == Pow2(k)
    ensures BitAnd(x, p - 1) == x % p
  {
    BitAndLowMask(x, k);
  }

  lemma Pow2Values()
    ensures Pow2(4) == 16 && Pow2(8) == 256
  {
  }

  /** `bpf_ntohs` of a raw load is the field's network-order value, whatever the host. */
  lemma NetOrderOfLoad16(s: seq<Byte>, i: nat, host: Endian)
    requires i + 2 <= |s|
    ensures NetOrder16(host, Load16(s, i, host)) == BE16(s, i)
  {
  }

  /** A raw store of a raw load puts back the same octets, and a raw load of a
      raw store gives back the stored value: the two are inverse on every host. */
  lemma LoadStore16(s: seq<Byte>, i: nat, v: nat, host: Endian)
    requires i + 2 <= |s| && v < 0x1_0000
    ensures Store16(host, Load16(s, i, host)) == s[i..i + 2]
    ensures Load16(Store16(host, v), 0, host) == v
  {
    match host {
      case Big => OctetsOfWord(s[i], s[i + 1]);
      case Little => OctetsOfWord(s[i + 1], s[i]);
    }
  }

  /** The network-order value of what a raw store of `v` writes: `v` itself on a
      big-endian host, its octet swap on a little-endian one. */
  lemma StoredOnWire16(host: Endian, v: nat)
    requires v < 0x1_0000
    ensures BE16(Store16(host, v), 0) == NetOrder16(host, v)
  {
  }

  /** Masking the first word of a header with `bpf_htonl(0x0FFFFFFF)` clears the
      top four bits of its first octet and keeps the other octets, on every host. */
  lemma MaskedWordImage(s: seq<Byte>, i: nat, host: Endian)
    requires i + 4 <= |s|
    ensures Store32(host, And32(Load32(s, i, host), NetOrder32(host, LOW_28_BITS)))
            == [s[i] % 16, s[i + 1], s[i + 2], s[i + 3]]
  {
    OctetMasks(s[i]);
    OctetMasks(s[i + 1]);
    OctetMasks(s[i + 2]);
    OctetMasks(s[i + 3]);
  }

  /** A 16-bit value splits into its high and low octets. */
  lemma OctetsOfWord(hi: Byte, lo: Byte)
    ensures (hi as int * 256 + lo) / 256 == hi && (hi as int * 256 + lo) % 256 == lo
  {
  }
}
