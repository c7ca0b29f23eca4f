/** The IPv4 header checksum: the one's-complement sum of RFC 1071, the
    from-scratch checksum of section 3.1 of RFC 791, and the incremental update
    `_decr_ttl` applies when it lowers the TTL (in the manner of RFC 1141; the
    end-around carry and the two representations of zero are what section 3 of
    RFC 1624 is about). */
module Checksum {
  import opened Bytes

  /** One's-complement arithmetic on 16-bit words is arithmetic modulo 0xFFFF. */
  const M: nat := 0xFFFF

  /** Adds two 16-bit words with end-around carry: a carry out of bit 15 is added back at bit 0. */
  function OnesAdd(a: nat, b: nat): (r: nat)
    requires a < 0x1_0000 && b < 0x1_0000
    ensures r < 0x1_0000
    ensures r % M == (a + b) % M
    ensures r == 0 <==> a == 0 && b == 0
  {
    if a + b >= 0x1_0000 then a + b - 0xFFFF else a + b
  }

  predicate IsWords(ws: seq<nat>)
  {
    forall k :: 0 <= k < |ws| ==> ws[k] < 0x1_0000
  }

  /** The one's-complement sum of a sequence of 16-bit words (RFC 1071). */
  function OnesSum(ws: seq<nat>): (r: nat)
    requires IsWords(ws)
    ensures r < 0x1_0000
  {
    if ws == [] then 0 else OnesAdd(ws[0], OnesSum(ws[1..]))
  }

  /** The ordinary sum of the words. */
  function Sum(ws: seq<nat>): nat
  {
    if ws == [] then 0 else ws[0] + Sum(ws[1..])
  }

  /** The header as a sequence of 16-bit words in network order. */
  function Words(h: seq<Byte>): (ws: seq<nat>)
    requires |h| % 2 == 0
    ensures |ws| == |h| / 2 && IsWords(ws)
    ensures forall k :: 0 <= k < |ws| ==> ws[k] == BE16(h, 2 * k)
  {
    seq(|h| / 2, k requires 0 <= k < |h| / 2 => BE16(h, 2 * k))
  }

  /** An IPv4 header (20 octets or more: options make it longer) whose checksum verifies. */
  predicate IsIpv4HeaderLength(n: nat)
  {
    20 <= n && n % 2 == 0
  }

  /** The receiver's test: the one's-complement sum of all header words, checksum included, is all ones. */
  predicate HeaderVerifies(h: seq<Byte>)
    requires IsIpv4HeaderLength(|h|)
  {
    OnesSum(Words(h)) == 0xFFFF
  }

  /** The checksum as RFC 791 defines it: the one's complement of the
      one's-complement sum of the header with the checksum field (word 5) zero. */
  function FromScratch(h: seq<Byte>): (c: nat)
    requires IsIpv4HeaderLength(|h|)
    ensures c < 0x1_0000
  {
    0xFFFF - OnesSum(Words(h)[5 := 0])
  }

  /** What `_decr_ttl` stores for the raw (host-order) checksum load `raw`:
      `c = raw + htons(0x0100)`, then `(__u16)(c + (c >= 0xffff))`. The
      result is never 0xFFFF, and it is congruent to `c` modulo 0xFFFF. */
  function IncrementalCheck(host: Endian, raw: nat): (r: nat)
    requires raw < 0x1_0000
    ensures r < 0xFFFF
    ensures r % M == (raw + NetOrder16(host, 0x0100)) % M
  {
    var c := raw + NetOrder16(host, 0x0100);
    (c + (if c >= 0xFFFF then 1 else 0)) % 0x1_0000
  }

  /** The fold `(__u16)(c + (c >= 0xffff))` is the end-around-carry addition
      of RFC 1071, except that it writes an all-ones result as zero. */
  lemma IncrementalCheckIsOnesAdd(host: Endian, raw: nat)
    requires raw < 0x1_0000
    ensures var t := OnesAdd(raw, NetOrder16(host, 0x0100));
      IncrementalCheck(host, raw) == if t == 0xFFFF then 0 else t
  {
  }

  /** The two differ: on a big-endian host the raw checksum 0xFEFF plus 0x0100
      is all ones, which `OnesAdd` keeps and the fold writes as zero. */
  lemma IncrementalCheckFoldsAllOnes()
    ensures OnesAdd(0xFEFF, 0x0100) == 0xFFFF && IncrementalCheck(Big, 0xFEFF) == 0
  {
  }

  /** The octets after the IPv4 branch of `_decr_ttl` on a header at `off`:
      the checksum (octets 10-11) updated, then the TTL (octet 8) lowered by
      one in 8-bit arithmetic. */
  function Ipv4TtlDecremented(s: seq<Byte>, off: nat, host: Endian): (r: seq<Byte>)
    requires off + 20 <= |s|
    ensures |r| == |s|
  {
    var check := Store16(host, IncrementalCheck(host, Load16(s, off + 10, host)));
    s[off + 10 := check[0]][off + 11 := check[1]][off + 8 := (s[off + 8] as int + 255) % 256]
  }

  // ---------------------------------------------------------------------
  // Arithmetic modulo 0xFFFF

  lemma ModOfMultiple(x: int, q: int, y: int)
    requires x == q * M + y
    ensures x % M == y % M
  {
  }

  /** Swapping the octets of a word is multiplying it by 256 modulo 0xFFFF,
      because 0x10000 is 1 modulo 0xFFFF. */
  lemma SwapIsTimes256(v: nat)
    requires v < 0x1_0000
    ensures Swap16(v) % M == (256 * v) % M
  {
    var h, l := v / 256, v % 256;
    assert v == 256 * h + l;
    ModOfMultiple(256 * v, h, Swap16(v));
  }

  lemma SwapIsNotAllOnes(v: nat)
    requires v < 0xFFFF
    ensures Swap16(v) < 0xFFFF
  {
  }

  lemma MulCongruent(a: nat, b: nat)
    requires a % M == b % M
    ensures (256 * a) % M == (256 * b) % M
  {
    ModOfMultiple(256 * a, 256 * (a / M), 256 * (a % M));
    ModOfMultiple(256 * b, 256 * (b / M), 256 * (b % M));
  }

  lemma CongruentDifference(a: int, b: int)
    requires a % M == b % M
    ensures a - b == M * ((a - b) / M)
  {
    ModOfMultiple(a - b, a / M - b / M, 0);
  }

  lemma AddCongruent(a: int, b: int, c: int)
    requires a % M == b % M
    ensures (a + c) % M == (b + c) % M
  {
  }

  // ---------------------------------------------------------------------
  // The incremental update, on the wire

  /** Whatever the host's byte order, the two octets `_decr_ttl` writes, read
      in network order, are the old checksum plus 0x0100 in one's-complement
      arithmetic, with the all-ones result written as zero: the value is
      never 0xFFFF. */
  lemma IncrementalCheckOnWire(s: seq<Byte>, i: nat, host: Endian)
    requires i + 2 <= |s|
    ensures var w := BE16(Store16(host, IncrementalCheck(host, Load16(s, i, host))), 0);
      w == (BE16(s, i) + 0x0100) % M && w != 0xFFFF
  {
    match host {
      case Big => BigEndianOnWire(s, i);
      case Little => LittleEndianOnWire(s, i);
    }
  }

  lemma BigEndianOnWire(s: seq<Byte>, i: nat)
    requires i + 2 <= |s|
    ensures var w := BE16(Store16(Big, IncrementalCheck(Big, Load16(s, i, Big))), 0);
      w == (BE16(s, i) + 0x0100) % M && w != 0xFFFF
  {
    var r := IncrementalCheck(Big, Load16(s, i, Big));
    StoredOnWire16(Big, r);
    BigEndianUpdate(BE16(s, i), r);
  }

  lemma LittleEndianOnWire(s: seq<Byte>, i: nat)
    requires i + 2 <= |s|
    ensures var w := BE16(Store16(Little, IncrementalCheck(Little, Load16(s, i, Little))), 0);
      w == (BE16(s, i) + 0x0100) % M && w != 0xFFFF
  {
    var raw := Load16(s, i, Little);
    var r := IncrementalCheck(Little, raw);
    StoredOnWire16(Little, r);
    SwapOfLoad(s, i);
    assert NetOrder16(Little, 0x0100) == 1;
    LittleEndianUpdate(BE16(s, i), raw, r);
  }

  /** On a big-endian host the raw checksum is the field's value `v`. */
  lemma BigEndianUpdate(v: nat, r: nat)
    requires r < M && r % M == (v + 0x0100) % M
    ensures r == (v + 0x0100) % M
  {
  }

  /** On a little-endian host the raw checksum `raw` is the swap of the field's
      value `v` and `bpf_htons(0x0100)` is 1: adding it to `raw` adds 0x0100 to `v`. */
  lemma LittleEndianUpdate(v: nat, raw: nat, r: nat)
    requires raw < 0x1_0000 && Swap16(raw) == v
    requires r < M && r % M == (raw + 1) % M
    ensures Swap16(r) == (v + 0x0100) % M
  {
    SwapIsTimes256(r);
    MulCongruent(r, raw + 1);
    assert 256 * (raw + 1) == 256 * raw + 256;
    SwapIsTimes256(raw);
    AddCongruent(256 * raw, v, 256);
    SwapIsNotAllOnes(r);
    ChainMod(Swap16(r), 256 * r, 256 * raw + 256, v + 0x0100);
  }

  lemma ChainMod(x: int, a: int, b: int, y: int)
    requires x % M == a % M && a % M == b % M && b % M == y % M && 0 <= x < M
    ensures x == y % M
  {
  }

  /** On a little-endian host the raw load of a field is its network-order value with the octets swapped, and back. */
  lemma SwapOfLoad(s: seq<Byte>, i: nat)
    requires i + 2 <= |s|
    ensures Load16(s, i, Little) == Swap16(BE16(s, i))
    ensures Swap16(Load16(s, i, Little)) == BE16(s, i)
  {
    OctetsOfWord(s[i], s[i + 1]);
    OctetsOfWord(s[i + 1], s[i]);
  }

  /** The octets `_decr_ttl` writes into the checksum field do not depend on the
      host's byte order. */
  lemma IncrementalCheckHostIndependent(s: seq<Byte>, i: nat)
    requires i + 2 <= |s|
    ensures Store16(Little, IncrementalCheck(Little, Load16(s, i, Little)))
         == Store16(Big, IncrementalCheck(Big, Load16(s, i, Big)))
  {
    IncrementalCheckOnWire(s, i, Little);
    IncrementalCheckOnWire(s, i, Big);
  }

  /** The IPv4 branch of `_decr_ttl` lowers the TTL by exactly one, puts the
      incrementally updated checksum in octets 10-11, and leaves every other
      octet alone. */
  lemma Ipv4TtlDecrementedBytes(s: seq<Byte>, off: nat, host: Endian)
    requires off + 20 <= |s| && s[off + 8] >= 1
    ensures var r := Ipv4TtlDecremented(s, off, host);
      && r[off + 8] == s[off + 8] - 1
      && BE16(r, off + 10) == (BE16(s, off + 10) + 0x0100) % M
      && BE16(r, off + 10) != 0xFFFF
      && forall j :: 0 <= j < |s| && j != off + 8 && j != off + 10 && j != off + 11 ==> r[j] == s[j]
  {
    var check := Store16(host, IncrementalCheck(host, Load16(s, off + 10, host)));
    CheckWritten(s, off, check, (s[off + 8] as int + 255) % 256);
    IncrementalCheckOnWire(s, off + 10, host);
  }

  /** The octets of a header after writing `check` at 10-11 and `ttl` at 8. */
  lemma CheckWritten(s: seq<Byte>, off: nat, check: seq<Byte>, ttl: Byte)
    requires off + 20 <= |s| && |check| == 2
    ensures var r := s[off + 10 := check[0]][off + 11 := check[1]][off + 8 := ttl];
      && |r| == |s| && r[off + 8] == ttl && BE16(r, off + 10) == BE16(check, 0)
      && forall j :: 0 <= j < |s| && j != off + 8 && j != off + 10 && j != off + 11 ==> r[j] == s[j]
  {
  }

  /** The IPv4 branch of `_decr_ttl` writes the same octets on either host. */
  lemma Ipv4TtlDecrementedHostIndependent(s: seq<Byte>, off: nat)
    requires off + 20 <= |s|
    ensures Ipv4TtlDecremented(s, off, Little) == Ipv4TtlDecremented(s, off, Big)
  {
    IncrementalCheckHostIndependent(s, off + 10);
  }

  // ---------------------------------------------------------------------
  // The one's-complement sum

  /** The one's-complement sum is the ordinary sum modulo 0xFFFF, and it is
      zero only when every word is zero (RFC 1071, section 2). */
  lemma {:induction false} OnesSumIsSumModM(ws: seq<nat>)
    requires IsWords(ws)
    ensures OnesSum(ws) % M == Sum(ws) % M
    ensures OnesSum(ws) == 0 <==> forall k :: 0 <= k < |ws| ==> ws[k] == 0
  {
    if ws != [] {
      var tail := ws[1..];
      OnesSumIsSumModM(tail);
      AddCongruent(OnesSum(tail), Sum(tail), ws[0]);
      assert OnesSum(ws) % M == (OnesSum(tail) + ws[0]) % M;
      if forall k :: 0 <= k < |ws| ==> ws[k] == 0 {
        assert forall k :: 0 <= k < |tail| ==> tail[k] == ws[k + 1];
      }
    }
  }

  /** Replacing one word changes the sum by the difference. */
  lemma {:induction false} SumUpdate(ws: seq<nat>, k: nat, v: nat)
    requires k < |ws|
    ensures Sum(ws[k := v]) == Sum(ws) - ws[k] + v
  {
    if k == 0 {
      assert ws[k := v][1..] == ws[1..];
    } else {
      SumUpdate(ws[1..], k - 1, v);
      assert ws[k := v][1..] == ws[1..][k - 1 := v];
    }
  }

  /** The header words after the IPv4 branch of `_decr_ttl`: the word holding
      the TTL (word 4) is 0x0100 lower, the checksum word (word 5) is 0x0100
      higher in one's-complement arithmetic, and every other word is as it was. */
  lemma DecrementedWords(s: seq<Byte>, off: nat, n: nat, host: Endian)
    requires off + n <= |s| && IsIpv4HeaderLength(n) && s[off + 8] >= 1
    ensures var w := Words(s[off..off + n]);
      Words(Ipv4TtlDecremented(s, off, host)[off..off + n])
        == w[4 := w[4] - 0x0100][5 := (w[5] + 0x0100) % M]
  {
    var r := Ipv4TtlDecremented(s, off, host);
    var w, w' := Words(s[off..off + n]), Words(r[off..off + n]);
    Ipv4TtlDecrementedBytes(s, off, host);
    forall k | 0 <= k < |w'|
      ensures w'[k] == w[4 := w[4] - 0x0100][5 := (w[5] + 0x0100) % M][k]
    {
      assert w'[k] == BE16(r, off + 2 * k) && w[k] == BE16(s, off + 2 * k);
      if k != 4 && k != 5 {
        assert r[off + 2 * k] == s[off + 2 * k] && r[off + 2 * k + 1] == s[off + 2 * k + 1];
      }
    }
  }

  /** A header whose checksum verified before `_decr_ttl` still verifies after it. */
  lemma ChecksumStillVerifies(s: seq<Byte>, off: nat, n: nat, host: Endian)
    requires off + n <= |s| && IsIpv4HeaderLength(n)
    requires s[off + 8] >= 2
    requires HeaderVerifies(s[off..off + n])
    ensures HeaderVerifies(Ipv4TtlDecremented(s, off, host)[off..off + n])
  {
    var w := Words(s[off..off + n]);
    DecrementedWords(s, off, n, host);
    assert w[4] == BE16(s, off + 8) >= 0x0200;
    UpdatedStillVerifies(w);
  }

  /** The word-level argument: moving 0x0100 from word 4 to word 5 in
      one's-complement arithmetic keeps a sum of all ones. */
  lemma UpdatedStillVerifies(w: seq<nat>)
    requires |w| >= 10 && IsWords(w) && w[4] >= 0x0200
    requires OnesSum(w) == 0xFFFF
    ensures OnesSum(w[4 := w[4] - 0x0100][5 := (w[5] + 0x0100) % M]) == 0xFFFF
  {
    var c' := (w[5] + 0x0100) % M;
    var w1 := w[4 := w[4] - 0x0100];
    var w' := w1[5 := c'];
    OnesSumIsSumModM(w);
    OnesSumIsSumModM(w');
    SumUpdate(w, 4, w[4] - 0x0100);
    SumUpdate(w1, 5, c');
    ModOfMultiple(Sum(w), (w[5] + 0x0100) / M, Sum(w'));
    assert w'[4] != 0;
  }

  /** When the old checksum was the from-scratch one, the incremental update
      gives exactly the from-scratch checksum of the new header: the update
      never yields 0xFFFF where recomputation would give 0 (RFC 1624, section 3). */
  lemma IncrementalMatchesFromScratch(s: seq<Byte>, off: nat, n: nat, host: Endian)
    requires off + n <= |s| && IsIpv4HeaderLength(n)
    requires s[off + 8] >= 2
    requires BE16(s, off + 10) == FromScratch(s[off..off + n])
    ensures var r := Ipv4TtlDecremented(s, off, host);
      BE16(r, off + 10) == FromScratch(r[off..off + n])
  {
    var r := Ipv4TtlDecremented(s, off, host);
    var w := Words(s[off..off + n]);
    DecrementedWords(s, off, n, host);
    assert w[4] >= 0x0200;
    UpdatedFromScratch(w);
    assert BE16(r, off + 10) == Words(r[off..off + n])[5];
  }

  /** The word-level argument: lowering word 4 by 0x0100 and adding 0x0100 to
      a from-scratch checksum word in one's-complement arithmetic leaves it the
      from-scratch checksum of the new words. */
  lemma UpdatedFromScratch(w: seq<nat>)
    requires |w| >= 10 && IsWords(w) && w[4] >= 0x0200
    requires w[5] == 0xFFFF - OnesSum(w[5 := 0])
    ensures var w' := w[4 := w[4] - 0x0100][5 := (w[5] + 0x0100) % M];
      w'[5] == 0xFFFF - OnesSum(w'[5 := 0])
  {
    var x := w[5 := 0];
    var x' := x[4 := x[4] - 0x0100];
    assert w[4 := w[4] - 0x0100][5 := (w[5] + 0x0100) % M][5 := 0] == x';
    OnesSumIsSumModM(x);
    OnesSumIsSumModM(x');
    SumUpdate(x, 4, x[4] - 0x0100);
    assert x[4] != 0 && x'[4] != 0;
    ComplementShift(OnesSum(x), OnesSum(x'), Sum(x));
  }

  /** If `ss` and `ss'` are nonzero one's-complement sums whose totals differ by
      0x0100, their complements differ by 0x0100 in one's-complement arithmetic. */
  lemma ComplementShift(ss: nat, ss': nat, sx: int)
    requires 0 < ss < 0x1_0000 && 0 < ss' < 0x1_0000
    requires ss % M == sx % M && ss' % M == (sx - 0x0100) % M
    ensures (0xFFFF - ss + 0x0100) % M == 0xFFFF - ss'
  {
    AddCongruent(ss, sx, -0x0100);
    assert (ss - 0x0100) % M == ss' % M;
    CongruentDifference(ss', ss - 0x0100);
    ModOfMultiple(0xFFFF - ss + 0x0100, (ss' - ss + 0x0100) / M, 0xFFFF - ss');
  }
}
