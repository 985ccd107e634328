/**
 * The behaviour of Go's `net` package that the private-IP validator relies
 * on: `IP.To4`, `CIDRMask`, `ParseCIDR` (on an already split literal) and
 * `IPNet.Contains`.  An address is a byte sequence, as `net.IP` is: four
 * bytes for IPv4, sixteen for IPv6.
 *
 * The central fact proved here is that a parsed block contains an address
 * exactly when the first `prefix` bits of the (IPv4-normalised) address equal
 * the first `prefix` bits of the block's address (section 3.1 of RFC 4632).
 */
module IPNets {
  import opened Basics

  type IP = seq<bv8>

  const IPv4Len: nat := 4
  const IPv6Len: nat := 16

  predicate AllZero(s: seq<bv8>)
  {
    forall i :: 0 <= i < |s| ==> s[i] == 0
  }

  /** True for an IPv4-mapped IPv6 address (section 2.5.5.2 of RFC 4291). */
  predicate IsV4Mapped(ip: IP)
  {
    |ip| == IPv6Len && AllZero(ip[..10]) && ip[10] == 0xff && ip[11] == 0xff
  }

  /** `IP.To4`: a 4-byte address as it is, the embedded address of an
      IPv4-mapped address, and nothing for anything else. */
  function To4(ip: IP): (r: Option<IP>)
    ensures r.Some? <==> |ip| == IPv4Len || IsV4Mapped(ip)
    ensures r.Some? ==> |r.value| == IPv4Len && r.value == ip[|ip| - 4..]
  {
    if |ip| == IPv4Len then Some(ip)
    else if IsV4Mapped(ip) then Some(ip[12..])
    else None
  }

  /** The address `Contains` actually compares: `To4(ip)` when there is one. */
  function Normalise(ip: IP): (r: IP)
    ensures |ip| == IPv4Len || IsV4Mapped(ip) ==> r == ip[|ip| - IPv4Len..]
    ensures !(|ip| == IPv4Len || IsV4Mapped(ip)) ==> r == ip
  {
    match To4(ip)
    case Some(v4) => v4
    case None => ip
  }

  /** A network as `net.IPNet` holds it: a network number and a byte mask. */
  datatype IPNet = IPNet(ip: IP, mask: seq<bv8>)

  /** A CIDR literal after the text has been split into its address bytes and
      its decimal prefix length; the text itself is not modelled. */
  datatype Cidr = Cidr(addr: IP, prefix: nat)

  /** How many of the `ones` leading one-bits fall into byte `i` (0 to 8). */
  function OnesIn(ones: nat, i: nat): (k: nat)
    ensures k <= 8
    ensures ones >= 8 * i + 8 ==> k == 8
    ensures ones <= 8 * i ==> k == 0
    ensures 8 * i < ones < 8 * i + 8 ==> k == ones - 8 * i
  {
    if ones <= 8 * i then 0
    else if ones - 8 * i >= 8 then 8
    else ones - 8 * i
  }

  /** One byte of `CIDRMask`: `k` leading one-bits. */
  function MaskByte(k: nat): bv8
    requires k <= 8
  {
    if k == 8 then 0xff else !(0xff >> k)
  }

  /** `CIDRMask(ones, bits)`: `bits / 8` bytes whose first `ones` bits are set. */
  function CIDRMask(ones: nat, bits: nat): (m: seq<bv8>)
    requires (bits == 32 || bits == 128) && ones <= bits
    ensures |m| == bits / 8
    ensures forall i :: 0 <= i < |m| ==> m[i] == MaskByte(OnesIn(ones, i))
  {
    seq(bits / 8, i requires 0 <= i => MaskByte(OnesIn(ones, i)))
  }

  /** `IP.Mask` for an address and a mask of the same length. */
  function MaskIP(ip: IP, m: seq<bv8>): (r: IP)
    requires |ip| == |m|
    ensures |r| == |ip|
    ensures forall i :: 0 <= i < |r| ==> r[i] == ip[i] & m[i]
  {
    seq(|ip|, i requires 0 <= i < |ip| => ip[i] & m[i])
  }

  /** What `ParseCIDR` checks after splitting: an address of 4 or 16 bytes and
      a prefix no longer than the address. */
  predicate WellFormedCidr(c: Cidr)
  {
    (|c.addr| == IPv4Len || |c.addr| == IPv6Len) && c.prefix <= 8 * |c.addr|
  }

  /** `ParseCIDR`'s network: the address masked to the prefix, with the mask. */
  function ParseCIDR(c: Cidr): (r: Option<IPNet>)
    ensures r.Some? <==> WellFormedCidr(c)
    ensures r.Some? ==> |r.value.ip| == |r.value.mask| == |c.addr|
  {
    if !WellFormedCidr(c) then None
    else
      var m := CIDRMask(c.prefix, 8 * |c.addr|);
      Some(IPNet(MaskIP(c.addr, m), m))
  }

  /** `networkNumberAndMask`: the network number normalised with `To4` and a
      mask of the same length; empty sequences (Go's nil) when they do not fit. */
  function NetworkNumberAndMask(n: IPNet): (r: (IP, seq<bv8>))
    ensures |r.0| == |r.1|
  {
    var ip := Normalise(n.ip);
    if To4(n.ip).None? && |ip| != IPv6Len then ([], [])
    else if |n.mask| == IPv4Len then
      (if |ip| != IPv4Len then ([], []) else (ip, n.mask))
    else if |n.mask| == IPv6Len then
      (if |ip| == IPv4Len then (ip, n.mask[12..]) else (ip, n.mask))
    else ([], [])
  }

  /** The byte loop of `IPNet.Contains`: false at the first byte where the
      masked values differ. */
  function MaskedEqual(a: seq<bv8>, b: seq<bv8>, m: seq<bv8>): bool
    requires |a| == |b| == |m|
  {
    |a| == 0 || (a[0] & m[0] == b[0] & m[0] && MaskedEqual(a[1..], b[1..], m[1..]))
  }

  /** `IPNet.Contains`. */
  function Contains(n: IPNet, ip: IP): (r: bool)
    ensures r <==> var (nn, m) := NetworkNumberAndMask(n);
                   |Normalise(ip)| == |nn| &&
                   forall i :: 0 <= i < |nn| ==> AgreeUnder(nn[i], Normalise(ip)[i], m[i])
  {
    var (nn, m) := NetworkNumberAndMask(n);
    var x := Normalise(ip);
    if |x| != |nn| then false
    else
      MaskedEqualEveryByte(nn, x, m);
      MaskedEqual(nn, x, m)
  }

  // ----- Bits and prefixes -----

  /** Bit `j` of a byte, counting from the most significant (0) to the least (7). */
  function ByteBit(x: bv8, j: nat): bv8
    requires j < 8
  {
    (x >> (7 - j)) & 1
  }

  /** Bit `j` of an address, counting from the most significant bit of byte 0. */
  function Bit(s: seq<bv8>, j: nat): bv8
    requires j < 8 * |s|
  {
    ByteBit(s[j / 8], j % 8)
  }

  /** The first `n` bits of `a` and `b` agree. */
  predicate SamePrefix(a: seq<bv8>, b: seq<bv8>, n: nat)
    requires n <= 8 * |a| && n <= 8 * |b|
  {
    forall j :: 0 <= j < n ==> Bit(a, j) == Bit(b, j)
  }

  /** Bits `j` of two bytes agree. */
  predicate SameBit(x: bv8, y: bv8, j: nat)
    requires j < 8
  {
    ByteBit(x, j) == ByteBit(y, j)
  }

  /** Two bytes agree under a mask of `k` leading ones. */
  predicate MaskedSame(x: bv8, y: bv8, k: nat)
    requires k <= 8
  {
    AgreeUnder(x, y, MaskByte(k))
  }

  /** Two bytes agree under the mask byte `m`. */
  predicate AgreeUnder(x: bv8, y: bv8, m: bv8)
  {
    x & m == y & m
  }

  lemma MaskNone(x: bv8, y: bv8)
    ensures MaskedSame(x, y, 0)
  {
  }

  lemma MaskStep0(x: bv8, y: bv8)
    ensures MaskedSame(x, y, 1) <==> MaskedSame(x, y, 0) && SameBit(x, y, 0)
  {
  }

  lemma MaskStep1(x: bv8, y: bv8)
    ensures MaskedSame(x, y, 2) <==> MaskedSame(x, y, 1) && SameBit(x, y, 1)
  {
  }

  lemma MaskStep2(x: bv8, y: bv8)
    ensures MaskedSame(x, y, 3) <==> MaskedSame(x, y, 2) && SameBit(x, y, 2)
  {
  }

  lemma MaskStep3(x: bv8, y: bv8)
    ensures MaskedSame(x, y, 4) <==> MaskedSame(x, y, 3) && SameBit(x, y, 3)
  {
  }

  lemma MaskStep4(x: bv8, y: bv8)
    ensures MaskedSame(x, y, 5) <==> MaskedSame(x, y, 4) && SameBit(x, y, 4)
  {
  }

  lemma MaskStep5(x: bv8, y: bv8)
    ensures MaskedSame(x, y, 6) <==> MaskedSame(x, y, 5) && SameBit(x, y, 5)
  {
  }

  lemma MaskStep6(x: bv8, y: bv8)
    ensures MaskedSame(x, y, 7) <==> MaskedSame(x, y, 6) && SameBit(x, y, 6)
  {
  }

  lemma MaskStep7(x: bv8, y: bv8)
    ensures MaskedSame(x, y, 8) <==> MaskedSame(x, y, 7) && SameBit(x, y, 7)
  {
  }

  /** One more mask bit compares one more bit (one lemma per bit keeps
      each bit-vector question small). */
  lemma MaskStep(x: bv8, y: bv8, k: nat)
    requires k < 8
    ensures MaskedSame(x, y, k + 1) <==> MaskedSame(x, y, k) && SameBit(x, y, k)
  {
    if k == 0 {
      MaskStep0(x, y);
    } else if k == 1 {
      MaskStep1(x, y);
    } else if k == 2 {
      MaskStep2(x, y);
    } else if k == 3 {
      MaskStep3(x, y);
    } else if k == 4 {
      MaskStep4(x, y);
    } else if k == 5 {
      MaskStep5(x, y);
    } else if k == 6 {
      MaskStep6(x, y);
    } else if k == 7 {
      MaskStep7(x, y);
    }
  }

  /** Masking a byte with `k` leading ones compares exactly its first `k` bits. */
  lemma {:induction false} MaskByteCompares(x: bv8, y: bv8, k: nat)
    requires k <= 8
    ensures MaskedSame(x, y, k) <==> (forall j :: 0 <= j < k ==> SameBit(x, y, j))
  {
    if k == 0 {
      MaskNone(x, y);
    } else {
      MaskByteCompares(x, y, k - 1);
      MaskStep(x, y, k - 1);
      assert (forall j :: 0 <= j < k ==> SameBit(x, y, j)) <==>
             (forall j :: 0 <= j < k - 1 ==> SameBit(x, y, j)) && SameBit(x, y, k - 1);
    }
  }

  /** A prefix of `p` bits agrees exactly when every byte agrees under the
      corresponding byte of `CIDRMask(p, _)`. */
  lemma PrefixByBytes(x: seq<bv8>, a: seq<bv8>, p: nat)
    requires |x| == |a| && p <= 8 * |x|
    ensures SamePrefix(x, a, p) <==>
            (forall i :: 0 <= i < |x| ==> MaskedSame(x[i], a[i], OnesIn(p, i)))
  {
    if SamePrefix(x, a, p) {
      forall i | 0 <= i < |x| ensures MaskedSame(x[i], a[i], OnesIn(p, i)) {
        var k := OnesIn(p, i);
        forall jj | 0 <= jj < k ensures SameBit(x[i], a[i], jj) {
          var j := 8 * i + jj;
          assert j / 8 == i && j % 8 == jj;
          assert Bit(x, j) == Bit(a, j);
        }
        MaskByteCompares(x[i], a[i], k);
      }
    }
    if forall i :: 0 <= i < |x| ==> MaskedSame(x[i], a[i], OnesIn(p, i)) {
      forall j | 0 <= j < p ensures Bit(x, j) == Bit(a, j) {
        var i, jj := j / 8, j % 8;
        assert jj < OnesIn(p, i);
        MaskByteCompares(x[i], a[i], OnesIn(p, i));
        assert SameBit(x[i], a[i], jj);
      }
    }
  }

  /** The loop of `Contains` compares every byte under the mask. */
  lemma {:induction false} MaskedEqualEveryByte(a: seq<bv8>, b: seq<bv8>, m: seq<bv8>)
    requires |a| == |b| == |m|
    ensures MaskedEqual(a, b, m) <==> (forall i :: 0 <= i < |a| ==> AgreeUnder(a[i], b[i], m[i]))
  {
    if |a| > 0 {
      MaskedEqualEveryByte(a[1..], b[1..], m[1..]);
      assert forall i :: 1 <= i < |a| ==> a[i] == a[1..][i - 1] && b[i] == b[1..][i - 1] && m[i] == m[1..][i - 1];
    }
  }

  /** The network and mask `Contains` uses for a parsed block are the block's
      own, unless the literal is IPv4-mapped. */
  lemma BlockNetworkNumber(c: Cidr)
    requires WellFormedCidr(c) && !IsV4Mapped(c.addr)
    ensures NetworkNumberAndMask(ParseCIDR(c).value) == (ParseCIDR(c).value.ip, ParseCIDR(c).value.mask)
  {
    MaskedMappedOnlyIfMapped(c);
  }

  /** A masked network number agrees with an address under its mask exactly
      when the unmasked address does. */
  lemma MaskedNetworkBytes(a: seq<bv8>, m: seq<bv8>, nn: seq<bv8>, x: IP, p: nat)
    requires |a| == |m| == |nn| == |x|
    requires forall i :: 0 <= i < |a| ==> nn[i] == a[i] & m[i] && m[i] == MaskByte(OnesIn(p, i))
    ensures (forall i :: 0 <= i < |x| ==> AgreeUnder(nn[i], x[i], m[i])) <==>
            (forall i :: 0 <= i < |x| ==> MaskedSame(x[i], a[i], OnesIn(p, i)))
  {
    forall i | 0 <= i < |x|
      ensures AgreeUnder(nn[i], x[i], m[i]) <==> MaskedSame(x[i], a[i], OnesIn(p, i))
    {
      MaskedNetworkByte(a[i], x[i], m[i]);
    }
  }

  /** Masking can set no bit, so a masked address whose bytes 10 and 11 are
      0xff kept every byte before them: a block is IPv4-mapped only when its
      literal is. */
  lemma MaskedMappedOnlyIfMapped(c: Cidr)
    requires WellFormedCidr(c)
    ensures IsV4Mapped(ParseCIDR(c).value.ip) ==> IsV4Mapped(c.addr)
  {
    var n := ParseCIDR(c).value;
    if IsV4Mapped(n.ip) {
      var m := n.mask;
      assert c.addr[11] & m[11] == 0xff;
      FullMaskByte(c.addr[11], m[11]);
      MaskByteFull(OnesIn(c.prefix, 11));
      assert c.prefix >= 96;
      forall i | 0 <= i < 12 ensures c.addr[i] == n.ip[i] {
        MaskByteFull(OnesIn(c.prefix, i));
      }
      assert c.addr[..10] == n.ip[..10];
    }
  }

  lemma FullMaskByte(x: bv8, m: bv8)
    requires x & m == 0xff
    ensures m == 0xff
  {
  }

  lemma MaskByteFull(k: nat)
    requires k <= 8
    ensures MaskByte(k) == 0xff <==> k == 8
  {
  }

  /**
   * Block containment is prefix comparison: a block parsed from a
   * well-formed literal that is not an IPv4-mapped address contains `ip`
   * exactly when the normalised `ip` has the literal's length and its first
   * `prefix` bits equal those of the literal.
   */
  lemma ContainsIffPrefix(c: Cidr, ip: IP)
    requires WellFormedCidr(c) && !IsV4Mapped(c.addr)
    ensures Contains(ParseCIDR(c).value, ip) <==>
            |Normalise(ip)| == |c.addr| && SamePrefix(Normalise(ip), c.addr, c.prefix)
  {
    var n := ParseCIDR(c).value;
    var x := Normalise(ip);
    BlockNetworkNumber(c);
    if |x| == |c.addr| {
      MaskedEqualEveryByte(n.ip, x, n.mask);
      MaskedNetworkBytes(c.addr, n.mask, n.ip, x, c.prefix);
      PrefixByBytes(x, c.addr, c.prefix);
    }
  }

  lemma MaskedNetworkByte(a: bv8, x: bv8, m: bv8)
    ensures AgreeUnder(a & m, x, m) <==> AgreeUnder(x, a, m)
  {
  }
}
