/**
 * URL validation against private address ranges (dependencies/url).
 *
 * A validator decides whether flux may connect to a URL.  `PassValidator`
 * allows everything, `ErrorValidator` refuses everything, and
 * `PrivateIPValidator` resolves the host and refuses it when any resolved
 * address lies in one of nine private or local blocks.  Name resolution is a
 * network call, so `Validate` takes its outcome as an argument.
 */
module UrlValidator {
  import opened Basics
  import opened IPNets

  /** An error as the validators return it: a flux error with a code and a
      fixed message, or a failed host lookup passed through as it came. */
  datatype Error = FluxError(code: Code, msg: string) | LookupError(reason: string)

  /** The single, deliberately vague rejection of a private address. */
  const NoSuchHost: Error := FluxError(Invalid, "no such host")

  datatype Validator = PassValidator | PrivateIPValidator | ErrorValidator

  const V6Loopback: IP := [0, 0, 0, 0, 0, 0, 0, 0, 0, 0, 0, 0, 0, 0, 0, 1]
  const V6LinkLocal: IP := [0xfe, 0x80, 0, 0, 0, 0, 0, 0, 0, 0, 0, 0, 0, 0, 0, 0]
  const V6UniqueLocal: IP := [0xfc, 0, 0, 0, 0, 0, 0, 0, 0, 0, 0, 0, 0, 0, 0, 0]

  /** The nine private blocks in the order `init` parses them. */
  const PrivateCidrs: seq<Cidr> := [
    Cidr([0, 0, 0, 0], 32),       // 0.0.0.0/32: Linux treats 0.0.0.0 as the loopback host
    Cidr([127, 0, 0, 0], 8),      // 127.0.0.0/8: IPv4 loopback
    Cidr([10, 0, 0, 0], 8),       // 10.0.0.0/8: RFC 1918 section 3
    Cidr([172, 16, 0, 0], 12),    // 172.16.0.0/12: RFC 1918 section 3
    Cidr([192, 168, 0, 0], 16),   // 192.168.0.0/16: RFC 1918 section 3
    Cidr([169, 254, 0, 0], 16),   // 169.254.0.0/16: RFC 3927 section 1
    Cidr(V6Loopback, 128),        // ::1/128: RFC 4291 section 2.5.3
    Cidr(V6LinkLocal, 10),        // fe80::/10: RFC 4291 section 2.5.6
    Cidr(V6UniqueLocal, 7)        // fc00::/7: RFC 4193 section 3.1
  ]

  lemma PrivateCidrsWellFormed()
    ensures forall k :: 0 <= k < |PrivateCidrs| ==> WellFormedCidr(PrivateCidrs[k]) && !IsV4Mapped(PrivateCidrs[k].addr)
  {
    assert !IsV4Mapped(V6Loopback) && !IsV4Mapped(V6LinkLocal) && !IsV4Mapped(V6UniqueLocal);
  }

  /**
   * The loop of `init`: parse each literal in turn and append its block.
   * `ParseCIDR` failing makes `init` panic; here that is the `Err` outcome
   * carrying the literal that failed.
   */
  method ParseBlocks(cidrs: seq<Cidr>) returns (r: Result<seq<IPNet>, Cidr>)
    ensures r.Ok? <==> forall k :: 0 <= k < |cidrs| ==> WellFormedCidr(cidrs[k])
    ensures r.Ok? ==> |r.value| == |cidrs| &&
                      forall k :: 0 <= k < |cidrs| ==> ParseCIDR(cidrs[k]) == Some(r.value[k])
    ensures r.Err? ==> exists k :: 0 <= k < |cidrs| && r.error == cidrs[k] && !WellFormedCidr(cidrs[k]) &&
                                   forall j :: 0 <= j < k ==> WellFormedCidr(cidrs[j])
  {
    var blocks: seq<IPNet> := [];
    for i := 0 to |cidrs|
      invariant |blocks| == i
      invariant forall k :: 0 <= k < i ==> ParseCIDR(cidrs[k]) == Some(blocks[k])
    {
      match ParseCIDR(cidrs[i])
      case None =>
        return Err(cidrs[i]);
      case Some(block) =>
        blocks := blocks + [block];
    }
    return Ok(blocks);
  }

  /** `privateIPBlocks` once `init` has run: each literal parsed into its
      network number and byte mask (`InitParsesPrivateCidrs` shows that
      parsing `PrivateCidrs` gives exactly this list). */
  const PrivateIPBlocks: seq<IPNet> := [
    IPNet([0, 0, 0, 0], [0xff, 0xff, 0xff, 0xff]),
    IPNet([127, 0, 0, 0], [0xff, 0, 0, 0]),
    IPNet([10, 0, 0, 0], [0xff, 0, 0, 0]),
    IPNet([172, 16, 0, 0], [0xff, 0xf0, 0, 0]),
    IPNet([192, 168, 0, 0], [0xff, 0xff, 0, 0]),
    IPNet([169, 254, 0, 0], [0xff, 0xff, 0, 0]),
    IPNet(V6Loopback, V6Mask(128)),
    IPNet(V6LinkLocal, V6Mask(10)),
    IPNet(V6UniqueLocal, V6Mask(7))]

  /** `init`: parsing the nine literals never panics, and the list it
      builds is `PrivateIPBlocks`. */
  method Init() returns (blocks: seq<IPNet>)
    ensures blocks == PrivateIPBlocks
  {
    PrivateCidrsWellFormed();
    InitParsesPrivateCidrs();
    var r := ParseBlocks(PrivateCidrs);
    blocks := r.value;
    assert forall k :: 0 <= k < |blocks| ==> Some(blocks[k]) == Some(PrivateIPBlocks[k]);
  }

  /** The search loop of `isPrivateIP` over a list of blocks: true at the
      first block that contains `ip`, false once all have been tried. */
  function AnyBlockContains(blocks: seq<IPNet>, ip: IP): (r: bool)
    ensures r <==> exists k :: 0 <= k < |blocks| && Contains(blocks[k], ip)
  {
    if |blocks| == 0 then false
    else if Contains(blocks[0], ip) then true
    else
      var rest := AnyBlockContains(blocks[1..], ip);
      assert forall k :: 1 <= k < |blocks| ==> blocks[k] == blocks[1..][k - 1];
      rest
  }

  /** `isPrivateIP`. */
  function IsPrivateIP(ip: IP): (r: bool)
    ensures r <==> exists k :: 0 <= k < |PrivateIPBlocks| && Contains(PrivateIPBlocks[k], ip)
  {
    AnyBlockContains(PrivateIPBlocks, ip)
  }

  /** `Validator.ValidateIP` for each kind of validator. */
  function ValidateIP(v: Validator, ip: IP): (r: Option<Error>)
    ensures v == PassValidator ==> r == None
    ensures v == ErrorValidator ==>
              r == Some(FluxError(Invalid, "Validator.ValidateIP called on an error dependency"))
    ensures v == PrivateIPValidator ==> (r.Some? <==> IsPrivateIP(ip)) && (r.Some? ==> r.value == NoSuchHost)
  {
    match v
    case PassValidator => None
    case PrivateIPValidator => if IsPrivateIP(ip) then Some(NoSuchHost) else None
    case ErrorValidator =>
      Some(FluxError(Invalid, "Validator.ValidateIP called on an error dependency"))
  }

  /** The loop of `PrivateIPValidator.Validate` over the resolved addresses:
      the first error `ValidateIP` reports, in lookup order. */
  function FirstRejection(ips: seq<IP>): (r: Option<Error>)
    ensures r == None || r == Some(NoSuchHost)
  {
    if |ips| == 0 then None
    else if IsPrivateIP(ips[0]) then Some(NoSuchHost)
    else FirstRejection(ips[1..])
  }

  /** The loop accepts exactly when no resolved address is private. */
  lemma {:induction false} FirstRejectionSpec(ips: seq<IP>)
    ensures FirstRejection(ips).None? <==> forall k :: 0 <= k < |ips| ==> !IsPrivateIP(ips[k])
  {
    if |ips| > 0 {
      FirstRejectionSpec(ips[1..]);
      assert forall k :: 1 <= k < |ips| ==> ips[k] == ips[1..][k - 1];
    }
  }

  /** A rejection is caused by a private address with only public ones
      before it in lookup order. */
  lemma FirstRejectionAt(ips: seq<IP>)
    requires FirstRejection(ips).Some?
    ensures exists k :: 0 <= k < |ips| && IsPrivateIP(ips[k]) && forall j :: 0 <= j < k ==> !IsPrivateIP(ips[j])
  {
    FirstRejectionSpec(ips);
    FirstWitness(ips, IsPrivateIP);
  }

  /** Where some element satisfies `p`, a first one does. */
  lemma {:induction false} FirstWitness<T>(xs: seq<T>, p: T -> bool)
    requires exists k :: 0 <= k < |xs| && p(xs[k])
    ensures exists k :: 0 <= k < |xs| && p(xs[k]) && forall j :: 0 <= j < k ==> !p(xs[j])
  {
    if !p(xs[0]) {
      var rest := xs[1..];
      var k0 :| 0 <= k0 < |xs| && p(xs[k0]);
      assert rest[k0 - 1] == xs[k0];
      FirstWitness(rest, p);
      var k :| 0 <= k < |rest| && p(rest[k]) && forall j :: 0 <= j < k ==> !p(rest[j]);
      assert xs[k + 1] == rest[k];
      forall j | 0 <= j < k + 1 ensures !p(xs[j]) {
        if j > 0 {
          assert xs[j] == rest[j - 1];
        }
      }
    }
  }

  /** `Validator.Validate`; `lookup` is the outcome of resolving the URL's
      host, which only the private-IP validator looks at. */
  function Validate(v: Validator, lookup: Result<seq<IP>, Error>): (r: Option<Error>)
    ensures v == PassValidator ==> r == None
    ensures v == ErrorValidator ==>
              r == Some(FluxError(Invalid, "Validator.Validate called on an error dependency"))
    ensures v == PrivateIPValidator && lookup.Err? ==> r == Some(lookup.error)
    ensures v == PrivateIPValidator && lookup.Ok? ==>
              (r.None? <==> forall k :: 0 <= k < |lookup.value| ==> !IsPrivateIP(lookup.value[k])) &&
              (r.Some? ==> r.value == NoSuchHost)
  {
    match v
    case PassValidator => None
    case PrivateIPValidator =>
      (match lookup
       case Err(e) => Some(e)
       case Ok(ips) => FirstRejectionSpec(ips); FirstRejection(ips))
    case ErrorValidator =>
      Some(FluxError(Invalid, "Validator.Validate called on an error dependency"))
  }

  // ----- Properties of the block list -----

  /** Running `init`'s loop over `PrivateCidrs` yields `PrivateIPBlocks`. */
  lemma InitParsesPrivateCidrs()
    ensures |PrivateIPBlocks| == |PrivateCidrs|
    ensures forall k :: 0 <= k < |PrivateCidrs| ==> ParseCIDR(PrivateCidrs[k]) == Some(PrivateIPBlocks[k])
  {
    PrivateBlock0();
    PrivateBlock1();
    PrivateBlock2();
    PrivateBlock3();
    PrivateBlock4();
    PrivateBlock5();
    PrivateBlock6();
    PrivateBlock7();
    PrivateBlock8();
    forall k | 0 <= k < |PrivateCidrs| ensures ParseCIDR(PrivateCidrs[k]) == Some(PrivateIPBlocks[k]) {
      assert k in {0, 1, 2, 3, 4, 5, 6, 7, 8};
    }
  }

  lemma PrivateBlock0()
    ensures ParseCIDR(PrivateCidrs[0]) == Some(PrivateIPBlocks[0])
  {
    MaskBytes();
    V4Parsed(PrivateCidrs[0], [0xff, 0xff, 0xff, 0xff]);
  }

  lemma PrivateBlock1()
    ensures ParseCIDR(PrivateCidrs[1]) == Some(PrivateIPBlocks[1])
  {
    MaskBytes();
    V4Parsed(PrivateCidrs[1], [0xff, 0, 0, 0]);
  }

  lemma PrivateBlock2()
    ensures ParseCIDR(PrivateCidrs[2]) == Some(PrivateIPBlocks[2])
  {
    MaskBytes();
    V4Parsed(PrivateCidrs[2], [0xff, 0, 0, 0]);
  }

  lemma PrivateBlock3()
    ensures ParseCIDR(PrivateCidrs[3]) == Some(PrivateIPBlocks[3])
  {
    MaskBytes();
    V4Parsed(PrivateCidrs[3], [0xff, 0xf0, 0, 0]);
  }

  lemma PrivateBlock4()
    ensures ParseCIDR(PrivateCidrs[4]) == Some(PrivateIPBlocks[4])
  {
    MaskBytes();
    V4Parsed(PrivateCidrs[4], [0xff, 0xff, 0, 0]);
  }

  lemma PrivateBlock5()
    ensures ParseCIDR(PrivateCidrs[5]) == Some(PrivateIPBlocks[5])
  {
    MaskBytes();
    V4Parsed(PrivateCidrs[5], [0xff, 0xff, 0, 0]);
  }

  lemma PrivateBlock6()
    ensures ParseCIDR(PrivateCidrs[6]) == Some(PrivateIPBlocks[6])
  {
    MaskBytes();
    V6Parsed(PrivateCidrs[6]);
  }

  lemma PrivateBlock7()
    ensures ParseCIDR(PrivateCidrs[7]) == Some(PrivateIPBlocks[7])
  {
    MaskBytes();
    V6Parsed(PrivateCidrs[7]);
  }

  lemma PrivateBlock8()
    ensures ParseCIDR(PrivateCidrs[8]) == Some(PrivateIPBlocks[8])
  {
    MaskBytes();
    V6Parsed(PrivateCidrs[8]);
  }

  /** A 16-byte `CIDRMask(ones, 128)` for the prefixes used here. */
  function V6Mask(ones: nat): seq<bv8>
  {
    if ones == 128 then seq(16, _ => 0xff)
    else if ones == 10 then [0xff, 0xc0] + seq(14, _ => 0)
    else [0xfe] + seq(15, _ => 0)
  }

  lemma MaskBytes()
    ensures MaskByte(0) == 0 && MaskByte(2) == 0xc0 && MaskByte(4) == 0xf0
    ensures MaskByte(7) == 0xfe && MaskByte(8) == 0xff
  {
  }

  lemma V4Parsed(c: Cidr, m: seq<bv8>)
    requires WellFormedCidr(c) && |c.addr| == 4 && |m| == 4
    requires m[0] == MaskByte(OnesIn(c.prefix, 0)) && m[1] == MaskByte(OnesIn(c.prefix, 1))
    requires m[2] == MaskByte(OnesIn(c.prefix, 2)) && m[3] == MaskByte(OnesIn(c.prefix, 3))
    requires forall i :: 0 <= i < 4 ==> c.addr[i] & m[i] == c.addr[i]
    ensures ParseCIDR(c) == Some(IPNet(c.addr, m))
  {
    var n := ParseCIDR(c).value;
    assert n.mask == m;
    assert n.ip == c.addr;
  }

  lemma V6Parsed(c: Cidr)
    requires c.prefix in {128, 10, 7} && |c.addr| == 16
    requires forall i :: 0 <= i < 16 ==> c.addr[i] & V6Mask(c.prefix)[i] == c.addr[i]
    ensures ParseCIDR(c) == Some(IPNet(c.addr, V6Mask(c.prefix)))
  {
    var n := ParseCIDR(c).value;
    MaskBytes();
    assert n.mask == V6Mask(c.prefix);
    assert n.ip == c.addr;
  }

  /** For a block of four bytes whose network number is its own
      (`NetworkNumberAndMask` keeps it), containment of a four-byte address
      is byte-wise agreement under the mask. */
  lemma ContainsByBytes(n: IPNet, ip: IP)
    requires |n.ip| == |n.mask| == |ip|
    requires NetworkNumberAndMask(n) == (n.ip, n.mask) && Normalise(ip) == ip
    ensures Contains(n, ip) <==> forall i :: 0 <= i < |ip| ==> AgreeUnder(n.ip[i], ip[i], n.mask[i])
  {
    MaskedEqualEveryByte(n.ip, ip, n.mask);
  }

  lemma ContainsV4(n: IPNet, a: bv8, b: bv8, c: bv8, d: bv8)
    requires |n.ip| == |n.mask| == 4 && NetworkNumberAndMask(n) == (n.ip, n.mask)
    ensures Contains(n, [a, b, c, d]) <==>
            AgreeUnder(n.ip[0], a, n.mask[0]) && AgreeUnder(n.ip[1], b, n.mask[1]) &&
            AgreeUnder(n.ip[2], c, n.mask[2]) && AgreeUnder(n.ip[3], d, n.mask[3])
  {
    var ip: IP := [a, b, c, d];
    ContainsByBytes(n, ip);
  }

  /** The reference description of the private IPv4 space. */
  predicate InPrivateV4Range(a: bv8, b: bv8, c: bv8, d: bv8)
  {
    || (a == 0 && b == 0 && c == 0 && d == 0)
    || a == 127
    || a == 10
    || (a == 172 && 16 <= b <= 31)
    || (a == 192 && b == 168)
    || (a == 169 && b == 254)
  }

  lemma AgreeUnderFull(x: bv8, y: bv8)
    ensures AgreeUnder(x, y, 0xff) <==> x == y
  {
  }

  lemma AgreeUnderNone(x: bv8, y: bv8)
    ensures AgreeUnder(x, y, 0)
  {
  }

  lemma AgreeUnderHighNibble(b: bv8)
    ensures AgreeUnder(16, b, 0xf0) <==> 16 <= b <= 31
  {
  }

  lemma V4InBlock0(a: bv8, b: bv8, c: bv8, d: bv8)
    ensures Contains(PrivateIPBlocks[0], [a, b, c, d]) <==> a == 0 && b == 0 && c == 0 && d == 0
  {
    PrivateBlock0();
    ContainsV4(PrivateIPBlocks[0], a, b, c, d);
    AgreeUnderFull(0, a); AgreeUnderFull(0, b); AgreeUnderFull(0, c); AgreeUnderFull(0, d);
  }

  lemma V4InBlock1(a: bv8, b: bv8, c: bv8, d: bv8)
    ensures Contains(PrivateIPBlocks[1], [a, b, c, d]) <==> a == 127
  {
    PrivateBlock1();
    ContainsV4(PrivateIPBlocks[1], a, b, c, d);
    AgreeUnderFull(127, a); AgreeUnderNone(0, b); AgreeUnderNone(0, c); AgreeUnderNone(0, d);
  }

  lemma V4InBlock2(a: bv8, b: bv8, c: bv8, d: bv8)
    ensures Contains(PrivateIPBlocks[2], [a, b, c, d]) <==> a == 10
  {
    PrivateBlock2();
    ContainsV4(PrivateIPBlocks[2], a, b, c, d);
    AgreeUnderFull(10, a); AgreeUnderNone(0, b); AgreeUnderNone(0, c); AgreeUnderNone(0, d);
  }

  lemma V4InBlock3(a: bv8, b: bv8, c: bv8, d: bv8)
    ensures Contains(PrivateIPBlocks[3], [a, b, c, d]) <==> a == 172 && 16 <= b <= 31
  {
    PrivateBlock3();
    ContainsV4(PrivateIPBlocks[3], a, b, c, d);
    AgreeUnderFull(172, a); AgreeUnderHighNibble(b); AgreeUnderNone(0, c); AgreeUnderNone(0, d);
  }

  lemma V4InBlock4(a: bv8, b: bv8, c: bv8, d: bv8)
    ensures Contains(PrivateIPBlocks[4], [a, b, c, d]) <==> a == 192 && b == 168
  {
    PrivateBlock4();
    ContainsV4(PrivateIPBlocks[4], a, b, c, d);
    AgreeUnderFull(192, a); AgreeUnderFull(168, b); AgreeUnderNone(0, c); AgreeUnderNone(0, d);
  }

  lemma V4InBlock5(a: bv8, b: bv8, c: bv8, d: bv8)
    ensures Contains(PrivateIPBlocks[5], [a, b, c, d]) <==> a == 169 && b == 254
  {
    PrivateBlock5();
    ContainsV4(PrivateIPBlocks[5], a, b, c, d);
    AgreeUnderFull(169, a); AgreeUnderFull(254, b); AgreeUnderNone(0, c); AgreeUnderNone(0, d);
  }

  /** The IPv6 blocks never contain a four-byte address. */
  lemma V4NotInV6Blocks(ip: IP)
    requires |ip| == 4
    ensures forall k :: 6 <= k < 9 ==> !Contains(PrivateIPBlocks[k], ip)
  {
    PrivateBlock6();
    PrivateBlock7();
    PrivateBlock8();
    assert !IsV4Mapped(V6Loopback) && !IsV4Mapped(V6LinkLocal) && !IsV4Mapped(V6UniqueLocal);
  }

  /** `isPrivateIP` tries the nine blocks one by one. */
  lemma IsPrivateIPByBlock(ip: IP)
    ensures var b := PrivateIPBlocks;
            IsPrivateIP(ip) <==>
            Contains(b[0], ip) || Contains(b[1], ip) || Contains(b[2], ip) ||
            Contains(b[3], ip) || Contains(b[4], ip) || Contains(b[5], ip) ||
            Contains(b[6], ip) || Contains(b[7], ip) || Contains(b[8], ip)
  {
    var b := PrivateIPBlocks;
    if IsPrivateIP(ip) {
      var k :| 0 <= k < |b| && Contains(b[k], ip);
      assert k in {0, 1, 2, 3, 4, 5, 6, 7, 8};
    }
  }

  /** An IPv4 address is private exactly when it lies in one of the six
      IPv4 ranges. */
  lemma PrivateV4Ranges(a: bv8, b: bv8, c: bv8, d: bv8)
    ensures IsPrivateIP([a, b, c, d]) <==> InPrivateV4Range(a, b, c, d)
  {
    IsPrivateIPByBlock([a, b, c, d]);
    V4NotInV6Blocks([a, b, c, d]);
    V4InBlock0(a, b, c, d);
    V4InBlock1(a, b, c, d);
    V4InBlock2(a, b, c, d);
    V4InBlock3(a, b, c, d);
    V4InBlock4(a, b, c, d);
    V4InBlock5(a, b, c, d);
  }

  /** The reference description of the private IPv6 space (for addresses
      that are not IPv4-mapped). */
  predicate InPrivateV6Range(ip: IP)
    requires |ip| == 16
  {
    || ip == V6Loopback
    || (ip[0] == 0xfe && 0x80 <= ip[1] <= 0xbf)
    || ip[0] == 0xfc || ip[0] == 0xfd
  }

  lemma AgreeUnderAllFull()
    ensures forall x: bv8, y: bv8 :: AgreeUnder(x, y, 0xff) <==> x == y
  {
    forall x: bv8, y: bv8 ensures AgreeUnder(x, y, 0xff) <==> x == y {
      AgreeUnderFull(x, y);
    }
  }

  lemma AgreeUnderLinkLocal(y: bv8)
    ensures AgreeUnder(0x80, y, 0xc0) <==> 0x80 <= y <= 0xbf
  {
  }

  lemma AgreeUnderUniqueLocal(y: bv8)
    ensures AgreeUnder(0xfc, y, 0xfe) <==> y == 0xfc || y == 0xfd
  {
  }

  /** Containment in a block whose mask is zero after its first two bytes
      looks at those two bytes only. */
  lemma ContainsTwoBytes(n: IPNet, ip: IP)
    requires |n.ip| == |n.mask| == |ip|  >= 2
    requires NetworkNumberAndMask(n) == (n.ip, n.mask) && Normalise(ip) == ip
    requires forall i :: 2 <= i < |ip| ==> n.mask[i] == 0
    ensures Contains(n, ip) <==> AgreeUnder(n.ip[0], ip[0], n.mask[0]) && AgreeUnder(n.ip[1], ip[1], n.mask[1])
  {
    ContainsByBytes(n, ip);
    AgreeFirstTwo(n.ip, ip, n.mask);
  }

  /** Byte strings agree under a mask that is zero after two bytes exactly
      when their first two bytes agree under it. */
  lemma AgreeFirstTwo(x: seq<bv8>, y: seq<bv8>, m: seq<bv8>)
    requires |x| == |y| == |m| >= 2
    requires forall i :: 2 <= i < |m| ==> m[i] == 0
    ensures (forall i :: 0 <= i < |x| ==> AgreeUnder(x[i], y[i], m[i])) <==>
            AgreeUnder(x[0], y[0], m[0]) && AgreeUnder(x[1], y[1], m[1])
  {
    if AgreeUnder(x[0], y[0], m[0]) && AgreeUnder(x[1], y[1], m[1]) {
      forall i | 0 <= i < |x| ensures AgreeUnder(x[i], y[i], m[i]) {
        if i >= 2 {
          AgreeUnderNone(x[i], y[i]);
        }
      }
    }
  }

  /** The IPv4 blocks never contain a sixteen-byte address that is not IPv4-mapped. */
  lemma V6NotInV4Blocks(ip: IP)
    requires |ip| == 16 && !IsV4Mapped(ip)
    ensures forall k :: 0 <= k < 6 ==> !Contains(PrivateIPBlocks[k], ip)
  {
    forall k | 0 <= k < 6 ensures !Contains(PrivateIPBlocks[k], ip) {
      assert |NetworkNumberAndMask(PrivateIPBlocks[k]).0| <= 4;
    }
  }

  lemma V6InBlock6(ip: IP)
    requires |ip| == 16 && !IsV4Mapped(ip)
    ensures Contains(PrivateIPBlocks[6], ip) <==> ip == V6Loopback
  {
    var n := PrivateIPBlocks[6];
    PrivateBlock6();
    assert !IsV4Mapped(V6Loopback);
    ContainsByBytes(n, ip);
    AgreeUnderAllFull();
  }

  lemma V6InBlock7(ip: IP)
    requires |ip| == 16 && !IsV4Mapped(ip)
    ensures Contains(PrivateIPBlocks[7], ip) <==> ip[0] == 0xfe && 0x80 <= ip[1] <= 0xbf
  {
    var n := PrivateIPBlocks[7];
    PrivateBlock7();
    assert !IsV4Mapped(V6LinkLocal);
    ContainsTwoBytes(n, ip);
    AgreeUnderFull(0xfe, ip[0]);
    AgreeUnderLinkLocal(ip[1]);
  }

  lemma V6InBlock8(ip: IP)
    requires |ip| == 16 && !IsV4Mapped(ip)
    ensures Contains(PrivateIPBlocks[8], ip) <==> ip[0] == 0xfc || ip[0] == 0xfd
  {
    var n := PrivateIPBlocks[8];
    PrivateBlock8();
    assert !IsV4Mapped(V6UniqueLocal);
    ContainsTwoBytes(n, ip);
    AgreeUnderUniqueLocal(ip[0]);
    AgreeUnderNone(0, ip[1]);
  }

  /** An IPv6 address that is not IPv4-mapped is private exactly when it is
      the loopback address, link-local or unique-local. */
  lemma PrivateV6Ranges(ip: IP)
    requires |ip| == 16 && !IsV4Mapped(ip)
    ensures IsPrivateIP(ip) <==> InPrivateV6Range(ip)
  {
    IsPrivateIPByBlock(ip);
    V6NotInV4Blocks(ip);
    V6InBlock6(ip);
    V6InBlock7(ip);
    V6InBlock8(ip);
  }

  /** Addresses are judged by their IPv4 form: an IPv4-mapped address is
      private exactly when the embedded IPv4 address is. */
  lemma PrivacyFollowsNormalForm(ip: IP, other: IP)
    requires Normalise(ip) == Normalise(other)
    ensures IsPrivateIP(ip) <==> IsPrivateIP(other)
  {
    var b := PrivateIPBlocks;
    assert forall k :: 0 <= k < |b| ==> (Contains(b[k], ip) <==> Contains(b[k], other));
  }

  lemma MappedLikeEmbedded(a: bv8, b: bv8, c: bv8, d: bv8)
    ensures IsPrivateIP([0, 0, 0, 0, 0, 0, 0, 0, 0, 0, 0xff, 0xff, a, b, c, d]) <==> InPrivateV4Range(a, b, c, d)
  {
    var mapped: IP := [0, 0, 0, 0, 0, 0, 0, 0, 0, 0, 0xff, 0xff, a, b, c, d];
    assert IsV4Mapped(mapped);
    assert mapped[12..] == [a, b, c, d];
    PrivacyFollowsNormalForm(mapped, [a, b, c, d]);
    PrivateV4Ranges(a, b, c, d);
  }

  /** Block membership is prefix comparison: `ip` is private exactly when
      its first `prefix` bits equal those of one of the nine literals. */
  lemma PrivateIffPrefixMatch(ip: IP)
    ensures IsPrivateIP(ip) <==>
            exists k :: 0 <= k < |PrivateCidrs| && |Normalise(ip)| == |PrivateCidrs[k].addr| &&
                        SamePrefix(Normalise(ip), PrivateCidrs[k].addr, PrivateCidrs[k].prefix)
  {
    PrivateCidrsWellFormed();
    InitParsesPrivateCidrs();
    forall k | 0 <= k < |PrivateCidrs|
      ensures Contains(PrivateIPBlocks[k], ip) <==>
              |Normalise(ip)| == |PrivateCidrs[k].addr| &&
              SamePrefix(Normalise(ip), PrivateCidrs[k].addr, PrivateCidrs[k].prefix)
    {
      ContainsIffPrefix(PrivateCidrs[k], ip);
    }
  }

  // ----- Boundaries of individual blocks -----

  /** 172.16.0.0/12 ends at 172.31.255.255. */
  lemma Rfc1918Boundary()
    ensures IsPrivateIP([172, 31, 255, 255]) && !IsPrivateIP([172, 32, 0, 0])
    ensures IsPrivateIP([172, 16, 0, 0]) && !IsPrivateIP([172, 15, 255, 255])
  {
    PrivateV4Ranges(172, 31, 255, 255);
    PrivateV4Ranges(172, 32, 0, 0);
    PrivateV4Ranges(172, 16, 0, 0);
    PrivateV4Ranges(172, 15, 255, 255);
  }

  /** 0.0.0.0/32 holds one address. */
  lemma UnspecifiedBoundary()
    ensures IsPrivateIP([0, 0, 0, 0]) && !IsPrivateIP([0, 0, 0, 1])
  {
    PrivateV4Ranges(0, 0, 0, 0);
    PrivateV4Ranges(0, 0, 0, 1);
  }

  /** Every 169.254.x.y address is link-local. */
  lemma LinkLocalV4(x: bv8, y: bv8)
    ensures IsPrivateIP([169, 254, x, y])
  {
    PrivateV4Ranges(169, 254, x, y);
  }

  /** A public address passes the private-IP validator; so does its
      IPv4-mapped form. */
  lemma PublicAddressAccepted()
    ensures ValidateIP(PrivateIPValidator, [8, 8, 8, 8]) == None
    ensures ValidateIP(PrivateIPValidator, [0, 0, 0, 0, 0, 0, 0, 0, 0, 0, 0xff, 0xff, 8, 8, 8, 8]) == None
    ensures ValidateIP(PrivateIPValidator, [0, 0, 0, 0, 0, 0, 0, 0, 0, 0, 0xff, 0xff, 127, 0, 0, 1]) == Some(NoSuchHost)
  {
    PrivateV4Ranges(8, 8, 8, 8);
    MappedLikeEmbedded(8, 8, 8, 8);
    MappedLikeEmbedded(127, 0, 0, 1);
  }
}
