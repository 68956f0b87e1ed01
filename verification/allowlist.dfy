/**
  The source-IP allow-list of the deploy webhook (`isValidGitHubIP`).

  Each listed range is either `subnet/mask` or a bare address.  For a
  range, the code compares `ip2long($ip) & ~((1 << (32 - $mask)) - 1)`
  with `ip2long($subnet)` using PHP's loose `==`.  Three PHP rules shape
  the outcome:
  - `ip2long` answers `false` for anything that is not a dotted quad,
    including both IPv6 subnets of the list and an unparsable client
    address;
  - `false & n` converts `false` to 0, so an unparsable client address
    masks to 0;
  - `n == false` converts `n` to a boolean, so it holds exactly when
    `n == 0`.
  On a 64-bit PHP, and for an address below 2^32 and a shift of at most
  32, the bit-mask clears the low `32 - mask` bits; the model states that
  arithmetically.
 */
module AllowList {
  import opened Common
  import opened Ipv4

  type Mask = m: int | 0 <= m <= 32

  /** A list entry, with `explode('/', ...)` already applied to ranges. */
  datatype Range = Cidr(subnet: string, mask: Mask) | Exact(addr: string)

  /** The entries listed in `GITHUB_IPS`. */
  const GitHubRanges: seq<Range> := [
    Cidr("192.30.252.0", 22),
    Cidr("185.199.108.0", 22),
    Cidr("140.82.112.0", 20),
    Cidr("143.55.64.0", 20),
    Cidr("2a0a:a440::", 29),
    Cidr("2606:50c0::", 32)
  ]

  function Pow2(k: nat): (p: nat)
    ensures p >= 1
  {
    if k == 0 then 1 else 2 * Pow2(k - 1)
  }

  /** `a` with its low `k` bits cleared. */
  function ClearLow(a: nat, k: nat): nat
  {
    var p := Pow2(k);
    ModAtMost(a, p);
    a - a % p
  }

  lemma ModAtMost(a: nat, p: nat)
    requires p > 0
    ensures a % p <= a
  {
    if a >= p {
      assert a % p < p;
    }
  }

  /** The left side of the comparison: the client address, masked, where an
      unparsable address counts as 0. */
  function MaskedClient(ip: string, mask: Mask): nat
  {
    match Ip2Long(ip)
    case Some(a) => ClearLow(a, 32 - mask)
    case None => 0
  }

  /** PHP's `$n == ip2long($subnet)` for an integer `$n`. */
  predicate LooseEqualsIp2Long(n: int, subnet: Option<nat>)
  {
    match subnet
    case Some(s) => n == s
    case None => n == 0
  }

  predicate RangeMatches(r: Range, ip: string)
  {
    match r
    case Cidr(subnet, mask) => LooseEqualsIp2Long(MaskedClient(ip, mask), Ip2Long(subnet))
    case Exact(addr) => ip == addr
  }

  /** `isValidGitHubIP` over a given list: the first matching entry returns
      true, and running off the end returns false. */
  function IsAllowed(ranges: seq<Range>, ip: string): (ok: bool)
    ensures ok <==> exists i :: 0 <= i < |ranges| && RangeMatches(ranges[i], ip)
  {
    if |ranges| == 0 then false
    else if RangeMatches(ranges[0], ip) then true
    else
      var ok := IsAllowed(ranges[1..], ip);
      assert forall i :: 1 <= i < |ranges| ==> ranges[i] == ranges[1..][i - 1];
      ok
  }

  function IsValidGitHubIp(ip: string): bool
  {
    IsAllowed(GitHubRanges, ip)
  }

  /** Division by a positive number has a unique quotient and remainder. */
  lemma DivModUnique(a: nat, p: nat, q: nat, r: nat)
    requires p > 0 && a == p * q + r && r < p
    ensures a % p == r
  {
    var q', r' := a / p, a % p;
    assert a == p * q' + r';
    if q > q' {
      MulAtLeast(p, q - q');
    } else if q < q' {
      MulAtLeast(p, q' - q);
    }
  }

  lemma MulAtLeast(p: nat, d: int)
    requires d >= 1
    ensures p * d >= p
  {
  }

  /** Clearing the low bits lands on an aligned base exactly for the
      addresses of the block that starts there. */
  lemma ClearLowBlock(a: nat, base: nat, p: nat)
    requires p > 0 && base % p == 0
    ensures a - a % p == base <==> base <= a < base + p
  {
    if base <= a < base + p {
      var q := base / p;
      assert base == p * q;
      DivModUnique(a, p, q, a - base);
    }
  }

  /** For a parsed address and a parsed subnet whose low bits are clear, the
      range matches exactly the block [subnet, subnet + 2^(32 - mask)). */
  lemma CidrMatchesBlock(ip: string, subnet: string, mask: Mask, base: nat)
    requires Ip2Long(ip).Some? && Ip2Long(subnet) == Some(base)
    requires base % Pow2(32 - mask) == 0
    ensures RangeMatches(Cidr(subnet, mask), ip) <==> InBlock(Ip2Long(ip).value, base, mask)
  {
    ClearLowBlock(Ip2Long(ip).value, base, Pow2(32 - mask));
  }

  predicate InBlock(a: nat, base: nat, mask: Mask)
  {
    base <= a < base + Pow2(32 - mask)
  }

  /** An IPv6 subnet is not a dotted quad, so `ip2long` gives `false` for it
      and the range matches exactly the client addresses that mask to 0. */
  lemma NonIpv4SubnetMatchesZero(ip: string, subnet: string, mask: Mask)
    requires Ip2Long(subnet).None?
    ensures RangeMatches(Cidr(subnet, mask), ip) <==> MaskedClient(ip, mask) == 0
  {
  }

  /** Every client address `ip2long` rejects passes the allow-list: the
      IPv6 entries compare 0 with `false`. */
  lemma UnparsableClientAllowed(ip: string)
    requires Ip2Long(ip).None?
    ensures IsValidGitHubIp(ip)
  {
    Ipv6SubnetsUnparsable();
    assert RangeMatches(GitHubRanges[4], ip);
  }

  /** The `'unknown'` fallback used when no client address header is set is allowed. */
  lemma UnknownClientAllowed()
    ensures IsValidGitHubIp("unknown")
  {
    NoDotRejected("unknown");
    UnparsableClientAllowed("unknown");
  }

  lemma Subnet0Value()
    ensures Ip2Long("192.30.252.0") == Some(3223256064)
  {
    Subnet0Text();
    Ip2LongOfOctets(192, 30, 252, 0);
  }

  lemma Subnet0Text()
    ensures Join([Dec(192), Dec(30), Dec(252), Dec(0)], '.') == "192.30.252.0"
  {
    Subnet0Decs();
    Subnet0Join();
  }

  lemma Subnet0Decs()
    ensures Dec(19) == "19" && Dec(192) == "192" && Dec(30) == "30"
    ensures Dec(25) == "25" && Dec(252) == "252" && Dec(0) == "0"
  {
  }

  lemma Subnet0Join()
    ensures Join(["192", "30", "252", "0"], '.') == "192.30.252.0"
  {
  }

  lemma Subnet1Value()
    ensures Ip2Long("185.199.108.0") == Some(3116854272)
  {
    Subnet1Text();
    Ip2LongOfOctets(185, 199, 108, 0);
  }

  lemma Subnet1Text()
    ensures Join([Dec(185), Dec(199), Dec(108), Dec(0)], '.') == "185.199.108.0"
  {
    Subnet1Decs();
    Subnet1Join();
  }

  lemma Subnet1Decs()
    ensures Dec(18) == "18" && Dec(185) == "185" && Dec(19) == "19" && Dec(199) == "199"
    ensures Dec(10) == "10" && Dec(108) == "108" && Dec(0) == "0"
  {
  }

  lemma Subnet1Join()
    ensures Join(["185", "199", "108", "0"], '.') == "185.199.108.0"
  {
  }

  lemma Subnet2Value()
    ensures Ip2Long("140.82.112.0") == Some(2354212864)
  {
    Subnet2Text();
    Ip2LongOfOctets(140, 82, 112, 0);
  }

  lemma Subnet2Text()
    ensures Join([Dec(140), Dec(82), Dec(112), Dec(0)], '.') == "140.82.112.0"
  {
    Subnet2Decs();
    Subnet2Join();
  }

  lemma Subnet2Decs()
    ensures Dec(14) == "14" && Dec(140) == "140" && Dec(82) == "82"
    ensures Dec(11) == "11" && Dec(112) == "112" && Dec(0) == "0"
  {
  }

  lemma Subnet2Join()
    ensures Join(["140", "82", "112", "0"], '.') == "140.82.112.0"
  {
  }

  lemma Subnet3Value()
    ensures Ip2Long("143.55.64.0") == Some(2402762752)
  {
    Subnet3Text();
    Ip2LongOfOctets(143, 55, 64, 0);
  }

  lemma Subnet3Text()
    ensures Join([Dec(143), Dec(55), Dec(64), Dec(0)], '.') == "143.55.64.0"
  {
    Subnet3Decs();
    Subnet3Join();
  }

  lemma Subnet3Decs()
    ensures Dec(14) == "14" && Dec(143) == "143" && Dec(55) == "55"
    ensures Dec(64) == "64" && Dec(0) == "0"
  {
  }

  lemma Subnet3Join()
    ensures Join(["143", "55", "64", "0"], '.') == "143.55.64.0"
  {
  }

  lemma Range0OnAddress(ip: string)
    requires Ip2Long(ip).Some?
    ensures RangeMatches(GitHubRanges[0], ip) <==> InBlock(Ip2Long(ip).value, 3223256064, 22)
  {
    assert Pow2(10) == 1024;
    Subnet0Value();
    CidrMatchesBlock(ip, "192.30.252.0", 22, 3223256064);
  }

  lemma Range1OnAddress(ip: string)
    requires Ip2Long(ip).Some?
    ensures RangeMatches(GitHubRanges[1], ip) <==> InBlock(Ip2Long(ip).value, 3116854272, 22)
  {
    assert Pow2(10) == 1024;
    Subnet1Value();
    CidrMatchesBlock(ip, "185.199.108.0", 22, 3116854272);
  }

  lemma Range2OnAddress(ip: string)
    requires Ip2Long(ip).Some?
    ensures RangeMatches(GitHubRanges[2], ip) <==> InBlock(Ip2Long(ip).value, 2354212864, 20)
  {
    assert Pow2(12) == 4096;
    Subnet2Value();
    CidrMatchesBlock(ip, "140.82.112.0", 20, 2354212864);
  }

  lemma Range3OnAddress(ip: string)
    requires Ip2Long(ip).Some?
    ensures RangeMatches(GitHubRanges[3], ip) <==> InBlock(Ip2Long(ip).value, 2402762752, 20)
  {
    assert Pow2(12) == 4096;
    Subnet3Value();
    CidrMatchesBlock(ip, "143.55.64.0", 20, 2402762752);
  }

  /** The two IPv6 entries admit, of the dotted quads, 0.0.0.0 to 0.0.0.7
      (`/29`) and 0.0.0.0 alone (`/32`). */
  lemma Ipv6RangesOnAddress(ip: string)
    requires Ip2Long(ip).Some?
    ensures RangeMatches(GitHubRanges[4], ip) <==> Ip2Long(ip).value < 8
    ensures RangeMatches(GitHubRanges[5], ip) <==> Ip2Long(ip).value == 0
  {
    Ipv6SubnetsUnparsable();
    assert Pow2(3) == 8 && Pow2(0) == 1;
    ClearLowBlock(Ip2Long(ip).value, 0, 8);
  }

  /** Neither IPv6 subnet of the list is a dotted quad. */
  lemma Ipv6SubnetsUnparsable()
    ensures Ip2Long("2a0a:a440::") == None && Ip2Long("2606:50c0::") == None
  {
    NoDotRejected("2a0a:a440::");
    NoDotRejected("2606:50c0::");
  }

  /** The addresses the listed ranges actually admit: the four IPv4 blocks,
      plus 0.0.0.0 to 0.0.0.7 through the IPv6 `/29` entry (the `/32` one
      admits only 0.0.0.0), plus every string that is not a dotted quad. */
  lemma GitHubAllowListExactly(ip: string)
    ensures IsValidGitHubIp(ip) <==>
      match Ip2Long(ip)
      case None => true
      case Some(a) =>
        || InBlock(a, 3223256064, 22)
        || InBlock(a, 3116854272, 22)
        || InBlock(a, 2354212864, 20)
        || InBlock(a, 2402762752, 20)
        || a < 8
  {
    match Ip2Long(ip)
    case None =>
      UnparsableClientAllowed(ip);
    case Some(a) =>
      Range0OnAddress(ip);
      Range1OnAddress(ip);
      Range2OnAddress(ip);
      Range3OnAddress(ip);
      Ipv6RangesOnAddress(ip);
      AllowedBySix(GitHubRanges, ip);
  }

  /** A six-entry list allows exactly what one of its entries matches. */
  lemma AllowedBySix(g: seq<Range>, ip: string)
    requires |g| == 6
    ensures IsAllowed(g, ip) <==>
      || RangeMatches(g[0], ip) || RangeMatches(g[1], ip) || RangeMatches(g[2], ip)
      || RangeMatches(g[3], ip) || RangeMatches(g[4], ip) || RangeMatches(g[5], ip)
  {
    if IsAllowed(g, ip) {
      var i :| 0 <= i < |g| && RangeMatches(g[i], ip);
      assert i == 0 || i == 1 || i == 2 || i == 3 || i == 4 || i == 5;
    }
  }
}
