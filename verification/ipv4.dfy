/**
  PHP `ip2long` and `long2ip`.  `ip2long` hands the text to the C
  library's `inet_pton(AF_INET, ...)`, which accepts exactly four
  dot-separated decimal octets, each without a leading zero (except "0"
  itself) and at most 255, and nothing else; the empty string is refused
  before the call.  The result is the address as an integer in
  [0, 2^32), or `false` (here `None`).
 */
module Ipv4 {
  import opened Common

  const AddressSpace: nat := 0x1_0000_0000

  predicate AllDigits(s: string)
  {
    forall i :: 0 <= i < |s| ==> IsDigit(s[i])
  }

  /** The value of a string of decimal digits. */
  function DecValue(s: string): nat
    requires AllDigits(s)
  {
    if |s| == 0 then 0
    else DecValue(s[..|s| - 1]) * 10 + (s[|s| - 1] as int - '0' as int)
  }

  /** One octet as `inet_pton` accepts it. */
  predicate ValidOctet(p: string)
  {
    && |p| >= 1
    && AllDigits(p)
    && (|p| == 1 || p[0] != '0')
    && DecValue(p) <= 255
  }

  predicate WellFormed(parts: seq<string>)
  {
    |parts| == 4 && forall i :: 0 <= i < 4 ==> ValidOctet(parts[i])
  }

  /** The address whose four octets, most significant first, are `v0`..`v3`. */
  function Combine(v0: nat, v1: nat, v2: nat, v3: nat): (a: nat)
    ensures v0 <= 255 && v1 <= 255 && v2 <= 255 && v3 <= 255 ==> a < AddressSpace
  {
    ((v0 * 256 + v1) * 256 + v2) * 256 + v3
  }

  /** PHP `ip2long`. */
  function Ip2Long(s: string): (r: Option<nat>)
    ensures r.Some? ==> r.value < AddressSpace
    ensures r.Some? <==> WellFormed(Split(s, '.'))
  {
    var parts := Split(s, '.');
    if WellFormed(parts) then
      Some(Combine(DecValue(parts[0]), DecValue(parts[1]), DecValue(parts[2]), DecValue(parts[3])))
    else None
  }

  /** Decimal rendering of a natural number, without leading zeros. */
  function Dec(n: nat): (r: string)
    ensures |r| >= 1 && AllDigits(r)
    ensures n >= 1 ==> r[0] != '0'
    ensures n < 10 ==> |r| == 1
    ensures '.' !in r
  {
    if n < 10 then [('0' as int + n) as char]
    else Dec(n / 10) + [('0' as int + n % 10) as char]
  }

  /** Parsing a rendered number gives the number back. */
  lemma {:induction false} DecRoundTrip(n: nat)
    ensures DecValue(Dec(n)) == n
  {
    if n >= 10 {
      DecRoundTrip(n / 10);
      var r := Dec(n);
      assert r[..|r| - 1] == Dec(n / 10);
    }
  }

  /** PHP `long2ip`: the four octets, most significant first. */
  function Long2Ip(a: nat): string
    requires a < AddressSpace
  {
    var a1 := a / 256;
    var a2 := a1 / 256;
    Join([Dec(a2 / 256), Dec(a2 % 256), Dec(a1 % 256), Dec(a % 256)], '.')
  }

  lemma OctetRendersValid(n: nat)
    requires n <= 255
    ensures ValidOctet(Dec(n)) && DecValue(Dec(n)) == n
  {
    DecRoundTrip(n);
  }

  /** The four octets `long2ip` prints recombine to the address. */
  lemma OctetsRecombine(a: nat)
    requires a < AddressSpace
    ensures (a / 256) / 256 / 256 <= 255
    ensures ((((a / 256) / 256 / 256) * 256 + (a / 256) / 256 % 256) * 256 + (a / 256) % 256) * 256
            + a % 256 == a
  {
    var a1 := a / 256;
    var a2 := a1 / 256;
    assert a1 < 0x100_0000;
    assert a2 < 0x1_0000;
    assert a2 == (a2 / 256) * 256 + a2 % 256;
    assert a1 == a2 * 256 + a1 % 256;
    assert a == a1 * 256 + a % 256;
  }

  /** Every address survives `long2ip` followed by `ip2long`. */
  lemma Ip2LongLong2Ip(a: nat)
    requires a < AddressSpace
    ensures Ip2Long(Long2Ip(a)) == Some(a)
  {
    var a1 := a / 256;
    var a2 := a1 / 256;
    OctetsRecombine(a);
    var d0, d1, d2, d3 := a2 / 256, a2 % 256, a1 % 256, a % 256;
    Ip2LongOfOctets(d0, d1, d2, d3);
    assert Long2Ip(a) == Join([Dec(d0), Dec(d1), Dec(d2), Dec(d3)], '.');
    assert Combine(d0, d1, d2, d3) == a;
  }

  /** A digit string without a leading zero has a positive value. */
  lemma {:induction false} DecValuePositive(p: string)
    requires |p| >= 1 && AllDigits(p) && p[0] != '0'
    ensures DecValue(p) >= 1
    decreases |p|
  {
    if |p| > 1 {
      DecValuePositive(p[..|p| - 1]);
    }
  }

  /** Rendering the value of a canonical digit string gives the string back. */
  lemma {:induction false} DecOfDecValue(p: string)
    requires |p| >= 1 && AllDigits(p) && (|p| == 1 || p[0] != '0')
    ensures Dec(DecValue(p)) == p
    decreases |p|
  {
    if |p| > 1 {
      var q := p[..|p| - 1];
      DecValuePositive(q);
      DecOfDecValue(q);
      assert p == q + [p[|p| - 1]];
    }
  }

  /** The four octets recombined by `ip2long` split back apart. */
  lemma OctetsSplit(v0: nat, v1: nat, v2: nat, v3: nat)
    requires v0 <= 255 && v1 <= 255 && v2 <= 255 && v3 <= 255
    ensures var a := Combine(v0, v1, v2, v3);
            a / 256 % 256 == v2 && a / 256 / 256 % 256 == v1 && a / 256 / 256 / 256 == v0
            && a % 256 == v3
  {
    var a2 := v0 * 256 + v1;
    var a1 := a2 * 256 + v2;
    var a := a1 * 256 + v3;
    assert a / 256 == a1 && a % 256 == v3;
    assert a1 / 256 == a2 && a1 % 256 == v2;
    assert a2 / 256 == v0 && a2 % 256 == v1;
  }

  /** `ip2long` accepts only the canonical spelling of an address, so
      `long2ip` recovers the accepted text exactly. */
  lemma Long2IpIp2Long(s: string)
    requires Ip2Long(s).Some?
    ensures Long2Ip(Ip2Long(s).value) == s
  {
    var parts := Split(s, '.');
    var v0, v1, v2, v3 := DecValue(parts[0]), DecValue(parts[1]), DecValue(parts[2]), DecValue(parts[3]);
    OctetsSplit(v0, v1, v2, v3);
    DecOfDecValue(parts[0]);
    DecOfDecValue(parts[1]);
    DecOfDecValue(parts[2]);
    DecOfDecValue(parts[3]);
    assert [Dec(v0), Dec(v1), Dec(v2), Dec(v3)] == parts;
    JoinSplit(s, '.');
  }

  /** The dotted quad of four octets parses to their combined value. */
  lemma Ip2LongOfOctets(v0: nat, v1: nat, v2: nat, v3: nat)
    requires v0 <= 255 && v1 <= 255 && v2 <= 255 && v3 <= 255
    ensures Ip2Long(Join([Dec(v0), Dec(v1), Dec(v2), Dec(v3)], '.')) == Some(Combine(v0, v1, v2, v3))
  {
    var parts := [Dec(v0), Dec(v1), Dec(v2), Dec(v3)];
    OctetRendersValid(v0);
    OctetRendersValid(v1);
    OctetRendersValid(v2);
    OctetRendersValid(v3);
    SplitJoin(parts, '.');
    assert WellFormed(parts);
  }

  /** Text without a dot is never an IPv4 address, whatever else it holds. */
  lemma NoDotRejected(s: string)
    requires '.' !in s
    ensures Ip2Long(s) == None
  {
    SplitNoSep(s, '.');
  }
}
