/** The parts of Python's `ipaddress.ip_network(text, strict=False)` that
    the aggregator relies on: dotted-quad IPv4 addresses, the three IPv4
    mask forms (prefix length, netmask, hostmask), the IPv6 prefix length,
    and the rule that IPv4 is tried before IPv6. The IPv6 address grammar
    itself is a parameter (`parse6`). */
module Address {
  import opened Wrappers
  import opened Arith
  import opened Text
  import opened Cidr

  datatype Family = V4 | V6

  /** Address width in bits: `max_prefixlen`. */
  function Width(f: Family): nat {
    if f == V4 then 32 else 128
  }

  /** A network together with its IP version (`net.version`). */
  datatype IpNet = IpNet(family: Family, net: Net)

  /** A 128-bit value, what an IPv6 address text denotes. */
  type Addr6 = a: nat | a < Pow2(128) witness 0

  // ---------------------------------------------------------------------
  // IPv4 address text.

  /** One octet of a dotted quad: one to three ASCII digits, no leading
      zero (unless the octet is "0"), value at most 255. */
  function ParseOctet(s: string): Option<nat> {
    if IsDigits(s) && |s| <= 3 && Canonical(s) && DigitsValue(s) <= 255
    then Some(DigitsValue(s)) else None
  }

  lemma ShowNatShort(n: nat)
    requires n < 1000
    ensures |ShowNat(n)| <= 3
  {
    if n >= 10 {
      assert |ShowNat(n)| == |ShowNat(n / 10)| + 1;
      if n / 10 >= 10 {
        assert |ShowNat(n / 10)| == |ShowNat(n / 100)| + 1;
      }
    }
  }

  /** Octet text and octet values correspond one to one. */
  lemma OctetRoundTrip(n: nat)
    requires n < 256
    ensures ParseOctet(ShowNat(n)) == Some(n)
  {
    ShowNatShort(n);
  }

  lemma OctetCanonical(s: string, n: nat)
    requires ParseOctet(s) == Some(n)
    ensures n < 256 && ShowNat(n) == s
  {
    ShowNatOfCanonical(s);
  }

  /** The 32-bit value of four octets, most significant first. */
  function Combine(a: nat, b: nat, c: nat, d: nat): (x: nat)
    requires a < 256 && b < 256 && c < 256 && d < 256
    ensures x < 4294967296
  {
    ((a * 256 + b) * 256 + c) * 256 + d
  }

  /** An IPv4 address text: exactly four octets separated by dots. An
      accepted text is a 32-bit value and holds a dot but no ':' and no
      '/', so neither IPv6 text nor a text with a mask passes as an IPv4
      address. */
  function ParseV4(s: string): (r: Option<nat>)
    ensures r.Some? ==> r.value < 4294967296
    ensures r.Some? ==> '.' in s && ':' !in s && '/' !in s
  {
    var octets := Split(s, '.');
    if |octets| != 4 then None
    else
      match (ParseOctet(octets[0]), ParseOctet(octets[1]), ParseOctet(octets[2]), ParseOctet(octets[3]))
      case (Some(a), Some(b), Some(c), Some(d)) =>
        assert a < 256 && b < 256 && c < 256 && d < 256;
        OctetsExclude(octets, ':');
        OctetsExclude(octets, '/');
        assert Join(octets, '.')[|octets[0]|] == '.';
        Some(Combine(a, b, c, d))
      case _ => None
  }

  /** Dotted octets hold no character other than digits and dots. */
  lemma OctetsExclude(octets: seq<string>, c: char)
    requires |octets| == 4 && forall i :: 0 <= i < 4 ==> ParseOctet(octets[i]).Some?
    requires c != '.' && !IsDigit(c)
    ensures c !in Join(octets, '.')
  {
    if c in Join(octets, '.') {
      InJoin(octets, '.', c);
    }
  }

  /** The dotted-quad text of a 32-bit value (`str(IPv4Address(a))`). */
  function FormatV4(a: nat): string
    requires a < Pow2(32)
  {
    var b0 := a / 256 / 256 / 256;
    var b1 := a / 256 / 256 % 256;
    var b2 := a / 256 % 256;
    var b3 := a % 256;
    ShowNat(b0) + "." + ShowNat(b1) + "." + ShowNat(b2) + "." + ShowNat(b3)
  }

  /** Joining four strings with dots. */
  lemma JoinFour(p: string, q: string, r: string, s: string)
    ensures Join([p, q, r, s], '.') == p + "." + q + "." + r + "." + s
  {
    assert [p, q, r, s][1..] == [q, r, s];
    assert [q, r, s][1..] == [r, s];
    assert [r, s][1..] == [s];
    assert Join([r, s], '.') == r + "." + s;
    assert Join([q, r, s], '.') == q + "." + (r + "." + s);
    assert Join([p, q, r, s], '.') == p + "." + (q + "." + (r + "." + s));
  }

  /** Four dot-free strings joined with dots split back into the four. */
  lemma SplitFour(p: string, q: string, r: string, s: string)
    requires '.' !in p && '.' !in q && '.' !in r && '.' !in s
    ensures Split(p + "." + q + "." + r + "." + s, '.') == [p, q, r, s]
  {
    var o := [p, q, r, s];
    JoinFour(p, q, r, s);
    assert forall i :: 0 <= i < |o| ==> '.' !in o[i] by {
      forall i | 0 <= i < |o| ensures '.' !in o[i] {
        if i == 0 {} else if i == 1 {} else if i == 2 {} else {}
      }
    }
    SplitJoin(o, '.');
  }

  lemma ShowNatNoDot(n: nat)
    ensures '.' !in ShowNat(n) && '/' !in ShowNat(n) && ':' !in ShowNat(n)
  {
    var s := ShowNat(n);
    forall i | 0 <= i < |s| ensures s[i] != '.' && s[i] != '/' && s[i] != ':' {
      assert IsDigit(s[i]);
    }
  }

  /** Base-256 digits are unique. */
  lemma CombineDigits(a: nat, b: nat, c: nat, d: nat)
    requires a < 256 && b < 256 && c < 256 && d < 256
    ensures var x := Combine(a, b, c, d);
      x / 256 / 256 / 256 == a && x / 256 / 256 % 256 == b && x / 256 % 256 == c && x % 256 == d
  {
    var x := Combine(a, b, c, d);
    DivModUnique(x, 256, (a * 256 + b) * 256 + c, d);
    DivModUnique((a * 256 + b) * 256 + c, 256, a * 256 + b, c);
    DivModUnique(a * 256 + b, 256, a, b);
    DivModUnique(a, 256, 0, a);
  }

  lemma CombineSplit(x: nat)
    requires x < 4294967296
    ensures x / 256 / 256 / 256 < 256
    ensures Combine(x / 256 / 256 / 256, x / 256 / 256 % 256, x / 256 % 256, x % 256) == x
  {
  }

  /** An IPv4 address text reads back as the address it was made from. */
  lemma ParseFormatV4(a: nat)
    requires a < Pow2(32)
    ensures ParseV4(FormatV4(a)) == Some(a)
  {
    Pow2Values();
    var b0, b1, b2, b3 := a / 256 / 256 / 256, a / 256 / 256 % 256, a / 256 % 256, a % 256;
    CombineSplit(a);
    ParseOctets(b0, b1, b2, b3);
  }

  /** Four octets written with dots read back as their combined value. */
  lemma ParseOctets(b0: nat, b1: nat, b2: nat, b3: nat)
    requires b0 < 256 && b1 < 256 && b2 < 256 && b3 < 256
    ensures ParseV4(ShowNat(b0) + "." + ShowNat(b1) + "." + ShowNat(b2) + "." + ShowNat(b3)) == Some(Combine(b0, b1, b2, b3))
  {
    ShowNatNoDot(b0); ShowNatNoDot(b1); ShowNatNoDot(b2); ShowNatNoDot(b3);
    SplitFour(ShowNat(b0), ShowNat(b1), ShowNat(b2), ShowNat(b3));
    OctetRoundTrip(b0); OctetRoundTrip(b1); OctetRoundTrip(b2); OctetRoundTrip(b3);
  }

  /** Every accepted IPv4 address text is the canonical text of its value:
      there is one way to write each address. */
  lemma FormatParseV4(s: string, a: nat)
    requires ParseV4(s) == Some(a)
    ensures a < Pow2(32) && FormatV4(a) == s
  {
    Pow2Values();
    var o := Split(s, '.');
    var x0, x1, x2, x3 := ParseOctet(o[0]).value, ParseOctet(o[1]).value, ParseOctet(o[2]).value, ParseOctet(o[3]).value;
    OctetCanonical(o[0], x0); OctetCanonical(o[1], x1); OctetCanonical(o[2], x2); OctetCanonical(o[3], x3);
    CombineDigits(x0, x1, x2, x3);
    assert o == [o[0], o[1], o[2], o[3]];
    JoinFour(o[0], o[1], o[2], o[3]);
  }

  /** A character other than the separator inside a joined text comes from
      one of the parts. */
  lemma {:induction false} InJoin(parts: seq<string>, sep: char, c: char)
    requires c != sep && c in Join(parts, sep)
    ensures exists i :: 0 <= i < |parts| && c in parts[i]
    decreases |parts|
  {
    if |parts| == 1 {
      assert c in parts[0];
    } else if |parts| > 1 {
      var j := Join(parts[1..], sep);
      if c in parts[0] {
        assert c in parts[0];
      } else {
        assert c in j;
        InJoin(parts[1..], sep, c);
        var i :| 0 <= i < |parts[1..]| && c in parts[1..][i];
        assert c in parts[i + 1];
      }
    }
  }

  /** Text with a colon is never an IPv4 address. */
  lemma ColonNotV4(s: string)
    requires ':' in s
    ensures ParseV4(s) == None
  {
  }

  // ---------------------------------------------------------------------
  // IPv4 masks.

  /** The 32-bit netmask of prefix length p: p one bits, then zeros. */
  function NetmaskValue(p: nat): (m: nat)
    requires p <= 32
    ensures m < Pow2(32)
  {
    Pow2Monotone(32 - p, 32);
    Pow2(32) - Pow2(32 - p)
  }

  /** Distinct prefix lengths have distinct netmasks. */
  lemma NetmaskInjective(p: nat, q: nat)
    requires p <= 32 && q <= 32 && NetmaskValue(p) == NetmaskValue(q)
    ensures p == q
  {
    assert Pow2(32 - p) == Pow2(32 - q);
    Pow2Injective(32 - p, 32 - q);
  }

  /** Search for the prefix length whose netmask is x, from p upwards. */
  function FindPrefix(x: nat, p: nat): (r: Option<nat>)
    requires p <= 33
    ensures r.Some? ==> p <= r.value <= 32 && NetmaskValue(r.value) == x
    ensures r.None? ==> forall q :: p <= q <= 32 ==> NetmaskValue(q) != x
    decreases 33 - p
  {
    if p == 33 then None
    else if NetmaskValue(p) == x then Some(p)
    else FindPrefix(x, p + 1)
  }

  /** The prefix length of a netmask value, if x is one: exactly the p
      with NetmaskValue(p) == x. */
  function MaskPrefix(x: nat): (r: Option<nat>)
    ensures r.Some? ==> r.value <= 32 && NetmaskValue(r.value) == x
    ensures r.None? ==> forall q :: 0 <= q <= 32 ==> NetmaskValue(q) != x
  {
    FindPrefix(x, 0)
  }

  /** The bitwise complement of a 32-bit value. */
  function Invert32(x: nat): nat
    requires x < Pow2(32)
  {
    Pow2(32) - 1 - x
  }

  /** The IPv4 mask text after the '/': a prefix length (ASCII digits, at
      most 32), or else a dotted quad that is a netmask, or else a dotted
      quad that is a hostmask. */
  function PrefixText4(m: string): (r: Option<nat>)
    ensures r.Some? ==> r.value <= 32
    ensures IsDigits(m) ==> r == (if DigitsValue(m) <= 32 then Some(DigitsValue(m)) else None)
    ensures !IsDigits(m) && r.Some? ==> ParseV4(m).Some?
  {
    if IsDigits(m) && DigitsValue(m) <= 32 then Some(DigitsValue(m))
    else
      match ParseV4(m)
      case None => None
      case Some(x) =>
        Pow2Values();
        if MaskPrefix(x).Some? then MaskPrefix(x) else MaskPrefix(Invert32(x))
  }

  /** A dotted mask is read as a netmask first and as a hostmask
      otherwise. */
  lemma DottedMask(x: nat)
    requires x < Pow2(32)
    ensures PrefixText4(FormatV4(x)) == if MaskPrefix(x).Some? then MaskPrefix(x) else MaskPrefix(Invert32(x))
  {
    DottedNotDigits(x);
    ParseFormatV4(x);
  }

  /** The netmask of p is the netmask of p alone. */
  lemma MaskPrefixOf(p: nat)
    requires p <= 32
    ensures MaskPrefix(NetmaskValue(p)) == Some(p)
  {
    var r := MaskPrefix(NetmaskValue(p));
    NetmaskInjective(r.value, p);
  }

  /** A netmask text gives its prefix length. */
  lemma NetmaskText(p: nat)
    requires p <= 32
    ensures PrefixText4(FormatV4(NetmaskValue(p))) == Some(p)
  {
    DottedMask(NetmaskValue(p));
    MaskPrefixOf(p);
  }

  lemma Pow2Even(k: nat)
    requires k >= 1
    ensures Pow2(k) % 2 == 0
  {
  }

  /** For 1 <= p <= 31 the hostmask 2^(32-p) - 1 is odd and below the
      all-ones value, so it is no netmask. */
  lemma HostmaskNotNetmask(p: nat)
    requires 1 <= p <= 31
    ensures forall q :: 0 <= q <= 32 ==> NetmaskValue(q) != Pow2(32 - p) - 1
  {
    forall q | 0 <= q <= 32 ensures NetmaskValue(q) != Pow2(32 - p) - 1 {
      HostmaskNotNetmaskAt(p, q);
    }
  }

  lemma HostmaskNotNetmaskAt(p: nat, q: nat)
    requires 1 <= p <= 31 && q <= 32
    ensures NetmaskValue(q) != Pow2(32 - p) - 1
  {
    if q < 32 {
      HostmaskBelowEven(p, q);
    } else {
      HostmaskBelowAllOnes(p);
    }
  }

  lemma HostmaskBelowEven(p: nat, q: nat)
    requires 1 <= p <= 31 && q < 32
    ensures NetmaskValue(q) != Pow2(32 - p) - 1
  {
    HostmaskOdd(p);
    NetmaskEven(q);
    EvenNotOdd(NetmaskValue(q), Pow2(32 - p) - 1);
  }

  lemma HostmaskBelowAllOnes(p: nat)
    requires 1 <= p <= 31
    ensures NetmaskValue(32) != Pow2(32 - p) - 1
  {
    Pow2StrictMonotone(32 - p, 32);
    AllOnes();
  }

  lemma HostmaskOdd(p: nat)
    requires 1 <= p <= 31
    ensures (Pow2(32 - p) - 1) % 2 == 1
  {
    Pow2Even(32 - p);
    OddPredecessor(Pow2(32 - p));
  }

  lemma OddPredecessor(x: nat)
    requires x >= 1 && x % 2 == 0
    ensures (x - 1) % 2 == 1
  {
  }

  lemma EvenNotOdd(x: int, y: int)
    requires x % 2 == 0 && y % 2 == 1
    ensures x != y
  {
  }

  /** The netmask of /32 is the all-ones value. */
  lemma AllOnes()
    ensures NetmaskValue(32) == Pow2(32) - 1
  {
    assert Pow2(0) == 1;
  }

  /** Every netmask but the all-ones one is even. */
  lemma NetmaskEven(q: nat)
    requires q < 32
    ensures NetmaskValue(q) % 2 == 0
  {
    Pow2Even(32 - q);
    Pow2Even(32);
    Pow2Monotone(32 - q, 32);
    EvenDifference(Pow2(32), Pow2(32 - q));
  }

  lemma EvenDifference(x: nat, y: nat)
    requires x % 2 == 0 && y % 2 == 0 && y <= x
    ensures (x - y) % 2 == 0
  {
  }

  /** A hostmask text gives its prefix length, for 1 <= p <= 31. ("0.0.0.0"
      and "255.255.255.255" are read as netmasks, /0 and /32.) */
  lemma HostmaskText(p: nat)
    requires 1 <= p <= 31
    ensures PrefixText4(FormatV4(Invert32(NetmaskValue(p)))) == Some(p)
  {
    var h := Invert32(NetmaskValue(p));
    HostmaskValue(p);
    DottedMask(h);
    MaskPrefixOf(p);
  }

  /** The hostmask of p is no netmask, and inverting it gives back the
      netmask of p. */
  lemma HostmaskValue(p: nat)
    requires 1 <= p <= 31
    ensures Invert32(NetmaskValue(p)) < Pow2(32)
    ensures MaskPrefix(Invert32(NetmaskValue(p))).None?
    ensures Invert32(Invert32(NetmaskValue(p))) == NetmaskValue(p)
  {
    var h := Invert32(NetmaskValue(p));
    assert h == Pow2(32 - p) - 1;
    HostmaskNotNetmask(p);
  }

  /** A dotted quad is never a plain prefix length. */
  lemma DottedNotDigits(x: nat)
    requires x < Pow2(32)
    ensures !IsDigits(FormatV4(x))
  {
    var m := FormatV4(x);
    assert m[|ShowNat(x / 256 / 256 / 256)|] == '.';
  }

  // ---------------------------------------------------------------------
  // ip_network.

  /** `IPv4Network(text, strict=False)` after the text was split at '/':
      the address, then the mask (absent means /32), then the host bits
      masked off. */
  function Network4(addr: string, mask: Option<string>): (r: Option<Net>)
    ensures r.Some? ==> Valid(32, r.value)
  {
    match ParseV4(addr)
    case None => None
    case Some(a) =>
      Pow2Values();
      var p := if mask.None? then Some(32) else PrefixText4(mask.value);
      match p
      case None => None
      case Some(p) => Some(NetworkOf(32, a, p))
  }

  /** The IPv6 prefix length: ASCII digits, at most 128. */
  function PrefixText6(m: string): (r: Option<nat>)
    ensures r.Some? ==> r.value <= 128
  {
    if IsDigits(m) && DigitsValue(m) <= 128 then Some(DigitsValue(m)) else None
  }

  /** `IPv6Network(text, strict=False)` after the split at '/'. */
  function Network6(addr: string, mask: Option<string>, parse6: string -> Option<Addr6>): (r: Option<Net>)
    ensures r.Some? ==> Valid(128, r.value)
  {
    match parse6(addr)
    case None => None
    case Some(a) =>
      var p := if mask.None? then Some(128) else PrefixText6(mask.value);
      match p
      case None => None
      case Some(p) => Some(NetworkOf(128, a, p))
  }

  /** IPv4 is tried first and, if that fails, IPv6; the family of the
      result is the version that succeeded. */
  function Versions(addr: string, mask: Option<string>, parse6: string -> Option<Addr6>): (r: Option<IpNet>)
    ensures r.Some? ==> Valid(Width(r.value.family), r.value.net)
    ensures Network4(addr, mask).Some? ==> r == Some(IpNet(V4, Network4(addr, mask).value))
    ensures r.Some? && r.value.family == V6 ==> Network4(addr, mask).None? && Network6(addr, mask, parse6) == Some(r.value.net)
    ensures ':' in addr && r.Some? ==> r.value.family == V6
  {
    match Network4(addr, mask)
    case Some(n) => Some(IpNet(V4, n))
    case None =>
      match Network6(addr, mask, parse6)
      case Some(n) => Some(IpNet(V6, n))
      case None => None
  }

  /** `ip_network(text, strict=False)`: at most one '/', separating the
      address from the mask. */
  function IpNetwork(text: string, parse6: string -> Option<Addr6>): (r: Option<IpNet>)
    ensures r.Some? ==> Valid(Width(r.value.family), r.value.net)
  {
    var parts := Split(text, '/');
    if |parts| > 2 then None
    else Versions(parts[0], if |parts| == 2 then Some(parts[1]) else None, parse6)
  }

  /** Text with exactly one '/' is an address and a mask. */
  lemma OneSlash(x: string, m: string, parse6: string -> Option<Addr6>)
    requires '/' !in x && '/' !in m
    ensures IpNetwork(x + "/" + m, parse6) == Versions(x, Some(m), parse6)
  {
    SplitTwo(x, m, '/');
  }

  /** The text of an IPv4 network (`str(net)`): address, '/', prefix length. */
  function Text4(n: Net): string
    requires Valid(32, n)
  {
    FormatV4(n.base) + "/" + ShowNat(n.len)
  }

  lemma FormatNoSlash(a: nat)
    requires a < Pow2(32)
    ensures '/' !in FormatV4(a) && ':' !in FormatV4(a)
  {
    var b0, b1, b2, b3 := a / 256 / 256 / 256, a / 256 / 256 % 256, a / 256 % 256, a % 256;
    ShowNatNoDot(b0); ShowNatNoDot(b1); ShowNatNoDot(b2); ShowNatNoDot(b3);
    NotInFour(ShowNat(b0), ShowNat(b1), ShowNat(b2), ShowNat(b3), '/');
    NotInFour(ShowNat(b0), ShowNat(b1), ShowNat(b2), ShowNat(b3), ':');
  }

  lemma NotInFour(p: string, q: string, r: string, s: string, c: char)
    requires c != '.' && c !in p && c !in q && c !in r && c !in s
    ensures c !in p + "." + q + "." + r + "." + s
  {
  }

  /** A prefix length written in digits is read as itself. */
  lemma PrefixDigits4(p: nat)
    requires p <= 32
    ensures PrefixText4(ShowNat(p)) == Some(p)
  {
  }

  /** IPv4Network of a dotted quad and a prefix length. */
  lemma Network4Text(a: nat, p: nat)
    requires a < Pow2(32) && p <= 32
    ensures Network4(FormatV4(a), Some(ShowNat(p))) == Some(NetworkOf(32, a, p))
  {
    ParseFormatV4(a);
    PrefixDigits4(p);
  }

  /** An IPv4 address with a prefix length gives the network of that
      length containing the address: host bits are cleared, not refused. */
  lemma AddressWithPrefix(a: nat, p: nat, parse6: string -> Option<Addr6>)
    requires a < Pow2(32) && p <= 32
    ensures IpNetwork(FormatV4(a) + "/" + ShowNat(p), parse6) == Some(IpNet(V4, NetworkOf(32, a, p)))
  {
    FormatNoSlash(a);
    ShowNatNoDot(p);
    OneSlash(FormatV4(a), ShowNat(p), parse6);
    Network4Text(a, p);
  }

  /** A well-formed network written out reads back as itself. */
  lemma Text4RoundTrip(n: Net, parse6: string -> Option<Addr6>)
    requires Valid(32, n)
    ensures IpNetwork(Text4(n), parse6) == Some(IpNet(V4, n))
  {
    NetworkOfBase(32, n);
    AddressWithPrefix(n.base, n.len, parse6);
  }

  /** A negative prefix length is refused by both versions. */
  lemma NegativePrefixRefused(x: string, i: int, parse6: string -> Option<Addr6>)
    requires i < 0
    ensures IpNetwork(x + "/" + ShowInt(i), parse6) == None
  {
    if '/' in x {
      SlashInAddress(x, ShowInt(i), parse6);
    } else {
      NegativeMask(i);
      OneSlash(x, ShowInt(i), parse6);
    }
  }

  /** Text with two '/' is no network. */
  lemma SlashInAddress(x: string, m: string, parse6: string -> Option<Addr6>)
    requires '/' in x
    ensures IpNetwork(x + "/" + m, parse6) == None
  {
    var k :| 0 <= k < |x| && x[k] == '/';
    var s := x + "/" + m;
    assert s[k] == '/' && s[|x|] == '/';
    SplitTwoSeps(s, '/', k, |x|);
  }

  /** A negative number is no mask of either version. */
  lemma NegativeMask(i: int)
    requires i < 0
    ensures '/' !in ShowInt(i)
    ensures PrefixText4(ShowInt(i)).None? && PrefixText6(ShowInt(i)).None?
  {
    var m := ShowInt(i);
    ShowNatNoDot(-i);
    MinusNotIn(ShowNat(-i), '/');
    MinusNotIn(ShowNat(-i), '.');
    assert m[0] == '-';
  }

  /** A minus sign in front of text adds no other character. */
  lemma MinusNotIn(d: string, c: char)
    requires c != '-' && c !in d
    ensures c !in "-" + d
  {
    assert forall k :: 1 <= k < |"-" + d| ==> ("-" + d)[k] == d[k - 1];
  }

  /** IPv6 text with a prefix length gives the IPv6 network of that length. */
  lemma V6WithPrefix(x: string, a: Addr6, p: nat, parse6: string -> Option<Addr6>)
    requires '/' !in x && ':' in x && parse6(x) == Some(a) && p <= 128
    ensures IpNetwork(x + "/" + ShowNat(p), parse6) == Some(IpNet(V6, NetworkOf(128, a, p)))
  {
    ShowNatNoDot(p);
    OneSlash(x, ShowNat(p), parse6);
    ColonNotV4(x);
  }

  /** An IPv6 address with a prefix length beyond 128 is refused. */
  lemma V6PrefixTooLong(x: string, p: nat, parse6: string -> Option<Addr6>)
    requires '/' !in x && ':' in x && p > 128
    ensures IpNetwork(x + "/" + ShowNat(p), parse6) == None
  {
    ShowNatNoDot(p);
    OneSlash(x, ShowNat(p), parse6);
    ColonNotV4(x);
  }

  /** The dotted text of 10.0.0.5. */
  lemma FormatExample()
    ensures Pow2(32) == 4294967296 && FormatV4(167772165) == "10.0.0.5"
  {
    Pow2Values();
    ExampleBytes();
    ExampleDigits();
  }

  lemma ExampleDigits()
    ensures ShowNat(10) == "10" && ShowNat(0) == "0" && ShowNat(5) == "5"
  {
    assert ShowNat(1) == "1";
  }

  /** The four bytes of 10.0.0.5. */
  lemma ExampleBytes()
    ensures 167772165 / 256 / 256 / 256 == 10 && 167772165 / 256 / 256 % 256 == 0
    ensures 167772165 / 256 % 256 == 0 && 167772165 % 256 == 5
  {
    var a := 167772165;
    assert a / 256 == 655360 && a % 256 == 5;
    assert 655360 / 256 == 2560 && 655360 % 256 == 0;
    assert 2560 / 256 == 10 && 2560 % 256 == 0;
  }

  /** 10.0.0.5 with prefix 24 is the network 10.0.0.0/24. */
  lemma HostBitsMasked()
    ensures Pow2(32) == 4294967296 && NetworkOf(32, 167772165, 24) == Net(167772160, 24)
  {
    Pow2Values();
  }
}
