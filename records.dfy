/** Reading RIR delegation statistics: each line of a delegated-stats file
    is interpreted on its own (registry|cc|type|start|value|date|status|…),
    and the selected IPv4 and IPv6 records are turned into networks and
    appended, in order, to one list per IP version. */
module Records {
  import opened Wrappers
  import opened Arith
  import opened Text
  import opened Cidr
  import opened Address

  /** Why a line yields no network. */
  datatype Skip =
    | Blank          // empty after stripping
    | Comment        // starts with '#'
    | TooFewFields   // fewer than seven '|'-separated fields
    | NotSelected    // country not targeted, or status not accepted
    | NoNetworkText  // a record type other than ipv4 / ipv6 (asn, …)
    | BadCount       // the IPv4 host count is no integer, or not positive
    | BadNetwork     // ip_network refused the text

  datatype Outcome = Skipped(why: Skip) | Accepted(ipnet: IpNet)

  /** The statuses that are kept. */
  predicate SelectedStatus(s: string) {
    s == "ipv4" || s == "ipv6" || s == "allocated" || s == "assigned"
  }

  /** A record that passes the country and status filter. */
  predicate Selected(fields: seq<string>, countries: set<string>) {
    |fields| >= 7 && Upper(fields[1]) in countries && SelectedStatus(fields[6])
  }

  /** The network text built from a record, before ip_network reads it. */
  datatype Plan = Nothing | CountError | CidrString(text: string)

  /** ipv4: the host count n gives the prefix 32 - floor(log2 n), and a
      count that is no positive integer is an error; ipv6: the value is the
      prefix length itself; other types give no text. */
  function PlanFor(ipType: string, start: string, value: string): (r: Plan)
    ensures ipType == "ipv4" ==> (r.CountError? <==> ParseInt(value).None? || ParseInt(value).value <= 0)
    ensures ipType == "ipv4" && ParseInt(value).Some? && ParseInt(value).value >= 1 ==>
      r == CidrString(start + "/" + ShowInt(32 - Log2Floor(ParseInt(value).value)))
    ensures ipType == "ipv6" ==> r == CidrString(start + "/" + value)
    ensures ipType != "ipv4" && ipType != "ipv6" ==> r == Nothing
  {
    if ipType == "ipv4" then
      match ParseInt(value)
      case None => CountError
      case Some(n) =>
        if n <= 0 then CountError
        else CidrString(start + "/" + ShowInt(32 - Log2Floor(n)))
    else if ipType == "ipv6" then CidrString(start + "/" + value)
    else Nothing
  }

  /** The fields of one data line. */
  function InterpretFields(f: seq<string>, countries: set<string>, parse6: string -> Option<Addr6>): (o: Outcome)
    ensures o.Accepted? ==> Valid(Width(o.ipnet.family), o.ipnet.net)
    ensures o.Accepted? ==> Selected(f, countries) && (f[2] == "ipv4" || f[2] == "ipv6")
    ensures |f| < 7 ==> o == Skipped(TooFewFields)
    ensures |f| >= 7 && !Selected(f, countries) ==> o == Skipped(NotSelected)
    ensures Selected(f, countries) && f[2] == "ipv4" && (ParseInt(f[4]).None? || ParseInt(f[4]).value <= 0)
      ==> o == Skipped(BadCount)
  {
    if |f| < 7 then Skipped(TooFewFields)
    else if !Selected(f, countries) then Skipped(NotSelected)
    else
      match PlanFor(f[2], f[3], f[4])
      case Nothing => Skipped(NoNetworkText)
      case CountError => Skipped(BadCount)
      case CidrString(c) =>
        match IpNetwork(c, parse6)
        case None => Skipped(BadNetwork)
        case Some(n) => Accepted(n)
  }

  /** One line as read from a statistics file. Blank and comment lines
      are skipped; the rest is split at '|'. */
  function Interpret(line: string, countries: set<string>, parse6: string -> Option<Addr6>): (o: Outcome)
    ensures o.Accepted? ==> Valid(Width(o.ipnet.family), o.ipnet.net)
    ensures o.Accepted? ==> Selected(Split(Strip(line), '|'), countries)
    ensures Strip(line) == [] ==> o == Skipped(Blank)
    ensures Strip(line) != [] && Strip(line)[0] == '#' ==> o == Skipped(Comment)
  {
    var t := Strip(line);
    if |t| > 0 && t[0] == '#' then Skipped(Comment)
    else if t == [] then Skipped(Blank)
    else InterpretFields(Split(t, '|'), countries, parse6)
  }

  /** A data line is interpreted through its '|'-separated fields. */
  lemma InterpretDataLine(line: string, countries: set<string>, parse6: string -> Option<Addr6>)
    requires Strip(line) != [] && Strip(line)[0] != '#'
    ensures Interpret(line, countries, parse6) == InterpretFields(Split(Strip(line), '|'), countries, parse6)
  {
  }

  /** A line made of fields, without surrounding whitespace and not a
      comment, is interpreted field by field. */
  lemma InterpretJoined(f: seq<string>, countries: set<string>, parse6: string -> Option<Addr6>)
    requires |f| >= 1 && forall i :: 0 <= i < |f| ==> '|' !in f[i]
    requires Join(f, '|') != [] && Join(f, '|')[0] != '#' && Unpadded(Join(f, '|'))
    ensures Interpret(Join(f, '|'), countries, parse6) == InterpretFields(f, countries, parse6)
  {
    JoinedFields(f);
    InterpretDataLine(Join(f, '|'), countries, parse6);
  }

  /** Such a line is its own stripped text and splits back into f. */
  lemma JoinedFields(f: seq<string>)
    requires |f| >= 1 && forall i :: 0 <= i < |f| ==> '|' !in f[i]
    requires Unpadded(Join(f, '|'))
    ensures Strip(Join(f, '|')) == Join(f, '|') && Split(Join(f, '|'), '|') == f
  {
    StripUnchanged(Join(f, '|'));
    SplitJoin(f, '|');
  }

  /** A selected record whose network text ip_network accepts yields that
      network; one whose text it refuses yields nothing. */
  lemma FieldsToNetwork(f: seq<string>, countries: set<string>, parse6: string -> Option<Addr6>, c: string)
    requires Selected(f, countries) && PlanFor(f[2], f[3], f[4]) == CidrString(c)
    ensures IpNetwork(c, parse6).Some? ==> InterpretFields(f, countries, parse6) == Accepted(IpNetwork(c, parse6).value)
    ensures IpNetwork(c, parse6).None? ==> InterpretFields(f, countries, parse6) == Skipped(BadNetwork)
  {
  }

  /** The IPv4 network text: start address, '/', 32 - floor(log2 n). */
  lemma PlanV4(start: string, value: string, n: int)
    requires ParseInt(value) == Some(n) && n >= 1
    ensures PlanFor("ipv4", start, value) == CidrString(start + "/" + ShowInt(32 - Log2Floor(n)))
  {
  }

  /** A non-negative prefix length is written without a sign. */
  lemma ShowPrefix(p: int)
    requires p >= 0
    ensures ShowInt(p) == ShowNat(p)
  {
  }

  /** The network text of an IPv4 record with a count n in [1, 2^33). */
  lemma V4Text(f: seq<string>, n: int)
    requires |f| >= 7 && f[2] == "ipv4"
    requires ParseInt(f[4]) == Some(n) && 1 <= n < Pow2(33)
    ensures Log2Floor(n) <= 32
    ensures PlanFor(f[2], f[3], f[4]) == CidrString(f[3] + "/" + ShowNat(32 - Log2Floor(n)))
  {
    Log2Below(n, 33);
    ShowPrefix(32 - Log2Floor(n));
    PlanV4(f[3], f[4], n);
  }

  /** A selected IPv4 record whose network text is its start address, '/'
      and a prefix length p <= 32 yields the /p network around the start. */
  lemma V4Accepted(f: seq<string>, countries: set<string>, parse6: string -> Option<Addr6>, a: nat, p: nat)
    requires Selected(f, countries) && a < Pow2(32) && f[3] == FormatV4(a) && p <= 32
    requires PlanFor(f[2], f[3], f[4]) == CidrString(f[3] + "/" + ShowNat(p))
    ensures InterpretFields(f, countries, parse6) == Accepted(IpNet(V4, NetworkOf(32, a, p)))
  {
    AddressWithPrefix(a, p, parse6);
    FieldsToNetwork(f, countries, parse6, FormatV4(a) + "/" + ShowNat(p));
  }

  /** An IPv4 record with a count n in [1, 2^33) yields the network of
      prefix 32 - floor(log2 n) around its start address. */
  lemma V4Record(f: seq<string>, countries: set<string>, parse6: string -> Option<Addr6>, a: nat, n: int)
    requires Selected(f, countries) && f[2] == "ipv4"
    requires a < Pow2(32) && f[3] == FormatV4(a)
    requires ParseInt(f[4]) == Some(n) && 1 <= n < Pow2(33)
    ensures Log2Floor(n) <= 32
    ensures InterpretFields(f, countries, parse6) == Accepted(IpNet(V4, NetworkOf(32, a, 32 - Log2Floor(n))))
  {
    V4Text(f, n);
    V4Accepted(f, countries, parse6, a, 32 - Log2Floor(n));
  }

  /** A count that is a power of two, 2^k hosts with k <= 32, gives
      exactly the /(32 - k) network. */
  lemma PowerOfTwoCount(f: seq<string>, countries: set<string>, parse6: string -> Option<Addr6>, a: nat, k: nat)
    requires Selected(f, countries) && f[2] == "ipv4"
    requires a < Pow2(32) && f[3] == FormatV4(a)
    requires f[4] == ShowNat(Pow2(k)) && k <= 32
    ensures InterpretFields(f, countries, parse6) == Accepted(IpNet(V4, NetworkOf(32, a, 32 - k)))
  {
    PowerCount(k);
    V4Record(f, countries, parse6, a, Pow2(k));
  }

  /** A count that is not a power of two is rounded down: any count from
      2^k up to (not including) 2^(k+1) gives the /(32 - k) network that
      contains the start address. */
  lemma CountRoundsDown(f: seq<string>, countries: set<string>, parse6: string -> Option<Addr6>, a: nat, n: int, k: nat)
    requires Selected(f, countries) && f[2] == "ipv4"
    requires a < Pow2(32) && f[3] == FormatV4(a)
    requires ParseInt(f[4]) == Some(n) && Pow2(k) <= n < Pow2(k + 1) && k <= 32
    ensures InterpretFields(f, countries, parse6) == Accepted(IpNet(V4, NetworkOf(32, a, 32 - k)))
  {
    PlanBetween(f, n, k);
    V4Accepted(f, countries, parse6, a, 32 - k);
  }

  /** The network text of such a count ends in "/" and 32 - k. */
  lemma PlanBetween(f: seq<string>, n: int, k: nat)
    requires |f| >= 7 && f[2] == "ipv4"
    requires ParseInt(f[4]) == Some(n) && Pow2(k) <= n < Pow2(k + 1) && k <= 32
    ensures PlanFor(f[2], f[3], f[4]) == CidrString(f[3] + "/" + ShowNat(32 - k))
  {
    Log2Between(n, k);
    PlanV4(f[3], f[4], n);
    ShowPrefix(32 - k);
  }

  /** A record starting at 10.0.0.5 with 256 hosts gives 10.0.0.0/24: the
      host bits of the start address are masked off. */
  lemma MaskedStart(f: seq<string>, countries: set<string>, parse6: string -> Option<Addr6>)
    requires Selected(f, countries) && f[2] == "ipv4" && f[3] == "10.0.0.5" && f[4] == "256"
    ensures InterpretFields(f, countries, parse6) == Accepted(IpNet(V4, Net(167772160, 24)))
  {
    StartText();
    PowerOfTwoCount(f, countries, parse6, 167772165, 8);
  }

  /** The texts and values of the example above. */
  lemma StartText()
    ensures Pow2(32) == 4294967296 && Pow2(8) == 256
    ensures FormatV4(167772165) == "10.0.0.5" && ShowNat(Pow2(8)) == "256"
    ensures NetworkOf(32, 167772165, 32 - 8) == Net(167772160, 24)
  {
    HostBitsMasked();
    FormatExample();
    CountText();
  }

  lemma CountText()
    ensures Pow2(8) == 256 && ShowNat(256) == "256"
  {
    Pow2Byte();
    assert ShowNat(25) == "25";
  }

  /** The text of 2^k reads back as 2^k, whose floor log2 is k. */
  lemma PowerCount(k: nat)
    requires k <= 32
    ensures ParseInt(ShowNat(Pow2(k))) == Some(Pow2(k)) && Pow2(k) < Pow2(33)
    ensures Log2Floor(Pow2(k)) == k
  {
    ParseShowInt(Pow2(k));
    Pow2StrictMonotone(k, 33);
    Log2FloorOfPow2(k);
  }

  /** A count of 2^33 or more gives a negative prefix length i, namely
      32 - floor(log2 n). */
  lemma HugeText(f: seq<string>, n: int) returns (i: int)
    requires |f| >= 7 && f[2] == "ipv4"
    requires ParseInt(f[4]) == Some(n) && n >= Pow2(33)
    ensures i < 0 && PlanFor(f[2], f[3], f[4]) == CidrString(f[3] + "/" + ShowInt(i))
  {
    Log2AtLeast(n, 33);
    PlanV4(f[3], f[4], n);
    i := 32 - Log2Floor(n);
  }

  /** A network text with a negative prefix length is refused. */
  lemma NegativeRefused(f: seq<string>, countries: set<string>, parse6: string -> Option<Addr6>, i: int)
    requires Selected(f, countries) && i < 0
    requires PlanFor(f[2], f[3], f[4]) == CidrString(f[3] + "/" + ShowInt(i))
    ensures InterpretFields(f, countries, parse6) == Skipped(BadNetwork)
  {
    NegativePrefixRefused(f[3], i, parse6);
    FieldsToNetwork(f, countries, parse6, f[3] + "/" + ShowInt(i));
  }

  /** A count of 2^33 or more would need a negative prefix; the record is
      dropped. */
  lemma HugeCountDropped(f: seq<string>, countries: set<string>, parse6: string -> Option<Addr6>, n: int)
    requires Selected(f, countries) && f[2] == "ipv4"
    requires ParseInt(f[4]) == Some(n) && n >= Pow2(33)
    ensures InterpretFields(f, countries, parse6) == Skipped(BadNetwork)
  {
    var i := HugeText(f, n);
    NegativeRefused(f, countries, parse6, i);
  }

  /** An IPv6 record whose start is IPv6 text and whose value is a prefix
      length up to 128 yields that IPv6 network. */
  lemma V6Record(f: seq<string>, countries: set<string>, parse6: string -> Option<Addr6>, a: Addr6, p: nat)
    requires Selected(f, countries) && f[2] == "ipv6"
    requires '/' !in f[3] && ':' in f[3] && parse6(f[3]) == Some(a)
    requires f[4] == ShowNat(p) && p <= 128
    ensures InterpretFields(f, countries, parse6) == Accepted(IpNet(V6, NetworkOf(128, a, p)))
  {
    V6WithPrefix(f[3], a, p, parse6);
    FieldsToNetwork(f, countries, parse6, f[3] + "/" + ShowNat(p));
  }

  /** An IPv6 record whose value is a prefix length beyond 128 is dropped. */
  lemma V6PrefixOutOfRange(f: seq<string>, countries: set<string>, parse6: string -> Option<Addr6>, p: nat)
    requires Selected(f, countries) && f[2] == "ipv6"
    requires '/' !in f[3] && ':' in f[3]
    requires f[4] == ShowNat(p) && p > 128
    ensures InterpretFields(f, countries, parse6) == Skipped(BadNetwork)
  {
    V6PrefixTooLong(f[3], p, parse6);
    FieldsToNetwork(f, countries, parse6, f[3] + "/" + ShowNat(p));
  }

  /** A record of another type (asn, …) yields nothing, whatever else it
      holds. */
  lemma OtherTypeIgnored(f: seq<string>, countries: set<string>, parse6: string -> Option<Addr6>)
    requires |f| >= 7 && f[2] != "ipv4" && f[2] != "ipv6"
    ensures InterpretFields(f, countries, parse6).Skipped?
  {
  }

  // ---------------------------------------------------------------------
  // Accumulation.

  /** What one outcome adds to the list of family fam. */
  function Contribution(o: Outcome, fam: Family): seq<Net> {
    if o.Accepted? && o.ipnet.family == fam then [o.ipnet.net] else []
  }

  /** The networks of family fam that a run of outcomes yields, in order. */
  function Collected(os: seq<Outcome>, fam: Family): seq<Net> {
    if os == [] then []
    else Collected(os[..|os| - 1], fam) + Contribution(os[|os| - 1], fam)
  }

  /** The interpretation of lines under one selection, as a function from
      line to outcome. */
  function Interpreter(countries: set<string>, parse6: string -> Option<Addr6>): string -> Outcome {
    line => Interpret(line, countries, parse6)
  }

  /** Each line interpreted on its own by interp. */
  function MapLines(interp: string -> Outcome, lines: seq<string>): (os: seq<Outcome>)
    ensures |os| == |lines|
    ensures forall i :: 0 <= i < |lines| ==> os[i] == interp(lines[i])
  {
    seq(|lines|, i requires 0 <= i < |lines| => interp(lines[i]))
  }

  /** The outcome of each line. */
  function Outcomes(lines: seq<string>, countries: set<string>, parse6: string -> Option<Addr6>): seq<Outcome> {
    MapLines(Interpreter(countries, parse6), lines)
  }

  lemma MapLinesConcat(interp: string -> Outcome, a: seq<string>, b: seq<string>)
    ensures MapLines(interp, a + b) == MapLines(interp, a) + MapLines(interp, b)
  {
    var l, r := MapLines(interp, a + b), MapLines(interp, a) + MapLines(interp, b);
    forall i | 0 <= i < |l| ensures l[i] == r[i] {
      if i < |a| {
        assert (a + b)[i] == a[i];
      } else {
        assert (a + b)[i] == b[i - |a|];
      }
    }
  }

  lemma OutcomesConcat(a: seq<string>, b: seq<string>, countries: set<string>, parse6: string -> Option<Addr6>)
    ensures Outcomes(a + b, countries, parse6) == Outcomes(a, countries, parse6) + Outcomes(b, countries, parse6)
  {
    MapLinesConcat(Interpreter(countries, parse6), a, b);
  }

  lemma CollectedSnoc(os: seq<Outcome>, o: Outcome, fam: Family)
    ensures Collected(os + [o], fam) == Collected(os, fam) + Contribution(o, fam)
  {
    assert (os + [o])[..|os|] == os;
  }

  /** Records are interpreted independently: the networks of two runs of
      outcomes are those of each, one after the other. */
  lemma {:induction false} CollectedConcat(a: seq<Outcome>, b: seq<Outcome>, fam: Family)
    ensures Collected(a + b, fam) == Collected(a, fam) + Collected(b, fam)
    decreases |b|
  {
    if b == [] {
      assert a + b == a;
    } else {
      var b' := b[..|b| - 1];
      assert a + b == (a + b') + [b[|b| - 1]];
      CollectedSnoc(a + b', b[|b| - 1], fam);
      CollectedConcat(a, b', fam);
    }
  }

  /** Removing a skipped outcome leaves the collected networks as they
      were. */
  lemma CollectedDropSkip(os: seq<Outcome>, i: nat, fam: Family)
    requires i < |os| && os[i].Skipped?
    ensures Collected(os[..i] + os[i + 1..], fam) == Collected(os, fam)
  {
    var a, x, b := os[..i], os[i], os[i + 1..];
    assert os == (a + [x]) + b;
    SkipBetween(a, x, b, fam);
  }

  lemma SkipBetween(a: seq<Outcome>, x: Outcome, b: seq<Outcome>, fam: Family)
    requires x.Skipped?
    ensures Collected(a + b, fam) == Collected((a + [x]) + b, fam)
  {
    CollectedConcat(a + [x], b, fam);
    CollectedSnoc(a, x, fam);
    assert Collected(a + [x], fam) == Collected(a, fam);
    CollectedConcat(a, b, fam);
  }

  /** Interpreting the lines without line i gives the outcomes without
      outcome i. */
  lemma MapLinesDrop(interp: string -> Outcome, lines: seq<string>, i: nat)
    requires i < |lines|
    ensures MapLines(interp, lines[..i] + lines[i + 1..]) == MapLines(interp, lines)[..i] + MapLines(interp, lines)[i + 1..]
  {
    var l, os := MapLines(interp, lines[..i] + lines[i + 1..]), MapLines(interp, lines);
    var r := os[..i] + os[i + 1..];
    forall j | 0 <= j < |l| ensures l[j] == r[j] {
      if j < i {
        assert (lines[..i] + lines[i + 1..])[j] == lines[j];
      } else {
        assert (lines[..i] + lines[i + 1..])[j] == lines[j + 1];
      }
    }
  }

  /** Dropping a line whose outcome is a skip leaves the collected
      networks as they were. */
  lemma SkippedIrrelevant(interp: string -> Outcome, lines: seq<string>, i: nat, fam: Family)
    requires i < |lines| && interp(lines[i]).Skipped?
    ensures Collected(MapLines(interp, lines[..i] + lines[i + 1..]), fam) == Collected(MapLines(interp, lines), fam)
  {
    MapLinesDrop(interp, lines, i);
    CollectedDropSkip(MapLines(interp, lines), i, fam);
  }

  /** A line that is skipped (malformed, filtered, refused by ip_network)
      changes nothing: without it the lists are the same. */
  lemma SkippedLineIrrelevant(lines: seq<string>, i: nat, fam: Family, countries: set<string>, parse6: string -> Option<Addr6>)
    requires i < |lines| && Interpret(lines[i], countries, parse6).Skipped?
    ensures Collected(Outcomes(lines[..i] + lines[i + 1..], countries, parse6), fam)
      == Collected(Outcomes(lines, countries, parse6), fam)
  {
    SkippedIrrelevant(Interpreter(countries, parse6), lines, i, fam);
  }

  /** A network is in the list of family fam exactly when some outcome
      accepted it as a network of that family. */
  lemma {:induction false} CollectedMembers(os: seq<Outcome>, fam: Family, n: Net)
    ensures n in Collected(os, fam) <==> exists i :: 0 <= i < |os| && os[i] == Accepted(IpNet(fam, n))
    decreases |os|
  {
    if os != [] {
      var init := os[..|os| - 1];
      CollectedMembers(init, fam, n);
      if exists i :: 0 <= i < |os| && os[i] == Accepted(IpNet(fam, n)) {
        var i :| 0 <= i < |os| && os[i] == Accepted(IpNet(fam, n));
        if i < |os| - 1 {
          assert init[i] == os[i];
        }
      }
      if exists i :: 0 <= i < |init| && init[i] == Accepted(IpNet(fam, n)) {
        var i :| 0 <= i < |init| && init[i] == Accepted(IpNet(fam, n));
        assert os[i] == init[i];
      }
    }
  }

  /** Every collected network is well formed for its family. */
  lemma {:induction false} CollectedValid(os: seq<Outcome>, fam: Family)
    requires forall i :: 0 <= i < |os| && os[i].Accepted? ==> Valid(Width(os[i].ipnet.family), os[i].ipnet.net)
    ensures AllValid(Width(fam), Collected(os, fam))
    decreases |os|
  {
    if os != [] {
      CollectedValid(os[..|os| - 1], fam);
    }
  }

  /** The networks read from lines are well formed. */
  lemma LinesValid(lines: seq<string>, fam: Family, countries: set<string>, parse6: string -> Option<Addr6>)
    ensures AllValid(Width(fam), Collected(Outcomes(lines, countries, parse6), fam))
  {
    CollectedValid(Outcomes(lines, countries, parse6), fam);
  }

  // ---------------------------------------------------------------------
  // Reading the registries.

  /** The five regional registries' statistics files, read in this order. */
  const RirUrls: seq<string> := [
    "https://ftp.ripe.net/ripe/stats/delegated-ripencc-latest",
    "https://ftp.arin.net/pub/stats/arin/delegated-arin-latest",
    "https://ftp.apnic.net/pub/stats/apnic/delegated-apnic-latest",
    "https://ftp.lacnic.net/pub/stats/lacnic/delegated-lacnic-latest",
    "https://ftp.afrinic.net/pub/stats/afrinic/delegated-afrinic-latest"
  ]

  /** What reading a response yields at each step: a decoded line, or an
      error (connection, timeout, undecodable bytes) that ends the
      response. */
  datatype Line = Line(text: string) | ReadError

  /** The position of the first error, or the length if there is none. */
  function FirstError(src: seq<Line>): (k: nat)
    ensures k <= |src|
    ensures forall j :: 0 <= j < k ==> src[j].Line?
    ensures k < |src| ==> src[k].ReadError?
  {
    if src == [] || src[0].ReadError? then 0
    else
      var k := FirstError(src[1..]);
      assert forall j :: 1 <= j < k + 1 ==> src[j] == src[1..][j - 1];
      1 + k
  }

  function Texts(src: seq<Line>): seq<string>
    requires forall j :: 0 <= j < |src| ==> src[j].Line?
  {
    seq(|src|, j requires 0 <= j < |src| => src[j].text)
  }

  lemma TextsSnoc(src: seq<Line>, i: nat)
    requires i < |src| && forall j :: 0 <= j <= i ==> src[j].Line?
    ensures Texts(src[..i + 1]) == Texts(src[..i]) + [src[i].text]
  {
    assert forall j :: 0 <= j < i ==> src[..i + 1][j] == src[..i][j];
  }

  /** The lines of a response that are processed: those before the first
      error. */
  function Readable(src: seq<Line>): seq<string> {
    Texts(src[..FirstError(src)])
  }

  /** All processed lines, registry after registry. */
  function AllLines(urls: seq<string>, fetch: string -> seq<Line>): seq<string> {
    if urls == [] then []
    else AllLines(urls[..|urls| - 1], fetch) + Readable(fetch(urls[|urls| - 1]))
  }

  /** An error in one response loses only the rest of that response. */
  lemma ErrorTruncates(src: seq<Line>, i: nat)
    requires i <= |src| && forall j :: 0 <= j < i ==> src[j].Line?
    requires i < |src| ==> src[i].ReadError?
    ensures Readable(src) == Texts(src[..i])
  {
    var k := FirstError(src);
    if k < i {
      assert false;
    } else if k > i {
      assert false;
    }
  }

  /** One more line adds what its outcome contributes. */
  lemma AppendLine(interp: string -> Outcome, done: seq<string>, line: string, fam: Family)
    ensures Collected(MapLines(interp, done + [line]), fam)
      == Collected(MapLines(interp, done), fam) + Contribution(interp(line), fam)
  {
    MapLinesConcat(interp, done, [line]);
    CollectedSnoc(MapLines(interp, done), interp(line), fam);
  }

  /** Reading line i of a response adds what its outcome contributes to
      the list acc built from the lines before it. */
  lemma ReadStep(interp: string -> Outcome, response: seq<Line>, i: nat, base: seq<Net>, acc: seq<Net>, fam: Family)
    requires i < |response| && forall j :: 0 <= j <= i ==> response[j].Line?
    requires acc == base + Collected(MapLines(interp, Texts(response[..i])), fam)
    ensures acc + Contribution(interp(response[i].text), fam)
      == base + Collected(MapLines(interp, Texts(response[..i + 1])), fam)
  {
    TextsSnoc(response, i);
    AppendLine(interp, Texts(response[..i]), response[i].text, fam);
  }

  /** Lines read after others add their own networks after those. */
  lemma AppendLines(done: seq<string>, more: seq<string>, countries: set<string>, parse6: string -> Option<Addr6>, fam: Family)
    ensures Collected(Outcomes(done + more, countries, parse6), fam)
      == Collected(Outcomes(done, countries, parse6), fam) + Collected(Outcomes(more, countries, parse6), fam)
  {
    OutcomesConcat(done, more, countries, parse6);
    CollectedConcat(Outcomes(done, countries, parse6), Outcomes(more, countries, parse6), fam);
  }

  /** The lines of one more registry follow those before it. */
  lemma AppendRegistry(urls: seq<string>, u: nat, fetch: string -> seq<Line>)
    requires u < |urls|
    ensures AllLines(urls[..u + 1], fetch) == AllLines(urls[..u], fetch) + Readable(fetch(urls[u]))
  {
    assert urls[..u + 1][..u] == urls[..u];
  }

  /** Reads one response line by line, up to its first error, interpreting
      each line with interp and appending each accepted network to the
      list of its version. */
  method ReadResponse(interp: string -> Outcome, response: seq<Line>, v4In: seq<Net>, v6In: seq<Net>)
    returns (v4: seq<Net>, v6: seq<Net>)
    ensures v4 == v4In + Collected(MapLines(interp, Readable(response)), V4)
    ensures v6 == v6In + Collected(MapLines(interp, Readable(response)), V6)
  {
    v4, v6 := v4In, v6In;
    var i := 0;
    while i < |response| && response[i].Line?
      invariant i <= |response|
      invariant forall j :: 0 <= j < i ==> response[j].Line?
      invariant v4 == v4In + Collected(MapLines(interp, Texts(response[..i])), V4)
      invariant v6 == v6In + Collected(MapLines(interp, Texts(response[..i])), V6)
    {
      var line := response[i].text;
      var o := interp(line);
      ReadStep(interp, response, i, v4In, v4, V4);
      ReadStep(interp, response, i, v6In, v6, V6);
      if o.Accepted? {
        if o.ipnet.family == V4 {
          v4 := v4 + [o.ipnet.net];
        } else {
          v6 := v6 + [o.ipnet.net];
        }
      }
      i := i + 1;
    }
    ErrorTruncates(response, i);
  }

  /** Reads every registry in turn and appends each accepted network to the
      list of its own version; the other list is left as it was. */
  method FetchAndAggregate(countries: set<string>, fetch: string -> seq<Line>, parse6: string -> Option<Addr6>)
    returns (v4: seq<Net>, v6: seq<Net>)
    ensures v4 == Collected(Outcomes(AllLines(RirUrls, fetch), countries, parse6), V4)
    ensures v6 == Collected(Outcomes(AllLines(RirUrls, fetch), countries, parse6), V6)
  {
    v4, v6 := [], [];
    for u := 0 to |RirUrls|
      invariant v4 == Collected(Outcomes(AllLines(RirUrls[..u], fetch), countries, parse6), V4)
      invariant v6 == Collected(Outcomes(AllLines(RirUrls[..u], fetch), countries, parse6), V6)
    {
      ghost var before := AllLines(RirUrls[..u], fetch);
      var response := fetch(RirUrls[u]);
      v4, v6 := ReadResponse(Interpreter(countries, parse6), response, v4, v6);
      AppendLines(before, Readable(response), countries, parse6, V4);
      AppendLines(before, Readable(response), countries, parse6, V6);
      AppendRegistry(RirUrls, u, fetch);
    }
    assert RirUrls[..|RirUrls|] == RirUrls;
  }
}
