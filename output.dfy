/** Writing the result: each family's networks are collapsed, then the
    IPv4 networks are written, then the IPv6 networks, one per line, and the
    lines are counted. The output file is modelled as the sequence of
    networks written. */
module Output {
  import opened Wrappers
  import opened Arith
  import opened Cidr
  import opened Address
  import opened Collapse
  import opened Records

  /** One family's networks, each tagged with its version. */
  function Tag(fam: Family, nets: seq<Net>): (r: seq<IpNet>)
    ensures |r| == |nets|
    ensures forall i :: 0 <= i < |r| ==> r[i].family == fam && r[i].net == nets[i]
  {
    seq(|nets|, i requires 0 <= i < |nets| => IpNet(fam, nets[i]))
  }

  lemma TagSnoc(fam: Family, nets: seq<Net>, i: nat)
    requires i < |nets|
    ensures Tag(fam, nets[..i + 1]) == Tag(fam, nets[..i]) + [IpNet(fam, nets[i])]
  {
  }

  /** Tagging loses nothing: equal tagged sequences come from equal ones. */
  lemma TagInjective(fam: Family, a: seq<Net>, b: seq<Net>)
    requires Tag(fam, a) == Tag(fam, b)
    ensures a == b
  {
    assert |a| == |b|;
    forall i | 0 <= i < |a|
      ensures a[i] == b[i]
    {
      assert Tag(fam, a)[i].net == a[i] && Tag(fam, b)[i].net == b[i];
    }
  }

  /** out is what is written for the collected v4 and v6 networks: a
      collapse of v4, then a collapse of v6. */
  ghost predicate Written(out: seq<IpNet>, v4: seq<Net>, v6: seq<Net>) {
    exists a4, a6 :: out == Tag(V4, a4) + Tag(V6, a6) && IsCollapseOf(32, a4, v4) && IsCollapseOf(128, a6, v6)
  }

  /** Collapse both lists, write the IPv4 networks and then the IPv6
      networks, counting each line written. */
  method SaveAggregated(v4: seq<Net>, v6: seq<Net>) returns (out: seq<IpNet>, count: nat)
    requires AllValid(32, v4) && AllValid(128, v6)
    ensures Written(out, v4, v6)
    ensures count == |out|
  {
    var aggr4 := CollapseAddresses(32, v4);
    var aggr6 := CollapseAddresses(128, v6);
    out, count := [], 0;
    for i := 0 to |aggr4|
      invariant out == Tag(V4, aggr4[..i]) && count == |out|
    {
      TagSnoc(V4, aggr4, i);
      out := out + [IpNet(V4, aggr4[i])];
      count := count + 1;
    }
    assert aggr4[..|aggr4|] == aggr4;
    for i := 0 to |aggr6|
      invariant out == Tag(V4, aggr4) + Tag(V6, aggr6[..i]) && count == |out|
    {
      TagSnoc(V6, aggr6, i);
      out := out + [IpNet(V6, aggr6[i])];
      count := count + 1;
    }
    assert aggr6[..|aggr6|] == aggr6;
  }

  /** The written output is determined by the two input lists: any two
      outputs that satisfy the description are the same sequence. */
  lemma WrittenUnique(out: seq<IpNet>, out': seq<IpNet>, v4: seq<Net>, v6: seq<Net>)
    requires Written(out, v4, v6) && Written(out', v4, v6)
    ensures out == out'
  {
    var a4, a6 :| out == Tag(V4, a4) + Tag(V6, a6) && IsCollapseOf(32, a4, v4) && IsCollapseOf(128, a6, v6);
    var b4, b6 :| out' == Tag(V4, b4) + Tag(V6, b6) && IsCollapseOf(32, b4, v4) && IsCollapseOf(128, b6, v6);
    CollapsedUnique(32, a4, b4);
    CollapsedUnique(128, a6, b6);
  }

  /** Every IPv4 line comes before every IPv6 line, and each line is a
      well-formed network of its version. */
  lemma WrittenOrder(out: seq<IpNet>, v4: seq<Net>, v6: seq<Net>)
    requires Written(out, v4, v6)
    ensures forall i, j :: 0 <= i < j < |out| && out[i].family == V6 ==> out[j].family == V6
    ensures forall i :: 0 <= i < |out| ==> Valid(Width(out[i].family), out[i].net)
  {
    var a4, a6 :| out == Tag(V4, a4) + Tag(V6, a6) && IsCollapseOf(32, a4, v4) && IsCollapseOf(128, a6, v6);
    forall i | 0 <= i < |out|
      ensures out[i].family == (if i < |a4| then V4 else V6)
      ensures Valid(Width(out[i].family), out[i].net)
    {
      if i < |a4| {
        assert out[i] == Tag(V4, a4)[i];
      } else {
        assert out[i] == Tag(V6, a6)[i - |a4|];
      }
    }
  }

  /** With nothing collected, nothing is written and the count is zero. */
  lemma NothingWritten(out: seq<IpNet>)
    requires Written(out, [], [])
    ensures out == []
  {
    var a4, a6 :| out == Tag(V4, a4) + Tag(V6, a6) && IsCollapseOf(32, a4, []) && IsCollapseOf(128, a6, []);
    CollapseOfEmpty(32, a4);
    CollapseOfEmpty(128, a6);
  }

  /** The body of the program: collect the selected networks from the
      registries, then collapse and write them. */
  method Aggregate(countries: set<string>, fetch: string -> seq<Line>, parse6: string -> Option<Addr6>)
    returns (out: seq<IpNet>, count: nat)
    ensures Written(out, Collected(Outcomes(AllLines(RirUrls, fetch), countries, parse6), V4),
                         Collected(Outcomes(AllLines(RirUrls, fetch), countries, parse6), V6))
    ensures count == |out|
  {
    var v4, v6 := FetchAndAggregate(countries, fetch, parse6);
    LinesValid(AllLines(RirUrls, fetch), V4, countries, parse6);
    LinesValid(AllLines(RirUrls, fetch), V6, countries, parse6);
    out, count := SaveAggregated(v4, v6);
  }
}
