/** Collapsing a list of same-version networks into the fewest equivalent
    blocks, as `ipaddress.collapse_addresses` does it: a worklist of
    networks keyed by their supernet, where two distinct networks that
    meet under one supernet are replaced by that supernet, followed by a
    pass over the surviving networks in sorted order that drops every
    network inside the last one kept. */
module Collapse {
  import opened Wrappers
  import opened Arith
  import opened Cidr

  /** The order networks sort in: by base address, then by prefix length
      (a shorter netmask sorts first). */
  predicate Before(x: Net, y: Net) {
    x.base < y.base || (x.base == y.base && x.len < y.len)
  }

  predicate Sorted(s: seq<Net>) {
    forall i, j :: 0 <= i < j < |s| ==> Before(s[i], s[j])
  }

  /** Inserts x into a sorted sequence at its place. */
  function Insert(s: seq<Net>, x: Net): (r: seq<Net>)
    requires Sorted(s) && x !in s
    ensures Sorted(r) && |r| == |s| + 1
    ensures forall y :: y in r <==> y in s || y == x
  {
    if s == [] then [x]
    else if Before(x, s[0]) then [x] + s
    else
      var rest := Insert(s[1..], x);
      assert forall y :: y in rest ==> Before(s[0], y);
      [s[0]] + rest
  }

  /** Address a lies in some network stored in m. */
  predicate CoversValues(w: nat, m: map<Net, Net>, a: nat) {
    exists k :: k in m && Contains(w, m[k], a)
  }

  /** Every stored network is valid and filed under its own supernet. */
  ghost predicate KeyedBySupernet(w: nat, m: map<Net, Net>) {
    forall k :: k in m ==> Valid(w, m[k]) && Supernet(w, m[k]) == k
  }

  lemma CoversSnoc(w: nat, s: seq<Net>, x: Net)
    ensures forall a :: Covers(w, s + [x], a) <==> Covers(w, s, a) || Contains(w, x, a)
  {
    forall a | Covers(w, s + [x], a)
      ensures Covers(w, s, a) || Contains(w, x, a)
    {
      var i :| 0 <= i < |s + [x]| && Contains(w, (s + [x])[i], a);
      if i < |s| {
        assert s[i] == (s + [x])[i];
      }
    }
    forall a | Covers(w, s, a)
      ensures Covers(w, s + [x], a)
    {
      var i :| 0 <= i < |s| && Contains(w, s[i], a);
      assert (s + [x])[i] == s[i];
    }
    forall a | Contains(w, x, a)
      ensures Covers(w, s + [x], a)
    {
      assert (s + [x])[|s|] == x;
    }
  }

  lemma CoversValuesInsert(w: nat, m: map<Net, Net>, k: Net, v: Net)
    requires k !in m
    ensures forall a :: CoversValues(w, m[k := v], a) <==> CoversValues(w, m, a) || Contains(w, v, a)
  {
    forall a | CoversValues(w, m, a)
      ensures CoversValues(w, m[k := v], a)
    {
      var j :| j in m && Contains(w, m[j], a);
      assert j in m[k := v] && m[k := v][j] == m[j];
    }
    forall a | CoversValues(w, m[k := v], a)
      ensures CoversValues(w, m, a) || Contains(w, v, a)
    {
      var j :| j in m[k := v] && Contains(w, m[k := v][j], a);
      if j != k {
        assert j in m && m[j] == m[k := v][j];
      }
    }
    forall a | Contains(w, v, a)
      ensures CoversValues(w, m[k := v], a)
    {
      assert k in m[k := v] && m[k := v][k] == v;
    }
  }

  lemma CoversValuesRemove(w: nat, m: map<Net, Net>, k: Net)
    requires k in m
    ensures forall a :: CoversValues(w, m, a) <==> CoversValues(w, m - {k}, a) || Contains(w, m[k], a)
  {
    forall a | CoversValues(w, m, a)
      ensures CoversValues(w, m - {k}, a) || Contains(w, m[k], a)
    {
      var j :| j in m && Contains(w, m[j], a);
      if j != k {
        assert j in m - {k} && (m - {k})[j] == m[j];
      }
    }
  }

  /** The state of the merge phase: networks still to merge, and stored
      networks keyed by supernet, that together cover what the input
      covers. */
  ghost predicate MergeState(w: nat, addresses: seq<Net>, toMerge: seq<Net>, subnets: map<Net, Net>) {
    AllValid(w, toMerge) && KeyedBySupernet(w, subnets)
    && forall a :: Covers(w, addresses, a) <==> Covers(w, toMerge, a) || CoversValues(w, subnets, a)
  }

  /** A network whose supernet is not yet a key is stored under it. */
  lemma StoreStep(w: nat, addresses: seq<Net>, rest: seq<Net>, net: Net, subnets: map<Net, Net>)
    requires MergeState(w, addresses, rest + [net], subnets) && Valid(w, net) && Supernet(w, net) !in subnets
    ensures MergeState(w, addresses, rest, subnets[Supernet(w, net) := net])
  {
    AllValidSplit(w, rest, net);
    CoversSnoc(w, rest, net);
    CoversValuesInsert(w, subnets, Supernet(w, net), net);
  }

  /** A second, different network under the same supernet: the stored one
      is removed and the supernet is merged further. */
  lemma MergeStep(w: nat, addresses: seq<Net>, rest: seq<Net>, net: Net, subnets: map<Net, Net>)
    requires MergeState(w, addresses, rest + [net], subnets) && Valid(w, net)
    requires Supernet(w, net) in subnets && subnets[Supernet(w, net)] != net
    ensures MergeState(w, addresses, rest + [Supernet(w, net)], subnets - {Supernet(w, net)})
  {
    var supernet := Supernet(w, net);
    AllValidSplit(w, rest, net);
    AllValidSnoc(w, rest, supernet);
    KeyedRemove(w, subnets, supernet);
    MergeCovers(w, rest, net, subnets);
    forall a
      ensures Covers(w, addresses, a) <==> Covers(w, rest + [supernet], a) || CoversValues(w, subnets - {supernet}, a)
    {
      assert Covers(w, addresses, a) <==> Covers(w, rest + [net], a) || CoversValues(w, subnets, a);
    }
  }

  lemma AllValidSplit(w: nat, s: seq<Net>, x: Net)
    requires AllValid(w, s + [x])
    ensures AllValid(w, s) && Valid(w, x)
  {
    assert (s + [x])[|s|] == x;
    assert forall i :: 0 <= i < |s| ==> s[i] == (s + [x])[i];
  }

  lemma AllValidSnoc(w: nat, s: seq<Net>, x: Net)
    requires AllValid(w, s) && Valid(w, x)
    ensures AllValid(w, s + [x])
  {
    assert forall i :: 0 <= i < |s| ==> (s + [x])[i] == s[i];
  }

  lemma KeyedRemove(w: nat, m: map<Net, Net>, k: Net)
    requires KeyedBySupernet(w, m)
    ensures KeyedBySupernet(w, m - {k})
  {
  }

  /** Replacing two networks by their common supernet covers the same. */
  lemma MergeCovers(w: nat, rest: seq<Net>, net: Net, subnets: map<Net, Net>)
    requires Valid(w, net) && KeyedBySupernet(w, subnets)
    requires Supernet(w, net) in subnets && subnets[Supernet(w, net)] != net
    ensures forall a ::
      (Covers(w, rest + [net], a) || CoversValues(w, subnets, a)) <==>
      (Covers(w, rest + [Supernet(w, net)], a) || CoversValues(w, subnets - {Supernet(w, net)}, a))
  {
    var supernet := Supernet(w, net);
    CoversSnoc(w, rest, net);
    CoversValuesRemove(w, subnets, supernet);
    MergeCover(w, net, subnets[supernet]);
    CoversSnoc(w, rest, supernet);
  }

  /** A network already stored under its supernet adds nothing. */
  lemma DuplicateStep(w: nat, addresses: seq<Net>, rest: seq<Net>, net: Net, subnets: map<Net, Net>)
    requires MergeState(w, addresses, rest + [net], subnets) && Valid(w, net)
    requires Supernet(w, net) in subnets && subnets[Supernet(w, net)] == net
    ensures MergeState(w, addresses, rest, subnets)
  {
    AllValidSplit(w, rest, net);
    CoversSnoc(w, rest, net);
  }

  /** The merge phase (the first loop of `_collapse_addresses_internal`):
      its result covers exactly what the input covers, and holds at most
      one network per supernet. */
  method MergeBySupernet(w: nat, addresses: seq<Net>) returns (subnets: map<Net, Net>)
    requires AllValid(w, addresses)
    ensures KeyedBySupernet(w, subnets)
    ensures forall a :: Covers(w, addresses, a) <==> CoversValues(w, subnets, a)
  {
    var toMerge := addresses;
    subnets := map[];
    while |toMerge| > 0
      invariant MergeState(w, addresses, toMerge, subnets)
      decreases 2 * |toMerge| + |subnets|
    {
      var net := toMerge[|toMerge| - 1];
      ghost var before := toMerge;
      toMerge := toMerge[..|toMerge| - 1];
      assert before == toMerge + [net];
      var supernet := Supernet(w, net);
      if supernet !in subnets {
        StoreStep(w, addresses, toMerge, net, subnets);
        subnets := subnets[supernet := net];
      } else {
        var existing := subnets[supernet];
        if existing != net {
          // merge consecutive subnets
          MergeStep(w, addresses, toMerge, net, subnets);
          assert (subnets - {supernet}).Keys == subnets.Keys - {supernet};
          subnets := subnets - {supernet};
          toMerge := toMerge + [supernet];
        } else {
          DuplicateStep(w, addresses, toMerge, net, subnets);
        }
      }
    }
  }

  /** The stored networks in sorted order (`sorted(subnets.values())`). */
  method SortedValues(m: map<Net, Net>) returns (s: seq<Net>)
    ensures Sorted(s)
    ensures forall x :: x in s <==> x in m.Values
  {
    var rest := m.Values;
    s := [];
    while rest != {}
      invariant rest <= m.Values && Sorted(s)
      invariant forall x :: x in s <==> x in m.Values && x !in rest
      decreases |rest|
    {
      var v :| v in rest;
      s := Insert(s, v);
      rest := rest - {v};
    }
  }

  /** Two distinct stored networks never have the same supernet, so no two
      of them are mergeable halves. */
  lemma ValuesNotMergeable(w: nat, m: map<Net, Net>, x: Net, y: Net)
    requires KeyedBySupernet(w, m) && x in m.Values && y in m.Values
    ensures !Mergeable(w, x, y)
  {
    var kx :| kx in m && m[kx] == x;
    var ky :| ky in m && m[ky] == y;
    if Mergeable(w, x, y) {
      MergeableSiblings(w, x, y);
    }
  }

  /** In sorted order, a network that reaches no further than the last
      network kept lies inside it. */
  lemma SubsumedByLast(w: nat, last: Net, net: Net, a: nat)
    requires Valid(w, last) && Valid(w, net) && Before(last, net)
    requires net.base + Size(w, net) <= last.base + Size(w, last)
    requires Contains(w, net, a)
    ensures Contains(w, last, a)
  {
  }

  /** In sorted order, a network that reaches further than the last
      network kept starts after it ends. */
  lemma StartsAfterLast(w: nat, last: Net, net: Net)
    requires Valid(w, last) && Valid(w, net) && Before(last, net)
    requires last.base + Size(w, last) < net.base + Size(w, net)
    ensures last.base + Size(w, last) <= net.base
  {
    if net.base < last.base + Size(w, last) {
      assert Contains(w, last, net.base) && Contains(w, net, net.base);
      if last.len <= net.len {
        Laminar(w, last, net, net.base);
      } else {
        Laminar(w, net, last, net.base);
      }
    }
  }

  /** The second loop of `_collapse_addresses_internal`: in sorted order,
      every network inside the last one kept is dropped. The result covers
      what the input covers, is ascending and disjoint, and keeps only
      input networks. */
  method DropSubsumed(w: nat, values: seq<Net>) returns (r: seq<Net>)
    requires AllValid(w, values) && Sorted(values)
    ensures AllValid(w, r) && Ascending(w, r)
    ensures forall j :: 0 <= j < |r| ==> r[j] in values
    ensures forall a :: Covers(w, r, a) <==> Covers(w, values, a)
  {
    r := [];
    var last: Option<Net> := None;
    ghost var li: nat := 0;
    for i := 0 to |values|
      invariant i <= |values| && AllValid(w, r)
      invariant Ascending(w, r)
      invariant forall j :: 0 <= j < |r| ==> r[j] in values
      invariant last.None? <==> r == []
      invariant last.Some? ==> last.value == r[|r| - 1] && li < i && values[li] == last.value
      invariant forall a :: Covers(w, r, a) <==> Covers(w, values[..i], a)
    {
      var net := values[i];
      if last.Some? && last.value.base + Size(w, last.value) >= net.base + Size(w, net) {
        // net lies inside last: skip it
        DropNext(w, values, i, r, last, li);
      } else {
        KeepNext(w, values, i, r, last, li);
        r, last, li := r + [net], Some(net), i;
      }
    }
    assert values[..|values|] == values;
  }

  /** The loop state of DropSubsumed after the first i sorted networks:
      r holds the networks kept so far, ascending and disjoint, covering
      what those i networks cover; last is the last one kept, at li. */
  ghost predicate DropState(w: nat, values: seq<Net>, i: nat, r: seq<Net>, last: Option<Net>, li: nat) {
    && i <= |values| && AllValid(w, r) && Ascending(w, r)
    && (forall j :: 0 <= j < |r| ==> r[j] in values)
    && (last.None? <==> r == [])
    && (last.Some? ==> last.value == r[|r| - 1] && li < i && values[li] == last.value)
    && (forall a :: Covers(w, r, a) <==> Covers(w, values[..i], a))
  }

  lemma DropNext(w: nat, values: seq<Net>, i: nat, r: seq<Net>, last: Option<Net>, li: nat)
    requires AllValid(w, values) && Sorted(values) && DropState(w, values, i, r, last, li) && i < |values|
    requires last.Some? && last.value.base + Size(w, last.value) >= values[i].base + Size(w, values[i])
    ensures DropState(w, values, i + 1, r, last, li)
  {
    DropStep(w, r, values, i);
  }

  lemma KeepNext(w: nat, values: seq<Net>, i: nat, r: seq<Net>, last: Option<Net>, li: nat)
    requires AllValid(w, values) && Sorted(values) && DropState(w, values, i, r, last, li) && i < |values|
    requires !(last.Some? && last.value.base + Size(w, last.value) >= values[i].base + Size(w, values[i]))
    ensures DropState(w, values, i + 1, r + [values[i]], Some(values[i]), i)
  {
    if last.Some? {
      StartsAfterLast(w, last.value, values[i]);
    }
    KeepStep(w, r, values, i);
    var r' := r + [values[i]];
    assert forall j :: 0 <= j < |r| ==> r'[j] == r[j];
  }

  /** Skipping a network whose addresses are already covered keeps the
      cover equal to that of the networks seen. */
  lemma DropStep(w: nat, r: seq<Net>, values: seq<Net>, i: nat)
    requires i < |values| && r != [] && Valid(w, r[|r| - 1]) && Valid(w, values[i])
    requires Before(r[|r| - 1], values[i])
    requires values[i].base + Size(w, values[i]) <= r[|r| - 1].base + Size(w, r[|r| - 1])
    requires forall a :: Covers(w, r, a) <==> Covers(w, values[..i], a)
    ensures forall a :: Covers(w, r, a) <==> Covers(w, values[..i + 1], a)
  {
    forall a | Contains(w, values[i], a)
      ensures Covers(w, r, a)
    {
      SubsumedByLast(w, r[|r| - 1], values[i], a);
    }
    assert values[..i + 1] == values[..i] + [values[i]];
    CoversSnoc(w, values[..i], values[i]);
  }

  /** Keeping a network that starts after the last one kept. */
  lemma KeepStep(w: nat, r: seq<Net>, values: seq<Net>, i: nat)
    requires i < |values| && AllValid(w, r) && Ascending(w, r) && Valid(w, values[i])
    requires r != [] ==> r[|r| - 1].base + Size(w, r[|r| - 1]) <= values[i].base
    requires forall a :: Covers(w, r, a) <==> Covers(w, values[..i], a)
    ensures AllValid(w, r + [values[i]]) && Ascending(w, r + [values[i]])
    ensures forall a :: Covers(w, r + [values[i]], a) <==> Covers(w, values[..i + 1], a)
  {
    assert values[..i + 1] == values[..i] + [values[i]];
    CoversSnoc(w, r, values[i]);
    CoversSnoc(w, values[..i], values[i]);
    AscendingSnoc(w, r, values[i]);
  }

  lemma AscendingSnoc(w: nat, r: seq<Net>, net: Net)
    requires AllValid(w, r) && Ascending(w, r) && Valid(w, net)
    requires r != [] ==> r[|r| - 1].base + Size(w, r[|r| - 1]) <= net.base
    ensures AllValid(w, r + [net]) && Ascending(w, r + [net])
  {
    var s := r + [net];
    forall i | 0 <= i < |s| ensures Valid(w, s[i]) {
      if i < |r| {
        assert s[i] == r[i];
      }
    }
    forall i, j | 0 <= i < j < |s| ensures s[i].base + Size(w, s[i]) <= s[j].base {
      assert s[i] == r[i];
      if j < |r| {
        assert s[j] == r[j];
      } else if i < |r| - 1 {
        assert r[i].base + Size(w, r[i]) <= r[|r| - 1].base;
      }
    }
  }

  /** The sorted values cover what the map's values cover. */
  lemma ValuesCover(w: nat, subnets: map<Net, Net>, values: seq<Net>)
    requires forall x :: x in values <==> x in subnets.Values
    ensures forall a :: Covers(w, values, a) <==> CoversValues(w, subnets, a)
  {
    forall a
      ensures Covers(w, values, a) <==> CoversValues(w, subnets, a)
    {
      if Covers(w, values, a) {
        var i :| 0 <= i < |values| && Contains(w, values[i], a);
        assert values[i] in subnets.Values;
      }
      if CoversValues(w, subnets, a) {
        var k :| k in subnets && Contains(w, subnets[k], a);
        assert subnets[k] in values;
      }
    }
  }

  /** `ipaddress.collapse_addresses` on networks of one version: the
      result is the collapsed form of the input, that is, it covers the
      same addresses, is sorted and disjoint, and has no mergeable pair. */
  method CollapseAddresses(w: nat, addresses: seq<Net>) returns (r: seq<Net>)
    requires AllValid(w, addresses)
    ensures IsCollapseOf(w, r, addresses)
  {
    var subnets := MergeBySupernet(w, addresses);
    var values := SortedValues(subnets);
    forall i | 0 <= i < |values|
      ensures Valid(w, values[i])
    {
      assert values[i] in subnets.Values;
    }
    r := DropSubsumed(w, values);
    ValuesCover(w, subnets, values);
    forall i, j | 0 <= i < |r| && 0 <= j < |r|
      ensures !Mergeable(w, r[i], r[j])
    {
      ValuesNotMergeable(w, subnets, r[i], r[j]);
    }
  }

  // ---------------------------------------------------------------------
  // Consequences of uniqueness, and the worked examples of aggregation.

  /** Collapsing nothing yields nothing. */
  lemma CollapseOfEmpty(w: nat, r: seq<Net>)
    requires IsCollapseOf(w, r, [])
    ensures r == []
  {
    if r != [] {
      assert Contains(w, r[0], r[0].base);
      assert Covers(w, r, r[0].base);
    }
  }

  /** Collapsing an already collapsed list changes nothing. */
  lemma CollapseIdempotent(w: nat, input: seq<Net>, r: seq<Net>, r2: seq<Net>)
    requires IsCollapseOf(w, r, input) && IsCollapseOf(w, r2, r)
    ensures r2 == r
  {
    CollapsedUnique(w, r2, r);
  }

  /** The result depends only on the addresses covered, not on the order,
      the duplicates or the shape of the input networks. */
  lemma CollapseDependsOnCoverOnly(w: nat, s: seq<Net>, t: seq<Net>, r: seq<Net>, q: seq<Net>)
    requires SameCover(w, s, t) && IsCollapseOf(w, r, s) && IsCollapseOf(w, q, t)
    ensures r == q
  {
    CollapsedUnique(w, r, q);
  }

  lemma SmallPowers()
    ensures Pow2(6) == 64 && Pow2(7) == 128 && Pow2(8) == 256 && Pow2(32) == 4294967296
  {
    Pow2Values();
  }

  /** 10.0.0.0/24 as a 32-bit network. */
  function Net24(): Net { Net(167772160, 24) }

  /** A single /24 is collapsed (the target of the examples below). */
  lemma Net24Collapsed()
    ensures Collapsed(32, [Net24()])
  {
    SmallPowers();
  }

  /** A group of blocks that together fill 10.0.0.0/24 collapses to it. */
  lemma FillsNet24(parts: seq<Net>, r: seq<Net>)
    requires IsCollapseOf(32, r, parts)
    requires forall i :: 0 <= i < |parts| ==> Contains(32, parts[i], parts[i].base)
    requires forall i, a :: 0 <= i < |parts| && Contains(32, parts[i], a) ==> Contains(32, Net24(), a)
    requires forall a :: Contains(32, Net24(), a) ==> Covers(32, parts, a)
    ensures r == [Net24()]
  {
    Net24Collapsed();
    var c := [Net24()];
    forall a
      ensures Covers(32, c, a) <==> Covers(32, parts, a)
    {
      if Covers(32, c, a) {
        assert Contains(32, c[0], a);
      }
      if Covers(32, parts, a) {
        var i :| 0 <= i < |parts| && Contains(32, parts[i], a);
        assert Contains(32, c[0], a);
      }
    }
    CollapsedUnique(32, r, c);
  }

  /** 10.0.0.0/25 and 10.0.0.128/25 collapse to 10.0.0.0/24. */
  lemma SiblingsMerge(r: seq<Net>)
    requires IsCollapseOf(32, r, [Net(167772160, 25), Net(167772288, 25)])
    ensures r == [Net24()]
  {
    SmallPowers();
    var parts := [Net(167772160, 25), Net(167772288, 25)];
    forall a: nat | Contains(32, Net24(), a)
      ensures Covers(32, parts, a)
    {
      if a < 167772288 {
        assert Contains(32, parts[0], a);
      } else {
        assert Contains(32, parts[1], a);
      }
    }
    FillsNet24(parts, r);
  }

  /** 10.0.0.0/24 and 10.0.0.0/25 collapse to 10.0.0.0/24: the contained
      network is dropped. */
  lemma ContainedDropped(r: seq<Net>)
    requires IsCollapseOf(32, r, [Net24(), Net(167772160, 25)])
    ensures r == [Net24()]
  {
    SmallPowers();
    var parts := [Net24(), Net(167772160, 25)];
    forall a: nat | Contains(32, Net24(), a)
      ensures Covers(32, parts, a)
    {
      assert Contains(32, parts[0], a);
    }
    FillsNet24(parts, r);
  }

  /** 10.0.0.0/25 and 10.0.1.128/25 are not halves of one block: both
      survive unchanged. */
  lemma NonSiblingsKept(r: seq<Net>)
    requires IsCollapseOf(32, r, [Net(167772160, 25), Net(167772544, 25)])
    ensures r == [Net(167772160, 25), Net(167772544, 25)]
  {
    var x, y := Net(167772160, 25), Net(167772544, 25);
    SmallPowers();
    assert Pow2(32 - 25) == 128 && Pow2(32 - 25 + 1) == 256;
    assert Valid(32, x) && Valid(32, y);
    PairCollapsed(32, x, y);
    CollapsedUnique(32, r, [x, y]);
  }

  /** Two disjoint ascending blocks, neither the lower half of a block
      whose upper half is the other, are collapsed. */
  lemma PairCollapsed(w: nat, x: Net, y: Net)
    requires Valid(w, x) && Valid(w, y) && x.base + Size(w, x) <= y.base
    requires !Mergeable(w, x, y) && !Mergeable(w, y, x)
    ensures Collapsed(w, [x, y])
  {
    var c := [x, y];
    assert AllValid(w, c) by {
      forall i | 0 <= i < 2 ensures Valid(w, c[i]) {
        assert c[i] == if i == 0 then x else y;
      }
    }
    forall i, j | 0 <= i < 2 && 0 <= j < 2 ensures !Mergeable(w, c[i], c[j]) {
      assert c[i] == if i == 0 then x else y;
      assert c[j] == if j == 0 then x else y;
    }
  }

  /** Four consecutive /26 blocks cascade into one /24. */
  lemma CascadingMerge(r: seq<Net>)
    requires IsCollapseOf(32, r, [Net(167772160, 26), Net(167772224, 26), Net(167772288, 26), Net(167772352, 26)])
    ensures r == [Net24()]
  {
    SmallPowers();
    var parts := [Net(167772160, 26), Net(167772224, 26), Net(167772288, 26), Net(167772352, 26)];
    forall a: nat | Contains(32, Net24(), a)
      ensures Covers(32, parts, a)
    {
      if a < 167772224 {
        assert Contains(32, parts[0], a);
      } else if a < 167772288 {
        assert Contains(32, parts[1], a);
      } else if a < 167772352 {
        assert Contains(32, parts[2], a);
      } else {
        assert Contains(32, parts[3], a);
      }
    }
    FillsNet24(parts, r);
  }
}
