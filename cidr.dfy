/** CIDR blocks over a w-bit address space (w = 32 for IPv4, 128 for IPv6),
    the relations between blocks that collapsing uses, and the canonical
    "collapsed" form of a set of blocks: sorted, disjoint, no mergeable
    pair. The main theorem, CollapsedUnique, says that the collapsed form
    of an address set is unique. */
module Cidr {
  import opened Arith

  /** A network: its first address and its prefix length. */
  datatype Net = Net(base: nat, len: nat)

  /** Number of addresses in a block of prefix length n.len. */
  function Size(w: nat, n: Net): nat
    requires n.len <= w
  {
    Pow2(w - n.len)
  }

  /** A well-formed w-bit network: the prefix fits, the base has no host
      bits set, and the block lies inside the address space. */
  predicate Valid(w: nat, n: Net) {
    n.len <= w && n.base % Pow2(w - n.len) == 0 && n.base + Pow2(w - n.len) <= Pow2(w)
  }

  /** Address a lies in block n. */
  predicate Contains(w: nat, n: Net, a: nat) {
    n.len <= w && n.base <= a < n.base + Pow2(w - n.len)
  }

  /** The network of prefix length p that contains address a: what a
      non-strict network constructor returns (host bits masked off). */
  function NetworkOf(w: nat, a: nat, p: nat): (r: Net)
    requires p <= w && a < Pow2(w)
    ensures Valid(w, r) && Contains(w, r, a) && r.len == p
  {
    RoundDownInRange(a, w - p, w);
    Net(a - a % Pow2(w - p), p)
  }

  /** A well-formed network is the network of its own base and length. */
  lemma NetworkOfBase(w: nat, n: Net)
    requires Valid(w, n)
    ensures n.base < Pow2(w) && NetworkOf(w, n.base, n.len) == n
  {
  }

  /** The block one bit shorter that contains n; a /0 is its own supernet. */
  function Supernet(w: nat, n: Net): (s: Net)
    requires Valid(w, n)
    ensures Valid(w, s)
    ensures n.len == 0 ==> s == n
    ensures n.len > 0 ==> s.len == n.len - 1
  {
    if n.len == 0 then n
    else
      assert n.base < Pow2(w);
      NetworkOf(w, n.base, n.len - 1)
  }

  /** The two halves of a block. */
  function LowerHalf(w: nat, n: Net): Net
    requires n.len < w
  {
    Net(n.base, n.len + 1)
  }

  function UpperHalf(w: nat, n: Net): Net
    requires n.len < w
  {
    Net(n.base + Pow2(w - (n.len + 1)), n.len + 1)
  }

  /** x and y are the lower and the upper half of one parent block: same
      prefix length p > 0, x aligned to p - 1, y directly after x. */
  predicate Mergeable(w: nat, x: Net, y: Net) {
    && 0 < x.len == y.len <= w
    && x.base % Pow2(w - x.len + 1) == 0
    && y.base == x.base + Pow2(w - x.len)
  }

  // ---------------------------------------------------------------------
  // Facts about single blocks.

  /** Any two blocks that share an address are nested: the one with the
      longer prefix lies inside the other. */
  lemma Laminar(w: nat, x: Net, y: Net, a: nat)
    requires Valid(w, x) && Valid(w, y) && x.len <= y.len
    requires Contains(w, x, a) && Contains(w, y, a)
    ensures x.base <= y.base && y.base + Size(w, y) <= x.base + Size(w, x)
  {
    Pow2Divides(w - y.len, w - x.len);
    NestedAligned(x.base, Pow2(w - x.len), y.base, Pow2(w - y.len), a);
  }

  /** Two blocks of one prefix length that share an address are equal. */
  lemma SameLenShared(w: nat, x: Net, y: Net, a: nat)
    requires Valid(w, x) && Valid(w, y) && x.len == y.len
    requires Contains(w, x, a) && Contains(w, y, a)
    ensures x == y
  {
    Laminar(w, x, y, a);
    Laminar(w, y, x, a);
  }

  /** A block lies inside its supernet. */
  lemma InSupernet(w: nat, n: Net, a: nat)
    requires Valid(w, n) && Contains(w, n, a)
    ensures Contains(w, Supernet(w, n), a)
  {
    if n.len > 0 {
      var s := Supernet(w, n);
      assert Contains(w, s, n.base);
      Laminar(w, s, n, n.base);
    }
  }

  /** The halves of a block are valid, mergeable, and cover it exactly. */
  lemma Halves(w: nat, n: Net)
    requires Valid(w, n) && n.len < w
    ensures Valid(w, LowerHalf(w, n)) && Valid(w, UpperHalf(w, n))
    ensures Mergeable(w, LowerHalf(w, n), UpperHalf(w, n))
    ensures forall a :: Contains(w, n, a) <==> Contains(w, LowerHalf(w, n), a) || Contains(w, UpperHalf(w, n), a)
  {
    HalfSize(w, n);
    HalvesValid(w, n);
    HalvesCover(w, n);
  }

  /** A block is twice as large as each of its halves. */
  lemma HalfSize(w: nat, n: Net)
    requires n.len < w
    ensures Pow2(w - n.len) == 2 * Pow2(w - (n.len + 1))
    ensures Pow2(w - (n.len + 1) + 1) == Pow2(w - n.len)
  {
    assert w - (n.len + 1) + 1 == w - n.len;
  }

  lemma HalvesValid(w: nat, n: Net)
    requires Valid(w, n) && n.len < w
    requires Pow2(w - n.len) == 2 * Pow2(w - (n.len + 1))
    ensures Valid(w, LowerHalf(w, n)) && Valid(w, UpperHalf(w, n))
  {
    var h := Pow2(w - (n.len + 1));
    assert n.base % (2 * h) == 0 && n.base + 2 * h <= Pow2(w);
    AlignedHalves(n.base, h);
  }

  lemma HalvesCover(w: nat, n: Net)
    requires n.len < w
    requires Pow2(w - n.len) == 2 * Pow2(w - (n.len + 1))
    ensures forall a :: Contains(w, n, a) <==> Contains(w, LowerHalf(w, n), a) || Contains(w, UpperHalf(w, n), a)
  {
  }

  /** A multiple of 2h and the point h above it are both multiples of h. */
  lemma AlignedHalves(b: nat, h: nat)
    requires h > 0 && b % (2 * h) == 0
    ensures b % h == 0 && (b + h) % h == 0
  {
    MultipleOfMultiple(b, 2, h);
    var q := b / h;
    assert b == q * h;
    assert b + h == (q + 1) * h;
    MulMod(q + 1, h);
  }

  /** Every block of positive prefix length is a half of its supernet. */
  lemma HalfOfSupernet(w: nat, x: Net)
    requires Valid(w, x) && x.len > 0
    ensures Supernet(w, x).len < w
    ensures x == LowerHalf(w, Supernet(w, x)) || x == UpperHalf(w, Supernet(w, x))
  {
    var sx := Pow2(w - x.len);
    assert Pow2(w - (x.len - 1)) == 2 * sx;
    HalfMod(x.base, sx);
    assert w - (x.len - 1) - 1 == w - x.len;
  }

  /** Two distinct blocks with the same supernet together cover exactly
      that supernet: this is the merge step of collapsing. */
  lemma MergeCover(w: nat, x: Net, y: Net)
    requires Valid(w, x) && Valid(w, y) && x != y
    requires Supernet(w, x) == Supernet(w, y)
    ensures forall a :: Contains(w, Supernet(w, x), a) <==> Contains(w, x, a) || Contains(w, y, a)
  {
    var s := Supernet(w, x);
    forall a | Contains(w, x, a) || Contains(w, y, a)
      ensures Contains(w, s, a)
    {
      if Contains(w, x, a) { InSupernet(w, x, a); } else { InSupernet(w, y, a); }
    }
    if x.len > 0 && y.len > 0 {
      HalfOfSupernet(w, x);
      HalfOfSupernet(w, y);
      Halves(w, s);
    }
  }

  /** Mergeable blocks are distinct and share their supernet. */
  lemma MergeableSiblings(w: nat, x: Net, y: Net)
    requires Valid(w, x) && Valid(w, y) && Mergeable(w, x, y)
    ensures x != y && Supernet(w, x) == Supernet(w, y)
  {
    var sx := Pow2(w - x.len);
    var d := Pow2(w - x.len + 1);
    assert d == 2 * sx;
    var q := x.base / d;
    assert x.base == q * d;
    DivModUnique(y.base, d, q, sx);
    assert w - (x.len - 1) == w - x.len + 1;
  }

  // ---------------------------------------------------------------------
  // Sequences of blocks.

  /** Address a lies in some block of s. */
  predicate Covers(w: nat, s: seq<Net>, a: nat) {
    exists i :: 0 <= i < |s| && Contains(w, s[i], a)
  }

  /** s and t cover the same addresses. */
  ghost predicate SameCover(w: nat, s: seq<Net>, t: seq<Net>) {
    forall a :: Covers(w, s, a) <==> Covers(w, t, a)
  }

  predicate AllValid(w: nat, s: seq<Net>) {
    forall i :: 0 <= i < |s| ==> Valid(w, s[i])
  }

  /** Every block ends before the next one starts: sorted by base and
      pairwise disjoint. */
  predicate Ascending(w: nat, s: seq<Net>)
    requires AllValid(w, s)
  {
    forall i, j :: 0 <= i < j < |s| ==> s[i].base + Size(w, s[i]) <= s[j].base
  }

  predicate NoMergeable(w: nat, s: seq<Net>) {
    forall i, j :: 0 <= i < |s| && 0 <= j < |s| ==> !Mergeable(w, s[i], s[j])
  }

  /** The canonical aggregated form. */
  predicate Collapsed(w: nat, s: seq<Net>) {
    AllValid(w, s) && Ascending(w, s) && NoMergeable(w, s)
  }

  /** r is a collapsed form of the blocks in input. */
  ghost predicate IsCollapseOf(w: nat, r: seq<Net>, input: seq<Net>) {
    Collapsed(w, r) && SameCover(w, r, input)
  }

  /** Distinct blocks of an ascending sequence share no address. */
  lemma AscendingDisjoint(w: nat, s: seq<Net>, i: nat, j: nat, a: nat)
    requires AllValid(w, s) && Ascending(w, s)
    requires i < |s| && j < |s| && i != j
    requires Contains(w, s[i], a)
    ensures !Contains(w, s[j], a)
  {
  }

  /** A block b that a set of blocks c covers, and that no block of c
      strictly contains, is itself in c, or c holds a mergeable pair. */
  lemma {:induction false} CoveredBlock(w: nat, c: seq<Net>, b: Net)
    requires AllValid(w, c) && Valid(w, b)
    requires forall a :: Contains(w, b, a) ==> Covers(w, c, a)
    requires forall i :: 0 <= i < |c| ==> !(c[i].len < b.len && Contains(w, c[i], b.base))
    ensures b in c || !NoMergeable(w, c)
    decreases w - b.len
  {
    if b in c {
      return;
    }
    assert Contains(w, b, b.base);
    if b.len == w {
      var i :| 0 <= i < |c| && Contains(w, c[i], b.base);
      SameLenShared(w, c[i], b, b.base);
    } else {
      var lo, hi := LowerHalf(w, b), UpperHalf(w, b);
      Halves(w, b);
      forall i | 0 <= i < |c|
        ensures !(c[i].len < lo.len && Contains(w, c[i], lo.base))
        ensures !(c[i].len < hi.len && Contains(w, c[i], hi.base))
      {
        NoStrictHalfContainer(w, c, b, i, lo.base);
        assert Contains(w, hi, hi.base);
        NoStrictHalfContainer(w, c, b, i, hi.base);
      }
      CoveredBlock(w, c, lo);
      CoveredBlock(w, c, hi);
      if lo in c && hi in c {
        var i :| 0 <= i < |c| && c[i] == lo;
        var j :| 0 <= j < |c| && c[j] == hi;
        assert Mergeable(w, c[i], c[j]);
      }
    }
  }

  /** Helper of CoveredBlock: a block of c with prefix length at most b's
      that contains an address of b is b itself or strictly contains b. */
  lemma NoStrictHalfContainer(w: nat, c: seq<Net>, b: Net, i: nat, a: nat)
    requires AllValid(w, c) && Valid(w, b) && b !in c && b.len < w
    requires forall i :: 0 <= i < |c| ==> !(c[i].len < b.len && Contains(w, c[i], b.base))
    requires i < |c| && Contains(w, b, a)
    ensures !(c[i].len <= b.len && Contains(w, c[i], a))
  {
    if c[i].len <= b.len && Contains(w, c[i], a) {
      Laminar(w, c[i], b, a);
      assert Contains(w, c[i], b.base);
      if c[i].len == b.len {
        SameLenShared(w, c[i], b, a);
      }
    }
  }

  /** In a collapsed sequence no block can be widened: the supernet of
      every block holds an address the sequence does not cover. */
  lemma Maximal(w: nat, c: seq<Net>, k: nat)
    requires Collapsed(w, c) && k < |c| && c[k].len > 0
    ensures exists a :: Contains(w, Supernet(w, c[k]), a) && !Covers(w, c, a)
  {
    var x := c[k];
    var p := Supernet(w, x);
    assert Contains(w, x, x.base);
    InSupernet(w, x, x.base);
    if forall a :: Contains(w, p, a) ==> Covers(w, c, a) {
      forall i | 0 <= i < |c|
        ensures !(c[i].len < p.len && Contains(w, c[i], p.base))
      {
        if c[i].len < p.len && Contains(w, c[i], p.base) {
          assert Contains(w, p, p.base);
          Laminar(w, c[i], p, p.base);
        }
      }
      CoveredBlock(w, c, p);
      var m :| 0 <= m < |c| && c[m] == p;
      AscendingDisjoint(w, c, k, m, x.base);
      assert false;
    }
  }

  /** Every block of one collapsed sequence is a block of any other
      collapsed sequence covering the same addresses. */
  lemma BlockInOther(w: nat, c: seq<Net>, d: seq<Net>, k: nat)
    requires Collapsed(w, c) && Collapsed(w, d) && SameCover(w, c, d)
    requires k < |c|
    ensures c[k] in d
  {
    var x := c[k];
    assert Contains(w, x, x.base);
    assert Covers(w, c, x.base);
    var j :| 0 <= j < |d| && Contains(w, d[j], x.base);
    var y := d[j];
    if x.len < y.len {
      WiderBlockMaximal(w, d, c, j, k, x.base);
      assert false;
    } else if y.len < x.len {
      WiderBlockMaximal(w, c, d, k, j, x.base);
      assert false;
    } else {
      SameLenShared(w, x, y, x.base);
    }
  }

  /** Helper of BlockInOther: when a block d[j] of a collapsed sequence d
      lies strictly inside a block c[k], some address covered by c is not
      covered by d. */
  lemma WiderBlockMaximal(w: nat, d: seq<Net>, c: seq<Net>, j: nat, k: nat, a0: nat)
    requires AllValid(w, c) && Collapsed(w, d)
    requires j < |d| && k < |c| && c[k].len < d[j].len
    requires Contains(w, c[k], a0) && Contains(w, d[j], a0)
    ensures exists a :: Covers(w, c, a) && !Covers(w, d, a)
  {
    var x, y := c[k], d[j];
    Laminar(w, x, y, a0);
    Maximal(w, d, j);
    var p := Supernet(w, y);
    var a :| Contains(w, p, a) && !Covers(w, d, a);
    assert Contains(w, y, y.base);
    InSupernet(w, y, y.base);
    Laminar(w, x, p, y.base);
    assert Contains(w, x, a);
    assert Covers(w, c, a);
  }

  /** Two ascending sequences with the same elements are equal. */
  lemma {:induction false} AscendingSameElements(w: nat, c: seq<Net>, d: seq<Net>)
    requires AllValid(w, c) && AllValid(w, d) && Ascending(w, c) && Ascending(w, d)
    requires forall x :: x in c <==> x in d
    ensures c == d
    decreases |c|
  {
    SameHead(w, c, d);
    if c != [] {
      var c', d' := c[1..], d[1..];
      forall x | x in c'
        ensures x in d'
      {
        TailElement(w, c, d, x);
      }
      forall x | x in d'
        ensures x in c'
      {
        TailElement(w, d, c, x);
      }
      AscendingSameElements(w, c', d');
      assert c == [c[0]] + c' && d == [d[0]] + d';
    }
  }

  /** Helper of AscendingSameElements: both are empty, or both start with
      the same block (the one with the lowest base). */
  lemma SameHead(w: nat, c: seq<Net>, d: seq<Net>)
    requires AllValid(w, c) && AllValid(w, d) && Ascending(w, c) && Ascending(w, d)
    requires forall x :: x in c <==> x in d
    ensures |c| == 0 <==> |d| == 0
    ensures |c| > 0 ==> c[0] == d[0]
  {
    if c != [] {
      assert c[0] in c;
    }
    if d != [] {
      assert d[0] in d;
    }
    if c != [] && d != [] {
      var k :| 0 <= k < |d| && d[k] == c[0];
      var m :| 0 <= m < |c| && c[m] == d[0];
      assert k == 0;
    }
  }

  /** Helper of AscendingSameElements: an element of the tail of one
      sequence is in the tail of the other. */
  lemma TailElement(w: nat, c: seq<Net>, d: seq<Net>, x: Net)
    requires AllValid(w, c) && AllValid(w, d) && Ascending(w, c) && Ascending(w, d)
    requires |c| > 0 && |d| > 0 && c[0] == d[0] && x in c[1..] && x in d
    ensures x in d[1..]
  {
    var i :| 1 <= i < |c| && c[i] == x;
    assert c[0].base + Size(w, c[0]) <= c[i].base;
    var j :| 0 <= j < |d| && d[j] == x;
    assert j != 0;
    assert d[1..][j - 1] == x;
  }

  /** The collapsed form of an address set is unique: whatever algorithm
      produced them, two collapsed sequences with the same cover are equal.
      Aggregation is therefore idempotent and independent of input order. */
  lemma CollapsedUnique(w: nat, c: seq<Net>, d: seq<Net>)
    requires Collapsed(w, c) && Collapsed(w, d) && SameCover(w, c, d)
    ensures c == d
  {
    forall x | x in c
      ensures x in d
    {
      var k :| 0 <= k < |c| && c[k] == x;
      BlockInOther(w, c, d, k);
    }
    forall x | x in d
      ensures x in c
    {
      var k :| 0 <= k < |d| && d[k] == x;
      BlockInOther(w, d, c, k);
    }
    AscendingSameElements(w, c, d);
  }
}
