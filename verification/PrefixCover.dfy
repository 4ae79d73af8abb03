// Address prefixes as their bits: which sets of them cover a range exactly, and the complement of a table of
// prefixes by subtraction (app/src/Service/NetPolicy.h, app/tools/ip-family-tests.cpp). A prefix contains another,
// or an address, when its bits start the other's.
module PrefixCover {

  type Bits = seq<bool>

  ghost predicate Apart(p: Bits, q: Bits) {
    !(p <= q) && !(q <= p)
  }

  // No prefix contains another.
  ghost predicate PairwiseApart(ps: seq<Bits>) {
    forall i, j | 0 <= i < j < |ps| :: Apart(ps[i], ps[j])
  }

  ghost predicate IsAddress(width: nat, a: Bits) {
    |a| == width
  }

  // Some prefix of the list, at or below the node, contains the address.
  ghost predicate CoversBelow(ps: seq<Bits>, node: Bits, a: Bits) {
    exists i | 0 <= i < |ps| :: node <= ps[i] <= a
  }

  ghost predicate CoversAll(ps: seq<Bits>, node: Bits, width: nat) {
    forall a | IsAddress(width, a) && node <= a :: CoversBelow(ps, node, a)
  }

  function Pow2(n: nat): (r: nat)
    ensures r > 0
  {
    if n == 0 then 1 else 2 * Pow2(n - 1)
  }

  // How many addresses the prefixes at or below a node contain: 2 to the width times the sum of 2^-length.
  function SumBelow(ps: seq<Bits>, node: Bits, width: nat): nat {
    if ps == [] then 0
    else (if node <= ps[0] && |ps[0]| <= width then Pow2(width - |ps[0]|) else 0) + SumBelow(ps[1..], node, width)
  }

  ghost predicate Fit(ps: seq<Bits>, width: nat) {
    forall i | 0 <= i < |ps| :: |ps[i]| <= width
  }

  lemma {:induction false} NoneBelow(ps: seq<Bits>, node: Bits, width: nat)
    requires forall i | 0 <= i < |ps| :: !(node <= ps[i])
    ensures SumBelow(ps, node, width) == 0
  {
    if ps != [] {
      NoneBelow(ps[1..], node, width);
    }
  }

  lemma {:induction false} OnlyItself(ps: seq<Bits>, k: nat, width: nat)
    requires PairwiseApart(ps) && k < |ps| && |ps[k]| <= width
    ensures SumBelow(ps, ps[k], width) == Pow2(width - |ps[k]|)
  {
    forall i | 0 <= i < |ps| && i != k ensures !(ps[k] <= ps[i]) {
      assert Apart(ps[if i < k then i else k], ps[if i < k then k else i]);
    }
    if k == 0 {
      NoneBelow(ps[1..], ps[0], width);
    } else {
      OnlyItself(ps[1..], k - 1, width);
    }
  }

  lemma NextBit(node: Bits, p: Bits)
    requires node <= p && node != p
    ensures node + [p[|node|]] <= p && !(node + [!p[|node|]] <= p)
  {
    assert p == node + p[|node|..];
  }

  lemma {:induction false} Halves(ps: seq<Bits>, node: Bits, width: nat)
    requires node !in ps
    ensures SumBelow(ps, node, width) == SumBelow(ps, node + [false], width) + SumBelow(ps, node + [true], width)
  {
    if ps != [] {
      Halves(ps[1..], node, width);
      if node <= ps[0] {
        NextBit(node, ps[0]);
      }
    }
  }

  lemma HalvesCover(ps: seq<Bits>, node: Bits, width: nat)
    requires node !in ps && |node| < width
    ensures CoversAll(ps, node, width) <==> CoversAll(ps, node + [false], width) && CoversAll(ps, node + [true], width)
  {
    forall bit: bool, a | CoversAll(ps, node, width) && IsAddress(width, a) && node + [bit] <= a
      ensures CoversBelow(ps, node + [bit], a)
    {
      assert node <= a && a[|node|] == bit;
      var i :| 0 <= i < |ps| && node <= ps[i] <= a;
      NextBit(node, ps[i]);
    }
    if CoversAll(ps, node + [false], width) && CoversAll(ps, node + [true], width) {
      forall a | IsAddress(width, a) && node <= a ensures CoversBelow(ps, node, a) {
        NextBit(node, a);
        assert CoversBelow(ps, node + [a[|node|]], a);
      }
    }
  }

  // Prefixes none of which contains another hold at most all the addresses below a node, and hold them all exactly
  // when their sizes add up to the node's.
  lemma {:induction false} FullExactly(ps: seq<Bits>, node: Bits, width: nat)
    requires PairwiseApart(ps) && Fit(ps, width) && |node| <= width
    ensures SumBelow(ps, node, width) <= Pow2(width - |node|)
    ensures SumBelow(ps, node, width) == Pow2(width - |node|) <==> CoversAll(ps, node, width)
    decreases width - |node|
  {
    if k :| 0 <= k < |ps| && ps[k] == node {
      OnlyItself(ps, k, width);
    } else if |node| == width {
      NoneBelow(ps, node, width);
      assert IsAddress(width, node) && !CoversBelow(ps, node, node);
    } else {
      FullExactly(ps, node + [false], width);
      FullExactly(ps, node + [true], width);
      Halves(ps, node, width);
      HalvesCover(ps, node, width);
    }
  }

  ghost predicate Holds(ps: seq<Bits>, i: int, a: Bits) {
    0 <= i < |ps| && ps[i] <= a
  }

  // The prefix cover theorem: of prefixes none of which contains another, each address lies in at most one; and
  // each lies in exactly one when, and only when, 2^-length sums to 1.
  lemma CoverExactly(ps: seq<Bits>, width: nat)
    requires PairwiseApart(ps) && Fit(ps, width)
    ensures forall a, i, j | Holds(ps, i, a) && Holds(ps, j, a) :: i == j
    ensures SumBelow(ps, [], width) == Pow2(width) <==> forall a | IsAddress(width, a) :: CoversBelow(ps, [], a)
  {
    FullExactly(ps, [], width);
  }

  // ---- the complement of a table ----

  predicate IsCovered(table: seq<Bits>, node: Bits) {
    exists i | 0 <= i < |table| :: table[i] <= node
  }

  predicate Straddles(table: seq<Bits>, node: Bits) {
    exists i | 0 <= i < |table| :: node <= table[i]
  }

  // The prefixes below a node that the table leaves, low to high: a node it covers is dropped, one it does not
  // touch is kept, and any other is split in half.
  function Complement(table: seq<Bits>, node: Bits, width: nat): seq<Bits>
    requires Fit(table, width) && |node| <= width
    decreases width - |node|
  {
    if IsCovered(table, node) then []
    else if !Straddles(table, node) then [node]
    else
      SplittableBelowWidth(table, node, width);
      Complement(table, node + [false], width) + Complement(table, node + [true], width)
  }

  lemma SplittableBelowWidth(table: seq<Bits>, node: Bits, width: nat)
    requires Fit(table, width) && !IsCovered(table, node) && Straddles(table, node)
    ensures |node| < width
  {
    var i :| 0 <= i < |table| && node <= table[i];
    assert !(table[i] <= node);
  }

  lemma {:induction false} CaptureIsBelow(table: seq<Bits>, node: Bits, width: nat)
    requires Fit(table, width) && |node| <= width
    ensures forall p | p in Complement(table, node, width) :: node <= p && |p| <= width
    ensures forall p, i | p in Complement(table, node, width) && 0 <= i < |table| :: Apart(p, table[i])
    decreases width - |node|
  {
    if !IsCovered(table, node) && Straddles(table, node) {
      SplittableBelowWidth(table, node, width);
      CaptureIsBelow(table, node + [false], width);
      CaptureIsBelow(table, node + [true], width);
    }
  }

  // An address below the node is captured exactly when no prefix of the table contains it.
  lemma {:induction false} CapturesExactly(table: seq<Bits>, node: Bits, width: nat, a: Bits)
    requires Fit(table, width) && |node| <= width && IsAddress(width, a) && node <= a
    ensures IsCovered(Complement(table, node, width), a) <==> !IsCovered(table, a)
    decreases width - |node|
  {
    var captured := Complement(table, node, width);
    if IsCovered(table, node) {
      var i :| 0 <= i < |table| && table[i] <= node;
      assert table[i] <= a;
    } else if !Straddles(table, node) {
      assert captured[0] <= a;
      if IsCovered(table, a) {
        var i :| 0 <= i < |table| && table[i] <= a;
        OneContainsOther(table[i], node, a);
      }
    } else {
      SplittableBelowWidth(table, node, width);
      NextBit(node, a);
      var bit := a[|node|];
      var here := Complement(table, node + [bit], width);
      CapturesExactly(table, node + [bit], width, a);
      CaptureIsBelow(table, node + [!bit], width);
      if IsCovered(captured, a) {
        var i :| 0 <= i < |captured| && captured[i] <= a;
        assert captured[i] in here;
      }
      if IsCovered(here, a) {
        var i :| 0 <= i < |here| && here[i] <= a;
        assert here[i] in captured;
      }
    }
  }

  lemma OneContainsOther(p: Bits, q: Bits, a: Bits)
    requires p <= a && q <= a
    ensures p <= q || q <= p
  {
  }

  // Which of two prefixes apart from each other comes first: the one with a zero where they differ.
  ghost predicate Precedes(p: Bits, q: Bits) {
    exists k :: 0 <= k < |p| && k < |q| && p[..k] == q[..k] && !p[k] && q[k]
  }

  ghost predicate Ascending(ps: seq<Bits>) {
    forall i, j | 0 <= i < j < |ps| :: Precedes(ps[i], ps[j])
  }

  lemma AscendingTogether(low: seq<Bits>, high: seq<Bits>)
    requires Ascending(low) && Ascending(high) && forall p, q | p in low && q in high :: Precedes(p, q)
    ensures Ascending(low + high)
  {
    hide Precedes;
    forall i, j | 0 <= i < j < |low + high| ensures Precedes((low + high)[i], (low + high)[j]) {
      if i < |low| <= j {
        assert low[i] in low && high[j - |low|] in high;
      }
    }
  }

  // The captured prefixes are emitted in ascending order, and so are apart.
  lemma {:induction false} CapturesAscending(table: seq<Bits>, node: Bits, width: nat)
    requires Fit(table, width) && |node| <= width
    ensures Ascending(Complement(table, node, width))
    decreases width - |node|
  {
    if !IsCovered(table, node) && Straddles(table, node) {
      SplittableBelowWidth(table, node, width);
      var low, high := Complement(table, node + [false], width), Complement(table, node + [true], width);
      CapturesAscending(table, node + [false], width);
      CapturesAscending(table, node + [true], width);
      CaptureIsBelow(table, node + [false], width);
      CaptureIsBelow(table, node + [true], width);
      forall p, q | p in low && q in high ensures Precedes(p, q) {
        assert p[..|node|] == node == q[..|node|] && !p[|node|] && q[|node|];
      }
      AscendingTogether(low, high);
    }
  }

  lemma PrecedingAreApart(p: Bits, q: Bits)
    requires Precedes(p, q)
    ensures Apart(p, q)
  {
  }

  // The set is minimal: the parent of a captured prefix always contains a prefix of the table, so no larger prefix
  // could stand in its place, and no two captured prefixes make up one.
  lemma {:induction false} CapturesAreMaximal(table: seq<Bits>, node: Bits, width: nat, p: Bits)
    requires Fit(table, width) && |node| <= width && p in Complement(table, node, width) && p != node
    ensures p != [] && Straddles(table, p[..|p| - 1])
    decreases width - |node|
  {
    SplittableBelowWidth(table, node, width);
    var bit := p in Complement(table, node + [true], width);
    if p == node + [bit] {
      assert p[..|p| - 1] == node;
    } else {
      CapturesAreMaximal(table, node + [bit], width, p);
    }
  }
}
