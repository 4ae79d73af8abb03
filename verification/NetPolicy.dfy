// The prefixes the tun captures: everything but a table of bypassed prefixes, computed with shifts, masks and an
// explicit stack (app/src/Service/NetPolicy.h). An IPv6 address's two halves are one 128-bit number here. Each
// computation is proved against PrefixCover, where a prefix is its bits.
module NetPolicy {
  import opened PrefixCover

  // A network and a prefix length; the network's bits past the length are zero.
  datatype Prefix = Prefix(network: nat, length: nat)

  // ---- shifts ----

  function ShiftLeft(v: nat, n: nat): nat {
    if n == 0 then v else 2 * ShiftLeft(v, n - 1)
  }

  function ShiftRight(v: nat, n: nat): nat {
    if n == 0 then v else ShiftRight(v / 2, n - 1)
  }

  lemma {:induction false} RightRight(v: nat, m: nat, n: nat)
    ensures ShiftRight(ShiftRight(v, m), n) == ShiftRight(v, m + n)
  {
    if m > 0 {
      RightRight(v / 2, m - 1, n);
    }
  }

  lemma {:induction false} LeftAdds(a: nat, b: nat, n: nat)
    ensures ShiftLeft(a, n) + ShiftLeft(b, n) == ShiftLeft(a + b, n)
  {
    if n > 0 {
      LeftAdds(a, b, n - 1);
    }
  }

  lemma {:induction false} RightLeft(v: nat, n: nat)
    ensures ShiftRight(ShiftLeft(v, n), n) == v
  {
    if n > 0 {
      RightLeft(v, n - 1);
    }
  }

  // ---- prefixes as bits ----

  // The lowest `length` bits of a number, highest first.
  function BitsOfNumber(v: nat, length: nat): (b: Bits)
    ensures |b| == length
  {
    if length == 0 then [] else BitsOfNumber(v / 2, length - 1) + [v % 2 == 1]
  }

  // The bits of the network the length keeps, as a number.
  function Index(p: Prefix, width: nat): nat
    requires p.length <= width
  {
    ShiftRight(p.network, width - p.length)
  }

  // A number under the mask that keeps its first `length` bits of `width`.
  function Masked(x: nat, length: nat, width: nat): nat
    requires length <= width
  {
    ShiftLeft(ShiftRight(x, width - length), width - length)
  }

  predicate IsPrefix(p: Prefix, width: nat) {
    p.length <= width && Masked(p.network, p.length, width) == p.network && ShiftRight(p.network, width) == 0
  }

  function BitsOf(p: Prefix, width: nat): (b: Bits)
    requires p.length <= width
    ensures |b| == p.length
  {
    BitsOfNumber(Index(p, width), p.length)
  }

  predicate Contains(outer: Prefix, inner: Prefix, width: nat)
    requires outer.length <= width
  {
    outer.length <= inner.length && Masked(inner.network, outer.length, width) == outer.network
  }

  lemma {:induction false} BitsInjective(v: nat, w: nat, length: nat)
    requires ShiftRight(v, length) == 0 && ShiftRight(w, length) == 0
    ensures BitsOfNumber(v, length) == BitsOfNumber(w, length) <==> v == w
  {
    if length > 0 {
      BitsInjective(v / 2, w / 2, length - 1);
      var a, b := BitsOfNumber(v, length), BitsOfNumber(w, length);
      assert a[..length - 1] == BitsOfNumber(v / 2, length - 1) && b[..length - 1] == BitsOfNumber(w / 2, length - 1);
      assert a[length - 1] == (v % 2 == 1) && b[length - 1] == (w % 2 == 1);
    }
  }

  lemma {:induction false} FirstBits(v: nat, length: nat, n: nat)
    requires n <= length
    ensures BitsOfNumber(v, length)[..n] == BitsOfNumber(ShiftRight(v, length - n), n)
    decreases length
  {
    if n < length {
      FirstBits(v / 2, length - 1, n);
      assert BitsOfNumber(v, length)[..n] == BitsOfNumber(v / 2, length - 1)[..n];
    } else {
      assert BitsOfNumber(v, length)[..n] == BitsOfNumber(v, length);
    }
  }

  // A number that keeps its first bits under the mask is the prefix's exactly when those bits are.
  lemma MaskedByIndex(outer: Prefix, x: nat, width: nat)
    requires IsPrefix(outer, width)
    ensures Masked(x, outer.length, width) == outer.network <==>
            ShiftRight(x, width - outer.length) == Index(outer, width)
  {
    RightLeft(ShiftRight(x, width - outer.length), width - outer.length);
  }

  lemma FirstBitsByIndex(outer: Prefix, inner: Prefix, width: nat)
    requires IsPrefix(outer, width) && IsPrefix(inner, width) && outer.length <= inner.length
    ensures BitsOf(inner, width)[..outer.length] == BitsOf(outer, width) <==>
            ShiftRight(inner.network, width - outer.length) == Index(outer, width)
  {
    hide ShiftRight, ShiftLeft, BitsOfNumber;
    var o, gap := outer.length, inner.length - outer.length;
    RightRight(inner.network, width - inner.length, gap);
    FirstBits(Index(inner, width), inner.length, o);
    RightRight(inner.network, width - o, o);
    RightRight(outer.network, width - o, o);
    BitsInjective(ShiftRight(inner.network, width - o), Index(outer, width), o);
  }

  // The mask test is the prefix test on bits.
  lemma ContainsByBits(outer: Prefix, inner: Prefix, width: nat)
    requires IsPrefix(outer, width) && IsPrefix(inner, width)
    ensures Contains(outer, inner, width) <==> BitsOf(outer, width) <= BitsOf(inner, width)
  {
    FitsWidth(outer, width);
    FitsWidth(inner, width);
    hide IsPrefix, ShiftRight, Masked, Index, BitsOfNumber, BitsOf;
    MaskedByIndex(outer, inner.network, width);
    if outer.length <= inner.length {
      FirstBitsByIndex(outer, inner, width);
    }
  }

  function Low(p: Prefix): Prefix {
    Prefix(p.network, p.length + 1)
  }

  function High(p: Prefix, width: nat): Prefix
    requires p.length < width
  {
    Prefix(p.network + ShiftLeft(1, width - p.length - 1), p.length + 1)
  }

  lemma PrefixOfIndex(v: nat, length: nat, width: nat)
    requires length <= width && ShiftRight(v, length) == 0
    ensures var p := Prefix(ShiftLeft(v, width - length), length); IsPrefix(p, width) && Index(p, width) == v
  {
    RightLeft(v, width - length);
    RightRight(ShiftLeft(v, width - length), width - length, length);
  }

  // The two halves of a prefix.
  lemma HalvesByBits(p: Prefix, width: nat)
    requires IsPrefix(p, width) && p.length < width
    ensures IsPrefix(Low(p), width) && BitsOf(Low(p), width) == BitsOf(p, width) + [false]
    ensures IsPrefix(High(p, width), width) && BitsOf(High(p, width), width) == BitsOf(p, width) + [true]
  {
    var v, n := Index(p, width), width - p.length - 1;
    RightRight(p.network, width - p.length, p.length);
    LeftAdds(v, v, n);
    LeftAdds(2 * v, 1, n);
    assert p.network == ShiftLeft(2 * v, n);
    PrefixOfIndex(2 * v, p.length + 1, width);
    PrefixOfIndex(2 * v + 1, p.length + 1, width);
  }

  // ---- the subtraction ----

  ghost predicate AllPrefixes(ps: seq<Prefix>, width: nat) {
    forall i | 0 <= i < |ps| :: IsPrefix(ps[i], width)
  }

  ghost function BitsOfAll(ps: seq<Prefix>, width: nat): (b: seq<Bits>)
    requires AllPrefixes(ps, width)
    ensures |b| == |ps| && Fit(b, width) && forall i | 0 <= i < |ps| :: b[i] == BitsOf(ps[i], width)
  {
    seq(|ps|, i requires 0 <= i < |ps| => BitsOf(ps[i], width))
  }

  // Whether a prefix of the table covers the candidate, and if not, whether the candidate contains one.
  method Classify(table: seq<Prefix>, cur: Prefix, width: nat) returns (covered: bool, straddles: bool)
    requires AllPrefixes(table, width) && IsPrefix(cur, width)
    ensures covered <==> IsCovered(BitsOfAll(table, width), BitsOf(cur, width))
    ensures !covered ==> (straddles <==> Straddles(BitsOfAll(table, width), BitsOf(cur, width)))
  {
    hide IsPrefix, Contains, BitsOf;
    covered, straddles := false, false;
    FitsWidth(cur, width);
    ghost var bits := BitsOfAll(table, width);
    for i := 0 to |table|
      invariant !covered && forall j | 0 <= j < i :: !(bits[j] <= BitsOf(cur, width))
      invariant straddles <==> exists j | 0 <= j < i :: BitsOf(cur, width) <= bits[j]
    {
      FitsWidth(table[i], width);
      ContainsByBits(table[i], cur, width);
      ContainsByBits(cur, table[i], width);
      if Contains(table[i], cur, width) {
        assert bits[i] <= BitsOf(cur, width);
        covered := true;
        return;
      }
      if Contains(cur, table[i], width) {
        straddles := true;
      }
    }
  }

  lemma FitsWidth(p: Prefix, width: nat)
    requires IsPrefix(p, width)
    ensures p.length <= width
  {
  }

  // What the candidates on the stack still yield, the top one first.
  ghost function Pending(stack: seq<Prefix>, table: seq<Bits>, width: nat): seq<Bits>
    requires AllPrefixes(stack, width) && Fit(table, width)
  {
    if stack == [] then []
    else
      var top := |stack| - 1;
      FitsWidth(stack[top], width);
      Complement(table, BitsOf(stack[top], width), width) + Pending(stack[..top], table, width)
  }

  // How many candidates the stack may still come to.
  ghost function Work(stack: seq<Prefix>, width: nat): nat {
    if stack == [] then 0
    else
      var top := |stack| - 1;
      (if stack[top].length <= width then 2 * Pow2(width - stack[top].length) - 1 else 0) + Work(stack[..top], width)
  }

  // Each entry is at least as long as it is deep, so the stack never holds more than width + 1.
  ghost predicate Deep(stack: seq<Prefix>) {
    forall i | 0 <= i < |stack| :: i <= stack[i].length
  }

  lemma DeepIsShort(stack: seq<Prefix>, width: nat)
    requires Deep(stack) && AllPrefixes(stack, width)
    ensures |stack| <= width + 1
  {
    if stack != [] {
      FitsWidth(stack[|stack| - 1], width);
    }
  }

  lemma Pushed(stack: seq<Prefix>, top: Prefix, table: seq<Bits>, width: nat)
    requires AllPrefixes(stack, width) && IsPrefix(top, width) && Fit(table, width) && top.length <= width
    ensures AllPrefixes(stack + [top], width)
    ensures Pending(stack + [top], table, width)
         == Complement(table, BitsOf(top, width), width) + Pending(stack, table, width)
    ensures Work(stack + [top], width) == 2 * Pow2(width - top.length) - 1 + Work(stack, width)
  {
    hide IsPrefix, BitsOf, Complement;
    assert (stack + [top])[..|stack|] == stack;
  }

  // Splitting the top candidate leaves what the stack yields as it was.
  lemma SplitTop(below: seq<Prefix>, cur: Prefix, table: seq<Bits>, width: nat)
    requires AllPrefixes(below, width) && IsPrefix(cur, width) && Fit(table, width) && cur.length <= width
    requires !IsCovered(table, BitsOf(cur, width)) && Straddles(table, BitsOf(cur, width))
    ensures cur.length < width
    ensures var split, whole := below + [High(cur, width)] + [Low(cur)], below + [cur];
            && AllPrefixes(split, width) && AllPrefixes(whole, width)
            && Pending(split, table, width) == Pending(whole, table, width) && Work(split, width) < Work(whole, width)
  {
    hide IsPrefix, BitsOf, IsCovered, Straddles, Pending, Work, AllPrefixes;
    SplittableBelowWidth(table, BitsOf(cur, width), width);
    HalvesByBits(cur, width);
    Pushed(below, cur, table, width);
    Pushed(below, High(cur, width), table, width);
    Pushed(below + [High(cur, width)], Low(cur), table, width);
  }

  // Popping the top candidate leaves the others on the stack.
  lemma Popped(stack: seq<Prefix>, table: seq<Bits>, width: nat)
    requires AllPrefixes(stack, width) && stack != [] && Deep(stack) && Fit(table, width)
    ensures var below, top := stack[..|stack| - 1], stack[|stack| - 1];
            && stack == below + [top] && AllPrefixes(below, width) && IsPrefix(top, width)
            && |below| <= top.length <= width
            && Deep(below) && Work(below, width) < Work(stack, width)
            && Pending(stack, table, width)
            == Complement(table, BitsOf(top, width), width) + Pending(below, table, width)
  {
    FitsWidth(stack[|stack| - 1], width);
    hide IsPrefix, BitsOf, Complement;
    Pushed(stack[..|stack| - 1], stack[|stack| - 1], table, width);
  }

  // The aligned complement of the table, low to high.
  method Subtract(table: seq<Prefix>, width: nat, capacity: nat) returns (out: seq<Prefix>)
    requires AllPrefixes(table, width) && capacity > width
    ensures AllPrefixes(out, width)
    ensures BitsOfAll(out, width) == Complement(BitsOfAll(table, width), [], width)
  {
    hide IsPrefix, BitsOf, Complement, IsCovered, Straddles, Pending, Work, AllPrefixes;
    ghost var bits := BitsOfAll(table, width);
    var stack := new Prefix[capacity](_ => Prefix(0, 0));
    var sp := 1;
    out := [];
    RootIsEverything(bits, width);
    assert stack[..sp] == [Prefix(0, 0)];
    while sp > 0
      invariant 0 <= sp <= capacity && AllPrefixes(stack[..sp], width) && Deep(stack[..sp]) && AllPrefixes(out, width)
      invariant BitsOfAll(out, width) + Pending(stack[..sp], bits, width) == Complement(bits, [], width)
      decreases Work(stack[..sp], width)
    {
      Popped(stack[..sp], bits, width);
      ghost var before := stack[..sp];
      sp := sp - 1;
      var cur := stack[sp];
      ghost var below := stack[..sp];
      assert before[..sp] == below && before == below + [cur];
      var covered, straddles := Classify(table, cur, width);
      if covered {
        Dropped(bits, cur, width);
      } else if !straddles {
        Kept(bits, cur, width);
        Emitted(out, cur, width);
        out := out + [cur];
      } else {
        SplitTop(below, cur, bits, width);
        stack[sp] := High(cur, width);
        stack[sp + 1] := Low(cur);
        sp := sp + 2;
        assert stack[..sp] == below + [High(cur, width)] + [Low(cur)];
      }
    }
  }

  lemma Emitted(out: seq<Prefix>, cur: Prefix, width: nat)
    requires AllPrefixes(out, width) && IsPrefix(cur, width) && cur.length <= width
    ensures AllPrefixes(out + [cur], width)
    ensures BitsOfAll(out + [cur], width) == BitsOfAll(out, width) + [BitsOf(cur, width)]
  {
    hide IsPrefix, BitsOf;
  }

  lemma RootIsEverything(table: seq<Bits>, width: nat)
    requires Fit(table, width)
    ensures AllPrefixes([Prefix(0, 0)], width) && AllPrefixes([], width) && Pending([], table, width) == []
    ensures Pending([Prefix(0, 0)], table, width) == Complement(table, [], width)
  {
    var root := Prefix(0, 0);
    PrefixOfIndex(0, 0, width);
    ZeroShifts(width);
    assert BitsOf(root, width) == [];
    hide BitsOf, Complement, IsPrefix;
    Pushed([], root, table, width);
    assert [] + [root] == [root];
  }

  lemma {:induction false} ZeroShifts(n: nat)
    ensures ShiftLeft(0, n) == 0 && ShiftRight(0, n) == 0
  {
    if n > 0 {
      ZeroShifts(n - 1);
    }
  }

  lemma Dropped(table: seq<Bits>, cur: Prefix, width: nat)
    requires Fit(table, width) && IsPrefix(cur, width) && IsCovered(table, BitsOf(cur, width))
    ensures Complement(table, BitsOf(cur, width), width) == []
  {
  }

  lemma Kept(table: seq<Bits>, cur: Prefix, width: nat)
    requires Fit(table, width) && IsPrefix(cur, width)
    requires !IsCovered(table, BitsOf(cur, width)) && !Straddles(table, BitsOf(cur, width))
    ensures Complement(table, BitsOf(cur, width), width) == [BitsOf(cur, width)]
  {
  }

  // ---- the tables ----

  const STACK_V4 := 64
  const STACK_V6 := 260

  // 10.0.0.0/8, 172.16.0.0/12, 192.168.0.0/16
  const LOCAL_BYPASS_V4: seq<Prefix> := [Prefix(0x0A000000, 8), Prefix(0xAC100000, 12), Prefix(0xC0A80000, 16)]

  // fc00::/7, fe80::/10, ff00::/8
  const LOCAL_BYPASS_V6: seq<Prefix> :=
    [Prefix(0xFC00_0000_0000_0000_0000_0000_0000_0000, 7),
     Prefix(0xFE80_0000_0000_0000_0000_0000_0000_0000, 10),
     Prefix(0xFF00_0000_0000_0000_0000_0000_0000_0000, 8)]

  // That many one bits.
  function Ones(k: nat): (b: Bits)
    ensures |b| == k
  {
    seq(k, _ => true)
  }

  // The bypassed IPv4 prefixes: 10, 172.16 and 192.168.
  const BYPASS_BITS_V4: seq<Bits> := [BitsOfNumber(10, 8), BitsOfNumber(0xAC1, 12), BitsOfNumber(0xC0A8, 16)]

  // The bypassed IPv6 prefixes: 1111110, 1111111010 and 11111111.
  const BYPASS_BITS_V6: seq<Bits> := [Ones(6) + [false], Ones(7) + [false, true, false], Ones(8)]

  lemma IsPrefixOf(p: Prefix, v: nat, width: nat)
    requires p.length <= width && p.network == ShiftLeft(v, width - p.length) && ShiftRight(v, p.length) == 0
    ensures IsPrefix(p, width) && BitsOf(p, width) == BitsOfNumber(v, p.length)
  {
    PrefixOfIndex(v, p.length, width);
  }

  lemma Left8(v: nat, n: nat)
    ensures ShiftLeft(v, n + 8) == 0x100 * ShiftLeft(v, n)
  {
    assert ShiftLeft(v, n + 4) == 16 * ShiftLeft(v, n) by {
      assert ShiftLeft(v, n + 2) == 4 * ShiftLeft(v, n);
    }
    assert ShiftLeft(v, n + 8) == 16 * ShiftLeft(v, n + 4) by {
      assert ShiftLeft(v, n + 6) == 4 * ShiftLeft(v, n + 4);
    }
  }

  lemma Left24(v: nat, n: nat)
    ensures ShiftLeft(v, n + 24) == 0x100_0000 * ShiftLeft(v, n)
  {
    hide ShiftLeft;
    Left8(v, n);
    Left8(v, n + 8);
    Left8(v, n + 16);
  }

  lemma Left32(v: nat, n: nat)
    ensures ShiftLeft(v, n + 32) == 0x1_0000_0000 * ShiftLeft(v, n)
  {
    hide ShiftLeft;
    Left8(v, n);
    Left24(v, n + 8);
  }

  lemma Left64(v: nat, n: nat)
    ensures ShiftLeft(v, n + 64) == 0x1_0000_0000_0000_0000 * ShiftLeft(v, n)
  {
    hide ShiftLeft;
    Left32(v, n);
    Left32(v, n + 32);
  }

  lemma Left56(v: nat, n: nat)
    ensures ShiftLeft(v, n + 56) == 0x100_0000_0000_0000 * ShiftLeft(v, n)
  {
    hide ShiftLeft;
    Left24(v, n);
    Left32(v, n + 24);
  }

  lemma NetworksV4()
    ensures ShiftLeft(10, 24) == LOCAL_BYPASS_V4[0].network
    ensures ShiftLeft(0xAC1, 20) == LOCAL_BYPASS_V4[1].network
    ensures ShiftLeft(0xC0A8, 16) == LOCAL_BYPASS_V4[2].network
  {
    assert ShiftLeft(10, 0) == 10 && ShiftLeft(0xAC1, 4) == 0xAC10 && ShiftLeft(0xC0A8, 0) == 0xC0A8;
    hide ShiftLeft;
    Left24(10, 0);
    Left8(0xAC1, 4);
    Left8(0xAC1, 12);
    Left8(0xC0A8, 0);
    Left8(0xC0A8, 8);
  }

  lemma UlaNetwork()
    ensures ShiftLeft(126, 121) == LOCAL_BYPASS_V6[0].network
  {
    assert ShiftLeft(126, 1) == 252;
    hide ShiftLeft;
    Left56(126, 1);
    Left64(126, 57);
  }

  lemma LinkLocalNetwork()
    ensures ShiftLeft(1018, 118) == LOCAL_BYPASS_V6[1].network
  {
    assert ShiftLeft(1018, 6) == 65152;
    hide ShiftLeft;
    Left56(1018, 6);
    Left56(1018, 62);
  }

  lemma MulticastNetwork()
    ensures ShiftLeft(255, 120) == LOCAL_BYPASS_V6[2].network
  {
    assert ShiftLeft(255, 0) == 255;
    hide ShiftLeft;
    Left56(255, 0);
    Left64(255, 56);
  }

  // A number all of whose low bits are ones.
  lemma {:induction false} OnesOfNumber(k: nat)
    ensures BitsOfNumber(Pow2(k) - 1, k) == Ones(k) && ShiftRight(Pow2(k) - 1, k) == 0
  {
    if k > 0 {
      OnesOfNumber(k - 1);
      assert (Pow2(k) - 1) / 2 == Pow2(k - 1) - 1;
      assert Ones(k) == Ones(k - 1) + [true];
    }
  }

  lemma BypassBits()
    ensures BitsOfNumber(126, 7) == BYPASS_BITS_V6[0] && ShiftRight(126, 7) == 0
    ensures BitsOfNumber(1018, 10) == BYPASS_BITS_V6[1] && ShiftRight(1018, 10) == 0
    ensures BitsOfNumber(255, 8) == BYPASS_BITS_V6[2] && ShiftRight(255, 8) == 0
  {
    assert Pow2(6) == 64 && Pow2(7) == 128 && Pow2(8) == 256;
    OnesOfNumber(6);
    OnesOfNumber(7);
    OnesOfNumber(8);
    hide Ones;
    assert BitsOfNumber(126, 7) == BitsOfNumber(63, 6) + [false];
    assert BitsOfNumber(254, 8) == BitsOfNumber(127, 7) + [false];
    assert BitsOfNumber(509, 9) == BitsOfNumber(254, 8) + [true];
    assert BitsOfNumber(1018, 10) == BitsOfNumber(509, 9) + [false];
    assert ShiftRight(1018, 10) == ShiftRight(127, 7);
    assert ShiftRight(126, 7) == ShiftRight(63, 6);
  }

  // The table, as it is spelt and as its bits.
  lemma TableV6()
    ensures AllPrefixes(LOCAL_BYPASS_V6, 128) && BitsOfAll(LOCAL_BYPASS_V6, 128) == BYPASS_BITS_V6
  {
    hide IsPrefix, BitsOf, BitsOfNumber, ShiftLeft, ShiftRight, Ones;
    BypassBits();
    UlaNetwork();
    LinkLocalNetwork();
    MulticastNetwork();
    IsPrefixOf(LOCAL_BYPASS_V6[0], 126, 128);
    IsPrefixOf(LOCAL_BYPASS_V6[1], 1018, 128);
    IsPrefixOf(LOCAL_BYPASS_V6[2], 255, 128);
  }

  lemma Differ(p: Bits, q: Bits, k: nat)
    requires k < |p| && k < |q| && p[k] != q[k]
    ensures Apart(p, q)
  {
  }

  lemma TableV6IsApart()
    ensures PairwiseApart(BYPASS_BITS_V6)
  {
    var t := BYPASS_BITS_V6;
    Differ(t[0], t[1], 6);
    Differ(t[0], t[2], 6);
    Differ(t[1], t[2], 7);
  }

  // ---- what is captured below a node with one bypassed prefix in it ----

  // The siblings of the nodes from a node down to a prefix below it, low to high.
  function Siblings(node: Bits, target: Bits): (out: seq<Bits>)
    requires node <= target
    ensures |out| == |target| - |node|
    decreases |target| - |node|
  {
    if node == target then []
    else
      var next := node + [target[|node|]];
      NextBit(node, target);
      if target[|node|] then [node + [false]] + Siblings(next, target) else Siblings(next, target) + [node + [true]]
  }

  // Of the whole table only entry i lies at or below the node.
  ghost predicate OnlyBelow(table: seq<Bits>, node: Bits, i: nat) {
    i < |table| && node <= table[i] && forall j | 0 <= j < |table| && j != i :: Apart(table[j], node)
  }

  lemma OnlyBelowNext(table: seq<Bits>, node: Bits, i: nat)
    requires OnlyBelow(table, node, i) && node != table[i]
    ensures OnlyBelow(table, node + [table[i][|node|]], i)
    ensures forall j | 0 <= j < |table| :: Apart(table[j], node + [!table[i][|node|]])
  {
    NextBit(node, table[i]);
    forall j, bit | 0 <= j < |table| && j != i ensures Apart(table[j], node + [bit]) {
      ApartBelow(table[j], node, bit);
    }
    Differ(table[i], node + [!table[i][|node|]], |node|);
  }

  lemma ApartBelow(p: Bits, node: Bits, bit: bool)
    requires Apart(p, node)
    ensures Apart(p, node + [bit])
  {
  }

  lemma UntouchedIsKept(table: seq<Bits>, node: Bits, width: nat)
    requires Fit(table, width) && |node| <= width && forall j | 0 <= j < |table| :: Apart(table[j], node)
    ensures Complement(table, node, width) == [node]
  {
  }

  lemma EntryIsDropped(table: seq<Bits>, i: nat, width: nat)
    requires Fit(table, width) && i < |table| && |table[i]| <= width
    ensures Complement(table, table[i], width) == []
  {
    assert table[i] <= table[i];
  }

  lemma Splits(table: seq<Bits>, node: Bits, i: nat, width: nat)
    requires Fit(table, width) && i < |table| && node <= table[i] && !IsCovered(table, node)
    ensures |node| < width
    ensures Complement(table, node, width)
            == Complement(table, node + [false], width) + Complement(table, node + [true], width)
  {
    SplittableBelowWidth(table, node, width);
  }

  // Below a node that holds a single bypassed prefix the siblings along the way to it are captured.
  lemma {:induction false} CapturesSiblings(table: seq<Bits>, node: Bits, i: nat, width: nat)
    requires Fit(table, width) && OnlyBelow(table, node, i) && |node| <= width
    ensures Complement(table, node, width) == Siblings(node, table[i])
    decreases |table[i]| - |node|
  {
    hide Complement;
    if node == table[i] {
      EntryIsDropped(table, i, width);
    } else {
      var bit := table[i][|node|];
      assert !IsCovered(table, node);
      Splits(table, node, i, width);
      OnlyBelowNext(table, node, i);
      CapturesSiblings(table, node + [bit], i, width);
      UntouchedIsKept(table, node + [!bit], width);
    }
  }

  // ---- IPv4 ----

  // The first bits of a number whose highest ones are h.
  lemma TopBits(v: nat, length: nat, n: nat, h: nat)
    requires n <= length && ShiftRight(v, length - n) == h
    ensures BitsOfNumber(v, length)[..n] == BitsOfNumber(h, n) && ShiftRight(v, length) == ShiftRight(h, n)
  {
    FirstBits(v, length, n);
    RightRight(v, length - n, n);
  }

  lemma BitsV4()
    ensures var t := BYPASS_BITS_V4; |t[0]| == 8 && |t[1]| == 12 && |t[2]| == 16
    ensures var t := BYPASS_BITS_V4; t[0][..1] == [false] && t[1][..2] == [true, false] && t[2][..2] == [true, true]
    ensures ShiftRight(10, 8) == 0 && ShiftRight(0xAC1, 12) == 0 && ShiftRight(0xC0A8, 16) == 0
  {
    assert ShiftRight(10, 7) == 0 && ShiftRight(0xAC1, 10) == 2 && ShiftRight(0xC0A8, 14) == 3;
    assert ShiftRight(0, 1) == 0 && ShiftRight(2, 2) == 0 && ShiftRight(3, 2) == 0;
    assert BitsOfNumber(0, 1) == [false] && BitsOfNumber(2, 2) == [true, false] && BitsOfNumber(3, 2) == [true, true];
    hide ShiftRight, BitsOfNumber;
    TopBits(10, 8, 1, 0);
    TopBits(0xAC1, 12, 2, 2);
    TopBits(0xC0A8, 16, 2, 3);
  }

  // The table, as it is spelt and as its bits.
  lemma TableV4()
    ensures AllPrefixes(LOCAL_BYPASS_V4, 32) && BitsOfAll(LOCAL_BYPASS_V4, 32) == BYPASS_BITS_V4
  {
    BitsV4();
    hide IsPrefix, BitsOf, BitsOfNumber, ShiftLeft, ShiftRight;
    NetworksV4();
    IsPrefixOf(LOCAL_BYPASS_V4[0], 10, 32);
    IsPrefixOf(LOCAL_BYPASS_V4[1], 0xAC1, 32);
    IsPrefixOf(LOCAL_BYPASS_V4[2], 0xC0A8, 32);
  }

  lemma TableV4IsApart()
    ensures PairwiseApart(BYPASS_BITS_V4)
  {
    BitsV4();
    hide BitsOfNumber;
    var t := BYPASS_BITS_V4;
    assert !t[0][..1][0] && t[1][..2][0] && !t[1][..2][1] && t[2][..2][0] && t[2][..2][1];
    Differ(t[0], t[1], 0);
    Differ(t[0], t[2], 0);
    Differ(t[1], t[2], 1);
  }

  // The captured prefixes: the siblings along the way from 0.0.0.0/1 to 10.0.0.0/8, from 128.0.0.0/2 to 172.16.0.0/12
  // and from 192.0.0.0/2 to 192.168.0.0/16.
  ghost function CapturedBitsV4(): (out: seq<Bits>)
    ensures |out| == 31
  {
    BitsV4();
    var t := BYPASS_BITS_V4;
    Siblings([false], t[0]) + Siblings([true, false], t[1]) + Siblings([true, true], t[2])
  }

  lemma CapturesV4()
    ensures Fit(BYPASS_BITS_V4, 32) && Complement(BYPASS_BITS_V4, [], 32) == CapturedBitsV4()
  {
    BitsV4();
    hide Complement, BitsOfNumber, Siblings;
    var t := BYPASS_BITS_V4;
    assert !t[0][..1][0] && t[1][..2][0] && !t[1][..2][1] && t[2][..2][0] && t[2][..2][1];
    assert !IsCovered(t, []) && !IsCovered(t, [true]);
    Splits(t, [], 0, 32);
    Splits(t, [true], 1, 32);
    assert [] + [false] == [false] && [] + [true] == [true];
    assert [true] + [false] == [true, false] && [true] + [true] == [true, true];
    Differ(t[1], [false], 0);
    Differ(t[2], [false], 0);
    CapturesSiblings(t, [false], 0, 32);
    Differ(t[0], [true, false], 0);
    Differ(t[2], [true, false], 1);
    CapturesSiblings(t, [true, false], 1, 32);
    Differ(t[0], [true, true], 0);
    Differ(t[1], [true, true], 1);
    CapturesSiblings(t, [true, true], 2, 32);
    InThree(Siblings([false], t[0]), Siblings([true, false], t[1]), Siblings([true, true], t[2]));
  }

  lemma InThree<T>(a: seq<T>, b: seq<T>, c: seq<T>)
    ensures a + (b + c) == a + b + c
  {
  }

  // What the tun captures of IPv4: 31 prefixes.
  method CaptureV4() returns (out: seq<Prefix>)
    ensures |out| == 31 && AllPrefixes(out, 32) && BitsOfAll(out, 32) == CapturedBitsV4()
  {
    TableV4();
    CapturesV4();
    hide CapturedBitsV4, Complement;
    out := Subtract(LOCAL_BYPASS_V4, 32, STACK_V4);
    assert |out| == |BitsOfAll(out, 32)|;
  }

  // ---- IPv6 ----

  // The eight captured prefixes: ::/1, 8000::/2, c000::/3, e000::/4, f000::/5 and f800::/6 are some ones and a
  // zero; then fe00::/9 and fec0::/10.
  const CAPTURED_BITS_V6: seq<Bits> :=
    seq(6, i requires 0 <= i < 6 => Ones(i) + [false]) + [Ones(7) + [false, false], Ones(7) + [false, true, true]]

  lemma OnesThenZero(k: nat)
    requires k < 6 && Fit(BYPASS_BITS_V6, 128)
    ensures Complement(BYPASS_BITS_V6, Ones(k), 128)
            == [Ones(k) + [false]] + Complement(BYPASS_BITS_V6, Ones(k + 1), 128)
  {
    hide Complement;
    var t, node := BYPASS_BITS_V6, Ones(k) + [false];
    assert Ones(k) <= t[2] && !IsCovered(t, Ones(k));
    Splits(t, Ones(k), 2, 128);
    Differ(t[0], node, k);
    Differ(t[1], node, k);
    Differ(t[2], node, k);
    UntouchedIsKept(t, node, 128);
    assert Ones(k) + [true] == Ones(k + 1);
  }

  lemma {:induction false} CapturesFrom(k: nat)
    requires k <= 6 && Fit(BYPASS_BITS_V6, 128)
    ensures Complement(BYPASS_BITS_V6, Ones(k), 128)
            == seq(6 - k, i requires 0 <= i < 6 - k => Ones(k + i) + [false]) + Complement(BYPASS_BITS_V6, Ones(6), 128)
    decreases 6 - k
  {
    hide Complement, Ones;
    if k < 6 {
      CapturesFrom(k + 1);
      OnesThenZero(k);
      assert seq(6 - k, i requires 0 <= i < 6 - k => Ones(k + i) + [false])
          == [Ones(k) + [false]] + seq(5 - k, i requires 0 <= i < 5 - k => Ones(k + 1 + i) + [false]);
    }
  }

  lemma SiblingsOfLinkLocal()
    ensures var node := Ones(7) + [false];
            node <= BYPASS_BITS_V6[1] && Siblings(node, BYPASS_BITS_V6[1]) == [node + [false], node + [true, true]]
  {
    var t, node := BYPASS_BITS_V6[1], Ones(7) + [false];
    assert node + [true] <= t && node + [true] + [false] == t;
    assert t[8] && !t[9];
    assert Siblings(node + [true], t) == Siblings(t, t) + [node + [true] + [true]];
    assert Siblings(node, t) == [node + [false]] + Siblings(node + [true], t);
    assert node + [true] + [true] == node + [true, true];
  }

  // Six ones split into fc00::/7 and seven ones, which split into what fe80::/10 leaves and ff00::/8.
  lemma CapturesLast()
    requires Fit(BYPASS_BITS_V6, 128)
    ensures Complement(BYPASS_BITS_V6, Ones(6), 128) == [Ones(7) + [false, false], Ones(7) + [false, true, true]]
  {
    hide Complement, Siblings;
    var t, seven := BYPASS_BITS_V6, Ones(7);
    var zero := seven + [false];
    assert Ones(6) + [true] == seven && seven + [true] == t[2] && Ones(6) + [false] == t[0];
    assert !IsCovered(t, Ones(6));
    Differ(t[0], seven, 6);
    assert !IsCovered(t, seven);
    Splits(t, Ones(6), 2, 128);
    Splits(t, seven, 2, 128);
    EntryIsDropped(t, 0, 128);
    EntryIsDropped(t, 2, 128);
    Differ(t[0], zero, 6);
    Differ(t[2], zero, 7);
    CapturesSiblings(t, zero, 1, 128);
    SiblingsOfLinkLocal();
    assert zero + [false] == seven + [false, false] && zero + [true, true] == seven + [false, true, true];
  }

  lemma CapturesEight()
    ensures Fit(BYPASS_BITS_V6, 128) && Complement(BYPASS_BITS_V6, [], 128) == CAPTURED_BITS_V6
  {
    hide Complement;
    CapturesFrom(0);
    CapturesLast();
    assert Ones(0) == [];
    assert seq(6, i requires 0 <= i < 6 => Ones(0 + i) + [false]) == seq(6, i requires 0 <= i < 6 => Ones(i) + [false]);
  }

  // What the tun captures of IPv6.
  method CaptureV6() returns (out: seq<Prefix>)
    ensures AllPrefixes(out, 128) && BitsOfAll(out, 128) == CAPTURED_BITS_V6
  {
    TableV6();
    CapturesEight();
    out := Subtract(LOCAL_BYPASS_V6, 128, STACK_V6);
  }

  // Every table whose prefixes are apart: its prefixes and the captured ones are apart, their sizes add up to all
  // addresses, and each address lies in exactly one of them.
  lemma CaptureAndBypassCover(table: seq<Bits>, width: nat, a: Bits)
    requires Fit(table, width) && PairwiseApart(table) && IsAddress(width, a)
    ensures var all := Complement(table, [], width) + table;
            && PairwiseApart(all) && Fit(all, width) && SumBelow(all, [], width) == Pow2(width)
            && (exists i :: Holds(all, i, a)) && forall i, j | Holds(all, i, a) && Holds(all, j, a) :: i == j
  {
    hide Complement, SumBelow;
    var captured := Complement(table, [], width);
    var all := captured + table;
    CaptureIsBelow(table, [], width);
    CapturesAscending(table, [], width);
    AllApart(captured, table);
    forall b | IsAddress(width, b) ensures CoversBelow(all, [], b) {
      CapturesExactly(table, [], width, b);
      OneHolds(captured, table, b);
    }
    CoverExactly(all, width);
    assert CoversBelow(all, [], a);
    var i :| 0 <= i < |all| && [] <= all[i] <= a;
    assert Holds(all, i, a);
  }

  lemma AllApart(captured: seq<Bits>, table: seq<Bits>)
    requires Ascending(captured) && PairwiseApart(table)
    requires forall p, i | p in captured && 0 <= i < |table| :: Apart(p, table[i])
    ensures PairwiseApart(captured + table)
  {
    var all := captured + table;
    forall i, j | 0 <= i < j < |all| ensures Apart(all[i], all[j]) {
      if j < |captured| {
        PrecedingAreApart(captured[i], captured[j]);
      } else if i < |captured| {
        assert captured[i] in captured;
      } else {
        assert Apart(table[i - |captured|], table[j - |captured|]);
      }
    }
  }

  lemma OneHolds(captured: seq<Bits>, table: seq<Bits>, a: Bits)
    requires IsCovered(captured, a) || IsCovered(table, a)
    ensures CoversBelow(captured + table, [], a)
  {
    var all := captured + table;
    if i :| 0 <= i < |captured| && captured[i] <= a {
      assert [] <= all[i] <= a;
    } else {
      var j :| 0 <= j < |table| && table[j] <= a;
      assert [] <= all[|captured| + j] <= a;
    }
  }

  // Every IPv6 address lies in exactly one of the eight captured and three bypassed prefixes.
  lemma V6CoverExactly(a: Bits)
    requires IsAddress(128, a)
    ensures var all := CAPTURED_BITS_V6 + BYPASS_BITS_V6;
            && Fit(all, 128) && SumBelow(all, [], 128) == Pow2(128)
            && (exists i :: Holds(all, i, a)) && forall i, j | Holds(all, i, a) && Holds(all, j, a) :: i == j
  {
    hide Complement, SumBelow;
    CapturesEight();
    TableV6IsApart();
    CaptureAndBypassCover(BYPASS_BITS_V6, 128, a);
  }

  // Every IPv4 address lies in exactly one of the 31 captured and three bypassed prefixes.
  lemma V4CoverExactly(a: Bits)
    requires IsAddress(32, a)
    ensures var all := CapturedBitsV4() + BYPASS_BITS_V4;
            && |all| == 34 && Fit(all, 32) && SumBelow(all, [], 32) == Pow2(32)
            && (exists i :: Holds(all, i, a)) && forall i, j | Holds(all, i, a) && Holds(all, j, a) :: i == j
  {
    CapturesV4();
    hide Complement, SumBelow, CapturedBitsV4;
    TableV4IsApart();
    CaptureAndBypassCover(BYPASS_BITS_V4, 32, a);
  }
}
