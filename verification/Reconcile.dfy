// Bringing a panel's children to a wanted list in place (app/src/App/AppRuleRows.h), over children with the
// panel's bounds (app/tools/app-rule-rows-tests.cpp).
module Reconciling {
  import opened Lists
  import opened Options

  function Removed<T>(s: seq<T>, i: nat): seq<T>
    requires i < |s|
  {
    s[..i] + s[i + 1..]
  }

  function Inserted<T>(s: seq<T>, i: nat, e: T): seq<T>
    requires i <= |s|
  {
    s[..i] + [e] + s[i..]
  }

  // What the first pass leaves: the children the wanted list holds.
  function Kept<T(==)>(items: seq<T>, want: seq<T>): seq<T> {
    if items == [] then []
    else (if items[0] in want then [items[0]] else []) + Kept(items[1..], want)
  }

  // One turn of the second pass; None is E_BOUNDS.
  function Place<T(==)>(items: seq<T>, i: nat, e: T): Option<seq<T>> {
    if e !in items then if i <= |items| then Some(Inserted(items, i, e)) else None
    else
      var cur := IndexOf(items, e);
      if cur == i then Some(items)
      else
        var rest := Removed(items, cur);
        if i <= |rest| then Some(Inserted(rest, i, e)) else None
  }

  function Placed<T(==)>(items: seq<T>, want: seq<T>, n: nat): Option<seq<T>>
    requires n <= |want|
  {
    if n == 0 then Some(items)
    else
      var before := Placed(items, want, n - 1);
      if before.None? then None else Place(before.value, n - 1, want[n - 1])
  }

  function Reconciled<T(==)>(items: seq<T>, want: seq<T>): Option<seq<T>> {
    Placed(Kept(items, want), want, |want|)
  }

  // A panel's children. An index out of bounds throws E_BOUNDS, reported here as `ok` being false.
  class Children<T(==)> {
    var items: seq<T>

    constructor ()
      ensures items == []
    {
      items := [];
    }

    method GetAt(i: nat) returns (ok: bool, e: Option<T>)
      ensures ok == (i < |items|) && e == if ok then Some(items[i]) else None
    {
      if i >= |items| {
        return false, None;
      }
      return true, Some(items[i]);
    }

    method RemoveAt(i: nat) returns (ok: bool)
      modifies this
      ensures ok == (i < |old(items)|) && items == if ok then Removed(old(items), i) else old(items)
    {
      if i >= |items| {
        return false;
      }
      items := items[..i] + items[i + 1..];
      return true;
    }

    method InsertAt(i: nat, e: T) returns (ok: bool)
      modifies this
      ensures ok == (i <= |old(items)|) && items == if ok then Inserted(old(items), i, e) else old(items)
    {
      if i > |items| {
        return false;
      }
      items := items[..i] + [e] + items[i..];
      return true;
    }

    method IndexOf(e: T) returns (index: Option<nat>)
      ensures index == if e in items then Some(Lists.IndexOf(items, e)) else None
    {
      for i := 0 to |items|
        invariant e !in items[..i]
      {
        if items[i] == e {
          FirstIndex(items, e, i);
          return Some(i);
        }
      }
      return None;
    }
  }

  // One child fewer to look at: it stands below the kept ones, where it stays or is removed.
  lemma DropStep<T>(was: seq<T>, want: seq<T>, i: nat)
    requires 0 < i <= |was|
    ensures var items, child := was[..i] + Kept(was[i..], want), was[i - 1];
            && items[i - 1] == child
            && (if child in want then items else Removed(items, i - 1)) == was[..i - 1] + Kept(was[i - 1..], want)
  {
    var below, child, above := was[..i - 1], was[i - 1], Kept(was[i..], want);
    hide Kept;
    assert was[..i] + above == below + ([child] + above);
    assert Removed(below + ([child] + above), i - 1) == below + above;
  }

  // The first pass, from the last child down.
  method DropUnwanted<T(==)>(children: Children<T>, want: seq<T>) returns (ok: bool)
    modifies children
    ensures ok && children.items == Kept(old(children.items), want)
  {
    assert Kept([], want) == [];
    hide Kept, Removed;
    ghost var was := children.items;
    var i := |children.items|;
    assert was[i..] == [];
    while i > 0
      invariant 0 <= i <= |was| && children.items == was[..i] + Kept(was[i..], want)
    {
      DropStep(was, want, i);
      var inBounds, child := children.GetAt(i - 1);
      if !inBounds {
        return false;
      }
      if child.value !in want {
        inBounds := children.RemoveAt(i - 1);
        if !inBounds {
          return false;
        }
      }
      i := i - 1;
    }
    assert was[0..] == was;
    return true;
  }

  // One turn of the second pass.
  method PutInPlace<T(==)>(children: Children<T>, i: nat, e: T) returns (ok: bool)
    modifies children
    ensures ok == Place(old(children.items), i, e).Some?
    ensures ok ==> children.items == Place(old(children.items), i, e).value
  {
    var index := children.IndexOf(e);
    match index {
      case Some(cur) =>
        if cur == i {
          return true;
        }
        ok := children.RemoveAt(cur);
        ok := children.InsertAt(i, e);
      case None =>
        ok := children.InsertAt(i, e);
    }
  }

  method Reconcile<T(==)>(children: Children<T>, want: seq<T>) returns (ok: bool)
    modifies children
    ensures ok == Reconciled(old(children.items), want).Some?
    ensures ok ==> children.items == Reconciled(old(children.items), want).value
  {
    ok := DropUnwanted(children, want);
    ghost var kept := children.items;
    for i := 0 to |want|
      invariant Placed(kept, want, i) == Some(children.items)
    {
      ok := PutInPlace(children, i, want[i]);
      if !ok {
        PlacedFails(kept, want, i + 1, |want|);
        return false;
      }
    }
    return true;
  }

  lemma {:induction false} PlacedFails<T>(items: seq<T>, want: seq<T>, i: nat, n: nat)
    requires i <= n <= |want| && Placed(items, want, i).None?
    ensures Placed(items, want, n).None?
  {
    if i < n {
      PlacedFails(items, want, i, n - 1);
    }
  }

  // ---- what the children end as ----

  lemma {:induction false} KeptCounts<T>(items: seq<T>, want: seq<T>, e: T)
    ensures multiset(Kept(items, want))[e] == if e in want then multiset(items)[e] else 0
  {
    if items != [] {
      assert items == [items[0]] + items[1..];
      KeptCounts(items[1..], want, e);
    }
  }

  lemma InsertedCounts<T>(s: seq<T>, i: nat, e: T)
    requires i <= |s|
    ensures multiset(Inserted(s, i, e)) == multiset(s) + multiset{e}
  {
    assert s == s[..i] + s[i..];
  }

  lemma RemovedCounts<T>(s: seq<T>, i: nat)
    requires i < |s|
    ensures multiset(Removed(s, i)) == multiset(s) - multiset{s[i]}
  {
    assert s == s[..i] + [s[i]] + s[i + 1..];
  }

  // One turn puts the element at its place, in bounds, and counts one more of it only where there was none.
  lemma PlaceKeepsCounts<T>(items: seq<T>, i: nat, e: T)
    requires i <= |items| && e !in items[..i]
    ensures var after := Place(items, i, e);
            && after.Some? && |after.value| > i && after.value[..i] == items[..i] && after.value[i] == e
            && multiset(after.value) == multiset(items) + if e in items then multiset{} else multiset{e}
  {
    if e !in items {
      InsertedCounts(items, i, e);
    } else if IndexOf(items, e) != i {
      var cur := IndexOf(items, e);
      RemovedCounts(items, cur);
      InsertedCounts(Removed(items, cur), i, e);
    }
  }

  function AtLeastOne(n: nat): nat {
    if n == 0 then 1 else n
  }

  // One turn of the second pass over a list that starts with the first i wanted elements.
  lemma PlaceStep<T>(before: seq<T>, want: seq<T>, i: nat)
    requires i < |want| && Distinct(want) && want[..i] <= before
    ensures var v := Place(before, i, want[i]);
            && v.Some? && want[..i + 1] <= v.value
            && forall x ::
                 multiset(v.value)[x] == if x == want[i] then AtLeastOne(multiset(before)[x]) else multiset(before)[x]
  {
    assert before[..i] == want[..i];
    PlaceKeepsCounts(before, i, want[i]);
    assert want[i] in before <==> multiset(before)[want[i]] > 0;
    assert want[..i + 1] == want[..i] + [want[i]];
  }

  lemma {:induction false} PlacedFront<T>(items: seq<T>, want: seq<T>, n: nat)
    requires n <= |want| && Distinct(want)
    ensures Placed(items, want, n).Some? && want[..n] <= Placed(items, want, n).value
  {
    if n > 0 {
      PlacedFront(items, want, n - 1);
      PlaceStep(Placed(items, want, n - 1).value, want, n - 1);
    }
  }

  lemma {:induction false} PlacedCounts<T>(items: seq<T>, want: seq<T>, n: nat, x: T)
    requires n <= |want| && Distinct(want) && Placed(items, want, n).Some?
    ensures multiset(Placed(items, want, n).value)[x]
            == if x in want[..n] then AtLeastOne(multiset(items)[x]) else multiset(items)[x]
  {
    hide Place, AtLeastOne;
    if n > 0 {
      PlacedFront(items, want, n - 1);
      PlacedCounts(items, want, n - 1, x);
      PlaceStep(Placed(items, want, n - 1).value, want, n - 1);
    }
  }

  // The copies of a wanted element the panel started with, past the first.
  function SurplusOf<T(==)>(items: seq<T>, want: seq<T>, e: T): nat {
    if e in want && multiset(items)[e] > 1 then multiset(items)[e] - 1 else 0
  }

  // For a duplicate-free wanted list nothing is ever out of bounds, and the children end as that list followed by
  // the surplus copies of its elements the panel started with.
  lemma ReconciledIsWantAndSurplus<T>(items: seq<T>, want: seq<T>, e: T)
    requires Distinct(want)
    ensures Reconciled(items, want).Some? && want <= Reconciled(items, want).value
    ensures multiset(Reconciled(items, want).value[|want|..])[e] == SurplusOf(items, want, e)
  {
    hide Kept, Placed;
    var kept := Kept(items, want);
    PlacedFront(kept, want, |want|);
    var v := Placed(kept, want, |want|).value;
    assert want[..|want|] == want && v == want + v[|want|..];
    KeptCounts(items, want, e);
    PlacedCounts(kept, want, |want|, e);
    DistinctCounts(want, e);
  }

  lemma {:induction false} DistinctCounts<T>(s: seq<T>, e: T)
    requires Distinct(s)
    ensures multiset(s)[e] == if e in s then 1 else 0
  {
    if s != [] {
      assert s == [s[0]] + s[1..];
      DistinctCounts(s[1..], e);
    }
  }

  lemma ExactMeansNoSurplus<T>(items: seq<T>, want: seq<T>, e: T)
    requires Distinct(want) && Reconciled(items, want) == Some(want) && e in want
    ensures multiset(items)[e] <= 1
  {
    ReconciledIsWantAndSurplus(items, want, e);
    assert want[|want|..] == [];
  }

  lemma InexactMeansSurplus<T>(items: seq<T>, want: seq<T>) returns (e: T)
    requires Distinct(want) && Reconciled(items, want) != Some(want)
    ensures e in want && multiset(items)[e] > 1
  {
    PlacedFront(Kept(items, want), want, |want|);
    var v := Placed(Kept(items, want), want, |want|).value;
    assert want[..|want|] == want && v == want + v[|want|..];
    var surplus := v[|want|..];
    assert surplus == [] ==> v == want;
    e := surplus[0];
    ReconciledIsWantAndSurplus(items, want, e);
    assert e in surplus;
  }

  // The children end as exactly the wanted list when, and only when, the panel held none of its elements twice.
  lemma ReconcilesExactly<T>(items: seq<T>, want: seq<T>)
    requires Distinct(want)
    ensures Reconciled(items, want) == Some(want) <==> forall e | e in want :: multiset(items)[e] <= 1
  {
    if Reconciled(items, want) == Some(want) {
      forall e | e in want ensures multiset(items)[e] <= 1 {
        ExactMeansNoSurplus(items, want, e);
      }
    } else {
      var e := InexactMeansSurplus(items, want);
    }
  }

  // A panel that holds a wanted child twice keeps the second copy.
  lemma SurplusCopyStays<T>(e: T)
    ensures Reconciled([e, e], [e]) == Some([e, e])
  {
    var none: seq<T> := [];
    assert [e, e][1..] == [e] && [e][1..] == none;
    assert Kept([e], [e]) == [e] + Kept(none, [e]) == [e];
    assert Kept([e, e], [e]) == [e] + Kept([e], [e]) == [e, e];
    assert Placed([e, e], [e], 1) == Place([e, e], 0, e) == Some([e, e]);
  }

  // A list that wants one child twice throws.
  lemma WantedTwiceThrows<T>(e: T)
    ensures Reconciled([], [e, e]) == None
  {
    var none: seq<T> := [];
    assert Inserted(none, 0, e) == [e] && Removed([e], 0) == none;
    assert Placed(none, [e, e], 1) == Place(none, 0, e) == Some([e]);
    assert Place([e], 1, e) == None;
  }
}
