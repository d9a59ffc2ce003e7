/** A stable sort by insertion, for any total preorder `before`. */
module Sorting {

  ghost predicate Ordered<T>(xs: seq<T>, before: (T, T) -> bool) {
    forall i, j :: 0 <= i < j < |xs| ==> before(xs[i], xs[j])
  }

  ghost predicate TotalPreorder<T(!new)>(before: (T, T) -> bool) {
    && (forall a, b :: before(a, b) || before(b, a))
    && (forall a, b, c :: before(a, b) && before(b, c) ==> before(a, c))
  }

  /** Put `x` behind every element that may stand before it. */
  function Inserted<T>(xs: seq<T>, x: T, before: (T, T) -> bool): seq<T> {
    if xs == [] || before(xs[|xs| - 1], x) then xs + [x]
    else Inserted(xs[..|xs| - 1], x, before) + [xs[|xs| - 1]]
  }

  function Sorted<T>(xs: seq<T>, before: (T, T) -> bool): seq<T> {
    if xs == [] then [] else Inserted(Sorted(xs[..|xs| - 1], before), xs[|xs| - 1], before)
  }

  lemma SortedOne<T>(x: T, before: (T, T) -> bool)
    ensures Sorted([x], before) == [x]
  {
    assert [x][..0] == [];
  }

  lemma {:induction false} InsertedPermutes<T>(xs: seq<T>, x: T, before: (T, T) -> bool)
    ensures multiset(Inserted(xs, x, before)) == multiset(xs) + multiset{x}
  {
    if xs != [] && !before(xs[|xs| - 1], x) {
      InsertedPermutes(xs[..|xs| - 1], x, before);
      assert xs == xs[..|xs| - 1] + [xs[|xs| - 1]];
    }
  }

  lemma OrderedAppend<T(!new)>(xs: seq<T>, x: T, before: (T, T) -> bool)
    requires TotalPreorder(before) && Ordered(xs, before)
    requires xs != [] ==> before(xs[|xs| - 1], x)
    ensures Ordered(xs + [x], before)
  {
    forall i | 0 <= i < |xs| ensures before(xs[i], x) {
      if i < |xs| - 1 { assert before(xs[i], xs[|xs| - 1]); }
    }
  }

  /** Inserting keeps the order, and the last element is the old last one or the new one. */
  lemma {:induction false} InsertedOrders<T(!new)>(xs: seq<T>, x: T, before: (T, T) -> bool)
    requires TotalPreorder(before) && Ordered(xs, before)
    ensures Inserted(xs, x, before) != []
    ensures var last := Inserted(xs, x, before)[|Inserted(xs, x, before)| - 1];
            last == x || (xs != [] && last == xs[|xs| - 1])
    ensures Ordered(Inserted(xs, x, before), before)
  {
    if xs == [] || before(xs[|xs| - 1], x) {
      OrderedAppend(xs, x, before);
    } else {
      var init, last := xs[..|xs| - 1], xs[|xs| - 1];
      InsertedOrders(init, x, before);
      var rest := Inserted(init, x, before);
      assert init != [] ==> before(init[|init| - 1], last);
      hide Ordered, Inserted;
      OrderedAppend(rest, last, before);
    }
  }

  /** Sorting yields an ordered permutation. */
  lemma {:induction false} SortedSorts<T(!new)>(xs: seq<T>, before: (T, T) -> bool)
    requires TotalPreorder(before)
    ensures Ordered(Sorted(xs, before), before)
    ensures multiset(Sorted(xs, before)) == multiset(xs)
  {
    if xs != [] {
      var init, last := xs[..|xs| - 1], xs[|xs| - 1];
      assert xs == init + [last];
      SortedSorts(init, before);
      InsertedOrders(Sorted(init, before), last, before);
      InsertedPermutes(Sorted(init, before), last, before);
    }
  }

  // ---- Stability ----------------------------------------------------------------------

  /** The elements that `p` picks, in their order. */
  function Filtered<T>(xs: seq<T>, p: T -> bool): seq<T> {
    if xs == [] then []
    else Filtered(xs[..|xs| - 1], p) + if p(xs[|xs| - 1]) then [xs[|xs| - 1]] else []
  }

  lemma FilteredAppend<T>(xs: seq<T>, x: T, p: T -> bool)
    ensures Filtered(xs + [x], p) == Filtered(xs, p) + if p(x) then [x] else []
  {
    assert (xs + [x])[..|xs|] == xs;
  }

  lemma {:induction false} FilteredHead<T>(xs: seq<T>, p: T -> bool)
    requires xs != []
    ensures Filtered(xs, p) == (if p(xs[0]) then [xs[0]] else []) + Filtered(xs[1..], p)
  {
    var init := xs[..|xs| - 1];
    if init != [] {
      FilteredHead(init, p);
      FilteredAppend(init, xs[|xs| - 1], p);
      FilteredAppend(init[1..], xs[|xs| - 1], p);
      hide Filtered;
      assert xs == init + [xs[|xs| - 1]] && xs[1..] == init[1..] + [xs[|xs| - 1]];
    } else {
      assert xs[1..] == [];
    }
  }

  /** Exactly the elements that `p` picks are kept. */
  lemma {:induction false} FilteredKeeps<T>(xs: seq<T>, p: T -> bool)
    ensures forall x :: x in Filtered(xs, p) <==> x in xs && p(x)
  {
    if xs != [] {
      FilteredKeeps(xs[..|xs| - 1], p);
      assert xs == xs[..|xs| - 1] + [xs[|xs| - 1]];
    }
  }

  /** `p` picks only elements that tie with each other. */
  ghost predicate PicksTies<T(!new)>(p: T -> bool, before: (T, T) -> bool) {
    forall a, b :: p(a) && p(b) ==> before(a, b)
  }

  lemma {:induction false} InsertedIsStable<T(!new)>(xs: seq<T>, x: T, before: (T, T) -> bool, p: T -> bool)
    requires PicksTies(p, before)
    ensures Filtered(Inserted(xs, x, before), p) == Filtered(xs, p) + if p(x) then [x] else []
  {
    if xs == [] || before(xs[|xs| - 1], x) {
      FilteredAppend(xs, x, p);
    } else {
      var init, last := xs[..|xs| - 1], xs[|xs| - 1];
      InsertedIsStable(init, x, before, p);
      FilteredAppend(Inserted(init, x, before), last, p);
    }
  }

  /** Sorting keeps elements that tie with each other in their order. */
  lemma {:induction false} SortedIsStable<T(!new)>(xs: seq<T>, before: (T, T) -> bool, p: T -> bool)
    requires PicksTies(p, before)
    ensures Filtered(Sorted(xs, before), p) == Filtered(xs, p)
  {
    if xs != [] {
      SortedIsStable(xs[..|xs| - 1], before, p);
      InsertedIsStable(Sorted(xs[..|xs| - 1], before), xs[|xs| - 1], before, p);
    }
  }

  // ---- Uniqueness ---------------------------------------------------------------------

  /** Elements that may stand in either order. */
  ghost predicate Tied<T>(a: T, b: T, before: (T, T) -> bool) {
    before(a, b) && before(b, a)
  }

  lemma PermutationKeepsMembers<T>(xs: seq<T>, ys: seq<T>)
    requires multiset(xs) == multiset(ys)
    ensures |xs| == |ys| && forall x :: x in xs <==> x in ys
  {
    assert |multiset(xs)| == |xs| && |multiset(ys)| == |ys|;
    assert forall x :: x in xs <==> x in multiset(xs);
    assert forall x :: x in ys <==> x in multiset(ys);
  }

  lemma PermutationWithout<T>(xs: seq<T>, ys: seq<T>, k: nat)
    requires xs != [] && k < |ys| && ys[k] == xs[|xs| - 1] && multiset(xs) == multiset(ys)
    ensures multiset(xs[..|xs| - 1]) == multiset(ys[..k] + ys[k + 1..])
  {
    assert xs == xs[..|xs| - 1] + [xs[|xs| - 1]];
    assert ys == ys[..k] + [ys[k]] + ys[k + 1..];
    assert multiset(ys) == multiset(ys[..k]) + multiset{ys[k]} + multiset(ys[k + 1..]);
    assert multiset(xs) == multiset(xs[..|xs| - 1]) + multiset{ys[k]};
    assert multiset(ys[..k] + ys[k + 1..]) == multiset(ys) - multiset{ys[k]};
  }

  /** Two ordered permutations of the same elements agree place by place, up to ties. */
  lemma {:induction false} OrderedPermutationsAgree<T(!new)>(xs: seq<T>, ys: seq<T>, before: (T, T) -> bool)
    requires TotalPreorder(before) && Ordered(xs, before) && Ordered(ys, before)
    requires multiset(xs) == multiset(ys)
    ensures |xs| == |ys| && forall i :: 0 <= i < |xs| ==> Tied(xs[i], ys[i], before)
  {
    PermutationKeepsMembers(xs, ys);
    if xs != [] {
      var init, last := xs[..|xs| - 1], xs[|xs| - 1];
      assert last in xs;
      var k :| 0 <= k < |ys| && ys[k] == last;
      PermutationWithout(xs, ys, k);
      OrderedPermutationsAgree(init, ys[..k] + ys[k + 1..], before);
      forall i | 0 <= i < |xs| ensures Tied(xs[i], ys[i], before) {
        TiedPutBack(xs, ys, k, i, before);
      }
    }
  }

  lemma TiedPutBack<T(!new)>(xs: seq<T>, ys: seq<T>, k: nat, i: nat, before: (T, T) -> bool)
    requires TotalPreorder(before) && Ordered(xs, before) && Ordered(ys, before)
    requires k < |ys| == |xs| && ys[k] == xs[|xs| - 1] && i < |xs|
    requires var rest := ys[..k] + ys[k + 1..];
             forall j :: 0 <= j < |rest| ==> Tied(xs[..|xs| - 1][j], rest[j], before)
    ensures Tied(xs[i], ys[i], before)
  {
    var init, rest := xs[..|xs| - 1], ys[..k] + ys[k + 1..];
    if i < k {
      assert Tied(init[i], rest[i], before);
    } else if i < |init| {
      assert Tied(init[i], rest[i], before);
      assert before(xs[i], xs[|init|]) && before(ys[i], ys[i + 1]);
      assert before(ys[k], ys[i]);
    } else if k < i {
      assert Tied(init[i - 1], rest[i - 1], before);
      assert before(xs[i - 1], xs[i]) && before(ys[k], ys[i]);
    }
  }
}
