/**
 Stable sorting by a strict order: what a stable sort is, an insertion sort that is one, that there is no
 other under a weak order, and what exchanging the comparator's arguments does.
 */
module Sorting {
  import opened Basics

  // ------------------------------------------------------------------ stable sorting, stated

  /** `lt` is a strict weak order on the elements of `s`. */
  ghost predicate WeakOrder<T(!new)>(lt: (T, T) -> bool, s: seq<T>) {
    && (forall a, b | a in s && b in s :: !(lt(a, b) && lt(b, a)))
    && (forall a, b, c | a in s && b in s && c in s && !lt(b, a) && !lt(c, b) :: !lt(c, a))
  }

  ghost predicate Sorted<T>(lt: (T, T) -> bool, t: seq<T>) {
    forall i, j | 0 <= i < j < |t| :: !lt(t[j], t[i])
  }

  predicate Tied<T>(lt: (T, T) -> bool, x: T, y: T) {
    !lt(x, y) && !lt(y, x)
  }

  /** The elements of `s` that tie with `x`, in their order in `s`. */
  function TiedWith<T>(lt: (T, T) -> bool, x: T, s: seq<T>): seq<T> {
    if s == [] then []
    else TiedWith(lt, x, s[..|s| - 1]) + if Tied(lt, x, s[|s| - 1]) then [s[|s| - 1]] else []
  }

  /** `t` is a rearrangement of `s` in order, in which tied elements keep their order. */
  ghost predicate IsStableSort<T>(lt: (T, T) -> bool, s: seq<T>, t: seq<T>) {
    && multiset(t) == multiset(s)
    && Sorted(lt, t)
    && forall x | x in s :: TiedWith(lt, x, t) == TiedWith(lt, x, s)
  }

  // ----------------------------------------------------------------------- the sort itself

  /** Move `x` left past every element it is less than. */
  function Insert<T>(lt: (T, T) -> bool, s: seq<T>, x: T): seq<T> {
    if s == [] || !lt(x, s[|s| - 1]) then s + [x]
    else Insert(lt, s[..|s| - 1], x) + [s[|s| - 1]]
  }

  function Sort<T>(lt: (T, T) -> bool, s: seq<T>): seq<T> {
    if s == [] then [] else Insert(lt, Sort(lt, s[..|s| - 1]), s[|s| - 1])
  }

  lemma {:induction false} InsertElements<T>(lt: (T, T) -> bool, s: seq<T>, x: T)
    ensures multiset(Insert(lt, s, x)) == multiset(s) + multiset{x}
    ensures |Insert(lt, s, x)| == |s| + 1
  {
    if s != [] && lt(x, s[|s| - 1]) {
      InsertElements(lt, s[..|s| - 1], x);
      assert s == s[..|s| - 1] + [s[|s| - 1]];
    }
  }

  lemma {:induction false} SortElements<T>(lt: (T, T) -> bool, s: seq<T>)
    ensures multiset(Sort(lt, s)) == multiset(s)
    ensures |Sort(lt, s)| == |s|
  {
    if s != [] {
      SortElements(lt, s[..|s| - 1]);
      InsertElements(lt, Sort(lt, s[..|s| - 1]), s[|s| - 1]);
      assert s == s[..|s| - 1] + [s[|s| - 1]];
    }
  }

  lemma SameElements<T>(s: seq<T>, t: seq<T>)
    requires multiset(s) == multiset(t)
    ensures forall x :: x in s <==> x in t
  {
    forall x
      ensures x in s <==> x in t
    {
      assert x in s <==> x in multiset(s);
      assert x in t <==> x in multiset(t);
    }
  }

  lemma SortWithin<T>(lt: (T, T) -> bool, s: seq<T>, all: seq<T>)
    requires forall z | z in s :: z in all
    ensures forall z | z in Sort(lt, s) :: z in all
  {
    SortElements(lt, s);
    var t := Sort(lt, s);
    forall z | z in t
      ensures z in all
    {
      assert z in multiset(t);
      assert z in multiset(s);
      assert z in s;
    }
  }

  lemma {:induction false} InsertSorted<T(!new)>(lt: (T, T) -> bool, s: seq<T>, x: T)
    requires Sorted(lt, s) && WeakOrder(lt, s + [x])
    ensures Sorted(lt, Insert(lt, s, x))
  {
    if s != [] {
      var init, last := s[..|s| - 1], s[|s| - 1];
      assert last in s + [x] && x in s + [x];
      if lt(x, last) {
        WeakOrderWithin(lt, init + [x], s + [x]);
        InsertSorted(lt, init, x);
        NoneAfterLast(lt, s, init, last, x, Insert(lt, init, x));
        SortedSnoc(lt, Insert(lt, init, x), last);
      } else {
        forall y | y in s
          ensures !lt(x, y)
        {
          var i :| 0 <= i < |s| && s[i] == y;
          assert (s + [x])[i] == y;
        }
        SortedSnoc(lt, s, x);
      }
    }
  }

  lemma WeakOrderWithin<T(!new)>(lt: (T, T) -> bool, s: seq<T>, all: seq<T>)
    requires WeakOrder(lt, all) && forall z | z in s :: z in all
    ensures WeakOrder(lt, s)
  {
  }

  lemma NoneAfterLast<T(!new)>(lt: (T, T) -> bool, s: seq<T>, init: seq<T>, last: T, x: T, t: seq<T>)
    requires s == init + [last] && Sorted(lt, s) && WeakOrder(lt, s + [x]) && lt(x, last)
    requires t == Insert(lt, init, x)
    ensures forall y | y in t :: !lt(last, y)
  {
    InsertElements(lt, init, x);
    assert last in s + [x] && x in s + [x];
    forall y | y in t
      ensures !lt(last, y)
    {
      assert y in multiset(t);
      if y != x {
        assert y in multiset(init);
        var i :| 0 <= i < |init| && init[i] == y;
        assert s[i] == y && s[|init|] == last;
      }
    }
  }

  lemma SortedSnoc<T>(lt: (T, T) -> bool, t: seq<T>, last: T)
    requires Sorted(lt, t) && forall y | y in t :: !lt(last, y)
    ensures Sorted(lt, t + [last])
  {
  }

  lemma {:induction false} TiedWithJoin<T>(lt: (T, T) -> bool, x: T, s: seq<T>, t: seq<T>)
    ensures TiedWith(lt, x, s + t) == TiedWith(lt, x, s) + TiedWith(lt, x, t)
    decreases |t|
  {
    if t == [] {
      assert s + t == s;
    } else {
      var init, last := t[..|t| - 1], t[|t| - 1];
      assert (s + t)[..|s + t| - 1] == s + init;
      TiedWithJoin(lt, x, s, init);
    }
  }

  /** Inserting `x` moves it only past elements it does not tie with. */
  lemma {:induction false} InsertTied<T(!new)>(lt: (T, T) -> bool, s: seq<T>, x: T, y: T, all: seq<T>)
    requires WeakOrder(lt, all) && x in all && y in all && forall z | z in s :: z in all
    ensures TiedWith(lt, y, Insert(lt, s, x)) == TiedWith(lt, y, s + [x])
  {
    if s != [] && lt(x, s[|s| - 1]) {
      var init, last := s[..|s| - 1], s[|s| - 1];
      InsertTied(lt, init, x, y, all);
      assert last in s;
      assert !(Tied(lt, y, x) && Tied(lt, y, last));
      TiedSwap(lt, y, init, last, x);
      assert s == init + [last];
      TiedWithJoin(lt, y, Insert(lt, init, x), [last]);
      TiedWithJoin(lt, y, init + [x], [last]);
    }
  }

  lemma TiedSwap<T>(lt: (T, T) -> bool, y: T, init: seq<T>, a: T, b: T)
    requires !(Tied(lt, y, a) && Tied(lt, y, b))
    ensures TiedWith(lt, y, init + [a] + [b]) == TiedWith(lt, y, init + [b] + [a])
  {
    assert (init + [a] + [b])[..|init| + 1] == init + [a] && (init + [a])[..|init|] == init;
    assert (init + [b] + [a])[..|init| + 1] == init + [b] && (init + [b])[..|init|] == init;
  }

  /** The sort is a stable sort wherever the comparison is a weak order on the elements. */
  lemma {:induction false} SortIsStable<T(!new)>(lt: (T, T) -> bool, s: seq<T>)
    requires WeakOrder(lt, s)
    ensures IsStableSort(lt, s, Sort(lt, s))
  {
    if s != [] {
      var init, last := s[..|s| - 1], s[|s| - 1];
      assert s == init + [last];
      WeakOrderWithin(lt, init, s);
      SortIsStable(lt, init);
      StableSnoc(lt, s, init, last, Sort(lt, init));
    }
  }

  lemma StableSnoc<T(!new)>(lt: (T, T) -> bool, s: seq<T>, init: seq<T>, last: T, t: seq<T>)
    requires WeakOrder(lt, s) && s == init + [last] && IsStableSort(lt, init, t)
    ensures IsStableSort(lt, s, Insert(lt, t, last))
  {
    InsertElements(lt, t, last);
    SameElements(t, init);
    assert last in s;
    assert WeakOrder(lt, t + [last]);
    InsertSorted(lt, t, last);
    forall x | x in s
      ensures TiedWith(lt, x, Insert(lt, t, last)) == TiedWith(lt, x, s)
    {
      InsertTied(lt, t, last, x, s);
      SortedTail(lt, x, t, init, last, s);
    }
  }

  lemma SortedTail<T(!new)>(lt: (T, T) -> bool, x: T, t: seq<T>, init: seq<T>, last: T, s: seq<T>)
    requires s == init + [last] && x in s && WeakOrder(lt, s)
    requires IsStableSort(lt, init, t)
    ensures TiedWith(lt, x, t + [last]) == TiedWith(lt, x, s)
  {
    assert (t + [last])[..|t|] == t && s[..|s| - 1] == init;
    SameElements(t, init);
    if x in init {
    } else if exists y :: y in init && Tied(lt, x, y) {
      var y :| y in init && Tied(lt, x, y);
      TiedClasses(lt, x, y, t, s);
      TiedClasses(lt, x, y, init, s);
    } else {
      NothingTied(lt, x, t);
      NothingTied(lt, x, init);
    }
  }

  /** Elements that tie are tied with the same elements. */
  lemma {:induction false} TiedClasses<T(!new)>(lt: (T, T) -> bool, x: T, y: T, t: seq<T>, all: seq<T>)
    requires WeakOrder(lt, all) && x in all && y in all && Tied(lt, x, y) && forall z | z in t :: z in all
    ensures TiedWith(lt, x, t) == TiedWith(lt, y, t)
  {
    if t != [] {
      assert t[|t| - 1] in all;
      TiedClasses(lt, x, y, t[..|t| - 1], all);
    }
  }

  lemma {:induction false} NothingTied<T>(lt: (T, T) -> bool, x: T, t: seq<T>)
    requires forall y | y in t :: !Tied(lt, x, y)
    ensures TiedWith(lt, x, t) == []
  {
    if t != [] {
      assert t[|t| - 1] in t;
      NothingTied(lt, x, t[..|t| - 1]);
    }
  }

  // -------------------------------------------------------------------------- uniqueness

  /** In order, the last element is the last of those it ties with. */
  lemma LastOfTied<T(!new)>(lt: (T, T) -> bool, t: seq<T>, x: T, all: seq<T>)
    requires WeakOrder(lt, all) && Sorted(lt, t) && t != [] && forall z | z in t :: z in all
    requires x in t && forall z | z in t :: !lt(x, z)
    ensures Tied(lt, x, t[|t| - 1])
    ensures TiedWith(lt, x, t) != [] && TiedWith(lt, x, t)[|TiedWith(lt, x, t)| - 1] == t[|t| - 1]
  {
    var i :| 0 <= i < |t| && t[i] == x;
    var last := t[|t| - 1];
    assert last in t && x in all && last in all;
    if i < |t| - 1 {
      assert !lt(last, t[i]);
    }
  }

  /** Two orderings of the same elements that agree on every tie class are the same sequence. */
  lemma {:induction false} OrderIsUnique<T(!new)>(lt: (T, T) -> bool, t: seq<T>, u: seq<T>, all: seq<T>)
    requires WeakOrder(lt, all) && multiset(t) == multiset(u) && Sorted(lt, t) && Sorted(lt, u)
    requires forall z | z in t :: z in all
    requires forall x | x in all :: TiedWith(lt, x, t) == TiedWith(lt, x, u)
    ensures t == u
    decreases |t|
  {
    SameLength(t, u);
    if t != [] {
      var n := |t| - 1;
      SameLast(lt, t, u, all);
      SamePrefix(lt, t, u, all);
      OrderIsUnique(lt, t[..n], u[..n], all);
      assert t == t[..n] + [t[n]] && u == u[..n] + [u[n]];
    }
  }

  lemma SameLength<T>(t: seq<T>, u: seq<T>)
    requires multiset(t) == multiset(u)
    ensures |t| == |u|
  {
    assert |t| == |multiset(t)| && |u| == |multiset(u)|;
  }

  lemma SameLast<T(!new)>(lt: (T, T) -> bool, t: seq<T>, u: seq<T>, all: seq<T>)
    requires WeakOrder(lt, all) && multiset(t) == multiset(u) && Sorted(lt, t) && Sorted(lt, u)
    requires forall z | z in t :: z in all
    requires forall x | x in all :: TiedWith(lt, x, t) == TiedWith(lt, x, u)
    requires t != [] && |t| == |u|
    ensures t[|t| - 1] == u[|u| - 1]
  {
    SameElements(t, u);
    LastIsGreatest(lt, t, all);
    var a := t[|t| - 1];
    assert a in t && u[|u| - 1] in u;
    LastOfTied(lt, u, a, all);
    LastOfTied(lt, t, a, all);
  }

  lemma SamePrefix<T(!new)>(lt: (T, T) -> bool, t: seq<T>, u: seq<T>, all: seq<T>)
    requires multiset(t) == multiset(u) && t != [] && |t| == |u| && t[|t| - 1] == u[|u| - 1]
    requires forall z | z in t :: z in all
    requires forall x | x in all :: TiedWith(lt, x, t) == TiedWith(lt, x, u)
    ensures multiset(t[..|t| - 1]) == multiset(u[..|u| - 1])
    ensures forall z | z in t[..|t| - 1] :: z in all
    ensures forall x | x in all :: TiedWith(lt, x, t[..|t| - 1]) == TiedWith(lt, x, u[..|u| - 1])
  {
    WithoutLast(t);
    WithoutLast(u);
    forall x | x in all
      ensures TiedWith(lt, x, t[..|t| - 1]) == TiedWith(lt, x, u[..|u| - 1])
    {
      SameTiedPrefix(lt, x, t, u);
    }
  }

  lemma WithoutLast<T>(t: seq<T>)
    requires t != []
    ensures multiset(t[..|t| - 1]) == multiset(t) - multiset{t[|t| - 1]}
  {
    assert t == t[..|t| - 1] + [t[|t| - 1]];
  }

  lemma SameTiedPrefix<T>(lt: (T, T) -> bool, x: T, t: seq<T>, u: seq<T>)
    requires t != [] && u != [] && t[|t| - 1] == u[|u| - 1]
    requires TiedWith(lt, x, t) == TiedWith(lt, x, u)
    ensures TiedWith(lt, x, t[..|t| - 1]) == TiedWith(lt, x, u[..|u| - 1])
  {
    var last := if Tied(lt, x, t[|t| - 1]) then [t[|t| - 1]] else [];
    SamePiece(TiedWith(lt, x, t[..|t| - 1]), TiedWith(lt, x, u[..|u| - 1]), last);
  }

  lemma SamePiece<T>(a: seq<T>, b: seq<T>, c: seq<T>)
    requires a + c == b + c
    ensures a == b
  {
    assert |a + c| == |a| + |c| && |b + c| == |b| + |c|;
    assert a == (a + c)[..|a|] && b == (b + c)[..|a|];
  }

  lemma LastIsGreatest<T(!new)>(lt: (T, T) -> bool, t: seq<T>, all: seq<T>)
    requires WeakOrder(lt, all) && Sorted(lt, t) && t != [] && forall z | z in t :: z in all
    ensures forall z | z in t :: !lt(t[|t| - 1], z)
  {
    forall z | z in t
      ensures !lt(t[|t| - 1], z)
    {
      var i :| 0 <= i < |t| && t[i] == z;
      assert t[|t| - 1] in all;
    }
  }

  /** Any stable sort of `s` whatsoever is the one computed here. */
  lemma StableSortIsUnique<T(!new)>(lt: (T, T) -> bool, s: seq<T>, t: seq<T>)
    requires WeakOrder(lt, s)
    ensures IsStableSort(lt, s, t) <==> t == Sort(lt, s)
  {
    SortIsStable(lt, s);
    if IsStableSort(lt, s, t) {
      SameElements(t, s);
      OrderIsUnique(lt, t, Sort(lt, s), s);
    }
  }

  // ------------------------------------------------------------------------------ reverse

  /** The comparison with its arguments exchanged. */
  function Swapped<T>(lt: (T, T) -> bool): (T, T) -> bool {
    (a, b) => lt(b, a)
  }

  lemma {:induction false} ReverseElements<T>(s: seq<T>)
    ensures multiset(Reversed(s)) == multiset(s)
  {
    if s != [] {
      ReverseElements(s[..|s| - 1]);
      assert s == s[..|s| - 1] + [s[|s| - 1]];
    }
  }

  lemma {:induction false} TiedWithReverse<T>(lt: (T, T) -> bool, x: T, s: seq<T>)
    ensures TiedWith(Swapped(lt), x, Reversed(s)) == Reversed(TiedWith(lt, x, s))
  {
    if s != [] {
      var init, last := s[..|s| - 1], s[|s| - 1];
      TiedWithReverse(lt, x, init);
      TiedWithJoin(Swapped(lt), x, [last], Reversed(init));
      assert [last][..0] == [];
      var p := TiedWith(lt, x, init);
      if Tied(lt, x, last) {
        assert (p + [last])[..|p|] == p;
      } else {
        assert p + [] == p;
      }
    }
  }

  lemma ReverseTwice<T>(s: seq<T>)
    ensures Reversed(Reversed(s)) == s
  {
  }

  /**
   Sorting with the comparator's arguments exchanged is sorting the reversed list and reversing:
   descending, with ties still in their original order.
   */
  lemma ReverseSort<T(!new)>(lt: (T, T) -> bool, s: seq<T>)
    requires WeakOrder(lt, s)
    ensures Sort(Swapped(lt), s) == Reversed(Sort(lt, Reversed(s)))
    ensures IsStableSort(Swapped(lt), s, Sort(Swapped(lt), s))
  {
    var r := Reversed(s);
    ReverseElements(s);
    SameElements(r, s);
    assert WeakOrder(lt, r);
    SwappedIsWeak(lt, s);
    SortIsStable(lt, r);
    var t := Sort(lt, r);
    ReverseElements(t);
    forall x | x in s
      ensures TiedWith(Swapped(lt), x, Reversed(t)) == TiedWith(Swapped(lt), x, s)
    {
      TiedWithReverse(lt, x, t);
      TiedWithReverse(lt, x, r);
      ReverseTwice(s);
    }
    StableSortIsUnique(Swapped(lt), s, Reversed(t));
  }

  lemma SwappedIsWeak<T(!new)>(lt: (T, T) -> bool, s: seq<T>)
    requires WeakOrder(lt, s)
    ensures WeakOrder(Swapped(lt), s)
  {
  }
}
