/**
 Which keys the set operations leave, told from the receiver and the arguments as a caller gives them, and
 what a bad argument does.
 */
module SetMembers {
  import opened Basics
  import opened PySets
  import opened SetAliases

  /** The argument has a key of this class. */
  predicate ArgHas(items: seq<Key>, arg: Arg, cls: int) {
    match arg
    case Receiver => Has(items, cls)
    case Concrete(table) => Has(table, cls)
    case Iterable(keys) => Has(keys, cls)
    case Bad(_) => false
  }

  predicate AllHave(items: seq<Key>, args: seq<Arg>, cls: int) {
    forall i | 0 <= i < |args| :: ArgHas(items, args[i], cls)
  }

  predicate SomeHas(items: seq<Key>, args: seq<Arg>, cls: int) {
    exists i | 0 <= i < |args| :: ArgHas(items, args[i], cls)
  }

  lemma ReorderedHas(s: seq<Key>, t: seq<Key>, cls: int)
    requires multiset(s) == multiset(t)
    ensures Has(s, cls) <==> Has(t, cls)
  {
    HasMember(s, cls);
    HasMember(t, cls);
    forall k: Key
      ensures k in s <==> k in t
    {
      SameMembers(s, t, k);
    }
  }

  lemma SnapshotHas(items: seq<Key>, arg: Arg, copy: seq<Key> -> seq<Key>, cls: int)
    requires Reorders(copy) && !arg.Bad?
    ensures Snapshot(items, arg, copy).Ok?
    ensures Has(Snapshot(items, arg, copy).value, cls) <==> ArgHas(items, arg, cls)
  {
    match arg
    case Concrete(table) => ReorderedHas(copy(table), table, cls);
    case Iterable(keys) => ExtendedMembers([], keys, Key(cls, 0));
    case _ =>
  }

  lemma SplitLast(items: seq<Key>, args: seq<Arg>, cls: int)
    requires args != []
    ensures var n := |args| - 1;
            && (AllHave(items, args, cls) <==> AllHave(items, args[..n], cls) && ArgHas(items, args[n], cls))
            && (SomeHas(items, args, cls) <==> SomeHas(items, args[..n], cls) || ArgHas(items, args[n], cls))
            && (NoneBad(args) <==> NoneBad(args[..n]) && !args[n].Bad?)
  {
    var n := |args| - 1;
    var init := args[..n];
    assert forall i | 0 <= i < n :: init[i] == args[i];
  }

  // --------------------------------------------------------------------------- intersection

  lemma {:induction false} MeetAllHas(items: seq<Key>, args: seq<Arg>, snapshots: seq<seq<Key>>, copy: seq<Key> -> seq<Key>, cls: int)
    requires Reorders(copy) && NoneBad(args) && |snapshots| == |args|
    requires forall i | 0 <= i < |args| :: Ok(snapshots[i]) == Snapshot(items, args[i], copy)
    ensures Has(MeetAll(items, args, snapshots, copy), cls) <==> Has(items, cls) && AllHave(items, args, cls)
    decreases |args|
  {
    if args == [] {
      ReorderedHas(copy(items), items, cls);
    } else {
      var n := |args| - 1;
      SplitLast(items, args, cls);
      SnapshotHas(items, args[n], copy, cls);
      assert Ok(snapshots[n]) == Snapshot(items, args[n], copy);
      if n == 0 {
        IntersectionMembers(items, snapshots[0], args[0].IsConcreteSet());
        assert IntersectFirst(items, snapshots[0], args[0].IsConcreteSet())
               == IntersectSnapshot(items, snapshots[0], args[0].IsConcreteSet());
      } else {
        MeetAllHas(items, args[..n], snapshots[..n], copy, cls);
        IntersectionMembers(MeetAll(items, args[..n], snapshots[..n], copy), snapshots[n], args[n].IsConcreteSet());
      }
    }
  }

  /** An intersection, of any number of arguments, has exactly the receiver's classes that every argument has. */
  lemma IntersectionHas(items: seq<Key>, args: seq<Arg>, copy: seq<Key> -> seq<Key>, cls: int)
    requires Reorders(copy) && NoneBad(args)
    ensures Intersection(items, args, copy).Ok? && IntersectionUpdated(items, args, copy).err == None
    ensures Has(Intersection(items, args, copy).value, cls) <==> Has(items, cls) && AllHave(items, args, cls)
    ensures Has(IntersectionUpdated(items, args, copy).entries, cls) <==> Has(items, cls) && AllHave(items, args, cls)
  {
    CollectsAll(items, args, copy);
    MeetAllHas(items, args, CollectAll(items, args, copy).value, copy, cls);
    if args != [] {
      IntersectionClasses(items, args, copy, cls);
    }
  }

  /** With no arguments it is a copy of the receiver, and the update does nothing. */
  lemma IntersectionOfNothing(items: seq<Key>, copy: seq<Key> -> seq<Key>, k: Key)
    requires Reorders(copy)
    ensures Intersection(items, [], copy).Ok?
    ensures multiset(Intersection(items, [], copy).value) == multiset(items)
    ensures IntersectionUpdated(items, [], copy) == Progress(items, None)
  {
  }

  // ------------------------------------------------------------------- difference and union

  /** A difference has exactly the receiver's keys whose class no argument has. */
  lemma {:induction false} DifferenceHas(items: seq<Key>, args: seq<Arg>, copy: seq<Key> -> seq<Key>, k: Key)
    requires Reorders(copy) && NoneBad(args)
    ensures k in DifferenceUpdated(items, args, copy).entries <==> k in items && !SomeHas(items, args, k.cls)
    ensures CollectAll(items, args, copy).Ok?
    ensures k in SubtractAll(copy(items), CollectAll(items, args, copy).value) <==> k in items && !SomeHas(items, args, k.cls)
  {
    DifferenceMembers(items, args, copy, k);
    DifferenceIsUpdate(items, args, copy, k);
    forall i | 0 <= i < |args| && !args[i].Receiver?
      ensures Has(Snapshot([], args[i], copy).value, k.cls) <==> ArgHas(items, args[i], k.cls)
    {
      SnapshotHas([], args[i], copy, k.cls);
    }
    if k in items {
      HasMember(items, k.cls);
    }
  }

  /** The key comes first of its class in `keys`. */
  predicate ComesFirst(keys: seq<Key>, k: Key) {
    exists n | 0 <= n < |keys| :: keys[n] == k && forall m | 0 <= m < n :: keys[m].cls != k.cls
  }

  /** Extending adds the keys that come first of a class that was not there. */
  lemma {:induction false} ExtendedExactly(s: seq<Key>, more: seq<Key>, k: Key)
    ensures k in Extended(s, more) <==> k in s || (!Has(s, k.cls) && ComesFirst(more, k))
    decreases |more|
  {
    if more != [] {
      var init, last := more[..|more| - 1], more[|more| - 1];
      ExtendedExactly(s, init, k);
      ExtendedMembers(s, init, last);
      FirstOfMore(init, last, k);
      assert more == init + [last];
    }
  }

  lemma FirstOfMore(init: seq<Key>, last: Key, k: Key)
    ensures ComesFirst(init + [last], k) <==> ComesFirst(init, k) || (k == last && !Has(init, k.cls))
  {
    var more := init + [last];
    if ComesFirst(init, k) {
      var n :| 0 <= n < |init| && init[n] == k && forall m | 0 <= m < n :: init[m].cls != k.cls;
      assert more[n] == k;
      assert forall m | 0 <= m < n :: more[m] == init[m];
    }
    if k == last && !Has(init, k.cls) {
      assert more[|init|] == k;
      assert forall m | 0 <= m < |init| :: more[m] == init[m];
    }
    if ComesFirst(more, k) {
      var n :| 0 <= n < |more| && more[n] == k && forall m | 0 <= m < n :: more[m].cls != k.cls;
      assert forall m | 0 <= m < |init| :: more[m] == init[m];
    }
  }

  /** The objects an argument contributes: a set's own, or those an iterable meets first. */
  predicate Contributes(arg: Arg, k: Key) {
    (arg.Concrete? && k in arg.table) || (arg.Iterable? && ComesFirst(arg.keys, k))
  }

  /** The first argument that has the class contributes this key for it. */
  predicate FromFirst(items: seq<Key>, args: seq<Arg>, k: Key) {
    exists i | 0 <= i < |args| :: Contributes(args[i], k) && !SomeHas(items, args[..i], k.cls)
  }

  lemma FromFirstSplit(items: seq<Key>, args: seq<Arg>, k: Key)
    requires args != []
    ensures var n := |args| - 1;
            FromFirst(items, args, k)
            <==> FromFirst(items, args[..n], k) || (Contributes(args[n], k) && !SomeHas(items, args[..n], k.cls))
  {
    var n := |args| - 1;
    var init := args[..n];
    assert forall i | 0 <= i < n :: init[i] == args[i] && init[..i] == args[..i];
  }

  lemma SnapshotContributes(items: seq<Key>, arg: Arg, copy: seq<Key> -> seq<Key>, k: Key)
    requires Reorders(copy) && !arg.Bad? && !arg.Receiver?
    ensures Snapshot(items, arg, copy).Ok?
    ensures k in Snapshot(items, arg, copy).value <==> Contributes(arg, k)
  {
    match arg
    case Concrete(table) => SameMembers(copy(table), table, k);
    case Iterable(keys) => ExtendedExactly([], keys, k);
    case _ =>
  }

  lemma {:induction false} UpdatedExactly(items: seq<Key>, args: seq<Arg>, copy: seq<Key> -> seq<Key>, k: Key)
    requires Reorders(copy) && NoneBad(args) && ValidArgs(args)
    ensures Updated(items, args, copy).err == None
    ensures Has(Updated(items, args, copy).entries, k.cls) <==> Has(items, k.cls) || SomeHas(items, args, k.cls)
    ensures k in Updated(items, args, copy).entries <==> k in items || (!Has(items, k.cls) && FromFirst(items, args, k))
    decreases |args|
  {
    if args != [] {
      var n := |args| - 1;
      var init, last := args[..n], args[n];
      SplitLast(items, args, k.cls);
      FromFirstSplit(items, args, k);
      UpdatedExactly(items, init, copy, k);
      var before := Updated(items, init, copy).entries;
      if last.Receiver? {
        ExtendedMembers(before, before, k);
        OwnMembers(before, k);
        if k in before {
          HasMember(before, k.cls);
        }
      } else {
        UpdateByOne(before, last, copy, k);
      }
    }
  }

  lemma UpdateByOne(before: seq<Key>, last: Arg, copy: seq<Key> -> seq<Key>, k: Key)
    requires Reorders(copy) && !last.Bad? && !last.Receiver? && (last.Concrete? ==> Distinct(last.table))
    ensures Snapshot(before, last, copy).Ok?
    ensures var after := Extended(before, Snapshot(before, last, copy).value);
            && (Has(after, k.cls) <==> Has(before, k.cls) || ArgHas(before, last, k.cls))
            && (k in after <==> k in before || (!Has(before, k.cls) && Contributes(last, k)))
  {
    SnapshotHas(before, last, copy, k.cls);
    SnapshotContributes(before, last, copy, k);
    var snapshot := Snapshot(before, last, copy).value;
    ExtendedMembers(before, snapshot, k);
    SnapshotDistinct([], last, copy);
    ExtendedOfDistinct(snapshot);
  }

  /**
   `union` and `update` keep the receiver's keys, and for every other class the key that the first argument
   having it contributes.
   */
  lemma UnionHas(items: seq<Key>, args: seq<Arg>, copy: seq<Key> -> seq<Key>, slots: seq<Key> -> seq<Key>, k: Key)
    requires Reorders(copy) && Reorders(slots) && NoneBad(args) && ValidArgs(args)
    ensures Union(items, args, copy, slots).Ok? && Updated(items, args, copy).err == None
    ensures k in Union(items, args, copy, slots).value <==> k in items || (!Has(items, k.cls) && FromFirst(items, args, k))
    ensures k in Updated(items, args, copy).entries <==> k in items || (!Has(items, k.cls) && FromFirst(items, args, k))
    ensures Has(Union(items, args, copy, slots).value, k.cls) <==> Has(items, k.cls) || SomeHas(items, args, k.cls)
  {
    UpdatedExactly(items, args, copy, k);
    UnionIsUpdate(items, args, copy, slots, k);
  }

  /** A symmetric difference keeps each side's own keys, the receiver's before the other's. */
  lemma SymmetricHas(items: seq<Key>, other: seq<Key>, k: Key) returns (n: nat)
    ensures k in SymmetricDifference(items, other)
            <==> (k in items && !Has(other, k.cls)) || (k in other && !Has(items, k.cls))
    ensures var r := SymmetricDifference(items, other);
            && n <= |r| && (forall i | 0 <= i < n :: r[i] in items) && (forall i | n <= i < |r| :: r[i] in other)
  {
    var kept, added := Filter(Without(other), items), Filter(Without(items), other);
    n := |kept|;
    FilterMembers(Without(other), items, k);
    FilterMembers(Without(items), other, k);
    forall x: Key
      ensures x in kept ==> x in items
      ensures x in added ==> x in other
    {
      FilterMembers(Without(other), items, x);
      FilterMembers(Without(items), other, x);
    }
  }

  // ------------------------------------------------------------------------------- errors

  /** Argument `i` is the first bad one. */
  predicate FirstBad(args: seq<Arg>, i: nat) {
    i < |args| && args[i].Bad? && NoneBad(args[..i])
  }

  lemma {:induction false} FirstErrorIs(args: seq<Arg>, i: nat)
    requires FirstBad(args, i)
    ensures FirstError(args) == args[i].error
    decreases |args|
  {
    if i > 0 {
      assert !args[..i][0].Bad?;
      assert args[1..][..i - 1] == args[..i][1..];
      FirstErrorIs(args[1..], i - 1);
    }
  }

  lemma {:induction false} NothingStops(items: seq<Key>, args: seq<Arg>, copy: seq<Key> -> seq<Key>)
    requires NoneBad(args)
    ensures CollectAll(items, args, copy).Ok? && IntersectionUpdated(items, args, copy).err == None
    ensures DifferenceUpdated(items, args, copy).err == None && Updated(items, args, copy).err == None
    decreases |args|
  {
    if args != [] {
      NothingStops(items, args[..|args| - 1], copy);
    }
  }

  /**
   The first bad argument's error is raised. The forms that return a new set return nothing; the updates leave
   what the arguments before it did, and nothing after it is done.
   */
  lemma BadArgument(items: seq<Key>, args: seq<Arg>, i: nat, copy: seq<Key> -> seq<Key>, slots: seq<Key> -> seq<Key>)
    requires FirstBad(args, i)
    ensures CollectAll(items, args, copy) == Err(args[i].error)
    ensures Intersection(items, args, copy) == Err(args[i].error) && Union(items, args, copy, slots) == Err(args[i].error)
    ensures IntersectionUpdated(items, args, copy)
            == Progress(IntersectionUpdated(items, args[..i], copy).entries, Some(args[i].error))
    ensures DifferenceUpdated(items, args, copy)
            == Progress(DifferenceUpdated(items, args[..i], copy).entries, Some(args[i].error))
    ensures Updated(items, args, copy) == Progress(Updated(items, args[..i], copy).entries, Some(args[i].error))
  {
    NothingStops(items, args[..i], copy);
    FirstErrorIs(args, i);
    CollectStops(items, args, i, copy);
    UpdateStops(items, args, i, copy);
    DifferenceStops(items, args, i, copy);
    UpdatedStops(items, args, i, copy);
  }
}
