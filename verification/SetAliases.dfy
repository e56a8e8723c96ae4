/**
 `intersection` against `intersection_update` when the receiver is among its own arguments: the first
 meets a snapshot of the receiver, the second meets what the earlier arguments have left of it.
 */
module SetAliases {
  import opened Basics
  import opened PySets

  // ------------------------------------------------------------------ counting classes

  function Classes(s: seq<Key>): (c: set<int>)
    ensures forall cls :: cls in c <==> Has(s, cls)
  {
    set k | k in s :: k.cls
  }

  lemma {:induction false} ClassCount(s: seq<Key>)
    requires Distinct(s)
    ensures |Classes(s)| == |s|
  {
    if s != [] {
      var init, last := s[..|s| - 1], s[|s| - 1];
      ClassCount(init);
      assert s == init + [last];
      HasMember(init, last.cls);
      assert last.cls !in Classes(init);
      assert Classes(s) == Classes(init) + {last.cls};
    }
  }

  /** A table within another has fewer keys unless it has all of its classes. */
  lemma WithinCount(r: seq<Key>, items: seq<Key>)
    requires Distinct(r) && Distinct(items) && forall cls | Has(r, cls) :: Has(items, cls)
    ensures |r| <= |items|
    ensures |r| == |items| ==> forall cls | Has(items, cls) :: Has(r, cls)
  {
    ClassCount(r);
    ClassCount(items);
    var c, d := Classes(r), Classes(items);
    assert c <= d;
    assert d == c + (d - c);
    assert |d| == |c| + |d - c|;
  }

  lemma {:induction false} UpdatedDistinct(items: seq<Key>, args: seq<Arg>, copy: seq<Key> -> seq<Key>)
    requires Distinct(items) && ValidArgs(args) && Reorders(copy)
    ensures Distinct(IntersectionUpdated(items, args, copy).entries)
    decreases |args|
  {
    if args != [] {
      var n := |args| - 1;
      UpdatedDistinct(items, args[..n], copy);
      var before := IntersectionUpdated(items, args[..n], copy).entries;
      SnapshotDistinct(before, args[n], copy);
      if Snapshot(before, args[n], copy).Ok? {
        var snapshot := Snapshot(before, args[n], copy).value;
        FilterDistinct(Within(snapshot), before);
        FilterDistinct(Within(before), snapshot);
      }
    }
  }

  lemma MeetItself(s: seq<Key>)
    ensures IntersectSnapshot(s, s, true) == s
  {
    OwnClasses(s, s);
  }

  lemma MeetWhole(left: seq<Key>, items: seq<Key>)
    requires forall cls | Has(left, cls) :: Has(items, cls)
    requires |left| < |items| || (|left| == |items| && forall cls | Has(items, cls) :: Has(left, cls))
    ensures IntersectSnapshot(left, items, true) == if |left| < |items| then left else items
  {
    if |left| < |items| {
      OwnClasses(left, items);
    } else {
      OwnClasses(items, left);
    }
  }

  lemma OwnClasses(s: seq<Key>, t: seq<Key>)
    requires forall cls | Has(s, cls) :: Has(t, cls)
    ensures Filter(Within(t), s) == s
  {
    forall k: Key | k in s
      ensures Within(t)(k)
    {
      HasMember(s, k.cls);
    }
    FilterAll(Within(t), s);
  }


  // ------------------------------------------------------------------ conditions on the operands

  /** The snapshot of an argument other than the receiver. */
  function Operand(arg: Arg, copy: seq<Key> -> seq<Key>): seq<Key>
    requires !arg.Bad?
  {
    Snapshot([], arg, copy).value
  }

  /** The keys of `s` whose class every argument has. The receiver's own classes are no restriction. */
  function Common(s: seq<Key>, args: seq<Arg>, copy: seq<Key> -> seq<Key>): seq<Key>
    requires NoneBad(args)
    decreases |args|
  {
    if args == [] then s
    else
      var init, last := args[..|args| - 1], args[|args| - 1];
      if last.Receiver? then Common(s, init, copy) else Filter(Within(Operand(last, copy)), Common(s, init, copy))
  }

  /** Every argument has every class of `s`. */
  predicate CoveredBy(s: seq<Key>, args: seq<Arg>, copy: seq<Key> -> seq<Key>)
    requires NoneBad(args)
  {
    forall i, n | 0 <= i < |args| && 0 <= n < |s| :: args[i].Receiver? || Has(Operand(args[i], copy), s[n].cls)
  }

  /** The number of arguments up to the last that is the receiver again after covering ones only. */
  function LastReset(items: seq<Key>, args: seq<Arg>, copy: seq<Key> -> seq<Key>): (n: nat)
    requires NoneBad(args)
    ensures n <= |args|
    ensures n > 0 ==> args[n - 1].Receiver? && CoveredBy(items, args[..n - 1], copy)
    decreases |args|
  {
    if args == [] then 0
    else
      var init := args[..|args| - 1];
      if args[|args| - 1].Receiver? && CoveredBy(items, init, copy) then |args| else LastReset(items, init, copy)
  }

  /** After `before`, this argument is the side whose objects survive. */
  predicate Takes(s: seq<Key>, before: seq<Arg>, arg: Arg, copy: seq<Key> -> seq<Key>)
    requires NoneBad(before) && !arg.Bad?
  {
    !arg.Receiver? && (arg.IsConcreteSet() ==> |Operand(arg, copy)| <= |Common(s, before, copy)|)
  }

  predicate SomeTakes(s: seq<Key>, args: seq<Arg>, copy: seq<Key> -> seq<Key>)
    requires NoneBad(args)
  {
    exists j | 0 <= j < |args| :: Takes(s, args[..j], args[j], copy)
  }

  /** The objects that stand for the receiver's classes after covering arguments: those of the last that takes. */
  function Standing(items: seq<Key>, args: seq<Arg>, copy: seq<Key> -> seq<Key>): seq<Key>
    requires NoneBad(args)
    decreases |args|
  {
    if args == [] then items
    else
      var init, last := args[..|args| - 1], args[|args| - 1];
      if last.Receiver? || (last.IsConcreteSet() && |Operand(last, copy)| > |items|) then Standing(items, init, copy)
      else Filter(Within(items), Operand(last, copy))
  }

  // ------------------------------------------------------------------ what a run of updates leaves

  ghost predicate SameClasses(s: seq<Key>, t: seq<Key>) {
    forall cls :: Has(s, cls) <==> Has(t, cls)
  }

  lemma SameCount(s: seq<Key>, t: seq<Key>)
    requires Distinct(s) && Distinct(t) && SameClasses(s, t)
    ensures |s| == |t|
  {
    WithinCount(s, t);
    WithinCount(t, s);
  }

  lemma MeetClasses(s: seq<Key>, t: seq<Key>, other: seq<Key>, isSet: bool)
    requires SameClasses(s, t)
    ensures SameClasses(IntersectSnapshot(s, other, isSet), Filter(Within(other), t))
  {
    forall cls
      ensures Has(IntersectSnapshot(s, other, isSet), cls) <==> Has(Filter(Within(other), t), cls)
    {
      IntersectionMembers(s, other, isSet);
      FilterHas(Within(other), t, cls);
      HasMember(t, cls);
    }
  }

  lemma SnapshotIsOperand(s: seq<Key>, arg: Arg, copy: seq<Key> -> seq<Key>)
    requires !arg.Bad? && !arg.Receiver?
    ensures Snapshot(s, arg, copy) == Ok(Operand(arg, copy))
  {
  }

  lemma {:induction false} CommonDistinct(s: seq<Key>, args: seq<Arg>, copy: seq<Key> -> seq<Key>)
    requires Distinct(s) && NoneBad(args)
    ensures Distinct(Common(s, args, copy))
    decreases |args|
  {
    if args != [] {
      var init, last := args[..|args| - 1], args[|args| - 1];
      CommonDistinct(s, init, copy);
      FilterDistinct(Within(Operand(last, copy)), Common(s, init, copy));
    }
  }

  ghost predicate Tables(s: seq<Key>, args: seq<Arg>, copy: seq<Key> -> seq<Key>) {
    Distinct(s) && ValidArgs(args) && Reorders(copy) && NoneBad(args)
  }

  /** A run of updates leaves the common classes, and the receiver's own objects when no argument takes. */
  lemma {:induction false} TakenOrKept(s: seq<Key>, args: seq<Arg>, copy: seq<Key> -> seq<Key>)
    requires Tables(s, args, copy)
    ensures var u := IntersectionUpdated(s, args, copy);
            && u.err == None && Distinct(u.entries) && SameClasses(u.entries, Common(s, args, copy))
            && (!SomeTakes(s, args, copy) ==> u.entries == Common(s, args, copy))
    decreases |args|
  {
    if args != [] {
      var n := |args| - 1;
      var init, last := args[..n], args[n];
      TakenOrKept(s, init, copy);
      UpdatedDistinct(s, args, copy);
      SomeTakesSplit(s, args, copy);
      var u, c := IntersectionUpdated(s, init, copy).entries, Common(s, init, copy);
      if last.Receiver? {
        MeetItself(u);
      } else {
        SnapshotIsOperand(u, last, copy);
        CommonDistinct(s, init, copy);
        SameCount(u, c);
        MeetClasses(u, c, Operand(last, copy), last.IsConcreteSet());
      }
    }
  }

  lemma SomeTakesSplit(s: seq<Key>, args: seq<Arg>, copy: seq<Key> -> seq<Key>)
    requires args != [] && NoneBad(args)
    ensures var n := |args| - 1;
            SomeTakes(s, args, copy) <==> SomeTakes(s, args[..n], copy) || Takes(s, args[..n], args[n], copy)
  {
    var n := |args| - 1;
    var init := args[..n];
    assert forall j | 0 <= j < n :: init[..j] == args[..j] && init[j] == args[j];
  }

  /** Once an argument takes, it no longer matters which objects stood for the classes before. */
  lemma {:induction false} TakenSame(s: seq<Key>, t: seq<Key>, args: seq<Arg>, copy: seq<Key> -> seq<Key>)
    requires Tables(s, args, copy) && Tables(t, args, copy) && SameClasses(s, t) && SomeTakes(s, args, copy)
    ensures IntersectionUpdated(s, args, copy) == IntersectionUpdated(t, args, copy)
    decreases |args|
  {
    var n := |args| - 1;
    var init, last := args[..n], args[n];
    SomeTakesSplit(s, args, copy);
    if SomeTakes(s, init, copy) {
      TakenSame(s, t, init, copy);
    } else {
      TakenOrKept(s, init, copy);
      TakenOrKept(t, init, copy);
      CommonSame(s, t, init, copy);
      var u, v := IntersectionUpdated(s, init, copy).entries, IntersectionUpdated(t, init, copy).entries;
      CommonDistinct(s, init, copy);
      SameCount(u, Common(s, init, copy));
      SameCount(u, v);
      SnapshotIsOperand(u, last, copy);
      SnapshotIsOperand(v, last, copy);
      FilterSame(Within(u), Within(v), Operand(last, copy));
    }
  }

  lemma {:induction false} CommonSame(s: seq<Key>, t: seq<Key>, args: seq<Arg>, copy: seq<Key> -> seq<Key>)
    requires SameClasses(s, t) && NoneBad(args)
    ensures SameClasses(Common(s, args, copy), Common(t, args, copy))
    decreases |args|
  {
    if args != [] {
      var init, last := args[..|args| - 1], args[|args| - 1];
      CommonSame(s, t, init, copy);
      if !last.Receiver? {
        var c, d := Common(s, init, copy), Common(t, init, copy);
        forall cls
          ensures Has(Filter(Within(Operand(last, copy)), c), cls) <==> Has(Filter(Within(Operand(last, copy)), d), cls)
        {
          FilterHas(Within(Operand(last, copy)), c, cls);
          FilterHas(Within(Operand(last, copy)), d, cls);
          HasMember(c, cls);
          HasMember(d, cls);
        }
      }
    }
  }

  /** Covering arguments leave every key of the receiver in the common part, and only they do. */
  lemma {:induction false} CoveredExactly(s: seq<Key>, args: seq<Arg>, copy: seq<Key> -> seq<Key>)
    requires NoneBad(args)
    ensures CoveredBy(s, args, copy) <==> Common(s, args, copy) == s
    ensures |Common(s, args, copy)| <= |s|
    ensures |Common(s, args, copy)| == |s| ==> Common(s, args, copy) == s
    decreases |args|
  {
    if args != [] {
      var n := |args| - 1;
      var init, last := args[..n], args[n];
      CoveredExactly(s, init, copy);
      CoveredSplit(s, args, copy);
      if !last.Receiver? {
        KeepsAllExactly(Operand(last, copy), Common(s, init, copy));
      }
    }
  }

  predicate CoveredByOne(s: seq<Key>, arg: Arg, copy: seq<Key> -> seq<Key>)
    requires !arg.Bad?
  {
    arg.Receiver? || forall n | 0 <= n < |s| :: Has(Operand(arg, copy), s[n].cls)
  }

  lemma CoveredSplit(s: seq<Key>, args: seq<Arg>, copy: seq<Key> -> seq<Key>)
    requires args != [] && NoneBad(args)
    ensures var n := |args| - 1; CoveredBy(s, args, copy) <==> CoveredBy(s, args[..n], copy) && CoveredByOne(s, args[n], copy)
  {
    var n := |args| - 1;
    var init := args[..n];
    assert forall i | 0 <= i < n :: init[i] == args[i];
  }

  lemma {:induction false} KeepsAllExactly(t: seq<Key>, s: seq<Key>)
    ensures Filter(Within(t), s) == s <==> forall n | 0 <= n < |s| :: Has(t, s[n].cls)
    ensures |Filter(Within(t), s)| == |s| ==> Filter(Within(t), s) == s
  {
    if s != [] {
      var init := s[..|s| - 1];
      KeepsAllExactly(t, init);
      assert s == init + [s[|s| - 1]];
      assert |Filter(Within(t), init)| <= |init|;
    }
  }

  // ------------------------------------------------------------------ the main theorems

  lemma {:induction false} RunJoin(s: seq<Key>, a: seq<Arg>, b: seq<Arg>, copy: seq<Key> -> seq<Key>)
    requires IntersectionUpdated(s, a, copy).err == None
    ensures IntersectionUpdated(s, a + b, copy) == IntersectionUpdated(IntersectionUpdated(s, a, copy).entries, b, copy)
    decreases |b|
  {
    if b == [] {
      assert a + b == a;
    } else {
      RunJoin(s, a, b[..|b| - 1], copy);
      assert (a + b)[..|a + b| - 1] == a + b[..|b| - 1];
    }
  }

  /** `intersection` with one more argument meets its snapshot with what the others left. */
  lemma OneMoreMeets(items: seq<Key>, args: seq<Arg>, copy: seq<Key> -> seq<Key>)
    requires |args| > 1 && NoneBad(args)
    ensures var n := |args| - 1;
            && Intersection(items, args[..n], copy).Ok?
            && Snapshot(items, args[n], copy).Ok?
            && Intersection(items, args, copy)
               == Ok(IntersectSnapshot(Intersection(items, args[..n], copy).value, Snapshot(items, args[n], copy).value, args[n].IsConcreteSet()))
  {
    var n := |args| - 1;
    CollectsAll(items, args, copy);
    CollectsAll(items, args[..n], copy);
    assert CollectAll(items, args[..n], copy).value == CollectAll(items, args, copy).value[..n];
  }

  /** The restarted update with one more argument. */
  lemma OneMoreUpdates(items: seq<Key>, args: seq<Arg>, left: seq<Key>, copy: seq<Key> -> seq<Key>)
    requires |args| > 1 && Tables(items, args, copy)
    requires var init := args[..|args| - 1];
             && IntersectionUpdated(items, init[LastReset(items, init, copy)..], copy) == Progress(left, None)
             && Distinct(left) && SameClasses(left, Common(items, init, copy))
    ensures var last := args[|args| - 1];
            && Snapshot(items, last, copy).Ok?
            && IntersectionUpdated(items, args[LastReset(items, args, copy)..], copy)
               == Progress(IntersectSnapshot(left, Snapshot(items, last, copy).value, last.IsConcreteSet()), None)
  {
    var n := |args| - 1;
    var init, last := args[..n], args[n];
    if last.Receiver? {
      AliasStep(items, init, left, copy);
    }
    if last.Receiver? && CoveredBy(items, init, copy) {
      assert args[|args|..] == [];
    } else {
      var k := LastReset(items, init, copy);
      assert LastReset(items, args, copy) == k;
      KeptRun(items, args, k, left, copy);
    }
  }

  lemma KeptRun(s: seq<Key>, args: seq<Arg>, k: nat, left: seq<Key>, copy: seq<Key> -> seq<Key>)
    requires k < |args| && !args[|args| - 1].Bad?
    requires IntersectionUpdated(s, args[..|args| - 1][k..], copy) == Progress(left, None)
    ensures var last := args[|args| - 1];
            && Snapshot(left, last, copy).Ok?
            && IntersectionUpdated(s, args[k..], copy)
               == Progress(IntersectSnapshot(left, Snapshot(left, last, copy).value, last.IsConcreteSet()), None)
  {
    assert args[k..] == args[..|args| - 1][k..] + [args[|args| - 1]];
    OneMoreStep(s, args[..|args| - 1][k..], args[|args| - 1], copy);
  }

  lemma OneMoreStep(s: seq<Key>, init: seq<Arg>, last: Arg, copy: seq<Key> -> seq<Key>)
    requires IntersectionUpdated(s, init, copy).err == None && !last.Bad?
    ensures var u := IntersectionUpdated(s, init, copy).entries;
            && Snapshot(u, last, copy).Ok?
            && IntersectionUpdated(s, init + [last], copy)
               == Progress(IntersectSnapshot(u, Snapshot(u, last, copy).value, last.IsConcreteSet()), None)
  {
    assert (init + [last])[..|init|] == init;
  }

  /**
   `intersection` is `intersection_update` restarted on the receiver at the last place where the receiver
   itself is met after arguments that have all of its classes. For every list of arguments.
   */
  lemma {:induction false} IntersectionRestarts(items: seq<Key>, args: seq<Arg>, copy: seq<Key> -> seq<Key>)
    requires Tables(items, args, copy) && args != []
    ensures Intersection(items, args, copy).Ok?
    ensures IntersectionUpdated(items, args[LastReset(items, args, copy)..], copy)
            == Progress(Intersection(items, args, copy).value, None)
    decreases |args|
  {
    var init := args[..|args| - 1];
    if init == [] {
      OneArgument(items, args, copy);
    } else {
      IntersectionRestarts(items, init, copy);
      LeftClasses(items, init, copy);
      UpdatedDistinct(items, init[LastReset(items, init, copy)..], copy);
      OneMoreMeets(items, args, copy);
      OneMoreUpdates(items, args, Intersection(items, init, copy).value, copy);
    }
  }

  lemma OneArgument(items: seq<Key>, args: seq<Arg>, copy: seq<Key> -> seq<Key>)
    requires |args| == 1 && NoneBad(args)
    ensures Intersection(items, args, copy).Ok?
    ensures IntersectionUpdated(items, args[LastReset(items, args, copy)..], copy)
            == Progress(Intersection(items, args, copy).value, None)
  {
    CollectsAll(items, args, copy);
    assert args[..0] == [];
    if args[0].Receiver? {
      assert CoveredBy(items, args[..0], copy);
      MeetItself(items);
      assert args[1..] == [];
    } else {
      assert args[0..] == args;
      assert IntersectionUpdated(items, args[..0], copy) == Progress(items, None);
    }
  }

  /** What `intersection` has left after some arguments are the receiver's classes common to them. */
  lemma LeftClasses(items: seq<Key>, args: seq<Arg>, copy: seq<Key> -> seq<Key>)
    requires Tables(items, args, copy) && args != [] && Intersection(items, args, copy).Ok?
    ensures SameClasses(Intersection(items, args, copy).value, Common(items, args, copy))
  {
    TakenOrKept(items, args, copy);
    var left, u := Intersection(items, args, copy).value, IntersectionUpdated(items, args, copy).entries;
    forall cls
      ensures Has(left, cls) <==> Has(u, cls)
    {
      IntersectionClasses(items, args, copy, cls);
    }
  }

  /** Meeting the receiver again: its own objects when all of its classes are left, else no change. */
  lemma AliasStep(items: seq<Key>, args: seq<Arg>, left: seq<Key>, copy: seq<Key> -> seq<Key>)
    requires Tables(items, args, copy) && Distinct(left) && SameClasses(left, Common(items, args, copy))
    ensures IntersectSnapshot(left, items, true) == if CoveredBy(items, args, copy) then items else left
    ensures IntersectSnapshot(left, left, true) == left
  {
    var c := Common(items, args, copy);
    CoveredExactly(items, args, copy);
    CommonDistinct(items, args, copy);
    SameCount(left, c);
    MeetItself(left);
    forall cls | Has(left, cls)
      ensures Has(items, cls)
    {
      CommonWithin(items, args, copy, cls);
    }
    WithinCount(left, items);
    MeetWhole(left, items);
  }

  lemma {:induction false} CommonWithin(s: seq<Key>, args: seq<Arg>, copy: seq<Key> -> seq<Key>, cls: int)
    requires NoneBad(args) && Has(Common(s, args, copy), cls)
    ensures Has(s, cls)
    decreases |args|
  {
    if args != [] {
      var init, last := args[..|args| - 1], args[|args| - 1];
      if !last.Receiver? {
        FilterHas(Within(Operand(last, copy)), Common(s, init, copy), cls);
        HasMember(Common(s, init, copy), cls);
      }
      CommonWithin(s, init, copy, cls);
    }
  }

  /** After covering arguments the update holds the objects of the last one that took. */
  lemma {:induction false} StandingIsLeft(items: seq<Key>, args: seq<Arg>, copy: seq<Key> -> seq<Key>)
    requires Tables(items, args, copy) && CoveredBy(items, args, copy)
    ensures IntersectionUpdated(items, args, copy) == Progress(Standing(items, args, copy), None)
    ensures SameClasses(Standing(items, args, copy), items) && Distinct(Standing(items, args, copy))
    decreases |args|
  {
    TakenOrKept(items, args, copy);
    CoveredExactly(items, args, copy);
    if args != [] {
      var n := |args| - 1;
      var init, last := args[..n], args[n];
      CoveredSplit(items, args, copy);
      StandingIsLeft(items, init, copy);
      StandingStep(items, Standing(items, init, copy), last, copy);
    }
  }

  /** One more covering argument: the receiver's classes stand, its own objects or the argument's. */
  lemma StandingStep(items: seq<Key>, u: seq<Key>, last: Arg, copy: seq<Key> -> seq<Key>)
    requires Distinct(items) && Distinct(u) && SameClasses(u, items) && !last.Bad? && CoveredByOne(items, last, copy)
    ensures Snapshot(u, last, copy).Ok?
    ensures IntersectSnapshot(u, Snapshot(u, last, copy).value, last.IsConcreteSet())
            == if last.Receiver? || (last.IsConcreteSet() && |Operand(last, copy)| > |items|) then u
               else Filter(Within(items), Operand(last, copy))
  {
    SameCount(u, items);
    if last.Receiver? {
      MeetItself(u);
    } else {
      SnapshotIsOperand(u, last, copy);
      CoveredClasses(u, items, last, copy);
      FilterSame(Within(u), Within(items), Operand(last, copy));
    }
  }

  lemma CoveredClasses(u: seq<Key>, items: seq<Key>, arg: Arg, copy: seq<Key> -> seq<Key>)
    requires SameClasses(u, items) && !arg.Bad? && !arg.Receiver? && CoveredByOne(items, arg, copy)
    ensures Filter(Within(Operand(arg, copy)), u) == u
  {
    forall cls | Has(u, cls)
      ensures Has(Operand(arg, copy), cls)
    {
      var n :| 0 <= n < |items| && items[n].cls == cls;
    }
    OwnClasses(u, Operand(arg, copy));
  }

  /**
   Exactly when `intersection` returns what `intersection_update` leaves, for every list of arguments: the
   receiver is never met again after covering arguments, or an argument after the last such place is the
   side whose objects survive, or the objects standing there are the receiver's own as far as they survive.
   */
  lemma AliasedExactly(items: seq<Key>, args: seq<Arg>, copy: seq<Key> -> seq<Key>)
    requires Tables(items, args, copy) && args != []
    ensures Intersection(items, args, copy).Ok? && IntersectionUpdated(items, args, copy).err == None
    ensures Intersection(items, args, copy).value == IntersectionUpdated(items, args, copy).entries
            <==> var n := LastReset(items, args, copy);
                 || n == 0
                 || SomeTakes(items, args[n..], copy)
                 || Common(items, args[n..], copy) == Common(Standing(items, args[..n - 1], copy), args[n..], copy)
  {
    IntersectionRestarts(items, args, copy);
    TakenOrKept(items, args, copy);
    var n := LastReset(items, args, copy);
    if n == 0 {
      assert args[0..] == args;
    } else {
      RestartedExactly(items, args, n, copy);
    }
  }

  lemma RestartedExactly(items: seq<Key>, args: seq<Arg>, n: nat, copy: seq<Key> -> seq<Key>)
    requires Tables(items, args, copy) && 0 < n <= |args| && args[n - 1].Receiver? && CoveredBy(items, args[..n - 1], copy)
    ensures IntersectionUpdated(items, args[n..], copy) == IntersectionUpdated(items, args, copy)
            <==> || SomeTakes(items, args[n..], copy)
                 || Common(items, args[n..], copy) == Common(Standing(items, args[..n - 1], copy), args[n..], copy)
  {
    var pre, post := args[..n - 1], args[n..];
    var standing := Standing(items, pre, copy);
    StandingIsLeft(items, pre, copy);
    AfterReset(items, args, n, copy);
    TwoStarts(items, standing, post, copy);
  }

  lemma AfterReset(items: seq<Key>, args: seq<Arg>, n: nat, copy: seq<Key> -> seq<Key>)
    requires Tables(items, args, copy) && 0 < n <= |args| && args[n - 1].Receiver? && CoveredBy(items, args[..n - 1], copy)
    ensures IntersectionUpdated(items, args, copy)
            == IntersectionUpdated(Standing(items, args[..n - 1], copy), args[n..], copy)
  {
    UpToReset(items, args, n, copy);
    SplitRun(items, args, n, copy);
  }

  lemma SplitRun(s: seq<Key>, args: seq<Arg>, n: nat, copy: seq<Key> -> seq<Key>)
    requires n <= |args| && IntersectionUpdated(s, args[..n], copy).err == None
    ensures IntersectionUpdated(s, args, copy)
            == IntersectionUpdated(IntersectionUpdated(s, args[..n], copy).entries, args[n..], copy)
  {
    assert args == args[..n] + args[n..];
    RunJoin(s, args[..n], args[n..], copy);
  }

  /** Updates from two tables of the same classes agree exactly when an argument takes or the kept objects are the same. */
  lemma TwoStarts(s: seq<Key>, t: seq<Key>, args: seq<Arg>, copy: seq<Key> -> seq<Key>)
    requires Tables(s, args, copy) && Tables(t, args, copy) && SameClasses(s, t)
    ensures IntersectionUpdated(s, args, copy) == IntersectionUpdated(t, args, copy)
            <==> SomeTakes(s, args, copy) || Common(s, args, copy) == Common(t, args, copy)
  {
    if SomeTakes(s, args, copy) {
      TakenSame(s, t, args, copy);
    } else {
      NoneTakesSame(s, t, args, copy);
      TakenOrKept(s, args, copy);
      TakenOrKept(t, args, copy);
    }
  }

  /** The receiver met again does nothing to the update. */
  lemma UpToReset(items: seq<Key>, args: seq<Arg>, n: nat, copy: seq<Key> -> seq<Key>)
    requires Tables(items, args, copy) && 0 < n <= |args| && args[n - 1].Receiver? && CoveredBy(items, args[..n - 1], copy)
    ensures IntersectionUpdated(items, args[..n], copy) == Progress(Standing(items, args[..n - 1], copy), None)
  {
    StandingIsLeft(items, args[..n - 1], copy);
    assert args[..n][..n - 1] == args[..n - 1];
    MeetItself(Standing(items, args[..n - 1], copy));
  }

  lemma NoneTakesSame(s: seq<Key>, t: seq<Key>, args: seq<Arg>, copy: seq<Key> -> seq<Key>)
    requires Tables(s, args, copy) && Tables(t, args, copy) && SameClasses(s, t)
    ensures SomeTakes(s, args, copy) <==> SomeTakes(t, args, copy)
  {
    forall j | 0 <= j < |args|
      ensures |Common(s, args[..j], copy)| == |Common(t, args[..j], copy)|
    {
      CommonSame(s, t, args[..j], copy);
      CommonDistinct(s, args[..j], copy);
      CommonDistinct(t, args[..j], copy);
      SameCount(Common(s, args[..j], copy), Common(t, args[..j], copy));
    }
  }
}
