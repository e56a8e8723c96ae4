/**
 Union types `X | Y`: construction, equality and hashing, with the same set comparison for
 `typing.Union` aliases and the collection of an alias's type parameters.
 */
module UnionTypes {
  import opened Basics
  import Sorting

  /**
   A type expression. Classes, functions, type variables and other objects are known by identity.
   `Alias` is `list[int]` and the like, `TypingUnion` is `typing.Union[...]`, `Union` is `X | Y`; they are
   compared by their parts, the unions regardless of order.
   */
  datatype Value =
    | Class(id: int)
    | Function(id: int)
    | TypeVar(id: int)
    | Object(id: int)
    | Alias(origin: int, args: seq<Value>)
    | TypingUnion(origin: int, args: seq<Value>)
    | Union(args: seq<Value>)

  // ------------------------------------------------------------------------------ equality

  /** Python equality of type expressions. */
  predicate Equal(a: Value, b: Value)
    decreases a, 0
  {
    match a
    case Union(xs) => b.Union? && |xs| == |b.args| && forall i | 0 <= i < |xs| :: Holds(xs[i], b.args)
    case TypingUnion(origin, xs) =>
      b.TypingUnion? && origin == b.origin && |xs| == |b.args| && forall i | 0 <= i < |xs| :: Holds(xs[i], b.args)
    case Alias(origin, xs) =>
      b.Alias? && origin == b.origin && |xs| == |b.args| && forall i | 0 <= i < |xs| :: Equal(xs[i], b.args[i])
    case _ => a == b
  }

  predicate Holds(x: Value, ys: seq<Value>)
    decreases x, 1
  {
    exists k | 0 <= k < |ys| :: Equal(x, ys[k])
  }

  /** The one-sided test: equal lengths, and every member of the first is in the second. */
  predicate SetEq(xs: seq<Value>, ys: seq<Value>) {
    |xs| == |ys| && AllHeld(xs, ys)
  }

  predicate AllHeld(xs: seq<Value>, ys: seq<Value>) {
    forall i | 0 <= i < |xs| :: Holds(xs[i], ys)
  }

  /** The scan with early return. */
  method ArgsEqAsSet(xs: seq<Value>, ys: seq<Value>) returns (same: bool)
    ensures same == SetEq(xs, ys)
  {
    if |xs| != |ys| {
      return false;
    }
    var i := 0;
    while i < |xs|
      invariant 0 <= i <= |xs|
      invariant forall n | 0 <= n < i :: Holds(xs[n], ys)
    {
      var k := 0;
      while k < |ys| && !Equal(xs[i], ys[k])
        invariant 0 <= k <= |ys|
        invariant forall n | 0 <= n < k :: !Equal(xs[i], ys[n])
      {
        k := k + 1;
      }
      if k == |ys| {
        assert !Holds(xs[i], ys);
        return false;
      }
      i := i + 1;
    }
    return true;
  }

  // --------------------------------------------------------------------------- construction

  predicate SameTypeIdentity(a: Value, b: Value) {
    (a.Class? && b.Class? && a.id == b.id) || (a.Function? && b.Function? && a.id == b.id)
  }

  /** A component that identity can recognise. */
  predicate Nominal(v: Value) {
    v.Class? || v.Function?
  }

  /** The components a value contributes to a union. */
  function Components(v: Value): seq<Value> {
    if v.Union? then v.args else [v]
  }

  predicate Seen(s: seq<Value>, v: Value, same: (Value, Value) -> bool) {
    exists i | 0 <= i < |s| :: same(s[i], v)
  }

  /** `s` without every element that is the same as one kept before it. */
  function FirstSeen(s: seq<Value>, same: (Value, Value) -> bool): (r: seq<Value>)
    ensures |r| <= |s|
  {
    if s == [] then []
    else
      var r := FirstSeen(s[..|s| - 1], same);
      if Seen(r, s[|s| - 1], same) then r else r + [s[|s| - 1]]
  }

  function UnionOf(components: seq<Value>): Value {
    var d := FirstSeen(components, SameTypeIdentity);
    if |d| == 1 then d[0] else Union(d)
  }

  function MakeUnion(a: Value, b: Value): Value {
    UnionOf(Components(a) + Components(b))
  }

  method CollectUnionComponents(v: Value, components: seq<Value>) returns (out: seq<Value>)
    ensures out == components + Components(v)
  {
    out := components;
    if v.Union? {
      for n := 0 to |v.args|
        invariant out == components + v.args[..n]
      {
        out := out + [v.args[n]];
      }
    } else {
      out := out + [v];
    }
  }

  method MakeUnionType(lhs: Value, rhs: Value) returns (r: Value)
    ensures r == MakeUnion(lhs, rhs)
  {
    var components := CollectUnionComponents(lhs, []);
    components := CollectUnionComponents(rhs, components);
    assert components == Components(lhs) + Components(rhs);
    var deduped := KeepFirst(components, SameTypeIdentity);
    r := if |deduped| == 1 then deduped[0] else Union(deduped);
  }

  method KeepFirst(s: seq<Value>, same: (Value, Value) -> bool) returns (kept: seq<Value>)
    ensures kept == FirstSeen(s, same)
  {
    kept := [];
    for n := 0 to |s|
      invariant kept == FirstSeen(s[..n], same)
    {
      assert s[..n + 1][..n] == s[..n];
      kept := PushUnlessSeen(kept, s[n], same);
    }
    assert s[..|s|] == s;
  }

  method PushUnlessSeen(s: seq<Value>, v: Value, same: (Value, Value) -> bool) returns (r: seq<Value>)
    ensures r == if Seen(s, v, same) then s else s + [v]
  {
    var i := 0;
    while i < |s| && !same(s[i], v)
      invariant 0 <= i <= |s|
      invariant forall n | 0 <= n < i :: !same(s[n], v)
    {
      i := i + 1;
    }
    r := if i < |s| then s else s + [v];
  }

  // ------------------------------------------------------------------ laws of keeping the first

  ghost predicate PartialEquivalence(same: (Value, Value) -> bool) {
    && (forall a, b :: same(a, b) ==> same(b, a))
    && (forall a, b, c :: same(a, b) && same(b, c) ==> same(a, c))
  }

  lemma FirstSeenAppend(s: seq<Value>, v: Value, same: (Value, Value) -> bool)
    ensures FirstSeen(s + [v], same) == if Seen(FirstSeen(s, same), v, same) then FirstSeen(s, same) else FirstSeen(s, same) + [v]
  {
    assert (s + [v])[..|s + [v]| - 1] == s;
  }

  /** Keeping the first loses nobody: what was there is still there, up to sameness. */
  lemma {:induction false} SeenAfter(s: seq<Value>, v: Value, same: (Value, Value) -> bool)
    requires PartialEquivalence(same)
    ensures Seen(FirstSeen(s, same), v, same) <==> Seen(s, v, same)
  {
    if s != [] {
      var init, last := s[..|s| - 1], s[|s| - 1];
      SeenAfter(init, v, same);
      var r := FirstSeen(init, same);
      SeenJoin(init, [last], v, same);
      SeenJoin(r, [last], v, same);
      assert s == init + [last];
      assert Seen([last], v, same) <==> same(last, v) by { assert [last][0] == last; }
      if Seen(r, last, same) && same(last, v) {
        var i :| 0 <= i < |r| && same(r[i], last);
        assert same(r[i], v);
      }
    }
  }

  lemma SeenJoin(s: seq<Value>, t: seq<Value>, v: Value, same: (Value, Value) -> bool)
    ensures Seen(s + t, v, same) <==> Seen(s, v, same) || Seen(t, v, same)
  {
    if Seen(t, v, same) {
      var i :| 0 <= i < |t| && same(t[i], v);
      assert (s + t)[|s| + i] == t[i];
    }
    if Seen(s, v, same) {
      var i :| 0 <= i < |s| && same(s[i], v);
      assert (s + t)[i] == s[i];
    }
  }

  /** Thinning the front early changes nothing. */
  lemma {:induction false} FirstSeenLeft(s: seq<Value>, t: seq<Value>, same: (Value, Value) -> bool)
    requires PartialEquivalence(same)
    ensures FirstSeen(FirstSeen(s, same) + t, same) == FirstSeen(s + t, same)
    decreases |t|
  {
    var r := FirstSeen(s, same);
    if t == [] {
      FirstSeenTwice(s, same);
      assert r + t == r && s + t == s;
    } else {
      var init, last := t[..|t| - 1], t[|t| - 1];
      FirstSeenLeft(s, init, same);
      assert r + t == r + init + [last] && s + t == s + init + [last];
      FirstSeenAppend(r + init, last, same);
      FirstSeenAppend(s + init, last, same);
    }
  }

  lemma {:induction false} FirstSeenTwice(s: seq<Value>, same: (Value, Value) -> bool)
    ensures FirstSeen(FirstSeen(s, same), same) == FirstSeen(s, same)
  {
    if s != [] {
      var init := s[..|s| - 1];
      FirstSeenTwice(init, same);
      var r := FirstSeen(init, same);
      assert (r + [s[|s| - 1]])[..|r|] == r;
    }
  }

  /** Nor does thinning the back early. */
  lemma {:induction false} FirstSeenRight(s: seq<Value>, t: seq<Value>, same: (Value, Value) -> bool)
    requires PartialEquivalence(same)
    ensures FirstSeen(s + FirstSeen(t, same), same) == FirstSeen(s + t, same)
    decreases |t|
  {
    if t != [] {
      var init, last := t[..|t| - 1], t[|t| - 1];
      FirstSeenRight(s, init, same);
      var r := FirstSeen(init, same);
      JoinLast(s, t);
      FirstSeenAppend(s + init, last, same);
      FirstSeenAppend(init, last, same);
      if Seen(r, last, same) {
        SeenThrough(s, init, last, same);
      } else {
        JoinLast(s, r + [last]);
        FirstSeenAppend(s + r, last, same);
      }
    }
  }

  /** What thinning the back keeps is kept when the front is joined on. */
  lemma SeenThrough(s: seq<Value>, t: seq<Value>, v: Value, same: (Value, Value) -> bool)
    requires PartialEquivalence(same) && Seen(FirstSeen(t, same), v, same)
    ensures Seen(FirstSeen(s + t, same), v, same)
  {
    SeenAfter(s + t, v, same);
    SeenJoin(s, t, v, same);
    SeenAfter(t, v, same);
  }

  // ------------------------------------------------------------------------- laws of union

  /** What `X | Y` builds: components that are not unions, thinned, and not just one. */
  predicate Built(v: Value) {
    v.Union? ==>
      && |v.args| != 1
      && FirstSeen(v.args, SameTypeIdentity) == v.args
      && Flat(v.args)
  }

  predicate Flat(s: seq<Value>) {
    forall i | 0 <= i < |s| :: !s[i].Union?
  }

  lemma IdentityIsPartialEquivalence()
    ensures PartialEquivalence(SameTypeIdentity)
  {
  }

  lemma {:induction false} FirstSeenKeepsFlat(s: seq<Value>, same: (Value, Value) -> bool)
    requires Flat(s)
    ensures Flat(FirstSeen(s, same))
  {
    if s != [] {
      FirstSeenKeepsFlat(s[..|s| - 1], same);
    }
  }

  lemma ComponentsFlat(a: Value)
    requires Built(a)
    ensures Flat(Components(a))
    ensures FirstSeen(Components(a), SameTypeIdentity) == Components(a)
  {
    if !a.Union? {
      assert [a][..0] == [];
    }
  }

  /** A union's components are the thinned components of its operands, and it is flat again. */
  lemma MakeUnionBuilt(a: Value, b: Value)
    requires Built(a) && Built(b)
    ensures Built(MakeUnion(a, b))
    ensures Components(MakeUnion(a, b)) == FirstSeen(Components(a) + Components(b), SameTypeIdentity)
  {
    ComponentsFlat(a);
    ComponentsFlat(b);
    var s := Components(a) + Components(b);
    FirstSeenKeepsFlat(s, SameTypeIdentity);
    FirstSeenTwice(s, SameTypeIdentity);
  }

  lemma ThinLeft(s: seq<Value>, t: seq<Value>)
    ensures FirstSeen(FirstSeen(s, SameTypeIdentity) + t, SameTypeIdentity) == FirstSeen(s + t, SameTypeIdentity)
  {
    IdentityIsPartialEquivalence();
    FirstSeenLeft(s, t, SameTypeIdentity);
  }

  lemma ThinRight(s: seq<Value>, t: seq<Value>)
    ensures FirstSeen(s + FirstSeen(t, SameTypeIdentity), SameTypeIdentity) == FirstSeen(s + t, SameTypeIdentity)
  {
    IdentityIsPartialEquivalence();
    FirstSeenRight(s, t, SameTypeIdentity);
  }

  lemma ThinningAssociative(x: seq<Value>, y: seq<Value>, z: seq<Value>)
    ensures FirstSeen(FirstSeen(x + y, SameTypeIdentity) + z, SameTypeIdentity)
            == FirstSeen(x + FirstSeen(y + z, SameTypeIdentity), SameTypeIdentity)
  {
    ThinLeft(x + y, z);
    ThinRight(x, y + z);
    assert x + y + z == x + (y + z);
  }

  lemma OnlyThinnedMatters(s: seq<Value>, t: seq<Value>)
    requires FirstSeen(s, SameTypeIdentity) == FirstSeen(t, SameTypeIdentity)
    ensures UnionOf(s) == UnionOf(t)
  {
  }

  /** `(a | b) | c` and `a | (b | c)` are the same value, argument order included. */
  lemma UnionAssociative(a: Value, b: Value, c: Value)
    requires Built(a) && Built(b) && Built(c)
    ensures MakeUnion(MakeUnion(a, b), c) == MakeUnion(a, MakeUnion(b, c))
  {
    var x, y, z := Components(a), Components(b), Components(c);
    MakeUnionBuilt(a, b);
    MakeUnionBuilt(b, c);
    ThinningAssociative(x, y, z);
    OnlyThinnedMatters(FirstSeen(x + y, SameTypeIdentity) + z, x + FirstSeen(y + z, SameTypeIdentity));
  }

  predicate AllNominal(s: seq<Value>) {
    forall i | 0 <= i < |s| :: Nominal(s[i])
  }

  lemma NominalSeen(r: seq<Value>, v: Value)
    ensures Seen(r, v, SameTypeIdentity) <==> Nominal(v) && v in r
  {
  }

  lemma {:induction false} ThinnedRepeats(s: seq<Value>, t: seq<Value>)
    requires FirstSeen(s, SameTypeIdentity) == s && AllNominal(t)
    requires forall i | 0 <= i < |t| :: t[i] in s
    ensures FirstSeen(s + t, SameTypeIdentity) == s
    decreases |t|
  {
    if t == [] {
      assert s + t == s;
    } else {
      var init, last := t[..|t| - 1], t[|t| - 1];
      ThinnedRepeats(s, init);
      assert s + t == s + init + [last] && last in s;
      NominalSeen(s, last);
      FirstSeenAppend(s + init, last, SameTypeIdentity);
    }
  }

  /** Components that identity does not recognise pile up. */
  lemma {:induction false} ThinnedGrows(s: seq<Value>, t: seq<Value>)
    requires FirstSeen(s, SameTypeIdentity) == s
    ensures |FirstSeen(s + t, SameTypeIdentity)| >= if AllNominal(t) then |s| else |s| + 1
    decreases |t|
  {
    if t == [] {
      assert s + t == s;
    } else {
      var init, last := t[..|t| - 1], t[|t| - 1];
      ThinnedGrows(s, init);
      assert s + t == s + init + [last];
      AppendGrows(s + init, last);
      assert AllNominal(t) <==> AllNominal(init) && Nominal(last);
    }
  }

  lemma AppendGrows(s: seq<Value>, v: Value)
    ensures |FirstSeen(s + [v], SameTypeIdentity)| >= |FirstSeen(s, SameTypeIdentity)| + if Nominal(v) then 0 else 1
  {
    FirstSeenAppend(s, v, SameTypeIdentity);
    NominalSeen(FirstSeen(s, SameTypeIdentity), v);
  }

  /** `v | v` is `v` exactly when identity can recognise all of its components. */
  lemma UnionIdempotentExactly(v: Value)
    requires Built(v)
    ensures MakeUnion(v, v) == v
            <==> if v.Union? then forall i | 0 <= i < |v.args| :: v.args[i].Class? || v.args[i].Function?
                 else v.Class? || v.Function?
  {
    ComponentsFlat(v);
    MakeUnionBuilt(v, v);
    if AllNominal(Components(v)) {
      ThinnedRepeats(Components(v), Components(v));
    } else {
      ThinnedGrows(Components(v), Components(v));
    }
  }

  /** Joining loses no component and adds none. */
  lemma UnionKeepsComponents(a: Value, b: Value, v: Value)
    requires Built(a) && Built(b)
    ensures v in Components(MakeUnion(a, b)) <==> v in Components(a) || v in Components(b)
  {
    MakeUnionBuilt(a, b);
    var s := Components(a) + Components(b);
    ThinnedCount(s, v);
    assert v in s <==> Count(s, v) > 0;
    assert v in FirstSeen(s, SameTypeIdentity) <==> Count(FirstSeen(s, SameTypeIdentity), v) > 0;
  }

  // ---------------------------------------------------------------------------- commutation

  function Count(s: seq<Value>, v: Value): nat {
    multiset(s)[v]
  }

  lemma CountAppend(s: seq<Value>, last: Value, v: Value)
    ensures Count(s + [last], v) == Count(s, v) + if last == v then 1 else 0
  {
  }

  /** How often a component survives thinning depends only on how often it occurred. */
  lemma {:induction false} ThinnedCount(s: seq<Value>, v: Value)
    ensures Count(FirstSeen(s, SameTypeIdentity), v) == if Nominal(v) && Count(s, v) > 1 then 1 else Count(s, v)
  {
    if s != [] {
      var init, last := s[..|s| - 1], s[|s| - 1];
      ThinnedCount(init, v);
      assert s == init + [last];
      var r := FirstSeen(init, SameTypeIdentity);
      CountAppend(r, last, v);
      CountAppend(init, last, v);
      FirstSeenAppend(init, last, SameTypeIdentity);
      if last == v {
        NominalSeen(r, v);
        assert v in r <==> Count(r, v) > 0;
      }
    }
  }

  lemma ThinnedPermutation(s: seq<Value>, t: seq<Value>)
    requires multiset(s) == multiset(t)
    ensures multiset(FirstSeen(s, SameTypeIdentity)) == multiset(FirstSeen(t, SameTypeIdentity))
  {
    forall v
      ensures multiset(FirstSeen(s, SameTypeIdentity))[v] == multiset(FirstSeen(t, SameTypeIdentity))[v]
    {
      ThinnedCount(s, v);
      ThinnedCount(t, v);
      assert Count(s, v) == Count(t, v);
    }
  }

  lemma {:induction false} EqualReflexive(v: Value)
    ensures Equal(v, v)
    decreases v
  {
    if v.Union? || v.TypingUnion? || v.Alias? {
      forall i | 0 <= i < |v.args|
        ensures Equal(v.args[i], v.args[i])
      {
        EqualReflexive(v.args[i]);
      }
      assert forall i | 0 <= i < |v.args| :: Holds(v.args[i], v.args);
    }
  }

  lemma PermutationsEqual(s: seq<Value>, t: seq<Value>)
    requires multiset(s) == multiset(t)
    ensures SetEq(s, t)
  {
    assert |s| == |multiset(s)| && |t| == |multiset(t)|;
    forall i | 0 <= i < |s|
      ensures Holds(s[i], t)
    {
      assert s[i] in multiset(s);
      assert s[i] in t;
      var k :| 0 <= k < |t| && t[k] == s[i];
      EqualReflexive(s[i]);
    }
  }

  /** `a | b == b | a`, whatever the operands. */
  lemma UnionCommutative(a: Value, b: Value)
    requires Built(a) && Built(b)
    ensures Equal(MakeUnion(a, b), MakeUnion(b, a))
  {
    var x, y := Components(a), Components(b);
    assert multiset(x + y) == multiset(y + x);
    ThinnedPermutation(x + y, y + x);
    CollapsedEqual(FirstSeen(x + y, SameTypeIdentity), FirstSeen(y + x, SameTypeIdentity));
  }

  lemma CollapsedEqual(d: seq<Value>, e: seq<Value>)
    requires multiset(d) == multiset(e)
    ensures Equal(if |d| == 1 then d[0] else Union(d), if |e| == 1 then e[0] else Union(e))
  {
    PermutationsEqual(d, e);
    assert Equal(Union(d), Union(e));
    if |d| == 1 {
      assert Holds(d[0], e);
    }
  }

  // ------------------------------------------------------- the one-sided test as an equivalence

  /** No two members are equal. */
  predicate Distinct(xs: seq<Value>) {
    forall i, j | 0 <= i < j < |xs| :: !Equal(xs[i], xs[j])
  }

  /** Every union inside has distinct members. */
  predicate WellFormed(v: Value)
    decreases v
  {
    match v
    case Union(xs) => Distinct(xs) && forall i | 0 <= i < |xs| :: WellFormed(xs[i])
    case TypingUnion(_, xs) => Distinct(xs) && forall i | 0 <= i < |xs| :: WellFormed(xs[i])
    case Alias(_, xs) => forall i | 0 <= i < |xs| :: WellFormed(xs[i])
    case _ => true
  }

  /** A value the constructors build: `X | Y` flat and thinned, `typing.Union` without repeats. */
  predicate Constructed(v: Value)
    decreases v
  {
    match v
    case Union(xs) => Built(v) && forall i | 0 <= i < |xs| :: Constructed(xs[i])
    case TypingUnion(_, xs) => Distinct(xs) && forall i | 0 <= i < |xs| :: Constructed(xs[i])
    case Alias(_, xs) => forall i | 0 <= i < |xs| :: Constructed(xs[i])
    case _ => true
  }

  predicate AllWellFormed(xs: seq<Value>) {
    forall i | 0 <= i < |xs| :: WellFormed(xs[i])
  }

  /** Each member of `ys` equals at most one member of `xs`. */
  predicate Separated(xs: seq<Value>, ys: seq<Value>) {
    forall i, j, k | 0 <= i < j < |xs| && 0 <= k < |ys| :: !(Equal(xs[i], ys[k]) && Equal(xs[j], ys[k]))
  }

  /** Each member of `xs` has a partner in `ys` and no two share one: so every member of `ys` is taken. */
  lemma {:induction false} AllTaken(xs: seq<Value>, ys: seq<Value>, k: nat)
    requires SetEq(xs, ys) && Separated(xs, ys) && k < |ys|
    ensures exists i | 0 <= i < |xs| :: Equal(xs[i], ys[k])
    decreases |xs|
  {
    var n := |xs| - 1;
    assert Holds(xs[n], ys);
    var j :| 0 <= j < |ys| && Equal(xs[n], ys[j]);
    if j != k {
      RemovePartner(xs, ys, j);
      var rest := ys[..j] + ys[j + 1..];
      var m := if k < j then k else k - 1;
      assert rest[m] == ys[k];
      AllTaken(xs[..n], rest, m);
    }
  }

  lemma RemovePartner(xs: seq<Value>, ys: seq<Value>, j: nat)
    requires |xs| > 0 && AllHeld(xs, ys) && Separated(xs, ys) && j < |ys| && Equal(xs[|xs| - 1], ys[j])
    ensures AllHeld(xs[..|xs| - 1], ys[..j] + ys[j + 1..]) && Separated(xs[..|xs| - 1], ys[..j] + ys[j + 1..])
  {
    var init, rest := xs[..|xs| - 1], ys[..j] + ys[j + 1..];
    forall i | 0 <= i < |init|
      ensures Holds(init[i], rest)
    {
      assert Holds(xs[i], ys);
      var k :| 0 <= k < |ys| && Equal(xs[i], ys[k]);
      assert rest[if k < j then k else k - 1] == ys[k];
    }
  }

  /** Equal values are of one kind, and where they have an origin and arguments, of one origin and as many. */
  lemma EqualSameShape(a: Value, b: Value)
    requires Equal(a, b)
    ensures (a.Union? <==> b.Union?) && (a.TypingUnion? <==> b.TypingUnion?) && (a.Alias? <==> b.Alias?)
    ensures a.Union? || a.TypingUnion? || a.Alias? ==> |a.args| == |b.args|
    ensures a.TypingUnion? || a.Alias? ==> a.origin == b.origin
    ensures !a.Union? && !a.TypingUnion? && !a.Alias? ==> a == b
    ensures a.Alias? ==> forall i | 0 <= i < |a.args| :: Equal(a.args[i], b.args[i])
  {
  }

  lemma {:induction false} EqualTransitive(a: Value, b: Value, c: Value)
    requires Equal(a, b) && Equal(b, c)
    ensures Equal(a, c)
    decreases a
  {
    if a.Alias? {
      forall i | 0 <= i < |a.args|
        ensures Equal(a.args[i], c.args[i])
      {
        EqualTransitive(a.args[i], b.args[i], c.args[i]);
      }
    } else if a.Union? || a.TypingUnion? {
      forall i | 0 <= i < |a.args|
        ensures Holds(a.args[i], c.args)
      {
        assert Holds(a.args[i], b.args);
        var k :| 0 <= k < |b.args| && Equal(a.args[i], b.args[k]);
        assert Holds(b.args[k], c.args);
        var m :| 0 <= m < |c.args| && Equal(b.args[k], c.args[m]);
        EqualTransitive(a.args[i], b.args[k], c.args[m]);
      }
    }
  }

  /** Equality is symmetric on values whose unions have distinct members. */
  lemma {:induction false} EqualSymmetric(a: Value, b: Value)
    requires WellFormed(a) && Equal(a, b)
    ensures Equal(b, a)
    decreases a, 2
  {
    if a.Alias? {
      forall i | 0 <= i < |a.args|
        ensures Equal(b.args[i], a.args[i])
      {
        EqualSymmetric(a.args[i], b.args[i]);
      }
    } else if a.Union? || a.TypingUnion? {
      UnionSymmetric(a, b);
    }
  }

  lemma {:induction false} UnionSymmetric(a: Value, b: Value)
    requires (a.Union? || a.TypingUnion?) && WellFormed(a) && Equal(a, b)
    ensures SetEq(b.args, a.args)
    decreases a, 1
  {
    var xs, ys := a.args, b.args;
    DistinctSeparated(a, ys);
    forall k | 0 <= k < |ys|
      ensures Holds(ys[k], xs)
    {
      AllTaken(xs, ys, k);
      var i :| 0 <= i < |xs| && Equal(xs[i], ys[k]);
      EqualSymmetric(xs[i], ys[k]);
    }
  }

  lemma {:induction false} DistinctSeparated(a: Value, ys: seq<Value>)
    requires (a.Union? || a.TypingUnion?) && WellFormed(a)
    ensures Separated(a.args, ys)
    decreases a, 0
  {
    var xs := a.args;
    forall i, j, k | 0 <= i < j < |xs| && 0 <= k < |ys| && Equal(xs[i], ys[k])
      ensures !Equal(xs[j], ys[k])
    {
      if Equal(xs[j], ys[k]) {
        EqualSymmetric(xs[j], ys[k]);
        EqualTransitive(xs[i], ys[k], xs[j]);
      }
    }
  }

  /** Partners that are not shared are at least as many. */
  lemma {:induction false} PartnersFit(xs: seq<Value>, ys: seq<Value>)
    requires AllHeld(xs, ys) && Separated(xs, ys)
    ensures |xs| <= |ys|
    decreases |xs|
  {
    if xs != [] {
      assert Holds(xs[|xs| - 1], ys);
      var j :| 0 <= j < |ys| && Equal(xs[|xs| - 1], ys[j]);
      RemovePartner(xs, ys, j);
      PartnersFit(xs[..|xs| - 1], ys[..j] + ys[j + 1..]);
    }
  }

  /** On distinct members the one-sided test is set equality: each tuple holds the other. */
  lemma SetEqOfDistinct(xs: seq<Value>, ys: seq<Value>)
    requires WellFormed(Union(xs)) && WellFormed(Union(ys))
    ensures SetEq(xs, ys) <==> AllHeld(xs, ys) && AllHeld(ys, xs)
  {
    if SetEq(xs, ys) {
      UnionSymmetric(Union(xs), Union(ys));
    }
    if AllHeld(xs, ys) && AllHeld(ys, xs) {
      DistinctSeparated(Union(xs), ys);
      DistinctSeparated(Union(ys), xs);
      PartnersFit(xs, ys);
      PartnersFit(ys, xs);
    }
  }

  // -------------------------------------------------------------- where equality is symmetric

  predicate Composite(v: Value) {
    v.Union? || v.TypingUnion? || v.Alias?
  }

  /** `v` with another member in place `i`. */
  function Replace(v: Value, i: nat, c: Value): (r: Value)
    requires Composite(v) && i < |v.args|
    ensures Composite(r) && r.args == v.args[i := c]
    ensures (r.Union? <==> v.Union?) && (r.TypingUnion? <==> v.TypingUnion?)
    ensures v.Union? || r.origin == v.origin
  {
    var args := v.args[i := c];
    match v
    case Union(_) => Union(args)
    case TypingUnion(origin, _) => TypingUnion(origin, args)
    case Alias(origin, _) => Alias(origin, args)
  }

  /** The class `id` occurs in `v`, at any depth. */
  predicate Mentions(v: Value, id: int)
    decreases v
  {
    v == Class(id) || (Composite(v) && exists i | 0 <= i < |v.args| :: Mentions(v.args[i], id))
  }

  lemma {:induction false} MentionsKept(a: Value, b: Value, id: int)
    requires Equal(a, b) && Mentions(a, id)
    ensures Mentions(b, id)
    decreases a
  {
    if Composite(a) {
      var i :| 0 <= i < |a.args| && Mentions(a.args[i], id);
      if a.Alias? {
        MentionsKept(a.args[i], b.args[i], id);
      } else {
        assert Holds(a.args[i], b.args);
        var k :| 0 <= k < |b.args| && Equal(a.args[i], b.args[k]);
        MentionsKept(a.args[i], b.args[k], id);
      }
    }
  }

  /** Some class is mentioned nowhere in `v`. */
  lemma {:induction false} MentionBound(v: Value) returns (n: int)
    ensures forall m | m >= n :: !Mentions(v, m)
    decreases v
  {
    n := if v.Class? then v.id + 1 else 0;
    if Composite(v) {
      for i := 0 to |v.args|
        invariant forall m, k | m >= n && 0 <= k < i :: !Mentions(v.args[k], m)
      {
        var next := MentionBound(v.args[i]);
        n := if next > n then next else n;
      }
    }
  }

  lemma {:induction false} ThinnedExactly(s: seq<Value>)
    ensures FirstSeen(s, SameTypeIdentity) == s <==> forall i, j | 0 <= i < j < |s| :: !SameTypeIdentity(s[i], s[j])
  {
    if s != [] {
      var init, last := s[..|s| - 1], s[|s| - 1];
      assert s == init + [last];
      ThinnedExactly(init);
      var r := FirstSeen(init, SameTypeIdentity);
      if FirstSeen(s, SameTypeIdentity) == s {
        assert |r| == |init|;
        assert r == (r + [last])[..|init|] == init;
      }
    }
  }

  /** `b` takes everything `a` is equal to, and of the values that do not mention `n` no more. */
  ghost predicate OneWay(a: Value, b: Value, n: int) {
    Equal(a, b) && Mentions(b, n) && forall x | Equal(x, b) && !Mentions(x, n) :: Equal(x, a)
  }

  /** A repeated member may make room for a class that `a` does not mention. */
  lemma RepeatReplaced(a: Value, i: nat, j: nat, n: int)
    requires (a.Union? || a.TypingUnion?) && i < j < |a.args| && Equal(a.args[i], a.args[j]) && !Mentions(a, n)
    ensures OneWay(a, Replace(a, i, Class(n)), n)
  {
    var b := Replace(a, i, Class(n));
    RepeatedHeld(a.args, i, j, b.args);
    assert Mentions(b.args[i], n);
    forall x | Equal(x, b) && !Mentions(x, n)
      ensures Equal(x, a)
    {
      RepeatReplacedBack(a, i, n, x);
    }
  }

  lemma RepeatReplacedBack(a: Value, i: nat, n: int, x: Value)
    requires (a.Union? || a.TypingUnion?) && i < |a.args|
    requires Equal(x, Replace(a, i, Class(n))) && !Mentions(x, n)
    ensures Equal(x, a)
  {
    var xs, ys := a.args, Replace(a, i, Class(n)).args;
    forall m | 0 <= m < |x.args|
      ensures Holds(x.args[m], xs)
    {
      assert Holds(x.args[m], ys) && !Mentions(x.args[m], n);
      var k :| 0 <= k < |ys| && Equal(x.args[m], ys[k]);
      if k == i {
        EqualsClass(x.args[m], n);
      }
      assert ys[k] == xs[k];
    }
  }

  lemma EqualsClass(x: Value, n: int)
    ensures Equal(x, Class(n)) <==> x == Class(n)
  {
  }

  lemma RepeatReplacedBuilt(a: Value, i: nat, n: int)
    requires a.Union? && Built(a) && i < |a.args| && !Mentions(a, n)
    ensures Built(Replace(a, i, Class(n)))
  {
    ThinnedExactly(a.args);
    ThinnedExactly(Replace(a, i, Class(n)).args);
    assert forall k | 0 <= k < |a.args| :: !Mentions(a.args[k], n);
    assert Mentions(Class(n), n);
  }

  /** What goes one way for a member goes one way for the whole. */
  lemma MemberReplaced(a: Value, i: nat, c: Value, n: int)
    requires Composite(a) && i < |a.args| && OneWay(a.args[i], c, n) && !Mentions(a, n)
    ensures OneWay(a, Replace(a, i, c), n)
  {
    var b := Replace(a, i, c);
    MemberReplacedEqual(a, i, c);
    assert Mentions(b.args[i], n);
    forall x | Equal(x, b) && !Mentions(x, n)
      ensures Equal(x, a)
    {
      MemberReplacedBack(a, i, c, n, x);
    }
  }

  lemma MemberReplacedEqual(a: Value, i: nat, c: Value)
    requires Composite(a) && i < |a.args| && Equal(a.args[i], c)
    ensures Equal(a, Replace(a, i, c))
  {
    var xs, ys := a.args, Replace(a, i, c).args;
    forall k | 0 <= k < |xs|
      ensures Equal(xs[k], ys[k])
    {
      EqualReflexive(xs[k]);
    }
    assert forall k | 0 <= k < |xs| :: Holds(xs[k], ys);
  }

  lemma MemberReplacedBack(a: Value, i: nat, c: Value, n: int, x: Value)
    requires Composite(a) && i < |a.args| && OneWay(a.args[i], c, n)
    requires Equal(x, Replace(a, i, c)) && !Mentions(x, n)
    ensures Equal(x, a)
  {
    var xs := a.args;
    var ys := xs[i := c];
    assert |ys| == |xs| && ys[i] == c && forall k | 0 <= k < |xs| && k != i :: ys[k] == xs[k];
    assert forall m | 0 <= m < |x.args| :: !Mentions(x.args[m], n);
    if !a.Alias? {
      forall m | 0 <= m < |x.args|
        ensures Holds(x.args[m], xs)
      {
        assert Holds(x.args[m], ys);
        var k :| 0 <= k < |ys| && Equal(x.args[m], ys[k]);
        assert Equal(x.args[m], xs[k]);
      }
    }
  }

  /** Replacing a member in this way leaves a constructed value constructed. */
  lemma MemberReplacedConstructed(a: Value, i: nat, c: Value, n: int)
    requires Composite(a) && i < |a.args| && OneWay(a.args[i], c, n) && !Mentions(a, n)
    requires Constructed(a) && !WellFormed(a.args[i]) && Constructed(c)
    ensures Constructed(Replace(a, i, c))
  {
    var b := Replace(a, i, c);
    if a.Union? {
      MemberReplacedBuilt(a, i, c);
    } else if a.TypingUnion? {
      MemberReplacedDistinct(a.args, i, c, n);
    }
    assert forall k | 0 <= k < |b.args| :: Constructed(b.args[k]);
  }

  lemma MemberReplacedBuilt(a: Value, i: nat, c: Value)
    requires a.Union? && Built(a) && i < |a.args| && !WellFormed(a.args[i]) && Equal(a.args[i], c)
    ensures Built(Replace(a, i, c))
  {
    assert !a.args[i].Union? && !Nominal(a.args[i]) && !c.Union? && !Nominal(c);
    ThinnedExactly(a.args);
    ThinnedExactly(a.args[i := c]);
  }

  lemma MemberReplacedDistinct(xs: seq<Value>, i: nat, c: Value, n: int)
    requires Distinct(xs) && i < |xs| && OneWay(xs[i], c, n)
    requires forall k | 0 <= k < |xs| :: !Mentions(xs[k], n)
    ensures Distinct(xs[i := c])
  {
    forall m | i < m < |xs|
      ensures !Equal(c, xs[m])
    {
      if Equal(c, xs[m]) {
        MentionsKept(c, xs[m], n);
      }
    }
  }

  /** A value with a repeat inside equals one that does not equal it, and that can be constructed if it can. */
  lemma {:induction false} Asymmetric(a: Value, n: int) returns (b: Value)
    requires !WellFormed(a) && !Mentions(a, n)
    ensures OneWay(a, b, n) && (Constructed(a) ==> Constructed(b))
    decreases a
  {
    if !a.Alias? && !Distinct(a.args) {
      var i, j :| 0 <= i < j < |a.args| && Equal(a.args[i], a.args[j]);
      b := Replace(a, i, Class(n));
      RepeatReplaced(a, i, j, n);
      if Constructed(a) {
        RepeatReplacedBuilt(a, i, n);
      }
    } else {
      var i :| 0 <= i < |a.args| && !WellFormed(a.args[i]);
      var c := Asymmetric(a.args[i], n);
      b := Replace(a, i, c);
      MemberReplaced(a, i, c, n);
      if Constructed(a) {
        MemberReplacedConstructed(a, i, c, n);
      }
    }
  }

  /**
   Equality is symmetric at a value exactly when every union inside it has distinct members, and it makes
   no difference whether it is asked of all values or only of those that can be constructed.
   */
  lemma EqualSymmetricExactly(a: Value)
    ensures WellFormed(a) <==> forall b | Equal(a, b) :: Equal(b, a)
    ensures Constructed(a) ==> (WellFormed(a) <==> forall b | Constructed(b) && Equal(a, b) :: Equal(b, a))
  {
    if WellFormed(a) {
      forall b | Equal(a, b)
        ensures Equal(b, a)
      {
        EqualSymmetric(a, b);
      }
    } else {
      var n := MentionBound(a);
      var b := Asymmetric(a, n);
      if Equal(b, a) {
        MentionsKept(b, a, n);
      }
      assert Equal(a, b) && !Equal(b, a);
    }
  }

  /** So the one-sided test is symmetric in a tuple exactly when its members are distinct and well-formed. */
  lemma SymmetricExactly(xs: seq<Value>)
    ensures Distinct(xs) && AllWellFormed(xs) <==> forall ys | SetEq(xs, ys) :: SetEq(ys, xs)
  {
    var a := Union(xs);
    if WellFormed(a) {
      forall ys | SetEq(xs, ys)
        ensures SetEq(ys, xs)
      {
        UnionSymmetric(a, Union(ys));
      }
    } else {
      EqualSymmetricExactly(a);
      var b :| Equal(a, b) && !Equal(b, a);
      assert SetEq(xs, b.args) && !SetEq(b.args, xs);
    }
  }

  lemma RepeatedHeld(xs: seq<Value>, i: nat, j: nat, ys: seq<Value>)
    requires i < j < |xs| && Equal(xs[i], xs[j]) && |ys| == |xs|
    requires forall n | 0 <= n < |xs| && n != i :: ys[n] == xs[n]
    ensures SetEq(xs, ys)
  {
    forall n | 0 <= n < |xs|
      ensures Holds(xs[n], ys)
    {
      EqualReflexive(xs[n]);
      assert ys[if n == i then j else n] == xs[if n == i then j else n];
    }
  }

  // --------------------------------------------------------------------------------- hashing

  /** A 64-bit word, as the set of the positions of its one bits. */
  type HashWord = set<nat>

  /** `a ^ b` */
  function Xor(a: HashWord, b: HashWord): HashWord {
    (a - b) + (b - a)
  }

  lemma XorSwap(a: HashWord, b: HashWord, c: HashWord)
    ensures Xor(Xor(a, b), c) == Xor(Xor(a, c), b)
  {
  }

  /** Bit by bit: one where the words differ. */
  lemma XorBit(a: HashWord, b: HashWord, k: nat)
    ensures k in Xor(a, b) <==> (k in a) != (k in b)
  {
  }

  function HavingBit(hashes: seq<Option<HashWord>>, k: nat): nat {
    if hashes == [] then 0
    else
      var last := hashes[|hashes| - 1];
      HavingBit(hashes[..|hashes| - 1], k) + if last.Some? && k in last.value then 1 else 0
  }

  /** In the exclusive or a bit is set exactly when it is set in an odd number of the hashes. */
  lemma {:induction false} XorsBit(hashes: seq<Option<HashWord>>, k: nat)
    ensures Xors(hashes).Some? ==> (k in Xors(hashes).value <==> HavingBit(hashes, k) % 2 == 1)
  {
    if hashes != [] {
      XorsBit(hashes[..|hashes| - 1], k);
    }
  }

  /** The exclusive or of all the hashes, or none when one is missing. */
  function Xors(hashes: seq<Option<HashWord>>): Option<HashWord> {
    if hashes == [] then Some({})
    else Combine(Xors(hashes[..|hashes| - 1]), hashes[|hashes| - 1])
  }

  function Combine(a: Option<HashWord>, b: Option<HashWord>): Option<HashWord> {
    if a.Some? && b.Some? then Some(Xor(a.value, b.value)) else None
  }

  lemma XorsAppend(hashes: seq<Option<HashWord>>, h: Option<HashWord>)
    ensures Xors(hashes + [h]) == Combine(Xors(hashes), h)
  {
    assert (hashes + [h])[..|hashes + [h]| - 1] == hashes;
  }

  /** A hash may be taken out of an exclusive or from anywhere. */
  lemma {:induction false} XorsRemove(hashes: seq<Option<HashWord>>, j: nat)
    requires j < |hashes|
    ensures Xors(hashes) == Combine(Xors(hashes[..j] + hashes[j + 1..]), hashes[j])
    decreases |hashes|
  {
    var n := |hashes| - 1;
    RemoveEither(hashes, j);
    if j < n {
      XorsRemove(hashes[..n], j);
      var less := hashes[..n][..j] + hashes[..n][j + 1..];
      XorsAppend(less, hashes[n]);
      CombineSwap(Xors(less), hashes[j], hashes[n]);
    }
  }

  lemma RemoveEither<T>(s: seq<T>, j: nat)
    requires j < |s|
    ensures var n := |s| - 1;
            s[..j] + s[j + 1..] == if j == n then s[..n] else s[..n][..j] + s[..n][j + 1..] + [s[n]]
  {
  }

  lemma CombineSwap(a: Option<HashWord>, b: Option<HashWord>, c: Option<HashWord>)
    ensures Combine(Combine(a, b), c) == Combine(Combine(a, c), b)
  {
    if a.Some? && b.Some? && c.Some? {
      XorSwap(a.value, b.value, c.value);
    }
  }

  lemma NoHash(hashes: seq<Option<HashWord>>, i: nat)
    requires i < |hashes| && hashes[i] == None
    ensures Xors(hashes) == None
  {
    XorsRemove(hashes, i);
  }

  lemma {:induction false} AllHashed(hashes: seq<Option<HashWord>>)
    ensures Xors(hashes).Some? <==> forall i | 0 <= i < |hashes| :: hashes[i].Some?
  {
    if hashes != [] {
      AllHashed(hashes[..|hashes| - 1]);
      var n := |hashes| - 1;
      if i :| 0 <= i < |hashes| && hashes[i].None? {
        NoHash(hashes, i);
      }
    }
  }

  /** Hashes `a` of `xs` and `b` of `ys` that agree on equal members. */
  predicate HashesAgree(xs: seq<Value>, a: seq<Option<HashWord>>, ys: seq<Value>, b: seq<Option<HashWord>>) {
    && |a| == |xs| && |b| == |ys|
    && forall i, k | 0 <= i < |xs| && 0 <= k < |ys| && Equal(xs[i], ys[k]) :: a[i] == b[k]
  }

  /** Each member has an unshared partner of the same hash, so the exclusive ors are the same. */
  lemma {:induction false} PartnersHashEqual(xs: seq<Value>, a: seq<Option<HashWord>>, ys: seq<Value>, b: seq<Option<HashWord>>)
    requires SetEq(xs, ys) && Separated(xs, ys) && HashesAgree(xs, a, ys, b)
    ensures Xors(a) == Xors(b)
    decreases |xs|
  {
    if xs != [] {
      var n := |xs| - 1;
      var j := RemoveLastPair(xs, a, ys, b);
      PartnersHashEqual(xs[..n], a[..n], ys[..j] + ys[j + 1..], b[..j] + b[j + 1..]);
      XorsPair(a, b, j);
    }
  }

  lemma XorsPair(a: seq<Option<HashWord>>, b: seq<Option<HashWord>>, j: nat)
    requires a != [] && j < |b| && a[|a| - 1] == b[j] && Xors(a[..|a| - 1]) == Xors(b[..j] + b[j + 1..])
    ensures Xors(a) == Xors(b)
  {
    XorsRemove(b, j);
  }

  /** The last member and its partner may be taken out. */
  lemma RemoveLastPair(xs: seq<Value>, a: seq<Option<HashWord>>, ys: seq<Value>, b: seq<Option<HashWord>>) returns (j: nat)
    requires xs != [] && SetEq(xs, ys) && Separated(xs, ys) && HashesAgree(xs, a, ys, b)
    ensures var n := |xs| - 1;
            && j < |ys| == |b| && a[n] == b[j]
            && SetEq(xs[..n], ys[..j] + ys[j + 1..]) && Separated(xs[..n], ys[..j] + ys[j + 1..])
            && HashesAgree(xs[..n], a[..n], ys[..j] + ys[j + 1..], b[..j] + b[j + 1..])
  {
    assert Holds(xs[|xs| - 1], ys);
    j :| 0 <= j < |ys| && Equal(xs[|xs| - 1], ys[j]);
    RemovePartner(xs, ys, j);
    RemoveHash(xs, a, ys, b, j);
  }

  lemma RemoveHash(xs: seq<Value>, a: seq<Option<HashWord>>, ys: seq<Value>, b: seq<Option<HashWord>>, j: nat)
    requires HashesAgree(xs, a, ys, b) && xs != [] && j < |ys|
    ensures HashesAgree(xs[..|xs| - 1], a[..|xs| - 1], ys[..j] + ys[j + 1..], b[..j] + b[j + 1..])
  {
    var n := |xs| - 1;
    var rest, left := ys[..j] + ys[j + 1..], b[..j] + b[j + 1..];
    forall i, k | 0 <= i < n && 0 <= k < |rest| && Equal(xs[..n][i], rest[k])
      ensures a[..n][i] == left[k]
    {
      var m := if k < j then k else k + 1;
      assert rest[k] == ys[m] && left[k] == b[m] && xs[..n][i] == xs[i];
    }
  }

  /** A member without a hash on one side has a partner without a hash on the other. */
  lemma MissingHash(xs: seq<Value>, a: seq<Option<HashWord>>, ys: seq<Value>, b: seq<Option<HashWord>>, i: nat)
    requires SetEq(xs, ys) && HashesAgree(xs, a, ys, b) && i < |xs| && a[i] == None
    ensures Xors(a) == None && Xors(b) == None
  {
    assert Holds(xs[i], ys);
    var k :| 0 <= k < |ys| && Equal(xs[i], ys[k]);
    NoHash(a, i);
    NoHash(b, k);
  }

  // ------------------------------------------------------------------- the hash of a value

  /**
   The parts of hashing that are not fixed here: the hash of an address, of an object with a key of its
   own, of a key, of a tuple of keys and of a tuple of other hashes, and the mixing of `X | Y`.
   */
  datatype Hasher = Hasher(
    address: int -> HashWord,
    plain: int -> Option<HashWord>,
    key: HashWord -> HashWord,
    keys: seq<HashWord> -> HashWord,
    others: seq<HashWord> -> HashWord,
    mix: HashWord -> HashWord)

  /** Hashes of classes and functions come from their identity; no other component of `X | Y` has one. */
  function ComponentHash(v: Value, h: Hasher): Option<HashWord> {
    if Nominal(v) then Some(h.address(v.id)) else None
  }

  function ComponentHashes(xs: seq<Value>, h: Hasher): seq<Option<HashWord>> {
    seq(|xs|, i requires 0 <= i < |xs| => ComponentHash(xs[i], h))
  }

  predicate AllSome(hashes: seq<Option<HashWord>>) {
    forall i | 0 <= i < |hashes| :: hashes[i].Some?
  }

  function Values(hashes: seq<Option<HashWord>>): seq<HashWord>
    requires AllSome(hashes)
  {
    seq(|hashes|, i requires 0 <= i < |hashes| => hashes[i].value)
  }

  /** The hash of a value's dictionary key, when it has one: classes and functions do not. */
  function KeyHash(v: Value, h: Hasher): Option<HashWord>
    decreases v, 0
  {
    match v
    case Object(id) => h.plain(id)
    case Union(xs) => (match Xors(ComponentHashes(xs, h)) case None => None case Some(x) => Some(h.key(h.mix(x))))
    case Alias(origin, xs) =>
      var keys := seq(|xs|, i requires 0 <= i < |xs| => KeyHash(xs[i], h));
      var values := seq(|xs|, i requires 0 <= i < |xs| => ValueHash(xs[i], h));
      (match TupleHash(keys, values, h) case None => None case Some(t) => Some(h.key(Xor(h.address(origin), t))))
    case TypingUnion(origin, xs) =>
      var values := seq(|xs|, i requires 0 <= i < |xs| => ValueHash(xs[i], h));
      (match Xors(values) case None => None case Some(x) => Some(h.key(Xor(h.address(origin), x))))
    case _ => None
  }

  /** A tuple is hashed through its members' keys, or failing that through their hashes. */
  function TupleHash(keys: seq<Option<HashWord>>, values: seq<Option<HashWord>>, h: Hasher): Option<HashWord> {
    if AllSome(keys) then Some(h.key(h.keys(Values(keys))))
    else if AllSome(values) then Some(h.others(Values(values)))
    else None
  }

  /** `value_hash_u64`: the key's hash, or a class's address. */
  function ValueHash(v: Value, h: Hasher): Option<HashWord>
    decreases v, 1
  {
    if KeyHash(v, h).Some? then KeyHash(v, h) else if v.Class? then Some(h.address(v.id)) else None
  }

  function KeyHashes(xs: seq<Value>, h: Hasher): seq<Option<HashWord>> {
    seq(|xs|, i requires 0 <= i < |xs| => KeyHash(xs[i], h))
  }

  function ValueHashes(xs: seq<Value>, h: Hasher): seq<Option<HashWord>> {
    seq(|xs|, i requires 0 <= i < |xs| => ValueHash(xs[i], h))
  }

  /** `build_union` keeps an argument only if it equals none kept before, so its arguments are distinct. */
  lemma {:induction false} FirstSeenDistinct(s: seq<Value>)
    ensures Distinct(FirstSeen(s, Equal))
  {
    if s != [] {
      FirstSeenDistinct(s[..|s| - 1]);
    }
  }

  lemma {:induction false} NominalDistinct(xs: seq<Value>)
    requires AllNominal(xs) && FirstSeen(xs, SameTypeIdentity) == xs
    ensures Distinct(xs)
  {
    if xs != [] {
      var init, last := xs[..|xs| - 1], xs[|xs| - 1];
      assert xs == init + [last];
      FirstSeenAppend(init, last, SameTypeIdentity);
      var r := FirstSeen(init, SameTypeIdentity);
      assert xs == r || xs == r + [last];
      assert init == r by { assert xs == r + [last]; assert xs[..|init|] == (r + [last])[..|r|]; }
      NominalDistinct(init);
      NominalSeen(init, last);
    }
  }

  lemma ComponentsHashed(xs: seq<Value>, h: Hasher)
    ensures Xors(ComponentHashes(xs, h)).Some? <==> AllNominal(xs)
  {
    AllHashed(ComponentHashes(xs, h));
    var c := ComponentHashes(xs, h);
    assert forall i | 0 <= i < |xs| :: c[i].Some? <==> Nominal(xs[i]);
  }

  /** A constructed value that has a hash has distinct members in every union inside. */
  lemma {:induction false} HashedIsWellFormed(v: Value, h: Hasher)
    requires Constructed(v) && ValueHash(v, h).Some?
    ensures WellFormed(v)
    decreases v
  {
    match v
    case Union(xs) =>
      ComponentsHashed(xs, h);
      NominalDistinct(xs);
    case TypingUnion(_, xs) =>
      TypingUnionHash(v, h);
      AllHashed(ValueHashes(xs, h));
      KeyedIsHashed(xs, h);
      MembersWellFormed(v, h);
    case Alias(_, xs) =>
      AliasHashParts(v, h);
      KeyedIsHashed(xs, h);
      MembersWellFormed(v, h);
    case _ =>
  }

  /** A member with a key has a hash. */
  lemma KeyedIsHashed(xs: seq<Value>, h: Hasher)
    ensures AllSome(KeyHashes(xs, h)) ==> AllSome(ValueHashes(xs, h))
    ensures AllSome(ValueHashes(xs, h)) <==> forall i | 0 <= i < |xs| :: ValueHash(xs[i], h).Some?
  {
    var k, v := KeyHashes(xs, h), ValueHashes(xs, h);
    assert forall i | 0 <= i < |xs| :: k[i] == KeyHash(xs[i], h) && v[i] == ValueHash(xs[i], h);
  }

  lemma {:induction false} MembersWellFormed(v: Value, h: Hasher)
    requires (v.TypingUnion? || v.Alias?) && Constructed(v)
    requires forall i | 0 <= i < |v.args| :: ValueHash(v.args[i], h).Some?
    ensures forall i | 0 <= i < |v.args| :: WellFormed(v.args[i])
    decreases v, 0
  {
    forall i | 0 <= i < |v.args|
      ensures WellFormed(v.args[i])
    {
      HashedIsWellFormed(v.args[i], h);
    }
  }

  /**
   What the hash is made of: an alias mixes its origin with its arguments in order, `typing.Union` its origin
   with the exclusive or of its members, and `X | Y` is the mixed exclusive or of its components.
   */
  lemma HashParts(v: Value, h: Hasher)
    ensures v.Object? ==> KeyHash(v, h) == h.plain(v.id)
    ensures v.Class? || v.Function? || v.TypeVar? ==> KeyHash(v, h) == None
    ensures v.Union? && Xors(ComponentHashes(v.args, h)).Some? ==>
              KeyHash(v, h) == Some(h.key(h.mix(Xors(ComponentHashes(v.args, h)).value)))
    ensures v.TypingUnion? && Xors(ValueHashes(v.args, h)).Some? ==>
              KeyHash(v, h) == Some(h.key(Xor(h.address(v.origin), Xors(ValueHashes(v.args, h)).value)))
    ensures v.Alias? && AllSome(KeyHashes(v.args, h)) ==>
              KeyHash(v, h) == Some(h.key(Xor(h.address(v.origin), h.key(h.keys(Values(KeyHashes(v.args, h)))))))
    ensures v.Alias? && !AllSome(KeyHashes(v.args, h)) && AllSome(ValueHashes(v.args, h)) ==>
              KeyHash(v, h) == Some(h.key(Xor(h.address(v.origin), h.others(Values(ValueHashes(v.args, h))))))
  {
    if v.Alias? {
      AliasHashParts(v, h);
    } else if v.TypingUnion? {
      TypingUnionHash(v, h);
    }
  }

  // ------------------------------------------------------------------- equal values hash equal

  lemma ComponentHashesAgree(xs: seq<Value>, ys: seq<Value>, h: Hasher)
    ensures HashesAgree(xs, ComponentHashes(xs, h), ys, ComponentHashes(ys, h))
  {
  }

  /** `X | Y`: equal argument tuples that were built have the same exclusive or, or both have none. */
  lemma EqualComponentsHashEqual(a: Value, b: Value, h: Hasher)
    requires a.Union? && Built(a) && Equal(a, b)
    ensures Xors(ComponentHashes(a.args, h)) == Xors(ComponentHashes(b.args, h))
  {
    var xs, ys := a.args, b.args;
    ComponentHashesAgree(xs, ys, h);
    if AllNominal(xs) {
      NominalDistinct(xs);
      DistinctSeparated(a, ys);
      PartnersHashEqual(xs, ComponentHashes(xs, h), ys, ComponentHashes(ys, h));
    } else {
      var i :| 0 <= i < |xs| && !Nominal(xs[i]);
      MissingHash(xs, ComponentHashes(xs, h), ys, ComponentHashes(ys, h), i);
    }
  }

  lemma UnionArgsHashEqual(a: Value, b: Value, h: Hasher)
    requires a.TypingUnion? && Constructed(a) && Equal(a, b)
    requires HashesAgree(a.args, ValueHashes(a.args, h), b.args, ValueHashes(b.args, h))
    ensures Xors(ValueHashes(a.args, h)) == Xors(ValueHashes(b.args, h))
  {
    var xs, ys := a.args, b.args;
    if i :| 0 <= i < |xs| && ValueHash(xs[i], h) == None {
      MissingHash(xs, ValueHashes(xs, h), ys, ValueHashes(ys, h), i);
    } else {
      MembersWellFormed(a, h);
      DistinctSeparated(a, ys);
      PartnersHashEqual(xs, ValueHashes(xs, h), ys, ValueHashes(ys, h));
    }
  }

  /**
   Equality of type expressions implies equality of their hashes, for every constructed value at any depth:
   both have the same hash, or neither has one.
   */
  lemma {:induction false} EqualHashEqual(a: Value, b: Value, h: Hasher)
    requires Constructed(a) && Equal(a, b)
    ensures KeyHash(a, h) == KeyHash(b, h) && ValueHash(a, h) == ValueHash(b, h)
    decreases a
  {
    match a
    case Union(xs) => EqualComponentsHashEqual(a, b, h);
    case Alias(_, xs) =>
      forall i | 0 <= i < |xs|
        ensures KeyHash(xs[i], h) == KeyHash(b.args[i], h) && ValueHash(xs[i], h) == ValueHash(b.args[i], h)
      {
        EqualHashEqual(xs[i], b.args[i], h);
      }
      AliasHash(a, b, h);
    case TypingUnion(_, xs) =>
      forall i, k | 0 <= i < |xs| && 0 <= k < |b.args| && Equal(xs[i], b.args[k])
        ensures ValueHash(xs[i], h) == ValueHash(b.args[k], h)
      {
        EqualHashEqual(xs[i], b.args[k], h);
      }
      UnionArgsHashEqual(a, b, h);
      TypingUnionHash(a, h);
      TypingUnionHash(b, h);
    case _ =>
  }

  /** `typing.Union`: equal argument tuples have the same exclusive or of their members' hashes, or none. */
  lemma EqualUnionsHashEqual(a: Value, b: Value, h: Hasher)
    requires a.TypingUnion? && Constructed(a) && Equal(a, b)
    ensures Xors(ValueHashes(a.args, h)) == Xors(ValueHashes(b.args, h))
  {
    forall i, k | 0 <= i < |a.args| && 0 <= k < |b.args| && Equal(a.args[i], b.args[k])
      ensures ValueHash(a.args[i], h) == ValueHash(b.args[k], h)
    {
      EqualHashEqual(a.args[i], b.args[k], h);
    }
    UnionArgsHashEqual(a, b, h);
  }

  lemma AliasHash(a: Value, b: Value, h: Hasher)
    requires a.Alias? && b.Alias? && a.origin == b.origin && |a.args| == |b.args|
    requires forall i | 0 <= i < |a.args| ::
               KeyHash(a.args[i], h) == KeyHash(b.args[i], h) && ValueHash(a.args[i], h) == ValueHash(b.args[i], h)
    ensures KeyHash(a, h) == KeyHash(b, h)
  {
    AliasHashParts(a, h);
    AliasHashParts(b, h);
    assert KeyHashes(a.args, h) == KeyHashes(b.args, h) && ValueHashes(a.args, h) == ValueHashes(b.args, h);
  }

  lemma AliasHashParts(a: Value, h: Hasher)
    requires a.Alias?
    ensures KeyHash(a, h) == AliasHashOf(a.origin, TupleHash(KeyHashes(a.args, h), ValueHashes(a.args, h), h), h)
  {
    var xs := a.args;
    var keys := seq(|xs|, i requires 0 <= i < |xs| => KeyHash(xs[i], h));
    var values := seq(|xs|, i requires 0 <= i < |xs| => ValueHash(xs[i], h));
    assert keys == KeyHashes(xs, h) && values == ValueHashes(xs, h);
  }

  function AliasHashOf(origin: int, t: Option<HashWord>, h: Hasher): Option<HashWord> {
    match t
    case None => None
    case Some(x) => Some(h.key(Xor(h.address(origin), x)))
  }

  lemma TypingUnionHash(a: Value, h: Hasher)
    requires a.TypingUnion?
    ensures KeyHash(a, h) == AliasHashOf(a.origin, Xors(ValueHashes(a.args, h)), h)
  {
    var xs := a.args;
    var values := seq(|xs|, i requires 0 <= i < |xs| => ValueHash(xs[i], h));
    assert values == ValueHashes(xs, h);
  }

  // ------------------------------------------------------------------- which values have a hash

  /** Classes, objects that have a key, `X | Y` of classes and functions, and aliases of such values. */
  predicate Hashable(v: Value, h: Hasher)
    decreases v
  {
    match v
    case Class(_) => true
    case Function(_) => false
    case TypeVar(_) => false
    case Object(id) => h.plain(id).Some?
    case Union(xs) => forall i | 0 <= i < |xs| :: xs[i].Class? || xs[i].Function?
    case Alias(_, xs) => forall i | 0 <= i < |xs| :: Hashable(xs[i], h)
    case TypingUnion(_, xs) => forall i | 0 <= i < |xs| :: Hashable(xs[i], h)
  }

  lemma {:induction false} HashableExactly(v: Value, h: Hasher)
    ensures ValueHash(v, h).Some? <==> Hashable(v, h)
    ensures v.Class? ==> ValueHash(v, h) == Some(h.address(v.id))
    decreases v
  {
    match v
    case Union(xs) =>
      ComponentsHashed(xs, h);
    case Alias(_, xs) =>
      AliasHashParts(v, h);
      KeyedIsHashed(xs, h);
      MembersHashable(v, h);
    case TypingUnion(_, xs) =>
      TypingUnionHash(v, h);
      AllHashed(ValueHashes(xs, h));
      KeyedIsHashed(xs, h);
      MembersHashable(v, h);
    case _ =>
  }

  lemma {:induction false} MembersHashable(v: Value, h: Hasher)
    requires v.Alias? || v.TypingUnion?
    ensures forall i | 0 <= i < |v.args| :: ValueHash(v.args[i], h).Some? <==> Hashable(v.args[i], h)
    decreases v, 0
  {
    forall i | 0 <= i < |v.args|
      ensures ValueHash(v.args[i], h).Some? <==> Hashable(v.args[i], h)
    {
      HashableExactly(v.args[i], h);
    }
  }

  // ------------------------------------------------------------------------- the hashing loops

  function XorAll(hashes: seq<HashWord>): HashWord {
    if hashes == [] then {} else Xor(XorAll(hashes[..|hashes| - 1]), hashes[|hashes| - 1])
  }

  lemma XorAllAppend(hashes: seq<HashWord>, h: HashWord)
    ensures XorAll(hashes + [h]) == Xor(XorAll(hashes), h)
  {
    assert (hashes + [h])[..|hashes + [h]| - 1] == hashes;
  }

  lemma {:induction false} XorInsert(lt: (HashWord, HashWord) -> bool, s: seq<HashWord>, x: HashWord)
    ensures XorAll(Sorting.Insert(lt, s, x)) == Xor(XorAll(s), x)
  {
    if s != [] && lt(x, s[|s| - 1]) {
      XorInsert(lt, s[..|s| - 1], x);
      XorAllAppend(Sorting.Insert(lt, s[..|s| - 1], x), s[|s| - 1]);
      XorSwap(XorAll(s[..|s| - 1]), x, s[|s| - 1]);
    } else {
      XorAllAppend(s, x);
    }
  }

  /** Sorting the hashes first changes nothing. */
  lemma {:induction false} XorSorted(lt: (HashWord, HashWord) -> bool, s: seq<HashWord>)
    ensures XorAll(Sorting.Sort(lt, s)) == XorAll(s)
  {
    if s != [] {
      XorSorted(lt, s[..|s| - 1]);
      XorInsert(lt, Sorting.Sort(lt, s[..|s| - 1]), s[|s| - 1]);
    }
  }

  lemma {:induction false} XorsOfValues(hashes: seq<Option<HashWord>>)
    requires AllSome(hashes)
    ensures Xors(hashes) == Some(XorAll(Values(hashes)))
  {
    if hashes != [] {
      var init, last := hashes[..|hashes| - 1], hashes[|hashes| - 1];
      XorsOfValues(init);
      assert Values(hashes) == Values(init) + [last.value];
      XorAllAppend(Values(init), last.value);
    }
  }

  method CollectHashes(items: seq<Value>, h: Hasher) returns (r: Option<seq<HashWord>>)
    ensures r == if AllSome(ComponentHashes(items, h)) then Some(Values(ComponentHashes(items, h))) else None
  {
    var hashes: seq<HashWord> := [];
    for n := 0 to |items|
      invariant |hashes| == n && forall i | 0 <= i < n :: ComponentHash(items[i], h) == Some(hashes[i])
    {
      var hash := ComponentHash(items[n], h);
      if hash == None {
        assert ComponentHashes(items, h)[n] == None;
        return None;
      }
      hashes := hashes + [hash.value];
    }
    assert hashes == Values(ComponentHashes(items, h));
    return Some(hashes);
  }

  method Accumulate(hashes: seq<HashWord>) returns (xor: HashWord)
    ensures xor == XorAll(hashes)
  {
    xor := {};
    for n := 0 to |hashes|
      invariant xor == XorAll(hashes[..n])
    {
      assert hashes[..n + 1][..n] == hashes[..n];
      xor := Xor(xor, hashes[n]);
    }
    assert hashes[..|hashes|] == hashes;
  }

  /** `hash(X | Y)`: the hashes are sorted, accumulated, and mixed. */
  method HashArgs(items: seq<Value>, h: Hasher, lt: (HashWord, HashWord) -> bool) returns (r: Option<HashWord>)
    ensures r == match Xors(ComponentHashes(items, h)) case None => None case Some(x) => Some(h.mix(x))
  {
    AllHashed(ComponentHashes(items, h));
    var hashes := CollectHashes(items, h);
    if hashes == None {
      return None;
    }
    XorsOfValues(ComponentHashes(items, h));
    XorSorted(lt, hashes.value);
    var xor := Accumulate(Sorting.Sort(lt, hashes.value));
    return Some(h.mix(xor));
  }

  /** `union_args_set_hash`: accumulate until a member has no hash. */
  method UnionArgsSetHash(items: seq<Value>, h: Hasher) returns (acc: Option<HashWord>)
    ensures acc == Xors(ValueHashes(items, h))
  {
    acc := Some({});
    ghost var hashes := ValueHashes(items, h);
    for n := 0 to |items|
      invariant acc.Some? && acc == Xors(hashes[..n])
    {
      assert hashes[..n + 1] == hashes[..n] + [hashes[n]];
      XorsAppend(hashes[..n], hashes[n]);
      var hash := ValueHash(items[n], h);
      if hash == None {
        NoHash(hashes, n);
        return None;
      }
      acc := Some(Xor(acc.value, hash.value));
    }
    assert hashes[..|items|] == hashes;
  }

  /** Two components stay two unless identity recognises them as one. */
  lemma UnionOfPair(a: Value, b: Value)
    requires !a.Union? && !b.Union?
    ensures MakeUnion(a, b) == if SameTypeIdentity(a, b) then a else Union([a, b])
  {
    FirstSeenAppend([], a, SameTypeIdentity);
    FirstSeenAppend([a], b, SameTypeIdentity);
    assert [] + [a] == [a] && [a] + [b] == [a, b];
    assert Seen([a], b, SameTypeIdentity) <==> SameTypeIdentity(a, b) by { assert [a][0] == a; }
  }

  lemma PairsEqual(t: Value, c: Value)
    requires !Equal(c, t)
    ensures Equal(Union([t, t]), Union([t, c])) && !Equal(Union([t, c]), Union([t, t]))
  {
    EqualReflexive(t);
    var xs, ys := [t, t], [t, c];
    assert Equal(t, ys[0]);
    assert Holds(t, ys);
    assert AllHeld(xs, ys);
    assert ys[1] == c && !Holds(ys[1], xs);
  }

  /**
   Components without an identity are never thinned, so a union of two equal aliases keeps both and then
   equals a union that does not equal it.
   */
  lemma RepeatExample()
    ensures var t := Alias(0, [Class(1)]);
            var twice, other := MakeUnion(t, t), MakeUnion(t, Class(2));
            twice == Union([t, t]) && Equal(twice, other) && !Equal(other, twice)
  {
    var t := Alias(0, [Class(1)]);
    UnionOfPair(t, t);
    UnionOfPair(t, Class(2));
    PairsEqual(t, Class(2));
  }

  // ------------------------------------------------------------------- an alias's parameters

  /** The type variables of a list of arguments, in order, through nested aliases. */
  function TypeVars(args: seq<Value>): seq<Value>
    decreases args
  {
    if args == [] then []
    else
      var last := args[|args| - 1];
      TypeVars(args[..|args| - 1])
      + (match last
         case TypeVar(_) => [last]
         case Alias(_, nested) => TypeVars(nested)
         case TypingUnion(_, nested) => TypeVars(nested)
         case _ => [])
  }

  function Parameters(args: seq<Value>): seq<Value> {
    FirstSeen(TypeVars(args), Identical)
  }

  /** `v` is among the arguments, or inside an alias among them; a `X | Y` is not looked into. */
  predicate Occurs(args: seq<Value>, v: Value)
    decreases args
  {
    exists i | 0 <= i < |args| :: args[i] == v || ((args[i].Alias? || args[i].TypingUnion?) && Occurs(args[i].args, v))
  }

  lemma {:induction false} TypeVarsJoin(s: seq<Value>, t: seq<Value>)
    ensures TypeVars(s + t) == TypeVars(s) + TypeVars(t)
    decreases |t|
  {
    if t == [] {
      assert s + t == s;
    } else {
      var init, last := t[..|t| - 1], t[|t| - 1];
      TypeVarsJoin(s, init);
      TypeVarsJoinLast(s, init, last);
      JoinLast(s, t);
      assert s + t == s + (init + [last]);
    }
  }

  lemma TypeVarsJoinLast(s: seq<Value>, init: seq<Value>, last: Value)
    requires TypeVars(s + init) == TypeVars(s) + TypeVars(init)
    ensures TypeVars(s + (init + [last])) == TypeVars(s) + TypeVars(init + [last])
  {
    TypeVarsAppend(s + init, last);
    TypeVarsAppend(init, last);
    assert s + (init + [last]) == s + init + [last];
    Regroup(TypeVars(s), TypeVars(init), TypeVars([last]));
  }

  lemma Regroup(a: seq<Value>, b: seq<Value>, c: seq<Value>)
    ensures a + b + c == a + (b + c)
  {
  }

  lemma TypeVarsAppend(s: seq<Value>, v: Value)
    ensures TypeVars(s + [v]) == TypeVars(s) + TypeVars([v])
  {
    var one := [v];
    assert (s + one)[..|s + one| - 1] == s && one[..|one| - 1] == [];
  }

  lemma {:induction false} TypeVarsOccur(args: seq<Value>, v: Value)
    requires v.TypeVar?
    ensures v in TypeVars(args) <==> Occurs(args, v)
    decreases args
  {
    if args != [] {
      var init, last := args[..|args| - 1], args[|args| - 1];
      TypeVarsOccur(init, v);
      if last.Alias? || last.TypingUnion? {
        TypeVarsOccur(last.args, v);
      }
      OccursSplit(args, v);
    }
  }

  lemma OccursSplit(args: seq<Value>, v: Value)
    requires args != []
    ensures var last := args[|args| - 1];
            Occurs(args, v)
            <==> Occurs(args[..|args| - 1], v) || last == v || ((last.Alias? || last.TypingUnion?) && Occurs(last.args, v))
  {
    var init := args[..|args| - 1];
    assert forall i | 0 <= i < |init| :: init[i] == args[i];
  }

  /** The parameters are exactly the type variables that occur, each once. */
  lemma ParametersExactly(args: seq<Value>, v: Value)
    ensures v in Parameters(args) <==> v.TypeVar? && Occurs(args, v)
    ensures forall i, j | 0 <= i < j < |Parameters(args)| :: Parameters(args)[i] != Parameters(args)[j]
  {
    TypeVarsOnly(args);
    KeptOnce(TypeVars(args), v);
    if v.TypeVar? {
      TypeVarsOccur(args, v);
    }
  }

  lemma {:induction false} KeptOnce(s: seq<Value>, v: Value)
    ensures v in FirstSeen(s, Identical) <==> v in s
    ensures var r := FirstSeen(s, Identical); forall i, j | 0 <= i < j < |r| :: r[i] != r[j]
  {
    if s != [] {
      var init, last := s[..|s| - 1], s[|s| - 1];
      KeptOnce(init, v);
      KeptOnce(init, last);
      assert s == init + [last];
      var r := FirstSeen(init, Identical);
      assert Seen(r, last, Identical) <==> last in r;
    }
  }

  /** In the order first met: those of the arguments before come first, and an alias counts as its arguments. */
  lemma ParametersInOrder(s: seq<Value>, t: seq<Value>, origin: int)
    ensures Parameters(s) <= Parameters(s + t)
    ensures Parameters([Alias(origin, s)]) == Parameters(s) == Parameters([TypingUnion(origin, s)])
  {
    TypeVarsJoin(s, t);
    KeptPrefix(TypeVars(s), TypeVars(t));
    TypeVarsOfOne(Alias(origin, s));
    TypeVarsOfOne(TypingUnion(origin, s));
  }

  lemma TypeVarsOfOne(v: Value)
    requires v.Alias? || v.TypingUnion?
    ensures TypeVars([v]) == TypeVars(v.args)
  {
    var one := [v];
    assert one[..|one| - 1] == [] && one[|one| - 1] == v;
    assert TypeVars(one) == TypeVars(one[..|one| - 1]) + TypeVars(v.args);
  }

  lemma {:induction false} KeptPrefix(s: seq<Value>, t: seq<Value>)
    ensures FirstSeen(s, Identical) <= FirstSeen(s + t, Identical)
    decreases |t|
  {
    if t == [] {
      assert s + t == s;
    } else {
      JoinLast(s, t);
      FirstSeenAppend(s + t[..|t| - 1], t[|t| - 1], Identical);
      KeptPrefix(s, t[..|t| - 1]);
    }
  }

  predicate Identical(a: Value, b: Value) {
    a == b
  }

  predicate AllTypeVars(s: seq<Value>) {
    forall i | 0 <= i < |s| :: s[i].TypeVar?
  }

  lemma {:induction false} TypeVarsOnly(args: seq<Value>)
    ensures AllTypeVars(TypeVars(args))
    decreases args
  {
    if args != [] {
      TypeVarsOnly(args[..|args| - 1]);
      if args[|args| - 1].Alias? || args[|args| - 1].TypingUnion? {
        TypeVarsOnly(args[|args| - 1].args);
      }
    }
  }

  lemma {:induction false} ThinnedTypeVars(s: seq<Value>)
    requires AllTypeVars(s)
    ensures AllTypeVars(FirstSeen(s, Identical))
  {
    if s != [] {
      ThinnedTypeVars(s[..|s| - 1]);
    }
  }

  lemma ThinVars(s: seq<Value>, t: seq<Value>)
    ensures FirstSeen(s + FirstSeen(t, Identical), Identical) == FirstSeen(s + t, Identical)
  {
    FirstSeenRight(s, t, Identical);
  }

  /** Type variables are equal only when they are the same. */
  lemma SeenVar(s: seq<Value>, v: Value)
    requires v.TypeVar?
    ensures Seen(s, v, Equal) <==> Seen(s, v, Identical)
  {
    assert forall i | 0 <= i < |s| :: Equal(s[i], v) <==> s[i] == v;
  }

  /**
   The parameters of an alias are its type variables at any depth, each once, in the order first met,
   although each nested alias is thinned on its own first.
   */
  method CollectParameters(args: seq<Value>) returns (out: seq<Value>)
    ensures out == Parameters(args)
    decreases args
  {
    out := [];
    for n := 0 to |args|
      invariant out == FirstSeen(TypeVars(args[..n]), Identical)
    {
      ghost var before := TypeVars(args[..n]);
      assert args[..n + 1][..n] == args[..n] && args[..n + 1][n] == args[n];
      match args[n]
      case Alias(_, nestedArgs) =>
        var nested := CollectParameters(nestedArgs);
        TypeVarsOnly(nestedArgs);
        out := PushEach(before, out, nested, TypeVars(nestedArgs));
      case TypingUnion(_, nestedArgs) =>
        var nested := CollectParameters(nestedArgs);
        TypeVarsOnly(nestedArgs);
        out := PushEach(before, out, nested, TypeVars(nestedArgs));
      case TypeVar(_) =>
        SeenVar(out, args[n]);
        FirstSeenAppend(before, args[n], Identical);
        out := PushUnlessSeen(out, args[n], Equal);
      case _ =>
        assert before + [] == before;
    }
    assert args[..|args|] == args;
  }

  lemma PushStep(before: seq<Value>, nested: seq<Value>, m: nat)
    requires m < |nested| && nested[m].TypeVar?
    ensures var r := FirstSeen(before + nested[..m], Identical);
            FirstSeen(before + nested[..m + 1], Identical) == if Seen(r, nested[m], Equal) then r else r + [nested[m]]
  {
    SeenVar(FirstSeen(before + nested[..m], Identical), nested[m]);
    FirstSeenAppend(before + nested[..m], nested[m], Identical);
    assert nested[..m + 1][..m] == nested[..m];
    JoinLast(before, nested[..m + 1]);
  }

  method PushEach(ghost before: seq<Value>, out: seq<Value>, nested: seq<Value>, ghost vars: seq<Value>) returns (r: seq<Value>)
    requires out == FirstSeen(before, Identical) && nested == FirstSeen(vars, Identical) && AllTypeVars(vars)
    ensures r == FirstSeen(before + vars, Identical)
  {
    ThinnedTypeVars(vars);
    r := out;
    assert before + nested[..0] == before;
    for m := 0 to |nested|
      invariant r == FirstSeen(before + nested[..m], Identical)
    {
      PushStep(before, nested, m);
      r := PushUnlessSeen(r, nested[m], Equal);
    }
    assert nested[..|nested|] == nested;
    ThinVars(before, vars);
  }
}
