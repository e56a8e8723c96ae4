/**
 Native `classmethod` descriptors: binding with owner validation, and the plan a bytecode cache keeps in
 its place.
 */
module ClassMethods {
  import opened Basics

  /** A class object, known by its address. Its bases are held strongly. */
  datatype Class = Class(name: string, qualname: string, base: Option<int>, extraBases: seq<int>, isObject: bool)

  /** The classes that are alive. */
  type Heap = map<int, Class>

  datatype Value =
    | UserFunction(id: int)
    | BuiltinFunction(id: int, shared: bool, precompiled: bool, wrapsPython: bool)
    | Other(id: int)
    | ClassBoundMethod(wrapped: Value, target: int)
    | ClassBoundAny(wrapped: Value, target: int)
    | NativeClassBuiltin(wrapped: Value, target: int, name: string, qualname: string)

  datatype Style = Python | NativeBuiltin

  /** `owner` is weak: the class may be gone. */
  datatype Metadata = Metadata(owner: int, ownerName: string, name: string, qualname: string)

  datatype Descriptor = Descriptor(wrapped: Value, style: Style, metadata: Option<Metadata>)

  /** `target` is weak. */
  datatype Plan = Plan(wrapped: Value, target: int, name: string, qualname: string)

  datatype Bound = BoundTo(value: Value) | RequiresSubtype(name: string, ownerName: string, received: string)

  /** Native descriptors carry their provider's metadata. */
  predicate ValidDescriptor(d: Descriptor) {
    d.style == NativeBuiltin ==> d.metadata.Some?
  }

  // -------------------------------------------------------------------------- the class graph

  function Bases(c: Class): seq<int> {
    (if c.base.Some? then [c.base.value] else []) + c.extraBases
  }

  /** Bases are alive and the graph has no cycle: `rank` decreases along every edge. */
  ghost predicate Acyclic(h: Heap, rank: int -> nat) {
    forall c, b | c in h && b in Bases(h[c]) :: b in h && rank(b) < rank(c)
  }

  lemma BaseAlive(h: Heap, rank: int -> nat, c: int, b: int)
    requires Acyclic(h, rank) && c in h && b in Bases(h[c])
    ensures b in h && rank(b) < rank(c)
  {
  }

  lemma BaseEdges(h: Heap, c: int)
    requires c in h
    ensures h[c].base.Some? ==> h[c].base.value in Bases(h[c])
    ensures forall i | 0 <= i < |h[c].extraBases| :: h[c].extraBases[i] in Bases(h[c])
  {
    var first := if h[c].base.Some? then [h[c].base.value] else [];
    if h[c].base.Some? {
      assert Bases(h[c])[0] == h[c].base.value;
    }
    assert forall i | 0 <= i < |h[c].extraBases| :: Bases(h[c])[|first| + i] == h[c].extraBases[i];
  }

  /** The recursive walk through `base` and `extra_bases`. */
  ghost predicate IsSubclassOf(h: Heap, rank: int -> nat, c: int, expected: int)
    requires Acyclic(h, rank) && c in h && expected in h
    decreases rank(c)
  {
    BaseEdges(h, c);
    || c == expected
    || h[expected].isObject
    || (h[c].base.Some? && IsSubclassOf(h, rank, h[c].base.value, expected))
    || exists i | 0 <= i < |h[c].extraBases| :: IsSubclassOf(h, rank, h[c].extraBases[i], expected)
  }

  /** `path` leads from class to base, one edge at a time. */
  ghost predicate IsPath(h: Heap, path: seq<int>) {
    && path != []
    && (forall i | 0 <= i < |path| :: path[i] in h)
    && (forall i | 0 <= i < |path| - 1 :: path[i + 1] in Bases(h[path[i]]))
  }

  ghost predicate Reaches(h: Heap, c: int, expected: int) {
    exists path :: IsPath(h, path) && path[0] == c && path[|path| - 1] == expected
  }

  /** The walk is reachability, or the expected class is `object`. */
  lemma SubclassExactly(h: Heap, rank: int -> nat, c: int, expected: int)
    requires Acyclic(h, rank) && c in h && expected in h
    ensures IsSubclassOf(h, rank, c, expected) <==> h[expected].isObject || Reaches(h, c, expected)
  {
    if !h[expected].isObject {
      if IsSubclassOf(h, rank, c, expected) {
        WalkReaches(h, rank, c, expected);
      }
      if Reaches(h, c, expected) {
        var path :| IsPath(h, path) && path[0] == c && path[|path| - 1] == expected;
        PathWalked(h, rank, path);
      }
    }
  }

  lemma ExtendPath(h: Heap, c: int, b: int, expected: int)
    requires c in h && b in Bases(h[c]) && Reaches(h, b, expected)
    ensures Reaches(h, c, expected)
  {
    var path :| IsPath(h, path) && path[0] == b && path[|path| - 1] == expected;
    var longer := [c] + path;
    assert IsPath(h, longer) && longer[0] == c && longer[|longer| - 1] == expected;
  }

  lemma {:induction false} WalkReaches(h: Heap, rank: int -> nat, c: int, expected: int)
    requires Acyclic(h, rank) && c in h && expected in h && !h[expected].isObject
    requires IsSubclassOf(h, rank, c, expected)
    ensures Reaches(h, c, expected)
    decreases rank(c)
  {
    BaseEdges(h, c);
    if c == expected {
      assert IsPath(h, [c]);
    } else if h[c].base.Some? && IsSubclassOf(h, rank, h[c].base.value, expected) {
      WalkReaches(h, rank, h[c].base.value, expected);
      ExtendPath(h, c, h[c].base.value, expected);
    } else {
      var i :| 0 <= i < |h[c].extraBases| && IsSubclassOf(h, rank, h[c].extraBases[i], expected);
      WalkReaches(h, rank, h[c].extraBases[i], expected);
      ExtendPath(h, c, h[c].extraBases[i], expected);
    }
  }

  lemma {:induction false} PathWalked(h: Heap, rank: int -> nat, path: seq<int>)
    requires Acyclic(h, rank) && IsPath(h, path)
    ensures IsSubclassOf(h, rank, path[0], path[|path| - 1])
    decreases |path|
  {
    if |path| > 1 {
      var c, b := path[0], path[1];
      PathWalked(h, rank, path[1..]);
      BaseEdges(h, c);
      var k :| 0 <= k < |Bases(h[c])| && Bases(h[c])[k] == b;
      if !(h[c].base.Some? && k == 0) {
        var i := if h[c].base.Some? then k - 1 else k;
        assert h[c].extraBases[i] == b;
      }
    }
  }

  /** Every class is below itself, its first base and its other bases, and below whatever those are below. */
  lemma SubclassLaws(h: Heap, rank: int -> nat, c: int, b: int, e: int)
    requires Acyclic(h, rank) && c in h && b in h && e in h
    ensures IsSubclassOf(h, rank, c, c)
    ensures h[c].base == Some(b) || b in h[c].extraBases ==> IsSubclassOf(h, rank, c, b)
    ensures IsSubclassOf(h, rank, c, b) && !h[b].isObject && IsSubclassOf(h, rank, b, e) ==> IsSubclassOf(h, rank, c, e)
  {
    BaseEdges(h, c);
    if h[c].base == Some(b) || b in h[c].extraBases {
      assert IsSubclassOf(h, rank, b, b);
    }
    if IsSubclassOf(h, rank, c, b) && !h[b].isObject && IsSubclassOf(h, rank, b, e) {
      SubclassTransitive(h, rank, c, b, e);
    }
  }

  lemma {:induction false} SubclassTransitive(h: Heap, rank: int -> nat, c: int, b: int, e: int)
    requires Acyclic(h, rank) && c in h && b in h && e in h && !h[b].isObject
    requires IsSubclassOf(h, rank, c, b) && IsSubclassOf(h, rank, b, e)
    ensures IsSubclassOf(h, rank, c, e)
    decreases rank(c)
  {
    BaseEdges(h, c);
    if c != b && !h[e].isObject {
      if h[c].base.Some? && IsSubclassOf(h, rank, h[c].base.value, b) {
        SubclassTransitive(h, rank, h[c].base.value, b, e);
      } else {
        var i :| 0 <= i < |h[c].extraBases| && IsSubclassOf(h, rank, h[c].extraBases[i], b);
        SubclassTransitive(h, rank, h[c].extraBases[i], b, e);
      }
    }
  }

  /** And below nothing else but `object`: any set with the class and all bases of its members has them all. */
  lemma {:induction false} SubclassLeast(h: Heap, rank: int -> nat, c: int, e: int, ups: set<int>)
    requires Acyclic(h, rank) && c in h && e in h && c in ups
    requires forall d | d in ups && d in h && h[d].base.Some? :: h[d].base.value in ups
    requires forall d, i | d in ups && d in h && 0 <= i < |h[d].extraBases| :: h[d].extraBases[i] in ups
    requires IsSubclassOf(h, rank, c, e) && !h[e].isObject
    ensures e in ups
    decreases rank(c)
  {
    BaseEdges(h, c);
    if c != e {
      if h[c].base.Some? && IsSubclassOf(h, rank, h[c].base.value, e) {
        SubclassLeast(h, rank, h[c].base.value, e, ups);
      } else {
        var i :| 0 <= i < |h[c].extraBases| && IsSubclassOf(h, rank, h[c].extraBases[i], e);
        SubclassLeast(h, rank, h[c].extraBases[i], e, ups);
      }
    }
  }

  // ---------------------------------------------------------------------------- binding

  ghost predicate OwnerValid(h: Heap, rank: int -> nat, d: Descriptor, c: int)
    requires Acyclic(h, rank) && ValidDescriptor(d) && c in h
  {
    d.style != NativeBuiltin || (d.metadata.value.owner in h && IsSubclassOf(h, rank, c, d.metadata.value.owner))
  }

  /** The name the bound builtin shows: the owner's own, or one built from the class it is bound to. */
  function BoundQualname(h: Heap, m: Metadata, c: int): string
    requires c in h
  {
    if c == m.owner then m.qualname else h[c].qualname + "." + m.name
  }

  ghost function Bind(h: Heap, rank: int -> nat, d: Descriptor, c: int): Bound
    requires Acyclic(h, rank) && ValidDescriptor(d) && c in h
  {
    if !OwnerValid(h, rank, d, c) then
      RequiresSubtype(d.metadata.value.name, d.metadata.value.ownerName, h[c].name)
    else if d.wrapped.UserFunction? then BoundTo(ClassBoundMethod(d.wrapped, c))
    else if d.wrapped.BuiltinFunction? && d.style == NativeBuiltin then
      BoundTo(NativeClassBuiltin(d.wrapped, c, d.metadata.value.name, BoundQualname(h, d.metadata.value, c)))
    else BoundTo(ClassBoundAny(d.wrapped, c))
  }

  /** What may enter a bytecode cache: a registry builtin that cannot point back to it. */
  predicate Admissible(d: Descriptor) {
    && d.style == NativeBuiltin
    && d.wrapped.BuiltinFunction? && d.wrapped.shared && !d.wrapped.precompiled && !d.wrapped.wrapsPython
  }

  ghost function CachePlan(h: Heap, rank: int -> nat, d: Descriptor, c: int): Option<Plan>
    requires Acyclic(h, rank) && ValidDescriptor(d) && c in h
  {
    if !Admissible(d) || !OwnerValid(h, rank, d, c) then None
    else Some(Plan(d.wrapped, c, d.metadata.value.name, BoundQualname(h, d.metadata.value, c)))
  }

  predicate TargetMatches(h: Heap, p: Plan, c: int) {
    p.target in h && p.target == c
  }

  function BindCached(h: Heap, p: Plan, c: int): Option<Value> {
    if TargetMatches(h, p, c) then Some(NativeClassBuiltin(p.wrapped, c, p.name, p.qualname)) else None
  }

  /** The function to call and the class to pass first. */
  function CallCached(h: Heap, p: Plan, c: int): Option<(Value, int)> {
    if TargetMatches(h, p, c) then Some((p.wrapped, c)) else None
  }

  /** What calling a bound value calls, and with which first argument. */
  function CallOf(v: Value): Option<(Value, int)> {
    match v
    case NativeClassBuiltin(wrapped, target, _, _) => Some((wrapped, target))
    case ClassBoundAny(wrapped, target) => Some((wrapped, target))
    case ClassBoundMethod(wrapped, target) => Some((wrapped, target))
    case _ => None
  }

  // ------------------------------------------------------------------- the plan and the binding

  /** The owner of a native descriptor is alive and `object`, or alive and an ancestor. */
  ghost predicate OwnerReached(h: Heap, d: Descriptor, c: int)
    requires d.metadata.Some?
  {
    var owner := d.metadata.value.owner;
    owner in h && (h[owner].isObject || Reaches(h, c, owner))
  }

  /** Binding a native descriptor succeeds exactly for the owner's descendants while the owner lives. */
  lemma BindsExactly(h: Heap, rank: int -> nat, d: Descriptor, c: int)
    requires Acyclic(h, rank) && ValidDescriptor(d) && c in h && d.style == NativeBuiltin
    ensures Bind(h, rank, d, c).BoundTo? <==> OwnerReached(h, d, c)
    ensures Bind(h, rank, d, c).BoundTo?
            <==> && d.metadata.value.owner in h
                 && (h[d.metadata.value.owner].isObject || IsSubclassOf(h, rank, c, d.metadata.value.owner))
  {
    if d.metadata.value.owner in h {
      SubclassExactly(h, rank, c, d.metadata.value.owner);
    }
  }

  /**
   Whatever is bound, calling it calls what the descriptor wraps with the class first. A native builtin shows
   its own name, qualified by its owner's at the owner and by the class's elsewhere. A native descriptor that
   does not bind names itself, its owner and the class; others always bind.
   */
  lemma BoundShape(h: Heap, rank: int -> nat, d: Descriptor, c: int)
    requires Acyclic(h, rank) && ValidDescriptor(d) && c in h
    ensures var r := Bind(h, rank, d, c);
            && (d.style == Python ==> r.BoundTo?)
            && (r.BoundTo? ==> CallOf(r.value) == Some((d.wrapped, c)))
            && (r.BoundTo? ==> (r.value.ClassBoundMethod? <==> d.wrapped.UserFunction?))
            && (r.BoundTo? ==> (r.value.NativeClassBuiltin? <==> d.wrapped.BuiltinFunction? && d.style == NativeBuiltin))
            && (r.BoundTo? && r.value.NativeClassBuiltin? ==>
                  && r.value.name == d.metadata.value.name
                  && r.value.qualname == if c == d.metadata.value.owner then d.metadata.value.qualname
                                         else h[c].qualname + "." + d.metadata.value.name)
            && (!r.BoundTo? ==> r == RequiresSubtype(d.metadata.value.name, d.metadata.value.ownerName, h[c].name))
  {
  }

  /** A plan exists exactly for admissible descriptors that bind: those whose owner is alive and reached. */
  lemma PlanExactly(h: Heap, rank: int -> nat, d: Descriptor, c: int)
    requires Acyclic(h, rank) && ValidDescriptor(d) && c in h
    ensures CachePlan(h, rank, d, c).Some?
            <==> && d.style == NativeBuiltin && d.wrapped.BuiltinFunction?
                 && d.wrapped.shared && !d.wrapped.precompiled && !d.wrapped.wrapsPython
                 && Bind(h, rank, d, c).BoundTo?
    ensures CachePlan(h, rank, d, c).Some? <==> Admissible(d) && OwnerReached(h, d, c)
  {
    if d.style == NativeBuiltin {
      BindsExactly(h, rank, d, c);
    }
  }

  /**
   A plan made in one heap and used in another, exactly: it serves its own target while that lives, and no
   other class. What it binds is the generic result precisely when the owner is still alive and reached and
   the target, unless it is the owner, has kept its qualified name. What it calls is what the generic result
   calls.
   */
  lemma CachedBindExactly(h0: Heap, rank0: int -> nat, h1: Heap, rank1: int -> nat, d: Descriptor, planned: int, c: int)
    requires Acyclic(h0, rank0) && Acyclic(h1, rank1) && ValidDescriptor(d) && planned in h0
    requires CachePlan(h0, rank0, d, planned).Some?
    ensures var plan := CachePlan(h0, rank0, d, planned).value;
            && (BindCached(h1, plan, c).Some? <==> c == planned && planned in h1)
            && (CallCached(h1, plan, c).Some? <==> c == planned && planned in h1)
            && (c == planned && planned in h1 ==>
                  && (BoundTo(BindCached(h1, plan, c).value) == Bind(h1, rank1, d, c)
                      <==> OwnerReached(h1, d, c) && (c == d.metadata.value.owner || h1[c].qualname == h0[c].qualname))
                  && (OwnerReached(h1, d, c) <==> Bind(h1, rank1, d, c).BoundTo?)
                  && (Bind(h1, rank1, d, c).BoundTo? ==> CallCached(h1, plan, c) == CallOf(Bind(h1, rank1, d, c).value)))
  {
    if c == planned && planned in h1 {
      BindsExactly(h1, rank1, d, c);
      var m := d.metadata.value;
      if h1[c].qualname != h0[c].qualname {
        DifferentQualnames(h0[c].qualname, h1[c].qualname, "." + m.name);
        assert h0[c].qualname + "." + m.name == h0[c].qualname + ("." + m.name);
        assert h1[c].qualname + "." + m.name == h1[c].qualname + ("." + m.name);
      }
    }
  }

  lemma DifferentQualnames(a: string, b: string, suffix: string)
    requires a != b
    ensures a + suffix != b + suffix
  {
    assert |a| == |b| ==> (a + suffix)[..|a|] == a && (b + suffix)[..|a|] == b;
  }

  /** Between the two heaps no surviving class changed its bases. */
  predicate SameBases(h0: Heap, h1: Heap) {
    forall c | c in h0 && c in h1 :: Bases(h0[c]) == Bases(h1[c]) && h0[c].isObject == h1[c].isObject
  }

  /** A path of unchanged classes stays a path, and keeps every class on it alive. */
  lemma {:induction false} PathSurvives(h0: Heap, h1: Heap, rank1: int -> nat, path: seq<int>)
    requires IsPath(h0, path) && SameBases(h0, h1) && Acyclic(h1, rank1) && path[0] in h1
    ensures IsPath(h1, path)
    decreases |path|
  {
    if |path| > 1 {
      var c := path[0];
      assert path[0 + 1] in Bases(h0[c]);
      assert Bases(h0[c]) == Bases(h1[c]);
      assert path[1] in Bases(h1[c]);
      var rest := path[1..];
      forall i | 0 <= i < |rest| - 1
        ensures rest[i + 1] in Bases(h0[rest[i]])
      {
        var k := i + 1;
        assert path[k + 1] in Bases(h0[path[k]]);
      }
      BaseAlive(h1, rank1, c, path[1]);
      PathSurvives(h0, h1, rank1, rest);
      forall i | 0 <= i < |path| - 1
        ensures path[i + 1] in Bases(h1[path[i]])
      {
        if i > 0 {
          assert rest[i - 1 + 1] in Bases(h1[rest[i - 1]]);
        }
      }
    }
  }

  /**
   While bases are unchanged, a plan for a live class keeps binding as the generic path does, as long as
   the owner lives; and a class below its owner keeps the owner alive.
   */
  lemma PlanStaysValid(h0: Heap, rank0: int -> nat, h1: Heap, rank1: int -> nat, d: Descriptor, c: int)
    requires Acyclic(h0, rank0) && Acyclic(h1, rank1) && ValidDescriptor(d) && c in h0 && c in h1
    requires CachePlan(h0, rank0, d, c).Some? && SameBases(h0, h1)
    ensures Bind(h1, rank1, d, c).BoundTo? <==> d.metadata.value.owner in h1
    ensures Reaches(h0, c, d.metadata.value.owner) ==> d.metadata.value.owner in h1
  {
    var owner := d.metadata.value.owner;
    PlanExactly(h0, rank0, d, c);
    BindsExactly(h0, rank0, d, c);
    BindsExactly(h1, rank1, d, c);
    if Reaches(h0, c, owner) {
      var path :| IsPath(h0, path) && path[0] == c && path[|path| - 1] == owner;
      PathSurvives(h0, h1, rank1, path);
      assert Reaches(h1, c, owner);
    }
  }
}
