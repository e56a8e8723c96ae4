/** `list.sort` on a list object: which route is taken, what it leaves behind, and why the routes agree. */
module ListSort {
  import opened Basics
  import opened Sorting

  // ----------------------------------------------------------------- comparisons that can raise

  datatype Ordering = Less | Equal | Greater

  datatype Compared = Ordered(ordering: Ordering) | Raised(error: int)

  /** The elements so far and the error captured by the comparator closure. */
  datatype SortState<T> = SortState(items: seq<T>, err: Option<int>)

  datatype Answer = Answer(err: Option<int>, ordering: Ordering)

  /** The closure: once an error is captured, everything compares equal. */
  function Ask<T>(cmp: (T, T) -> Compared, err: Option<int>, a: T, b: T): Answer {
    if err.Some? then Answer(err, Equal)
    else
      match cmp(a, b)
      case Ordered(ordering) => Answer(None, ordering)
      case Raised(e) => Answer(Some(e), Equal)
  }

  function InsertAsking<T>(cmp: (T, T) -> Compared, s: seq<T>, x: T, err: Option<int>): SortState<T> {
    if s == [] then SortState([x], err)
    else
      var last := s[|s| - 1];
      var answer := Ask(cmp, err, x, last);
      if answer.ordering != Less then SortState(s + [x], answer.err)
      else
        var rest := InsertAsking(cmp, s[..|s| - 1], x, answer.err);
        SortState(rest.items + [last], rest.err)
  }

  function SortAsking<T>(cmp: (T, T) -> Compared, s: seq<T>): SortState<T> {
    if s == [] then SortState([], None)
    else
      var sorted := SortAsking(cmp, s[..|s| - 1]);
      InsertAsking(cmp, sorted.items, s[|s| - 1], sorted.err)
  }

  /** The comparison read as a strict order. */
  function LessBy<T>(cmp: (T, T) -> Compared): (T, T) -> bool {
    (a, b) => cmp(a, b) == Ordered(Less)
  }

  ghost predicate NeverRaises<T>(cmp: (T, T) -> Compared, s: seq<T>) {
    forall a, b | a in s && b in s :: cmp(a, b).Ordered?
  }

  lemma {:induction false} InsertWithoutError<T>(cmp: (T, T) -> Compared, s: seq<T>, x: T, err: Option<int>)
    ensures var r := InsertAsking(cmp, s, x, err);
            r.err == None ==> err == None && r.items == Insert(LessBy(cmp), s, x)
  {
    if s != [] {
      var last := s[|s| - 1];
      var answer := Ask(cmp, err, x, last);
      if answer.ordering == Less {
        InsertWithoutError(cmp, s[..|s| - 1], x, answer.err);
      }
    }
  }

  /** When no comparison that was made raised, the closure-driven sort is the plain sort. */
  lemma {:induction false} SortWithoutError<T>(cmp: (T, T) -> Compared, s: seq<T>)
    ensures SortAsking(cmp, s).err == None ==> SortAsking(cmp, s).items == Sort(LessBy(cmp), s)
  {
    if s != [] {
      var init := s[..|s| - 1];
      SortWithoutError(cmp, init);
      var p := SortAsking(cmp, init);
      InsertWithoutError(cmp, p.items, s[|s| - 1], p.err);
    }
  }

  ghost predicate RaisedBy<T>(cmp: (T, T) -> Compared, s: seq<T>, e: int) {
    exists a, b :: a in s && b in s && cmp(a, b) == Raised(e)
  }

  lemma {:induction false} InsertError<T>(cmp: (T, T) -> Compared, s: seq<T>, x: T, err: Option<int>, all: seq<T>)
    requires x in all && (forall z | z in s :: z in all) && (err.Some? ==> RaisedBy(cmp, all, err.value))
    ensures var r := InsertAsking(cmp, s, x, err);
            && (r.err.Some? ==> RaisedBy(cmp, all, r.err.value))
            && forall z | z in r.items :: z in all
  {
    if s != [] {
      var last := s[|s| - 1];
      assert last in s;
      var answer := Ask(cmp, err, x, last);
      assert answer.err.Some? ==> RaisedBy(cmp, all, answer.err.value);
      if answer.ordering == Less {
        InsertError(cmp, s[..|s| - 1], x, answer.err, all);
      }
    }
  }

  /** A captured error was really raised by comparing two of the elements. */
  lemma {:induction false} SortError<T>(cmp: (T, T) -> Compared, s: seq<T>, all: seq<T>)
    requires forall z | z in s :: z in all
    ensures var r := SortAsking(cmp, s);
            && (r.err.Some? ==> RaisedBy(cmp, all, r.err.value))
            && forall z | z in r.items :: z in all
  {
    if s != [] {
      SortError(cmp, s[..|s| - 1], all);
      var p := SortAsking(cmp, s[..|s| - 1]);
      assert s[|s| - 1] in s;
      InsertError(cmp, p.items, s[|s| - 1], p.err, all);
    }
  }

  /** So when no pair of elements raises, neither does the sort. */
  lemma SortNeverRaises<T>(cmp: (T, T) -> Compared, s: seq<T>)
    requires NeverRaises(cmp, s)
    ensures SortAsking(cmp, s) == SortState(Sort(LessBy(cmp), s), None)
  {
    SortError(cmp, s, s);
    SortWithoutError(cmp, s);
  }

  /** The standard library's stable sort, as an insertion sort in place. */
  method SortInPlace<T>(a: array<T>, cmp: (T, T) -> Compared) returns (err: Option<int>)
    modifies a
    ensures SortState(a[..], err) == SortAsking(cmp, old(a[..]))
  {
    err := None;
    ghost var before := a[..];
    for i := 0 to a.Length
      invariant SortState(a[..i], err) == SortAsking(cmp, before[..i])
      invariant a[i..] == before[i..]
    {
      assert before[..i + 1][..i] == before[..i];
      assert a[i] == before[i];
      err := InsertInPlace(a, i, a[i], cmp, err);
    }
    assert a[..a.Length] == a[..] && before[..a.Length] == before;
  }

  /** Put `x` in its place among the first `j` elements, shifting the greater ones right into slot `j`. */
  method InsertInPlace<T>(a: array<T>, j: nat, x: T, cmp: (T, T) -> Compared, err0: Option<int>) returns (err: Option<int>)
    requires j < a.Length
    modifies a
    ensures SortState(a[..j + 1], err) == InsertAsking(cmp, old(a[..j]), x, err0)
    ensures a[j + 1..] == old(a[j + 1..])
    decreases j
  {
    if j == 0 {
      a[0] := x;
      assert a[..1] == [x];
      return err0;
    }
    ghost var before := a[..j];
    assert before[..j - 1] == a[..j - 1] && before[j - 1] == a[j - 1];
    var answer := Ask(cmp, err0, x, a[j - 1]);
    if answer.ordering == Less {
      a[j] := a[j - 1];
      ghost var tail := a[j..];
      assert a[..j - 1] == before[..j - 1] && tail[0] == before[j - 1];
      err := InsertInPlace(a, j - 1, x, cmp, answer.err);
      assert a[j..] == tail && a[j] == tail[0];
      assert a[j + 1..] == tail[1..];
      assert a[..j + 1] == a[..j] + [before[j - 1]];
    } else {
      a[j] := x;
      assert a[..j + 1] == before + [x];
      return answer.err;
    }
  }

  // -------------------------------------------------------------------------------- values

  /** Small integers, strings (by their bytes), instances, and every other kind of value. */
  datatype Value = Int(n: int) | Str(s: seq<int>) | Instance(id: int) | Other(id: int)

  datatype SortKind = AllInt | AllStr | HasInstance | General

  /** The classification `classify_sort` promises. */
  function KindOf(items: seq<Value>): SortKind {
    if exists i | 0 <= i < |items| :: items[i].Instance? then HasInstance
    else if items != [] && forall i | 0 <= i < |items| :: items[i].Int? then AllInt
    else if items != [] && forall i | 0 <= i < |items| :: items[i].Str? then AllStr
    else General
  }

  /** One pass over the elements. */
  method ClassifySort(items: seq<Value>) returns (kind: SortKind)
    ensures kind == KindOf(items)
  {
    var allInt, allStr, hasInstance, any := true, true, false, false;
    for i := 0 to |items|
      invariant allInt <==> forall k | 0 <= k < i :: items[k].Int?
      invariant allStr <==> forall k | 0 <= k < i :: items[k].Str?
      invariant hasInstance <==> exists k | 0 <= k < i :: items[k].Instance?
      invariant any <==> i > 0
    {
      any := true;
      match items[i]
      case Int(_) => allStr := false;
      case Str(_) => allInt := false;
      case Instance(_) => hasInstance := true; allInt := false; allStr := false;
      case Other(_) => allInt := false; allStr := false;
    }
    return if hasInstance then HasInstance
           else if any && allInt then AllInt
           else if any && allStr then AllStr
           else General;
  }

  function IntOrZero(v: Value): int {
    if v.Int? then v.n else 0
  }

  function StrOrEmpty(v: Value): seq<int> {
    if v.Str? then v.s else []
  }

  predicate LexLess(a: seq<int>, b: seq<int>) {
    if b == [] then false
    else if a == [] then true
    else if a[0] != b[0] then a[0] < b[0]
    else LexLess(a[1..], b[1..])
  }

  function CompareBy(less: bool, greater: bool): Compared {
    Ordered(if less then Less else if greater then Greater else Equal)
  }

  /** The native integer comparator: `as_int().unwrap_or(0)` on both sides. */
  function CompareInts(a: Value, b: Value): Compared {
    CompareBy(IntOrZero(a) < IntOrZero(b), IntOrZero(a) > IntOrZero(b))
  }

  /** The native string comparator. */
  function CompareStrs(a: Value, b: Value): Compared {
    CompareBy(LexLess(StrOrEmpty(a), StrOrEmpty(b)), LexLess(StrOrEmpty(b), StrOrEmpty(a)))
  }

  /** The comparator a sort of elements of this kind uses; `registry` is the interpreter's. */
  function ComparatorFor(kind: SortKind, registry: (Value, Value) -> Compared): (Value, Value) -> Compared {
    match kind
    case AllInt => (a, b) => CompareInts(a, b)
    case AllStr => (a, b) => CompareStrs(a, b)
    case _ => registry
  }

  /** Reversing exchanges the comparator's arguments. */
  function Directed<T>(reverse: bool, cmp: (T, T) -> Compared): (T, T) -> Compared {
    if reverse then (a, b) => cmp(b, a) else cmp
  }

  // --------------------------------------------------------------- what the native routes leave

  /** The numbers of `t` never decrease, or with `reverse` never increase. */
  predicate IntsInOrder(t: seq<Value>, reverse: bool) {
    && (forall i | 0 <= i < |t| :: t[i].Int?)
    && forall i, j | 0 <= i < j < |t| :: if reverse then t[j].n <= t[i].n else t[i].n <= t[j].n
  }

  /** `a` comes before `b` in the dictionary: as a proper prefix, or by the first byte that differs. */
  ghost predicate Precedes(a: seq<int>, b: seq<int>) {
    (|a| < |b| && b[..|a|] == a) || exists k :: DiffersAt(a, b, k) && a[k] < b[k]
  }

  predicate DiffersAt(a: seq<int>, b: seq<int>, k: int) {
    0 <= k < |a| && k < |b| && a[..k] == b[..k] && a[k] != b[k]
  }

  ghost predicate StrsInOrder(t: seq<Value>, reverse: bool) {
    && (forall i | 0 <= i < |t| :: t[i].Str?)
    && forall i, j | 0 <= i < j < |t| :: if reverse then !Precedes(t[i].s, t[j].s) else !Precedes(t[j].s, t[i].s)
  }

  lemma {:induction false} LexExactly(a: seq<int>, b: seq<int>)
    ensures LexLess(a, b) <==> Precedes(a, b)
  {
    if a != [] && b != [] {
      if a[0] == b[0] {
        LexExactly(a[1..], b[1..]);
        PrecedesTail(a, b);
      } else {
        assert a[..0] == b[..0];
        assert DiffersAt(a, b, 0);
        forall k | 0 < k <= |a| && k <= |b|
          ensures a[..k] != b[..k]
        {
          assert a[..k][0] != b[..k][0];
        }
      }
    }
  }

  lemma PrecedesTail(a: seq<int>, b: seq<int>)
    requires a != [] && b != [] && a[0] == b[0]
    ensures Precedes(a, b) <==> Precedes(a[1..], b[1..])
  {
    var x, y := a[1..], b[1..];
    assert a == [a[0]] + x && b == [b[0]] + y;
    if |a| < |b| {
      assert b[..|a|] == [b[0]] + y[..|x|];
    }
    forall k | k >= 0
      ensures DiffersAt(a, b, k + 1) <==> DiffersAt(x, y, k)
    {
      if k < |x| && k < |y| {
        assert a[..k + 1] == [a[0]] + x[..k] && b[..k + 1] == [b[0]] + y[..k];
        assert x[..k] == a[..k + 1][1..] && y[..k] == b[..k + 1][1..];
      }
    }
    if k :| DiffersAt(a, b, k) && a[k] < b[k] {
      assert DiffersAt(x, y, k - 1) by { assert DiffersAt(a, b, (k - 1) + 1); }
    }
    if k :| DiffersAt(x, y, k) && x[k] < y[k] {
      assert DiffersAt(a, b, k + 1);
    }
  }

  /** The comparator orders the elements weakly and never raises on them. */
  ghost predicate OrdersWeakly<T(!new)>(cmp: (T, T) -> Compared, items: seq<T>) {
    NeverRaises(cmp, items) && WeakOrder(LessBy(cmp), items)
  }

  /** Then sorting leaves a rearrangement in which no element is less than one before it. */
  lemma InOrder<T(!new)>(cmp: (T, T) -> Compared, items: seq<T>)
    requires OrdersWeakly(cmp, items)
    ensures var st := SortAsking(cmp, items);
            && st.err == None && multiset(st.items) == multiset(items)
            && (forall i | 0 <= i < |st.items| :: st.items[i] in items)
            && forall i, j | 0 <= i < j < |st.items| :: cmp(st.items[j], st.items[i]) != Ordered(Less)
  {
    SortNeverRaises(cmp, items);
    SortIsStable(LessBy(cmp), items);
    SameElements(Sort(LessBy(cmp), items), items);
  }

  lemma DirectedOrdersWeakly<T(!new)>(cmp: (T, T) -> Compared, reverse: bool, items: seq<T>)
    requires OrdersWeakly(cmp, items)
    ensures OrdersWeakly(Directed(reverse, cmp), items)
  {
    var lt, directed := LessBy(cmp), LessBy(Directed(reverse, cmp));
    assert forall a, b :: directed(a, b) == if reverse then lt(b, a) else lt(a, b);
  }

  lemma KeyedOrdersWeakly<K(!new), V(!new)>(cmp: (K, K) -> Compared, keys: seq<K>, items: seq<V>)
    requires |keys| == |items| && OrdersWeakly(cmp, keys)
    ensures OrdersWeakly(ByKey<K, V>(cmp), Zip(keys, items))
  {
    ZipMembers(keys, items);
    var lt, keyed := LessBy(cmp), LessBy(ByKey<K, V>(cmp));
    assert forall p, q :: keyed(p, q) == lt(p.0, q.0);
  }

  lemma NativeOrdersWeakly(items: seq<Value>, reverse: bool, registry: (Value, Value) -> Compared)
    requires KindOf(items) == AllInt || KindOf(items) == AllStr
    ensures OrdersWeakly(Directed(reverse, ComparatorFor(KindOf(items), registry)), items)
  {
    NativeIsWeakOrder(items);
    var cmp := ComparatorFor(KindOf(items), registry);
    var native: (Value, Value) -> Compared := if KindOf(items) == AllInt then CompareInts else CompareStrs;
    assert forall a, b :: cmp(a, b) == native(a, b);
    var lt, ct := LessBy(native), LessBy(cmp);
    assert forall a, b :: ct(a, b) == lt(a, b);
    DirectedOrdersWeakly(cmp, reverse, items);
  }

  lemma LexesExactly()
    ensures forall a, b :: LexLess(a, b) <==> Precedes(a, b)
  {
    forall a, b
      ensures LexLess(a, b) <==> Precedes(a, b)
    {
      LexExactly(a, b);
    }
  }

  /** A list of integers, or of strings, is left in their order, by whatever route; nothing is raised. */
  lemma NativeInOrder(items: seq<Value>, reverse: bool, registry: (Value, Value) -> Compared)
    requires items != []
    ensures var st := SortAsking(Directed(reverse, ComparatorFor(KindOf(items), registry)), items);
            && ((forall i | 0 <= i < |items| :: items[i].Int?) ==>
                  st.err == None && multiset(st.items) == multiset(items) && IntsInOrder(st.items, reverse))
            && ((forall i | 0 <= i < |items| :: items[i].Str?) ==>
                  st.err == None && multiset(st.items) == multiset(items) && StrsInOrder(st.items, reverse))
  {
    if KindOf(items) == AllInt || KindOf(items) == AllStr {
      NativeOrdersWeakly(items, reverse, registry);
      var cmp := Directed(reverse, ComparatorFor(KindOf(items), registry));
      InOrder(cmp, items);
      ElementsInOrder(items, reverse, registry, SortAsking(cmp, items).items);
    } else {
      NotNative(items);
    }
  }

  lemma KindDecides(items: seq<Value>)
    requires items != []
    ensures (forall i | 0 <= i < |items| :: items[i].Int?) ==> KindOf(items) == AllInt
    ensures (forall i | 0 <= i < |items| :: items[i].Str?) ==> KindOf(items) == AllStr
  {
    assert items[0].Int? ==> !items[0].Instance? && !items[0].Str?;
  }

  lemma NotNative(items: seq<Value>)
    requires items != [] && KindOf(items) != AllInt && KindOf(items) != AllStr
    ensures !(forall i | 0 <= i < |items| :: items[i].Int?) && !(forall i | 0 <= i < |items| :: items[i].Str?)
  {
  }

  /** The same for pairs: their keys end in order, with each item still at its key. */
  lemma KeysInOrder(keys: seq<Value>, items: seq<Value>, reverse: bool, registry: (Value, Value) -> Compared)
    requires |keys| == |items| && keys != []
    ensures var st := SortAsking(ByKey(Directed(reverse, ComparatorFor(KindOf(keys), registry))), Zip(keys, items));
            && ((forall i | 0 <= i < |keys| :: keys[i].Int?) ==>
                  st.err == None && multiset(st.items) == multiset(Zip(keys, items)) && IntsInOrder(Firsts(st.items), reverse))
            && ((forall i | 0 <= i < |keys| :: keys[i].Str?) ==>
                  st.err == None && multiset(st.items) == multiset(Zip(keys, items)) && StrsInOrder(Firsts(st.items), reverse))
  {
    if KindOf(keys) == AllInt || KindOf(keys) == AllStr {
      var cmp := Directed(reverse, ComparatorFor(KindOf(keys), registry));
      NativeOrdersWeakly(keys, reverse, registry);
      var pairs := Zip(keys, items);
      KeyedOrdersWeakly(cmp, keys, items);
      InOrder(ByKey(cmp), pairs);
      KindDecides(keys);
      FirstsInOrder(keys, items, reverse, registry, SortAsking(ByKey(cmp), Zip(keys, items)).items);
    } else {
      NotNative(keys);
    }
  }

  lemma FirstsInOrder(keys: seq<Value>, items: seq<Value>, reverse: bool, registry: (Value, Value) -> Compared, t: seq<(Value, Value)>)
    requires |keys| == |items| && (KindOf(keys) == AllInt || KindOf(keys) == AllStr)
    requires forall i | 0 <= i < |t| :: t[i] in Zip(keys, items)
    requires var cmp := ByKey(Directed(reverse, ComparatorFor(KindOf(keys), registry)));
             forall i, j | 0 <= i < j < |t| :: cmp(t[j], t[i]) != Ordered(Less)
    ensures KindOf(keys) == AllInt ==> IntsInOrder(Firsts(t), reverse)
    ensures KindOf(keys) == AllStr ==> StrsInOrder(Firsts(t), reverse)
  {
    var k := Firsts(t);
    ZipMembers(keys, items);
    forall i | 0 <= i < |t|
      ensures k[i] in keys
    {
      assert t[i] in Zip(keys, items);
    }
    var cmp := Directed(reverse, ComparatorFor(KindOf(keys), registry));
    forall i, j | 0 <= i < j < |t|
      ensures cmp(k[j], k[i]) != Ordered(Less)
    {
      assert ByKey<Value, Value>(cmp)(t[j], t[i]) != Ordered(Less);
    }
    ElementsInOrder(keys, reverse, registry, k);
  }

  lemma ElementsInOrder(items: seq<Value>, reverse: bool, registry: (Value, Value) -> Compared, t: seq<Value>)
    requires (KindOf(items) == AllInt || KindOf(items) == AllStr) && forall i | 0 <= i < |t| :: t[i] in items
    requires var cmp := Directed(reverse, ComparatorFor(KindOf(items), registry));
             forall i, j | 0 <= i < j < |t| :: cmp(t[j], t[i]) != Ordered(Less)
    ensures KindOf(items) == AllInt ==> IntsInOrder(t, reverse)
    ensures KindOf(items) == AllStr ==> StrsInOrder(t, reverse)
  {
    LexesExactly();
  }

  function Firsts<K, V>(pairs: seq<(K, V)>): (r: seq<K>)
    ensures |r| == |pairs| && forall i | 0 <= i < |r| :: r[i] == pairs[i].0
  {
    seq(|pairs|, i requires 0 <= i < |pairs| => pairs[i].0)
  }

  datatype Outcome = Done | Failed(error: int)

  lemma SortFew<T>(lt: (T, T) -> bool, s: seq<T>)
    requires |s| < 2
    ensures Sort(lt, s) == s
  {
    if s != [] {
      assert s[..0] == [] && s == [s[0]];
    }
  }

  class List {
    var items: seq<Value>

    constructor (items: seq<Value>)
      ensures this.items == items
    {
      this.items := items;
    }

    /** `sort_by_cmp`: a failing comparison is returned and leaves the list as it was. */
    method SortByCmp(reverse: bool, registry: (Value, Value) -> Compared) returns (r: Outcome)
      modifies this
      ensures |old(items)| < 2 ==> r == Done && items == old(items)
      ensures |old(items)| >= 2 ==>
                var st := SortAsking(Directed(reverse, ComparatorFor(KindOf(old(items)), registry)), old(items));
                match st.err
                case None => r == Done && items == st.items
                case Some(e) => r == Failed(e) && items == old(items)
      ensures r == Done ==> items == Sort(LessBy(Directed(reverse, ComparatorFor(KindOf(old(items)), registry))), old(items))
      ensures (forall i | 0 <= i < |old(items)| :: old(items)[i].Int?) ==>
                r == Done && multiset(items) == multiset(old(items)) && IntsInOrder(items, reverse)
      ensures (forall i | 0 <= i < |old(items)| :: old(items)[i].Str?) ==>
                r == Done && multiset(items) == multiset(old(items)) && StrsInOrder(items, reverse)
    {
      var kind := ClassifySort(items);
      if |items| < 2 {
        SortFew(LessBy(Directed(reverse, ComparatorFor(kind, registry))), items);
        return Done;
      }
      var cmp := Directed(reverse, ComparatorFor(kind, registry));
      var snapshot := new Value[|items|](i requires 0 <= i < |items| reads this => items[i]);
      assert snapshot[..] == items;
      SortWithoutError(cmp, items);
      NativeInOrder(items, reverse, registry);
      var err := SortInPlace(snapshot, cmp);
      match err
      case Some(e) =>
        return Failed(e);
      case None =>
        items := snapshot[..];
        return Done;
    }

    /** `sort_with_precomputed_keys`: sort (key, item) pairs by key, then keep the items. */
    method SortWithPrecomputedKeys(keys: seq<Value>, reverse: bool, registry: (Value, Value) -> Compared)
      returns (r: Outcome)
      requires |keys| == |items|
      modifies this
      ensures var cmp := ByKey(Directed(reverse, ComparatorFor(KindOf(keys), registry)));
              var st := SortAsking(cmp, Zip(keys, old(items)));
              match st.err
              case None => r == Done && items == Items(st.items)
              case Some(e) => r == Failed(e) && items == old(items)
      ensures var cmp := ByKey(Directed(reverse, ComparatorFor(KindOf(keys), registry)));
              r == Done ==> items == Items(Sort(LessBy(cmp), Zip(keys, old(items))))
    {
      var pairs := Zip(keys, items);
      var keyed := new (Value, Value)[|pairs|](i requires 0 <= i < |pairs| => pairs[i]);
      assert keyed[..] == pairs;
      var kind := ClassifySort(keys);
      var cmp := ByKey(Directed(reverse, ComparatorFor(kind, registry)));
      var err := SortInPlace(keyed, cmp);
      SortWithoutError(cmp, pairs);
      match err
      case Some(e) =>
        return Failed(e);
      case None =>
        items := Items(keyed[..]);
        return Done;
    }
  }

  function Zip<K, V>(keys: seq<K>, items: seq<V>): (r: seq<(K, V)>)
    requires |keys| == |items|
    ensures |r| == |keys|
  {
    if keys == [] then []
    else Zip(keys[..|keys| - 1], items[..|items| - 1]) + [(keys[|keys| - 1], items[|items| - 1])]
  }

  function Items<K, V>(pairs: seq<(K, V)>): (r: seq<V>)
    ensures |r| == |pairs|
  {
    if pairs == [] then [] else Items(pairs[..|pairs| - 1]) + [pairs[|pairs| - 1].1]
  }

  /** Each key goes with the item at its own place, and each pair gives back its own item. */
  lemma {:induction false} ZipAt<K, V>(keys: seq<K>, items: seq<V>, i: nat)
    requires i < |keys| == |items|
    ensures Zip(keys, items)[i] == (keys[i], items[i])
  {
    if i < |keys| - 1 {
      ZipAt(keys[..|keys| - 1], items[..|items| - 1], i);
    }
  }

  lemma {:induction false} ItemsAt<K, V>(pairs: seq<(K, V)>, i: nat)
    requires i < |pairs|
    ensures Items(pairs)[i] == pairs[i].1
  {
    if i < |pairs| - 1 {
      ItemsAt(pairs[..|pairs| - 1], i);
    }
  }

  function ByKey<K, V>(cmp: (K, K) -> Compared): ((K, V), (K, V)) -> Compared {
    (p: (K, V), q: (K, V)) => cmp(p.0, q.0)
  }

  // --------------------------------------------------------------------- the native orders

  lemma {:induction false} LexAsymmetric(a: seq<int>, b: seq<int>)
    ensures !(LexLess(a, b) && LexLess(b, a))
    ensures LexLess(a, b) || LexLess(b, a) || a == b
  {
    if a != [] && b != [] && a[0] == b[0] {
      LexAsymmetric(a[1..], b[1..]);
      assert a == [a[0]] + a[1..] && b == [b[0]] + b[1..];
    }
  }

  lemma {:induction false} LexTransitive(a: seq<int>, b: seq<int>, c: seq<int>)
    requires !LexLess(b, a) && !LexLess(c, b)
    ensures !LexLess(c, a)
  {
    if a != [] && b != [] && c != [] && a[0] == b[0] == c[0] {
      LexTransitive(a[1..], b[1..], c[1..]);
    }
  }

  /** Both native comparators never raise and order all values. */
  lemma NativeIsWeakOrder(items: seq<Value>)
    ensures NeverRaises(CompareInts, items) && NeverRaises(CompareStrs, items)
    ensures WeakOrder(LessBy(CompareInts), items) && WeakOrder(LessBy(CompareStrs), items)
  {
    var lt := LessBy(CompareStrs);
    forall a, b
      ensures lt(a, b) == LexLess(StrOrEmpty(a), StrOrEmpty(b)) && !(lt(a, b) && lt(b, a))
    {
      assert CompareStrs(a, b) == CompareBy(LexLess(StrOrEmpty(a), StrOrEmpty(b)), LexLess(StrOrEmpty(b), StrOrEmpty(a)));
      assert CompareStrs(b, a) == CompareBy(LexLess(StrOrEmpty(b), StrOrEmpty(a)), LexLess(StrOrEmpty(a), StrOrEmpty(b)));
      LexAsymmetric(StrOrEmpty(a), StrOrEmpty(b));
    }
    forall a, b, c | !lt(b, a) && !lt(c, b)
      ensures !lt(c, a)
    {
      LexTransitive(StrOrEmpty(a), StrOrEmpty(b), StrOrEmpty(c));
    }
  }

  // -------------------------------------------------------------------- the routes compared

  lemma {:induction false} InsertAgrees<T>(lt: (T, T) -> bool, gt: (T, T) -> bool, s: seq<T>, x: T)
    requires forall z | z in s :: lt(x, z) == gt(x, z)
    ensures Insert(lt, s, x) == Insert(gt, s, x)
  {
    if s != [] {
      assert s[|s| - 1] in s;
      InsertAgrees(lt, gt, s[..|s| - 1], x);
    }
  }

  /** Orders that agree on the elements sort alike. */
  lemma {:induction false} SortAgrees<T>(lt: (T, T) -> bool, gt: (T, T) -> bool, s: seq<T>, all: seq<T>)
    requires (forall z | z in s :: z in all) && forall a, b | a in all && b in all :: lt(a, b) == gt(a, b)
    ensures Sort(lt, s) == Sort(gt, s)
  {
    if s != [] {
      var init := s[..|s| - 1];
      SortAgrees(lt, gt, init, all);
      SortWithin(lt, init, all);
      assert s[|s| - 1] in s;
      InsertAgrees(lt, gt, Sort(lt, init), s[|s| - 1]);
    }
  }

  function Keys<K, V>(key: V -> K, items: seq<V>): (r: seq<K>)
    ensures |r| == |items|
  {
    if items == [] then [] else Keys(key, items[..|items| - 1]) + [key(items[|items| - 1])]
  }

  /** The order on items that their keys give. */
  function Through<K, V>(lt: (K, K) -> bool, key: V -> K): (V, V) -> bool {
    (a: V, b: V) => lt(key(a), key(b))
  }

  function OnKeys<K, V>(lt: (K, K) -> bool): ((K, V), (K, V)) -> bool {
    (p: (K, V), q: (K, V)) => lt(p.0, q.0)
  }

  lemma ZipSnoc<K, V>(keys: seq<K>, items: seq<V>, k: K, v: V)
    requires |keys| == |items|
    ensures Zip(keys + [k], items + [v]) == Zip(keys, items) + [(k, v)]
  {
    assert (keys + [k])[..|keys|] == keys && (items + [v])[..|items|] == items;
  }

  lemma KeysSnoc<K, V>(key: V -> K, items: seq<V>, v: V)
    ensures Keys(key, items + [v]) == Keys(key, items) + [key(v)]
  {
    assert (items + [v])[..|items|] == items;
  }

  lemma {:induction false} InsertKeyed<K, V>(lt: (K, K) -> bool, key: V -> K, t: seq<V>, x: V)
    ensures Insert(OnKeys(lt), Zip(Keys(key, t), t), (key(x), x))
            == Zip(Keys(key, Insert(Through(lt, key), t, x)), Insert(Through(lt, key), t, x))
  {
    if t == [] || !lt(key(x), key(t[|t| - 1])) {
      KeyedSnoc(key, t, x);
    } else {
      var init, last := t[..|t| - 1], t[|t| - 1];
      assert t == init + [last];
      KeyedSnoc(key, init, last);
      InsertKeyed(lt, key, init, x);
      InsertPast(OnKeys(lt), Zip(Keys(key, init), init), (key(last), last), (key(x), x));
      InsertPast(Through(lt, key), init, last, x);
      KeyedSnoc(key, Insert(Through(lt, key), init, x), last);
    }
  }

  lemma InsertPast<T>(lt: (T, T) -> bool, init: seq<T>, last: T, x: T)
    requires lt(x, last)
    ensures Insert(lt, init + [last], x) == Insert(lt, init, x) + [last]
  {
    assert (init + [last])[..|init|] == init;
  }

  lemma KeyedSnoc<K, V>(key: V -> K, t: seq<V>, x: V)
    ensures Zip(Keys(key, t + [x]), t + [x]) == Zip(Keys(key, t), t) + [(key(x), x)]
  {
    KeysSnoc(key, t, x);
    ZipSnoc(Keys(key, t), t, key(x), x);
  }

  /** Sorting (key, item) pairs by key is sorting the items by their keys. */
  lemma {:induction false} SortKeyed<K, V>(lt: (K, K) -> bool, key: V -> K, items: seq<V>)
    ensures Sort(OnKeys(lt), Zip(Keys(key, items), items))
            == Zip(Keys(key, Sort(Through(lt, key), items)), Sort(Through(lt, key), items))
  {
    if items != [] {
      var init, last := items[..|items| - 1], items[|items| - 1];
      assert items == init + [last];
      KeysSnoc(key, init, last);
      ZipSnoc(Keys(key, init), init, key(last), last);
      var z := Zip(Keys(key, items), items);
      assert z[..|z| - 1] == Zip(Keys(key, init), init);
      SortKeyed(lt, key, init);
      InsertKeyed(lt, key, Sort(Through(lt, key), init), last);
    }
  }

  lemma {:induction false} ItemsOfZip<K, V>(keys: seq<K>, items: seq<V>)
    requires |keys| == |items|
    ensures Items(Zip(keys, items)) == items
  {
    if items != [] {
      ItemsOfZip(keys[..|keys| - 1], items[..|items| - 1]);
    }
  }

  lemma {:induction false} KeysOfIdentity<V(!new)>(id: V -> V, items: seq<V>)
    requires forall v :: id(v) == v
    ensures Keys(id, items) == items
  {
    if items != [] {
      KeysOfIdentity(id, items[..|items| - 1]);
    }
  }

  lemma {:induction false} ZipMembers<K, V>(keys: seq<K>, items: seq<V>)
    requires |keys| == |items|
    ensures forall p | p in Zip(keys, items) :: p.0 in keys
  {
    if keys != [] {
      ZipMembers(keys[..|keys| - 1], items[..|items| - 1]);
      assert keys == keys[..|keys| - 1] + [keys[|keys| - 1]];
    }
  }

  /**
   The keyed route sorts the items through their keys unless a comparison it makes raises, and none does
   when no pair of keys raises.
   */
  lemma KeyedRoute<K, V>(cmp: (K, K) -> Compared, key: V -> K, items: seq<V>)
    ensures var st := SortAsking(ByKey(cmp), Zip(Keys(key, items), items));
            && (st.err == None ==> Items(st.items) == Sort(Through(LessBy(cmp), key), items))
            && (NeverRaises(cmp, Keys(key, items)) ==> st.err == None)
  {
    var pairs := Zip(Keys(key, items), items);
    ZipMembers(Keys(key, items), items);
    SortError(ByKey(cmp), pairs, pairs);
    SortWithoutError(ByKey(cmp), pairs);
    SortAgrees(LessBy(ByKey(cmp)), OnKeys(LessBy(cmp)), pairs, pairs);
    SortKeyed(LessBy(cmp), key, items);
    ItemsOfZip(Keys(key, Sort(Through(LessBy(cmp), key), items)), Sort(Through(LessBy(cmp), key), items));
  }

  /** The interpreter's comparator orders small integers and strings as the native ones do. */
  ghost predicate ExtendsNative(registry: (Value, Value) -> Compared) {
    && (forall a: Value, b: Value | a.Int? && b.Int? :: registry(a, b) == CompareInts(a, b))
    && (forall a: Value, b: Value | a.Str? && b.Str? :: registry(a, b) == CompareStrs(a, b))
  }

  /** The list a sort should leave: the stable sort, taken backwards on the reversed list for `reverse`. */
  ghost function Expected(cmp: (Value, Value) -> Compared, reverse: bool, items: seq<Value>): seq<Value> {
    if reverse then Reversed(Sort(LessBy(cmp), Reversed(items))) else Sort(LessBy(cmp), items)
  }

  lemma DirectedRoute(cmp: (Value, Value) -> Compared, reverse: bool, items: seq<Value>)
    requires OrdersWeakly(cmp, items)
    ensures SortAsking(Directed(reverse, cmp), items) == SortState(Expected(cmp, reverse, items), None)
    ensures Sort(LessBy(Directed(reverse, cmp)), items) == Expected(cmp, reverse, items)
  {
    SortNeverRaises(Directed(reverse, cmp), items);
    if reverse {
      SortAgrees(LessBy(Directed(true, cmp)), Swapped(LessBy(cmp)), items, items);
      ReverseSort(LessBy(cmp), items);
    }
  }

  /** On elements of one native kind, the native comparator and the interpreter's sort alike. */
  lemma NativeRouteAgrees(registry: (Value, Value) -> Compared, reverse: bool, items: seq<Value>)
    requires ExtendsNative(registry)
    requires KindOf(items) == AllInt || KindOf(items) == AllStr || OrdersWeakly(registry, items)
    ensures OrdersWeakly(registry, items) && OrdersWeakly(ComparatorFor(KindOf(items), registry), items)
    ensures Expected(ComparatorFor(KindOf(items), registry), reverse, items) == Expected(registry, reverse, items)
  {
    var native := ComparatorFor(KindOf(items), registry);
    NativeIsWeakOrder(items);
    if KindOf(items) == AllInt || KindOf(items) == AllStr {
      SameOnElements(native, registry, items);
      SortAgrees(LessBy(native), LessBy(registry), items, items);
      ReverseElements(items);
      SameElements(items, Reversed(items));
      SortAgrees(LessBy(native), LessBy(registry), Reversed(items), items);
    }
  }

  lemma SameOnElements(native: (Value, Value) -> Compared, registry: (Value, Value) -> Compared, items: seq<Value>)
    requires ExtendsNative(registry) && native == ComparatorFor(KindOf(items), registry)
    requires KindOf(items) == AllInt || KindOf(items) == AllStr
    ensures forall a, b | a in items && b in items :: native(a, b) == registry(a, b)
    ensures OrdersWeakly(native, items) && OrdersWeakly(registry, items)
  {
    NativeIsWeakOrder(items);
    if KindOf(items) == AllInt {
      assert forall a, b :: native(a, b) == CompareInts(a, b);
      assert forall v | v in items :: v.Int?;
      OrdersTransfer(CompareInts, native, items);
      OrdersTransfer(CompareInts, registry, items);
    } else {
      assert forall a, b :: native(a, b) == CompareStrs(a, b);
      assert forall v | v in items :: v.Str?;
      OrdersTransfer(CompareStrs, native, items);
      OrdersTransfer(CompareStrs, registry, items);
    }
  }

  lemma OrdersTransfer(cmp: (Value, Value) -> Compared, other: (Value, Value) -> Compared, items: seq<Value>)
    requires OrdersWeakly(cmp, items) && forall a, b | a in items && b in items :: other(a, b) == cmp(a, b)
    ensures OrdersWeakly(other, items)
  {
    var lt, ot := LessBy(cmp), LessBy(other);
    assert forall a, b | a in items && b in items :: ot(a, b) == lt(a, b);
  }

  /**
   The three routes leave the same list: the in-place native route, the snapshot route through the
   interpreter's comparator, and the keyed route with every item as its own key. None raises, and
   the list is the only stable sort there is.
   */
  lemma RoutesAgree(registry: (Value, Value) -> Compared, reverse: bool, items: seq<Value>)
    requires ExtendsNative(registry)
    requires KindOf(items) == AllInt || KindOf(items) == AllStr || OrdersWeakly(registry, items)
    ensures var t := Expected(registry, reverse, items);
            && SortAsking(Directed(reverse, ComparatorFor(KindOf(items), registry)), items) == SortState(t, None)
            && SortAsking(Directed(reverse, registry), items) == SortState(t, None)
            && (var st := SortAsking(ByKey(Directed(reverse, ComparatorFor(KindOf(items), registry))), Zip(items, items));
                st.err == None && Items(st.items) == t)
            && forall u :: IsStableSort(LessBy(Directed(reverse, registry)), items, u) <==> u == t
  {
    var native := ComparatorFor(KindOf(items), registry);
    NativeRouteAgrees(registry, reverse, items);
    DirectedRoute(native, reverse, items);
    DirectedRoute(registry, reverse, items);
    IdentityKeyedRoute(Directed(reverse, native), items);
    DirectedIsUnique(registry, reverse, items);
  }

  lemma IdentityKeyedRoute(cmp: (Value, Value) -> Compared, items: seq<Value>)
    requires NeverRaises(cmp, items)
    ensures var st := SortAsking(ByKey(cmp), Zip(items, items));
            st.err == None && Items(st.items) == Sort(LessBy(cmp), items)
  {
    var id := (v: Value) => v;
    KeysOfIdentity(id, items);
    KeyedRoute(cmp, id, items);
    SortAgrees(Through(LessBy(cmp), id), LessBy(cmp), items, items);
  }

  lemma DirectedIsUnique(cmp: (Value, Value) -> Compared, reverse: bool, items: seq<Value>)
    requires OrdersWeakly(cmp, items)
    ensures forall u :: IsStableSort(LessBy(Directed(reverse, cmp)), items, u) <==> u == Expected(cmp, reverse, items)
  {
    var lt := LessBy(Directed(reverse, cmp));
    DirectedRoute(cmp, reverse, items);
    if reverse {
      SwappedIsWeak(LessBy(cmp), items);
      assert forall a, b :: lt(a, b) == Swapped(LessBy(cmp))(a, b);
    }
    assert WeakOrder(lt, items);
    forall u
      ensures IsStableSort(lt, items, u) <==> u == Expected(cmp, reverse, items)
    {
      StableSortIsUnique(lt, items, u);
    }
  }
}
