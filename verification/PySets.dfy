/**
 `set` algebra over keys that can be equal without being the same object: which members survive,
 and which of several equal objects represents them.
 */
module PySets {
  import opened Basics
  import Slices

  /** A key: its equality class (`1 == 1.0 == True`) and the object that stands for it. */
  datatype Key = Key(cls: int, obj: int)

  // ------------------------------------------------------------------- ordered key tables

  predicate Has(s: seq<Key>, cls: int) {
    exists i | 0 <= i < |s| :: s[i].cls == cls
  }

  /** No class occurs twice. */
  ghost predicate Distinct(s: seq<Key>) {
    forall i, j | 0 <= i < j < |s| :: s[i].cls != s[j].cls
  }

  /** `IndexSet::insert`: an equal key already there stays. */
  function Inserted(s: seq<Key>, k: Key): seq<Key> {
    if Has(s, k.cls) then s else s + [k]
  }

  function Extended(s: seq<Key>, more: seq<Key>): seq<Key> {
    if more == [] then s else Inserted(Extended(s, more[..|more| - 1]), more[|more| - 1])
  }

  function Filter(keep: Key -> bool, s: seq<Key>): (r: seq<Key>)
    ensures |r| <= |s|
  {
    if s == [] then []
    else Filter(keep, s[..|s| - 1]) + if keep(s[|s| - 1]) then [s[|s| - 1]] else []
  }

  /** The keys of `s` whose class `t` has, or those whose class it has not. */
  function Within(t: seq<Key>): Key -> bool {
    (k: Key) => Has(t, k.cls)
  }

  function Without(t: seq<Key>): Key -> bool {
    (k: Key) => !Has(t, k.cls)
  }

  lemma {:induction false} FilterMembers(keep: Key -> bool, s: seq<Key>, k: Key)
    ensures k in Filter(keep, s) <==> k in s && keep(k)
  {
    if s != [] {
      FilterMembers(keep, s[..|s| - 1], k);
      assert s == s[..|s| - 1] + [s[|s| - 1]];
    }
  }

  lemma {:induction false} FilterDistinct(keep: Key -> bool, s: seq<Key>)
    requires Distinct(s)
    ensures Distinct(Filter(keep, s))
  {
    if s != [] {
      var init := s[..|s| - 1];
      FilterDistinct(keep, init);
      forall i | 0 <= i < |Filter(keep, init)|
        ensures Filter(keep, init)[i].cls != s[|s| - 1].cls
      {
        FilterMembers(keep, init, Filter(keep, init)[i]);
        var j :| 0 <= j < |init| && init[j] == Filter(keep, init)[i];
        assert s[j] == init[j];
      }
    }
  }

  lemma HasMember(s: seq<Key>, cls: int)
    ensures Has(s, cls) <==> exists k: Key :: k in s && k.cls == cls
  {
    if Has(s, cls) {
      var i :| 0 <= i < |s| && s[i].cls == cls;
      assert s[i] in s;
    }
  }

  lemma FilterHas(keep: Key -> bool, s: seq<Key>, cls: int)
    ensures Has(Filter(keep, s), cls) <==> exists k: Key :: k in s && k.cls == cls && keep(k)
  {
    HasMember(Filter(keep, s), cls);
    if Has(Filter(keep, s), cls) {
      var k :| k in Filter(keep, s) && k.cls == cls;
      FilterMembers(keep, s, k);
    }
    if k: Key :| k in s && k.cls == cls && keep(k) {
      FilterMembers(keep, s, k);
    }
  }

  lemma {:induction false} FilterAll(keep: Key -> bool, s: seq<Key>)
    requires forall k: Key | k in s :: keep(k)
    ensures Filter(keep, s) == s
  {
    if s != [] {
      assert s[|s| - 1] in s;
      FilterAll(keep, s[..|s| - 1]);
    }
  }

  lemma {:induction false} FilterNone(keep: Key -> bool, s: seq<Key>)
    requires forall k: Key | k in s :: !keep(k)
    ensures Filter(keep, s) == []
  {
    if s != [] {
      assert s[|s| - 1] in s;
      FilterNone(keep, s[..|s| - 1]);
    }
  }

  lemma {:induction false} FilterSame(keep: Key -> bool, other: Key -> bool, s: seq<Key>)
    requires forall k: Key | k in s :: keep(k) == other(k)
    ensures Filter(keep, s) == Filter(other, s)
  {
    if s != [] {
      assert s[|s| - 1] in s;
      FilterSame(keep, other, s[..|s| - 1]);
    }
  }

  lemma {:induction false} FilterJoin(keep: Key -> bool, s: seq<Key>, t: seq<Key>)
    ensures Filter(keep, s + t) == Filter(keep, s) + Filter(keep, t)
    decreases |t|
  {
    if t == [] {
      assert s + t == s;
    } else {
      assert (s + t)[..|s + t| - 1] == s + t[..|t| - 1];
      FilterJoin(keep, s, t[..|t| - 1]);
    }
  }

  /** Extending by keys of distinct new classes appends them. */
  lemma {:induction false} ExtendNew(s: seq<Key>, more: seq<Key>)
    requires Distinct(more) && forall k: Key | k in more :: !Has(s, k.cls)
    ensures Extended(s, more) == s + more
  {
    if more != [] {
      var init, last := more[..|more| - 1], more[|more| - 1];
      ExtendNew(s, init);
      assert last in more;
      assert !Has(s + init, last.cls);
      assert s + init + [last] == s + more;
    } else {
      assert s + more == s;
    }
  }

  lemma {:induction false} ExtendDistinct(s: seq<Key>, more: seq<Key>)
    requires Distinct(s)
    ensures Distinct(Extended(s, more))
  {
    if more != [] {
      ExtendDistinct(s, more[..|more| - 1]);
    }
  }

  // ---------------------------------------------------------------------------- the table

  class Table {
    var entries: seq<Key>

    ghost predicate Valid()
      reads this
    {
      Distinct(entries)
    }

    constructor (entries: seq<Key>)
      requires Distinct(entries)
      ensures Valid() && this.entries == entries
    {
      this.entries := entries;
    }

    method Insert(k: Key)
      requires Valid()
      modifies this
      ensures Valid() && entries == Inserted(old(entries), k)
    {
      if !Has(entries, k.cls) {
        entries := entries + [k];
      }
    }

    method Extend(more: seq<Key>)
      requires Valid()
      modifies this
      ensures Valid() && entries == Extended(old(entries), more)
    {
      for i := 0 to |more|
        invariant Valid() && entries == Extended(old(entries), more[..i])
      {
        assert more[..i + 1][..i] == more[..i];
        Insert(more[i]);
      }
      assert more[..|more|] == more;
    }

    /** `PySet::retain`: note the positions to remove, then compact in one pass. */
    method Retain(keep: Key -> bool)
      requires Valid()
      modifies this
      ensures Valid() && entries == Filter(keep, old(entries))
    {
      FilterDistinct(keep, entries);
      var removals := PositionsToRemove(keep);
      if removals == [] {
        FilterAll(keep, entries);
        return;
      }
      var kept: seq<Key> := [];
      var next := 0;
      for i := 0 to |entries|
        invariant entries == old(entries)
        invariant 0 <= next <= |removals|
        invariant forall j | 0 <= j < next :: removals[j] < i
        invariant forall j | next <= j < |removals| :: removals[j] >= i
        invariant kept == Filter(keep, entries[..i])
      {
        assert entries[..i + 1][..i] == entries[..i];
        var remove := next < |removals| && removals[next] == i;
        assert remove <==> !keep(entries[i]);
        if remove {
          next := next + 1;
        } else {
          kept := kept + [entries[i]];
        }
      }
      assert entries[..|entries|] == entries;
      entries := kept;
    }

    method PositionsToRemove(keep: Key -> bool) returns (removals: seq<nat>)
      ensures forall j | 0 <= j < |removals| :: removals[j] < |entries| && !keep(entries[removals[j]])
      ensures forall j, k | 0 <= j < k < |removals| :: removals[j] < removals[k]
      ensures forall p | 0 <= p < |entries| && !keep(entries[p]) :: p in removals
    {
      removals := [];
      for i := 0 to |entries|
        invariant forall j | 0 <= j < |removals| :: removals[j] < i && !keep(entries[removals[j]])
        invariant forall j, k | 0 <= j < k < |removals| :: removals[j] < removals[k]
        invariant forall p | 0 <= p < i && !keep(entries[p]) :: p in removals
      {
        if !keep(entries[i]) {
          removals := removals + [i];
        }
      }
    }

    /** `PySet::shift_remove`. */
    method ShiftRemove(k: Key) returns (found: bool)
      requires Valid()
      modifies this
      ensures Valid() && found == Has(old(entries), k.cls)
      ensures entries == Filter(Without([k]), old(entries))
    {
      FilterDistinct(Without([k]), entries);
      found := false;
      for i := 0 to |entries|
        invariant entries == old(entries) && !found
        invariant forall j | 0 <= j < i :: entries[j].cls != k.cls
      {
        if entries[i].cls == k.cls {
          RemoveOne(entries, i, k);
          entries := entries[..i] + entries[i + 1..];
          return true;
        }
      }
      FilterAll(Without([k]), entries);
    }

    method Clear()
      modifies this
      ensures Valid() && entries == []
    {
      entries := [];
    }
  }

  lemma RemoveOne(s: seq<Key>, i: nat, k: Key)
    requires Distinct(s) && i < |s| && s[i].cls == k.cls
    ensures Filter(Without([k]), s) == s[..i] + s[i + 1..]
  {
    var keep := Without([k]);
    var before, after := s[..i], s[i + 1..];
    assert s == before + [s[i]] + after;
    assert [k][0].cls == s[i].cls;
    FilterDrops(keep, before, s[i], after);
    OthersDiffer(s, i, k, before, after);
    FilterAll(keep, before);
    FilterAll(keep, after);
  }

  lemma FilterDrops(keep: Key -> bool, before: seq<Key>, k: Key, after: seq<Key>)
    requires !keep(k)
    ensures Filter(keep, before + [k] + after) == Filter(keep, before) + Filter(keep, after)
  {
    FilterJoin(keep, before + [k], after);
    assert (before + [k])[..|before|] == before;
  }

  lemma OthersDiffer(s: seq<Key>, i: nat, k: Key, before: seq<Key>, after: seq<Key>)
    requires Distinct(s) && i < |s| && s[i].cls == k.cls && before == s[..i] && after == s[i + 1..]
    ensures forall x: Key | x in before :: Without([k])(x)
    ensures forall x: Key | x in after :: Without([k])(x)
  {
  }

  // ------------------------------------------------------------------------- intersection

  /** `intersect_snapshot` on owned tables: the smaller side is scanned, the argument on ties. */
  function IntersectSnapshot(current: seq<Key>, other: seq<Key>, otherIsSet: bool): seq<Key> {
    if otherIsSet && |other| > |current| then Filter(Within(other), current)
    else Filter(Within(current), other)
  }

  /** `intersect_first`: the same, against a receiver that is still borrowed. */
  function IntersectFirst(current: seq<Key>, other: seq<Key>, otherIsSet: bool): seq<Key> {
    if otherIsSet && |other| > |current| then IntersectSnapshot(current, other, otherIsSet)
    else Filter(Within(current), other)
  }

  const USIZE_MAX: int := 0xffff_ffff_ffff_ffff

  /** `intersect_in_place`: keep the receiver's own, re-seed its buffer, or move the operand in. */
  method IntersectInPlace(items: Table, other: seq<Key>, otherIsSet: bool)
    requires items.Valid() && Distinct(other)
    modifies items
    ensures items.Valid()
    ensures items.entries == IntersectSnapshot(old(items.entries), other, otherIsSet)
    ensures items.entries == IntersectFirst(old(items.entries), other, otherIsSet)
  {
    if otherIsSet && |other| > |items.entries| {
      items.Retain(Within(other));
      return;
    }
    var out := new Table(other);
    out.Retain(Within(items.entries));
    var quadruple := if 4 * |out.entries| > USIZE_MAX then USIZE_MAX else 4 * |out.entries|;
    if quadruple <= |items.entries| {
      items.Clear();
      ExtendNew([], out.entries);
      items.Extend(out.entries);
    } else {
      items.entries := out.entries;
    }
  }

  /**
   The result holds exactly the classes both sides have, its objects all come from the scanned side (the
   receiver's own only when it is smaller than another set), and it keeps that side's order.
   */
  lemma IntersectionMembers(current: seq<Key>, other: seq<Key>, otherIsSet: bool)
    ensures var r := IntersectSnapshot(current, other, otherIsSet);
            var scanned := if otherIsSet && |current| < |other| then current else other;
            && (forall cls :: Has(r, cls) <==> Has(current, cls) && Has(other, cls))
            && (forall k: Key :: k in r <==> k in scanned && Has(current, k.cls) && Has(other, k.cls))
            && r == Filter((k: Key) => Has(current, k.cls) && Has(other, k.cls), scanned)
  {
    var r := IntersectSnapshot(current, other, otherIsSet);
    var scanned := if otherIsSet && |current| < |other| then current else other;
    var both := (k: Key) => Has(current, k.cls) && Has(other, k.cls);
    forall k: Key | k in scanned
      ensures Has(scanned, k.cls)
    {
      HasMember(scanned, k.cls);
    }
    FilterSame(both, if otherIsSet && |other| > |current| then Within(other) else Within(current), scanned);
    forall k: Key
      ensures k in r <==> k in scanned && both(k)
    {
      FilterMembers(both, scanned, k);
    }
    forall cls
      ensures Has(r, cls) <==> Has(current, cls) && Has(other, cls)
    {
      FilterHas(both, scanned, cls);
      HasMember(scanned, cls);
    }
  }

  // --------------------------------------------------------------- arguments and snapshots

  /** An argument of a set method: the receiver itself, another set, an iterable, or neither. */
  datatype Arg = Receiver | Concrete(table: seq<Key>) | Iterable(keys: seq<Key>) | Bad(error: int)
  {
    predicate IsConcreteSet() {
      Receiver? || Concrete?
    }
  }

  type Collected<T> = Result<T, int>

  /** `cpython_merged_copy`: the same keys in some order. */
  ghost predicate Reorders(copy: seq<Key> -> seq<Key>) {
    forall s: seq<Key> :: multiset(copy(s)) == multiset(s)
  }

  /** The members of a range argument: the walk stops where the next member would not fit a word. */
  method RangeMembers(start: Word, stop: Word, step: Word) returns (members: seq<int>)
    ensures members == Slices.Walk(start, stop, step)
  {
    members := [];
    if step != 0 {
      var current := start;
      while !((step > 0 && current >= stop) || (step < 0 && current <= stop))
        invariant members + Slices.Walk(current, stop, step) == Slices.Walk(start, stop, step)
        decreases if step > 0 then stop - current else current - stop
      {
        ghost var before := members;
        members := members + [current];
        assert before + ([current] + Slices.Walk(current + step, stop, step)) == members + Slices.Walk(current + step, stop, step);
        if current + step < I64_MIN || current + step > I64_MAX {
          assert Slices.Walk(current + step, stop, step) == [];
          break;
        }
        current := current + step;
      }
    }
  }

  /** `snapshot_iterable`. */
  function Snapshot(receiver: seq<Key>, arg: Arg, copy: seq<Key> -> seq<Key>): Collected<seq<Key>> {
    match arg
    case Receiver => Ok(receiver)
    case Concrete(table) => Ok(copy(table))
    case Iterable(keys) => Ok(Extended([], keys))
    case Bad(error) => Err(error)
  }

  /** Concrete set arguments are tables. */
  ghost predicate ValidArgs(args: seq<Arg>) {
    forall i | 0 <= i < |args| && args[i].Concrete? :: Distinct(args[i].table)
  }

  lemma ReorderedDistinct(s: seq<Key>, t: seq<Key>)
    requires Distinct(s) && multiset(t) == multiset(s)
    ensures Distinct(t)
  {
    forall i, j | 0 <= i < j < |t|
      ensures t[i].cls != t[j].cls
    {
      if t[i].cls == t[j].cls {
        var x, y := t[i], t[j];
        assert x in multiset(t) && y in multiset(t);
        var p :| 0 <= p < |s| && s[p] == x;
        var q :| 0 <= q < |s| && s[q] == y;
        assert p == q;
        TwiceInMultiset(t, i, j);
        OnceInMultiset(s, p);
      }
    }
  }

  lemma TwiceInMultiset(t: seq<Key>, i: nat, j: nat)
    requires i < j < |t| && t[i] == t[j]
    ensures multiset(t)[t[i]] >= 2
  {
    assert t == t[..i] + [t[i]] + t[i + 1..j] + [t[j]] + t[j + 1..];
  }

  lemma OnceInMultiset(s: seq<Key>, p: nat)
    requires Distinct(s) && p < |s|
    ensures multiset(s)[s[p]] == 1
  {
    assert s == s[..p] + [s[p]] + s[p + 1..];
    assert s[p] !in s[..p] && s[p] !in s[p + 1..];
  }

  lemma SnapshotDistinct(receiver: seq<Key>, arg: Arg, copy: seq<Key> -> seq<Key>)
    requires Reorders(copy) && Distinct(receiver) && (arg.Concrete? ==> Distinct(arg.table))
    ensures Snapshot(receiver, arg, copy).Ok? ==> Distinct(Snapshot(receiver, arg, copy).value)
  {
    match arg
    case Concrete(table) => ReorderedDistinct(table, copy(table));
    case Iterable(keys) => ExtendDistinct([], keys);
    case _ =>
  }

  /** `set.intersection`: collect every argument, then meet them from left to right. */
  function Intersection(items: seq<Key>, args: seq<Arg>, copy: seq<Key> -> seq<Key>): Collected<seq<Key>> {
    match CollectAll(items, args, copy)
    case Err(error) => Err(error)
    case Ok(snapshots) => Ok(MeetAll(items, args, snapshots, copy))
  }

  /** `collect_iterables`: the first bad argument, or a snapshot of each. */
  function CollectAll(items: seq<Key>, args: seq<Arg>, copy: seq<Key> -> seq<Key>): (r: Collected<seq<seq<Key>>>)
    ensures r.Ok? ==> |r.value| == |args|
  {
    if args == [] then Ok([])
    else
      match CollectAll(items, args[..|args| - 1], copy)
      case Err(error) => Err(error)
      case Ok(snapshots) =>
        match Snapshot(items, args[|args| - 1], copy)
        case Err(error) => Err(error)
        case Ok(snapshot) => Ok(snapshots + [snapshot])
  }

  function MeetAll(items: seq<Key>, args: seq<Arg>, snapshots: seq<seq<Key>>, copy: seq<Key> -> seq<Key>): seq<Key>
    requires |snapshots| == |args|
  {
    if args == [] then copy(items)
    else if |args| == 1 then IntersectFirst(items, snapshots[0], args[0].IsConcreteSet())
    else
      var n := |args| - 1;
      IntersectSnapshot(MeetAll(items, args[..n], snapshots[..n], copy), snapshots[n], args[n].IsConcreteSet())
  }

  /** What a loop of in-place steps has done so far: the table, and the error that stopped it. */
  datatype Progress = Progress(entries: seq<Key>, err: Option<int>)

  /** `intersection_update` argument by argument; an error keeps the effect of those before it. */
  function IntersectionUpdated(items: seq<Key>, args: seq<Arg>, copy: seq<Key> -> seq<Key>): Progress {
    if args == [] then Progress(items, None)
    else
      var n := |args| - 1;
      var before := IntersectionUpdated(items, args[..n], copy);
      if before.err.Some? then before
      else
        match Snapshot(before.entries, args[n], copy)
        case Err(error) => Progress(before.entries, Some(error))
        case Ok(snapshot) => Progress(IntersectSnapshot(before.entries, snapshot, args[n].IsConcreteSet()), None)
  }

  /** `difference_update`, in the same way. */
  function DifferenceUpdated(items: seq<Key>, args: seq<Arg>, copy: seq<Key> -> seq<Key>): Progress {
    if args == [] then Progress(items, None)
    else
      var n := |args| - 1;
      var before := DifferenceUpdated(items, args[..n], copy);
      if before.err.Some? then before
      else
        match Snapshot(before.entries, args[n], copy)
        case Err(error) => Progress(before.entries, Some(error))
        case Ok(snapshot) => Progress(Filter(Without(snapshot), before.entries), None)
  }

  /** `set.symmetric_difference` and `symmetric_difference_update`. */
  function SymmetricDifference(items: seq<Key>, other: seq<Key>): seq<Key> {
    Filter(Without(other), items) + Filter(Without(items), other)
  }

  /** `subtract_snapshot`: nothing, one lookup, or one pass. */
  method SubtractSnapshot(items: Table, snapshot: seq<Key>)
    requires items.Valid()
    modifies items
    ensures items.Valid() && items.entries == Filter(Without(snapshot), old(items.entries))
  {
    if |snapshot| == 0 {
      FilterAll(Without(snapshot), items.entries);
    } else if |snapshot| == 1 {
      assert snapshot == [snapshot[0]];
      var _ := items.ShiftRemove(snapshot[0]);
    } else {
      items.Retain(Without(snapshot));
    }
  }

  // ------------------------------------------------------------------------ the set object

  class SetObject {
    const table: Table
    const copy: seq<Key> -> seq<Key>

    ghost predicate Valid()
      reads this, table
    {
      table.Valid() && Reorders(copy)
    }

    constructor (table: Table, copy: seq<Key> -> seq<Key>)
      requires table.Valid() && Reorders(copy)
      ensures Valid() && this.table == table && this.copy == copy
    {
      this.table := table;
      this.copy := copy;
    }

    /** The `intersection_update` arm. */
    method IntersectionUpdate(args: seq<Arg>) returns (err: Option<int>)
      requires Valid() && ValidArgs(args)
      modifies table
      ensures Valid() && Progress(table.entries, err) == IntersectionUpdated(old(table.entries), args, copy)
    {
      for i := 0 to |args|
        invariant Valid() && Progress(table.entries, None) == IntersectionUpdated(old(table.entries), args[..i], copy)
      {
        assert args[..i + 1][..i] == args[..i];
        match Snapshot(table.entries, args[i], copy)
        case Err(error) =>
          UpdateStops(old(table.entries), args, i, copy);
          return Some(error);
        case Ok(snapshot) =>
          SnapshotDistinct(table.entries, args[i], copy);
          IntersectInPlace(table, snapshot, args[i].IsConcreteSet());
      }
      assert args[..|args|] == args;
      return None;
    }

    /** The `difference_update` arm. */
    method DifferenceUpdate(args: seq<Arg>) returns (err: Option<int>)
      requires Valid() && ValidArgs(args)
      modifies table
      ensures Valid() && Progress(table.entries, err) == DifferenceUpdated(old(table.entries), args, copy)
    {
      for i := 0 to |args|
        invariant Valid() && Progress(table.entries, None) == DifferenceUpdated(old(table.entries), args[..i], copy)
      {
        assert args[..i + 1][..i] == args[..i];
        match Snapshot(table.entries, args[i], copy)
        case Err(error) =>
          DifferenceStops(old(table.entries), args, i, copy);
          return Some(error);
        case Ok(snapshot) =>
          SubtractSnapshot(table, snapshot);
      }
      assert args[..|args|] == args;
      return None;
    }

    /** The `symmetric_difference_update` arm. */
    method SymmetricDifferenceUpdate(arg: Arg) returns (err: Option<int>)
      requires Valid() && ValidArgs([arg])
      modifies table
      ensures Valid()
      ensures match Snapshot(old(table.entries), arg, copy)
              case Err(error) => err == Some(error) && table.entries == old(table.entries)
              case Ok(other) => err == None && table.entries == SymmetricDifference(old(table.entries), other)
    {
      assert arg.Concrete? ==> Distinct([arg][0].table);
      SnapshotDistinct(table.entries, arg, copy);
      match Snapshot(table.entries, arg, copy)
      case Err(error) =>
        return Some(error);
      case Ok(other) =>
        ghost var items := table.entries;
        var toAdd: seq<Key> := [];
        for i := 0 to |other|
          invariant table.entries == items && toAdd == Filter(Without(items), other[..i])
        {
          assert other[..i + 1][..i] == other[..i];
          if !Has(table.entries, other[i].cls) {
            toAdd := toAdd + [other[i]];
          }
        }
        assert other[..|other|] == other;
        table.Retain(Without(other));
        NewcomersAreNew(items, other);
        table.Extend(toAdd);
        return None;
    }

    /** `set.symmetric_difference`, growing a fresh table. */
    method SymmetricDifferenceOf(arg: Arg) returns (r: Collected<seq<Key>>)
      requires Valid() && ValidArgs([arg])
      ensures match Snapshot(table.entries, arg, copy)
              case Err(error) => r == Err(error)
              case Ok(other) => r == Ok(SymmetricDifference(table.entries, other))
    {
      assert arg.Concrete? ==> Distinct([arg][0].table);
      SnapshotDistinct(table.entries, arg, copy);
      match Snapshot(table.entries, arg, copy)
      case Err(error) =>
        return Err(error);
      case Ok(other) =>
        var entries := GrowSymmetricDifference(table.entries, other);
        return Ok(entries);
    }

    /** `collect_iterables`: snapshot every argument before anything is read from the receiver. */
    method Collect(args: seq<Arg>) returns (r: Collected<seq<seq<Key>>>)
      requires Valid() && ValidArgs(args)
      ensures r == CollectAll(table.entries, args, copy)
      ensures r.Ok? ==> |r.value| == |args| && forall i | 0 <= i < |args| :: Distinct(r.value[i])
    {
      var snapshots: seq<seq<Key>> := [];
      for i := 0 to |args|
        invariant |snapshots| == i && Ok(snapshots) == CollectAll(table.entries, args[..i], copy)
        invariant forall j | 0 <= j < i :: Distinct(snapshots[j])
      {
        assert args[..i + 1][..i] == args[..i];
        SnapshotDistinct(table.entries, args[i], copy);
        match Snapshot(table.entries, args[i], copy)
        case Err(error) =>
          CollectStops(table.entries, args, i, copy);
          return Err(error);
        case Ok(snapshot) =>
          snapshots := snapshots + [snapshot];
      }
      assert args[..|args|] == args;
      return Ok(snapshots);
    }

    /** `set.intersection`. */
    method IntersectionOf(args: seq<Arg>) returns (r: Collected<seq<Key>>)
      requires Valid() && ValidArgs(args)
      ensures r == Intersection(table.entries, args, copy)
    {
      var collected := Collect(args);
      if collected.Err? {
        return Err(collected.error);
      }
      var snapshots := collected.value;
      if args == [] {
        return Ok(copy(table.entries));
      }
      var result := IntersectFirst(table.entries, snapshots[0], args[0].IsConcreteSet());
      assert args[..1] == [args[0]] && snapshots[..1] == [snapshots[0]];
      for i := 1 to |args|
        invariant result == MeetAll(table.entries, args[..i], snapshots[..i], copy)
      {
        assert args[..i + 1][..i] == args[..i] && snapshots[..i + 1][..i] == snapshots[..i];
        result := IntersectSnapshot(result, snapshots[i], args[i].IsConcreteSet());
      }
      assert args[..|args|] == args && snapshots[..|args|] == snapshots;
      return Ok(result);
    }

    /** `set.difference`. */
    method DifferenceOf(args: seq<Arg>) returns (r: Collected<seq<Key>>)
      requires Valid() && ValidArgs(args)
      ensures match CollectAll(table.entries, args, copy)
              case Err(error) => r == Err(error)
              case Ok(snapshots) => r == Ok(SubtractAll(copy(table.entries), snapshots))
    {
      var collected := Collect(args);
      if collected.Err? {
        return Err(collected.error);
      }
      var snapshots := collected.value;
      ReorderedDistinct(table.entries, copy(table.entries));
      var result := new Table(copy(table.entries));
      for i := 0 to |snapshots|
        invariant result.Valid() && fresh(result)
        invariant result.entries == SubtractAll(copy(table.entries), snapshots[..i])
      {
        assert snapshots[..i + 1][..i] == snapshots[..i];
        SubtractSnapshot(result, snapshots[i]);
      }
      assert snapshots[..|snapshots|] == snapshots;
      return Ok(result.entries);
    }

    /** `set.union`: every operand is collected, then each is merged into a copy of the receiver. */
    method UnionOf(args: seq<Arg>, slots: seq<Key> -> seq<Key>) returns (r: Collected<seq<Key>>)
      requires Valid() && ValidArgs(args) && Reorders(slots)
      ensures r == Union(table.entries, args, copy, slots)
    {
      for i := 0 to |args|
        invariant forall j | 0 <= j < i :: !args[j].Bad?
        invariant FirstError(args) == FirstError(args[i..])
      {
        if args[i].Bad? {
          return Err(args[i].error);
        }
      }
      ReorderedDistinct(table.entries, copy(table.entries));
      var result := new Table(copy(table.entries));
      for i := 0 to |args|
        invariant result.Valid() && fresh(result)
        invariant result.entries == UniteAll(copy(table.entries), args[..i], copy, slots)
      {
        assert args[..i + 1][..i] == args[..i];
        match args[i]
        case Receiver =>
        case Bad(_) =>
        case Iterable(keys) =>
          result.Extend(keys);
        case Concrete(source) =>
          if result.entries == [] {
            ReorderedDistinct(source, copy(source));
            result := new Table(copy(source));
          } else {
            result.Extend(slots(source));
          }
      }
      assert args[..|args|] == args;
      return Ok(result.entries);
    }

    /** The `update` arm. */
    method Update(args: seq<Arg>) returns (err: Option<int>)
      requires Valid() && ValidArgs(args)
      modifies table
      ensures Valid() && Progress(table.entries, err) == Updated(old(table.entries), args, copy)
    {
      for i := 0 to |args|
        invariant Valid() && Progress(table.entries, None) == Updated(old(table.entries), args[..i], copy)
      {
        assert args[..i + 1][..i] == args[..i];
        match Snapshot(table.entries, args[i], copy)
        case Err(error) =>
          UpdatedStops(old(table.entries), args, i, copy);
          return Some(error);
        case Ok(snapshot) =>
          table.Extend(snapshot);
      }
      assert args[..|args|] == args;
      return None;
    }
  }

  /** `update` argument by argument. */
  function Updated(items: seq<Key>, args: seq<Arg>, copy: seq<Key> -> seq<Key>): Progress {
    if args == [] then Progress(items, None)
    else
      var n := |args| - 1;
      var before := Updated(items, args[..n], copy);
      if before.err.Some? then before
      else
        match Snapshot(before.entries, args[n], copy)
        case Err(error) => Progress(before.entries, Some(error))
        case Ok(snapshot) => Progress(Extended(before.entries, snapshot), None)
  }

  function SubtractAll(items: seq<Key>, snapshots: seq<seq<Key>>): seq<Key> {
    if snapshots == [] then items
    else
      var n := |snapshots| - 1;
      Filter(Without(snapshots[n]), SubtractAll(items, snapshots[..n]))
  }

  lemma {:induction false} CollectStops(items: seq<Key>, args: seq<Arg>, i: nat, copy: seq<Key> -> seq<Key>)
    requires i < |args| && CollectAll(items, args[..i], copy).Ok? && Snapshot(items, args[i], copy).Err?
    ensures CollectAll(items, args, copy) == Err(Snapshot(items, args[i], copy).error)
    decreases |args|
  {
    var init := args[..|args| - 1];
    if i < |init| {
      assert init[..i] == args[..i] && init[i] == args[i];
      CollectStops(items, init, i, copy);
    }
  }

  lemma {:induction false} UpdatedStops(items: seq<Key>, args: seq<Arg>, i: nat, copy: seq<Key> -> seq<Key>)
    requires i < |args|
    requires Updated(items, args[..i], copy).err == None
    requires Snapshot(Updated(items, args[..i], copy).entries, args[i], copy).Err?
    ensures var before := Updated(items, args[..i], copy).entries;
            Updated(items, args, copy) == Progress(before, Some(Snapshot(before, args[i], copy).error))
    decreases |args|
  {
    var init := args[..|args| - 1];
    if i < |init| {
      assert init[..i] == args[..i] && init[i] == args[i];
      UpdatedStops(items, init, i, copy);
    }
  }

  method GrowSymmetricDifference(items: seq<Key>, other: seq<Key>) returns (entries: seq<Key>)
    requires Distinct(items) && Distinct(other)
    ensures entries == SymmetricDifference(items, other)
  {
    var result := new Table([]);
    InsertMissing(result, items, other);
    FilterDistinct(Without(other), items);
    ExtendNew([], Filter(Without(other), items));
    assert result.entries == Filter(Without(other), items);
    InsertMissing(result, other, items);
    NewcomersAreNew(items, other);
    entries := result.entries;
  }

  /** Insert every key of `source` whose class `except` lacks. */
  method InsertMissing(result: Table, source: seq<Key>, except: seq<Key>)
    requires result.Valid()
    modifies result
    ensures result.Valid() && result.entries == Extended(old(result.entries), Filter(Without(except), source))
  {
    for i := 0 to |source|
      invariant result.Valid()
      invariant result.entries == Extended(old(result.entries), Filter(Without(except), source[..i]))
    {
      ghost var sofar := Filter(Without(except), source[..i]);
      assert source[..i + 1][..i] == source[..i];
      if !Has(except, source[i].cls) {
        assert Filter(Without(except), source[..i + 1]) == sofar + [source[i]];
        ExtendedSnoc(old(result.entries), sofar, source[i]);
        result.Insert(source[i]);
      } else {
        assert Filter(Without(except), source[..i + 1]) == sofar;
      }
    }
    assert source[..|source|] == source;
  }

  lemma ExtendedSnoc(s: seq<Key>, more: seq<Key>, k: Key)
    ensures Extended(s, more + [k]) == Inserted(Extended(s, more), k)
  {
    assert (more + [k])[..|more|] == more;
  }

  /** The keys of the other side that are new stay new after the common ones are gone. */
  lemma NewcomersAreNew(items: seq<Key>, other: seq<Key>)
    requires Distinct(other)
    ensures Distinct(Filter(Without(items), other))
    ensures forall k: Key | k in Filter(Without(items), other) :: !Has(Filter(Without(other), items), k.cls)
    ensures Extended(Filter(Without(other), items), Filter(Without(items), other)) == SymmetricDifference(items, other)
  {
    FilterDistinct(Without(items), other);
    forall k: Key | k in Filter(Without(items), other)
      ensures !Has(Filter(Without(other), items), k.cls)
    {
      FilterMembers(Without(items), other, k);
      FilterHas(Without(other), items, k.cls);
      HasMember(items, k.cls);
    }
    ExtendNew(Filter(Without(other), items), Filter(Without(items), other));
  }

  lemma {:induction false} UpdateStops(items: seq<Key>, args: seq<Arg>, i: nat, copy: seq<Key> -> seq<Key>)
    requires i < |args|
    requires IntersectionUpdated(items, args[..i], copy).err == None
    requires Snapshot(IntersectionUpdated(items, args[..i], copy).entries, args[i], copy).Err?
    ensures var before := IntersectionUpdated(items, args[..i], copy).entries;
            IntersectionUpdated(items, args, copy) == Progress(before, Some(Snapshot(before, args[i], copy).error))
    decreases |args|
  {
    var init := args[..|args| - 1];
    if i < |init| {
      assert init[..i] == args[..i] && init[i] == args[i];
      UpdateStops(items, init, i, copy);
    }
  }

  lemma {:induction false} DifferenceStops(items: seq<Key>, args: seq<Arg>, i: nat, copy: seq<Key> -> seq<Key>)
    requires i < |args|
    requires DifferenceUpdated(items, args[..i], copy).err == None
    requires Snapshot(DifferenceUpdated(items, args[..i], copy).entries, args[i], copy).Err?
    ensures var before := DifferenceUpdated(items, args[..i], copy).entries;
            DifferenceUpdated(items, args, copy) == Progress(before, Some(Snapshot(before, args[i], copy).error))
    decreases |args|
  {
    var init := args[..|args| - 1];
    if i < |init| {
      assert init[..i] == args[..i] && init[i] == args[i];
      DifferenceStops(items, init, i, copy);
    }
  }

  // -------------------------------------------------------------- the forms compared

  /** No argument after the first is the receiver, and none is bad. */
  ghost predicate Separate(args: seq<Arg>) {
    forall i | 0 <= i < |args| :: !args[i].Bad? && (args[i].Receiver? ==> i == 0)
  }

  lemma {:induction false} CollectsAll(items: seq<Key>, args: seq<Arg>, copy: seq<Key> -> seq<Key>)
    requires forall i | 0 <= i < |args| :: !args[i].Bad?
    ensures CollectAll(items, args, copy).Ok?
    ensures forall i | 0 <= i < |args| :: Ok(CollectAll(items, args, copy).value[i]) == Snapshot(items, args[i], copy)
  {
    if args != [] {
      CollectsAll(items, args[..|args| - 1], copy);
    }
  }

  /**
   `s.intersection(*args)` is what `s.intersection_update(*args)` leaves, object for object, for any
   one or more arguments of which none after the first is `s` itself.
   */
  lemma {:induction false} IntersectionIsUpdate(items: seq<Key>, args: seq<Arg>, copy: seq<Key> -> seq<Key>)
    requires args != [] && Separate(args)
    ensures Intersection(items, args, copy).Ok?
    ensures IntersectionUpdated(items, args, copy) == Progress(Intersection(items, args, copy).value, None)
    decreases |args|
  {
    CollectsAll(items, args, copy);
    var n := |args| - 1;
    var snapshots := CollectAll(items, args, copy).value;
    if n > 0 {
      var init := args[..n];
      CollectsAll(items, init, copy);
      assert CollectAll(items, init, copy).value == snapshots[..n];
      IntersectionIsUpdate(items, init, copy);
      assert !args[n].Receiver?;
    } else {
      assert IntersectionUpdated(items, args[..0], copy) == Progress(items, None);
    }
  }

  /** With the receiver again among the later arguments the surviving objects can differ. */
  lemma AliasExample(copy: seq<Key> -> seq<Key>, one: Key, oneFloat: Key)
    requires one.cls == oneFloat.cls
    ensures var args := [Iterable([oneFloat]), Receiver];
            && Intersection([one], args, copy) == Ok([one])
            && IntersectionUpdated([one], args, copy) == Progress([oneFloat], None)
  {
    var args := [Iterable([oneFloat]), Receiver];
    AliasIntersection(copy, one, oneFloat, args);
    AliasUpdate(copy, one, oneFloat, args);
  }

  /** Up to equality the two always agree, whatever the arguments: only the objects can differ. */
  lemma {:induction false} IntersectionClasses(items: seq<Key>, args: seq<Arg>, copy: seq<Key> -> seq<Key>, cls: int)
    requires args != [] && forall i | 0 <= i < |args| :: !args[i].Bad?
    ensures Intersection(items, args, copy).Ok? && IntersectionUpdated(items, args, copy).err == None
    ensures Has(Intersection(items, args, copy).value, cls) <==> Has(IntersectionUpdated(items, args, copy).entries, cls)
    ensures Has(Intersection(items, args, copy).value, cls) ==> Has(items, cls)
    decreases |args|
  {
    CollectsAll(items, args, copy);
    var n := |args| - 1;
    var snapshots := CollectAll(items, args, copy).value;
    var isSet := args[n].IsConcreteSet();
    if n > 0 {
      var init := args[..n];
      CollectsAll(items, init, copy);
      assert CollectAll(items, init, copy).value == snapshots[..n];
      IntersectionClasses(items, init, copy, cls);
      var r, u := MeetAll(items, init, snapshots[..n], copy), IntersectionUpdated(items, init, copy).entries;
      IntersectionMembers(r, snapshots[n], isSet);
      IntersectionMembers(u, Snapshot(u, args[n], copy).value, isSet);
    } else {
      assert IntersectionUpdated(items, args[..0], copy) == Progress(items, None);
      IntersectionMembers(items, snapshots[0], isSet);
    }
  }

  lemma AliasIntersection(copy: seq<Key> -> seq<Key>, one: Key, oneFloat: Key, args: seq<Arg>)
    requires one.cls == oneFloat.cls && args == [Iterable([oneFloat]), Receiver]
    ensures Intersection([one], args, copy) == Ok([one])
  {
    CollectsAll([one], args, copy);
    SingleSnapshot(oneFloat);
    var snapshots := CollectAll([one], args, copy).value;
    assert Ok(snapshots[0]) == Snapshot([one], args[0], copy) && Ok(snapshots[1]) == Snapshot([one], args[1], copy);
    MeetSingle(one, oneFloat);
    MeetSingle(oneFloat, one);
    assert |args[..1]| == 1 && args[..1][0] == args[0] && snapshots[..1][0] == [oneFloat];
    assert MeetAll([one], args[..1], snapshots[..1], copy) == [oneFloat];
    assert snapshots[1] == [one];
    assert MeetAll([one], args, snapshots, copy) == [one];
  }

  lemma AliasUpdate(copy: seq<Key> -> seq<Key>, one: Key, oneFloat: Key, args: seq<Arg>)
    requires one.cls == oneFloat.cls && args == [Iterable([oneFloat]), Receiver]
    ensures IntersectionUpdated([one], args, copy) == Progress([oneFloat], None)
  {
    SingleSnapshot(oneFloat);
    MeetSingle(one, oneFloat);
    MeetSingle(oneFloat, oneFloat);
    var first := args[..1];
    assert |first| == 1 && first[0] == args[0] && first[..0] == [];
    assert IntersectionUpdated([one], first, copy) == Progress([oneFloat], None);
  }

  lemma SingleSnapshot(k: Key)
    ensures Extended([], [k]) == [k]
  {
    assert [k][..0] == [];
  }

  lemma MeetSingle(a: Key, b: Key)
    requires a.cls == b.cls
    ensures forall isSet :: IntersectSnapshot([a], [b], isSet) == [b] && IntersectFirst([a], [b], isSet) == [b]
  {
    assert [a][0].cls == b.cls;
    FilterAll(Within([a]), [b]);
  }

  /** Bad arguments: `intersection` reports the first one, and so does the update that stops at it. */
  lemma {:induction false} SameError(items: seq<Key>, args: seq<Arg>, copy: seq<Key> -> seq<Key>)
    ensures Intersection(items, args, copy).Err? <==> IntersectionUpdated(items, args, copy).err.Some?
    ensures Intersection(items, args, copy).Err? ==>
              IntersectionUpdated(items, args, copy).err == Some(Intersection(items, args, copy).error)
    decreases |args|
  {
    if args != [] {
      SameError(items, args[..|args| - 1], copy);
    }
  }

  predicate NoneBad(args: seq<Arg>) {
    forall i | 0 <= i < |args| :: !args[i].Bad?
  }

  /** No argument has the class, and none is the receiver itself. */
  ghost predicate Lacked(args: seq<Arg>, copy: seq<Key> -> seq<Key>, cls: int)
    requires NoneBad(args)
  {
    forall i | 0 <= i < |args| :: !args[i].Receiver? && !Has(Snapshot([], args[i], copy).value, cls)
  }

  lemma LackedSplit(args: seq<Arg>, copy: seq<Key> -> seq<Key>, cls: int)
    requires args != [] && NoneBad(args)
    ensures var n := |args| - 1;
            && NoneBad(args[..n])
            && (Lacked(args, copy, cls)
                <==> Lacked(args[..n], copy, cls) && !args[n].Receiver? && !Has(Snapshot([], args[n], copy).value, cls))
  {
    var n := |args| - 1;
    var init := args[..n];
    assert forall i | 0 <= i < n :: init[i] == args[i];
  }

  /** The keys left by `difference_update` are those of the receiver whose class no argument has. */
  lemma {:induction false} DifferenceMembers(items: seq<Key>, args: seq<Arg>, copy: seq<Key> -> seq<Key>, k: Key)
    requires NoneBad(args)
    ensures DifferenceUpdated(items, args, copy).err == None
    ensures k in DifferenceUpdated(items, args, copy).entries <==> k in items && Lacked(args, copy, k.cls)
    decreases |args|
  {
    if args != [] {
      var n := |args| - 1;
      LackedSplit(args, copy, k.cls);
      DifferenceMembers(items, args[..n], copy, k);
      var before := DifferenceUpdated(items, args[..n], copy).entries;
      FilterMembers(Without(Snapshot(before, args[n], copy).value), before, k);
      if args[n].Receiver? && k in before {
        HasMember(before, k.cls);
      }
    }
  }

  /** A symmetric difference has exactly the classes one side has and the other lacks. */
  lemma SymmetricMembers(items: seq<Key>, other: seq<Key>)
    requires Distinct(items) && Distinct(other)
    ensures Distinct(SymmetricDifference(items, other))
    ensures forall cls :: Has(SymmetricDifference(items, other), cls) <==> Has(items, cls) != Has(other, cls)
  {
    NewcomersAreNew(items, other);
    FilterDistinct(Without(other), items);
    ExtendDistinct(Filter(Without(other), items), Filter(Without(items), other));
    forall cls
      ensures Has(SymmetricDifference(items, other), cls) <==> Has(items, cls) != Has(other, cls)
    {
      FilterHas(Without(other), items, cls);
      FilterHas(Without(items), other, cls);
      HasMember(items, cls);
      HasMember(other, cls);
      HasJoin(Filter(Without(other), items), Filter(Without(items), other), cls);
    }
  }

  lemma HasJoin(s: seq<Key>, t: seq<Key>, cls: int)
    ensures Has(s + t, cls) <==> Has(s, cls) || Has(t, cls)
  {
    if Has(s, cls) {
      var i :| 0 <= i < |s| && s[i].cls == cls;
      assert (s + t)[i].cls == cls;
    }
    if Has(t, cls) {
      var i :| 0 <= i < |t| && t[i].cls == cls;
      assert (s + t)[|s| + i].cls == cls;
    }
  }

  /** Done twice with the same operand it restores the classes, and with itself it empties the set. */
  lemma SymmetricTwice(items: seq<Key>, other: seq<Key>)
    requires Distinct(items) && Distinct(other)
    ensures forall cls :: Has(SymmetricDifference(SymmetricDifference(items, other), other), cls) <==> Has(items, cls)
    ensures SymmetricDifference(items, items) == []
  {
    SymmetricMembers(items, other);
    SymmetricMembers(SymmetricDifference(items, other), other);
    forall k: Key | k in items
      ensures Has(items, k.cls)
    {
      HasMember(items, k.cls);
    }
    FilterNone(Without(items), items);
  }

  /** `difference` keeps the same keys as `difference_update`, aliased arguments included. */
  lemma {:induction false} DifferenceIsUpdate(items: seq<Key>, args: seq<Arg>, copy: seq<Key> -> seq<Key>, k: Key)
    requires Reorders(copy) && forall i | 0 <= i < |args| :: !args[i].Bad?
    ensures CollectAll(items, args, copy).Ok? && DifferenceUpdated(items, args, copy).err == None
    ensures k in SubtractAll(copy(items), CollectAll(items, args, copy).value)
            <==> k in DifferenceUpdated(items, args, copy).entries
    ensures k in DifferenceUpdated(items, args, copy).entries ==> k in items
    decreases |args|
  {
    if args == [] {
      assert k in copy(items) <==> k in multiset(copy(items));
      assert k in items <==> k in multiset(items);
    } else {
      var n := |args| - 1;
      DifferenceIsUpdate(items, args[..n], copy, k);
      CollectsAll(items, args, copy);
      var snapshots := CollectAll(items, args, copy).value;
      assert CollectAll(items, args[..n], copy).value == snapshots[..n];
      var before := DifferenceUpdated(items, args[..n], copy).entries;
      FilterMembers(Without(snapshots[n]), SubtractAll(copy(items), snapshots[..n]), k);
      FilterMembers(Without(Snapshot(before, args[n], copy).value), before, k);
      HasMember(items, k.cls);
      HasMember(before, k.cls);
    }
  }

  // -------------------------------------------------------------------------------- union

  /**
   `set.union`: the receiver's keys, then each operand's; an aliased operand is skipped, an exact set
   is read in its slot order, and the first set merged into an empty result is copied.
   */
  function Union(items: seq<Key>, args: seq<Arg>, copy: seq<Key> -> seq<Key>, slots: seq<Key> -> seq<Key>): Collected<seq<Key>> {
    if exists i :: 0 <= i < |args| && args[i].Bad? then Err(FirstError(args))
    else Ok(UniteAll(copy(items), args, copy, slots))
  }

  function FirstError(args: seq<Arg>): int {
    if args == [] then 0 else if args[0].Bad? then args[0].error else FirstError(args[1..])
  }

  function UniteAll(start: seq<Key>, args: seq<Arg>, copy: seq<Key> -> seq<Key>, slots: seq<Key> -> seq<Key>): seq<Key> {
    if args == [] then start
    else
      var n := |args| - 1;
      var result := UniteAll(start, args[..n], copy, slots);
      match args[n]
      case Receiver => result
      case Concrete(source) => if result == [] then copy(source) else Extended(result, slots(source))
      case Iterable(keys) => Extended(result, keys)
      case Bad(_) => result
  }

  /** A key is in the extension if it was there, or if its class is new and it came first of its class. */
  lemma {:induction false} ExtendedMembers(s: seq<Key>, more: seq<Key>, k: Key)
    ensures Has(Extended(s, more), k.cls) <==> Has(s, k.cls) || Has(more, k.cls)
    ensures k in Extended(s, more) <==> k in s || (!Has(s, k.cls) && k in Extended([], more))
    decreases |more|
  {
    if more != [] {
      var init, last := more[..|more| - 1], more[|more| - 1];
      ExtendedMembers(s, init, k);
      ExtendedMembers(s, init, last);
      ExtendedMembers([], init, last);
      assert more == init + [last];
      HasJoin(init, [last], k.cls);
      HasJoin(Extended(s, init), [last], k.cls);
      assert Has([last], k.cls) <==> last.cls == k.cls by { assert [last][0] == last; }
      if k == last {
        HasMember(Extended([], init), k.cls);
      }
    }
  }

  lemma {:induction false} ExtendedOfDistinct(more: seq<Key>)
    requires Distinct(more)
    ensures Extended([], more) == more
  {
    ExtendNew([], more);
  }

  lemma SameMembers(s: seq<Key>, t: seq<Key>, k: Key)
    requires multiset(s) == multiset(t)
    ensures k in s <==> k in t
  {
    assert k in s <==> k in multiset(s);
    assert k in t <==> k in multiset(t);
  }

  /**
   `union` and `update` end with the same keys, object for object though not in the same order:
   the receiver's own, and for every other class the first key any operand has.
   */
  lemma {:induction false} UnionIsUpdate(items: seq<Key>, args: seq<Arg>, copy: seq<Key> -> seq<Key>, slots: seq<Key> -> seq<Key>, k: Key)
    requires Reorders(copy) && Reorders(slots) && ValidArgs(args) && forall i | 0 <= i < |args| :: !args[i].Bad?
    ensures Updated(items, args, copy).err == None
    ensures k in UniteAll(copy(items), args, copy, slots) <==> k in Updated(items, args, copy).entries
    ensures k in items ==> k in Updated(items, args, copy).entries
    ensures Has(UniteAll(copy(items), args, copy, slots), k.cls) <==> Has(Updated(items, args, copy).entries, k.cls)
    decreases |args|, 1
  {
    UnionMembers(items, args, copy, slots, k);
    var u, v := UniteAll(copy(items), args, copy, slots), Updated(items, args, copy).entries;
    HasMember(u, k.cls);
    HasMember(v, k.cls);
    if x: Key :| x in u && x.cls == k.cls {
      UnionMembers(items, args, copy, slots, x);
    }
    if x: Key :| x in v && x.cls == k.cls {
      UnionMembers(items, args, copy, slots, x);
    }
  }

  lemma {:induction false} UnionMembers(items: seq<Key>, args: seq<Arg>, copy: seq<Key> -> seq<Key>, slots: seq<Key> -> seq<Key>, k: Key)
    requires Reorders(copy) && Reorders(slots) && ValidArgs(args) && forall i | 0 <= i < |args| :: !args[i].Bad?
    ensures Updated(items, args, copy).err == None
    ensures k in UniteAll(copy(items), args, copy, slots) <==> k in Updated(items, args, copy).entries
    ensures k in items ==> k in Updated(items, args, copy).entries
    decreases |args|, 0
  {
    if args == [] {
      SameMembers(copy(items), items, k);
    } else {
      var n := |args| - 1;
      var init := args[..n];
      UnionIsUpdate(items, init, copy, slots, k);
      var u, v := UniteAll(copy(items), init, copy, slots), Updated(items, init, copy).entries;
      match args[n]
      case Receiver =>
        ExtendedMembers(v, v, k);
        OwnMembers(v, k);
      case Concrete(source) =>
        assert args[n].Concrete?;
        ReorderedDistinct(source, copy(source));
        ReorderedDistinct(source, slots(source));
        ExtendedOfDistinct(copy(source));
        ExtendedOfDistinct(slots(source));
        SameMembers(copy(source), slots(source), k);
        ExtendedMembers(u, slots(source), k);
        ExtendedMembers(v, copy(source), k);
      case Iterable(keys) =>
        ExtendDistinct([], keys);
        ExtendedOfDistinct(Extended([], keys));
        ExtendedMembers(u, keys, k);
        ExtendedMembers(v, Extended([], keys), k);
    }
  }

  lemma {:induction false} OwnMembers(v: seq<Key>, k: Key)
    ensures k in Extended([], v) ==> k in v
  {
    if v != [] {
      OwnMembers(v[..|v| - 1], k);
    }
  }
}
