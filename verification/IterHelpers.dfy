/**
 `zip`, twice: the one that drains every source on the first call and then indexes, and the one that
 draws from all sources in lockstep.
 */
module IterHelpers {
  import opened Basics

  /** One call: a row, the end, or a strict-mode error about the argument at a 0-based index. */
  datatype Outcome<+T> = Row(values: seq<T>) | Exhausted | Shorter(index: nat) | Longer(index: nat)

  predicate Raises<T>(o: Outcome<T>) {
    o.Shorter? || o.Longer?
  }

  // ------------------------------------------------------------------------ specification

  function MinLength<T>(cols: seq<seq<T>>): (m: nat)
    ensures forall i | 0 <= i < |cols| :: m <= |cols[i]|
    ensures cols != [] ==> exists i | 0 <= i < |cols| :: m == |cols[i]|
    ensures cols == [] ==> m == 0
  {
    if cols == [] then 0
    else
      var last := |cols[|cols| - 1]|;
      if |cols| == 1 then last
      else
        var m := MinLength(cols[..|cols| - 1]);
        if last < m then last else m
  }

  /** The first index from `from` on whose column has, or exceeds, length `n`; `|cols|` if none. */
  function FirstOfLength<T>(cols: seq<seq<T>>, n: nat, from: nat): (i: nat)
    requires from <= |cols|
    ensures from <= i <= |cols|
    ensures i < |cols| ==> |cols[i]| == n
    ensures forall k | from <= k < i :: |cols[k]| != n
    decreases |cols| - from
  {
    if from == |cols| || |cols[from]| == n then from else FirstOfLength(cols, n, from + 1)
  }

  function FirstLongerThan<T>(cols: seq<seq<T>>, n: nat, from: nat): (i: nat)
    requires from <= |cols|
    ensures from <= i <= |cols|
    ensures i < |cols| ==> |cols[i]| > n
    ensures forall k | from <= k < i :: |cols[k]| <= n
    decreases |cols| - from
  {
    if from == |cols| || |cols[from]| > n then from else FirstLongerThan(cols, n, from + 1)
  }

  /** What the call after the last row reports. */
  function Ending<T>(cols: seq<seq<T>>, strict: bool): Outcome<T> {
    if !strict || |cols| <= 1 then Exhausted
    else
      var i := FirstOfLength(cols, MinLength(cols), 0);
      if i > 0 then Shorter(i)
      else
        var j := FirstLongerThan(cols, MinLength(cols), 0);
        if j < |cols| then Longer(j) else Exhausted
  }

  function RowAt<T>(cols: seq<seq<T>>, k: nat): (row: seq<T>)
    requires k < MinLength(cols)
    ensures |row| == |cols| && forall i | 0 <= i < |cols| :: row[i] == cols[i][k]
  {
    seq(|cols|, i requires 0 <= i < |cols| => cols[i][k])
  }

  /** What a zip that has produced `k` rows says next. */
  function Next<T>(cols: seq<seq<T>>, strict: bool, k: nat): Outcome<T> {
    if k < MinLength(cols) then Row(RowAt(cols, k)) else Ending(cols, strict)
  }

  /** Two sources differ in length. */
  ghost predicate Uneven<T>(cols: seq<seq<T>>) {
    exists i, j | 0 <= i < j < |cols| :: |cols[i]| != |cols[j]|
  }

  /** There are sources, and every one has an item at `k`. */
  predicate Reach<T>(cols: seq<seq<T>>, k: nat) {
    cols != [] && forall i | 0 <= i < |cols| :: k < |cols[i]|
  }

  /** Row `k`: from every source its item at `k`. */
  ghost predicate IsRow<T>(cols: seq<seq<T>>, k: nat, o: Outcome<T>) {
    o.Row? && |o.values| == |cols| && forall i | 0 <= i < |cols| :: k < |cols[i]| && o.values[i] == cols[i][k]
  }

  /** Strict mode raises exactly when two sources differ in length. */
  lemma RaisesExactly<T>(cols: seq<seq<T>>, strict: bool)
    ensures Raises(Ending(cols, strict)) <==> strict && Uneven(cols)
  {
  }

  /** `Shorter(i)`: source i is the first to run out, and every source before it has more. */
  lemma ShorterExactly<T>(cols: seq<seq<T>>, strict: bool, i: nat)
    requires i < |cols|
    ensures Ending(cols, strict) == Shorter(i)
            <==> strict && i > 0 && (forall k | 0 <= k < |cols| :: |cols[i]| <= |cols[k]|)
                 && (forall k | 0 <= k < i :: |cols[i]| < |cols[k]|)
  {
  }

  /** `Longer(j)`: the sources before j all end together, none is shorter, and source j has more. */
  lemma LongerExactly<T>(cols: seq<seq<T>>, strict: bool, j: nat)
    requires j < |cols|
    ensures Ending(cols, strict) == Longer(j)
            <==> strict && j > 0 && |cols[j]| > |cols[0]| && (forall k | 0 <= k < |cols| :: |cols[0]| <= |cols[k]|)
                 && (forall k | 0 <= k < j :: |cols[k]| == |cols[0]|)
  {
  }

  // ------------------------------------------------------------------- drained on first use

  class Zip<T> {
    const sources: seq<seq<T>>
    const strict: bool
    var columns: Option<seq<seq<T>>>
    var len: nat
    var pos: nat

    ghost predicate Valid()
      reads this
    {
      && pos <= MinLength(sources)
      && (columns.None? ==> pos == 0)
      && (columns.Some? ==> columns.value == sources && len == MinLength(sources))
    }

    constructor (sources: seq<seq<T>>, strict: bool)
      ensures Valid() && this.sources == sources && this.strict == strict && pos == 0
    {
      this.sources := sources;
      this.strict := strict;
      columns := None;
      len := 0;
      pos := 0;
    }

    method IterNext() returns (r: Outcome<T>)
      requires Valid()
      modifies this
      ensures Valid() && r == Next(sources, strict, old(pos))
      ensures pos == if r.Row? then old(pos) + 1 else old(pos)
    {
      if columns.None? {
        Drain();
      }
      if pos < len {
        r := Row(RowAt(columns.value, pos));
        pos := pos + 1;
      } else {
        r := PastTheShortest(columns.value, pos, strict);
      }
    }

    method Drain()
      requires Valid() && columns.None?
      modifies this
      ensures Valid() && columns.Some? && pos == old(pos)
    {
      var cols: seq<seq<T>> := [];
      for n := 0 to |sources|
        invariant cols == sources[..n] && Valid() && columns.None? && pos == old(pos)
      {
        cols := cols + [sources[n]];
      }
      len := ShortestColumn(cols);
      columns := Some(cols);
    }
  }

  /** The strict-mode check once the shortest column has run out. */
  method PastTheShortest<T>(cols: seq<seq<T>>, pos: nat, strict: bool) returns (r: Outcome<T>)
    requires pos == MinLength(cols)
    ensures r == Ending(cols, strict)
  {
    if strict && |cols| > 1 {
      var i := PositionOfLength(cols, pos);
      if i < |cols| {
        if i > 0 {
          return Shorter(i);
        }
        var j := PositionOfLonger(cols, pos);
        if j < |cols| {
          return Longer(j);
        }
      }
    }
    r := Exhausted;
  }

  method ShortestColumn<T>(cols: seq<seq<T>>) returns (m: nat)
    ensures m == MinLength(cols)
  {
    m := 0;
    for n := 0 to |cols|
      invariant m == MinLength(cols[..n])
    {
      assert cols[..n + 1][..n] == cols[..n];
      m := if n == 0 || |cols[n]| < m then |cols[n]| else m;
    }
    assert cols[..|cols|] == cols;
  }

  method PositionOfLength<T>(cols: seq<seq<T>>, n: nat) returns (i: nat)
    ensures i == FirstOfLength(cols, n, 0)
  {
    i := 0;
    while i < |cols| && |cols[i]| != n
      invariant i <= |cols| && FirstOfLength(cols, n, 0) == FirstOfLength(cols, n, i)
    {
      i := i + 1;
    }
  }

  method PositionOfLonger<T>(cols: seq<seq<T>>, n: nat) returns (i: nat)
    ensures i == FirstLongerThan(cols, n, 0)
  {
    i := 0;
    while i < |cols| && |cols[i]| <= n
      invariant i <= |cols| && FirstLongerThan(cols, n, 0) == FirstLongerThan(cols, n, i)
    {
      i := i + 1;
    }
  }

  // --------------------------------------------------------------------------- in lockstep

  class ZipIter<T> {
    const sources: seq<seq<T>>
    const strict: bool
    var cursors: seq<nat>
    var done: bool
    var count: nat

    ghost predicate Valid()
      reads this
    {
      && |cursors| == |sources|
      && (!done ==> count <= MinLength(sources) && forall i | 0 <= i < |sources| :: cursors[i] == count)
    }

    constructor (sources: seq<seq<T>>, strict: bool)
      ensures Valid() && this.sources == sources && this.strict == strict && !done && count == 0
    {
      this.sources := sources;
      this.strict := strict;
      cursors := seq(|sources|, _ => 0);
      done := false;
      count := 0;
    }

    /** Advances source `i`, or reports that it has stopped. */
    method Draw(i: nat) returns (v: Option<T>)
      requires i < |cursors| == |sources|
      modifies this`cursors
      ensures |cursors| == |sources|
      ensures v == if old(cursors)[i] < |sources[i]| then Some(sources[i][old(cursors)[i]]) else None
      ensures cursors == if v.Some? then old(cursors)[i := old(cursors)[i] + 1] else old(cursors)
    {
      if cursors[i] < |sources[i]| {
        v := Some(sources[i][cursors[i]]);
        cursors := cursors[i := cursors[i] + 1];
      } else {
        v := None;
      }
    }

    /** Draws one item from each source in turn, up to the first that has stopped. */
    method DrawRow() returns (row: seq<T>, stoppedAt: nat)
      requires Valid() && !done
      modifies this`cursors
      ensures |cursors| == |sources| && stoppedAt <= |sources| && |row| == stoppedAt
      ensures stoppedAt == FirstOfLength(sources, count, 0)
      ensures forall i | 0 <= i < stoppedAt :: cursors[i] == count + 1 <= |sources[i]| && row[i] == sources[i][count]
      ensures forall i | stoppedAt <= i < |sources| :: cursors[i] == count
    {
      row := [];
      stoppedAt := 0;
      while stoppedAt < |sources|
        invariant |cursors| == |sources| && stoppedAt <= |sources| && |row| == stoppedAt
        invariant FirstOfLength(sources, count, 0) == FirstOfLength(sources, count, stoppedAt)
        invariant forall i | 0 <= i < stoppedAt :: cursors[i] == count + 1 <= |sources[i]| && row[i] == sources[i][count]
        invariant forall i | stoppedAt <= i < |sources| :: cursors[i] == count
      {
        var v := Draw(stoppedAt);
        if v.None? {
          return;
        }
        row := row + [v.value];
        stoppedAt := stoppedAt + 1;
      }
    }

    method Step() returns (r: Outcome<T>)
      requires Valid()
      modifies this
      ensures Valid()
      ensures r == if old(done) then Exhausted else Next(sources, strict, old(count))
      ensures done == (old(done) || !r.Row?)
      ensures count == if r.Row? then old(count) + 1 else old(count)
    {
      if done {
        return Exhausted;
      }
      if |sources| == 0 {
        done := true;
        return Exhausted;
      }
      var row, short := DrawRow();
      if short < |sources| {
        done := true;
        if strict && |sources| > 1 {
          r := Verdict(short);
        } else {
          r := Exhausted;
        }
      } else {
        assert forall i | 0 <= i < |sources| :: count < |sources[i]|;
        assert count < MinLength(sources);
        assert row == RowAt(sources, count);
        count := count + 1;
        r := Row(row);
      }
    }

    /** Draws again to see who still has more; drawing again from a source before `short` may advance it. */
    method Verdict(short: nat) returns (r: Outcome<T>)
      requires |cursors| == |sources| > 1 && strict && short < |sources| && done
      requires short == FirstOfLength(sources, count, 0) && count == MinLength(sources)
      requires short == 0 ==> forall i | 0 <= i < |sources| :: cursors[i] == count
      modifies this`cursors
      ensures |cursors| == |sources| && r == Ending(sources, strict)
    {
      var j := if short == 0 then 1 else 0;
      while j < |sources|
        invariant |cursors| == |sources| && (if short == 0 then 1 else 0) <= j <= |sources|
        invariant short == 0 ==> forall i | j <= i < |sources| :: cursors[i] == count
        invariant short == 0 ==> FirstLongerThan(sources, count, 0) == FirstLongerThan(sources, count, j)
      {
        if j != short {
          var v := Draw(j);
          if v.Some? {
            return if short == 0 then Longer(j) else Shorter(short);
          }
        }
        j := j + 1;
      }
      return if short > 0 then Shorter(short) else Exhausted;
    }
  }

  // ------------------------------------------------------------------------- the two agree

  /** What call number `k` on a drained zip reports, counting from 0. */
  function Drained<T>(cols: seq<seq<T>>, strict: bool, k: nat): Outcome<T> {
    Next(cols, strict, if k < MinLength(cols) then k else MinLength(cols))
  }

  /** What call number `k` on a lockstep zip reports. */
  function InLockstep<T>(cols: seq<seq<T>>, strict: bool, k: nat): Outcome<T> {
    if k <= MinLength(cols) then Next(cols, strict, k) else Exhausted
  }

  method CallDrained<T>(sources: seq<seq<T>>, strict: bool, calls: nat) returns (reports: seq<Outcome<T>>)
    ensures |reports| == calls && forall k | 0 <= k < calls :: reports[k] == Drained(sources, strict, k)
    ensures forall k | 0 <= k < calls :: DrainedReport(sources, strict, k, reports[k])
  {
    var z := new Zip(sources, strict);
    reports := [];
    for n := 0 to calls
      invariant z.Valid() && z.sources == sources && z.strict == strict
      invariant z.pos == if n < MinLength(sources) then n else MinLength(sources)
      invariant |reports| == n && forall k | 0 <= k < n :: reports[k] == Drained(sources, strict, k)
    {
      EndingIsNoRow(sources, strict);
      var r := z.IterNext();
      reports := reports + [r];
    }
    forall k | 0 <= k < calls
      ensures DrainedReport(sources, strict, k, reports[k])
    {
      ReportsExactly(sources, strict, k);
    }
  }

  method CallInLockstep<T>(sources: seq<seq<T>>, strict: bool, calls: nat) returns (reports: seq<Outcome<T>>)
    ensures |reports| == calls && forall k | 0 <= k < calls :: reports[k] == InLockstep(sources, strict, k)
    ensures forall k | 0 <= k < calls :: LockstepReport(sources, strict, k, reports[k])
  {
    var z := new ZipIter(sources, strict);
    reports := [];
    for n := 0 to calls
      invariant z.Valid() && z.sources == sources && z.strict == strict
      invariant z.done <==> n > MinLength(sources)
      invariant !z.done ==> z.count == n
      invariant |reports| == n && forall k | 0 <= k < n :: reports[k] == InLockstep(sources, strict, k)
    {
      EndingIsNoRow(sources, strict);
      var r := z.Step();
      reports := reports + [r];
    }
    forall k | 0 <= k < calls
      ensures LockstepReport(sources, strict, k, reports[k])
    {
      ReportsExactly(sources, strict, k);
    }
  }

  /** Row after row while every source has an item; then the strict-mode error at every call, or the end. */
  ghost predicate DrainedReport<T>(cols: seq<seq<T>>, strict: bool, k: nat, o: Outcome<T>) {
    if Reach(cols, k) then IsRow(cols, k, o)
    else if strict && Uneven(cols) then Raises(o) && o == Ending(cols, strict)
    else o == Exhausted
  }

  /** The same rows; then the error at the first call without one, and the end ever after. */
  ghost predicate LockstepReport<T>(cols: seq<seq<T>>, strict: bool, k: nat, o: Outcome<T>) {
    if Reach(cols, k) then IsRow(cols, k, o)
    else if strict && Uneven(cols) && (k == 0 || Reach(cols, k - 1)) then Raises(o) && o == Ending(cols, strict)
    else o == Exhausted
  }

  lemma ReportsExactly<T>(cols: seq<seq<T>>, strict: bool, k: nat)
    ensures DrainedReport(cols, strict, k, Drained(cols, strict, k))
    ensures LockstepReport(cols, strict, k, InLockstep(cols, strict, k))
  {
    ReachExactly(cols, k);
    if k > 0 {
      ReachExactly(cols, k - 1);
    }
    RaisesExactly(cols, strict);
    EndingIsNoRow(cols, strict);
  }

  lemma ReachExactly<T>(cols: seq<seq<T>>, k: nat)
    ensures Reach(cols, k) <==> k < MinLength(cols)
  {
  }

  lemma EndingIsNoRow<T>(cols: seq<seq<T>>, strict: bool)
    ensures !Ending(cols, strict).Row?
  {
  }

  /**
   The drained and the lockstep zip report the same rows and the same first ending. They part only after
   it, in strict mode over sources of different lengths: the drained one raises for ever, the lockstep one
   is exhausted.
   */
  lemma ZipsAgreeExactly<T>(cols: seq<seq<T>>, strict: bool, k: nat)
    ensures Drained(cols, strict, k) == InLockstep(cols, strict, k)
            <==> k <= MinLength(cols) || !strict || !Uneven(cols)
  {
    RaisesExactly(cols, strict);
    EndingIsNoRow(cols, strict);
  }
}
