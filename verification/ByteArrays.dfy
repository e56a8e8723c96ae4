/**
 Slice subscripts of `bytearray`: reading, assigning and deleting, with the bounds resolution of its
 own that differs from `slice.indices`.
 */
module ByteArrays {
  import opened Basics
  import opened IntBytes
  import opened Slices

  // ------------------------------------------------------------------------ bounds resolution

  /** A step that is not an integer counts as 1, and a big one always saturates. */
  function ResolveStep(st: Operand): Word {
    match st
    case Small(n) => n
    case Flag(b) => if b then 1 else 0
    case Big(n) => if n < 0 then I64_MIN else I64_MAX
    case _ => 1
  }

  function ClampForward(length: Word, n: Word): Word
    requires length >= 0
  {
    if n < 0 then Clamp(n + length, 0, length) else Clamp(n, 0, length)
  }

  function ClampBackward(length: Word, n: Word): Word
    requires length >= 0
  {
    if n < 0 then Clamp(n + length, -1, length - 1) else Clamp(n, -1, length - 1)
  }

  /** A bound that is not an integer counts as absent; a `bool` is taken as it is, not clamped. */
  function ResolveBound(length: Word, step: Word, v: Operand, default: Word): Word
    requires 0 <= length < I64_MAX
  {
    match v
    case Small(n) => if step > 0 then ClampForward(length, n) else ClampBackward(length, n)
    case Flag(b) => if b then 1 else 0
    case Big(n) =>
      var stand := if n < 0 then -length - 1 else length + 1;
      if step > 0 then ClampForward(length, stand) else ClampBackward(length, stand)
    case _ => default
  }

  function Resolve(length: Word, lo: Operand, hi: Operand, st: Operand): SliceResult<Triple>
    requires 0 <= length < I64_MAX
  {
    var step := ResolveStep(st);
    if step == 0 then Err(StepCannotBeZero)
    else if step > 0 then Ok(Triple(ResolveBound(length, step, lo, 0), ResolveBound(length, step, hi, length), step))
    else Ok(Triple(ResolveBound(length, step, lo, length - 1), ResolveBound(length, step, hi, -1), step))
  }

  // -------------------------------------------------------------------------- selected positions

  function SaturatingAdd(a: Word, b: Word): Word {
    Clamp(a + b, I64_MIN, I64_MAX)
  }

  /** The conversion of a machine word to an unsigned position. */
  function AsPosition(n: Word): nat {
    if n < 0 then n + 0x1_0000_0000_0000_0000 else n
  }

  /** The members of `w` that are positions below `length`, in order. */
  function Positions(w: seq<int>, length: nat): (p: seq<nat>)
    ensures Within(p, 0, length)
  {
    if w == [] then []
    else
      var p := Positions(w[..|w| - 1], length);
      if 0 <= w[|w| - 1] < length then p + [w[|w| - 1]] else p
  }

  /** The positions a resolved slice selects among `length` bytes, in the order it visits them. */
  function Selected(t: Triple, length: nat): seq<nat> {
    Positions(WalkOf(t), length)
  }

  /** Running past the machine word only ends the walk. */
  lemma SaturatedEnds(current: Word, stop: Word, step: Word)
    requires Before(current, stop, step)
    ensures Walk(SaturatingAdd(current, step), stop, step) == Walk(current + step, stop, step)
  {
    if SaturatingAdd(current, step) != current + step {
      assert !Before(current + step, stop, step);
      assert !Before(SaturatingAdd(current, step), stop, step);
    }
  }

  /** One turn of the iterator: `done` has been yielded and `current` is next. */
  lemma CollectStep(t: Triple, length: nat, done: seq<int>, current: Word)
    requires FitsWords(t) && length <= I64_MAX
    requires WalkOf(t) == done + Walk(current, t.stop, t.step) && Before(current, t.stop, t.step)
    ensures WalkOf(t) == done + [current] + Walk(SaturatingAdd(current, t.step), t.stop, t.step)
    ensures Positions(done + [current], length)
            == Positions(done, length) + if AsPosition(current) < length then [AsPosition(current)] else []
  {
    SaturatedEnds(current, t.stop, t.step);
    Regroup(done, current, Walk(current + t.step, t.stop, t.step));
    PositionsAppend(done, current, length);
  }

  lemma Regroup(done: seq<int>, current: int, rest: seq<int>)
    ensures done + ([current] + rest) == done + [current] + rest
  {
  }

  lemma PositionsAppend(done: seq<int>, current: Word, length: nat)
    requires length <= I64_MAX
    ensures Positions(done + [current], length)
            == Positions(done, length) + if AsPosition(current) < length then [AsPosition(current)] else []
  {
    assert (done + [current])[..|done|] == done;
  }

  predicate FitsWords(t: Triple) {
    I64_MIN <= t.start <= I64_MAX && I64_MIN <= t.stop <= I64_MAX && I64_MIN <= t.step <= I64_MAX
  }

  /** Drains the slice iterator, keeping the positions that are inside the array. */
  method CollectSelected(t: Triple, length: nat) returns (indices: seq<nat>)
    requires FitsWords(t) && length <= I64_MAX
    ensures indices == Selected(t, length)
  {
    indices := [];
    var current: Word := t.start;
    ghost var done: seq<int> := [];
    while Before(current, t.stop, t.step)
      invariant WalkOf(t) == done + Walk(current, t.stop, t.step)
      invariant indices == Positions(done, length)
      decreases if t.step > 0 then t.stop - current else current - t.stop
    {
      var position := AsPosition(current);
      CollectStep(t, length, done, current);
      done := done + [current];
      if position < length {
        indices := indices + [position];
      }
      current := SaturatingAdd(current, t.step);
    }
    assert done + [] == done;
  }

  lemma {:induction false} PositionsWithin(w: seq<int>, length: nat)
    requires Within(w, 0, length)
    ensures Positions(w, length) == w
  {
    if w != [] {
      PositionsWithin(w[..|w| - 1], length);
      assert w == w[..|w| - 1] + [w[|w| - 1]];
    }
  }

  lemma {:induction false} PositionsBetween(w: seq<int>, length: nat, low: int, high: int)
    requires Within(w, low, high)
    ensures Within(Positions(w, length), low, high)
  {
    if w != [] {
      PositionsBetween(w[..|w| - 1], length, low, high);
    }
  }

  lemma {:induction false} PositionsKeepOrder(w: seq<int>, length: nat)
    ensures Rising(w) ==> Rising(Positions(w, length))
    ensures Falling(w) ==> Falling(Positions(w, length))
  {
    if w != [] {
      var init, last := w[..|w| - 1], w[|w| - 1];
      PositionsKeepOrder(init, length);
      if Rising(w) {
        PositionsBetween(init, length, w[0], last);
      }
      if Falling(w) {
        PositionsBetween(init, length, last + 1, w[0] + 1);
      }
    }
  }

  lemma SelectedOrder(t: Triple, length: nat)
    ensures t.step > 0 ==> Rising(Selected(t, length))
    ensures t.step <= 0 ==> Falling(Selected(t, length))
  {
    WalkBetween(t.start, t.stop, t.step);
    PositionsKeepOrder(WalkOf(t), length);
  }

  // ------------------------------------------------------------------- reading, writing, deleting

  function Read(data: seq<Byte>, positions: seq<nat>): (r: seq<Byte>)
    requires Within(positions, 0, |data|)
    ensures |r| == |positions|
    ensures forall n | 0 <= n < |r| :: r[n] == data[positions[n]]
  {
    seq(|positions|, n requires 0 <= n < |positions| => data[positions[n]])
  }

  /** `data` with each position in turn overwritten by its byte. */
  function Written(data: seq<Byte>, positions: seq<nat>, bytes: seq<Byte>): (r: seq<Byte>)
    requires |positions| == |bytes| && Within(positions, 0, |data|)
    ensures |r| == |data|
  {
    if positions == [] then data
    else
      var n := |positions| - 1;
      Written(data, positions[..n], bytes[..n])[positions[n] := bytes[n]]
  }

  predicate NoRepeats(positions: seq<nat>) {
    forall m, n | 0 <= m < n < |positions| :: positions[m] != positions[n]
  }

  /** Reading back what was written gives it back, and nothing else changed. */
  lemma {:induction false} WrittenReadsBack(data: seq<Byte>, positions: seq<nat>, bytes: seq<Byte>)
    requires |positions| == |bytes| && Within(positions, 0, |data|) && NoRepeats(positions)
    ensures Read(Written(data, positions, bytes), positions) == bytes
    ensures var r := Written(data, positions, bytes);
            forall k | 0 <= k < |data| && k !in positions :: r[k] == data[k]
  {
    if positions != [] {
      var n := |positions| - 1;
      WrittenReadsBack(data, positions[..n], bytes[..n]);
      var before, after := Written(data, positions[..n], bytes[..n]), Written(data, positions, bytes);
      forall k | 0 <= k < n
        ensures after[positions[k]] == bytes[k]
      {
        assert positions[k] != positions[n];
        assert Read(before, positions[..n])[k] == bytes[..n][k];
      }
      assert Read(after, positions) == bytes;
      forall k | 0 <= k < |data| && k !in positions
        ensures after[k] == data[k]
      {
        assert positions[n] in positions && k !in positions[..n];
      }
    }
  }

  /** `data` after removing the given positions one at a time, the last (highest) first. */
  function Removed(data: seq<Byte>, rising: seq<nat>): (r: seq<Byte>)
    requires Rising(rising) && Within(rising, 0, |data|)
    ensures |r| == |data| - |rising|
    decreases |rising|
  {
    if rising == [] then data
    else
      var last := rising[|rising| - 1];
      Removed(data[..last] + data[last + 1..], rising[..|rising| - 1])
  }

  lemma {:induction false} RemovedAppend(data: seq<Byte>, rising: seq<nat>, tail: seq<Byte>)
    requires Rising(rising) && Within(rising, 0, |data|)
    ensures Removed(data + tail, rising) == Removed(data, rising) + tail
    decreases |rising|
  {
    if rising != [] {
      var last := rising[|rising| - 1];
      assert (data + tail)[..last] + (data + tail)[last + 1..] == data[..last] + data[last + 1..] + tail;
      RemovedAppend(data[..last] + data[last + 1..], rising[..|rising| - 1], tail);
    }
  }

  lemma RemovedLast(data: seq<Byte>, rising: seq<nat>, x: Byte)
    requires Rising(rising) && Within(rising, 0, |data|)
    ensures Rising(rising + [|data|])
    ensures Removed(data + [x], rising + [|data|]) == Removed(data, rising)
  {
    var all := rising + [|data|];
    assert all[..|all| - 1] == rising;
    assert (data + [x])[..|data|] + (data + [x])[|data| + 1..] == data;
  }

  /** The first `next` positions lie below `oldIndex`, the others do not. */
  predicate Passed(rising: seq<nat>, next: nat, oldIndex: nat) {
    next <= |rising| && Within(rising[..next], 0, oldIndex) && forall n | next <= n < |rising| :: rising[n] >= oldIndex
  }

  lemma PassedAll(rising: seq<nat>, next: nat, length: nat)
    requires Passed(rising, next, length) && Within(rising, 0, length)
    ensures next == |rising|
  {
    if next < |rising| {
      WithinAt(rising, 0, length, next);
    }
  }

  /** A `retain` pass drops a byte whose index is the next position. */
  lemma RetainDrops(data: seq<Byte>, k: nat, rising: seq<nat>, next: nat)
    requires Rising(rising) && k < |data| && Passed(rising, next, k)
    requires next < |rising| && rising[next] == k
    ensures Passed(rising, next + 1, k + 1)
    ensures Removed(data[..k + 1], rising[..next + 1]) == Removed(data[..k], rising[..next])
  {
    assert data[..k + 1] == data[..k] + [data[k]];
    assert rising[..next + 1] == rising[..next] + [k];
    RemovedLast(data[..k], rising[..next], data[k]);
  }

  /** It keeps every other byte. */
  lemma RetainKeeps(data: seq<Byte>, k: nat, rising: seq<nat>, next: nat)
    requires Rising(rising) && k < |data| && Passed(rising, next, k)
    requires !(next < |rising| && rising[next] == k)
    ensures Passed(rising, next, k + 1)
    ensures Removed(data[..k + 1], rising[..next]) == Removed(data[..k], rising[..next]) + [data[k]]
  {
    assert data[..k + 1] == data[..k] + [data[k]];
    RemovedAppend(data[..k], rising[..next], [data[k]]);
  }

  function Ascending(positions: seq<nat>, step: int): seq<nat> {
    if step < 0 then Reversed(positions) else positions
  }

  lemma AscendingRises(t: Triple, length: nat)
    ensures Rising(Ascending(Selected(t, length), t.step))
    ensures Within(Ascending(Selected(t, length), t.step), 0, length)
    ensures NoRepeats(Selected(t, length))
  {
    SelectedOrder(t, length);
  }

  /** Where a step-1 slice starts and ends; an inverted range is empty and sits at its start. */
  function Cut(t: Triple, length: nat): (c: (nat, nat))
    ensures c.0 <= c.1 <= length
  {
    var from := Clamp(t.start, 0, length);
    (from, if Clamp(t.stop, 0, length) < from then from else Clamp(t.stop, 0, length))
  }

  // -------------------------------------------------------------------------------- the object

  /** The right-hand side of an assignment: bytes, the array itself, or a value that is refused. */
  datatype Replacement = Given(bytes: seq<Byte>) | Itself | Refused

  function ReplacementBytes(data: seq<Byte>, r: Replacement): SliceResult<seq<Byte>> {
    match r
    case Given(bytes) => Ok(bytes)
    case Itself => Ok(data)
    case Refused => Err(BadReplacement)
  }

  function GetAt(data: seq<Byte>, t: SliceResult<Triple>): SliceResult<seq<Byte>> {
    match t
    case Err(e) => Err(e)
    case Ok(t) => Ok(Read(data, Selected(t, |data|)))
  }

  function SetAt(data: seq<Byte>, t: SliceResult<Triple>, r: Replacement): SliceResult<seq<Byte>> {
    match t
    case Err(e) => Err(e)
    case Ok(t) =>
      match ReplacementBytes(data, r)
      case Err(e) => Err(e)
      case Ok(bytes) => Assigned(data, t, bytes)
  }

  function Assigned(data: seq<Byte>, t: Triple, bytes: seq<Byte>): SliceResult<seq<Byte>> {
    var selected := Selected(t, |data|);
    if t.step == 1 then Ok(data[..Cut(t, |data|).0] + bytes + data[Cut(t, |data|).1..])
    else if |selected| != |bytes| then Err(SizeMismatch(|bytes|, |selected|))
    else Ok(Written(data, selected, bytes))
  }

  function DeleteAt(data: seq<Byte>, t: SliceResult<Triple>): SliceResult<seq<Byte>> {
    match t
    case Err(e) => Err(e)
    case Ok(t) =>
      AscendingRises(t, |data|);
      Ok(Removed(data, Ascending(Selected(t, |data|), t.step)))
  }

  class ByteArray {
    var data: seq<Byte>

    /** `b[lo:hi:st]` */
    method GetSlice(lo: Operand, hi: Operand, st: Operand) returns (r: SliceResult<seq<Byte>>)
      requires |data| < I64_MAX
      ensures r == GetAt(data, Resolve(|data|, lo, hi, st))
    {
      match Resolve(|data|, lo, hi, st)
      case Err(e) =>
        r := Err(e);
      case Ok(t) =>
        var indices := CollectSelected(t, |data|);
        r := Ok(Read(data, indices));
    }

    /** `b[lo:hi:st] = value`. A failed assignment changes nothing. */
    method SetSlice(lo: Operand, hi: Operand, st: Operand, value: Replacement) returns (err: SliceOutcome)
      requires |data| < I64_MAX
      modifies this
      ensures var want := SetAt(old(data), Resolve(|old(data)|, lo, hi, st), value);
              if want.Ok? then err == Done && data == want.value
              else err == Raised(want.error) && data == old(data)
    {
      match Resolve(|data|, lo, hi, st)
      case Err(e) =>
        err := Raised(e);
      case Ok(t) =>
        match ReplacementBytes(data, value)
        case Err(e) =>
          err := Raised(e);
        case Ok(bytes) =>
          err := AssignBytes(t, bytes);
    }

    /** The assignment once the slice is resolved and the right-hand side is in hand. */
    method AssignBytes(t: Triple, bytes: seq<Byte>) returns (err: SliceOutcome)
      requires |data| < I64_MAX && FitsWords(t)
      modifies this
      ensures var want := Assigned(old(data), t, bytes);
              if want.Ok? then err == Done && data == want.value
              else err == Raised(want.error) && data == old(data)
    {
      if t.step == 1 {
        var cut := Cut(t, |data|);
        data := data[..cut.0] + bytes + data[cut.1..];
        err := Done;
      } else {
        var indices := CollectSelected(t, |data|);
        if |indices| != |bytes| {
          err := Raised(SizeMismatch(|bytes|, |indices|));
        } else {
          WriteEach(indices, bytes);
          err := Done;
        }
      }
    }

    method WriteEach(indices: seq<nat>, bytes: seq<Byte>)
      requires |indices| == |bytes| && Within(indices, 0, |data|)
      modifies this
      ensures data == Written(old(data), indices, bytes)
    {
      var n := 0;
      while n < |indices|
        invariant 0 <= n <= |indices|
        invariant |data| == |old(data)|
        invariant data == Written(old(data), indices[..n], bytes[..n])
      {
        data := data[indices[n] := bytes[n]];
        assert indices[..n + 1][..n] == indices[..n] && bytes[..n + 1][..n] == bytes[..n];
        n := n + 1;
      }
      assert indices[..n] == indices && bytes[..n] == bytes;
    }

    /** `del b[lo:hi:st]` */
    method DeleteSlice(lo: Operand, hi: Operand, st: Operand) returns (err: SliceOutcome)
      requires |data| < I64_MAX
      modifies this
      ensures var want := DeleteAt(old(data), Resolve(|old(data)|, lo, hi, st));
              if want.Ok? then err == Done && data == want.value
              else err == Raised(want.error) && data == old(data)
    {
      match Resolve(|data|, lo, hi, st)
      case Err(e) =>
        err := Raised(e);
      case Ok(t) =>
        DeleteSelected(t);
        err := Done;
    }

    method DeleteSelected(t: Triple)
      requires |data| < I64_MAX && FitsWords(t) && (t.step == 1 ==> t.start >= 0)
      modifies this
      ensures Rising(Ascending(Selected(t, |old(data)|), t.step))
      ensures Within(Ascending(Selected(t, |old(data)|), t.step), 0, |old(data)|)
      ensures data == Removed(old(data), Ascending(Selected(t, |old(data)|), t.step))
    {
      AscendingRises(t, |data|);
      if t.step == 1 {
        var cut := Cut(t, |data|);
        DrainedIsRemoved(data, t);
        data := data[..cut.0] + data[cut.1..];
      } else {
        var indices := CollectSelected(t, |data|);
        if t.step < 0 {
          indices := Reversed(indices);
        }
        RetainOthers(indices);
      }
    }

    /** One pass over the bytes, dropping each whose index is the next one to be deleted. */
    method RetainOthers(indices: seq<nat>)
      requires Rising(indices) && Within(indices, 0, |data|)
      modifies this
      ensures data == Removed(old(data), indices)
    {
      var kept: seq<Byte> := [];
      var oldIndex, next := 0, 0;
      while oldIndex < |data|
        invariant 0 <= oldIndex <= |data| && 0 <= next <= |indices| && data == old(data)
        invariant Passed(indices, next, oldIndex) && kept == Removed(data[..oldIndex], indices[..next])
      {
        var shouldDelete := next < |indices| && indices[next] == oldIndex;
        if shouldDelete {
          RetainDrops(data, oldIndex, indices, next);
          next := next + 1;
        } else {
          RetainKeeps(data, oldIndex, indices, next);
          kept := kept + [data[oldIndex]];
        }
        oldIndex := oldIndex + 1;
      }
      PassedAll(indices, next, |data|);
      assert data[..oldIndex] == data && indices[..next] == indices;
      data := kept;
    }
  }

  datatype SliceOutcome = Done | Raised(error: SliceError)

  // ------------------------------------------------------------------------- the two agree

  /** A walk by ones is a run of consecutive positions. */
  lemma {:induction false} UnitWalk(start: int, stop: int)
    ensures var w := Walk(start, stop, 1);
            |w| == (if start < stop then stop - start else 0) && forall n | 0 <= n < |w| :: w[n] == start + n
    decreases stop - start
  {
    if start < stop {
      UnitWalk(start + 1, stop);
      var w, rest := Walk(start, stop, 1), Walk(start + 1, stop, 1);
      assert forall n | 0 < n < |w| :: w[n] == rest[n - 1];
    }
  }

  predicate IsRun(run: seq<nat>, from: nat, to: nat) {
    from <= to && |run| == to - from && forall n | 0 <= n < |run| :: run[n] == from + n
  }

  lemma RunStep(data: seq<Byte>, run: seq<nat>, from: nat, to: nat)
    requires IsRun(run, from, to) && from < to <= |data| && Rising(run)
    ensures var less := data[..to - 1] + data[to..];
            && Removed(data, run) == Removed(less, run[..|run| - 1])
            && less[..from] == data[..from] && less[to - 1..] == data[to..]
  {
    assert run[|run| - 1] == to - 1;
  }

  /** Removing a run of consecutive positions, highest first, is cutting it out. */
  lemma {:induction false} RemovedRun(data: seq<Byte>, run: seq<nat>, from: nat, to: nat)
    requires IsRun(run, from, to) && to <= |data| && Rising(run)
    ensures Removed(data, run) == data[..from] + data[to..]
    decreases |run|
  {
    if from == to {
      assert data == data[..from] + data[from..];
    } else {
      var less := data[..to - 1] + data[to..];
      RemovedRun(less, run[..|run| - 1], from, to - 1);
      RunStep(data, run, from, to);
    }
  }

  lemma {:induction false} PositionsOfRun(w: seq<int>, start: int, length: nat)
    requires forall n | 0 <= n < |w| :: w[n] == start + n
    requires start >= 0
    ensures Positions(w, length) == w[..if start + |w| <= length then |w| else if start < length then length - start else 0]
    decreases |w|
  {
    if w != [] {
      PositionsOfRun(w[..|w| - 1], start, length);
    }
  }

  /** The positions a step-1 slice selects are those of its cut. */
  lemma SelectedIsCut(t: Triple, length: nat)
    requires t.step == 1 && t.start >= 0
    ensures IsRun(Selected(t, length), Cut(t, length).0, Cut(t, length).1)
  {
    UnitWalk(t.start, t.stop);
    PositionsOfRun(WalkOf(t), t.start, length);
  }

  /** Draining a step-1 range removes exactly the positions the slice selects. */
  lemma DrainedIsRemoved(data: seq<Byte>, t: Triple)
    requires t.step == 1 && t.start >= 0
    ensures Rising(Selected(t, |data|))
    ensures Removed(data, Selected(t, |data|)) == data[..Cut(t, |data|).0] + data[Cut(t, |data|).1..]
  {
    SelectedOrder(t, |data|);
    SelectedIsCut(t, |data|);
    RemovedRun(data, Selected(t, |data|), Cut(t, |data|).0, Cut(t, |data|).1);
  }

  /**
   Assigning to a step-1 slice leaves what was before its cut, the new bytes, and what was after; to another
   slice of as many positions, the bytes at them in the order visited and everything else as it was.
   */
  lemma AssignedReadsBack(data: seq<Byte>, t: Triple, bytes: seq<Byte>)
    requires t.step == 1 ==> t.start >= 0
    ensures var r := Assigned(data, t, bytes);
            if t.step == 1 then
              var from, to := Cut(t, |data|).0, Cut(t, |data|).1;
              && r.Ok? && |r.value| == |data| - (to - from) + |bytes|
              && IsRun(Selected(t, |data|), from, to)
              && r.value[..from] == data[..from]
              && r.value[from..from + |bytes|] == bytes
              && r.value[from + |bytes|..] == data[to..]
            else if |Selected(t, |data|)| != |bytes| then r == Err(SizeMismatch(|bytes|, |Selected(t, |data|)|))
            else
              && r.Ok? && |r.value| == |data| && Read(r.value, Selected(t, |data|)) == bytes
              && forall k | 0 <= k < |data| && k !in Selected(t, |data|) :: r.value[k] == data[k]
  {
    if t.step == 1 {
      SelectedIsCut(t, |data|);
    } else if |Selected(t, |data|)| == |bytes| {
      AscendingRises(t, |data|);
      WrittenReadsBack(data, Selected(t, |data|), bytes);
    }
  }

  /** An empty or inverted range inserts where it starts, or at the end if that is beyond. */
  lemma EmptyCut(t: Triple, length: nat)
    requires t.stop <= t.start && t.start >= 0
    ensures Cut(t, length) == (if t.start <= length then t.start else length, if t.start <= length then t.start else length)
  {
  }

  // ----------------------------------------------------------------- agreement with Python

  lemma PythonInBounds(length: nat, lo: Operand, hi: Operand, st: Operand)
    ensures var t := PythonIndices(length, lo, hi, st);
            t.Ok? ==> t.value.step != 0 && InBounds(length, t.value) && Within(WalkOf(t.value), 0, length)
  {
    var t := PythonIndices(length, lo, hi, st);
    if t.Ok? {
      BoundInBounds(length, t.value.step, lo, 0, length - 1);
      BoundInBounds(length, t.value.step, hi, length, -1);
      InBoundsWithin(length, t.value);
    }
  }

  lemma BoundInBounds(length: nat, step: int, v: Operand, forward: int, backward: int)
    requires BoundFits(length, 1, forward) && BoundFits(length, -1, backward)
    ensures var b := PythonBound(length, step, v, forward, backward);
            b.Ok? ==> BoundFits(length, step, b.value)
  {
  }

  lemma InBoundsWithin(length: nat, t: Triple)
    requires t.step != 0 && InBounds(length, t)
    ensures Within(WalkOf(t), 0, length)
  {
    WalkBetween(t.start, t.stop, t.step);
  }

  lemma WalkNoRepeats(start: int, stop: int, step: int, length: nat)
    requires Within(Walk(start, stop, step), 0, length)
    ensures Rising(Ascending(Walk(start, stop, step), step))
    ensures Within(Ascending(Walk(start, stop, step), step), 0, length)
  {
    WalkBetween(start, stop, step);
  }

  function PythonGet(data: seq<Byte>, lo: Operand, hi: Operand, st: Operand): SliceResult<seq<Byte>> {
    match PythonIndices(|data|, lo, hi, st)
    case Err(e) => Err(e)
    case Ok(t) =>
      PythonInBounds(|data|, lo, hi, st);
      Ok(Read(data, WalkOf(t)))
  }

  function PythonSet(data: seq<Byte>, lo: Operand, hi: Operand, st: Operand, r: Replacement): SliceResult<seq<Byte>> {
    match PythonIndices(|data|, lo, hi, st)
    case Err(e) => Err(e)
    case Ok(t) =>
      match ReplacementBytes(data, r)
      case Err(e) => Err(e)
      case Ok(bytes) =>
        PythonInBounds(|data|, lo, hi, st);
        PythonAssigned(data, t, bytes)
  }

  /**
   The language reference's rule for mutable sequences. An inverted step-1 range is empty and inserts at its
   start; any other slice takes exactly as many bytes as it selects.
   */
  function PythonAssigned(data: seq<Byte>, t: Triple, bytes: seq<Byte>): SliceResult<seq<Byte>>
    requires InBounds(|data|, t) && Within(WalkOf(t), 0, |data|)
  {
    var w := WalkOf(t);
    if t.step == 1 then Ok(data[..t.start] + bytes + data[if t.stop < t.start then t.start else t.stop..])
    else if |w| != |bytes| then Err(SizeMismatch(|bytes|, |w|))
    else Ok(Written(data, w, bytes))
  }

  function PythonDelete(data: seq<Byte>, lo: Operand, hi: Operand, st: Operand): SliceResult<seq<Byte>> {
    match PythonIndices(|data|, lo, hi, st)
    case Err(e) => Err(e)
    case Ok(t) =>
      PythonInBounds(|data|, lo, hi, st);
      WalkNoRepeats(t.start, t.stop, t.step, |data|);
      Ok(Removed(data, Ascending(WalkOf(t), t.step)))
  }

  /** Big integers are those beyond a machine word. */
  predicate Canonical(v: Operand) {
    v.Big? ==> v.big < I64_MIN || v.big > I64_MAX
  }

  predicate AllCanonical(lo: Operand, hi: Operand, st: Operand) {
    Canonical(lo) && Canonical(hi) && Canonical(st)
  }

  predicate AllIntegers(lo: Operand, hi: Operand, st: Operand) {
    !lo.NotAnInteger? && !hi.NotAnInteger? && !st.NotAnInteger?
  }

  /** A stop that lets a backward slice of one byte run to its beginning. */
  predicate StopsBelowZero(hi: Operand) {
    hi.Absent? || (hi.Small? && hi.word < -1) || (hi.Big? && hi.big < 0)
  }

  /** A backward slice by more than one, from `True`, over a single byte: it steps over the byte. */
  predicate Overshoots(length: nat, lo: Operand, hi: Operand, st: Operand) {
    length == 1 && lo == Flag(true) && ResolveStep(st) < -1 && StopsBelowZero(hi)
  }

  /** When `bytearray` slices as Python does: a check on the operands alone. */
  predicate Faithful(length: nat, lo: Operand, hi: Operand, st: Operand) {
    ResolveStep(st) == 0 || (AllIntegers(lo, hi, st) && !Overshoots(length, lo, hi, st))
  }

  function ExactStep(st: Operand): int
    requires !st.NotAnInteger?
  {
    if st.Absent? then 1 else IntegerOf(st).value
  }

  lemma StepResolves(st: Operand)
    requires Canonical(st) && !st.NotAnInteger?
    ensures Saturates(ResolveStep(st), ExactStep(st))
    ensures ResolveStep(st) == 1 <==> ExactStep(st) == 1
  {
  }

  /** The bound for a backward walk over one byte may be one too high. */
  predicate OneTooHigh(length: nat, step: int, v: Operand, code: int, python: int) {
    v == Flag(true) && length == 1 && step < 0 && code == 1 && python == 0
  }

  /** A bound is Python's, unless it is `True` and past the last position. */
  lemma BoundResolves(length: Word, step: Word, exact: int, v: Operand, forward: Word, backward: Word)
    requires 0 <= length < I64_MAX && Canonical(v) && !v.NotAnInteger?
    requires step != 0 && Saturates(step, exact)
    ensures var code, python := ResolveBound(length, step, v, if step > 0 then forward else backward),
                                PythonBound(length, exact, v, forward, backward);
            && python.Ok?
            && (length > 0 ==> code == python.value || OneTooHigh(length, step, v, code, python.value))
  {
  }

  predicate TripleMatches(length: nat, lo: Operand, hi: Operand, code: Triple, python: Triple) {
    && Saturates(code.step, python.step) && code.step != 0
    && (length > 0 ==>
          && (code.start == python.start || OneTooHigh(length, code.step, lo, code.start, python.start))
          && (code.stop == python.stop || OneTooHigh(length, code.step, hi, code.stop, python.stop)))
  }

  lemma TripleResolves(length: Word, lo: Operand, hi: Operand, st: Operand)
    requires 0 <= length < I64_MAX && AllCanonical(lo, hi, st) && AllIntegers(lo, hi, st) && ResolveStep(st) != 0
    ensures var code, python := Resolve(length, lo, hi, st), PythonIndices(length, lo, hi, st);
            code.Ok? && python.Ok? && TripleMatches(length, lo, hi, code.value, python.value)
  {
    StepResolves(st);
    var step, exact := ResolveStep(st), ExactStep(st);
    BoundResolves(length, step, exact, lo, 0, length - 1);
    BoundResolves(length, step, exact, hi, length, -1);
    var start, stop := PythonBound(length, exact, lo, 0, length - 1), PythonBound(length, exact, hi, length, -1);
    assert PythonIndices(length, lo, hi, st) == BothBounds(start, stop, exact);
  }

  predicate SameSelection(length: nat, code: SliceResult<Triple>, python: SliceResult<Triple>) {
    if code.Err? || python.Err? then code.Err? && python.Err? && code.error == python.error
    else Selected(code.value, length) == WalkOf(python.value)
  }

  /** Walks by one down a single byte. */
  lemma UnitStepDown(stop: int)
    requires -1 <= stop <= 1
    ensures Walk(-1, stop, -1) == []
    ensures Walk(0, stop, -1) == if stop == -1 then [0] else []
    ensures Walk(1, stop, -1) == if stop == 1 then [] else if stop == 0 then [1] else [1, 0]
  {
    assert Walk(-1, stop, -1) == [];
    assert Walk(0, stop, -1) == if stop == -1 then [0] + Walk(-1, stop, -1) else [];
    assert Walk(1, stop, -1) == if stop == 1 then [] else [1] + Walk(0, stop, -1);
  }

  /** Walks by more than one down a single byte. */
  lemma LongStepDown(start: int, stop: int, step: int)
    requires -1 <= start <= 1 && -1 <= stop <= 1 && step < -1
    ensures Walk(start, stop, step) == if start > stop then [start] else []
  {
    assert Walk(start + step, stop, step) == [];
  }

  lemma PositionsOfOne()
    ensures Positions([], 1) == [] && Positions([0], 1) == [0] && Positions([1], 1) == [] && Positions([1, 0], 1) == [0]
  {
    assert [0][..0] == [] && [1][..0] == [] && [1, 0][..1] == [1];
  }

  function OneByte(start: int, stop: int, step: int): seq<nat> {
    if stop == -1 && (start == 0 || (start == 1 && step == -1)) then [0] else []
  }

  lemma OneByteWalk(start: int, stop: int, step: int)
    requires step < 0 && -1 <= stop <= 1 && -1 <= start <= 1
    ensures Positions(Walk(start, stop, step), 1) == OneByte(start, stop, step)
    ensures start <= 0 ==> Walk(start, stop, step) == OneByte(start, stop, step)
  {
    PositionsOfOne();
    if step == -1 {
      UnitStepDown(stop);
    } else {
      LongStepDown(start, stop, step);
    }
  }

  predicate OneByteBound(code: int, python: int) {
    (code == python && -1 <= code <= 0) || (code == 1 && python == 0)
  }

  lemma WalksOfOne(code: Triple, python: Triple)
    requires code.step < 0 && Saturates(code.step, python.step)
    requires OneByteBound(code.start, python.start) && OneByteBound(code.stop, python.stop)
    ensures Selected(code, 1) == WalkOf(python) <==> !(code.start == 1 && code.step < -1 && code.stop == -1)
  {
    OneByteWalk(code.start, code.stop, code.step);
    OneByteWalk(python.start, python.stop, python.step);
    assert Selected(code, 1) == OneByte(code.start, code.stop, code.step);
    assert WalkOf(python) == OneByte(python.start, python.stop, python.step);
    OneByteAgrees(code, python);
  }

  lemma OneByteAgrees(code: Triple, python: Triple)
    requires code.step < 0 && python.step < 0
    requires OneByteBound(code.start, python.start) && OneByteBound(code.stop, python.stop)
    ensures OneByte(code.start, code.stop, code.step) == OneByte(python.start, python.stop, python.step)
            <==> !(code.start == 1 && code.step < -1 && code.stop == -1)
  {
    var none: seq<nat> := [];
    assert [0] != none;
  }

  lemma BoundsOfOne(step: Word, lo: Operand, hi: Operand)
    requires step < 0 && Canonical(hi) && !hi.NotAnInteger?
    ensures ResolveBound(1, step, lo, 0) == 1 <==> lo == Flag(true)
    ensures ResolveBound(1, step, hi, -1) == -1 <==> StopsBelowZero(hi)
  {
  }

  lemma SelectionOfOne(lo: Operand, hi: Operand, st: Operand)
    requires AllCanonical(lo, hi, st) && AllIntegers(lo, hi, st) && ResolveStep(st) < 0
    ensures SameSelection(1, Resolve(1, lo, hi, st), PythonIndices(1, lo, hi, st)) <==> !Overshoots(1, lo, hi, st)
  {
    TripleResolves(1, lo, hi, st);
    PythonInBounds(1, lo, hi, st);
    BoundsOfOne(ResolveStep(st), lo, hi);
    var code, python := Resolve(1, lo, hi, st).value, PythonIndices(1, lo, hi, st).value;
    WalksOfOne(code, python);
  }

  lemma WithinAt(w: seq<int>, low: int, high: int, n: nat)
    requires Within(w, low, high) && n < |w|
    ensures low <= w[n] < high
  {
  }

  lemma NothingWithin(w: seq<int>)
    requires Within(w, 0, 0)
    ensures w == []
  {
    if w != [] {
      WithinAt(w, 0, 0, 0);
    }
  }

  lemma SelectionOfMany(length: Word, lo: Operand, hi: Operand, st: Operand)
    requires 0 <= length < I64_MAX && AllCanonical(lo, hi, st) && AllIntegers(lo, hi, st)
    requires ResolveStep(st) != 0 && (length == 1 ==> ResolveStep(st) > 0)
    ensures SameSelection(length, Resolve(length, lo, hi, st), PythonIndices(length, lo, hi, st))
  {
    TripleResolves(length, lo, hi, st);
    PythonInBounds(length, lo, hi, st);
    var code, python := Resolve(length, lo, hi, st).value, PythonIndices(length, lo, hi, st).value;
    if length == 0 {
      NothingWithin(Selected(code, 0));
      NothingWithin(WalkOf(python));
    } else {
      SaturatedWalk(length, code, python.step);
      PositionsWithin(WalkOf(code), length);
    }
  }

  lemma ZeroStep(length: Word, lo: Operand, hi: Operand, st: Operand)
    requires 0 <= length < I64_MAX && Canonical(st) && ResolveStep(st) == 0
    ensures Resolve(length, lo, hi, st) == PythonIndices(length, lo, hi, st) == Err(StepCannotBeZero)
  {
  }

  /** `bytearray` selects what Python's slicing selects, or raises its error, exactly when `Faithful`. */
  lemma SelectionAgrees(length: Word, lo: Operand, hi: Operand, st: Operand)
    requires 0 <= length < I64_MAX && AllCanonical(lo, hi, st)
    ensures SameSelection(length, Resolve(length, lo, hi, st), PythonIndices(length, lo, hi, st))
            <==> Faithful(length, lo, hi, st)
  {
    if ResolveStep(st) == 0 {
      ZeroStep(length, lo, hi, st);
    } else if !AllIntegers(lo, hi, st) {
      NotIntegers(length, lo, hi, st);
    } else if length == 1 && ResolveStep(st) < 0 {
      SelectionOfOne(lo, hi, st);
    } else {
      SelectionOfMany(length, lo, hi, st);
    }
  }

  lemma GetFaithful(data: seq<Byte>, lo: Operand, hi: Operand, st: Operand)
    requires |data| < I64_MAX && AllCanonical(lo, hi, st)
    requires Faithful(|data|, lo, hi, st) && ResolveStep(st) != 0
    ensures GetAt(data, Resolve(|data|, lo, hi, st)) == PythonGet(data, lo, hi, st)
  {
    SelectionAgrees(|data|, lo, hi, st);
    CutAgrees(|data|, lo, hi, st);
  }

  lemma GetUnfaithful(data: seq<Byte>, lo: Operand, hi: Operand, st: Operand)
    requires |data| < I64_MAX && AllCanonical(lo, hi, st) && !Faithful(|data|, lo, hi, st)
    ensures GetAt(data, Resolve(|data|, lo, hi, st)) != PythonGet(data, lo, hi, st)
  {
    UnfaithfulSizes(|data|, lo, hi, st);
  }

  /** Reading a slice gives what Python gives exactly when the operands are `Faithful`. */
  lemma GetAgrees(data: seq<Byte>, lo: Operand, hi: Operand, st: Operand)
    requires |data| < I64_MAX && AllCanonical(lo, hi, st)
    ensures GetAt(data, Resolve(|data|, lo, hi, st)) == PythonGet(data, lo, hi, st) <==> Faithful(|data|, lo, hi, st)
  {
    if !Faithful(|data|, lo, hi, st) {
      GetUnfaithful(data, lo, hi, st);
    } else if ResolveStep(st) != 0 {
      GetFaithful(data, lo, hi, st);
    } else {
      ZeroStep(|data|, lo, hi, st);
    }
  }

  lemma SameAssignment(data: seq<Byte>, code: Triple, python: Triple, bytes: seq<Byte>)
    requires InBounds(|data|, python) && Within(WalkOf(python), 0, |data|)
    requires Selected(code, |data|) == WalkOf(python) && SameShape(|data|, code, python)
    ensures Assigned(data, code, bytes) == PythonAssigned(data, python, bytes)
  {
  }

  lemma SetFaithful(data: seq<Byte>, lo: Operand, hi: Operand, st: Operand, bytes: seq<Byte>)
    requires |data| < I64_MAX && AllCanonical(lo, hi, st)
    requires Faithful(|data|, lo, hi, st) && ResolveStep(st) != 0
    ensures SetAt(data, Resolve(|data|, lo, hi, st), Given(bytes)) == PythonSet(data, lo, hi, st, Given(bytes))
  {
    SelectionAgrees(|data|, lo, hi, st);
    CutAgrees(|data|, lo, hi, st);
    PythonInBounds(|data|, lo, hi, st);
    SameAssignment(data, Resolve(|data|, lo, hi, st).value, PythonIndices(|data|, lo, hi, st).value, bytes);
  }

  lemma SetUnfaithful(data: seq<Byte>, lo: Operand, hi: Operand, st: Operand, bytes: seq<Byte>)
    requires |data| < I64_MAX && AllCanonical(lo, hi, st) && !Faithful(|data|, lo, hi, st)
    ensures SetAt(data, Resolve(|data|, lo, hi, st), Given(bytes)) != PythonSet(data, lo, hi, st, Given(bytes))
  {
    UnfaithfulSizes(|data|, lo, hi, st);
    PythonInBounds(|data|, lo, hi, st);
  }

  lemma BytesAgree(data: seq<Byte>, lo: Operand, hi: Operand, st: Operand, bytes: seq<Byte>)
    requires |data| < I64_MAX && AllCanonical(lo, hi, st)
    ensures SetAt(data, Resolve(|data|, lo, hi, st), Given(bytes)) == PythonSet(data, lo, hi, st, Given(bytes))
            <==> Faithful(|data|, lo, hi, st)
  {
    if !Faithful(|data|, lo, hi, st) {
      SetUnfaithful(data, lo, hi, st, bytes);
    } else if ResolveStep(st) != 0 {
      SetFaithful(data, lo, hi, st, bytes);
    } else {
      ZeroStep(|data|, lo, hi, st);
    }
  }

  /** The array assigned to a slice of itself is its bytes before the assignment. */
  lemma ItselfIsItsBytes(data: seq<Byte>, t: SliceResult<Triple>, lo: Operand, hi: Operand, st: Operand)
    ensures SetAt(data, t, Itself) == SetAt(data, t, Given(data))
    ensures PythonSet(data, lo, hi, st, Itself) == PythonSet(data, lo, hi, st, Given(data))
  {
  }

  /** A value that is refused is refused alike, unless Python refuses the slice first. */
  lemma RefusedAgrees(data: seq<Byte>, lo: Operand, hi: Operand, st: Operand)
    requires |data| < I64_MAX && AllCanonical(lo, hi, st)
    ensures SetAt(data, Resolve(|data|, lo, hi, st), Refused) == PythonSet(data, lo, hi, st, Refused)
            <==> ResolveStep(st) == 0 || AllIntegers(lo, hi, st)
  {
    if ResolveStep(st) == 0 {
      ZeroStep(|data|, lo, hi, st);
    } else if AllIntegers(lo, hi, st) {
      CutAgrees(|data|, lo, hi, st);
    } else {
      NotIntegers(|data|, lo, hi, st);
    }
  }

  /** So does assigning bytes or the array itself; a refused value does not even look at the positions. */
  lemma SetAgrees(data: seq<Byte>, lo: Operand, hi: Operand, st: Operand, r: Replacement)
    requires |data| < I64_MAX && AllCanonical(lo, hi, st)
    ensures SetAt(data, Resolve(|data|, lo, hi, st), r) == PythonSet(data, lo, hi, st, r)
            <==> Faithful(|data|, lo, hi, st) || (r.Refused? && AllIntegers(lo, hi, st))
  {
    if r.Refused? {
      RefusedAgrees(data, lo, hi, st);
    } else {
      BytesAgree(data, lo, hi, st, ReplacementBytes(data, r).value);
      ItselfIsItsBytes(data, Resolve(|data|, lo, hi, st), lo, hi, st);
    }
  }

  lemma DeleteFaithful(data: seq<Byte>, lo: Operand, hi: Operand, st: Operand)
    requires |data| < I64_MAX && AllCanonical(lo, hi, st)
    requires Faithful(|data|, lo, hi, st) && ResolveStep(st) != 0
    ensures DeleteAt(data, Resolve(|data|, lo, hi, st)) == PythonDelete(data, lo, hi, st)
  {
    SelectionAgrees(|data|, lo, hi, st);
    CutAgrees(|data|, lo, hi, st);
  }

  /** And so does deleting. */
  lemma DeleteAgrees(data: seq<Byte>, lo: Operand, hi: Operand, st: Operand)
    requires |data| < I64_MAX && AllCanonical(lo, hi, st)
    ensures DeleteAt(data, Resolve(|data|, lo, hi, st)) == PythonDelete(data, lo, hi, st) <==> Faithful(|data|, lo, hi, st)
  {
    if !Faithful(|data|, lo, hi, st) {
      UnfaithfulSizes(|data|, lo, hi, st);
    } else if ResolveStep(st) != 0 {
      DeleteFaithful(data, lo, hi, st);
    } else {
      ZeroStep(|data|, lo, hi, st);
    }
  }

  predicate SameShape(length: nat, code: Triple, python: Triple) {
    && (code.step == 1 <==> python.step == 1)
    && (code.step < 0 <==> python.step < 0)
    && (code.step == 1 ==> Cut(code, length) == (python.start, if python.stop < python.start then python.start else python.stop))
  }

  /** The step-1 cut is Python's range. */
  lemma CutAgrees(length: Word, lo: Operand, hi: Operand, st: Operand)
    requires 0 <= length < I64_MAX && AllCanonical(lo, hi, st) && AllIntegers(lo, hi, st) && ResolveStep(st) != 0
    ensures var code, python := Resolve(length, lo, hi, st), PythonIndices(length, lo, hi, st);
            && code.Ok? && python.Ok?
            && SameShape(length, code.value, python.value)
  {
    TripleResolves(length, lo, hi, st);
    PythonInBounds(length, lo, hi, st);
  }

  lemma NotIntegers(length: Word, lo: Operand, hi: Operand, st: Operand)
    requires 0 <= length < I64_MAX && AllCanonical(lo, hi, st) && !AllIntegers(lo, hi, st) && ResolveStep(st) != 0
    ensures Resolve(length, lo, hi, st).Ok? && PythonIndices(length, lo, hi, st) == Err(IndicesMustBeIntegers)
  {
    if !st.NotAnInteger? {
      StepResolves(st);
    }
  }

  /** Where the two differ, they differ in the number of positions or in whether they raise. */
  lemma UnfaithfulSizes(length: Word, lo: Operand, hi: Operand, st: Operand)
    requires 0 <= length < I64_MAX && AllCanonical(lo, hi, st) && !Faithful(length, lo, hi, st)
    ensures var code, python := Resolve(length, lo, hi, st), PythonIndices(length, lo, hi, st);
            && code.Ok?
            && if AllIntegers(lo, hi, st) then code.value.step < -1 && python.Ok? && python.value.step < -1
                   && Selected(code.value, length) == [] && WalkOf(python.value) == [0]
               else python == Err(IndicesMustBeIntegers)
  {
    if AllIntegers(lo, hi, st) {
      TripleResolves(1, lo, hi, st);
      PythonInBounds(1, lo, hi, st);
      BoundsOfOne(ResolveStep(st), lo, hi);
      var code, python := Resolve(1, lo, hi, st).value, PythonIndices(1, lo, hi, st).value;
      OneByteWalk(code.start, code.stop, code.step);
      OneByteWalk(python.start, python.stop, python.step);
    } else {
      NotIntegers(length, lo, hi, st);
    }
  }
}
