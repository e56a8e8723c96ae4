/**
 `slice.indices`: the machine-word computation of a slice's start, stop and step, against the same
 slice over unbounded integers.
 */
module Slices {
  import opened Basics

  /** A start, stop or step as a program supplies it. `Big` is an arbitrary-precision integer. */
  datatype Operand = Absent | Small(word: Word) | Flag(flag: bool) | Big(big: int) | NotAnInteger

  datatype SliceError =
    | IndicesMustBeIntegers
    | StepCannotBeZero
    | SizeMismatch(given: nat, selected: nat)
    | BadReplacement

  type SliceResult<T> = Result<T, SliceError>

  datatype Triple = Triple(start: int, stop: int, step: int)

  // ------------------------------------------------------------------ the machine-word code

  function Clamp(n: int, low: int, high: int): int {
    if n < low then low else if n > high then high else n
  }

  function BoundFromValue(v: Operand): SliceResult<Word> {
    match v
    case Small(n) => Ok(n)
    case Flag(b) => Ok(if b then 1 else 0)
    case Big(n) => Ok(if I64_MIN <= n <= I64_MAX then n else if n < 0 then I64_MIN else I64_MAX)
    case _ => Err(IndicesMustBeIntegers)
  }

  /** One bound, clamped for the direction of `step`. The result, and the sum on the way, fit a word. */
  function ClampBound(length: Word, step: Word, v: Operand, forward: Word, backward: Word): SliceResult<Word>
    requires length >= 0
  {
    if v.Absent? then Ok(if step > 0 then forward else backward)
    else
      match BoundFromValue(v)
      case Err(e) => Err(e)
      case Ok(raw) =>
        var resolved: Word := if raw < 0 then raw + length else raw;
        Ok(if step > 0 then Clamp(resolved, 0, length) else Clamp(resolved, -1, length - 1))
  }

  function StepFromValue(v: Operand): SliceResult<Word> {
    if v.Absent? then Ok(1)
    else
      match BoundFromValue(v)
      case Err(e) => Err(e)
      case Ok(step) => if step == 0 then Err(StepCannotBeZero) else Ok(step)
  }

  function ComputeIndices(length: Word, lo: Operand, hi: Operand, st: Operand): SliceResult<Triple>
    requires length >= 0
  {
    match StepFromValue(st)
    case Err(e) => Err(e)
    case Ok(step) =>
      BothBounds(ClampBound(length, step, lo, 0, length - 1), ClampBound(length, step, hi, length, -1), step)
  }

  /** The start's error is raised before the stop's. */
  function BothBounds(start: SliceResult<int>, stop: SliceResult<int>, step: int): SliceResult<Triple> {
    if start.Err? then Err(start.error)
    else if stop.Err? then Err(stop.error)
    else Ok(Triple(start.value, stop.value, step))
  }

  // ----------------------------------------------------------- slicing over unbounded integers

  function IntegerOf(v: Operand): SliceResult<int> {
    match v
    case Small(n) => Ok(n)
    case Flag(b) => Ok(if b then 1 else 0)
    case Big(n) => Ok(n)
    case _ => Err(IndicesMustBeIntegers)
  }

  function PythonBound(length: nat, step: int, v: Operand, forward: int, backward: int): SliceResult<int> {
    if v.Absent? then Ok(if step > 0 then forward else backward)
    else
      match IntegerOf(v)
      case Err(e) => Err(e)
      case Ok(n) =>
        var fromStart := if n < 0 then n + length else n;
        Ok(if step > 0 then Clamp(fromStart, 0, length) else Clamp(fromStart, -1, length - 1))
  }

  /** What Python's language reference says a slice of `length` items is, in unbounded integers. */
  function PythonIndices(length: nat, lo: Operand, hi: Operand, st: Operand): SliceResult<Triple> {
    var step := if st.Absent? then Ok(1) else IntegerOf(st);
    if step.Err? then Err(step.error)
    else if step.value == 0 then Err(StepCannotBeZero)
    else
      BothBounds(PythonBound(length, step.value, lo, 0, length - 1), PythonBound(length, step.value, hi, length, -1), step.value)
  }

  /** `v` is the integer `n`; `True` is one. */
  predicate Stands(v: Operand, n: int) {
    match v
    case Small(word) => word == n
    case Big(big) => big == n
    case Flag(flag) => n == if flag then 1 else 0
    case _ => false
  }

  /** The bound nearest to `n`, counted from the end when negative, of those the direction allows. */
  lemma BoundMeaning(length: nat, step: int, v: Operand, n: int, forward: int, backward: int)
    ensures Stands(v, n) ==>
              var b := PythonBound(length, step, v, forward, backward);
              var low, high := if step > 0 then 0 else -1, if step > 0 then length else length - 1;
              && b.Ok?
              && (n < 0 <= n + length ==> b.value == n + length)
              && (0 <= n <= high ==> b.value == n)
              && (n >= 0 && n > high ==> b.value == high)
              && (n + length < 0 ==> b.value == low)
    ensures PythonBound(length, step, Absent, forward, backward) == Ok(if step > 0 then forward else backward)
    ensures PythonBound(length, step, NotAnInteger, forward, backward) == Err(IndicesMustBeIntegers)
  {
  }

  /** Which error a slice raises: the step's first, then the start's or the stop's, and none without cause. */
  lemma IndicesMeaning(length: nat, lo: Operand, hi: Operand, st: Operand)
    ensures var r := PythonIndices(length, lo, hi, st);
            if st.NotAnInteger? then r == Err(IndicesMustBeIntegers)
            else if !st.Absent? && IntegerOf(st).value == 0 then r == Err(StepCannotBeZero)
            else if lo.NotAnInteger? || hi.NotAnInteger? then r == Err(IndicesMustBeIntegers)
            else
              var step := if st.Absent? then 1 else IntegerOf(st).value;
              && r.Ok? && r.value.step == step
              && Ok(r.value.start) == PythonBound(length, step, lo, 0, length - 1)
              && Ok(r.value.stop) == PythonBound(length, step, hi, length, -1)
  {
  }

  /** The whole of a sequence, forwards and backwards, and one by one between two positions. */
  lemma PlainSlices(length: nat, from: Word, to: Word)
    requires 0 <= from <= to <= length
    ensures PythonIndices(length, Absent, Absent, Absent) == Ok(Triple(0, length, 1))
    ensures PythonIndices(length, Absent, Absent, Small(-1)) == Ok(Triple(length - 1, -1, -1))
    ensures PythonIndices(length, Small(from), Small(to), Absent) == Ok(Triple(from, to, 1))
  {
  }

  predicate Before(current: int, stop: int, step: int) {
    (step > 0 && current < stop) || (step < 0 && current > stop)
  }

  /** The indices visited by stepping from `start` until `stop` is reached or passed. */
  function Walk(start: int, stop: int, step: int): seq<int>
    decreases if step > 0 then stop - start else start - stop
  {
    if Before(start, stop, step) then [start] + Walk(start + step, stop, step) else []
  }

  function WalkOf(t: Triple): seq<int> {
    Walk(t.start, t.stop, t.step)
  }

  // ------------------------------------------------------------------------------ properties

  /** `start + n * step`. */
  function Stepped(start: int, step: int, n: nat): int
    decreases n
  {
    if n == 0 then start else Stepped(start + step, step, n - 1)
  }

  /** A walk is the arithmetic progression from `start`, and ends exactly where it meets `stop`. */
  lemma {:induction false} WalkIsProgression(start: int, stop: int, step: int)
    requires step != 0
    ensures var w := Walk(start, stop, step);
            && (forall n | 0 <= n < |w| :: w[n] == Stepped(start, step, n) && Before(w[n], stop, step))
            && !Before(Stepped(start, step, |w|), stop, step)
    decreases if step > 0 then stop - start else start - stop
  {
    var w := Walk(start, stop, step);
    if Before(start, stop, step) {
      WalkIsProgression(start + step, stop, step);
      var rest := Walk(start + step, stop, step);
      forall n | 0 <= n < |w|
        ensures w[n] == Stepped(start, step, n) && Before(w[n], stop, step)
      {
        if n > 0 {
          assert w[n] == rest[n - 1];
        }
      }
    }
  }

  predicate Rising(w: seq<int>) {
    forall m, n | 0 <= m < n < |w| :: w[m] < w[n]
  }

  predicate Falling(w: seq<int>) {
    forall m, n | 0 <= m < n < |w| :: w[m] > w[n]
  }

  predicate Within(w: seq<int>, low: int, high: int) {
    forall n | 0 <= n < |w| :: low <= w[n] < high
  }

  /** Every visited index lies between `start` and `stop`, and the walk never turns round. */
  lemma {:induction false} WalkBetween(start: int, stop: int, step: int)
    ensures step > 0 ==> Within(Walk(start, stop, step), start, stop) && Rising(Walk(start, stop, step))
    ensures step <= 0 ==> Within(Walk(start, stop, step), stop + 1, start + 1) && Falling(Walk(start, stop, step))
    decreases if step > 0 then stop - start else start - stop
  {
    var w := Walk(start, stop, step);
    if Before(start, stop, step) {
      WalkBetween(start + step, stop, step);
      var rest := Walk(start + step, stop, step);
      assert w == [start] + rest;
      assert w[0] == start && forall n | 0 < n < |w| :: w[n] == rest[n - 1];
    }
  }

  /** A step that is too long to land a second time may be replaced by any other such step. */
  lemma LongSteps(start: int, stop: int, step: int, other: int)
    requires (step > 0 && other > 0) || (step < 0 && other < 0)
    requires !Before(start + step, stop, step) && !Before(start + other, stop, other)
    ensures Walk(start, stop, step) == Walk(start, stop, other)
  {
    if Before(start, stop, step) {
      assert Walk(start + step, stop, step) == [] == Walk(start + other, stop, other);
    }
  }

  predicate BoundFits(length: int, step: int, bound: int) {
    if step > 0 then 0 <= bound <= length else -1 <= bound <= length - 1
  }

  lemma BoundsAgree(length: Word, step: Word, exact: int, v: Operand, forward: Word, backward: Word)
    requires length >= 0 && (step > 0 <==> exact > 0)
    requires BoundFits(length, 1, forward) && BoundFits(length, -1, backward)
    ensures var code: SliceResult<int>, python := ClampBound(length, step, v, forward, backward), PythonBound(length, exact, v, forward, backward);
            code == python && (code.Ok? ==> BoundFits(length, step, code.value))
  {
  }

  /** A step of either sign that is saturated the same way as the exact one. */
  predicate Saturates(step: int, exact: int) {
    && (step > 0 <==> exact > 0)
    && (step < 0 <==> exact < 0)
    && (step == exact || step == I64_MAX <= exact || step == I64_MIN >= exact)
  }

  predicate InBounds(length: int, t: Triple) {
    BoundFits(length, t.step, t.start) && BoundFits(length, t.step, t.stop)
  }

  lemma StepsAgree(st: Operand)
    ensures var code, python := StepFromValue(st), if st.Absent? then Ok(1) else IntegerOf(st);
            if python.Err? then code == Err(python.error)
            else if python.value == 0 then code == Err(StepCannotBeZero)
            else code.Ok? && Saturates(code.value, python.value)
  {
  }

  lemma TriplesAgree(length: Word, lo: Operand, hi: Operand, st: Operand)
    requires length >= 0
    ensures var code, python := ComputeIndices(length, lo, hi, st), PythonIndices(length, lo, hi, st);
            if python.Err? then code == Err(python.error)
            else
              && code == Ok(Triple(python.value.start, python.value.stop, StepFromValue(st).value))
              && Saturates(code.value.step, python.value.step)
              && InBounds(length, code.value)
  {
    StepsAgree(st);
    if StepFromValue(st).Ok? {
      var step, exact := StepFromValue(st).value, if st.Absent? then 1 else IntegerOf(st).value;
      BoundsAgree(length, step, exact, lo, 0, length - 1);
      BoundsAgree(length, step, exact, hi, length, -1);
      var start, stop := PythonBound(length, exact, lo, 0, length - 1), PythonBound(length, exact, hi, length, -1);
      assert ComputeIndices(length, lo, hi, st) == BothBounds(start, stop, step);
      assert PythonIndices(length, lo, hi, st) == BothBounds(start, stop, exact);
    }
  }

  /** Saturating the step moves no index of a slice whose bounds have been clamped. */
  lemma SaturatedWalk(length: Word, t: Triple, exact: int)
    requires length >= 0 && t.step != 0 && InBounds(length, t) && Saturates(t.step, exact)
    ensures WalkOf(t) == Walk(t.start, t.stop, exact)
    ensures Within(WalkOf(t), 0, length)
  {
    WalkBetween(t.start, t.stop, t.step);
    if t.step != exact {
      LongSteps(t.start, t.stop, t.step, exact);
    }
  }

  /**
   The machine-word computation selects exactly the indices that slicing over unbounded integers
   selects, and raises the same errors; all of them are valid positions. Start and stop are the exact
   ones; the step is exact precisely when it fits a word.
   */
  lemma ComputeIsPython(length: Word, lo: Operand, hi: Operand, st: Operand)
    requires length >= 0
    ensures var code, python := ComputeIndices(length, lo, hi, st), PythonIndices(length, lo, hi, st);
            && (code.Ok? <==> python.Ok?)
            && (code.Err? ==> code.error == python.error)
            && (code.Ok? ==>
                  && WalkOf(code.value) == WalkOf(python.value)
                  && Within(WalkOf(code.value), 0, length)
                  && (code.value == python.value <==> I64_MIN <= python.value.step <= I64_MAX))
  {
    TriplesAgree(length, lo, hi, st);
    var code, python := ComputeIndices(length, lo, hi, st), PythonIndices(length, lo, hi, st);
    if code.Ok? {
      SaturatedWalk(length, code.value, python.value.step);
    }
  }
}
