/**
 The iteration guard of `collections.OrderedDict`: clear marks, entry-order generations and the watch
 each iterator carries, as a state machine over every clear, edit and move of every mapping.
 */
module OrderedGuard {
  import opened Basics

  const U64_MAX := 0xffff_ffff_ffff_ffff
  const REGISTRY_LIMIT := 1024

  datatype Mark = Mark(sequence: nat, previousLen: nat)

  /** The thread's clear counter and the mark each cleared backing left. */
  datatype Clears = Clears(sequence: nat, registry: map<int, Mark>)

  /** The size arm is raised again for ever; the mutation arm leaves the iterator exhausted. */
  datatype Outcome = ChangedSize | Mutated

  /** One mapping: how many entries it holds, and its entry-order generation. */
  datatype Mapping = Mapping(len: nat, entryOrder: nat)

  /** `observed` is the mapping whose entry order is watched, absent when it could not be resolved. */
  datatype Watch = Watch(clearSequence: nat, observed: Option<int>, entryOrderAtStart: nat)

  function SaturatingSucc(n: nat): nat {
    if n >= U64_MAX then U64_MAX else n + 1
  }

  /** A mapping that is not in `mappings` is a new, empty one. */
  function At(mappings: map<int, Mapping>, id: int): Mapping {
    if id in mappings then mappings[id] else Mapping(0, 0)
  }

  predicate Relinked(mappings: map<int, Mapping>, watch: Watch) {
    watch.observed.Some? && At(mappings, watch.observed.value).entryOrder != watch.entryOrderAtStart
  }

  function Wrapping(n: nat): (r: nat)
    ensures r < TWO64
    ensures n < TWO64 ==> r == n
  {
    n % TWO64
  }

  /** The counter and the registry after a clear of `id` that found `previousLen` entries. */
  function Noted(c: Clears, id: int, previousLen: nat): Clears {
    if previousLen == 0 then c
    else
      var kept := if |c.registry| >= REGISTRY_LIMIT then map[] else c.registry;
      Clears(SaturatingSucc(c.sequence), kept[id := Mark(c.sequence, previousLen)])
  }

  predicate MarkApplies(c: Clears, id: int, since: nat, recordedLen: nat) {
    id in c.registry && c.registry[id].sequence >= since && c.registry[id].previousLen == recordedLen
  }

  function Decide(c: Clears, relinked: bool, backing: Option<int>, recordedLen: nat, currentLen: Option<nat>, since: nat): Outcome {
    if relinked then Mutated
    else if backing.Some? && MarkApplies(c, backing.value, since, recordedLen) && currentLen == Some(0) then ChangedSize
    else Mutated
  }

  /** The sticky arm needs all of it: nothing relinked, a mark for a known backing, recent and of that length, and emptiness now. */
  lemma DecideExactly(c: Clears, relinked: bool, backing: Option<int>, recordedLen: nat, currentLen: Option<nat>, since: nat)
    ensures Decide(c, relinked, backing, recordedLen, currentLen, since) == ChangedSize
            <==> && !relinked && backing.Some? && backing.value in c.registry
                 && c.registry[backing.value].sequence >= since && c.registry[backing.value].previousLen == recordedLen
                 && currentLen == Some(0)
  {
  }

  /** The thread-local clear state. */
  class ClearLog {
    var sequence: nat
    var registry: map<int, Mark>

    ghost function State(): Clears
      reads this
    {
      Clears(sequence, registry)
    }

    constructor ()
      ensures State() == Clears(1, map[])
    {
      sequence := 1;
      registry := map[];
    }

    /** Records a clear, evicting every mark first when the registry is full. */
    method NoteClear(backing: int, previousLen: nat)
      modifies this
      ensures State() == Noted(old(State()), backing, previousLen)
    {
      if previousLen == 0 {
        return;
      }
      var current := sequence;
      sequence := SaturatingSucc(current);
      if |registry| >= REGISTRY_LIMIT {
        registry := map[];
      }
      registry := registry[backing := Mark(current, previousLen)];
    }

    /** `mappings` is what the watch's shared mutation state reads its generation from. */
    method GuardOutcome(mappings: map<int, Mapping>, backing: Option<int>, recordedLen: nat, currentLen: Option<nat>, watch: Watch)
      returns (o: Outcome)
      ensures o == Decide(State(), Relinked(mappings, watch), backing, recordedLen, currentLen, watch.clearSequence)
    {
      if watch.observed.Some? && At(mappings, watch.observed.value).entryOrder != watch.entryOrderAtStart {
        return Mutated;
      }
      var cleared := false;
      if backing.Some? && backing.value in registry {
        var mark := registry[backing.value];
        cleared := mark.sequence >= watch.clearSequence && mark.previousLen == recordedLen && currentLen == Some(0);
      }
      o := if cleared then ChangedSize else Mutated;
    }
  }

  // ------------------------------------------------------------------------------- runs

  /**
   What a program can do to a mapping. `Edit` removes and inserts entries in one tracked mutation, of which
   only the lengths before and after are compared.
   */
  datatype Event =
    | Clear(id: int)
    | Edit(id: int, removed: nat, inserted: nat)
    | Move(id: int, from: nat, to: nat)

  datatype World = World(clears: Clears, mappings: map<int, Mapping>) {
    function Look(id: int): Mapping {
      At(mappings, id)
    }
  }

  /** Whether an event takes effect on the mapping it names. */
  predicate Enabled(w: World, e: Event) {
    match e
    case Clear(_) => true
    case Edit(id, removed, _) => removed <= w.Look(id).len
    case Move(id, from, to) => from < w.Look(id).len && to < w.Look(id).len
  }

  /** The generation advances: the length changed, or an entry moved. A clear advances nothing. */
  predicate Relinks(w: World, e: Event, id: int) {
    && Enabled(w, e) && e.id == id
    && match e
       case Clear(_) => false
       case Edit(_, removed, inserted) => removed != inserted
       case Move(_, from, to) => from != to
  }

  /** An entry other than by a clear appears, disappears or moves. */
  predicate Disturbs(w: World, e: Event, id: int) {
    && Enabled(w, e) && e.id == id
    && match e
       case Clear(_) => false
       case Edit(_, removed, inserted) => removed + inserted > 0
       case Move(_, from, to) => from != to
  }

  /** As many entries are inserted as removed, in one mutation. */
  predicate Replaces(w: World, e: Event, id: int) {
    Enabled(w, e) && e.id == id && e.Edit? && e.removed == e.inserted > 0
  }

  function Step(w: World, e: Event): World {
    if !Enabled(w, e) then w
    else
      var m := w.Look(e.id);
      var order := if Relinks(w, e, e.id) then Wrapping(m.entryOrder + 1) else m.entryOrder;
      match e
      case Clear(id) => World(Noted(w.clears, id, m.len), w.mappings[id := Mapping(0, order)])
      case Edit(id, removed, inserted) => w.(mappings := w.mappings[id := Mapping(m.len - removed + inserted, order)])
      case Move(id, _, _) => w.(mappings := w.mappings[id := Mapping(m.len, order)])
  }

  function Run(w: World, es: seq<Event>): World {
    if es == [] then w else Step(Run(w, es[..|es| - 1]), es[|es| - 1])
  }

  function RelinkCount(w: World, es: seq<Event>, id: int): nat {
    if es == [] then 0
    else
      var init := es[..|es| - 1];
      RelinkCount(w, init, id) + if Relinks(Run(w, init), es[|es| - 1], id) then 1 else 0
  }

  function DisturbCount(w: World, es: seq<Event>, id: int): nat {
    if es == [] then 0
    else
      var init := es[..|es| - 1];
      DisturbCount(w, init, id) + if Disturbs(Run(w, init), es[|es| - 1], id) then 1 else 0
  }

  function ReplaceCount(w: World, es: seq<Event>, id: int): nat {
    if es == [] then 0
    else
      var init := es[..|es| - 1];
      ReplaceCount(w, init, id) + if Replaces(Run(w, init), es[|es| - 1], id) then 1 else 0
  }

  function WatchIteration(w: World, observed: Option<int>): Watch {
    Watch(w.clears.sequence, observed, if observed.Some? then w.Look(observed.value).entryOrder else 0)
  }

  /** What an iterator over `id`, created at `start`, is told in the world `now`. */
  function Diagnose(start: World, now: World, id: int, watch: Watch): Outcome {
    Decide(now.clears, Relinked(now.mappings, watch), Some(id), start.Look(id).len, Some(now.Look(id).len), watch.clearSequence)
  }

  // ------------------------------------------------------------------------ what every run keeps

  /** Marks are older than the counter, unless it is saturated; only non-empty mappings leave one. */
  predicate ValidClears(c: Clears) {
    && 1 <= c.sequence <= U64_MAX && |c.registry| <= REGISTRY_LIMIT
    && forall id | id in c.registry ::
         c.registry[id].previousLen > 0 && c.registry[id].sequence <= c.sequence
         && (c.registry[id].sequence < c.sequence || c.sequence == U64_MAX)
  }

  ghost predicate Valid(w: World) {
    ValidClears(w.clears) && forall id | id in w.mappings :: w.mappings[id].entryOrder < TWO64
  }

  lemma InsertSize(m: map<int, Mark>, id: int, mark: Mark)
    ensures |m[id := mark]| <= |m| + 1
    ensures id !in m ==> |m[id := mark]| == |m| + 1
  {
    var after := m[id := mark];
    assert after.Keys == m.Keys + {id};
    assert |after| == |after.Keys| && |m| == |m.Keys|;
  }

  lemma NotedKeepsValid(c: Clears, id: int, previousLen: nat)
    requires ValidClears(c)
    ensures ValidClears(Noted(c, id, previousLen)) && Noted(c, id, previousLen).sequence >= c.sequence
  {
    if previousLen > 0 {
      var kept := if |c.registry| >= REGISTRY_LIMIT then map[] else c.registry;
      InsertSize(kept, id, Mark(c.sequence, previousLen));
    }
  }

  lemma {:induction false} RunKeepsValid(w: World, es: seq<Event>)
    requires Valid(w)
    ensures Valid(Run(w, es)) && Run(w, es).clears.sequence >= w.clears.sequence
  {
    if es != [] {
      var before, e := Run(w, es[..|es| - 1]), es[|es| - 1];
      RunKeepsValid(w, es[..|es| - 1]);
      NotedKeepsValid(before.clears, e.id, before.Look(e.id).len);
    }
  }

  lemma WrappingSucc(n: nat)
    ensures Wrapping(Wrapping(n) + 1) == Wrapping(n + 1)
  {
  }

  lemma WrappingStays(a: nat, n: nat)
    requires a < TWO64
    ensures Wrapping(a + n) == a <==> Wrapping(n) == 0
  {
  }

  lemma StepOrder(w: World, e: Event, id: int)
    ensures Step(w, e).Look(id).entryOrder == if Relinks(w, e, id) then Wrapping(w.Look(id).entryOrder + 1) else w.Look(id).entryOrder
  {
  }

  /** The generation counts the relinks, modulo the machine word. */
  lemma {:induction false} EntryOrderCounts(w: World, es: seq<Event>, id: int)
    requires Valid(w)
    ensures Run(w, es).Look(id).entryOrder == Wrapping(w.Look(id).entryOrder + RelinkCount(w, es, id))
  {
    if es != [] {
      EntryOrderCounts(w, es[..|es| - 1], id);
      StepOrder(Run(w, es[..|es| - 1]), es[|es| - 1], id);
      WrappingSucc(w.Look(id).entryOrder + RelinkCount(w, es[..|es| - 1], id));
    }
  }

  /** A watch sees a relink unless their number is a multiple of 2^64. */
  lemma RelinkedExactly(w: World, es: seq<Event>, id: int)
    requires Valid(w)
    ensures Relinked(Run(w, es).mappings, WatchIteration(w, Some(id))) <==> Wrapping(RelinkCount(w, es, id)) != 0
  {
    EntryOrderCounts(w, es, id);
    WrappingStays(w.Look(id).entryOrder, RelinkCount(w, es, id));
  }

  /** What the generation misses is exactly the equal-sized replacements. */
  lemma {:induction false} RelinksAndReplacements(w: World, es: seq<Event>, id: int)
    ensures DisturbCount(w, es, id) == RelinkCount(w, es, id) + ReplaceCount(w, es, id)
  {
    if es != [] {
      RelinksAndReplacements(w, es[..|es| - 1], id);
    }
  }

  /** Short of 2^64 relinks, a watch sees every disturbance exactly when not all of them are replacements. */
  lemma DisturbanceSeenExactly(w: World, es: seq<Event>, id: int)
    requires Valid(w) && RelinkCount(w, es, id) < TWO64 && DisturbCount(w, es, id) > 0
    ensures Relinked(Run(w, es).mappings, WatchIteration(w, Some(id))) <==> ReplaceCount(w, es, id) < DisturbCount(w, es, id)
  {
    RelinkedExactly(w, es, id);
    RelinksAndReplacements(w, es, id);
  }

  /** The entries the edits of a mapping inserted, those they removed, and those its clears found. */
  function InsertedIn(w: World, es: seq<Event>, id: int): nat {
    if es == [] then 0
    else
      var init, e := es[..|es| - 1], es[|es| - 1];
      InsertedIn(w, init, id) + if e.Edit? && e.id == id && e.removed <= Run(w, init).Look(id).len then e.inserted else 0
  }

  function RemovedIn(w: World, es: seq<Event>, id: int): nat {
    if es == [] then 0
    else
      var init, e := es[..|es| - 1], es[|es| - 1];
      RemovedIn(w, init, id) + if e.Edit? && e.id == id && e.removed <= Run(w, init).Look(id).len then e.removed else 0
  }

  function ClearedIn(w: World, es: seq<Event>, id: int): nat {
    if es == [] then 0
    else
      var init, e := es[..|es| - 1], es[|es| - 1];
      ClearedIn(w, init, id) + if e == Clear(id) then Run(w, init).Look(id).len else 0
  }

  /** No entry is lost or made up: what was there and came in is what is there, went out or was cleared. */
  lemma {:induction false} EntriesAccounted(w: World, es: seq<Event>, id: int)
    ensures w.Look(id).len + InsertedIn(w, es, id) == Run(w, es).Look(id).len + RemovedIn(w, es, id) + ClearedIn(w, es, id)
  {
    if es != [] {
      EntriesAccounted(w, es[..|es| - 1], id);
      StepLength(Run(w, es[..|es| - 1]), es[|es| - 1], id);
    }
  }

  lemma StepLength(w: World, e: Event, id: int)
    ensures Step(w, e).Look(id).len
            == if e == Clear(id) then 0
               else if e.Edit? && e.id == id && e.removed <= w.Look(id).len then w.Look(id).len - e.removed + e.inserted
               else w.Look(id).len
  {
  }

  // ------------------------------------------------------------------------ which mark is left

  /** Where the mark of a backing comes from: the run, with the length then held, or before it. */
  datatype Origin = NoMark | FromRun(len: nat) | FromBefore

  predicate Evicts(w: World, e: Event) {
    e.Clear? && w.Look(e.id).len > 0 && |w.clears.registry| >= REGISTRY_LIMIT
  }

  /** The last non-empty clear of `id`, unless every mark has been evicted since. */
  function LastMark(w: World, es: seq<Event>, id: int): Origin {
    if es == [] then if id in w.clears.registry then FromBefore else NoMark
    else
      var init, e := es[..|es| - 1], es[|es| - 1];
      var now := Run(w, init);
      if e == Clear(id) && now.Look(id).len > 0 then FromRun(now.Look(id).len)
      else if Evicts(now, e) then NoMark
      else LastMark(w, init, id)
  }

  predicate MarkIs(w: World, now: Clears, id: int, origin: Origin) {
    match origin
    case NoMark => id !in now.registry
    case FromRun(len) => id in now.registry && now.registry[id].sequence >= w.clears.sequence && now.registry[id].previousLen == len
    case FromBefore => id in now.registry && id in w.clears.registry && now.registry[id] == w.clears.registry[id]
  }

  lemma {:induction false} MarkIsLast(w: World, es: seq<Event>, id: int)
    requires Valid(w)
    ensures MarkIs(w, Run(w, es).clears, id, LastMark(w, es, id))
  {
    if es != [] {
      MarkIsLast(w, es[..|es| - 1], id);
      RunKeepsValid(w, es[..|es| - 1]);
    }
  }

  /** A mark left before the watch counts only when the counter had already run out. */
  predicate StaleMarkCounts(w: World, id: int, recordedLen: nat) {
    MarkApplies(w.clears, id, U64_MAX, recordedLen)
  }

  /**
   Every run, exactly: the sticky size arm is chosen when the relinks seen amount to none, the mapping is
   empty now, and the last mark it left was left since the watch (or at the counter's last value) while it
   held the recorded length.
   */
  lemma DiagnosisExactly(w: World, es: seq<Event>, id: int, observed: Option<int>)
    requires Valid(w) && (observed == None || observed == Some(id))
    ensures Diagnose(w, Run(w, es), id, WatchIteration(w, observed)) == ChangedSize
            <==> && (observed == None || Wrapping(RelinkCount(w, es, id)) == 0)
                 && Run(w, es).Look(id).len == 0
                 && (|| LastMark(w, es, id) == FromRun(w.Look(id).len)
                     || (LastMark(w, es, id) == FromBefore && StaleMarkCounts(w, id, w.Look(id).len)))
  {
    RelinkedExactly(w, es, id);
    MarkIsLast(w, es, id);
  }

  // ------------------------------------------------------------------- the guard as documented

  /** No clear in the run finds the registry full. */
  predicate NoEviction(w: World, es: seq<Event>) {
    es == [] || (NoEviction(w, es[..|es| - 1]) && !Evicts(Run(w, es[..|es| - 1]), es[|es| - 1]))
  }

  /** Without relinks, only a clear can change the length, and it leaves the length it found. */
  lemma {:induction false} WithoutRelinks(w: World, es: seq<Event>, id: int)
    requires Valid(w) && RelinkCount(w, es, id) == 0 && NoEviction(w, es)
    ensures Run(w, es).Look(id).len == if Clear(id) in es then 0 else w.Look(id).len
    ensures Clear(id) in es && w.Look(id).len > 0 ==> LastMark(w, es, id) == FromRun(w.Look(id).len)
  {
    if es != [] {
      var init, e := es[..|es| - 1], es[|es| - 1];
      WithoutRelinks(w, init, id);
      assert es == init + [e];
    }
  }

  /**
   While no mark is evicted and fewer than 2^64 relinks have happened, the sticky arm is chosen exactly
   when the watched mapping held something, has been cleared since, and has not been relinked. Nothing is
   asked of the counter: its saturation never hides a clear.
   */
  lemma StickyExactlyAfterClear(w: World, es: seq<Event>, id: int)
    requires Valid(w) && NoEviction(w, es) && RelinkCount(w, es, id) < TWO64
    ensures Diagnose(w, Run(w, es), id, WatchIteration(w, Some(id))) == ChangedSize
            <==> RelinkCount(w, es, id) == 0 && w.Look(id).len > 0 && Clear(id) in es
  {
    DiagnosisExactly(w, es, id, Some(id));
    if RelinkCount(w, es, id) == 0 {
      WithoutRelinks(w, es, id);
      if w.Look(id).len == 0 {
        EmptyLeavesNoMark(w, es, id);
      }
    }
  }

  /** The same in terms of what was done to the mapping, when nothing was replaced in one mutation. */
  lemma StickyExactlyUndisturbed(w: World, es: seq<Event>, id: int)
    requires Valid(w) && NoEviction(w, es) && RelinkCount(w, es, id) < TWO64 && ReplaceCount(w, es, id) == 0
    ensures Diagnose(w, Run(w, es), id, WatchIteration(w, Some(id))) == ChangedSize
            <==> DisturbCount(w, es, id) == 0 && w.Look(id).len > 0 && Clear(id) in es
  {
    StickyExactlyAfterClear(w, es, id);
    RelinksAndReplacements(w, es, id);
  }

  /** A mapping that stays empty leaves no mark, and no mark records an empty mapping. */
  lemma {:induction false} EmptyLeavesNoMark(w: World, es: seq<Event>, id: int)
    requires Valid(w)
    ensures LastMark(w, es, id) != FromRun(0) && !StaleMarkCounts(w, id, 0)
  {
    if es != [] {
      EmptyLeavesNoMark(w, es[..|es| - 1], id);
    }
  }

  /** The backings a run clears. */
  function Cleared(es: seq<Event>): set<int> {
    set e | e in es && e.Clear? :: e.id
  }

  lemma NotedKeys(c: Clears, id: int, previousLen: nat, all: set<int>)
    requires c.registry.Keys <= all && id in all && |all| < REGISTRY_LIMIT
    ensures Noted(c, id, previousLen).registry.Keys <= all && |c.registry| < REGISTRY_LIMIT
  {
    Smaller(c.registry.Keys, all);
    assert |c.registry| == |c.registry.Keys|;
  }

  /** Fewer than 1024 distinct backings, ever marked or cleared, never evict a mark. */
  lemma {:induction false} FewBackings(w: World, es: seq<Event>, all: set<int>)
    requires w.clears.registry.Keys + Cleared(es) <= all && |all| < REGISTRY_LIMIT
    ensures NoEviction(w, es)
    ensures Run(w, es).clears.registry.Keys <= all
  {
    if es != [] {
      var init, e := es[..|es| - 1], es[|es| - 1];
      ClearedLast(es);
      FewBackings(w, init, all);
      StepKeys(Run(w, init), e, all);
    }
  }

  lemma ClearedLast(es: seq<Event>)
    requires es != []
    ensures Cleared(es[..|es| - 1]) <= Cleared(es)
    ensures es[|es| - 1].Clear? ==> es[|es| - 1].id in Cleared(es)
  {
  }

  lemma StepKeys(now: World, e: Event, all: set<int>)
    requires now.clears.registry.Keys <= all && |all| < REGISTRY_LIMIT && (e.Clear? ==> e.id in all)
    ensures !Evicts(now, e) && Step(now, e).clears.registry.Keys <= all
  {
    if e.Clear? {
      NotedKeys(now.clears, e.id, now.Look(e.id).len, all);
    }
  }

  lemma Smaller(a: set<int>, b: set<int>)
    requires a <= b
    ensures |a| <= |b|
  {
    if a != b {
      assert b == a + (b - a);
      assert |b| == |a| + |b - a|;
    }
  }

  // ------------------------------------------------------------------- where it fails

  /** Mappings 1 to n, each given an entry and then cleared. */
  function ClearOthers(n: nat): seq<Event> {
    if n == 0 then [] else ClearOthers(n - 1) + [Edit(n, 0, 1)] + [Clear(n)]
  }

  lemma RunOne(w: World, e: Event)
    ensures Run(w, [e]) == Step(w, e)
  {
    assert [e][..|[e]| - 1] == [];
  }

  lemma RunTwo(w: World, es: seq<Event>, a: Event, b: Event)
    ensures Run(w, es + [a] + [b]) == Step(Step(Run(w, es), a), b)
  {
    assert (es + [a] + [b])[..|es| + 1] == es + [a];
    assert (es + [a])[..|es|] == es;
  }

  /** One more mapping filled and cleared. */
  lemma ClearOneMore(now: World, n: nat)
    requires n > 0 && n !in now.mappings && n !in now.clears.registry
    ensures var after := Step(Step(now, Edit(n, 0, 1)), Clear(n));
            && after.mappings == now.mappings[n := Mapping(0, 1)]
            && after.clears == Noted(now.clears, n, 1)
  {
    assert Wrapping(0 + 1) == 1;
  }

  lemma {:induction false} OthersCleared(w: World, n: nat)
    requires n < REGISTRY_LIMIT && w.clears.registry.Keys == {0} && w.mappings.Keys == {0}
    ensures var now := Run(w, ClearOthers(n));
            && |now.clears.registry| == n + 1 && now.Look(0) == w.Look(0)
            && (forall k | k in now.mappings :: 0 <= k <= n)
            && (forall k | k in now.clears.registry :: 0 <= k <= n)
  {
    if n == 0 {
      assert |w.clears.registry| == |w.clears.registry.Keys|;
      assert forall k | k in w.mappings :: k in w.mappings.Keys;
      assert forall k | k in w.clears.registry :: k in w.clears.registry.Keys;
    } else {
      OthersCleared(w, n - 1);
      var now := Run(w, ClearOthers(n - 1));
      RunTwo(w, ClearOthers(n - 1), Edit(n, 0, 1), Clear(n));
      ClearOneMore(now, n);
      InsertSize(now.clears.registry, n, Mark(now.clears.sequence, 1));
    }
  }

  /**
   The bound on the registry matters: an iterator over a cleared mapping is told of a mutation once 1024
   other mappings have been cleared, although nothing relinked the mapping it walks.
   */
  lemma EvictionExample(w: World)
    requires Valid(w) && w.clears.registry == map[] && w.mappings == map[0 := Mapping(1, 0)]
    ensures var es := [Clear(0)] + ClearOthers(REGISTRY_LIMIT);
            && Diagnose(w, Run(w, es), 0, WatchIteration(w, Some(0))) == Mutated
            && !Relinked(Run(w, es).mappings, WatchIteration(w, Some(0)))
            && Diagnose(w, Run(w, [Clear(0)]), 0, WatchIteration(w, Some(0))) == ChangedSize
  {
    var first := OnlyCleared(w);
    RunAfter(w, [Clear(0)], ClearOthers(REGISTRY_LIMIT));
    AllOthersCleared(first);
  }

  /** Clearing the only mapping leaves its mark and nothing else. */
  lemma OnlyCleared(w: World) returns (first: World)
    requires w.clears.registry == map[] && w.mappings == map[0 := Mapping(1, 0)]
    ensures first == Run(w, [Clear(0)])
    ensures first.clears.registry == map[0 := Mark(w.clears.sequence, 1)] && first.mappings == map[0 := Mapping(0, 0)]
  {
    RunOne(w, Clear(0));
    first := Step(w, Clear(0));
  }

  /** Clearing as many others as there are places evicts the mark. */
  lemma AllOthersCleared(first: World)
    requires first.clears.registry.Keys == {0} && first.mappings.Keys == {0}
    ensures var last := Run(first, ClearOthers(REGISTRY_LIMIT));
            last.clears.registry.Keys == {REGISTRY_LIMIT} && last.Look(0) == first.Look(0)
  {
    var n: nat := REGISTRY_LIMIT;
    OthersCleared(first, n - 1);
    var now := Run(first, ClearOthers(n - 1));
    LastOfOthers(first, n);
    ClearOneMore(now, n);
    OnlyMarkKept(now.clears, n, 1);
  }

  lemma LastOfOthers(w: World, n: nat)
    requires n > 0
    ensures Run(w, ClearOthers(n)) == Step(Step(Run(w, ClearOthers(n - 1)), Edit(n, 0, 1)), Clear(n))
  {
    RunTwo(w, ClearOthers(n - 1), Edit(n, 0, 1), Clear(n));
  }

  lemma OnlyMarkKept(c: Clears, id: int, previousLen: nat)
    requires |c.registry| >= REGISTRY_LIMIT && previousLen > 0
    ensures Noted(c, id, previousLen).registry.Keys == {id}
  {
  }

  lemma {:induction false} RunAfter(w: World, es: seq<Event>, more: seq<Event>)
    ensures Run(w, es + more) == Run(Run(w, es), more)
    decreases |more|
  {
    if more == [] {
      assert es + more == es;
    } else {
      RunAfter(w, es, more[..|more| - 1]);
      assert (es + more)[..|es + more| - 1] == es + more[..|more| - 1];
    }
  }

  /**
   The storage primitive does not see the only entry replaced in one mutation, and the iterator is not told.
   This concerns the primitive alone: no operation of `OrderedDict` is known to make such a mutation.
   */
  lemma ReplacementExample(w: World)
    requires w == World(Clears(1, map[]), map[7 := Mapping(1, 0)])
    ensures Valid(w) && Disturbs(w, Edit(7, 1, 1), 7)
    ensures !Relinked(Run(w, [Edit(7, 1, 1)]).mappings, WatchIteration(w, Some(7)))
    ensures Run(w, [Edit(7, 1, 1)]).Look(7).len == w.Look(7).len
  {
    RunOne(w, Edit(7, 1, 1));
  }

  /**
   Without an observed entry order, a saturated counter lets a mark from before the watch answer for
   entries that were merely deleted.
   */
  lemma StaleMarkExample(w: World)
    requires w == World(Clears(U64_MAX, map[7 := Mark(U64_MAX, 3)]), map[7 := Mapping(3, 3)])
    ensures Valid(w)
    ensures Diagnose(w, Run(w, [Edit(7, 3, 0)]), 7, WatchIteration(w, None)) == ChangedSize
    ensures Diagnose(w, Run(w, [Edit(7, 3, 0)]), 7, WatchIteration(w, Some(7))) == Mutated
  {
  }
}
