/**
 The task-queue candidate of the durable-execution spike under crash injection: a worker that
 commits a sample's effects, may crash, and only then advances its checkpoint.
 */
module CrashInjection {
  import opened Collections

  datatype Mode = Naive | Idempotent

  /** What survives a worker: the crash marker, the two tables and the checkpoint. */
  datatype Durable = Durable(marker: bool, results: multiset<int>, costs: multiset<int>, checkpoint: int)

  /** Where the worker stands within the sample it is on. */
  datatype Pc = Score | Cost | Window | Report

  datatype Worker = Down | At(sample: int, pc: Pc) | Done

  datatype State = State(durable: Durable, worker: Worker)

  /** `Tick` is the worker's next action; `Kill` ends the process at that point; `Start` starts one. */
  datatype Event = Tick | Kill | Start

  const FRESH: Durable := Durable(false, multiset{}, multiset{}, -1)

  function RecordCost(costs: multiset<int>, sample: int, mode: Mode): multiset<int> {
    if mode == Idempotent && sample in costs then costs else costs + multiset{sample}
  }

  function Begin(sample: int, n: nat): Worker {
    if sample >= n then Done else At(sample, Score)
  }

  function Max(a: int, b: int): int {
    if a >= b then a else b
  }

  /** One event. `target` is the sample to crash at, read from the environment. */
  function Step(s: State, e: Event, n: nat, mode: Mode, target: Option<int>): State {
    var d := s.durable;
    match e
    case Kill => s.(worker := if s.worker.Done? then Done else Down)
    case Start => if s.worker.Down? then s.(worker := Begin(d.checkpoint + 1, n)) else s
    case Tick =>
      match s.worker
      case Down => s
      case Done => s
      case At(i, pc) =>
        match pc
        case Score => State(d.(results := d.results + multiset{i}), At(i, Cost))
        case Cost => State(d.(costs := RecordCost(d.costs, i, mode)), At(i, Window))
        case Window =>
          if target == Some(i) && !d.marker then State(d.(marker := true), Down) else s.(worker := At(i, Report))
        case Report => State(d.(checkpoint := Max(d.checkpoint, i)), Begin(i + 1, n))
  }

  function Run(s: State, events: seq<Event>, n: nat, mode: Mode, target: Option<int>): State
    decreases |events|
  {
    if events == [] then s else Run(Step(s, events[0], n, mode, target), events[1..], n, mode, target)
  }

  // ---------------------------------------------------------------- the code

  class Spike {
    var durable: Durable

    constructor ()
      ensures durable == FRESH
    {
      durable := FRESH;
    }

    /** Exits the process the first time the target sample passes, and never again until the marker is reset. */
    method MaybeCrash(target: Option<int>, sample: int) returns (exits: bool)
      modifies this
      ensures exits <==> target == Some(sample) && !old(durable).marker
      ensures durable == old(durable).(marker := old(durable).marker || exits)
    {
      if target == None || target.value != sample {
        return false;
      }
      if durable.marker {
        return false;
      }
      durable := durable.(marker := true);
      return true;
    }

    method ResetMarker()
      modifies this
      ensures durable == old(durable).(marker := false)
    {
      if durable.marker {
        durable := durable.(marker := false);
      }
    }

    /** One worker process: from its checkpoint to the end, or to its crash. */
    method EvaluationRun(n: nat, mode: Mode, target: Option<int>) returns (finished: bool, ghost events: seq<Event>)
      requires -1 <= durable.checkpoint
      modifies this
      ensures Run(State(old(durable), Down), events, n, mode, target) == State(durable, if finished then Done else Down)
      ensures Kill !in events && -1 <= durable.checkpoint
      ensures durable.marker == (old(durable).marker || !finished)
      ensures !finished ==> !old(durable).marker
    {
      ghost var start := State(durable, Down);
      var i := durable.checkpoint + 1;
      events := [Start];
      RunOne(start, Start, n, mode, target);
      while i < n
        invariant 0 <= i && -1 <= durable.checkpoint
        invariant Run(start, events, n, mode, target) == State(durable, Begin(i, n))
        invariant Kill !in events && durable.marker == old(durable).marker
      {
        SampleTicks(durable, i, n, mode, target);
        durable := durable.(results := durable.results + multiset{i});
        durable := durable.(costs := RecordCost(durable.costs, i, mode));
        var exits := MaybeCrash(target, i);
        ghost var ticks := if exits then ThreeTicks() else FourTicks();
        RunConcat(start, events, ticks, n, mode, target);
        events := events + ticks;
        if exits {
          return false, events;
        }
        durable := durable.(checkpoint := Max(durable.checkpoint, i));
        i := i + 1;
      }
      return true, events;
    }

    /** Restart the worker until a run finishes: the injected crash happens at most once, so this ends. */
    method Drive(n: nat, mode: Mode, target: Option<int>) returns (restarts: nat)
      requires durable == FRESH
      modifies this
      ensures restarts == if InRange(target, n) then 1 else 0
      ensures durable.marker <==> InRange(target, n)
      ensures forall k :: durable.results[k] == Expected(k, n, target, true)
      ensures forall k :: durable.costs[k] == Expected(k, n, target, mode == Naive)
    {
      ghost var all: seq<Event> := [];
      var finished := false;
      restarts := 0;
      ghost var start := State(FRESH, Down);
      while !finished
        invariant Run(start, all, n, mode, target) == State(durable, if finished then Done else Down)
        invariant Kill !in all && -1 <= durable.checkpoint
        invariant restarts <= 1 && (durable.marker <==> restarts == 1)
        decreases !finished, if durable.marker then 0 else 1
      {
        ghost var events;
        finished, events := EvaluationRun(n, mode, target);
        RunConcat(start, all, events, n, mode, target);
        all := all + events;
        if !finished {
          restarts := restarts + 1;
        }
      }
      UninterruptedRun(start, all, n, mode, target);
    }
  }

  function ThreeTicks(): seq<Event> {
    [Tick, Tick, Tick]
  }

  function FourTicks(): seq<Event> {
    [Tick, Tick, Tick, Tick]
  }

  predicate InRange(target: Option<int>, n: nat) {
    target.Some? && 0 <= target.value < n
  }

  /** Rows for a sample after a finished run: one, and one more where the crash repeated it. */
  function Expected(k: int, n: nat, target: Option<int>, repeats: bool): nat {
    if 0 <= k < n then (if target == Some(k) && repeats then 2 else 1) else 0
  }

  lemma {:induction false} RunConcat(s: State, a: seq<Event>, b: seq<Event>, n: nat, mode: Mode, target: Option<int>)
    ensures Run(s, a + b, n, mode, target) == Run(Run(s, a, n, mode, target), b, n, mode, target)
    decreases |a|
  {
    if a == [] {
      assert a + b == b;
    } else {
      assert (a + b)[1..] == a[1..] + b;
      RunConcat(Step(s, a[0], n, mode, target), a[1..], b, n, mode, target);
    }
  }

  lemma RunOne(s: State, e: Event, n: nat, mode: Mode, target: Option<int>)
    ensures Run(s, [e], n, mode, target) == Step(s, e, n, mode, target)
  {
    assert [e][1..] == [];
  }

  lemma RunTicks(s: State, n: nat, mode: Mode, target: Option<int>)
    ensures Run(s, ThreeTicks(), n, mode, target)
         == Step(Step(Step(s, Tick, n, mode, target), Tick, n, mode, target), Tick, n, mode, target)
    ensures Run(s, FourTicks(), n, mode, target)
         == Step(Run(s, ThreeTicks(), n, mode, target), Tick, n, mode, target)
  {
    RunConcat(s, [Tick], [Tick], n, mode, target);
    RunConcat(s, [Tick, Tick], [Tick], n, mode, target);
    RunConcat(s, ThreeTicks(), [Tick], n, mode, target);
    assert [Tick] + [Tick] == [Tick, Tick] && [Tick, Tick] + [Tick] == ThreeTicks()
      && ThreeTicks() + [Tick] == FourTicks();
    RunOne(s, Tick, n, mode, target);
    RunOne(Run(s, [Tick], n, mode, target), Tick, n, mode, target);
    RunOne(Run(s, [Tick, Tick], n, mode, target), Tick, n, mode, target);
    RunOne(Run(s, ThreeTicks(), n, mode, target), Tick, n, mode, target);
  }

  /** The ticks of one sample, up to its crash or through its report. */
  lemma SampleTicks(d: Durable, i: int, n: nat, mode: Mode, target: Option<int>)
    ensures var s, done := State(d, At(i, Score)),
                           d.(results := d.results + multiset{i}, costs := RecordCost(d.costs, i, mode));
            if target == Some(i) && !d.marker
            then Run(s, ThreeTicks(), n, mode, target) == State(done.(marker := true), Down)
            else Run(s, FourTicks(), n, mode, target)
                 == State(done.(checkpoint := Max(d.checkpoint, i)), Begin(i + 1, n))
  {
    RunTicks(State(d, At(i, Score)), n, mode, target);
  }

  // ---------------------------------------------------------------- the crash fires once

  predicate Crashes(s: State, e: Event, target: Option<int>) {
    e == Tick && s.worker.At? && s.worker.pc == Window && target == Some(s.worker.sample) && !s.durable.marker
  }

  function CrashCount(s: State, events: seq<Event>, n: nat, mode: Mode, target: Option<int>): nat
    decreases |events|
  {
    if events == [] then 0
    else (if Crashes(s, events[0], target) then 1 else 0)
         + CrashCount(Step(s, events[0], n, mode, target), events[1..], n, mode, target)
  }

  /** Between marker resets, whatever is killed and restarted, the injected crash fires at most once. */
  lemma {:induction false} CrashesAtMostOnce(s: State, events: seq<Event>, n: nat, mode: Mode, target: Option<int>)
    ensures CrashCount(s, events, n, mode, target)
         == if !s.durable.marker && Run(s, events, n, mode, target).durable.marker then 1 else 0
    ensures s.durable.marker ==> Run(s, events, n, mode, target).durable.marker
    decreases |events|
  {
    if events != [] {
      CrashesAtMostOnce(Step(s, events[0], n, mode, target), events[1..], n, mode, target);
    }
  }

  // ---------------------------------------------------------------- restarting

  /** Whatever happens, the checkpoint never goes back. */
  lemma {:induction false} CheckpointHolds(s: State, events: seq<Event>, n: nat, mode: Mode, target: Option<int>)
    ensures s.durable.checkpoint <= Run(s, events, n, mode, target).durable.checkpoint
    decreases |events|
  {
    if events != [] {
      CheckpointHolds(Step(s, events[0], n, mode, target), events[1..], n, mode, target);
    }
  }

  /** A process killed at any point of a sample keeps what is durable, and the next starts behind the checkpoint. */
  lemma KillAndStart(d: Durable, i: int, pc: Pc, n: nat, mode: Mode, target: Option<int>)
    ensures Run(State(d, At(i, pc)), [Kill, Start], n, mode, target)
         == State(d, if d.checkpoint + 1 < n then At(d.checkpoint + 1, Score) else Done)
  {
    assert [Kill, Start][1..] == [Start];
    RunOne(State(d, Down), Start, n, mode, target);
  }

  /** Killed between its effects and its report, a sample is done again: its result twice, its cost twice if naive. */
  lemma KilledSampleRepeats(d: Durable, i: nat, n: nat, mode: Mode)
    requires d.checkpoint == i - 1 && i < n
    ensures var after := Run(State(d, At(i, Score)), [Tick, Tick, Kill, Start] + FourTicks(), n, mode, None);
            && after.durable.results == d.results + multiset{i, i}
            && after.durable.costs == d.costs + (if mode == Naive then multiset{i, i}
                                                 else if i in d.costs then multiset{} else multiset{i})
            && after.durable.checkpoint == i && after.worker == if i + 1 < n then At(i + 1, Score) else Done
  {
    var s := State(d, At(i, Score));
    var once := d.(results := d.results + multiset{i}, costs := RecordCost(d.costs, i, mode));
    RunConcat(s, [Tick, Tick, Kill, Start], FourTicks(), n, mode, None);
    RunConcat(s, [Tick, Tick], [Kill, Start], n, mode, None);
    assert [Tick, Tick] + [Kill, Start] == [Tick, Tick, Kill, Start];
    TwoTicks(d, i, n, mode);
    KillAndStart(once, i, Window, n, mode, None);
    SampleTicks(once, i, n, mode, None);
  }

  lemma TwoTicks(d: Durable, i: int, n: nat, mode: Mode)
    ensures Run(State(d, At(i, Score)), [Tick, Tick], n, mode, None)
         == State(d.(results := d.results + multiset{i}, costs := RecordCost(d.costs, i, mode)), At(i, Window))
  {
    var s := State(d, At(i, Score));
    RunConcat(s, [Tick], [Tick], n, mode, None);
    assert [Tick] + [Tick] == [Tick, Tick];
    RunOne(s, Tick, n, mode, None);
    RunOne(Run(s, [Tick], n, mode, None), Tick, n, mode, None);
  }

  // ---------------------------------------------------------------- every schedule

  function Extra(d: Durable): nat {
    if d.marker then 1 else 0
  }

  /** How far sample `k` has got: 0 not begun in this process, 1 result in, 2 cost in as well. */
  function Stage(s: State, k: int): nat {
    if !(s.worker.At? && s.worker.sample == k) then 0
    else match s.worker.pc
      case Score => 0
      case Cost => 1
      case Window => 2
      case Report => 2
  }

  /** The sample's result is in and its cost is next. */
  predicate AboutToCost(s: State, k: int) {
    s.worker == At(k, Cost)
  }

  /**
   What holds after any schedule with `kills` kills: nothing at or before the checkpoint is
   lost, nothing beyond the sample in hand exists, no sample has more costs than results, the
   idempotent ledger never holds a cost twice, and a sample is repeated at most once for each interruption.
   */
  ghost predicate Safe(s: State, n: nat, mode: Mode, kills: nat) {
    var d := s.durable;
    && -1 <= d.checkpoint < (if n == 0 then 1 else n) && (n == 0 ==> d.checkpoint == -1)
    && (s.worker.At? ==> s.worker.sample == d.checkpoint + 1 < n)
    && (s.worker.Done? ==> d.checkpoint == n - 1)
    && (forall k :: k < 0 || k >= n || k > d.checkpoint + 1 ==> d.results[k] == 0 && d.costs[k] == 0)
    && (forall k :: 0 <= k <= d.checkpoint ==> 1 <= d.results[k] <= 1 + kills + Extra(d) && 1 <= d.costs[k])
    && (var k := d.checkpoint + 1; d.results[k] <= kills + Extra(d) + (if Stage(s, k) >= 1 then 1 else 0))
    && (Stage(s, d.checkpoint + 1) >= 1 ==> d.results[d.checkpoint + 1] >= 1)
    && (Stage(s, d.checkpoint + 1) >= 2 ==> d.costs[d.checkpoint + 1] >= 1)
    && (forall k :: d.costs[k] + (if AboutToCost(s, k) then 1 else 0) <= d.results[k])
    && (mode == Idempotent ==> forall k :: d.costs[k] <= 1)
  }

  function KillOf(e: Event): nat {
    if e == Kill then 1 else 0
  }

  function KillCount(events: seq<Event>): nat {
    if events == [] then 0 else KillOf(events[0]) + KillCount(events[1..])
  }

  /** A property of the state and the number of kills so far. */
  type Invariant = (State, nat) -> bool

  lemma OneMoreRow(rows: multiset<int>, i: int)
    ensures forall k :: (rows + multiset{i})[k] == rows[k] + (if k == i then 1 else 0)
  {
  }

  lemma SafeRestart(s: State, e: Event, n: nat, mode: Mode, target: Option<int>, kills: nat)
    requires Safe(s, n, mode, kills) && (e != Tick || !s.worker.At?)
    ensures Safe(Step(s, e, n, mode, target), n, mode, kills + KillOf(e))
  {
  }

  lemma SafeScore(s: State, n: nat, mode: Mode, target: Option<int>, kills: nat)
    requires Safe(s, n, mode, kills) && s.worker.At? && s.worker.pc == Score
    ensures Safe(Step(s, Tick, n, mode, target), n, mode, kills)
  {
    OneMoreRow(s.durable.results, s.worker.sample);
  }

  lemma SafeCost(s: State, n: nat, mode: Mode, target: Option<int>, kills: nat)
    requires Safe(s, n, mode, kills) && s.worker.At? && s.worker.pc == Cost
    ensures Safe(Step(s, Tick, n, mode, target), n, mode, kills)
  {
    OneMoreRow(s.durable.costs, s.worker.sample);
  }

  lemma SafeWindow(s: State, n: nat, mode: Mode, target: Option<int>, kills: nat)
    requires Safe(s, n, mode, kills) && s.worker.At? && s.worker.pc == Window
    ensures Safe(Step(s, Tick, n, mode, target), n, mode, kills)
  {
  }

  lemma SafeReport(s: State, n: nat, mode: Mode, target: Option<int>, kills: nat)
    requires Safe(s, n, mode, kills) && s.worker.At? && s.worker.pc == Report
    ensures Safe(Step(s, Tick, n, mode, target), n, mode, kills)
  {
  }

  lemma SafeTick(s: State, n: nat, mode: Mode, target: Option<int>, kills: nat)
    requires Safe(s, n, mode, kills) && s.worker.At?
    ensures Safe(Step(s, Tick, n, mode, target), n, mode, kills)
  {
    match s.worker.pc
    case Score => SafeScore(s, n, mode, target, kills);
    case Cost => SafeCost(s, n, mode, target, kills);
    case Window => SafeWindow(s, n, mode, target, kills);
    case Report => SafeReport(s, n, mode, target, kills);
  }

  lemma SafeStep(s: State, e: Event, n: nat, mode: Mode, target: Option<int>, kills: nat)
    requires Safe(s, n, mode, kills)
    ensures Safe(Step(s, e, n, mode, target), n, mode, kills + KillOf(e))
  {
    if e != Tick || !s.worker.At? {
      SafeRestart(s, e, n, mode, target, kills);
    } else {
      SafeTick(s, n, mode, target, kills);
      assert kills + KillOf(e) == kills;
    }
  }

  /** What every event keeps, every schedule keeps. */
  lemma {:induction false} RunKeeps(inv: Invariant, s: State, events: seq<Event>, n: nat, mode: Mode,
                                    target: Option<int>, kills: nat)
    requires forall t, e, k: nat :: inv(t, k) ==> inv(Step(t, e, n, mode, target), k + KillOf(e))
    requires inv(s, kills)
    ensures inv(Run(s, events, n, mode, target), kills + KillCount(events))
    decreases |events|
  {
    if events != [] {
      RunKeeps(inv, Step(s, events[0], n, mode, target), events[1..], n, mode, target, kills + KillOf(events[0]));
      assert kills + KillCount(events) == kills + KillOf(events[0]) + KillCount(events[1..]);
    }
  }

  ghost function SafeOver(n: nat, mode: Mode): Invariant {
    (s: State, kills: nat) => Safe(s, n, mode, kills)
  }

  lemma SafeIsKept(n: nat, mode: Mode, target: Option<int>)
    ensures forall s, e, k: nat :: SafeOver(n, mode)(s, k) ==>
      SafeOver(n, mode)(Step(s, e, n, mode, target), k + KillOf(e))
  {
    forall s, e, k: nat | SafeOver(n, mode)(s, k)
      ensures SafeOver(n, mode)(Step(s, e, n, mode, target), k + KillOf(e))
    {
      SafeStep(s, e, n, mode, target, k);
    }
  }

  lemma SafeRun(s: State, events: seq<Event>, n: nat, mode: Mode, target: Option<int>, kills: nat)
    requires SafeOver(n, mode)(s, kills)
    ensures SafeOver(n, mode)(Run(s, events, n, mode, target), kills + KillCount(events))
  {
    SafeIsKept(n, mode, target);
    RunKeeps(SafeOver(n, mode), s, events, n, mode, target, kills);
  }

  /**
   Over every schedule of ticks, kills and restarts: a finished run has lost no sample, has
   repeated each, and charged it, at most once more per interruption, and with the unique key
   has recorded exactly one cost for each.
   */
  lemma FinishedRunIsComplete(events: seq<Event>, n: nat, mode: Mode, target: Option<int>)
    requires Run(State(FRESH, Down), events, n, mode, target).worker.Done?
    ensures var d := Run(State(FRESH, Down), events, n, mode, target).durable;
            && (forall k :: 0 <= k < n ==> 1 <= d.costs[k] <= d.results[k] <= 1 + KillCount(events) + Extra(d))
            && (forall k :: k in d.results || k in d.costs ==> 0 <= k < n)
            && (mode == Idempotent ==> forall k :: d.costs[k] == if 0 <= k < n then 1 else 0)
  {
    var s := State(FRESH, Down);
    assert Safe(s, n, mode, 0);
    SafeRun(s, events, n, mode, target, 0);
    assert Safe(Run(s, events, n, mode, target), n, mode, KillCount(events));
  }

  // ---------------------------------------------------------------- without kills, exactly

  /** Rows the sample in hand already has from the crashed delivery. */
  function Before(d: Durable, k: int, target: Option<int>): nat {
    if d.marker && target == Some(k) then 1 else 0
  }

  ghost predicate Exact(s: State, n: nat, mode: Mode, target: Option<int>) {
    var d := s.durable;
    var next := d.checkpoint + 1;
    && -1 <= d.checkpoint < (if n == 0 then 1 else n) && (n == 0 ==> d.checkpoint == -1)
    && (s.worker.At? ==> s.worker.sample == next < n)
    && (s.worker.Done? ==> next == n)
    && (d.marker ==> InRange(target, n) && target.value <= next)
    && (target.Some? && 0 <= target.value <= d.checkpoint ==> d.marker)
    && (s.worker.At? && s.worker.pc == Report && target == Some(next) ==> d.marker)
    && (forall k :: k <= d.checkpoint ==>
          d.results[k] == Expected(k, n, target, true) && d.costs[k] == Expected(k, n, target, mode == Naive))
    && (forall k :: k > next ==> d.results[k] == 0 && d.costs[k] == 0)
    && d.results[next] == Before(d, next, target) + (if Stage(s, next) >= 1 then 1 else 0)
    && d.costs[next] == (if Stage(s, next) >= 2 && (mode == Naive || Before(d, next, target) == 0)
                         then Before(d, next, target) + 1 else Before(d, next, target))
  }

  lemma ExactRestart(s: State, e: Event, n: nat, mode: Mode, target: Option<int>)
    requires Exact(s, n, mode, target) && e != Kill && (e != Tick || !s.worker.At?)
    ensures Exact(Step(s, e, n, mode, target), n, mode, target)
  {
  }

  lemma ExactScore(s: State, n: nat, mode: Mode, target: Option<int>)
    requires Exact(s, n, mode, target) && s.worker.At? && s.worker.pc == Score
    ensures Exact(Step(s, Tick, n, mode, target), n, mode, target)
  {
    OneMoreRow(s.durable.results, s.worker.sample);
  }

  lemma ExactCost(s: State, n: nat, mode: Mode, target: Option<int>)
    requires Exact(s, n, mode, target) && s.worker.At? && s.worker.pc == Cost
    ensures Exact(Step(s, Tick, n, mode, target), n, mode, target)
  {
    OneMoreRow(s.durable.costs, s.worker.sample);
  }

  lemma ExactWindow(s: State, n: nat, mode: Mode, target: Option<int>)
    requires Exact(s, n, mode, target) && s.worker.At? && s.worker.pc == Window
    ensures Exact(Step(s, Tick, n, mode, target), n, mode, target)
  {
  }

  lemma ExactReport(s: State, n: nat, mode: Mode, target: Option<int>)
    requires Exact(s, n, mode, target) && s.worker.At? && s.worker.pc == Report
    ensures Exact(Step(s, Tick, n, mode, target), n, mode, target)
  {
  }

  lemma ExactTick(s: State, n: nat, mode: Mode, target: Option<int>)
    requires Exact(s, n, mode, target) && s.worker.At?
    ensures Exact(Step(s, Tick, n, mode, target), n, mode, target)
  {
    match s.worker.pc
    case Score => ExactScore(s, n, mode, target);
    case Cost => ExactCost(s, n, mode, target);
    case Window => ExactWindow(s, n, mode, target);
    case Report => ExactReport(s, n, mode, target);
  }

  lemma ExactStep(s: State, e: Event, n: nat, mode: Mode, target: Option<int>)
    requires Exact(s, n, mode, target) && e != Kill
    ensures Exact(Step(s, e, n, mode, target), n, mode, target)
  {
    if e != Tick || !s.worker.At? {
      ExactRestart(s, e, n, mode, target);
    } else {
      ExactTick(s, n, mode, target);
    }
  }

  /** Exact as long as nothing is killed. */
  ghost function ExactOver(n: nat, mode: Mode, target: Option<int>): Invariant {
    (s: State, kills: nat) => kills == 0 ==> Exact(s, n, mode, target)
  }

  lemma ExactRun(s: State, events: seq<Event>, n: nat, mode: Mode, target: Option<int>)
    requires ExactOver(n, mode, target)(s, 0)
    ensures ExactOver(n, mode, target)(Run(s, events, n, mode, target), KillCount(events))
  {
    var inv := ExactOver(n, mode, target);
    forall t, e, k: nat | inv(t, k) ensures inv(Step(t, e, n, mode, target), k + KillOf(e)) {
      if k + KillOf(e) == 0 {
        ExactStep(t, e, n, mode, target);
      }
    }
    RunKeeps(inv, s, events, n, mode, target, 0);
  }

  lemma {:induction false} NoKillsCounted(events: seq<Event>)
    requires Kill !in events
    ensures KillCount(events) == 0
  {
    if events != [] {
      assert events[0] in events;
      NoKillsCounted(events[1..]);
    }
  }

  lemma ExactAtEnd(s: State, n: nat, mode: Mode, target: Option<int>)
    requires Exact(s, n, mode, target) && s.worker.Done?
    ensures forall k :: s.durable.results[k] == Expected(k, n, target, true)
    ensures forall k :: s.durable.costs[k] == Expected(k, n, target, mode == Naive)
    ensures s.durable.marker <==> InRange(target, n)
  {
    assert Before(s.durable, n, target) == 0;
  }

  /** With no kill but the injected one, the crashed sample alone is delivered twice. */
  lemma UninterruptedRun(s: State, events: seq<Event>, n: nat, mode: Mode, target: Option<int>)
    requires s == State(FRESH, Down) && Kill !in events
    requires Run(s, events, n, mode, target).worker.Done?
    ensures var d := Run(s, events, n, mode, target).durable;
            && (forall k :: d.results[k] == Expected(k, n, target, true))
            && (forall k :: d.costs[k] == Expected(k, n, target, mode == Naive))
            && (d.marker <==> InRange(target, n))
  {
    NoKillsCounted(events);
    assert Exact(s, n, mode, target);
    ExactRun(s, events, n, mode, target);
    ExactAtEnd(Run(s, events, n, mode, target), n, mode, target);
  }
}
