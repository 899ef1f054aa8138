/**
 Gates that run gates: the counted exit rule, what an exit code says about a whole tree of
 runs, and the two ways of naming the earlier gates.
 */
module GateRuns {
  import opened Collections

  const PASS: string := "PASS"
  const FAIL: string := "FAIL"

  /** One run of a gate: the statuses of its own checks and the gates it started. */
  datatype Run = Run(id: nat, own: seq<string>, invoked: seq<Invocation>)

  /**
   `NotFound`: the earlier commit could not be located. `Judged`: the exit code decides the
   recorded status. `Silent`: a script that prints a summary and always exits 0.
   */
  datatype Invocation = NotFound | Judged(run: Run) | Silent(run: Run)

  function Verdict(results: seq<string>): int {
    if FAIL in results then 1 else 0
  }

  function Exit(run: Run): int {
    Verdict(run.own + seq(|run.invoked|, i requires 0 <= i < |run.invoked| => Recorded(run.invoked[i])))
  }

  /** The status a gate records for one invocation. */
  function Recorded(inv: Invocation): string {
    match inv
    case NotFound => FAIL
    case Judged(run) => if Exit(run) == 0 then PASS else FAIL
    case Silent(_) => PASS
  }

  /** The summary loop at the foot of every gate. */
  method Summarise(results: seq<string>) returns (counts: map<string, nat>, code: int)
    ensures forall s :: s in counts <==> s in results
    ensures forall s :: s in counts ==> counts[s] == CountOf(results, s)
    ensures code == Verdict(results)
    ensures code == if "FAIL" in results then 1 else 0
  {
    counts := map[];
    for i := 0 to |results|
      invariant forall s :: s in counts <==> s in results[..i]
      invariant forall s :: s in counts ==> counts[s] == CountOf(results[..i], s)
    {
      var s := results[i];
      assert results[..i + 1] == results[..i] + [s];
      forall t ensures CountOf(results[..i + 1], t) == CountOf(results[..i], t) + (if s == t then 1 else 0) {
        CountSnoc(results[..i], s, t);
      }
      CountPositive(results[..i], s);
      counts := counts[s := (if s in counts then counts[s] else 0) + 1];
    }
    assert results[..|results|] == results;
    CountPositive(results, FAIL);
    code := if FAIL in counts && counts[FAIL] != 0 then 1 else 0;
  }

  // ---------------------------------------------------------------- exit codes compose

  /** Some gate recorded FAIL, or some commit was not found, at any depth. */
  ghost predicate AnyFail(run: Run) {
    FAIL in run.own || exists i :: 0 <= i < |run.invoked| && AnyFailIn(run.invoked[i])
  }

  ghost predicate AnyFailIn(inv: Invocation) {
    match inv
    case NotFound => true
    case Judged(run) => AnyFail(run)
    case Silent(run) => AnyFail(run)
  }

  /** The same, looking only at runs whose exit code somebody reads. */
  ghost predicate HeardFail(run: Run) {
    FAIL in run.own || exists i :: 0 <= i < |run.invoked| && HeardFailIn(run.invoked[i])
  }

  ghost predicate HeardFailIn(inv: Invocation) {
    match inv
    case NotFound => true
    case Judged(run) => HeardFail(run)
    case Silent(_) => false
  }

  ghost predicate NoSilence(run: Run) {
    forall i :: 0 <= i < |run.invoked| ==>
      match run.invoked[i]
      case NotFound => true
      case Judged(r) => NoSilence(r)
      case Silent(_) => false
  }

  lemma {:induction false} ExitHears(run: Run)
    ensures Exit(run) == 0 <==> !HeardFail(run)
  {
    var recorded := seq(|run.invoked|, i requires 0 <= i < |run.invoked| => Recorded(run.invoked[i]));
    forall i | 0 <= i < |run.invoked| ensures recorded[i] == FAIL <==> HeardFailIn(run.invoked[i]) {
      if run.invoked[i].Judged? {
        ExitHears(run.invoked[i].run);
      }
    }
    if HeardFail(run) && FAIL !in run.own {
      var i :| 0 <= i < |run.invoked| && HeardFailIn(run.invoked[i]);
      assert recorded[i] in recorded;
    }
    assert FAIL in run.own + recorded <==> FAIL in run.own || FAIL in recorded;
  }

  lemma {:induction false} HeardIsAnyWithoutSilence(run: Run)
    requires NoSilence(run)
    ensures HeardFail(run) <==> AnyFail(run)
  {
    forall i | 0 <= i < |run.invoked| ensures HeardFailIn(run.invoked[i]) <==> AnyFailIn(run.invoked[i]) {
      if run.invoked[i].Judged? {
        HeardIsAnyWithoutSilence(run.invoked[i].run);
      }
    }
  }

  /** The same gates starting the same gates; what their own checks recorded may differ. */
  ghost predicate SameShape(a: Run, b: Run) {
    && a.id == b.id && |a.invoked| == |b.invoked|
    && forall i :: 0 <= i < |a.invoked| ==> SameInvocation(a.invoked[i], b.invoked[i])
  }

  ghost predicate SameInvocation(a: Invocation, b: Invocation) {
    match a
    case NotFound => b.NotFound?
    case Judged(run) => b.Judged? && SameShape(run, b.run)
    case Silent(run) => b.Silent? && SameShape(run, b.run)
  }

  /** The exit code tells whether anything failed, whatever the checks of the runs record. */
  ghost predicate Composes(run: Run) {
    forall other :: SameShape(run, other) ==> (Exit(other) == 0 <==> !AnyFail(other))
  }

  /** Some commit was not found by a run whose exit code somebody reads: the root fails in any case. */
  ghost predicate LostInEarshot(run: Run) {
    exists i :: 0 <= i < |run.invoked| &&
      match run.invoked[i]
      case NotFound => true
      case Judged(r) => LostInEarshot(r)
      case Silent(_) => false
  }

  lemma {:induction false} ShapeKeepsSilence(a: Run, b: Run)
    requires SameShape(a, b)
    ensures NoSilence(a) <==> NoSilence(b)
    ensures LostInEarshot(a) <==> LostInEarshot(b)
  {
    forall i | 0 <= i < |a.invoked| && a.invoked[i].Judged?
      ensures b.invoked[i].Judged?
      ensures NoSilence(a.invoked[i].run) <==> NoSilence(b.invoked[i].run)
      ensures LostInEarshot(a.invoked[i].run) <==> LostInEarshot(b.invoked[i].run)
    {
      assert SameInvocation(a.invoked[i], b.invoked[i]);
      ShapeKeepsSilence(a.invoked[i].run, b.invoked[i].run);
    }
    assert forall i :: 0 <= i < |a.invoked| ==> SameInvocation(a.invoked[i], b.invoked[i]);
  }

  lemma {:induction false} LostIsHeard(run: Run)
    requires LostInEarshot(run)
    ensures HeardFail(run) && AnyFail(run)
  {
    var i :| 0 <= i < |run.invoked| && !run.invoked[i].Silent?
      && (run.invoked[i].Judged? ==> LostInEarshot(run.invoked[i].run));
    if run.invoked[i].Judged? {
      LostIsHeard(run.invoked[i].run);
    }
    assert HeardFailIn(run.invoked[i]) && AnyFailIn(run.invoked[i]);
  }

  /** The same shape with nothing failing but the silent scripts. */
  function OnlySilentFail(run: Run): Run {
    Run(run.id, [], seq(|run.invoked|, i requires 0 <= i < |run.invoked| => OnlySilentFailIn(run.invoked[i])))
  }

  function OnlySilentFailIn(inv: Invocation): Invocation {
    match inv
    case NotFound => NotFound
    case Judged(run) => Judged(OnlySilentFail(run))
    case Silent(run) => Silent(Run(run.id, [FAIL], run.invoked))
  }

  lemma {:induction false} SameShapeSelf(run: Run)
    ensures SameShape(run, run)
  {
    forall i | 0 <= i < |run.invoked| ensures SameInvocation(run.invoked[i], run.invoked[i]) {
      if !run.invoked[i].NotFound? {
        SameShapeSelf(run.invoked[i].run);
      }
    }
  }

  lemma {:induction false} OnlySilentFails(run: Run)
    ensures SameShape(run, OnlySilentFail(run))
    ensures HeardFail(OnlySilentFail(run)) <==> LostInEarshot(run)
    ensures !NoSilence(run) ==> AnyFail(OnlySilentFail(run))
  {
    var other := OnlySilentFail(run);
    forall i | 0 <= i < |run.invoked|
      ensures SameInvocation(run.invoked[i], other.invoked[i])
      ensures HeardFailIn(other.invoked[i]) <==>
        run.invoked[i].NotFound? || (run.invoked[i].Judged? && LostInEarshot(run.invoked[i].run))
      ensures run.invoked[i].Silent? || (run.invoked[i].Judged? && !NoSilence(run.invoked[i].run))
          ==> AnyFailIn(other.invoked[i])
    {
      match run.invoked[i]
      case NotFound =>
      case Judged(r) => OnlySilentFails(r);
      case Silent(r) =>
        assert other.invoked[i] == Silent(Run(r.id, [FAIL], r.invoked));
        SameShapeSelf(r);
    }
    if LostInEarshot(run) {
      var i :| 0 <= i < |run.invoked| && !run.invoked[i].Silent?
        && (run.invoked[i].Judged? ==> LostInEarshot(run.invoked[i].run));
      assert HeardFailIn(other.invoked[i]);
    }
  }

  /**
   For a tree of gates, the root exits 0 exactly when no FAIL is recorded at any depth,
   whatever the checks record, if and only if the tree holds no silent script, or the root is
   bound to fail because a commit was not found.
   */
  lemma ExitCodesComposeIff(run: Run)
    ensures Composes(run) <==> NoSilence(run) || LostInEarshot(run)
    ensures NoSilence(run) ==> (Exit(run) == 0 <==> !AnyFail(run))
  {
    SameShapeSelf(run);
    if NoSilence(run) || LostInEarshot(run) {
      forall other | SameShape(run, other) ensures Exit(other) == 0 <==> !AnyFail(other) {
        ShapeKeepsSilence(run, other);
        ExitHears(other);
        if NoSilence(other) {
          HeardIsAnyWithoutSilence(other);
        } else {
          LostIsHeard(other);
        }
      }
    } else {
      OnlySilentFails(run);
      ExitHears(OnlySilentFail(run));
    }
  }

  /** A gate whose checks pass and which starts a silent script that fails: exit 0. */
  function DeafGate(): Run {
    Run(1, [PASS], [Silent(Run(0, [FAIL], []))])
  }

  lemma DeafGateExitsZero()
    ensures Exit(DeafGate()) == 0 && AnyFail(DeafGate()) && !Composes(DeafGate())
  {
    var run := DeafGate();
    ExitHears(run);
    assert AnyFailIn(run.invoked[0]);
    SameShapeSelf(run);
  }

  // ---------------------------------------------------------------- naming the earlier gates

  /** Gate `k`: up to gate `m` each names every earlier gate, after it only its predecessor. */
  function Scheme(k: nat, m: nat, own: nat -> seq<string>): Run
    decreases k, 1
  {
    if k <= m then Run(k, own(k), AllBefore(k, m, own))
    else Run(k, own(k), [Judged(Scheme(k - 1, m, own))])
  }

  function AllBefore(k: nat, m: nat, own: nat -> seq<string>): (named: seq<Invocation>)
    decreases k, 0
  {
    if k == 0 then [] else AllBefore(k - 1, m, own) + [Judged(Scheme(k - 1, m, own))]
  }

  function Runs(run: Run): nat {
    1 + RunsIn(run.invoked)
  }

  function RunsIn(invoked: seq<Invocation>): nat {
    if invoked == [] then 0
    else RunsIn(invoked[..|invoked| - 1]) + RunsOf(invoked[|invoked| - 1])
  }

  function RunsOf(inv: Invocation): nat {
    match inv
    case NotFound => 0
    case Judged(run) => Runs(run)
    case Silent(run) => Runs(run)
  }

  ghost predicate Executes(run: Run, id: nat) {
    run.id == id || exists i :: 0 <= i < |run.invoked| && !run.invoked[i].NotFound? && Executes(run.invoked[i].run, id)
  }

  function Pow2(n: nat): nat {
    if n == 0 then 1 else 2 * Pow2(n - 1)
  }

  lemma RunsInSnoc(invoked: seq<Invocation>, last: Invocation)
    ensures RunsIn(invoked + [last]) == RunsIn(invoked) + RunsOf(last)
  {
    assert (invoked + [last])[..|invoked|] == invoked;
  }

  lemma {:induction false} RunsOfAllBefore(k: nat, m: nat, own: nat -> seq<string>)
    requires k <= m + 1
    ensures RunsIn(AllBefore(k, m, own)) == Pow2(k) - 1
    decreases k, 0
  {
    if k > 0 {
      var earlier, last := AllBefore(k - 1, m, own), Judged(Scheme(k - 1, m, own));
      RunsOfAllBefore(k - 1, m, own);
      RunsInSnoc(earlier, last);
      assert Scheme(k - 1, m, own).invoked == earlier;
    }
  }

  /**
   Naming every earlier gate doubles the work with each gate; naming only the predecessor
   adds one run. A chain that changes over after gate `m` causes 2^m + (k - m) runs.
   */
  lemma {:induction false} SchemeRuns(k: nat, m: nat, own: nat -> seq<string>)
    ensures Runs(Scheme(k, m, own)) == if k <= m then Pow2(k) else Pow2(m) + (k - m)
  {
    if k <= m {
      RunsOfAllBefore(k, m, own);
    } else {
      RunsInSnoc([], Judged(Scheme(k - 1, m, own)));
      SchemeRuns(k - 1, m, own);
    }
  }

  lemma {:induction false} NamedAllBefore(k: nat, m: nat, own: nat -> seq<string>)
    ensures |AllBefore(k, m, own)| == k
    ensures forall i: nat :: i < k ==> AllBefore(k, m, own)[i] == Judged(Scheme(i, m, own))
  {
    if k > 0 {
      NamedAllBefore(k - 1, m, own);
    }
  }

  /** Whatever the changeover, gate `k` executes exactly the gates 0 to k. */
  lemma {:induction false} SchemeExecutes(k: nat, m: nat, own: nat -> seq<string>, id: nat)
    ensures Executes(Scheme(k, m, own), id) <==> id <= k
    decreases k
  {
    var run := Scheme(k, m, own);
    NamedAllBefore(k, m, own);
    forall i | 0 <= i < |run.invoked|
      ensures run.invoked[i].Judged? && run.invoked[i].run.id < k
      ensures Executes(run.invoked[i].run, id) <==> id <= run.invoked[i].run.id
    {
      var j := if k <= m then i else k - 1;
      assert run.invoked[i] == Judged(Scheme(j, m, own));
      SchemeExecutes(j, m, own, id);
    }
    if id < k {
      var i := if k <= m then id else 0;
      assert Executes(run.invoked[i].run, id);
    }
  }

  lemma {:induction false} SchemeHears(k: nat, m: nat, own: nat -> seq<string>)
    ensures NoSilence(Scheme(k, m, own))
    ensures HeardFail(Scheme(k, m, own)) <==> exists i: nat :: i <= k && FAIL in own(i)
    decreases k
  {
    var run := Scheme(k, m, own);
    NamedAllBefore(k, m, own);
    forall i | 0 <= i < |run.invoked|
      ensures run.invoked[i].Judged? && run.invoked[i].run.id < k && NoSilence(run.invoked[i].run)
      ensures HeardFailIn(run.invoked[i]) <==> exists j: nat :: j <= run.invoked[i].run.id && FAIL in own(j)
    {
      var j := if k <= m then i else k - 1;
      assert run.invoked[i] == Judged(Scheme(j, m, own));
      SchemeHears(j, m, own);
    }
    if exists i: nat :: i < k && FAIL in own(i) {
      var j: nat :| j < k && FAIL in own(j);
      var i := if k <= m then j else 0;
      assert HeardFailIn(run.invoked[i]);
    }
  }

  /** The short form is sufficient: it exits with the code the full listing exits with. */
  lemma ShortFormIsSufficient(k: nat, m: nat, n: nat, own: nat -> seq<string>)
    ensures Exit(Scheme(k, m, own)) == Exit(Scheme(k, n, own))
    ensures Exit(Scheme(k, m, own)) == 0 <==> forall i: nat :: i <= k ==> FAIL !in own(i)
  {
    SchemeHears(k, m, own);
    SchemeHears(k, n, own);
    ExitHears(Scheme(k, m, own));
    ExitHears(Scheme(k, n, own));
  }
}
