/**
 The self-test loop: plant a violation, run the gate's own check for it, restore, and verify
 the restoration against HEAD before going on.
 */
module SelfTest {
  import opened Collections
  import opened WorkTree
  import Splitter

  datatype Plant = Plant(cid: string, action: Action)

  /** What one run of a derived subset reports, and the tree it leaves behind. */
  datatype GateRun = Reported(failed: set<string>, tree: Tree) | Hung(tree: Tree)

  /** The gate script is a program of its own: given the check and the tree it does something. */
  type Gate = (string, Tree) -> GateRun

  datatype Verdict = Caught | Missed | Error | Crash

  datatype Step = Step(tree: Tree, verdict: Verdict)

  datatype End = Finished | Stopped | Crashed

  datatype Report = Report(tree: Tree, end: End, verdicts: seq<Verdict>)

  /** What `git status` compares: the files that are not ignored. Empty directories do not show. */
  function Visible(t: Tree, ignored: Path -> bool): map<Path, string> {
    map p | p in t.files && !ignored(p) :: t.files[p]
  }

  predicate Dirty(t: Tree, head: map<Path, string>, ignored: Path -> bool) {
    Visible(t, ignored) != head
  }

  /** One plant: apply, run, restore whatever happened. */
  function PlayOne(t: Tree, plant: Plant, gate: Gate): Step {
    match Apply(t, plant.action)
    case Refused => Step(t, Error)
    case Raised => Step(t, Crash)
    case Planted(planted, restore) =>
      var run := gate(plant.cid, planted);
      match Undone(run.tree, restore)
      case Failed => Step(run.tree, Crash)
      case Restored(after) =>
        Step(after, if run.Hung? then Crash else if plant.cid in run.failed then Caught else Missed)
  }

  /** The whole loop; `present` is what a derived subset turns out to contain. */
  function Play(t: Tree, plants: seq<Plant>, gate: Gate, present: string -> set<string>,
                head: map<Path, string>, ignored: Path -> bool): Report
    decreases |plants|
  {
    if plants == [] then Report(t, Finished, [])
    else if present(plants[0].cid) != {plants[0].cid} then Report(t, Stopped, [])
    else
      var s := PlayOne(t, plants[0], gate);
      if s.verdict == Crash then Report(s.tree, Crashed, [])
      else if Dirty(s.tree, head, ignored) then Report(s.tree, Stopped, [s.verdict])
      else
        var r := Play(s.tree, plants[1..], gate, present, head, ignored);
        Report(r.tree, r.end, [s.verdict] + r.verdicts)
  }

  ghost predicate AllCaught(verdicts: seq<Verdict>) {
    forall i :: 0 <= i < |verdicts| ==> verdicts[i] == Caught
  }

  ghost function ExitCode(r: Report): int {
    if r.end == Finished && AllCaught(r.verdicts) then 0 else 1
  }

  class Session {
    var tree: Tree

    constructor (tree: Tree)
      ensures this.tree == tree
    {
      this.tree := tree;
    }

    method PlayPlant(plant: Plant, gate: Gate) returns (verdict: Verdict)
      modifies this
      ensures Step(tree, verdict) == PlayOne(old(tree), plant, gate)
      ensures Played(old(tree), plant, gate, Step(tree, verdict))
    {
      PlayOneIs(tree, plant, gate);
      var applied := Apply(tree, plant.action);
      if applied.Raised? {
        return Crash;
      }
      if applied.Refused? {
        return Error;
      }
      tree := applied.tree;
      var run := gate(plant.cid, tree);
      tree := run.tree;
      verdict := if run.Hung? then Crash else if plant.cid in run.failed then Caught else Missed;
      var undone := Undone(tree, applied.restore);
      if undone.Failed? {
        return Crash;
      }
      tree := undone.tree;
    }

    method Loop(plants: seq<Plant>, gate: Gate, present: string -> set<string>,
                head: map<Path, string>, ignored: Path -> bool)
      returns (end: End, caught: nat, errors: nat, ghost seen: seq<Verdict>)
      requires !Dirty(tree, head, ignored)
      modifies this
      ensures Report(tree, end, seen) == Play(old(tree), plants, gate, present, head, ignored)
      ensures caught == CountOf(seen, Caught) && errors == CountOf(seen, Error)
      ensures end == Finished ==> |seen| == |plants| && Visible(tree, ignored) == head
    {
      ghost var whole := Play(tree, plants, gate, present, head, ignored);
      caught, errors, seen := 0, 0, [];
      for i := 0 to |plants|
        invariant !Dirty(tree, head, ignored)
        invariant |seen| == i && caught == CountOf(seen, Caught) && errors == CountOf(seen, Error)
        invariant whole == After(seen, Play(tree, plants[i..], gate, present, head, ignored))
      {
        assert plants[i..][0] == plants[i] && plants[i..][1..] == plants[i + 1..];
        if present(plants[i].cid) != {plants[i].cid} {
          return Stopped, caught, errors, seen;
        }
        var verdict := PlayPlant(plants[i], gate);
        if verdict == Crash {
          return Crashed, caught, errors, seen;
        }
        caught := caught + (if verdict == Caught then 1 else 0);
        errors := errors + (if verdict == Error then 1 else 0);
        CountSnoc(seen, verdict, Caught);
        CountSnoc(seen, verdict, Error);
        AfterSnoc(seen, verdict, Play(tree, plants[i + 1..], gate, present, head, ignored));
        seen := seen + [verdict];
        if Dirty(tree, head, ignored) {
          return Stopped, caught, errors, seen;
        }
      }
      return Finished, caught, errors, seen;
    }

    /**
     The exit code: 0 exactly when the run starts clean on known checks, the loop finishes
     and every plant is caught. Whenever it exits 0, the tree shows HEAD.
     */
    method Execute(plants: seq<Plant>, allIds: set<string>, gate: Gate, present: string -> set<string>,
                   head: map<Path, string>, ignored: Path -> bool)
      returns (code: int)
      modifies this
      ensures var known := forall p :: p in plants ==> p.cid in allIds;
              var r := Play(old(tree), plants, gate, present, head, ignored);
              if !known || Dirty(old(tree), head, ignored) then code == 1 && tree == old(tree)
              else code == ExitCode(r) && tree == r.tree
      ensures code == 0 ==> Visible(tree, ignored) == head
    {
      var unknown := set p | p in plants && p.cid !in allIds :: p.cid;
      assert unknown == {} <==> forall p :: p in plants ==> p.cid in allIds by {
        forall p | p in plants && p.cid !in allIds ensures p.cid in unknown {
        }
      }
      if unknown != {} || Dirty(tree, head, ignored) {
        return 1;
      }
      var end, caught, errors, seen := Loop(plants, gate, present, head, ignored);
      AllCaughtIffCount(seen);
      code := if end == Finished && caught == |plants| && errors == 0 then 0 else 1;
    }
  }

  /** A report with the verdicts already seen in front. */
  function After(seen: seq<Verdict>, r: Report): Report {
    Report(r.tree, r.end, seen + r.verdicts)
  }

  lemma AfterSnoc(seen: seq<Verdict>, v: Verdict, r: Report)
    ensures After(seen, Report(r.tree, r.end, [v] + r.verdicts)) == After(seen + [v], r)
  {
    assert seen + ([v] + r.verdicts) == seen + [v] + r.verdicts;
  }

  lemma AllCaughtCons(v: Verdict, verdicts: seq<Verdict>)
    ensures AllCaught([v] + verdicts) <==> v == Caught && AllCaught(verdicts)
  {
    var all := [v] + verdicts;
    assert all[0] == v;
    assert forall i :: 0 <= i < |verdicts| ==> all[i + 1] == verdicts[i];
  }

  lemma {:induction false} AllCaughtIffCount(verdicts: seq<Verdict>)
    ensures CountOf(verdicts, Caught) + CountOf(verdicts, Error) <= |verdicts|
    ensures CountOf(verdicts, Caught) == |verdicts| && CountOf(verdicts, Error) == 0 <==> AllCaught(verdicts)
  {
    if verdicts != [] {
      AllCaughtIffCount(verdicts[1..]);
      AllCaughtCons(verdicts[0], verdicts[1..]);
      assert [verdicts[0]] + verdicts[1..] == verdicts;
    }
  }

  // ---------------------------------------------------------------- one plant in plain terms

  /**
   The gate runs on the planted tree, and what it reports of this check decides. The tree it leaves
   is then restored. A plant that cannot be made leaves the tree alone.
   */
  ghost predicate Played(t: Tree, plant: Plant, gate: Gate, s: Step) {
    && (forall u :: PlantedTree(t, plant.action, u) ==> PlayedOn(t, plant, gate(plant.cid, u), s))
    && ((forall u :: !PlantedTree(t, plant.action, u)) ==>
          s == Step(t, if LacksText(t, plant.action) then Error else Crash))
  }

  ghost predicate PlayedOn(t: Tree, plant: Plant, run: GateRun, s: Step) {
    if !CanRestore(run.tree, plant.action) then s == Step(run.tree, Crash)
    else
      && RestoredTree(t, plant.action, run.tree, s.tree)
      && (s.verdict == Caught <==> run.Reported? && plant.cid in run.failed)
      && (s.verdict == Missed <==> run.Reported? && plant.cid !in run.failed)
      && (s.verdict == Crash <==> run.Hung?)
  }

  lemma PlayOneIs(t: Tree, plant: Plant, gate: Gate)
    ensures Played(t, plant, gate, PlayOne(t, plant, gate))
  {
    var applied := Apply(t, plant.action);
    ApplyPlants(t, plant.action);
    if applied.Planted? {
      RestoreRestores(t, plant.action, gate(plant.cid, applied.tree).tree);
    }
  }

  /** The tree shows HEAD when the files that are not ignored are those of HEAD, with the same contents. */
  lemma ShowsHeadIff(t: Tree, head: map<Path, string>, ignored: Path -> bool)
    ensures Visible(t, ignored) == head <==>
      && (forall p :: p in head <==> p in t.files && !ignored(p))
      && (forall p :: p in head && p in t.files ==> head[p] == t.files[p])
    ensures Dirty(t, head, ignored) <==> Visible(t, ignored) != head
  {
    if forall p :: p in head <==> p in t.files && !ignored(p) {
      assert Visible(t, ignored).Keys == head.Keys;
    }
    if Visible(t, ignored) == head {
      forall p ensures p in head <==> p in t.files && !ignored(p) {
        assert p in head <==> p in Visible(t, ignored);
      }
    }
  }

  // ---------------------------------------------------------------- the tree at each loop head

  /** The tree after the first `k` plants are played one after the other, with nothing in between. */
  function TreeAfter(t: Tree, plants: seq<Plant>, gate: Gate, k: nat): Tree
    requires k <= |plants|
    decreases k
  {
    if k == 0 then t else TreeAfter(PlayOne(t, plants[0], gate).tree, plants[1..], gate, k - 1)
  }

  function VerdictAt(t: Tree, plants: seq<Plant>, gate: Gate, k: nat): Verdict
    requires k < |plants|
  {
    PlayOne(TreeAfter(t, plants, gate, k), plants[k], gate).verdict
  }

  ghost predicate HeadsShow(t: Tree, plants: seq<Plant>, gate: Gate, head: map<Path, string>, ignored: Path -> bool) {
    forall k: nat :: k <= |plants| ==> Visible(TreeAfter(t, plants, gate, k), ignored) == head
  }

  ghost predicate Playable(t: Tree, plants: seq<Plant>, gate: Gate, present: string -> set<string>, k: nat)
    requires k < |plants|
  {
    present(plants[k].cid) == {plants[k].cid} && VerdictAt(t, plants, gate, k) != Crash
  }

  ghost predicate AllPlayable(t: Tree, plants: seq<Plant>, gate: Gate, present: string -> set<string>) {
    forall k: nat :: k < |plants| ==> Playable(t, plants, gate, present, k)
  }

  lemma HeadsShowCons(t: Tree, plants: seq<Plant>, gate: Gate, head: map<Path, string>, ignored: Path -> bool)
    requires plants != []
    ensures HeadsShow(t, plants, gate, head, ignored)
       <==> Visible(t, ignored) == head && HeadsShow(PlayOne(t, plants[0], gate).tree, plants[1..], gate, head, ignored)
  {
    var next := PlayOne(t, plants[0], gate).tree;
    assert forall k: nat :: k < |plants| ==> TreeAfter(t, plants, gate, k + 1) == TreeAfter(next, plants[1..], gate, k);
    if Visible(t, ignored) == head && HeadsShow(next, plants[1..], gate, head, ignored) {
      forall k: nat | k <= |plants| ensures Visible(TreeAfter(t, plants, gate, k), ignored) == head {
        if k > 0 {
          assert TreeAfter(t, plants, gate, (k - 1) + 1) == TreeAfter(next, plants[1..], gate, k - 1);
        }
      }
    }
    if HeadsShow(t, plants, gate, head, ignored) {
      assert TreeAfter(t, plants, gate, 0) == t;
      forall k: nat | k <= |plants[1..]| ensures Visible(TreeAfter(next, plants[1..], gate, k), ignored) == head {
        assert TreeAfter(t, plants, gate, k + 1) == TreeAfter(next, plants[1..], gate, k);
      }
    }
  }

  lemma AllPlayableCons(t: Tree, plants: seq<Plant>, gate: Gate, present: string -> set<string>)
    requires plants != []
    ensures AllPlayable(t, plants, gate, present)
       <==> Playable(t, plants, gate, present, 0)
            && AllPlayable(PlayOne(t, plants[0], gate).tree, plants[1..], gate, present)
  {
    var next := PlayOne(t, plants[0], gate).tree;
    forall k: nat | k < |plants[1..]|
      ensures Playable(t, plants, gate, present, k + 1) <==> Playable(next, plants[1..], gate, present, k)
    {
      assert plants[k + 1] == plants[1..][k];
    }
    if Playable(t, plants, gate, present, 0) && AllPlayable(next, plants[1..], gate, present) {
      forall k: nat | k < |plants| ensures Playable(t, plants, gate, present, k) {
        if k > 0 {
          assert Playable(next, plants[1..], gate, present, k - 1);
        }
      }
    }
  }

  /**
   Whatever the gate does to the tree, the loop finishes if and only if every derived subset
   is the one asked for, nothing crashes, and the tree shows HEAD before every plant and after
   the last; the verdicts are then those of the plants played one after the other.
   */
  lemma {:induction false} FinishesIffEveryHeadShowsHead(t: Tree, plants: seq<Plant>, gate: Gate,
                                                         present: string -> set<string>,
                                                         head: map<Path, string>, ignored: Path -> bool)
    requires !Dirty(t, head, ignored)
    ensures var r := Play(t, plants, gate, present, head, ignored);
            && (r.end == Finished
              <==> AllPlayable(t, plants, gate, present) && HeadsShow(t, plants, gate, head, ignored))
            && (r.end == Finished ==>
                 && |r.verdicts| == |plants| && r.tree == TreeAfter(t, plants, gate, |plants|)
                 && forall k: nat :: k < |plants| ==> r.verdicts[k] == VerdictAt(t, plants, gate, k))
    decreases |plants|
  {
    if plants != [] {
      var s := PlayOne(t, plants[0], gate);
      HeadsShowCons(t, plants, gate, head, ignored);
      AllPlayableCons(t, plants, gate, present);
      if Dirty(s.tree, head, ignored) {
        assert TreeAfter(s.tree, plants[1..], gate, 0) == s.tree;
      } else {
        FinishesIffEveryHeadShowsHead(s.tree, plants[1..], gate, present, head, ignored);
        forall k: nat | 0 < k < |plants|
          ensures VerdictAt(t, plants, gate, k) == VerdictAt(s.tree, plants[1..], gate, k - 1)
        {
          assert plants[k] == plants[1..][k - 1];
        }
      }
    }
  }

  ghost predicate CaughtAt(t: Tree, plants: seq<Plant>, gate: Gate, present: string -> set<string>, k: nat)
    requires k < |plants|
  {
    present(plants[k].cid) == {plants[k].cid} && VerdictAt(t, plants, gate, k) == Caught
  }

  /** Exit 0 says of every plant that it was caught from a tree that shows HEAD, and the converse. */
  lemma {:induction false} SucceedsIff(t: Tree, plants: seq<Plant>, gate: Gate, present: string -> set<string>,
                                       head: map<Path, string>, ignored: Path -> bool)
    requires !Dirty(t, head, ignored)
    ensures ExitCode(Play(t, plants, gate, present, head, ignored)) == 0
       <==> HeadsShow(t, plants, gate, head, ignored)
            && forall k: nat :: k < |plants| ==> CaughtAt(t, plants, gate, present, k)
  {
    FinishesIffEveryHeadShowsHead(t, plants, gate, present, head, ignored);
    forall k: nat | k < |plants|
      ensures CaughtAt(t, plants, gate, present, k)
         <==> Playable(t, plants, gate, present, k) && VerdictAt(t, plants, gate, k) == Caught
    {
    }
    if forall k: nat :: k < |plants| ==> CaughtAt(t, plants, gate, present, k) {
      assert AllPlayable(t, plants, gate, present);
    }
  }

  // ---------------------------------------------------------------- a gate that only reads

  ghost predicate OnlyReads(gate: Gate) {
    forall cid, t :: gate(cid, t).tree == t
  }

  /** The plant makes its own target check fail on the tree it is applied to. */
  predicate SeenAlone(t: Tree, plant: Plant, gate: Gate) {
    var applied := Apply(t, plant.action);
    && applied.Planted?
    && var run := gate(plant.cid, applied.tree);
       run.Reported? && plant.cid in run.failed
  }

  lemma RestorableStep(t: Tree, plant: Plant, gate: Gate)
    requires Valid(t) && OnlyReads(gate) && Restorable(t, plant.action)
    ensures PlayOne(t, plant, gate).tree == t
    ensures PlayOne(t, plant, gate).verdict == Caught <==> SeenAlone(t, plant, gate)
  {
    var applied := Apply(t, plant.action);
    if applied.Planted? {
      RestorablePlantIsUndone(t, plant.action);
      assert gate(plant.cid, applied.tree).tree == applied.tree;
    }
  }

  /**
   With a gate that only reads and plants that can be taken back, the tree is the very same
   at every step, and the run is a success exactly when each plant, on its own against that
   tree, makes its own check fail: no plant hides or helps another.
   */
  lemma {:induction false} PlantsAreJudgedAlone(t: Tree, plants: seq<Plant>, gate: Gate, present: string -> set<string>,
                                                head: map<Path, string>, ignored: Path -> bool)
    requires Valid(t) && !Dirty(t, head, ignored) && OnlyReads(gate)
    requires forall p :: p in plants ==> Restorable(t, p.action) && present(p.cid) == {p.cid}
    ensures var r := Play(t, plants, gate, present, head, ignored);
            r.tree == t && (ExitCode(r) == 0 <==> forall p :: p in plants ==> SeenAlone(t, p, gate))
    decreases |plants|
  {
    if plants != [] {
      var first, rest := plants[0], plants[1..];
      assert forall p :: p in plants <==> p == first || p in rest;
      RestorableStep(t, first, gate);
      PlantsAreJudgedAlone(t, rest, gate, present, head, ignored);
      AllCaughtCons(PlayOne(t, first, gate).verdict, Play(t, rest, gate, present, head, ignored).verdicts);
    }
  }

  /** A plant that cannot be taken back leaves a different tree behind, and only then. */
  lemma PlantLeavesATraceIff(t: Tree, plant: Plant, gate: Gate)
    requires Valid(t) && OnlyReads(gate) && Apply(t, plant.action).Planted?
    ensures PlayOne(t, plant, gate).tree == t <==> Restorable(t, plant.action)
  {
    var applied := Apply(t, plant.action);
    RestorablePlantIsUndone(t, plant.action);
    assert gate(plant.cid, applied.tree).tree == applied.tree;
    PlantAlwaysRestores(t, plant.action);
  }

  lemma PlantAlwaysRestores(t: Tree, action: Action)
    requires Valid(t) && Apply(t, action).Planted?
    ensures var p := Apply(t, action); Undone(p.tree, p.restore).Restored?
  {
    var p := Apply(t, action);
    if action.Create? {
      assert action.rel !in Parents(action.rel);
    } else {
      EditIsUndone(t, action.rel, action.old_, action.new_);
    }
  }

  // ---------------------------------------------------------------- the derived subsets

  /** The ids a run of lines mentions. */
  function Mentioned(mentions: string -> set<string>, ls: Splitter.Lines): set<string> {
    Splitter.AllMentioned(mentions, ls)
  }

  /** What the subset derived for one check turns out to contain; an unknown check has none. */
  function PresentIn(banner: Splitter.Banner, mentions: string -> set<string>,
                     source: Splitter.Lines): string -> set<string> {
    (cid: string) =>
      if cid in Splitter.Found(Splitter.Cut(banner, source))
      then Mentioned(mentions, Splitter.SubsetText(banner, source, [cid])) else {}
  }

  lemma MentionedConcat(mentions: string -> set<string>, a: Splitter.Lines, b: Splitter.Lines)
    ensures Mentioned(mentions, a + b) == Mentioned(mentions, a) + Mentioned(mentions, b)
  {
    forall id | id in Mentioned(mentions, a) + Mentioned(mentions, b) ensures id in Mentioned(mentions, a + b) {
      if id in Mentioned(mentions, a) {
        var i :| 0 <= i < |a| && id in mentions(a[i]);
        assert (a + b)[i] == a[i];
      } else {
        var i :| 0 <= i < |b| && id in mentions(b[i]);
        assert (a + b)[|a| + i] == b[i];
      }
    }
  }

  lemma OnlyOne(cid: string, order: seq<string>)
    requires Splitter.Enumerates(order, {cid})
    ensures order == [cid]
  {
    Splitter.SortedOnce((id: string) => 0, {cid}, order, [cid]);
  }

  lemma PrintOne(found: map<string, Splitter.Lines>, cid: string)
    requires cid in found
    ensures Splitter.Print(found, [cid]) == found[cid]
  {
    var seg := Splitter.Segment(Splitter.Check(cid), found[cid]);
    assert Splitter.Pick(found, [cid]) == [seg];
    Splitter.FlattenOne(seg);
  }

  /** The source has a block for the check. */
  predicate HasCheck(banner: Splitter.Banner, source: Splitter.Lines, cid: string) {
    cid in Splitter.Found(Splitter.Cut(banner, source))
  }

  /** What deriving the subset of one check reports is what the loop takes it to contain. */
  method DeriveOne(banner: Splitter.Banner, mentions: string -> set<string>, number: string -> int,
                   source: Splitter.Lines, cid: string) returns (r: Splitter.SubsetResult)
    requires HasCheck(banner, source, cid)
    ensures r == Splitter.Derived(Splitter.SubsetText(banner, source, [cid]), PresentIn(banner, mentions, source)(cid))
  {
    ghost var order;
    r, order := Splitter.Subset(banner, mentions, number, source, {cid});
    assert Splitter.SplitOn(banner, source).Parts?;
    OnlyOne(cid, order);
  }

  /**
   A derived subset is the one asked for exactly when header, block and footer together mention
   this check and no other.
   */
  lemma PresentIsAskedIff(banner: Splitter.Banner, mentions: string -> set<string>, source: Splitter.Lines, cid: string)
    requires cid in Splitter.Found(Splitter.Cut(banner, source))
    ensures PresentIn(banner, mentions, source)(cid) == {cid}
       <==> Mentioned(mentions, Splitter.Header(banner, source))
            + Mentioned(mentions, Splitter.Found(Splitter.Cut(banner, source))[cid])
            + Mentioned(mentions, Splitter.Footer(Splitter.Cut(banner, source))) == {cid}
  {
    var segs := Splitter.Cut(banner, source);
    var h, block, footer := Splitter.Header(banner, source), Splitter.Found(segs)[cid], Splitter.Footer(segs);
    PrintOne(Splitter.Found(segs), cid);
    MentionedConcat(mentions, h, block);
    MentionedConcat(mentions, h + block, footer);
  }

  /** The block of the check mentions it and no other check. */
  ghost predicate MentionsItselfAlone(banner: Splitter.Banner, mentions: string -> set<string>, source: Splitter.Lines,
                                      cid: string)
    requires cid in Splitter.Found(Splitter.Cut(banner, source))
  {
    Mentioned(mentions, Splitter.Found(Splitter.Cut(banner, source))[cid]) == {cid}
  }

  lemma SucceedsGiven(t: Tree, plants: seq<Plant>, gate: Gate, present: string -> set<string>,
                      head: map<Path, string>, ignored: Path -> bool, asked: set<string>)
    requires !Dirty(t, head, ignored)
    requires forall p :: p in plants ==> (present(p.cid) == {p.cid} <==> p.cid in asked)
    ensures ExitCode(Play(t, plants, gate, present, head, ignored)) == 0
       <==> HeadsShow(t, plants, gate, head, ignored)
            && forall k: nat :: k < |plants| ==> plants[k].cid in asked && VerdictAt(t, plants, gate, k) == Caught
  {
    SucceedsIff(t, plants, gate, present, head, ignored);
    forall k: nat | k < |plants|
      ensures CaughtAt(t, plants, gate, present, k)
         <==> plants[k].cid in asked && VerdictAt(t, plants, gate, k) == Caught
    {
      assert plants[k] in plants;
    }
  }

  /** The checks whose derived subset is the one asked for. */
  ghost function Askable(banner: Splitter.Banner, mentions: string -> set<string>,
                         source: Splitter.Lines): set<string> {
    set cid | cid in Splitter.Found(Splitter.Cut(banner, source)) && MentionsItselfAlone(banner, mentions, source, cid)
  }

  lemma AskableIff(banner: Splitter.Banner, mentions: string -> set<string>, source: Splitter.Lines, cid: string)
    requires cid in Splitter.Found(Splitter.Cut(banner, source))
    requires Mentioned(mentions, Splitter.Header(banner, source)) == {}
    requires Mentioned(mentions, Splitter.Footer(Splitter.Cut(banner, source))) == {}
    ensures PresentIn(banner, mentions, source)(cid) == {cid} <==> cid in Askable(banner, mentions, source)
  {
    var block := Mentioned(mentions, Splitter.Found(Splitter.Cut(banner, source))[cid]);
    PresentIsAskedIff(banner, mentions, source, cid);
    assert {} + block + {} == block;
    assert cid in Askable(banner, mentions, source) <==> MentionsItselfAlone(banner, mentions, source, cid);
  }

  /**
   With subsets derived from a script whose header and footer mention no check, exit 0 says of
   every plant that its block mentions its own check alone and that the check caught it from a
   tree that shows HEAD; and the converse.
   */
  lemma DerivedRunSucceedsIff(banner: Splitter.Banner, mentions: string -> set<string>, source: Splitter.Lines, t: Tree,
                              plants: seq<Plant>, gate: Gate, head: map<Path, string>, ignored: Path -> bool)
    requires !Dirty(t, head, ignored)
    requires forall p :: p in plants ==> p.cid in Splitter.Found(Splitter.Cut(banner, source))
    requires Mentioned(mentions, Splitter.Header(banner, source)) == {}
    requires Mentioned(mentions, Splitter.Footer(Splitter.Cut(banner, source))) == {}
    ensures ExitCode(Play(t, plants, gate, PresentIn(banner, mentions, source), head, ignored)) == 0
       <==> HeadsShow(t, plants, gate, head, ignored)
            && forall k: nat :: k < |plants| ==>
                 plants[k].cid in Askable(banner, mentions, source) && VerdictAt(t, plants, gate, k) == Caught
  {
    var present, asked := PresentIn(banner, mentions, source), Askable(banner, mentions, source);
    forall p | p in plants ensures present(p.cid) == {p.cid} <==> p.cid in asked {
      AskableIff(banner, mentions, source, p.cid);
    }
    SucceedsGiven(t, plants, gate, present, head, ignored, asked);
  }
}
