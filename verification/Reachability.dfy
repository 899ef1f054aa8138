/**
 The closure a gate derives over the invocation paths its validators contain, and the
 verdict it takes from it.
 */
module Reachability {
  type Edges = map<string, set<string>>

  function Targets(edges: Edges, n: string): (targets: set<string>)
    ensures forall t :: t in targets <==> n in edges && t in edges[n]
  {
    if n in edges then edges[n] else {}
  }

  ghost predicate Path(edges: Edges, p: seq<string>) {
    p != [] && forall i :: 0 < i < |p| ==> p[i] in Targets(edges, p[i - 1])
  }

  ghost predicate PathBetween(edges: Edges, p: seq<string>, a: string, b: string) {
    Path(edges, p) && p[0] == a && p[|p| - 1] == b
  }

  /** Some chain of invocations leads from `a` to `b`; the empty chain leads from `a` to itself. */
  ghost predicate Reaches(edges: Edges, a: string, b: string) {
    exists p :: PathBetween(edges, p, a, b)
  }

  ghost predicate Closed(edges: Edges, nodes: set<string>) {
    forall n :: n in nodes ==> Targets(edges, n) <= nodes
  }

  lemma ReachesSelf(edges: Edges, a: string)
    ensures Reaches(edges, a, a)
  {
    assert PathBetween(edges, [a], a, a);
  }

  lemma ReachesStep(edges: Edges, a: string, b: string, c: string)
    requires Reaches(edges, a, b) && c in Targets(edges, b)
    ensures Reaches(edges, a, c)
  {
    var p :| PathBetween(edges, p, a, b);
    assert PathBetween(edges, p + [c], a, c);
  }

  lemma ReachesTrans(edges: Edges, a: string, b: string, c: string)
    requires Reaches(edges, a, b) && Reaches(edges, b, c)
    ensures Reaches(edges, a, c)
  {
    var p :| PathBetween(edges, p, a, b);
    var q :| PathBetween(edges, q, b, c);
    var r := p + q[1..];
    forall i | 0 < i < |r| ensures r[i] in Targets(edges, r[i - 1]) {
      if i >= |p| {
        assert r[i] == q[i - |p| + 1] && r[i - 1] == q[i - |p|];
      }
    }
    assert PathBetween(edges, r, a, c);
  }

  /** A path that starts inside a closed set stays inside it. */
  lemma {:induction false} PathStaysInside(edges: Edges, nodes: set<string>, p: seq<string>, i: nat)
    requires Closed(edges, nodes) && Path(edges, p) && p[0] in nodes && i < |p|
    ensures p[i] in nodes
  {
    if i > 0 {
      PathStaysInside(edges, nodes, p, i - 1);
    }
  }

  lemma ClosedContainsReachable(edges: Edges, nodes: set<string>, a: string, b: string)
    requires Closed(edges, nodes) && a in nodes && Reaches(edges, a, b)
    ensures b in nodes
  {
    var p :| PathBetween(edges, p, a, b);
    PathStaysInside(edges, nodes, p, |p| - 1);
  }

  function AllTargets(edges: Edges): set<string> {
    set n, t | n in edges && t in edges[n] :: t
  }

  function Elements(s: seq<string>): set<string> {
    set x | x in s
  }

  predicate Distinct(s: seq<string>) {
    forall i, j :: 0 <= i < j < |s| ==> s[i] != s[j]
  }

  lemma Pushed(s: seq<string>, x: string)
    requires Distinct(s) && x !in Elements(s)
    ensures Distinct(s + [x]) && Elements(s + [x]) == Elements(s) + {x}
  {
  }

  /** The inner loop: every target of `current` not seen before is marked and put on the frontier. */
  method Expand(targets: set<string>, frontier0: seq<string>, reachable0: set<string>, ghost pushed0: seq<string>)
    returns (frontier: seq<string>, reachable: set<string>, ghost pushed: seq<string>)
    requires Distinct(pushed0) && Elements(pushed0) == reachable0
    ensures reachable == reachable0 + targets
    ensures Elements(frontier) == Elements(frontier0) + (targets - reachable0)
    ensures reachable == reachable0 ==> frontier == frontier0
    ensures Distinct(pushed) && Elements(pushed) == reachable && pushed0 <= pushed
  {
    frontier, reachable, pushed := frontier0, reachable0, pushed0;
    var todo := targets;
    while todo != {}
      invariant todo <= targets && reachable == reachable0 + (targets - todo)
      invariant Elements(frontier) == Elements(frontier0) + (targets - todo - reachable0)
      invariant reachable == reachable0 ==> frontier == frontier0
      invariant Distinct(pushed) && Elements(pushed) == reachable && pushed0 <= pushed
      decreases todo
    {
      var target :| target in todo;
      todo := todo - {target};
      if target !in reachable {
        Pushed(pushed, target);
        assert Elements(frontier + [target]) == Elements(frontier) + {target};
        frontier, reachable, pushed := frontier + [target], reachable + {target}, pushed + [target];
      }
    }
  }

  /** The worklist loop. `pushed` is every node it ever put on the frontier, in order. */
  method Closure(edges: Edges, root: string) returns (reachable: set<string>, ghost pushed: seq<string>)
    ensures forall n :: n in reachable <==> Reaches(edges, root, n)
    ensures Distinct(pushed) && Elements(pushed) == reachable
  {
    var frontier := [root];
    reachable := {root};
    pushed := [root];
    ghost var universe := {root} + AllTargets(edges);
    ReachesSelf(edges, root);
    while frontier != []
      invariant root in reachable && reachable <= universe
      invariant forall n :: n in reachable ==> Reaches(edges, root, n)
      invariant Elements(frontier) <= reachable
      invariant forall n :: n in reachable - Elements(frontier) ==> Targets(edges, n) <= reachable
      invariant Distinct(pushed) && Elements(pushed) == reachable
      decreases universe - reachable, |frontier|
    {
      var current, rest := frontier[|frontier| - 1], frontier[..|frontier| - 1];
      assert Elements(frontier) == Elements(rest) + {current};
      forall t | t in Targets(edges, current) ensures Reaches(edges, root, t) && t in universe {
        ReachesStep(edges, root, current, t);
        assert t in AllTargets(edges);
      }
      frontier, reachable, pushed := Expand(Targets(edges, current), rest, reachable, pushed);
    }
    assert Closed(edges, reachable);
    forall n | Reaches(edges, root, n) ensures n in reachable {
      ClosedContainsReachable(edges, reachable, root, n);
    }
  }

  /**
   The gate's verdict: no validator out of reach and no invocation of a file that is not a
   validator. It passes exactly when every validator has an invocation path from the gate
   and no invocation leaves the set.
   */
  method ValidatorsVerdict(edges: Edges, root: string) returns (pass: bool)
    ensures pass <==> (forall v :: v in edges ==> Reaches(edges, root, v)) && Closed(edges, edges.Keys)
    ensures pass && root in edges ==> forall v :: v in edges <==> Reaches(edges, root, v)
  {
    var reachable, _ := Closure(edges, root);
    var unreachable := edges.Keys - reachable;
    var missing := AllTargets(edges) - edges.Keys;
    pass := unreachable == {} && missing == {};
    NoneMissingIffClosed(edges);
    assert forall v :: v in unreachable <==> v in edges && !Reaches(edges, root, v);
    if root in edges && Closed(edges, edges.Keys) {
      forall v | Reaches(edges, root, v) ensures v in edges {
        ClosedContainsReachable(edges, edges.Keys, root, v);
      }
    }
  }

  lemma NoneMissingIffClosed(edges: Edges)
    ensures AllTargets(edges) - edges.Keys == {} <==> Closed(edges, edges.Keys)
  {
    var missing := AllTargets(edges) - edges.Keys;
    forall t | t in missing ensures !Closed(edges, edges.Keys) {
      var n :| n in edges && t in edges[n];
      assert t in Targets(edges, n);
    }
    if missing == {} {
      forall n, t | n in edges.Keys && t in Targets(edges, n) ensures t in edges.Keys {
        assert t in AllTargets(edges) && t !in missing;
      }
    }
  }
}
