/** Every `$ref` of an API description: collected at any depth, then resolved step by step. */
module References {
  import opened Collections
  import opened Json

  const REF: string := "$ref"

  // ---------------------------------------------------------------- collecting

  predicate IsReference(n: Node, i: nat)
    requires i < Children(n)
  {
    n.Obj? && n.members[i].0 == REF && n.members[i].1.Str?
  }

  function CollectedAt(n: Node, i: nat): set<string>
    requires i < Children(n)
    decreases n, 0
  {
    if IsReference(n, i) then {Child(n, i).text} else Collected(Child(n, i))
  }

  function Collected(n: Node): set<string>
    decreases n, 1
  {
    set i: nat, r | i < Children(n) && r in CollectedAt(n, i) :: r
  }

  function CollectedBelow(n: Node, k: nat): set<string>
    requires k <= Children(n)
  {
    set i: nat, r | i < k && r in CollectedAt(n, i) :: r
  }

  class Collector {
    var refs: set<string>

    constructor ()
      ensures refs == {}
    {
      refs := {};
    }

    method Collect(n: Node)
      modifies this
      ensures refs == old(refs) + Collected(n)
      decreases n
    {
      for i := 0 to Children(n)
        invariant refs == old(refs) + CollectedBelow(n, i)
      {
        if IsReference(n, i) {
          refs := refs + {Child(n, i).text};
        } else {
          Collect(Child(n, i));
        }
        assert CollectedBelow(n, i + 1) == CollectedBelow(n, i) + CollectedAt(n, i);
      }
    }
  }

  /** Some object at some depth has a `$ref` member with this text. */
  ghost predicate Occurs(n: Node, r: string) {
    exists p :: OccursAt(n, p, r)
  }

  ghost predicate OccursAt(n: Node, p: Position, r: string) {
    Exists(n, p) && At(n, p).Obj? && exists i :: 0 <= i < |At(n, p).members| && At(n, p).members[i] == ("$ref", Str(r))
  }

  lemma OccursInChild(n: Node, i: nat, r: string)
    requires i < Children(n) && Occurs(Child(n, i), r)
    ensures Occurs(n, r)
  {
    var p :| OccursAt(Child(n, i), p, r);
    assert ([i] + p)[1..] == p;
    assert OccursAt(n, [i] + p, r);
  }

  lemma {:induction false} CollectedOccurs(n: Node, r: string)
    requires r in Collected(n)
    ensures Occurs(n, r)
  {
    var i: nat :| i < Children(n) && r in CollectedAt(n, i);
    if IsReference(n, i) {
      assert n.members[i] == (REF, Str(r));
      assert OccursAt(n, [], r);
    } else {
      CollectedOccurs(Child(n, i), r);
      OccursInChild(n, i, r);
    }
  }

  lemma {:induction false} OccurringIsCollected(n: Node, p: Position, r: string)
    requires OccursAt(n, p, r)
    ensures r in Collected(n)
    decreases |p|
  {
    if p == [] {
      var i :| 0 <= i < |n.members| && n.members[i] == (REF, Str(r));
      assert r in CollectedAt(n, i);
    } else {
      OccurringIsCollected(Child(n, p[0]), p[1..], r);
      assert !IsReference(n, p[0]);
      assert r in CollectedAt(n, p[0]);
    }
  }

  /** Collection is complete and exact: what is collected is what occurs, at any depth. */
  lemma CollectedIffOccurs(n: Node, r: string)
    ensures r in Collected(n) <==> Occurs(n, r)
  {
    if r in Collected(n) {
      CollectedOccurs(n, r);
    }
    if Occurs(n, r) {
      var p :| OccursAt(n, p, r);
      OccurringIsCollected(n, p, r);
    }
  }

  // ---------------------------------------------------------------- resolving

  function Split(s: string, sep: char): (parts: seq<string>)
    ensures |parts| > 0
  {
    if s == "" then [""]
    else
      var rest := Split(s[1..], sep);
      if s[0] == sep then [""] + rest else [[s[0]] + rest[0]] + rest[1..]
  }

  function Join(parts: seq<string>, sep: char): string
    requires |parts| > 0
  {
    if |parts| == 1 then parts[0] else parts[0] + [sep] + Join(parts[1..], sep)
  }

  lemma {:induction false} JoinOfSplit(s: string, sep: char)
    ensures Join(Split(s, sep), sep) == s
    ensures forall part :: part in Split(s, sep) ==> sep !in part
  {
    if s != "" {
      var rest := Split(s[1..], sep);
      JoinOfSplit(s[1..], sep);
      if s[0] == sep {
        assert ([""] + rest)[1..] == rest;
      } else {
        var first := [s[0]] + rest[0];
        assert ([first] + rest[1..])[1..] == rest[1..];
        assert rest[0] in rest;
      }
    }
  }

  function Step(n: Node, part: string): Option<Node> {
    if n.Obj? then Get(n.members, part) else None
  }

  /** The nodes visited while following the parts from `n`, as far as they lead. */
  ghost predicate Leads(n: Node, parts: seq<string>, nodes: seq<Node>) {
    && |nodes| == |parts| + 1 && nodes[0] == n
    && forall i :: 0 <= i < |parts| ==> Holds(nodes[i], parts[i], nodes[i + 1])
  }

  ghost predicate Resolves(n: Node, parts: seq<string>) {
    exists nodes :: Leads(n, parts, nodes)
  }

  predicate Local(r: string) {
    "#/" <= r
  }

  lemma StepIff(n: Node, part: string, m: Node)
    ensures Step(n, part) == Some(m) <==> Holds(n, part, m)
  {
    if n.Obj? {
      GetIff(n.members, part, m);
    }
  }

  ghost predicate Sound(spec: Node, r: string) {
    "#/" <= r && Resolves(spec, Split(r[2..], '/'))
  }

  datatype Defect = NonLocal(r: string) | Unresolved(r: string)

  /** Where the parts lead. */
  function Follow(n: Node, parts: seq<string>): Option<Node>
    decreases |parts|
  {
    if parts == [] then Some(n)
    else match Step(n, parts[0])
      case None => None
      case Some(m) => Follow(m, parts[1..])
  }

  lemma {:induction false} FollowsIffResolves(n: Node, parts: seq<string>)
    ensures Follow(n, parts).Some? <==> Resolves(n, parts)
    decreases |parts|
  {
    if parts == [] {
      assert Leads(n, parts, [n]);
    } else if Step(n, parts[0]).Some? {
      var m := Step(n, parts[0]).value;
      FollowsIffResolves(m, parts[1..]);
      StepIff(n, parts[0], m);
      if Resolves(m, parts[1..]) {
        var nodes :| Leads(m, parts[1..], nodes);
        assert Leads(n, parts, [n] + nodes);
      }
      if Resolves(n, parts) {
        var nodes :| Leads(n, parts, nodes);
        assert Holds(nodes[0], parts[0], nodes[0 + 1]);
        StepIff(n, parts[0], nodes[1]);
        assert Leads(m, parts[1..], nodes[1..]);
      }
    } else {
      forall nodes ensures !Leads(n, parts, nodes) {
        if |nodes| == |parts| + 1 && nodes[0] == n {
          StepIff(n, parts[0], nodes[0 + 1]);
          assert !Holds(nodes[0], parts[0], nodes[0 + 1]);
        }
      }
    }
  }

  method Resolve(spec: Node, r: string) returns (ok: bool)
    requires Local(r)
    ensures ok <==> Resolves(spec, Split(r[2..], '/'))
  {
    var parts := Split(r[2..], '/');
    FollowsIffResolves(spec, parts);
    var cur := spec;
    for i := 0 to |parts|
      invariant Follow(spec, parts) == Follow(cur, parts[i..])
    {
      assert parts[i..][1..] == parts[i + 1..];
      var next := Step(cur, parts[i]);
      if next.None? {
        return false;
      }
      cur := next.value;
    }
    return true;
  }

  /** The `$ref` block: one defect for each distinct reference that is not local or does not resolve. */
  method CheckReferences(spec: Node) returns (defects: set<Defect>)
    ensures forall r :: NonLocal(r) in defects <==> Occurs(spec, r) && !("#/" <= r)
    ensures forall r :: Unresolved(r) in defects <==>
      Occurs(spec, r) && "#/" <= r && !Resolves(spec, Split(r[2..], '/'))
    ensures defects == {} <==> forall p, r :: OccursAt(spec, p, r) ==> Sound(spec, r)
  {
    var collector := new Collector();
    collector.Collect(spec);
    var todo := collector.refs;
    defects := {};
    ghost var done: set<string> := {};
    while todo != {}
      invariant done + todo == Collected(spec)
      invariant ListsDefects(spec, done, defects)
      decreases todo
    {
      var r :| r in todo;
      todo, done := todo - {r}, done + {r};
      if !Local(r) {
        defects := defects + {NonLocal(r)};
      } else {
        var ok := Resolve(spec, r);
        if !ok {
          defects := defects + {Unresolved(r)};
        }
      }
    }
    forall r ensures r in done <==> Occurs(spec, r) {
      CollectedIffOccurs(spec, r);
    }
    NoDefectsIff(spec, done, defects);
  }

  ghost predicate ListsDefects(spec: Node, done: set<string>, defects: set<Defect>) {
    && (forall r :: NonLocal(r) in defects <==> r in done && !("#/" <= r))
    && (forall r :: Unresolved(r) in defects <==> r in done && "#/" <= r && !Resolves(spec, Split(r[2..], '/')))
  }

  lemma NoDefectsIff(spec: Node, done: set<string>, defects: set<Defect>)
    requires ListsDefects(spec, done, defects) && forall r :: r in done <==> Occurs(spec, r)
    ensures defects == {} <==> forall p, r :: OccursAt(spec, p, r) ==> Sound(spec, r)
  {
    if d :| d in defects {
      var p :| OccursAt(spec, p, d.r);
      assert !Sound(spec, d.r);
    }
    if p, r :| OccursAt(spec, p, r) && !Sound(spec, r) {
      assert Occurs(spec, r);
      assert NonLocal(r) in defects || Unresolved(r) in defects;
    }
  }
}
