/** The walk that finds which requirements an API description declares, and where. */
module Requirements {
  import opened Collections
  import opened Json

  const DECLARES: string := "x-requirements"
  const OPERATION: string := "operationId"

  /** The place a requirement is attributed to: an operation id, a name, or nothing yet. */
  type Context = Option<Node>

  /** What iterating over the value of `x-requirements` yields. */
  function Listed(value: Node): set<string> {
    match value
    case Arr(items) => set i | 0 <= i < |items| && items[i].Str? :: items[i].text
    case Obj(members) => set i | 0 <= i < |members| :: members[i].0
    case Str(text) => set i | 0 <= i < |text| :: [text[i]]
    case Atom(_) => {}
  }

  function Declared(n: Node): set<string> {
    if n.Obj? && Get(n.members, DECLARES).Some? then Listed(Get(n.members, DECLARES).value) else {}
  }

  predicate Skipped(n: Node, i: nat)
    requires i < Children(n)
  {
    n.Obj? && n.members[i].0 == DECLARES
  }

  /** What an operation id gives as a context: a null one gives none. */
  function ContextOf(op: Node): Context {
    if op == Atom("null") then None else Some(op)
  }

  function OrElse(a: Context, b: Context): Context {
    if a.Some? then a else b
  }

  /** The operation id of a member that is an object with one. */
  function OperationOf(n: Node, i: nat): Context
    requires i < Children(n)
  {
    if n.Obj? && n.members[i].1.Obj? then Get(n.members[i].1.members, OPERATION) else None
  }

  function NextContext(n: Node, i: nat, context: Context): Context
    requires i < Children(n)
  {
    if OperationOf(n, i).Some? then ContextOf(OperationOf(n, i).value)
    else if n.Obj? && context.None? then Some(Str(n.members[i].0))
    else context
  }

  type Hits = set<(string, Context)>

  function Here(valid: set<string>, n: Node, context: Context): Hits {
    set r | r in Declared(n) && r in valid :: (r, context)
  }

  function Walked(valid: set<string>, n: Node, context: Context): Hits
    decreases n, 1
  {
    Here(valid, n, context)
    + (set i: nat, h | i < Children(n) && h in WalkedAt(valid, n, i, context) :: h)
  }

  function WalkedAt(valid: set<string>, n: Node, i: nat, context: Context): Hits
    requires i < Children(n)
    decreases n, 0
  {
    if Skipped(n, i) then {} else Walked(valid, Child(n, i), NextContext(n, i, context))
  }

  function WalkedBelow(valid: set<string>, n: Node, k: nat, context: Context): Hits
    requires k <= Children(n)
  {
    Here(valid, n, context)
    + (set i: nat, h | i < k && h in WalkedAt(valid, n, i, context) :: h)
  }

  lemma OneMoreChild(valid: set<string>, n: Node, i: nat, context: Context)
    requires i < Children(n)
    ensures WalkedBelow(valid, n, i + 1, context) == WalkedBelow(valid, n, i, context) + WalkedAt(valid, n, i, context)
  {
  }

  ghost function Endless(hits: Hits): iset<(string, Context)> {
    iset h | h in hits
  }

  lemma EndlessUnion(before: iset<(string, Context)>, a: Hits, b: Hits)
    ensures before + Endless(a) + Endless(b) == before + Endless(a + b)
    ensures before + Endless(a) + Endless({}) == before + Endless(a)
  {
  }

  // ---------------------------------------------------------------- the whole description

  const METHODS: set<string> := {"get", "post", "put", "patch", "delete"}
  const GROUPS: seq<string> := ["schemas", "parameters", "responses"]

  function MembersOf(n: Node): seq<(string, Node)> {
    if n.Obj? then n.members else []
  }

  /** The members of a member, none if it is absent. */
  function Under(n: Node, key: string): seq<(string, Node)> {
    match Get(MembersOf(n), key)
    case None => []
    case Some(value) => MembersOf(value)
  }

  /** The operation's own id, or its method and path. */
  function OperationContext(path: string, operation: Member): Context {
    match Get(MembersOf(operation.1), OPERATION)
    case None => Some(Str(operation.0 + " " + path))
    case Some(op) => ContextOf(op)
  }

  type Member = (string, Node)

  /** What the first `k` members record, each by itself. */
  function UnionUpTo(record: Member -> Hits, members: seq<Member>, k: nat): Hits
    requires k <= |members|
  {
    if k == 0 then {} else UnionUpTo(record, members, k - 1) + record(members[k - 1])
  }

  function UnionOf(record: Member -> Hits, members: seq<Member>): Hits {
    UnionUpTo(record, members, |members|)
  }

  function OperationHits(valid: set<string>, path: string): Member -> Hits {
    (operation: Member) =>
      if operation.0 in METHODS then Walked(valid, operation.1, OperationContext(path, operation)) else {}
  }

  function ItemHits(valid: set<string>): Member -> Hits {
    (path: Member) => UnionOf(OperationHits(valid, path.0), MembersOf(path.1))
  }

  function ComponentHits(valid: set<string>, group: string): Member -> Hits {
    (component: Member) => Walked(valid, component.1, Some(Str(group + "/" + component.0)))
  }

  /** The members of one group of components. */
  function Components(spec: Node, group: string): seq<Member> {
    Under(Obj(Under(spec, "components")), group)
  }

  function GroupHits(valid: set<string>, spec: Node, group: string): Hits {
    UnionOf(ComponentHits(valid, group), Components(spec, group))
  }

  function GroupsHits(valid: set<string>, spec: Node, groups: seq<string>): Hits {
    if groups == [] then {}
    else GroupsHits(valid, spec, groups[..|groups| - 1]) + GroupHits(valid, spec, groups[|groups| - 1])
  }

  function SpecHits(valid: set<string>, spec: Node, groups: seq<string>): Hits {
    UnionOf(ItemHits(valid), Under(spec, "paths")) + GroupsHits(valid, spec, groups)
  }

  class Scanner {
    const valid: set<string>
    var hits: map<string, set<Context>>

    constructor (valid: set<string>)
      ensures this.valid == valid && hits == map[]
    {
      this.valid := valid;
      hits := map[];
    }

    ghost function Pairs(): iset<(string, Context)>
      reads this
    {
      iset r, c | r in hits && c in hits[r] :: (r, c)
    }

    method Note(req: string, place: Context)
      modifies this
      ensures Pairs() == old(Pairs()) + (if req in valid then iset{(req, place)} else iset{})
    {
      if req in valid {
        hits := hits[req := (if req in hits then hits[req] else {}) + {place}];
      }
    }

    method NoteAll(n: Node, place: Context)
      modifies this
      ensures Pairs() == old(Pairs()) + Endless(Here(valid, n, place))
    {
      var todo := Declared(n);
      while todo != {}
        invariant todo <= Declared(n)
        invariant Pairs() == old(Pairs()) + iset r | r in Declared(n) - todo && r in valid :: (r, place)
        decreases todo
      {
        var r :| r in todo;
        Note(r, place);
        assert Declared(n) - (todo - {r}) == Declared(n) - todo + {r};
        todo := todo - {r};
      }
    }

    method Walk(n: Node, context: Context)
      modifies this
      ensures Pairs() == old(Pairs()) + Endless(Walked(valid, n, context))
      decreases n
    {
      ghost var before := Pairs();
      NoteAll(n, context);
      ghost var found := Here(valid, n, context);
      assert WalkedBelow(valid, n, 0, context) == found;
      for i := 0 to Children(n)
        invariant Pairs() == before + Endless(found) && found == WalkedBelow(valid, n, i, context)
      {
        OneMoreChild(valid, n, i, context);
        EndlessUnion(before, found, WalkedAt(valid, n, i, context));
        if !Skipped(n, i) {
          Walk(Child(n, i), NextContext(n, i, context));
        }
        found := found + WalkedAt(valid, n, i, context);
      }
      assert found == Walked(valid, n, context);
    }

    method ScanItem(path: string, item: seq<Member>)
      modifies this
      ensures Pairs() == old(Pairs()) + Endless(UnionOf(OperationHits(valid, path), item))
    {
      ghost var before, record := Pairs(), OperationHits(valid, path);
      for j := 0 to |item|
        invariant Pairs() == before + Endless(UnionUpTo(record, item, j))
      {
        EndlessUnion(before, UnionUpTo(record, item, j), record(item[j]));
        if item[j].0 in METHODS {
          Walk(item[j].1, OperationContext(path, item[j]));
        }
      }
    }

    method ScanPaths(paths: seq<Member>)
      modifies this
      ensures Pairs() == old(Pairs()) + Endless(UnionOf(ItemHits(valid), paths))
    {
      ghost var before, record := Pairs(), ItemHits(valid);
      for i := 0 to |paths|
        invariant Pairs() == before + Endless(UnionUpTo(record, paths, i))
      {
        EndlessUnion(before, UnionUpTo(record, paths, i), record(paths[i]));
        ScanItem(paths[i].0, MembersOf(paths[i].1));
      }
    }

    method ScanGroup(group: string, named: seq<Member>)
      modifies this
      ensures Pairs() == old(Pairs()) + Endless(UnionOf(ComponentHits(valid, group), named))
    {
      ghost var before, record := Pairs(), ComponentHits(valid, group);
      for i := 0 to |named|
        invariant Pairs() == before + Endless(UnionUpTo(record, named, i))
      {
        EndlessUnion(before, UnionUpTo(record, named, i), record(named[i]));
        Walk(named[i].1, Some(Str(group + "/" + named[i].0)));
      }
    }

    method ScanGroups(spec: Node, groups: seq<string>)
      modifies this
      ensures Pairs() == old(Pairs()) + Endless(GroupsHits(valid, spec, groups))
    {
      ghost var before := Pairs();
      for g := 0 to |groups|
        invariant Pairs() == before + Endless(GroupsHits(valid, spec, groups[..g]))
      {
        assert groups[..g + 1][..g] == groups[..g];
        EndlessUnion(before, GroupsHits(valid, spec, groups[..g]), GroupHits(valid, spec, groups[g]));
        ScanGroup(groups[g], Components(spec, groups[g]));
      }
      assert groups[..|groups|] == groups;
    }

    /**
     The whole description: every operation under its id or its method and path, every
     component under its group and name.
     */
    method ScanOpenApi(spec: Node)
      modifies this
      ensures Pairs() == old(Pairs()) + Endless(SpecHits(valid, spec, GROUPS))
      ensures forall h :: h in Pairs() <==>
        h in old(Pairs()) || RecordedFrom(valid, spec, ["schemas", "parameters", "responses"], h)
    {
      ghost var before, groups := Pairs(), GROUPS;
      ScanPaths(Under(spec, "paths"));
      ScanGroups(spec, GROUPS);
      EndlessUnion(before, UnionOf(ItemHits(valid), Under(spec, "paths")), GroupsHits(valid, spec, groups));
      forall h ensures h in SpecHits(valid, spec, groups) <==> RecordedFrom(valid, spec, groups, h) {
        ScanRecordsIff(valid, spec, groups, h);
      }
    }
  }

  /** Some operation, or component of the groups, declares the requirement and stands for or hands on the place. */
  ghost predicate RecordedFrom(valid: set<string>, spec: Node, groups: seq<string>, h: (string, Context)) {
    exists n, given ::
      (IsOperation(spec, n, given) || IsComponent(spec, groups, n, given)) && DeclaresBelow(valid, n, given, h)
  }

  ghost predicate RecordedByPaths(valid: set<string>, spec: Node, h: (string, Context)) {
    exists n, given :: IsOperation(spec, n, given) && DeclaresBelow(valid, n, given, h)
  }

  ghost predicate RecordedByGroups(valid: set<string>, spec: Node, groups: seq<string>, h: (string, Context)) {
    exists n, given :: IsComponent(spec, groups, n, given) && DeclaresBelow(valid, n, given, h)
  }

  // ---------------------------------------------------------------- completeness

  /** A position the walk may reach: it exists and never goes through an `x-requirements` value. */
  predicate Visited(n: Node, p: Position) {
    p == [] || (p[0] < Children(n) && !Skipped(n, p[0]) && Visited(Child(n, p[0]), p[1..]))
  }

  /** The `j`-th step of the position takes a member of this name. */
  predicate StepsThrough(n: Node, p: Position, j: nat, key: string)
    requires j < |p| && Exists(n, p)
    decreases j
  {
    if j > 0 then StepsThrough(Child(n, p[0]), p[1..], j - 1, key)
    else n.Obj? && n.members[p[0]].0 == key
  }

  lemma FirstStep(n: Node, p: Position, key: string)
    requires p != [] && Exists(n, p) && n.Obj? && n.members[p[0]].0 == key
    ensures exists j :: 0 <= j < |p| && StepsThrough(n, p, j, key)
  {
    var j: nat := 0;
    assert j < |p| && StepsThrough(n, p, j, key);
  }

  lemma {:induction false} LaterStep(n: Node, p: Position, i: nat, key: string)
    requires p != [] && Exists(n, p) && i < |p[1..]| && StepsThrough(Child(n, p[0]), p[1..], i, key)
    ensures exists j :: 0 <= j < |p| && StepsThrough(n, p, j, key)
  {
    var j := i + 1;
    assert j < |p| && StepsThrough(n, p, j, key);
  }

  /** The walk goes where no step takes a member of the name it skips. */
  lemma {:induction false} VisitedIff(n: Node, p: Position, key: string)
    requires key == "x-requirements"
    ensures Visited(n, p) <==> Exists(n, p) && forall j :: 0 <= j < |p| ==> !StepsThrough(n, p, j, key)
    decreases |p|
  {
    if p != [] && Exists(n, p) {
      VisitedIff(Child(n, p[0]), p[1..], key);
      if Visited(n, p) {
        forall j | 0 <= j < |p| ensures !StepsThrough(n, p, j, key) {
          if j > 0 {
            assert !StepsThrough(Child(n, p[0]), p[1..], j - 1, key);
          }
        }
      } else if !Visited(Child(n, p[0]), p[1..]) {
        var j :| 0 <= j < |p[1..]| && StepsThrough(Child(n, p[0]), p[1..], j, key);
        LaterStep(n, p, j, key);
      } else {
        assert Skipped(n, p[0]);
        FirstStep(n, p, key);
      }
    } else if p != [] && Visited(n, p) {
      VisitedExists(n, p);
    }
  }

  lemma {:induction false} VisitedExists(n: Node, p: Position)
    requires Visited(n, p)
    ensures Exists(n, p)
    decreases |p|
  {
    if p != [] {
      VisitedExists(Child(n, p[0]), p[1..]);
    }
  }

  /** The last step of the position arrives, through a member, at an object with an operation id. */
  ghost predicate ArrivesAtOperation(n: Node, p: Position, op: Node) {
    && p != [] && Exists(n, p[..|p| - 1]) && p[|p| - 1] < Children(At(n, p[..|p| - 1]))
    && ChildHolds(At(n, p[..|p| - 1]), p[|p| - 1], "operationId", op)
  }

  /** The child is an object, below a member, that holds this value under the key. */
  ghost predicate ChildHolds(n: Node, i: nat, key: string, value: Node) {
    n.Obj? && i < |n.members| && Holds(n.members[i].1, key, value)
  }

  lemma OperationIff(n: Node, i: nat, op: Node)
    requires i < Children(n)
    ensures OperationOf(n, i) == Some(op) <==> ChildHolds(n, i, "operationId", op)
  {
    if n.Obj? && n.members[i].1.Obj? {
      GetIff(n.members[i].1.members, OPERATION, op);
    }
  }

  /** `op`, arrived at after `k` steps, is the operation id nearest above the position. */
  ghost predicate NearestOperation(n: Node, p: Position, k: nat, op: Node) {
    0 < k <= |p| && ArrivesAtOperation(n, p[..k], op) && NoOperationAfter(n, p, k)
  }

  ghost predicate NoOperationAfter(n: Node, p: Position, k: nat) {
    forall j, op :: k < j <= |p| ==> !ArrivesAtOperation(n, p[..j], op)
  }

  /** The key of the first step that goes through an object. */
  function FirstKey(n: Node, p: Position): Context
    requires Exists(n, p)
  {
    if p == [] then None
    else if n.Obj? then Some(Str(n.members[p[0]].0))
    else FirstKey(Child(n, p[0]), p[1..])
  }

  /** The same, counting from the `k`-th step on. */
  function FirstKeyFrom(n: Node, p: Position, k: nat): Context
    requires Exists(n, p) && k <= |p|
  {
    if k == 0 then FirstKey(n, p) else FirstKeyFrom(Child(n, p[0]), p[1..], k - 1)
  }

  ghost predicate PlacedBy(n: Node, p: Position, k: nat, op: Node, place: Context)
    requires Exists(n, p)
  {
    NearestOperation(n, p, k, op) && place == if op != Atom("null") then Some(op) else FirstKeyFrom(n, p, k)
  }

  /**
   Where a requirement declared at a position is attributed to: the nearest operation id above
   it, or else the given context; and where that is nothing, the first key passed since.
   */
  ghost predicate AttributedTo(n: Node, p: Position, given: Context, place: Context)
    requires Exists(n, p)
  {
    if NoOperationAfter(n, p, 0) then place == if given.Some? then given else FirstKey(n, p)
    else exists k: nat, op :: PlacedBy(n, p, k, op, place)
  }

  ghost predicate DeclaredAt(valid: set<string>, n: Node, p: Position, given: Context, h: (string, Context)) {
    Visited(n, p) && Exists(n, p) && h.0 in valid && Declares(At(n, p), h.0) && AttributedTo(n, p, given, h.1)
  }

  /** The value of `x-requirements` yields this text: an item, a key, or a character. */
  ghost predicate Yields(value: Node, r: string) {
    match value
    case Arr(items) => exists i :: 0 <= i < |items| && items[i] == Str(r)
    case Obj(members) => exists i :: 0 <= i < |members| && members[i].0 == r
    case Str(text) => exists i :: 0 <= i < |text| && r == [text[i]]
    case Atom(_) => false
  }

  ghost predicate Declares(n: Node, r: string) {
    exists value :: Holds(n, "x-requirements", value) && Yields(value, r)
  }

  lemma DeclaredIff(n: Node, r: string)
    ensures r in Declared(n) <==> Declares(n, r)
  {
    if n.Obj? {
      GetHolds(n, DECLARES);
      if Get(n.members, DECLARES).Some? {
        ListedIff(Get(n.members, DECLARES).value, r);
      }
    }
  }

  lemma ListedIff(value: Node, r: string)
    ensures r in Listed(value) <==> Yields(value, r)
  {
    if value.Str? && Yields(value, r) {
      var i :| 0 <= i < |value.text| && r == [value.text[i]];
    }
  }

  lemma Prepend(n: Node, i: nat, q: Position)
    requires i < Children(n) && Exists(Child(n, i), q)
    ensures Exists(n, [i] + q) && At(n, [i] + q) == At(Child(n, i), q)
    ensures Visited(n, [i] + q) <==> !Skipped(n, i) && Visited(Child(n, i), q)
  {
    assert ([i] + q)[1..] == q;
  }

  /** Going one level down keeps where the later steps arrive. */
  lemma ArrivalBelow(n: Node, p: Position, j: nat, op: Node)
    requires Exists(n, p) && 1 < j <= |p|
    ensures ArrivesAtOperation(n, p[..j], op) <==> ArrivesAtOperation(Child(n, p[0]), p[1..][..j - 1], op)
  {
    var below, q := Child(n, p[0]), p[1..][..j - 1];
    assert p[..j][..j - 1] == p[..j - 1] && q[..|q| - 1] == p[1..j - 1];
    assert p[..j - 1] == [p[0]] + p[1..j - 1];
    assert p[..j][j - 1] == q[|q| - 1];
    assert ([p[0]] + q[..|q| - 1])[1..] == q[..|q| - 1];
  }

  lemma ArrivalHere(n: Node, p: Position, op: Node)
    requires Exists(n, p) && p != []
    ensures ArrivesAtOperation(n, p[..1], op) <==> OperationOf(n, p[0]) == Some(op)
  {
    assert p[..1][..0] == [];
    OperationIff(n, p[0], op);
  }

  /** With no operation id further down, the first step decides. */
  lemma AttributedHere(n: Node, p: Position, given: Context, place: Context)
    requires Exists(n, p) && p != [] && NoOperationAfter(Child(n, p[0]), p[1..], 0)
    ensures AttributedTo(n, p, given, place)
        <==> place == OrElse(NextContext(n, p[0], given), FirstKey(Child(n, p[0]), p[1..]))
  {
    LaterArrivals(n, p);
    forall op ensures ArrivesAtOperation(n, p[..1], op) <==> OperationOf(n, p[0]) == Some(op) {
      ArrivalHere(n, p, op);
    }
    assert forall k: nat, op :: NearestOperation(n, p, k, op) ==> k == 1;
    if OperationOf(n, p[0]).Some? {
      assert NearestOperation(n, p, 1, OperationOf(n, p[0]).value);
      assert FirstKeyFrom(n, p, 1) == FirstKey(Child(n, p[0]), p[1..]);
      assert PlacedBy(n, p, 1, OperationOf(n, p[0]).value, place)
        <==> place == OrElse(NextContext(n, p[0], given), FirstKey(Child(n, p[0]), p[1..]));
    }
  }

  /** With one further down, the first step does not matter. */
  lemma AttributedBelow(n: Node, p: Position, given: Context, below: Context, place: Context)
    requires Exists(n, p) && p != [] && !NoOperationAfter(Child(n, p[0]), p[1..], 0)
    ensures AttributedTo(n, p, given, place) <==> AttributedTo(Child(n, p[0]), p[1..], below, place)
  {
    LaterArrivals(n, p);
    PlacedBelow(n, p, place);
    if AttributedTo(n, p, given, place) {
      var k: nat, op :| PlacedBy(n, p, k, op, place);
      assert PlacedBy(Child(n, p[0]), p[1..], k - 1, op, place) <==> PlacedBy(n, p, (k - 1) + 1, op, place);
    }
    if AttributedTo(Child(n, p[0]), p[1..], below, place) {
      var k: nat, op :| PlacedBy(Child(n, p[0]), p[1..], k, op, place);
      assert PlacedBy(n, p, k + 1, op, place);
    }
  }

  /** The context handed down is the attribution one level down. */
  lemma AttributionStep(n: Node, p: Position, given: Context, place: Context)
    requires Exists(n, p) && p != []
    ensures AttributedTo(n, p, given, place)
       <==> AttributedTo(Child(n, p[0]), p[1..], NextContext(n, p[0], given), place)
  {
    if NoOperationAfter(Child(n, p[0]), p[1..], 0) {
      AttributedHere(n, p, given, place);
    } else {
      AttributedBelow(n, p, given, NextContext(n, p[0], given), place);
    }
  }

  lemma NoneAfterBelow(n: Node, p: Position, k: nat)
    requires Exists(n, p) && p != [] && 0 < k
    ensures NoOperationAfter(n, p, k) <==> NoOperationAfter(Child(n, p[0]), p[1..], k - 1)
  {
    var below, q := Child(n, p[0]), p[1..];
    if NoOperationAfter(n, p, k) {
      forall j, op | k - 1 < j <= |q| ensures !ArrivesAtOperation(below, q[..j], op) {
        ArrivalBelow(n, p, j + 1, op);
      }
    }
    if NoOperationAfter(below, q, k - 1) {
      forall j, op | k < j <= |p| ensures !ArrivesAtOperation(n, p[..j], op) {
        ArrivalBelow(n, p, j, op);
      }
    }
  }

  lemma LaterArrivals(n: Node, p: Position)
    requires Exists(n, p) && p != []
    ensures NoOperationAfter(n, p, 1) <==> NoOperationAfter(Child(n, p[0]), p[1..], 0)
    ensures NoOperationAfter(n, p, 0) <==> OperationOf(n, p[0]).None? && NoOperationAfter(n, p, 1)
  {
    NoneAfterBelow(n, p, 1);
    forall op ensures ArrivesAtOperation(n, p[..1], op) <==> OperationOf(n, p[0]) == Some(op) {
      ArrivalHere(n, p, op);
    }
    if OperationOf(n, p[0]).Some? {
      assert ArrivesAtOperation(n, p[..1], OperationOf(n, p[0]).value);
    }
  }

  lemma NearestBelow(n: Node, p: Position)
    requires Exists(n, p) && p != [] && !NoOperationAfter(Child(n, p[0]), p[1..], 0)
    ensures forall k: nat, op :: NearestOperation(n, p, k + 1, op) <==> NearestOperation(Child(n, p[0]), p[1..], k, op)
    ensures forall k: nat, op :: NearestOperation(n, p, k, op) ==> k > 1
  {
    var below, q := Child(n, p[0]), p[1..];
    LaterArrivals(n, p);
    forall k: nat, op ensures NearestOperation(n, p, k + 1, op) <==> NearestOperation(below, q, k, op) {
      if 0 < k <= |q| {
        ArrivalBelow(n, p, k + 1, op);
        NoneAfterBelow(n, p, k + 1);
      }
    }
  }

  lemma PlacedBelow(n: Node, p: Position, place: Context)
    requires Exists(n, p) && p != [] && !NoOperationAfter(Child(n, p[0]), p[1..], 0)
    ensures forall k: nat, op :: PlacedBy(n, p, k + 1, op, place) <==> PlacedBy(Child(n, p[0]), p[1..], k, op, place)
    ensures forall k: nat, op :: PlacedBy(n, p, k, op, place) ==> k > 1
  {
    NearestBelow(n, p);
    forall k: nat, op ensures PlacedBy(n, p, k + 1, op, place) <==> PlacedBy(Child(n, p[0]), p[1..], k, op, place) {
      assert NearestOperation(n, p, k + 1, op) <==> NearestOperation(Child(n, p[0]), p[1..], k, op);
    }
  }

  lemma {:induction false} WalkedIsDeclared(valid: set<string>, n: Node, given: Context, h: (string, Context))
    requires h in Walked(valid, n, given)
    ensures DeclaresBelow(valid, n, given, h)
  {
    DeclaredIff(n, h.0);
    if h.0 in Declared(n) && h.0 in valid && h.1 == given {
      assert DeclaredAt(valid, n, [], given, h);
    } else {
      var i: nat :| i < Children(n) && h in WalkedAt(valid, n, i, given);
      WalkedIsDeclared(valid, Child(n, i), NextContext(n, i, given), h);
      var q :| DeclaredAt(valid, Child(n, i), q, NextContext(n, i, given), h);
      Prepend(n, i, q);
      var p := [i] + q;
      assert p[1..] == q;
      AttributionStep(n, p, given, h.1);
      assert DeclaredAt(valid, n, p, given, h);
    }
  }

  lemma {:induction false} DeclaredIsWalked(valid: set<string>, n: Node, given: Context, h: (string, Context),
                                            p: Position)
    requires DeclaredAt(valid, n, p, given, h)
    ensures h in Walked(valid, n, given)
    decreases |p|
  {
    DeclaredIff(n, h.0);
    if p != [] {
      AttributionStep(n, p, given, h.1);
      DeclaredIsWalked(valid, Child(n, p[0]), NextContext(n, p[0], given), h, p[1..]);
      assert h in WalkedAt(valid, n, p[0], given);
    }
  }

  /**
   The walk is complete and exact: it records a requirement with a place exactly when some
   position, at any depth and outside `x-requirements` values, declares that requirement and
   the place is the nearest operation id above it, or else the given context.
   */
  lemma WalkedIffDeclared(valid: set<string>, n: Node, given: Context, h: (string, Context))
    ensures h in Walked(valid, n, given) <==> DeclaresBelow(valid, n, given, h)
  {
    if h in Walked(valid, n, given) {
      WalkedIsDeclared(valid, n, given, h);
    }
    if p :| DeclaredAt(valid, n, p, given, h) {
      DeclaredIsWalked(valid, n, given, h, p);
    }
  }

  // ---------------------------------------------------------------- what the API layer records

  /** An operation of the description and the place it stands for. */
  ghost predicate IsOperation(spec: Node, n: Node, place: Context) {
    exists paths, i, j :: Holds(spec, "paths", paths) && HasOperation(paths, i, j, n, place)
  }

  ghost predicate HasOperation(paths: Node, i: int, j: int, n: Node, place: Context) {
    paths.Obj? && 0 <= i < |paths.members| && OperationAt(paths.members[i], j, n, place)
  }

  ghost predicate OperationAt(path: Member, j: int, n: Node, place: Context) {
    && path.1.Obj? && 0 <= j < |path.1.members| && path.1.members[j].1 == n
    && path.1.members[j].0 in {"get", "post", "put", "patch", "delete"}
    && StandsFor(path.0, path.1.members[j].0, n, place)
  }

  /** An operation stands for its id, for nothing when that is null, and without one for its method and path. */
  ghost predicate StandsFor(path: string, verb: string, n: Node, place: Context) {
    && (forall op :: Holds(n, "operationId", op) ==> place == if op == Atom("null") then None else Some(op))
    && ((forall op :: !Holds(n, "operationId", op)) ==> place == Some(Str(verb + " " + path)))
  }

  lemma StandsForIff(path: string, operation: Member, place: Context)
    ensures StandsFor(path, operation.0, operation.1, place) <==> place == OperationContext(path, operation)
  {
    var n := operation.1;
    if n.Obj? {
      GetHolds(n, OPERATION);
      if Get(n.members, OPERATION).Some? {
        assert Holds(n, "operationId", Get(n.members, OPERATION).value);
      }
    }
  }

  lemma OperationAtIff(path: Member, j: int, n: Node, place: Context)
    ensures OperationAt(path, j, n, place) <==>
      0 <= j < |MembersOf(path.1)| && MembersOf(path.1)[j].0 in METHODS && MembersOf(path.1)[j].1 == n
      && place == OperationContext(path.0, MembersOf(path.1)[j])
  {
    if 0 <= j < |MembersOf(path.1)| {
      StandsForIff(path.0, MembersOf(path.1)[j], place);
    }
  }

  /** A named component of one of the groups and the place it stands for. */
  ghost predicate IsComponent(spec: Node, groups: seq<string>, n: Node, place: Context) {
    exists components, group, named, i ::
      && Holds(spec, "components", components) && group in groups && Holds(components, group, named)
      && ComponentIn(group, named, i, n, place)
  }

  ghost predicate ComponentIn(group: string, named: Node, i: int, n: Node, place: Context) {
    named.Obj? && ComponentAt(group, named.members, i, n, place)
  }

  ghost predicate ComponentAt(group: string, named: seq<Member>, i: int, n: Node, place: Context) {
    0 <= i < |named| && named[i].1 == n && place == Some(Str(group + "/" + named[i].0))
  }

  lemma UnderIs(n: Node, key: string)
    ensures forall v :: Holds(n, key, v) ==> Under(n, key) == if v.Obj? then v.members else []
    ensures Under(n, key) != [] ==> Holds(n, key, Obj(Under(n, key)))
  {
    if n.Obj? {
      GetHolds(n, key);
    }
  }

  lemma IsOperationIff(spec: Node, n: Node, place: Context)
    ensures IsOperation(spec, n, place)
       <==> exists i, j :: 0 <= i < |Under(spec, "paths")| && OperationAt(Under(spec, "paths")[i], j, n, place)
  {
    UnderIs(spec, "paths");
    if i, j :| 0 <= i < |Under(spec, "paths")| && OperationAt(Under(spec, "paths")[i], j, n, place) {
      assert HasOperation(Obj(Under(spec, "paths")), i, j, n, place);
    }
    if paths, i, j :| Holds(spec, "paths", paths) && HasOperation(paths, i, j, n, place) {
      assert Under(spec, "paths") == paths.members;
    }
  }

  lemma IsComponentIff(spec: Node, groups: seq<string>, n: Node, place: Context)
    ensures IsComponent(spec, groups, n, place)
       <==> exists group, i :: group in groups && ComponentAt(group, Components(spec, group), i, n, place)
  {
    var all := Obj(Under(spec, "components"));
    UnderIs(spec, "components");
    if group, i :| group in groups && ComponentAt(group, Components(spec, group), i, n, place) {
      UnderIs(all, group);
      assert Holds(all, group, Obj(Under(all, group))) && Holds(spec, "components", all);
      assert ComponentIn(group, Obj(Under(all, group)), i, n, place);
    }
    if components, group, named, i :|
      && Holds(spec, "components", components) && group in groups && Holds(components, group, named)
      && ComponentIn(group, named, i, n, place)
    {
      UnderIs(all, group);
      assert all == components && Components(spec, group) == named.members;
    }
  }

  /** Some position below the node declares the requirement, attributed from this context to the place. */
  ghost predicate DeclaresBelow(valid: set<string>, n: Node, given: Context, h: (string, Context)) {
    exists p :: DeclaredAt(valid, n, p, given, h)
  }

  lemma {:induction false} UnionHas(record: Member -> Hits, members: seq<Member>, k: nat, h: (string, Context))
    requires k <= |members|
    ensures h in UnionUpTo(record, members, k) <==> exists i :: 0 <= i < k && h in record(members[i])
  {
    if k > 0 {
      UnionHas(record, members, k - 1, h);
    }
  }

  lemma ItemRecordsIff(valid: set<string>, path: Member, h: (string, Context))
    ensures h in ItemHits(valid)(path)
       <==> exists j, n, given :: OperationAt(path, j, n, given) && DeclaresBelow(valid, n, given, h)
  {
    var item, record := MembersOf(path.1), OperationHits(valid, path.0);
    UnionHas(record, item, |item|, h);
    if j :| 0 <= j < |item| && h in record(item[j]) {
      var given := OperationContext(path.0, item[j]);
      WalkedIffDeclared(valid, item[j].1, given, h);
      OperationAtIff(path, j, item[j].1, given);
      assert OperationAt(path, j, item[j].1, given) && DeclaresBelow(valid, item[j].1, given, h);
    }
    if j, n, given :| OperationAt(path, j, n, given) && DeclaresBelow(valid, n, given, h) {
      WalkedIffDeclared(valid, n, given, h);
      OperationAtIff(path, j, n, given);
      assert h in record(item[j]);
    }
  }

  lemma PathsRecordIff(valid: set<string>, spec: Node, h: (string, Context))
    ensures h in UnionOf(ItemHits(valid), Under(spec, "paths"))
       <==> RecordedByPaths(valid, spec, h)
  {
    var paths, record := Under(spec, "paths"), ItemHits(valid);
    UnionHas(record, paths, |paths|, h);
    if i :| 0 <= i < |paths| && h in record(paths[i]) {
      ItemRecordsIff(valid, paths[i], h);
      var j, n, given :| OperationAt(paths[i], j, n, given) && DeclaresBelow(valid, n, given, h);
      IsOperationIff(spec, n, given);
    }
    if n, given :| IsOperation(spec, n, given) && DeclaresBelow(valid, n, given, h) {
      IsOperationIff(spec, n, given);
      var i, j :| 0 <= i < |paths| && OperationAt(paths[i], j, n, given);
      ItemRecordsIff(valid, paths[i], h);
      assert h in record(paths[i]);
    }
  }

  lemma NamedRecordIff(valid: set<string>, group: string, named: seq<Member>, h: (string, Context))
    ensures h in UnionOf(ComponentHits(valid, group), named)
       <==> exists i, n, given :: ComponentAt(group, named, i, n, given) && DeclaresBelow(valid, n, given, h)
  {
    var record := ComponentHits(valid, group);
    UnionHas(record, named, |named|, h);
    if i :| 0 <= i < |named| && h in record(named[i]) {
      var given := Some(Str(group + "/" + named[i].0));
      WalkedIffDeclared(valid, named[i].1, given, h);
      assert ComponentAt(group, named, i, named[i].1, given) && DeclaresBelow(valid, named[i].1, given, h);
    }
    if i, n, given :| ComponentAt(group, named, i, n, given) && DeclaresBelow(valid, n, given, h) {
      WalkedIffDeclared(valid, n, given, h);
      assert h in record(named[i]);
    }
  }

  lemma GroupRecordsIff(valid: set<string>, spec: Node, group: string, h: (string, Context))
    ensures h in GroupHits(valid, spec, group)
       <==> exists i, n, given :: ComponentAt(group, Components(spec, group), i, n, given)
                                  && DeclaresBelow(valid, n, given, h)
  {
    NamedRecordIff(valid, group, Components(spec, group), h);
  }

  lemma {:induction false} GroupsHave(valid: set<string>, spec: Node, groups: seq<string>, h: (string, Context))
    ensures h in GroupsHits(valid, spec, groups)
        <==> exists group :: group in groups && h in GroupHits(valid, spec, group)
  {
    if groups != [] {
      var n := |groups| - 1;
      GroupsHave(valid, spec, groups[..n], h);
      assert forall group :: group in groups <==> group in groups[..n] || group == groups[n];
    }
  }

  lemma GroupsRecordIff(valid: set<string>, spec: Node, groups: seq<string>, h: (string, Context))
    ensures h in GroupsHits(valid, spec, groups)
       <==> RecordedByGroups(valid, spec, groups, h)
  {
    GroupsHave(valid, spec, groups, h);
    if group :| group in groups && h in GroupHits(valid, spec, group) {
      GroupRecordsIff(valid, spec, group, h);
      var i, n, given :| ComponentAt(group, Components(spec, group), i, n, given) && DeclaresBelow(valid, n, given, h);
      IsComponentIff(spec, groups, n, given);
    }
    if n, given :| IsComponent(spec, groups, n, given) && DeclaresBelow(valid, n, given, h) {
      IsComponentIff(spec, groups, n, given);
      var group, i :| group in groups && ComponentAt(group, Components(spec, group), i, n, given);
      GroupRecordsIff(valid, spec, group, h);
    }
  }

  /**
   What the scan of a whole description records: a requirement with a place exactly when some
   operation or named component declares it at some depth and the place is what the walk
   attributes it to from the operation's id, or its method and path, or the component's name.
   */
  lemma ScanRecordsIff(valid: set<string>, spec: Node, groups: seq<string>, h: (string, Context))
    ensures h in SpecHits(valid, spec, groups)
       <==> RecordedFrom(valid, spec, groups, h)
  {
    PathsRecordIff(valid, spec, h);
    GroupsRecordIff(valid, spec, groups, h);
    assert RecordedFrom(valid, spec, groups, h) <==>
      RecordedByPaths(valid, spec, h) || RecordedByGroups(valid, spec, groups, h);
  }
}
