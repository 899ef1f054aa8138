/** JSON documents and the positions inside them. */
module Json {
  import opened Collections

  datatype Node =
    | Obj(members: seq<(string, Node)>)
    | Arr(items: seq<Node>)
    | Str(text: string)
    | Atom(repr: string)

  function Children(n: Node): nat {
    match n
    case Obj(members) => |members|
    case Arr(items) => |items|
    case _ => 0
  }

  function Child(n: Node, i: nat): (c: Node)
    requires i < Children(n)
    ensures c < n
  {
    if n.Obj? then n.members[i].1 else n.items[i]
  }

  /** The value of a key; keys are unique, so the first is the only one. */
  function Get(members: seq<(string, Node)>, key: string): Option<Node> {
    if members == [] then None
    else if members[0].0 == key then Some(members[0].1)
    else Get(members[1..], key)
  }

  /** The first member with this key holds this value. */
  ghost predicate HasMember(members: seq<(string, Node)>, key: string, value: Node) {
    exists i :: 0 <= i < |members| && members[i] == (key, value) && forall j :: 0 <= j < i ==> members[j].0 != key
  }

  /** The node is an object that holds this value under the key. */
  ghost predicate Holds(n: Node, key: string, value: Node) {
    n.Obj? && HasMember(n.members, key, value)
  }

  lemma {:induction false} GetIff(members: seq<(string, Node)>, key: string, value: Node)
    ensures Get(members, key) == Some(value) <==> HasMember(members, key, value)
    ensures Get(members, key) == None <==> forall i :: 0 <= i < |members| ==> members[i].0 != key
  {
    if members != [] && members[0].0 != key {
      GetIff(members[1..], key, value);
      if HasMember(members[1..], key, value) {
        var i :| 0 <= i < |members[1..]| && members[1..][i] == (key, value)
                 && forall j :: 0 <= j < i ==> members[1..][j].0 != key;
        assert members[i + 1] == (key, value) && forall j :: 0 <= j < i + 1 ==> members[j].0 != key;
      }
      if HasMember(members, key, value) {
        var i :| 0 <= i < |members| && members[i] == (key, value) && forall j :: 0 <= j < i ==> members[j].0 != key;
        assert members[1..][i - 1] == (key, value) && forall j :: 0 <= j < i - 1 ==> members[1..][j].0 != key;
      }
      assert forall i :: 0 < i < |members| ==> members[i].0 == members[1..][i - 1].0;
    }
  }

  /** What is read under a key: absent, or the value held. */
  lemma GetHolds(n: Node, key: string)
    requires n.Obj?
    ensures Get(n.members, key).Some? ==> Holds(n, key, Get(n.members, key).value)
    ensures forall v :: Holds(n, key, v) ==> Get(n.members, key) == Some(v)
  {
    if Get(n.members, key).Some? {
      GetIff(n.members, key, Get(n.members, key).value);
    }
    forall v | Holds(n, key, v) ensures Get(n.members, key) == Some(v) {
      GetIff(n.members, key, v);
    }
  }

  /** A position: which child to take at each level. */
  type Position = seq<nat>

  predicate Exists(n: Node, p: Position) {
    p == [] || (p[0] < Children(n) && Exists(Child(n, p[0]), p[1..]))
  }

  function At(n: Node, p: Position): Node
    requires Exists(n, p)
  {
    if p == [] then n else At(Child(n, p[0]), p[1..])
  }

  /** Positions go through the members of objects and the items of arrays, and end at texts and atoms. */
  lemma PositionsGoThrough(members: seq<(string, Node)>, items: seq<Node>, leaf: Node, i: nat, p: Position)
    requires leaf.Str? || leaf.Atom?
    ensures Exists(leaf, []) && At(leaf, []) == leaf && !Exists(leaf, [i] + p)
    ensures Exists(Obj(members), []) && At(Obj(members), []) == Obj(members)
    ensures Exists(Arr(items), []) && At(Arr(items), []) == Arr(items)
    ensures Exists(Obj(members), [i] + p) <==> i < |members| && Exists(members[i].1, p)
    ensures Exists(Arr(items), [i] + p) <==> i < |items| && Exists(items[i], p)
    ensures Exists(Obj(members), [i] + p) ==> At(Obj(members), [i] + p) == At(members[i].1, p)
    ensures Exists(Arr(items), [i] + p) ==> At(Arr(items), [i] + p) == At(items[i], p)
  {
    assert ([i] + p)[1..] == p;
  }
}
