/**
 The truth derived from the use-case section headers, and the five tables that restate it.
 */
module CrossReferences {
  datatype Section = Section(id: string, personas: set<string>, capabilities: set<string>)

  type Index = map<string, set<string>>

  datatype Truth = Truth(byUseCase: map<string, Section>, byPersona: Index, byCapability: Index)

  /** The use-case index, the capability table and the three persona tables, as parsed. */
  datatype Tables = Tables(index: Index, capability: Index, personas: seq<Index>)

  function Get(table: Index, key: string): set<string> {
    if key in table then table[key] else {}
  }

  function AddTo(index: Index, keys: set<string>, id: string): Index {
    map k | k in index.Keys + keys :: Get(index, k) + (if k in keys then {id} else {})
  }

  /** What the header loop has derived after these sections: a repeated id keeps its last section. */
  function TruthOf(sections: seq<Section>): Truth {
    if sections == [] then Truth(map[], map[], map[])
    else
      var before, s := TruthOf(sections[..|sections| - 1]), sections[|sections| - 1];
      Truth(before.byUseCase[s.id := s],
            AddTo(before.byPersona, s.personas, s.id),
            AddTo(before.byCapability, s.capabilities, s.id))
  }

  lemma AddNothing(index: Index, id: string)
    ensures AddTo(index, {}, id) == index
  {
    forall k | k in index ensures AddTo(index, {}, id)[k] == index[k] {
    }
  }

  lemma AddOneKey(index: Index, done: set<string>, k: string, id: string)
    ensures var before := AddTo(index, done, id);
            before[k := Get(before, k) + {id}] == AddTo(index, done + {k}, id)
  {
    var before, after := AddTo(index, done, id), AddTo(index, done + {k}, id);
    var updated := before[k := Get(before, k) + {id}];
    assert updated.Keys == after.Keys;
    forall x | x in after ensures updated[x] == after[x] {
      assert x != k ==> (x in done <==> x in done + {k});
      assert Get(before, k) == Get(index, k) + (if k in done then {id} else {});
    }
  }

  method AddKeys(index0: Index, keys: set<string>, id: string) returns (index: Index)
    ensures index == AddTo(index0, keys, id)
  {
    index := index0;
    var todo := keys;
    AddNothing(index0, id);
    assert keys - todo == {};
    while todo != {}
      invariant todo <= keys && index == AddTo(index0, keys - todo, id)
      decreases todo
    {
      var k :| k in todo;
      AddOneKey(index0, keys - todo, k, id);
      assert keys - (todo - {k}) == keys - todo + {k};
      index := index[k := Get(index, k) + {id}];
      todo := todo - {k};
    }
    assert keys - todo == keys;
  }

  method Derive(sections: seq<Section>) returns (truth: Truth)
    ensures truth == TruthOf(sections)
  {
    var byUseCase: map<string, Section>, byPersona: Index, byCapability: Index := map[], map[], map[];
    for i := 0 to |sections|
      invariant Truth(byUseCase, byPersona, byCapability) == TruthOf(sections[..i])
    {
      var s := sections[i];
      assert sections[..i + 1][..i] == sections[..i];
      byUseCase := byUseCase[s.id := s];
      byPersona := AddKeys(byPersona, s.personas, s.id);
      byCapability := AddKeys(byCapability, s.capabilities, s.id);
    }
    assert sections[..|sections|] == sections;
    return Truth(byUseCase, byPersona, byCapability);
  }

  // ---------------------------------------------------------------- the tables

  /** A table agrees with the truth on every derived key, and something was parsed. */
  ghost predicate Agrees(table: Index, truth: Index) {
    table != map[] && forall k :: k in truth ==> SaysOf(table, k, truth[k])
  }

  /** The table's row for the key holds exactly these; a key without a row holds nothing. */
  ghost predicate SaysOf(table: Index, key: string, expected: set<string>) {
    if key in table then table[key] == expected else expected == {}
  }

  /** The table has a row for the key, and it holds the entry. */
  ghost predicate Lists(table: Index, key: string, entry: string) {
    key in table && entry in table[key]
  }

  function Capabilities(truth: Truth): Index {
    map id | id in truth.byUseCase :: truth.byUseCase[id].capabilities
  }

  method CompareAll(table: Index, truth: Index) returns (failures: nat)
    ensures failures == 0 <==> Agrees(table, truth)
  {
    failures := if table == map[] then 1 else 0;
    var todo := truth.Keys;
    ghost var done: set<string> := {};
    while todo != {}
      invariant done + todo == truth.Keys
      invariant failures == 0 <==> table != map[] && forall k :: k in done ==> SaysOf(table, k, truth[k])
      decreases todo
    {
      var k :| k in todo;
      todo, done := todo - {k}, done + {k};
      if Get(table, k) != truth[k] {
        failures := failures + 1;
      }
    }
  }

  ghost predicate AllAgree(tables: Tables, truth: Truth) {
    && tables.index != map[]
    && (forall id :: id in truth.byUseCase ==> SaysOf(tables.index, id, truth.byUseCase[id].capabilities))
    && Agrees(tables.capability, truth.byCapability)
    && forall i :: 0 <= i < |tables.personas| ==> Agrees(tables.personas[i], truth.byPersona)
  }

  lemma IndexAgreesIff(index: Index, truth: Truth)
    ensures Agrees(index, Capabilities(truth)) <==>
      && index != map[]
      && forall id :: id in truth.byUseCase ==> SaysOf(index, id, truth.byUseCase[id].capabilities)
  {
    assert forall id :: id in Capabilities(truth) <==> id in truth.byUseCase;
    if Agrees(index, Capabilities(truth)) {
      forall id | id in truth.byUseCase ensures SaysOf(index, id, truth.byUseCase[id].capabilities) {
        assert SaysOf(index, id, Capabilities(truth)[id]);
      }
    }
  }

  method CheckTables(sections: seq<Section>, tables: Tables) returns (code: int)
    ensures code == if AllAgree(tables, TruthOf(sections)) then 0 else 1
    ensures code == 0 <==>
      && IndexFits(tables.index, sections) && CapabilityFits(tables.capability, sections)
      && forall i :: 0 <= i < |tables.personas| ==> PersonaFits(tables.personas[i], sections)
  {
    AgreementIff(sections, tables);
    var truth := Derive(sections);
    var failures := CompareAll(tables.index, Capabilities(truth));
    var more := CompareAll(tables.capability, truth.byCapability);
    failures := failures + more;
    for i := 0 to |tables.personas|
      invariant failures == 0
        <==> Agrees(tables.index, Capabilities(truth)) && Agrees(tables.capability, truth.byCapability)
                                   && forall j :: 0 <= j < i ==> Agrees(tables.personas[j], truth.byPersona)
    {
      more := CompareAll(tables.personas[i], truth.byPersona);
      failures := failures + more;
    }
    IndexAgreesIff(tables.index, truth);
    code := if failures == 0 then 0 else 1;
  }

  // ---------------------------------------------------------------- what agreement means

  ghost predicate DeclaresCapability(sections: seq<Section>, id: string, c: string) {
    exists s :: s in sections && s.id == id && c in s.capabilities
  }

  ghost predicate DeclaresPersona(sections: seq<Section>, id: string, u: string) {
    exists s :: s in sections && s.id == id && u in s.personas
  }

  lemma AddToLists(index: Index, keys: set<string>, added: string, k: string, id: string)
    ensures Lists(AddTo(index, keys, added), k, id) <==> Lists(index, k, id) || (k in keys && id == added)
    ensures k in AddTo(index, keys, added) <==> k in index || k in keys
  {
  }

  lemma SnocMembers(sections: seq<Section>)
    requires sections != []
    ensures forall s :: s in sections <==> s in sections[..|sections| - 1] || s == sections[|sections| - 1]
  {
    assert sections == sections[..|sections| - 1] + [sections[|sections| - 1]];
  }

  lemma {:induction false} CapabilitiesAreDeclared(sections: seq<Section>, id: string, c: string)
    ensures Lists(TruthOf(sections).byCapability, c, id) <==> DeclaresCapability(sections, id, c)
  {
    if sections != [] {
      var n := |sections| - 1;
      CapabilitiesAreDeclared(sections[..n], id, c);
      AddToLists(TruthOf(sections[..n]).byCapability, sections[n].capabilities, sections[n].id, c, id);
      SnocMembers(sections);
    }
  }

  lemma {:induction false} PersonasAreDeclared(sections: seq<Section>, id: string, u: string)
    ensures Lists(TruthOf(sections).byPersona, u, id) <==> DeclaresPersona(sections, id, u)
  {
    if sections != [] {
      var n := |sections| - 1;
      PersonasAreDeclared(sections[..n], id, u);
      AddToLists(TruthOf(sections[..n]).byPersona, sections[n].personas, sections[n].id, u, id);
      SnocMembers(sections);
    }
  }

  lemma {:induction false} KeysAreDeclared(sections: seq<Section>, k: string)
    ensures k in TruthOf(sections).byCapability <==> exists s :: s in sections && k in s.capabilities
    ensures k in TruthOf(sections).byPersona <==> exists s :: s in sections && k in s.personas
  {
    if sections != [] {
      KeysAreDeclared(sections[..|sections| - 1], k);
      SnocMembers(sections);
    }
  }

  /** The indexes hold exactly what some section declares, and a use case is one of its sections. */
  lemma {:induction false} TruthIsDeclared(sections: seq<Section>, id: string, c: string)
    ensures var t := TruthOf(sections);
            && (Lists(t.byCapability, c, id) <==> DeclaresCapability(sections, id, c))
            && (Lists(t.byPersona, c, id) <==> DeclaresPersona(sections, id, c))
            && (id in t.byUseCase <==> exists s :: s in sections && s.id == id)
            && (id in t.byUseCase ==> t.byUseCase[id] in sections && t.byUseCase[id].id == id)
  {
    CapabilitiesAreDeclared(sections, id, c);
    PersonasAreDeclared(sections, id, c);
    if sections != [] {
      TruthIsDeclared(sections[..|sections| - 1], id, c);
      SnocMembers(sections);
    }
  }

  /** Read against each other on the derived keys, the index and the capability table say the same. */
  ghost predicate InverseOf(index: Index, capability: Index, truth: Truth) {
    forall id, c :: id in truth.byUseCase && c in truth.byCapability ==>
      (Lists(index, id, c) <==> Lists(capability, c, id))
  }

  ghost predicate IsLast(sections: seq<Section>, j: int) {
    0 <= j < |sections| && forall k :: j < k < |sections| ==> sections[k].id != sections[j].id
  }

  /** No section of a repeated id declares a capability its last section does not. */
  ghost predicate LastSectionsDecide(sections: seq<Section>) {
    forall i, j :: 0 <= i < |sections| && IsLast(sections, j) && sections[i].id == sections[j].id ==>
      sections[i].capabilities <= sections[j].capabilities
  }

  /** The forward index keeps the last section of each id. */
  lemma {:induction false} LastIsKept(sections: seq<Section>, j: nat)
    requires IsLast(sections, j)
    ensures var t := TruthOf(sections); sections[j].id in t.byUseCase && t.byUseCase[sections[j].id] == sections[j]
  {
    var n := |sections| - 1;
    if j < n {
      assert IsLast(sections[..n], j) && sections[..n][j] == sections[j];
      LastIsKept(sections[..n], j);
    }
  }

  lemma {:induction false} HasLast(sections: seq<Section>, i: nat)
    requires i < |sections|
    ensures exists j: nat :: IsLast(sections, j) && sections[j].id == sections[i].id
    decreases |sections| - i
  {
    if !IsLast(sections, i) {
      var k :| i < k < |sections| && sections[k].id == sections[i].id;
      HasLast(sections, k);
    }
  }

  lemma LastSectionsDecideIff(sections: seq<Section>)
    ensures forall s :: s in sections ==> s.id in TruthOf(sections).byUseCase
    ensures LastSectionsDecide(sections)
       <==> forall s :: s in sections ==> s.capabilities <= TruthOf(sections).byUseCase[s.id].capabilities
  {
    forall j: nat | IsLast(sections, j)
      ensures sections[j].id in TruthOf(sections).byUseCase
          && TruthOf(sections).byUseCase[sections[j].id] == sections[j]
    {
      LastIsKept(sections, j);
    }
    forall i: nat | i < |sections| ensures exists j: nat :: IsLast(sections, j) && sections[j].id == sections[i].id {
      HasLast(sections, i);
    }
    if LastSectionsDecide(sections) {
      forall i: nat | i < |sections|
        ensures sections[i].capabilities <= TruthOf(sections).byUseCase[sections[i].id].capabilities
      {
        var j: nat :| IsLast(sections, j) && sections[j].id == sections[i].id;
      }
    }
  }

  lemma CapabilitiesAreKeys(sections: seq<Section>, id: string, c: string)
    requires DeclaresCapability(sections, id, c)
    ensures c in TruthOf(sections).byCapability && id in TruthOf(sections).byUseCase
  {
    TruthIsDeclared(sections, id, c);
  }

  /**
   When the check passes, the index table and the capability table are inverse relations of
   each other on all derived keys if and only if no repeated use-case id has an earlier
   section declaring more than its last one; in particular when ids are unique.
   */
  lemma PassMakesInverseIff(sections: seq<Section>, tables: Tables)
    requires AllAgree(tables, TruthOf(sections))
    ensures InverseOf(tables.index, tables.capability, TruthOf(sections)) <==> LastSectionsDecide(sections)
  {
    var truth := TruthOf(sections);
    forall id, c | id in truth.byUseCase && c in truth.byCapability
      ensures Lists(tables.index, id, c) <==> c in truth.byUseCase[id].capabilities
      ensures Lists(tables.capability, c, id) <==> DeclaresCapability(sections, id, c)
    {
      TruthIsDeclared(sections, id, c);
      assert SaysOf(tables.index, id, truth.byUseCase[id].capabilities);
      assert SaysOf(tables.capability, c, truth.byCapability[c]);
    }
    LastSectionsDecideIff(sections);
    if LastSectionsDecide(sections) {
      forall id, c | id in truth.byUseCase && c in truth.byCapability
        ensures Lists(tables.index, id, c) <==> Lists(tables.capability, c, id)
      {
        TruthIsDeclared(sections, id, c);
      }
    }
    if InverseOf(tables.index, tables.capability, truth) {
      forall s, c | s in sections && c in s.capabilities ensures c in truth.byUseCase[s.id].capabilities {
        assert DeclaresCapability(sections, s.id, c);
        CapabilitiesAreKeys(sections, s.id, c);
      }
    }
  }

  /** The index gives each use case the capabilities of its last section. */
  ghost predicate IndexFits(index: Index, sections: seq<Section>) {
    index != map[] && forall j :: IsLast(sections, j) ==> RowIs(index, sections[j].id, sections[j].capabilities)
  }

  ghost predicate RowIs(table: Index, key: string, expected: set<string>) {
    forall x :: Lists(table, key, x) <==> x in expected
  }

  /** Under each declared capability the table has exactly the use cases that declare it. */
  ghost predicate CapabilityFits(table: Index, sections: seq<Section>) {
    table != map[] && forall s, c, id :: s in sections && c in s.capabilities ==>
      (Lists(table, c, id) <==> DeclaresCapability(sections, id, c))
  }

  ghost predicate PersonaFits(table: Index, sections: seq<Section>) {
    table != map[] && forall s, u, id :: s in sections && u in s.personas ==>
      (Lists(table, u, id) <==> DeclaresPersona(sections, id, u))
  }

  lemma SaysOfIff(table: Index, key: string, expected: set<string>)
    ensures SaysOf(table, key, expected) <==> RowIs(table, key, expected)
  {
    if RowIs(table, key, expected) {
      if key in table {
        assert forall x :: x in table[key] <==> Lists(table, key, x);
      } else {
        assert forall x :: !Lists(table, key, x);
      }
    }
  }

  lemma IndexFitsIff(index: Index, sections: seq<Section>, all: map<string, Section>)
    requires all == TruthOf(sections).byUseCase
    ensures IndexFits(index, sections)
       <==> index != map[] && forall id :: id in all ==> SaysOf(index, id, all[id].capabilities)
  {
    if IndexFits(index, sections) {
      forall id | id in all ensures SaysOf(index, id, all[id].capabilities) {
        TruthIsDeclared(sections, id, "");
        var i :| 0 <= i < |sections| && sections[i].id == id;
        HasLast(sections, i);
        var j: nat :| IsLast(sections, j) && sections[j].id == sections[i].id;
        LastIsKept(sections, j);
        SaysOfIff(index, id, sections[j].capabilities);
      }
    }
    if index != map[] && forall id :: id in all ==> SaysOf(index, id, all[id].capabilities) {
      forall j | IsLast(sections, j) ensures RowIs(index, sections[j].id, sections[j].capabilities) {
        LastIsKept(sections, j);
        SaysOfIff(index, sections[j].id, sections[j].capabilities);
      }
    }
  }

  lemma CapabilityFitsIff(table: Index, sections: seq<Section>)
    ensures CapabilityFits(table, sections) <==> Agrees(table, TruthOf(sections).byCapability)
  {
    var all := TruthOf(sections).byCapability;
    forall c, id ensures Lists(all, c, id) <==> DeclaresCapability(sections, id, c) {
      TruthIsDeclared(sections, id, c);
    }
    forall c ensures c in all <==> exists s :: s in sections && c in s.capabilities {
      KeysAreDeclared(sections, c);
    }
    forall c | c in all
      ensures SaysOf(table, c, all[c]) <==> forall id :: Lists(table, c, id) <==> DeclaresCapability(sections, id, c)
    {
      SaysOfIff(table, c, all[c]);
    }
  }

  lemma PersonaFitsIff(table: Index, sections: seq<Section>)
    ensures PersonaFits(table, sections) <==> Agrees(table, TruthOf(sections).byPersona)
  {
    var all := TruthOf(sections).byPersona;
    forall u, id ensures Lists(all, u, id) <==> DeclaresPersona(sections, id, u) {
      PersonasAreDeclared(sections, id, u);
    }
    forall u ensures u in all <==> exists s :: s in sections && u in s.personas {
      KeysAreDeclared(sections, u);
    }
    forall u | u in all
      ensures SaysOf(table, u, all[u]) <==> forall id :: Lists(table, u, id) <==> DeclaresPersona(sections, id, u)
    {
      SaysOfIff(table, u, all[u]);
    }
  }

  /** What a pass says of the tables, read off the sections alone. */
  lemma AgreementIff(sections: seq<Section>, tables: Tables)
    ensures AllAgree(tables, TruthOf(sections)) <==>
      && IndexFits(tables.index, sections) && CapabilityFits(tables.capability, sections)
      && forall i :: 0 <= i < |tables.personas| ==> PersonaFits(tables.personas[i], sections)
  {
    IndexFitsIff(tables.index, sections, TruthOf(sections).byUseCase);
    CapabilityFitsIff(tables.capability, sections);
    forall i | 0 <= i < |tables.personas|
      ensures PersonaFits(tables.personas[i], sections) <==> Agrees(tables.personas[i], TruthOf(sections).byPersona)
    {
      PersonaFitsIff(tables.personas[i], sections);
    }
  }

  lemma UniqueIdsDecide(sections: seq<Section>)
    requires forall i, j :: 0 <= i < j < |sections| ==> sections[i].id != sections[j].id
    ensures LastSectionsDecide(sections)
  {
  }

  /** Tables that restate the truth word for word. */
  function TablesOf(truth: Truth): Tables {
    Tables(Capabilities(truth), truth.byCapability, [truth.byPersona, truth.byPersona, truth.byPersona])
  }

  /** A use case stated twice, the second time without its capability. */
  function Restated(id: string, u: string, c: string): seq<Section> {
    [Section(id, {u}, {c}), Section(id, {u}, {})]
  }

  lemma TablesOfTruthAgree(truth: Truth)
    requires truth.byUseCase != map[] && truth.byPersona != map[] && truth.byCapability != map[]
    ensures AllAgree(TablesOf(truth), truth)
  {
    var id :| id in truth.byUseCase;
    assert id in Capabilities(truth);
  }

  lemma RestatedDoesNotDecide(id: string, u: string, c: string)
    ensures !LastSectionsDecide(Restated(id, u, c))
  {
    var sections := Restated(id, u, c);
    assert IsLast(sections, 1) && sections[0].id == sections[1].id && c in sections[0].capabilities;
  }

  /** The check passes on tables that restate these sections, and they are not inverse. */
  lemma RestatedUseCasePasses(id: string, u: string, c: string)
    ensures var truth := TruthOf(Restated(id, u, c)); var tables := TablesOf(truth);
            AllAgree(tables, truth) && !InverseOf(tables.index, tables.capability, truth)
  {
    var sections := Restated(id, u, c);
    assert sections[0] in sections && DeclaresCapability(sections, id, c);
    CapabilitiesAreKeys(sections, id, c);
    PersonasAreDeclared(sections, id, u);
    TablesOfTruthAgree(TruthOf(sections));
    RestatedDoesNotDecide(id, u, c);
    PassMakesInverseIff(sections, TablesOf(TruthOf(sections)));
  }
}
