/**
 The tenancy rules of the schema check, and what they mean for the rows of a database that
 obeys the schema.
 */
module Tenancy {
  const ORG: string := "organization_id"

  const NOT_TENANT_SCOPED: set<string> := {"organization"}
  const NULLABLE_ORG: set<string> := {"evaluator_definition", "evaluator_version"}
  const GLOBALLY_SCOPED: set<string> := {"app_user", "role", "role_permission"}

  /**
   A reference declared in the schema. `parsed` is true of those the check sees: the
   table-level FOREIGN KEY clauses inside a CREATE TABLE. A reference written on a column, or
   added by an ALTER TABLE, is not parsed.
   */
  datatype Reference = Reference(columns: seq<string>, target: string, targets: seq<string>, parsed: bool)

  datatype Policy = Policy(hasUsing: bool, hasWithCheck: bool)

  /** Row-level security of a table; `policies` is empty when none is declared. */
  datatype Security = Security(enabled: bool, forced: bool, policies: seq<Policy>)

  /**
   `mentionsOrg`: the body contains the text; `notNull`: the columns declared NOT NULL;
   `keys`: the column sets declared PRIMARY KEY or UNIQUE.
   */
  datatype Table = Table(mentionsOrg: bool, columns: set<string>, notNull: set<string>, keys: set<set<string>>,
                         references: set<Reference>, security: Security)

  type Schema = map<string, Table>

  datatype Failure =
    | GlobalCarriesTenant(t: string)
    | NoTenantColumn(t: string)
    | ExceptionNotNull(t: string)
    | TenantNullable(t: string)
    | NotEnabled(t: string)
    | NotForced(t: string)
    | NoPolicy(t: string)
    | PolicyWithoutUsing(t: string)
    | PolicyWithoutCheck(t: string)
    | CrossTenantLink(t: string, target: string)

  predicate Exempt(t: string) {
    t in NOT_TENANT_SCOPED || t in NULLABLE_ORG || t in GLOBALLY_SCOPED
  }

  /** The scope rule for one table. */
  function ScopeFailures(t: string, table: Table): set<Failure> {
    if t in NOT_TENANT_SCOPED then {}
    else if t in GLOBALLY_SCOPED then (if table.mentionsOrg then {GlobalCarriesTenant(t)} else {})
    else if !table.mentionsOrg then {NoTenantColumn(t)}
    else if t in NULLABLE_ORG then (if ORG in table.notNull then {ExceptionNotNull(t)} else {})
    else if ORG !in table.notNull then {TenantNullable(t)}
    else {}
  }

  function PolicyFailures(t: string, p: Policy): set<Failure> {
    (if p.hasUsing then {} else {PolicyWithoutUsing(t)}) + (if p.hasWithCheck then {} else {PolicyWithoutCheck(t)})
  }

  /** The row-level-security rules for one table. */
  function SecurityFailures(t: string, table: Table): set<Failure> {
    if !table.mentionsOrg || t in NOT_TENANT_SCOPED then {}
    else
      (if table.security.enabled then {} else {NotEnabled(t)})
      + (if table.security.forced then {} else {NotForced(t)})
      + (if table.security.policies == [] then {NoPolicy(t)} else {})
      + (set i, f | 0 <= i < |table.security.policies| && f in PolicyFailures(t, table.security.policies[i]) :: f)
  }

  predicate CarriesTenant(t: string, r: Reference) {
    Exempt(t) || Exempt(r.target) || ORG in r.columns
  }

  function LinkFailures(t: string, references: set<Reference>): set<Failure> {
    set r | r in references && r.parsed && !CarriesTenant(t, r) :: CrossTenantLink(t, r.target)
  }

  function Failures(schema: Schema): set<Failure> {
    (set t, f | t in schema && f in ScopeFailures(t, schema[t]) :: f)
    + (set t, f | t in schema && f in SecurityFailures(t, schema[t]) :: f)
    + (set t, f | t in schema && f in LinkFailures(t, schema[t].references) :: f)
  }

  /** Each kind of failure and the tables it is reported for. */
  ghost predicate Reported(schema: Schema, f: Failure) {
    f.t in schema && var table := schema[f.t];
    match f
    case GlobalCarriesTenant(t) => table.mentionsOrg && t in {"app_user", "role", "role_permission"}
    case NoTenantColumn(t) => !table.mentionsOrg && t !in {"organization", "app_user", "role", "role_permission"}
    case ExceptionNotNull(t) =>
      table.mentionsOrg && t in {"evaluator_definition", "evaluator_version"} && "organization_id" in table.notNull
    case TenantNullable(t) =>
      table.mentionsOrg && "organization_id" !in table.notNull && !Excepted(t)
    case NotEnabled(t) => MustBeSecured(t, table) && !table.security.enabled
    case NotForced(t) => MustBeSecured(t, table) && !table.security.forced
    case NoPolicy(t) => MustBeSecured(t, table) && table.security.policies == []
    case PolicyWithoutUsing(t) =>
      MustBeSecured(t, table) && exists p :: p in table.security.policies && !p.hasUsing
    case PolicyWithoutCheck(t) =>
      MustBeSecured(t, table) && exists p :: p in table.security.policies && !p.hasWithCheck
    case CrossTenantLink(t, target) =>
      !Excepted(t) && !Excepted(target)
      && exists r :: r in table.references && r.parsed && r.target == target && "organization_id" !in r.columns
  }

  predicate Excepted(t: string) {
    t in {"organization", "evaluator_definition", "evaluator_version", "app_user", "role", "role_permission"}
  }

  predicate MustBeSecured(t: string, table: Table) {
    table.mentionsOrg && t != "organization"
  }

  lemma ScopeFailureIff(t: string, table: Table, f: Failure)
    ensures f in ScopeFailures(t, table) <==>
      && (f.GlobalCarriesTenant? || f.NoTenantColumn? || f.ExceptionNotNull? || f.TenantNullable?)
      && f.t == t && Reported(map[t := table], f)
  {
  }

  lemma SecurityFailureIff(t: string, table: Table, f: Failure)
    ensures f in SecurityFailures(t, table) <==>
      && (f.NotEnabled? || f.NotForced? || f.NoPolicy? || f.PolicyWithoutUsing? || f.PolicyWithoutCheck?)
      && f.t == t && Reported(map[t := table], f)
  {
    var ps := table.security.policies;
    forall p: Policy | p in ps && MustBeSecured(t, table) && f in PolicyFailures(t, p)
      ensures f in SecurityFailures(t, table)
    {
      var i :| 0 <= i < |ps| && ps[i] == p;
    }
    assert f == PolicyWithoutUsing(t) || f == PolicyWithoutCheck(t) ==>
      forall p: Policy :: f in PolicyFailures(t, p) <==> if f.PolicyWithoutUsing? then !p.hasUsing else !p.hasWithCheck;
  }

  lemma LinkFailureIff(t: string, table: Table, f: Failure)
    ensures f in LinkFailures(t, table.references) <==>
      f.CrossTenantLink? && f.t == t && Reported(map[t := table], f)
  {
  }

  lemma FailureIff(schema: Schema, f: Failure)
    ensures f in Failures(schema) <==> Reported(schema, f)
  {
    forall t | t in schema ensures f.t == t ==> (Reported(schema, f) <==> Reported(map[t := schema[t]], f)) {
    }
    forall t | t in schema
      ensures f in ScopeFailures(t, schema[t])
                || f in SecurityFailures(t, schema[t])
                || f in LinkFailures(t, schema[t].references)
          <==> f.t == t && Reported(schema, f)
    {
      ScopeFailureIff(t, schema[t], f);
      SecurityFailureIff(t, schema[t], f);
      LinkFailureIff(t, schema[t], f);
    }
  }

  method Check(schema: Schema) returns (failures: set<Failure>, code: int)
    ensures failures == Failures(schema)
    ensures forall f :: f in failures <==> Reported(schema, f)
    ensures code == if failures == {} then 0 else 1
  {
    forall f ensures f in Failures(schema) <==> Reported(schema, f) {
      FailureIff(schema, f);
    }
    failures := {};
    var todo := schema.Keys;
    ghost var done: set<string> := {};
    while todo != {}
      invariant done + todo == schema.Keys && done !! todo
      invariant failures == set t, f | t in done && f in ScopeFailures(t, schema[t]) :: f
      decreases todo
    {
      var t :| t in todo;
      failures := failures + ScopeFailures(t, schema[t]);
      todo, done := todo - {t}, done + {t};
    }
    ghost var scope := failures;
    todo, done := schema.Keys, {};
    while todo != {}
      invariant done + todo == schema.Keys && done !! todo
      invariant failures == scope + set t, f | t in done && f in SecurityFailures(t, schema[t]) :: f
      decreases todo
    {
      var t :| t in todo;
      var security := SecurityFailuresOf(t, schema[t]);
      failures := failures + security;
      todo, done := todo - {t}, done + {t};
    }
    scope := failures;
    todo, done := schema.Keys, {};
    while todo != {}
      invariant done + todo == schema.Keys && done !! todo
      invariant failures == scope + set t, f | t in done && f in LinkFailures(t, schema[t].references) :: f
      decreases todo
    {
      var t :| t in todo;
      var links := LinkFailuresOf(t, schema[t].references);
      failures := failures + links;
      todo, done := todo - {t}, done + {t};
    }
    code := if failures == {} then 0 else 1;
  }

  method SecurityFailuresOf(t: string, table: Table) returns (failures: set<Failure>)
    ensures failures == SecurityFailures(t, table)
  {
    failures := {};
    if !table.mentionsOrg || t in NOT_TENANT_SCOPED {
      return;
    }
    var security := table.security;
    if !security.enabled {
      failures := failures + {NotEnabled(t)};
    }
    if !security.forced {
      failures := failures + {NotForced(t)};
    }
    if security.policies == [] {
      failures := failures + {NoPolicy(t)};
      return;
    }
    ghost var before := failures;
    for i := 0 to |security.policies|
      invariant failures == before + set j, f | 0 <= j < i && f in PolicyFailures(t, security.policies[j]) :: f
    {
      failures := failures + PolicyFailures(t, security.policies[i]);
    }
  }

  method LinkFailuresOf(t: string, references: set<Reference>) returns (failures: set<Failure>)
    ensures failures == LinkFailures(t, references)
  {
    failures := {};
    var todo := references;
    while todo != {}
      invariant todo <= references && failures == LinkFailures(t, references - todo)
      decreases todo
    {
      var r :| r in todo;
      if r.parsed && !CarriesTenant(t, r) {
        failures := failures + {CrossTenantLink(t, r.target)};
      }
      assert references - (todo - {r}) == references - todo + {r};
      todo := todo - {r};
    }
    assert references - todo == references;
  }

  // ---------------------------------------------------------------- the database

  datatype Value = Null | Id(id: nat)

  type Row = map<string, Value>

  /** The rows each table holds. */
  type Database = set<(string, Row)>

  function Elements(columns: seq<string>): set<string> {
    set c | c in columns
  }

  /** The references PostgreSQL accepts: no column twice, and the referenced columns are a key. */
  ghost predicate WellFormedReference(schema: Schema, t: string, r: Reference) {
    && t in schema && r.target in schema
    && |r.columns| == |r.targets| > 0
    && (forall i :: 0 <= i < |r.columns| ==>
          r.columns[i] in schema[t].columns && r.targets[i] in schema[r.target].columns)
    && (forall i, j :: 0 <= i < j < |r.columns| ==> r.columns[i] != r.columns[j] && r.targets[i] != r.targets[j])
    && Elements(r.targets) in schema[r.target].keys
  }

  ghost predicate WellFormedTable(schema: Schema, t: string)
    requires t in schema
  {
    && schema[t].notNull <= schema[t].columns
    && (forall k :: k in schema[t].keys ==> k != {} && k <= schema[t].columns)
    && (forall r :: r in schema[t].references ==> WellFormedReference(schema, t, r))
  }

  ghost predicate WellFormedSchema(schema: Schema) {
    forall t :: t in schema ==> WellFormedTable(schema, t)
  }

  /** The row points at the target row: every pair of columns agrees and none is null. */
  ghost predicate PointsAt(row: Row, r: Reference, target: Row) {
    && |r.columns| == |r.targets|
    && forall i :: 0 <= i < |r.columns| ==>
      && r.columns[i] in row && row[r.columns[i]] != Null
      && r.targets[i] in target && row[r.columns[i]] == target[r.targets[i]]
  }

  ghost predicate FindsTarget(db: Database, row: Row, r: Reference) {
    exists target :: (r.target, target) in db && PointsAt(row, r, target)
  }

  ghost predicate HasNull(row: Row, columns: seq<string>) {
    exists i :: 0 <= i < |columns| && columns[i] in row && row[columns[i]] == Null
  }

  /** Equal and not null in every column of the key. */
  ghost predicate AgreeOn(a: Row, b: Row, key: set<string>) {
    forall c :: c in key ==> c in a && c in b && a[c] == b[c] != Null
  }

  ghost predicate HasColumns(row: Row, table: Table) {
    row.Keys == table.columns && forall c :: c in table.notNull ==> c in row && row[c] != Null
  }

  ghost predicate KeysHold(db: Database, t: string, table: Table) {
    forall a, b, k :: (t, a) in db && (t, b) in db && k in table.keys && AgreeOn(a, b, k) ==> a == b
  }

  /** Rows have their columns, keys are unique, and every reference without a null finds its row. */
  ghost predicate Obeys(db: Database, schema: Schema) {
    && (forall t, row :: (t, row) in db ==> t in schema && HasColumns(row, schema[t]))
    && (forall t :: t in schema ==> KeysHold(db, t, schema[t]))
    && (forall t, row, r :: (t, row) in db && r in schema[t].references && !HasNull(row, r.columns) ==>
         FindsTarget(db, row, r))
  }

  /** A reference between two tenant-scoped tables. */
  ghost predicate TenantReference(schema: Schema, t: string, r: Reference) {
    t in schema && r in schema[t].references && !Exempt(t) && !Exempt(r.target)
  }

  /** The tenant column of the referencing row is matched with the tenant column of the target. */
  ghost predicate PairsTenant(r: Reference) {
    exists i :: 0 <= i < |r.columns| && i < |r.targets| && r.columns[i] == ORG && r.targets[i] == ORG
  }

  ghost predicate SameTenant(a: Row, b: Row) {
    ORG in a && ORG in b && a[ORG] == b[ORG]
  }

  /** The reference never joins rows of two organizations. */
  ghost predicate KeepsTenant(db: Database, t: string, r: Reference) {
    forall row, target :: (t, row) in db && (r.target, target) in db && PointsAt(row, r, target)
      ==> SameTenant(row, target)
  }

  /** No reference between tenant-scoped tables joins rows of two organizations. */
  ghost predicate Isolated(db: Database, schema: Schema) {
    forall t, r :: TenantReference(schema, t, r) ==> KeepsTenant(db, t, r)
  }

  // ---------------------------------------------------------------- what passing says

  ghost predicate ScopeRespected(t: string, table: Table) {
    && (t in GLOBALLY_SCOPED ==> !table.mentionsOrg)
    && (t in NULLABLE_ORG ==> table.mentionsOrg && ORG !in table.notNull)
    && (!Exempt(t) ==> table.mentionsOrg && ORG in table.notNull)
  }

  ghost predicate Secured(t: string, table: Table) {
    table.mentionsOrg && t !in NOT_TENANT_SCOPED ==>
      && table.security.enabled && table.security.forced && table.security.policies != []
      && forall i :: 0 <= i < |table.security.policies| ==>
        table.security.policies[i].hasUsing && table.security.policies[i].hasWithCheck
  }

  lemma SecuredIff(t: string, table: Table)
    ensures SecurityFailures(t, table) == {} <==> Secured(t, table)
  {
    forall i | 0 <= i < |table.security.policies|
      ensures PolicyFailures(t, table.security.policies[i]) == {}
         <==> table.security.policies[i].hasUsing && table.security.policies[i].hasWithCheck
    {
      var p := table.security.policies[i];
      assert !p.hasUsing ==> PolicyWithoutUsing(t) in PolicyFailures(t, p);
      assert !p.hasWithCheck ==> PolicyWithoutCheck(t) in PolicyFailures(t, p);
    }
    if table.mentionsOrg && t !in NOT_TENANT_SCOPED {
      var all := SecurityFailures(t, table);
      assert !table.security.enabled ==> NotEnabled(t) in all;
      assert !table.security.forced ==> NotForced(t) in all;
      assert table.security.policies == [] ==> NoPolicy(t) in all;
      forall i, f | 0 <= i < |table.security.policies| && f in PolicyFailures(t, table.security.policies[i])
        ensures f in all
      {
      }
    }
  }

  ghost predicate TablePasses(t: string, table: Table) {
    && ScopeRespected(t, table) && Secured(t, table)
    && forall r :: r in table.references && r.parsed ==> CarriesTenant(t, r)
  }

  lemma NoLinkFailuresIff(t: string, references: set<Reference>)
    ensures LinkFailures(t, references) == {} <==> forall r :: r in references && r.parsed ==> CarriesTenant(t, r)
  {
    forall r | r in references && r.parsed && !CarriesTenant(t, r)
      ensures CrossTenantLink(t, r.target) in LinkFailures(t, references)
    {
    }
  }

  lemma TablePassesIff(t: string, table: Table)
    ensures TablePasses(t, table)
       <==> ScopeFailures(t, table) == {} && SecurityFailures(t, table) == {} && LinkFailures(t, table.references) == {}
  {
    NoLinkFailuresIff(t, table.references);
    SecuredIff(t, table);
  }

  /**
   The check passes exactly when every table keeps its scope, is secured, and every parsed
   tenant link carries the tenant.
   */
  lemma CheckPassesIff(schema: Schema)
    ensures Failures(schema) == {} <==> forall t :: t in schema ==> TablePasses(t, schema[t])
  {
    var all := Failures(schema);
    forall t, f | t in schema && (f in ScopeFailures(t, schema[t]) || f in SecurityFailures(t, schema[t])
                                  || f in LinkFailures(t, schema[t].references))
      ensures f in all
    {
    }
    forall t | t in schema ensures TablePasses(t, schema[t]) <==>
      ScopeFailures(t, schema[t]) == {} && SecurityFailures(t, schema[t]) == {}
        && LinkFailures(t, schema[t].references) == {}
    {
      TablePassesIff(t, schema[t]);
    }
    if all == {} {
      forall t | t in schema ensures TablePasses(t, schema[t]) {
        assert forall f :: f in ScopeFailures(t, schema[t]) ==> f in all;
        assert forall f :: f in SecurityFailures(t, schema[t]) ==> f in all;
        assert forall f :: f in LinkFailures(t, schema[t].references) ==> f in all;
      }
    }
  }

  lemma PairedReferenceKeepsTenant(db: Database, t: string, r: Reference)
    requires PairsTenant(r)
    ensures KeepsTenant(db, t, r)
  {
    forall row, target | PointsAt(row, r, target) ensures SameTenant(row, target) {
      var i :| 0 <= i < |r.columns| && i < |r.targets| && r.columns[i] == ORG && r.targets[i] == ORG;
      assert r.columns[i] in row;
    }
  }

  /** Where a parsed reference lists organization_id at all, it pairs it. */
  ghost predicate ListedIsPaired(schema: Schema) {
    forall t, r :: TenantReference(schema, t, r) && r.parsed && ORG in r.columns ==> PairsTenant(r)
  }

  /** What passing buys: a parsed tenant reference that pairs what it lists never leaves the organization. */
  lemma PassingReferenceKeepsTenant(db: Database, schema: Schema, t: string, r: Reference)
    requires Failures(schema) == {} && ListedIsPaired(schema)
    requires TenantReference(schema, t, r) && r.parsed
    ensures KeepsTenant(db, t, r)
  {
    CheckPassesIff(schema);
    assert TablePasses(t, schema[t]) && CarriesTenant(t, r);
    PairedReferenceKeepsTenant(db, t, r);
  }

  /** A passing schema whose tenant references are all parsed, and pair what they list, isolates every database. */
  lemma PassingParsedSchemaIsolates(db: Database, schema: Schema)
    requires Failures(schema) == {} && ListedIsPaired(schema)
    requires forall t, r :: TenantReference(schema, t, r) ==> r.parsed
    ensures Isolated(db, schema)
  {
    forall t, r | TenantReference(schema, t, r) ensures KeepsTenant(db, t, r) {
      PassingReferenceKeepsTenant(db, schema, t, r);
    }
  }

  // ---------------------------------------------------------------- chains

  datatype Link = Link(t: string, row: Row)

  ghost predicate LinkedBy(schema: Schema, a: Link, r: Reference, b: Link) {
    TenantReference(schema, a.t, r) && r.target == b.t && PointsAt(a.row, r, b.row)
  }

  /** Each element points at the next through the reference between them. */
  ghost predicate Chain(db: Database, schema: Schema, links: seq<Link>, via: seq<Reference>) {
    && |links| == |via| + 1
    && (forall i :: 0 <= i < |links| ==> (links[i].t, links[i].row) in db)
    && (forall i :: 0 <= i < |via| ==> LinkedBy(schema, links[i], via[i], links[i + 1]))
  }

  lemma {:induction false} KeptChain(db: Database, schema: Schema, links: seq<Link>, via: seq<Reference>, i: nat)
    requires Chain(db, schema, links, via) && i < |links| && ORG in links[0].row
    requires forall j :: 0 <= j < |via| ==> KeepsTenant(db, links[j].t, via[j])
    ensures SameTenant(links[0].row, links[i].row)
  {
    if i > 0 {
      KeptChain(db, schema, links, via, i - 1);
      assert LinkedBy(schema, links[i - 1], via[i - 1], links[i - 1 + 1]);
      assert KeepsTenant(db, links[i - 1].t, via[i - 1]);
    }
  }

  /** In an isolated database no chain of references, of any length, leaves the organization it starts in. */
  lemma ChainsStayInOneTenant(db: Database, schema: Schema, links: seq<Link>, via: seq<Reference>, i: nat)
    requires Isolated(db, schema) && Chain(db, schema, links, via)
    requires i < |links| && ORG in links[0].row
    ensures SameTenant(links[0].row, links[i].row)
  {
    forall j | 0 <= j < |via| ensures KeepsTenant(db, links[j].t, via[j]) {
      assert LinkedBy(schema, links[j], via[j], links[j + 1]);
    }
    KeptChain(db, schema, links, via, i);
  }

  /** Under a passing schema, a chain of parsed references of any length stays in one organization. */
  lemma PassingChainsStayInOneTenant(db: Database, schema: Schema, links: seq<Link>, via: seq<Reference>, i: nat)
    requires Failures(schema) == {} && ListedIsPaired(schema) && Obeys(db, schema)
    requires Chain(db, schema, links, via) && (forall j :: 0 <= j < |via| ==> via[j].parsed)
    requires i < |links| && !Exempt(links[0].t)
    ensures SameTenant(links[0].row, links[i].row)
  {
    CheckPassesIff(schema);
    assert (links[0].t, links[0].row) in db;
    assert TablePasses(links[0].t, schema[links[0].t]) && HasColumns(links[0].row, schema[links[0].t]);
    forall j | 0 <= j < |via| ensures KeepsTenant(db, links[j].t, via[j]) {
      assert LinkedBy(schema, links[j], via[j], links[j + 1]);
      PassingReferenceKeepsTenant(db, schema, links[j].t, via[j]);
    }
    KeptChain(db, schema, links, via, i);
  }

  // ---------------------------------------------------------------- companions

  /** The reference matches this column of the row with that column of the target. */
  ghost predicate Matches(r: Reference, c: string, d: string) {
    exists i :: 0 <= i < |r.columns| && i < |r.targets| && r.columns[i] == c && r.targets[i] == d
  }

  /** References followed one after the other match this column of the first row with that column of the last. */
  ghost predicate RouteMatches(route: seq<Reference>, c: string, d: string)
    requires route != []
  {
    if |route| == 1 then Matches(route[0], c, d)
    else exists e :: Matches(route[0], c, e) && RouteMatches(route[1..], e, d)
  }

  /** From any row of the table that is not null in `known`, the schema forces each step to find a row. */
  ghost predicate Forced(schema: Schema, t: string, known: set<string>, route: seq<Reference>)
    requires route != []
    decreases |route|
  {
    && t in schema && route[0] in schema[t].references
    && Elements(route[0].columns) <= known + schema[t].notNull
    && (|route| > 1 ==> Forced(schema, route[0].target, Elements(route[0].targets), route[1..]))
  }

  /** The row and the one the route leads to agree, without nulls, wherever the route matches columns. */
  ghost predicate LeadsTo(row: Row, route: seq<Reference>, end: Row)
    requires route != []
  {
    forall c, d :: RouteMatches(route, c, d) ==> c in row && d in end && row[c] == end[d] != Null
  }

  /** Whatever row `r` finds, the route finds one that agrees with it on this key. */
  ghost predicate SameKey(r: Reference, route: seq<Reference>, key: set<string>)
    requires route != []
  {
    forall d :: d in key ==> exists c :: Matches(r, c, d) && RouteMatches(route, c, d)
  }

  /** A route to the same table that carries organization_id along and ends at the very row `r` finds. */
  ghost predicate Companion(schema: Schema, t: string, r: Reference, route: seq<Reference>) {
    && t in schema && r.target in schema
    && route != [] && Forced(schema, t, Elements(r.columns), route) && route[|route| - 1].target == r.target
    && RouteMatches(route, ORG, ORG)
    && exists key :: key in schema[r.target].keys && SameKey(r, route, key)
  }

  /** The reference pairs the tenant columns, or a route of references does so for it. */
  ghost predicate Guarded(schema: Schema, t: string, r: Reference) {
    PairsTenant(r) || exists route :: Companion(schema, t, r, route)
  }

  lemma MatchedAgree(row: Row, r: Reference, target: Row, c: string, d: string)
    requires PointsAt(row, r, target) && Matches(r, c, d)
    ensures c in row && d in target && row[c] == target[d] != Null
  {
    var i :| 0 <= i < |r.columns| && i < |r.targets| && r.columns[i] == c && r.targets[i] == d;
  }

  lemma FirstStep(db: Database, schema: Schema, t: string, row: Row, known: set<string>, route: seq<Reference>)
    returns (target: Row)
    requires Obeys(db, schema) && (t, row) in db && route != [] && Forced(schema, t, known, route)
    requires forall c :: c in known ==> c in row && row[c] != Null
    ensures (route[0].target, target) in db && PointsAt(row, route[0], target)
    ensures forall d :: d in Elements(route[0].targets) ==> d in target && target[d] != Null
  {
    var q := route[0];
    assert HasColumns(row, schema[t]);
    forall i | 0 <= i < |q.columns| && q.columns[i] in row ensures row[q.columns[i]] != Null {
      assert q.columns[i] in Elements(q.columns);
    }
    assert FindsTarget(db, row, q);
    target :| (q.target, target) in db && PointsAt(row, q, target);
    forall d | d in Elements(q.targets) ensures d in target && target[d] != Null {
      var i :| 0 <= i < |q.targets| && q.targets[i] == d;
      assert q.columns[i] in row;
    }
  }

  lemma {:induction false} RouteFinds(db: Database, schema: Schema, t: string, row: Row, known: set<string>,
                                      route: seq<Reference>) returns (end: Row)
    requires Obeys(db, schema) && (t, row) in db && route != [] && Forced(schema, t, known, route)
    requires forall c :: c in known ==> c in row && row[c] != Null
    ensures (route[|route| - 1].target, end) in db && LeadsTo(row, route, end)
    decreases |route|
  {
    var next := FirstStep(db, schema, t, row, known, route);
    if |route| == 1 {
      end := next;
      forall c, d | RouteMatches(route, c, d) ensures c in row && d in end && row[c] == end[d] != Null {
        MatchedAgree(row, route[0], end, c, d);
      }
    } else {
      end := RouteFinds(db, schema, route[0].target, next, Elements(route[0].targets), route[1..]);
      forall c, d | RouteMatches(route, c, d) ensures c in row && d in end && row[c] == end[d] != Null {
        var e :| Matches(route[0], c, e) && RouteMatches(route[1..], e, d);
        MatchedAgree(row, route[0], next, c, e);
      }
    }
  }

  lemma CompanionKeepsTenant(db: Database, schema: Schema, t: string, r: Reference, route: seq<Reference>)
    requires Obeys(db, schema) && Companion(schema, t, r, route)
    ensures KeepsTenant(db, t, r)
  {
    var key :| key in schema[r.target].keys && SameKey(r, route, key);
    forall row, target | (t, row) in db && (r.target, target) in db && PointsAt(row, r, target)
      ensures SameTenant(row, target)
    {
      forall c | c in Elements(r.columns) ensures c in row && row[c] != Null {
        var i :| 0 <= i < |r.columns| && r.columns[i] == c;
      }
      var end := RouteFinds(db, schema, t, row, Elements(r.columns), route);
      forall d | d in key ensures d in target && d in end && target[d] == end[d] != Null {
        var c :| Matches(r, c, d) && RouteMatches(route, c, d);
        MatchedAgree(row, r, target, c, d);
      }
      assert AgreeOn(target, end, key) && KeysHold(db, r.target, schema[r.target]);
    }
  }

  /** Guarded references, parsed or not, isolate every database that obeys the schema. */
  lemma GuardedSchemaIsolates(db: Database, schema: Schema)
    requires Obeys(db, schema)
    requires forall t, r :: TenantReference(schema, t, r) ==> Guarded(schema, t, r)
    ensures Isolated(db, schema)
  {
    forall t, r | TenantReference(schema, t, r) ensures KeepsTenant(db, t, r) {
      if PairsTenant(r) {
        PairedReferenceKeepsTenant(db, t, r);
      } else {
        var route :| Companion(schema, t, r, route);
        CompanionKeepsTenant(db, schema, t, r, route);
      }
    }
  }

  // ---------------------------------------------------------------- escapes

  /** A table and one of its columns. */
  type Cell = (string, string)

  /** Exchanging the cells between two organizations moves this pair of matched columns apart. */
  predicate Turns(cells: set<Cell>, t: string, r: Reference, i: nat)
    requires i < |r.columns| == |r.targets|
  {
    ((t, r.columns[i]) in cells) != ((r.target, r.targets[i]) in cells)
  }

  /** Either every pair of matched columns is moved apart or none is. */
  ghost predicate MovedWhole(cells: set<Cell>, t: string, r: Reference) {
    && |r.columns| == |r.targets| > 0
    && forall i: nat :: i < |r.columns| ==> Turns(cells, t, r, i) == Turns(cells, t, r, 0)
  }

  /** Cells left null where the schema lets them be: a reference with one of its columns null is waived. */
  predicate Waived(nulled: set<Cell>, t: string, r: Reference) {
    exists i :: 0 <= i < |r.columns| && (t, r.columns[i]) in nulled
  }

  /** The reference is waived, or it refers to no null and moves whole. */
  ghost predicate Undisturbed(cells: set<Cell>, nulled: set<Cell>, t: string, r: Reference) {
    Waived(nulled, t, r)
    || (MovedWhole(cells, t, r) && forall i :: 0 <= i < |r.targets| ==> (r.target, r.targets[i]) !in nulled)
  }

  /**
   Some exchange of cells, never of organization_id, with some nullable cells left null, turns
   this reference to the other organization and leaves every reference of the schema undisturbed.
   */
  ghost predicate Loose(schema: Schema, t: string, r: Reference) {
    exists cells, nulled :: LooseBy(schema, t, r, cells, nulled)
  }

  ghost predicate Nullable(schema: Schema, nulled: set<Cell>) {
    forall u, c :: (u, c) in nulled && u in schema ==> c !in schema[u].notNull
  }

  ghost predicate LooseBy(schema: Schema, t: string, r: Reference, cells: set<Cell>, nulled: set<Cell>) {
    && Nullable(schema, nulled) && (t, ORG) !in nulled && (r.target, ORG) !in nulled
    && (forall u :: u in schema ==> (u, ORG) !in cells)
    && (forall u, q :: u in schema && q in schema[u].references ==> Undisturbed(cells, nulled, u, q))
    && |r.columns| == |r.targets| > 0 && !Waived(nulled, t, r) && Turns(cells, t, r, 0)
  }

  /** The row of organization 0 or 1 in a table, with the cells exchanged and some left null. */
  function TwinRow(schema: Schema, t: string, cells: set<Cell>, nulled: set<Cell>, second: bool): Row
    requires t in schema
  {
    map c | c in schema[t].columns ::
      if (t, c) in nulled then Null else if ((t, c) in cells) != second then Id(1) else Id(0)
  }

  /** Two organizations with one row each in every table. */
  function Twins(schema: Schema, cells: set<Cell>, nulled: set<Cell>): Database {
    set t, second | t in schema && second in {false, true} :: (t, TwinRow(schema, t, cells, nulled, second))
  }

  lemma TwinIn(schema: Schema, cells: set<Cell>, nulled: set<Cell>, t: string, second: bool)
    requires t in schema
    ensures (t, TwinRow(schema, t, cells, nulled, second)) in Twins(schema, cells, nulled)
  {
    assert second in {false, true};
  }

  lemma TwinPoints(schema: Schema, cells: set<Cell>, nulled: set<Cell>, t: string, r: Reference, second: bool)
    requires WellFormedReference(schema, t, r) && Undisturbed(cells, nulled, t, r) && !Waived(nulled, t, r)
    ensures PointsAt(TwinRow(schema, t, cells, nulled, second), r,
                     TwinRow(schema, r.target, cells, nulled, second != Turns(cells, t, r, 0)))
  {
    var row := TwinRow(schema, t, cells, nulled, second);
    var target := TwinRow(schema, r.target, cells, nulled, second != Turns(cells, t, r, 0));
    forall i: nat | i < |r.columns|
      ensures r.columns[i] in row && r.targets[i] in target && row[r.columns[i]] == target[r.targets[i]] != Null
    {
      assert (t, r.columns[i]) !in nulled && (r.target, r.targets[i]) !in nulled;
      assert Turns(cells, t, r, i) == Turns(cells, t, r, 0);
    }
  }

  lemma TwinsKeepKeys(schema: Schema, cells: set<Cell>, nulled: set<Cell>, t: string)
    requires t in schema && WellFormedTable(schema, t)
    ensures KeysHold(Twins(schema, cells, nulled), t, schema[t])
  {
    var db := Twins(schema, cells, nulled);
    forall a, b, k | (t, a) in db && (t, b) in db && k in schema[t].keys && AgreeOn(a, b, k) ensures a == b {
      var x :| a == TwinRow(schema, t, cells, nulled, x);
      var y :| b == TwinRow(schema, t, cells, nulled, y);
      var c :| c in k;
      assert a[c] == b[c] != Null;
    }
  }

  lemma WaivedHasNull(schema: Schema, cells: set<Cell>, nulled: set<Cell>, t: string, r: Reference, second: bool)
    requires WellFormedReference(schema, t, r) && Waived(nulled, t, r)
    ensures HasNull(TwinRow(schema, t, cells, nulled, second), r.columns)
  {
    var i :| 0 <= i < |r.columns| && (t, r.columns[i]) in nulled;
    assert r.columns[i] in schema[t].columns;
  }

  lemma TwinsObey(schema: Schema, cells: set<Cell>, nulled: set<Cell>)
    requires WellFormedSchema(schema) && Nullable(schema, nulled)
    requires forall t, r :: t in schema && r in schema[t].references ==> Undisturbed(cells, nulled, t, r)
    ensures Obeys(Twins(schema, cells, nulled), schema)
  {
    var db := Twins(schema, cells, nulled);
    forall t | t in schema ensures KeysHold(db, t, schema[t]) {
      assert WellFormedTable(schema, t);
      TwinsKeepKeys(schema, cells, nulled, t);
    }
    forall t, row, r | (t, row) in db && r in schema[t].references && !HasNull(row, r.columns)
      ensures FindsTarget(db, row, r)
    {
      var second :| row == TwinRow(schema, t, cells, nulled, second);
      assert WellFormedTable(schema, t) && WellFormedReference(schema, t, r);
      if Waived(nulled, t, r) {
        WaivedHasNull(schema, cells, nulled, t, r, second);
      } else {
        TwinPoints(schema, cells, nulled, t, r, second);
        TwinIn(schema, cells, nulled, r.target, second != Turns(cells, t, r, 0));
      }
    }
    forall t, row | (t, row) in db ensures t in schema && HasColumns(row, schema[t]) {
      assert WellFormedTable(schema, t);
    }
  }

  /** A loose tenant reference admits an obeying database with a link across organizations. */
  lemma LooseReferenceEscapes(schema: Schema, t: string, r: Reference)
    requires WellFormedSchema(schema) && TenantReference(schema, t, r) && Loose(schema, t, r)
    requires ORG in schema[t].columns && ORG in schema[r.target].columns
    ensures exists db :: Obeys(db, schema) && !Isolated(db, schema)
  {
    var cells, nulled :| LooseBy(schema, t, r, cells, nulled);
    var db := Twins(schema, cells, nulled);
    TwinsObey(schema, cells, nulled);
    assert WellFormedTable(schema, t) && WellFormedReference(schema, t, r);
    var row := TwinRow(schema, t, cells, nulled, false);
    var target := TwinRow(schema, r.target, cells, nulled, true);
    TwinPoints(schema, cells, nulled, t, r, false);
    TwinIn(schema, cells, nulled, t, false);
    TwinIn(schema, cells, nulled, r.target, true);
    assert !SameTenant(row, target);
    assert !KeepsTenant(db, t, r);
  }

  /**
   For a passing schema in which every tenant reference is guarded or loose, every database
   that obeys the schema is isolated if and only if every tenant reference, parsed or not, is
   guarded.
   */
  lemma PassingSchemaIsolatesIff(schema: Schema)
    requires WellFormedSchema(schema) && Failures(schema) == {}
    requires forall t, r :: TenantReference(schema, t, r) ==> Guarded(schema, t, r) || Loose(schema, t, r)
    ensures (forall db :: Obeys(db, schema) ==> Isolated(db, schema))
       <==> (forall t, r :: TenantReference(schema, t, r) ==> Guarded(schema, t, r))
  {
    CheckPassesIff(schema);
    if forall t, r :: TenantReference(schema, t, r) ==> Guarded(schema, t, r) {
      forall db | Obeys(db, schema) ensures Isolated(db, schema) {
        GuardedSchemaIsolates(db, schema);
      }
    }
    forall t, r | TenantReference(schema, t, r) && !Guarded(schema, t, r)
      ensures exists db :: Obeys(db, schema) && !Isolated(db, schema)
    {
      assert WellFormedTable(schema, t) && WellFormedReference(schema, t, r);
      assert TablePasses(t, schema[t]) && TablePasses(r.target, schema[r.target]);
      assert WellFormedTable(schema, r.target);
      LooseReferenceEscapes(schema, t, r);
    }
  }

  /** A nullable column of the table outside the reference that no reference refers to. */
  ghost predicate Spare(schema: Schema, t: string, r: Reference, c: string)
    requires t in schema
  {
    && c in schema[t].columns && c !in schema[t].notNull && c !in r.columns && c != ORG
    && forall u, q :: u in schema && q in schema[u].references && q.target == t ==> c !in q.targets
  }

  /**
   Every other reference of the table that uses one of its columns has a spare column, and no
   reference, itself included, refers to its columns.
   */
  ghost predicate Freestanding(schema: Schema, t: string, r: Reference)
    requires t in schema
  {
    && (forall q, c :: q in schema[t].references && q != r && c in r.columns && c in q.columns ==>
          exists e :: e in q.columns && Spare(schema, t, r, e))
    && (forall u, q, c :: u in schema && q in schema[u].references && q.target == t && c in r.columns ==>
          c !in q.targets)
  }

  lemma SharerIsWaived(schema: Schema, t: string, r: Reference, q: Reference, c: string, nulled: set<Cell>)
    requires t in schema && Freestanding(schema, t, r) && q in schema[t].references && q != r
    requires c in r.columns && c in q.columns
    requires forall v, c :: (v, c) in nulled <==> v == t && c in schema[t].columns && Spare(schema, t, r, c)
    ensures Waived(nulled, t, q)
  {
    var e :| e in q.columns && Spare(schema, t, r, e);
    var j :| 0 <= j < |q.columns| && q.columns[j] == e;
    assert (t, q.columns[j]) in nulled;
  }

  lemma FreestandingIsUndisturbed(schema: Schema, t: string, r: Reference, cells: set<Cell>, nulled: set<Cell>,
                                  u: string, q: Reference)
    requires WellFormedSchema(schema) && t in schema && Freestanding(schema, t, r)
    requires u in schema && q in schema[u].references
    requires forall v, c :: (v, c) in cells <==> v == t && c in r.columns
    requires forall v, c :: (v, c) in nulled <==> v == t && c in schema[t].columns && Spare(schema, t, r, c)
    ensures Undisturbed(cells, nulled, u, q)
  {
    assert WellFormedTable(schema, u) && WellFormedReference(schema, u, q);
    forall i: nat | i < |q.columns| ensures (q.target, q.targets[i]) !in nulled && (q.target, q.targets[i]) !in cells {
      assert q.targets[i] in q.targets;
    }
    if u == t && q != r {
      forall c | c in q.columns && c in r.columns ensures Waived(nulled, u, q) {
        SharerIsWaived(schema, t, r, q, c, nulled);
      }
    }
    if !Waived(nulled, u, q) {
      forall i: nat | i < |q.columns| ensures Turns(cells, u, q, i) == (u == t && q == r) {
        assert q.columns[i] in q.columns;
      }
    }
  }

  /** The plain case: a reference that leaves organization_id out and stands by itself is loose. */
  lemma FreestandingIsLoose(schema: Schema, t: string, r: Reference)
    requires WellFormedSchema(schema) && t in schema && r in schema[t].references
    requires ORG !in r.columns && Freestanding(schema, t, r)
    ensures Loose(schema, t, r)
  {
    var cells := set c | c in r.columns :: (t, c);
    var nulled := set c | c in schema[t].columns && Spare(schema, t, r, c) :: (t, c);
    forall u, q | u in schema && q in schema[u].references ensures Undisturbed(cells, nulled, u, q) {
      FreestandingIsUndisturbed(schema, t, r, cells, nulled, u, q);
    }
    assert WellFormedTable(schema, t) && WellFormedReference(schema, t, r);
    assert r.columns[0] in r.columns;
    assert LooseBy(schema, t, r, cells, nulled);
  }

  // ---------------------------------------------------------------- a reference the check does not see

  const SECURED: Security := Security(true, true, [Policy(true, true)])

  /** `artifact.erasure_audit_id` refers to `audit_event (id)` on the column itself. */
  function ErasureReference(): Reference {
    Reference(["erasure_audit_id"], "audit_event", ["id"], false)
  }

  function OwnerReference(): Reference {
    Reference([ORG], "organization", ["id"], false)
  }

  function Organizations(): Table {
    Table(false, {"id", "slug"}, {"id", "slug"}, {{"id"}, {"slug"}}, {}, Security(false, false, []))
  }

  function AuditEvents(): Table {
    Table(true, {"id", ORG}, {"id", ORG}, {{"id"}}, {OwnerReference()}, SECURED)
  }

  function Artifacts(): Table {
    Table(true, {"id", ORG, "content_digest", "erasure_audit_id"}, {"id", ORG, "content_digest"},
          {{"id"}, {ORG, "id"}, {ORG, "content_digest"}},
          {OwnerReference(), ErasureReference()}, SECURED)
  }

  function ThreeTables(): Schema {
    map["organization" := Organizations(), "audit_event" := AuditEvents(), "artifact" := Artifacts()]
  }

  lemma ThreeTablesPass()
    ensures Failures(ThreeTables()) == {}
  {
    CheckPassesIff(ThreeTables());
  }

  lemma ReferencesAreWellFormed()
    ensures WellFormedReference(ThreeTables(), "audit_event", OwnerReference())
    ensures WellFormedReference(ThreeTables(), "artifact", OwnerReference())
    ensures WellFormedReference(ThreeTables(), "artifact", ErasureReference())
  {
    assert Elements(["id"]) == {"id"};
  }

  lemma ThreeTablesAreWellFormed()
    ensures WellFormedSchema(ThreeTables())
  {
    ReferencesAreWellFormed();
  }

  lemma ErasureReferenceIsLoose()
    ensures Loose(ThreeTables(), "artifact", ErasureReference())
  {
    var schema, r := ThreeTables(), ErasureReference();
    ThreeTablesAreWellFormed();
    assert forall c :: c in r.columns ==> c == "erasure_audit_id";
    assert forall c :: c in OwnerReference().columns ==> c == ORG;
    assert forall u, q :: u in schema && q in schema[u].references ==> q == OwnerReference() || q == r;
    assert forall u, q :: u in schema && q in schema[u].references ==> q.target != "artifact";
    FreestandingIsLoose(schema, "artifact", r);
  }

  function ArtifactRow(): Row {
    map["id" := Id(0), ORG := Id(0), "content_digest" := Id(0), "erasure_audit_id" := Id(0)]
  }

  function OrganizationRow(n: nat): Row {
    map["id" := Id(n), "slug" := Id(n)]
  }

  function AuditRow(): Row {
    map["id" := Id(0), ORG := Id(1)]
  }

  /** Two organizations; an artifact of the first names an audit event of the second. */
  function FourRows(): Database {
    {("organization", OrganizationRow(0)), ("organization", OrganizationRow(1)),
     ("artifact", ArtifactRow()), ("audit_event", AuditRow())}
  }

  lemma SameCellSameRow(t: string, a: Row, b: Row, c: string)
    requires (t, a) in FourRows() && (t, b) in FourRows() && c in {"id", "slug", "content_digest"}
    requires c in a && c in b && a[c] == b[c]
    ensures a == b
  {
  }

  lemma FourRowsKeepKeys(t: string)
    requires t in ThreeTables()
    ensures KeysHold(FourRows(), t, ThreeTables()[t])
  {
    var db, table := FourRows(), ThreeTables()[t];
    forall a, b, k | (t, a) in db && (t, b) in db && k in table.keys && AgreeOn(a, b, k) ensures a == b {
      var c := if "id" in k then "id" else if "slug" in k then "slug" else "content_digest";
      assert c in k;
      SameCellSameRow(t, a, b, c);
    }
  }

  lemma FourRowsFindTargets(t: string, row: Row, r: Reference)
    requires (t, row) in FourRows() && r in ThreeTables()[t].references
    ensures FindsTarget(FourRows(), row, r)
  {
    if r == ErasureReference() {
      assert PointsAt(ArtifactRow(), r, AuditRow());
    } else {
      assert PointsAt(ArtifactRow(), r, OrganizationRow(0)) && PointsAt(AuditRow(), r, OrganizationRow(1));
    }
  }

  lemma FourRowsHaveColumns(t: string, row: Row)
    requires (t, row) in FourRows()
    ensures t in ThreeTables() && HasColumns(row, ThreeTables()[t])
  {
  }

  lemma FourRowsObey()
    ensures Obeys(FourRows(), ThreeTables())
  {
    var db, schema := FourRows(), ThreeTables();
    forall t, row | (t, row) in db ensures t in schema && HasColumns(row, schema[t]) {
      FourRowsHaveColumns(t, row);
    }
    forall t | t in schema ensures KeysHold(db, t, schema[t]) {
      FourRowsKeepKeys(t);
    }
    forall t, row, r | (t, row) in db && r in schema[t].references ensures FindsTarget(db, row, r) {
      FourRowsFindTargets(t, row, r);
    }
  }

  lemma FourRowsCross()
    ensures !Isolated(FourRows(), ThreeTables())
  {
    var r := ErasureReference();
    assert TenantReference(ThreeTables(), "artifact", r);
    assert PointsAt(ArtifactRow(), r, AuditRow()) && !SameTenant(ArtifactRow(), AuditRow());
    assert !KeepsTenant(FourRows(), "artifact", r);
  }

  /** The check passes on this schema, and four rows that obey it link two organizations. */
  lemma ColumnReferenceEscapes()
    ensures WellFormedSchema(ThreeTables()) && Failures(ThreeTables()) == {}
    ensures Obeys(FourRows(), ThreeTables()) && !Isolated(FourRows(), ThreeTables())
  {
    ThreeTablesPass();
    ThreeTablesAreWellFormed();
    FourRowsObey();
    FourRowsCross();
  }

  /** The same column next to a composite reference to the same key is harmless. */
  lemma CompositeReferenceGuards(schema: Schema, t: string, c: string, r: Reference, q: Reference)
    requires WellFormedSchema(schema) && TenantReference(schema, t, r) && q in schema[t].references
    requires ORG in schema[t].notNull
    requires r.columns == [c] && r.targets == ["id"] && q.target == r.target
    requires q.columns == [ORG, c] && q.targets == [ORG, "id"]
    ensures !PairsTenant(r) && Guarded(schema, t, r)
  {
    assert WellFormedTable(schema, t) && WellFormedReference(schema, t, r);
    assert q.columns[0] == ORG && q.targets[0] == ORG;
    assert Elements(r.targets) == {"id"} && Elements(q.columns) == {ORG, c} && Elements(r.columns) == {c};
    assert r.columns[0] == c && q.columns[1] == c && q.targets[1] == "id";
    assert Matches(r, c, "id") && Matches(q, c, "id");
    assert RouteMatches([q], c, "id") && RouteMatches([q], ORG, ORG);
    assert SameKey(r, [q], {"id"});
    assert Companion(schema, t, r, [q]);
  }
}
