/**
 The audit-grant rule of the schema check, and what the runtime role can do to an audit
 table under the grants it accepts.
 */
module AuditGrants {
  import opened Collections

  const RUNTIME: string := "clep_runtime"
  const AUDIT_TABLES: set<string> := {"audit_event", "dataset_approval", "suite_grant"}

  /**
   A GRANT statement as the database reads it. `columns`: the column list its privileges are
   limited to, if it has one; a statement that lists columns for some privileges only counts as
   two. `parsed`: the check's expression takes the statement apart, which it does for upper-case
   privileges without a column list, tables written with their schema, and one role at the end.
   `allTables`: the statement covers the whole schema.
   */
  datatype Grant = Grant(privileges: set<string>, columns: Option<set<string>>, tables: set<string>, allTables: bool,
                         roles: set<string>, parsed: bool)

  type Grants = seq<Grant>

  /** What one match of the expression yields. */
  datatype Match = Match(privileges: set<string>, named: set<string>, role: string)

  datatype Finding = Finding(privilege: string, table: string)

  function FindingsOf(m: Match): set<Finding> {
    if m.role != RUNTIME then {}
    else set t, p | t in m.named * AUDIT_TABLES && p in {"UPDATE", "DELETE"} && p in m.privileges :: Finding(p, t)
  }

  method CheckGrants(matches: seq<Match>) returns (findings: set<Finding>)
    ensures findings == set i, f | 0 <= i < |matches| && f in FindingsOf(matches[i]) :: f
    // A finding for each UPDATE or DELETE that some match gives the runtime role on an audit table it names.
    ensures forall p, t :: Finding(p, t) in findings <==>
      && p in {"UPDATE", "DELETE"} && t in {"audit_event", "dataset_approval", "suite_grant"}
      && exists m :: m in matches && Confers(m, "clep_runtime", p, t)
  {
    findings := {};
    for i := 0 to |matches|
      invariant findings == set j, f | 0 <= j < i && f in FindingsOf(matches[j]) :: f
    {
      findings := findings + FindingsOf(matches[i]);
    }
    forall p, t ensures Finding(p, t) in findings <==>
      && p in {"UPDATE", "DELETE"} && t in {"audit_event", "dataset_approval", "suite_grant"}
      && exists m :: m in matches && Confers(m, "clep_runtime", p, t)
    {
      FoundIff(matches, p, t);
    }
  }

  predicate Confers(m: Match, role: string, privilege: string, table: string) {
    m.role == role && table in m.named && privilege in m.privileges
  }

  lemma FoundIff(matches: seq<Match>, p: string, t: string)
    ensures (exists i :: 0 <= i < |matches| && Finding(p, t) in FindingsOf(matches[i])) <==>
      && p in {"UPDATE", "DELETE"} && t in {"audit_event", "dataset_approval", "suite_grant"}
      && exists m :: m in matches && Confers(m, "clep_runtime", p, t)
  {
    forall m ensures Finding(p, t) in FindingsOf(m) <==>
      p in {"UPDATE", "DELETE"} && t in AUDIT_TABLES && Confers(m, RUNTIME, p, t)
    {
    }
    if m :| m in matches && Confers(m, "clep_runtime", p, t) {
      var i :| 0 <= i < |matches| && matches[i] == m;
    }
  }

  ghost predicate Accepted(matches: seq<Match>) {
    forall m :: m in matches ==> FindingsOf(m) == {}
  }

  predicate Yields(g: Grant, m: Match) {
    g.privileges == m.privileges && g.tables == m.named && g.roles == {m.role}
  }

  /** Every parsed statement has its match; what else the expression matches is arbitrary. */
  ghost predicate Extracted(grants: Grants, matches: seq<Match>) {
    forall g :: g in grants && g.parsed ==> exists m :: m in matches && Yields(g, m)
  }

  // ---------------------------------------------------------------- what the store allows

  /** The roles whose privileges the runtime role has: itself, PUBLIC and those it is a member of. */
  type Held = set<string>

  predicate Touches(held: Held, g: Grant, t: string) {
    g.roles * held != {} && (t in g.tables || g.allTables)
  }

  /** DELETE and TRUNCATE cannot be limited to columns. */
  predicate Gives(held: Held, g: Grant, t: string, privilege: string) {
    && Touches(held, g, t)
    && (privilege in g.privileges || "ALL" in g.privileges || "ALL PRIVILEGES" in g.privileges)
    && (g.columns.Some? ==> privilege !in {"DELETE", "TRUNCATE"})
  }

  predicate GivesOn(held: Held, g: Grant, t: string, privilege: string, column: string) {
    Gives(held, g, t, privilege) && (g.columns.None? || column in g.columns.value)
  }

  predicate Allowed(held: Held, grants: Grants, t: string, privilege: string) {
    exists i :: 0 <= i < |grants| && Gives(held, grants[i], t, privilege)
  }

  predicate AllowedOn(held: Held, grants: Grants, t: string, privilege: string, column: string) {
    exists i :: 0 <= i < |grants| && GivesOn(held, grants[i], t, privilege, column)
  }

  // ---------------------------------------------------------------- foreign keys

  /** `Refuse`: NO ACTION or RESTRICT; `Clear`: SET NULL or SET DEFAULT. */
  datatype Action = Refuse | Cascade | Clear

  /** A foreign key: its columns, the columns they refer to, and what it does when a row it refers to changes. */
  datatype Link = Link(child: string, columns: seq<string>, parent: string, targets: seq<string>,
                       onDelete: Action, onUpdate: Action)

  type Links = set<Link>

  /** What can befall a row: it is removed, or a column of it is changed. */
  datatype Harm = Gone(table: string) | Changed(table: string, column: string)

  /** A key change is handed on column by column. */
  ghost predicate HandsOn(l: Link, d: string, c: string) {
    exists i :: 0 <= i < |l.columns| && i < |l.targets| && l.targets[i] == d && l.columns[i] == c
  }

  /** The foreign key passes this harm of a row on to the rows that refer to it. */
  ghost predicate Passes(l: Link, h: Harm, k: Harm) {
    && h.table == l.parent && k.table == l.child
    && match h
       case Gone(_) =>
         (l.onDelete == Cascade && k.Gone?) || (l.onDelete == Clear && k.Changed? && k.column in l.columns)
       case Changed(_, d) =>
         && k.Changed?
         && ((l.onUpdate == Cascade && HandsOn(l, d, k.column))
             || (l.onUpdate == Clear && d in l.targets && k.column in l.columns))
  }

  predicate Forbids(l: Link, h: Harm) {
    h.table == l.parent &&
    match h
    case Gone(_) => l.onDelete == Refuse
    case Changed(_, d) => l.onUpdate == Refuse && d in l.targets
  }

  ghost predicate Spreads(links: Links, h: Harm, k: Harm) {
    exists l :: l in links && Passes(l, h, k)
  }

  // ---------------------------------------------------------------- the store and its statements

  datatype Row = Row(table: string, id: nat)

  /** A row of the link's child refers to a row of its parent. */
  datatype Pointer = Pointer(child: nat, link: Link, parent: nat)

  /** Each row with the number of changes it has seen. */
  datatype Store = Store(rows: map<Row, nat>, pointers: set<Pointer>)

  ghost predicate Valid(store: Store, links: Links) {
    forall q :: q in store.pointers ==>
      q.link in links && Row(q.link.child, q.child) in store.rows && Row(q.link.parent, q.parent) in store.rows
  }

  datatype Statement =
    | Insert(row: Row, aims: set<Pointer>)
    | Update(row: Row, columns: set<string>, aims: set<Pointer>)
    | Delete(row: Row)
    | Truncate(tables: set<string>)

  /** A harm and the row it befalls. */
  datatype Hurt = Hurt(id: nat, harm: Harm)

  ghost predicate RowPasses(pointers: set<Pointer>, a: Hurt, b: Hurt) {
    exists q :: q in pointers && q.parent == a.id && q.child == b.id && Passes(q.link, a.harm, b.harm)
  }

  ghost predicate RowChain(pointers: set<Pointer>, start: set<Hurt>, p: seq<Hurt>) {
    p != [] && p[0] in start && forall i :: 0 <= i < |p| - 1 ==> RowPasses(pointers, p[i], p[i + 1])
  }

  /** The harm befalls the row, through a chain of foreign keys of any length. */
  ghost predicate Befalls(pointers: set<Pointer>, start: set<Hurt>, h: Hurt) {
    exists p :: RowChain(pointers, start, p) && p[|p| - 1] == h
  }

  ghost predicate Lost(pointers: set<Pointer>, start: set<Hurt>, r: Row) {
    Befalls(pointers, start, Hurt(r.id, Gone(r.table)))
  }

  ghost predicate Altered(pointers: set<Pointer>, start: set<Hurt>, r: Row) {
    exists c :: Befalls(pointers, start, Hurt(r.id, Changed(r.table, c)))
  }

  /** Some foreign key forbids a harm to a row that a row which stays refers to. */
  ghost predicate Blocked(pointers: set<Pointer>, start: set<Hurt>) {
    exists q, h :: q in pointers && Befalls(pointers, start, Hurt(q.parent, h)) && Forbids(q.link, h)
                   && !Lost(pointers, start, Row(q.link.child, q.child))
  }

  /** Removed rows go, changed rows count the change, and pointers of removed rows and cleared ones are dropped. */
  ghost function Spread(store: Store, start: set<Hurt>): Store {
    var ps := store.pointers;
    Store(
      map r | r in store.rows && !Lost(ps, start, r) ::
        store.rows[r] + (if Altered(ps, start, r) then 1 else 0),
      set q | q in ps && !Lost(ps, start, Row(q.link.child, q.child)) && !Lost(ps, start, Row(q.link.parent, q.parent))
              && !(q.link.onUpdate == Clear && Altered(ps, start, Row(q.link.parent, q.parent))) :: q)
  }

  /** The row's new pointers: declared, from its own columns, and to rows that are there. */
  ghost predicate Aimed(links: Links, rows: map<Row, nat>, row: Row, aims: set<Pointer>) {
    forall q :: q in aims ==>
      q.link in links && Row(q.link.child, q.child) == row && row in rows && Row(q.link.parent, q.parent) in rows
  }

  /** The pointers with those of the row through these columns replaced. */
  function Repointed(pointers: set<Pointer>, row: Row, columns: set<string>, aims: set<Pointer>): set<Pointer> {
    (set q | q in pointers && !(Row(q.link.child, q.child) == row && exists c :: c in q.link.columns && c in columns))
    + aims
  }

  function ColumnsHurt(row: Row, columns: set<string>): set<Hurt> {
    set c | c in columns :: Hurt(row.id, Changed(row.table, c))
  }

  /**
   One statement by the runtime role. Foreign keys act with their owner's privileges. A
   statement without the privilege, or that a foreign key refuses, does nothing.
   */
  ghost function Execute(held: Held, grants: Grants, links: Links, store: Store, s: Statement): Store {
    match s
    case Insert(row, aims) =>
      if !Allowed(held, grants, row.table, "INSERT") || row in store.rows
         || !Aimed(links, store.rows[row := 0], row, aims) then store
      else Store(store.rows[row := 0], store.pointers + aims)
    case Update(row, columns, aims) =>
      var start := ColumnsHurt(row, columns);
      if row !in store.rows || (exists c :: c in columns && !AllowedOn(held, grants, row.table, "UPDATE", c))
         || Blocked(store.pointers, start) || !Aimed(links, Spread(store, start).rows, row, aims) then store
      else
        var after := Spread(store, start);
        after.(pointers := Repointed(after.pointers, row, columns, aims))
    case Delete(row) =>
      var start := {Hurt(row.id, Gone(row.table))};
      if row !in store.rows || !Allowed(held, grants, row.table, "DELETE") || Blocked(store.pointers, start) then store
      else Spread(store, start)
    case Truncate(tables) =>
      if (exists t :: t in tables && !Allowed(held, grants, t, "TRUNCATE"))
         || (exists l :: l in links && l.parent in tables && l.child !in tables) then store
      else Store(map r | r in store.rows && r.table !in tables :: store.rows[r],
                 set q | q in store.pointers && q.link.child !in tables)
  }

  ghost function Run(held: Held, grants: Grants, links: Links, store: Store, statements: seq<Statement>): Store
    decreases |statements|
  {
    if statements == [] then store
    else Run(held, grants, links, Execute(held, grants, links, store, statements[0]), statements[1..])
  }

  /** A held role is granted one of the privileges on the table, by name or with the whole schema. */
  ghost predicate GrantedOn(held: Held, g: Grant, t: string, privileges: set<string>) {
    && (exists r :: r in g.roles && r in held) && (g.allTables || t in g.tables)
    && exists p :: p in g.privileges && p in privileges
  }

  lemma GivesIff(held: Held, g: Grant, t: string, privilege: string)
    ensures Gives(held, g, t, privilege) <==>
      && GrantedOn(held, g, t, {privilege, "ALL", "ALL PRIVILEGES"})
      && (g.columns.None? || (privilege != "DELETE" && privilege != "TRUNCATE"))
  {
    assert forall r :: r in g.roles && r in held ==> r in g.roles * held;
  }

  /** What the four statements need, on a store of one row without references. */
  lemma StatementsNeed(held: Held, grants: Grants, row: Row, n: nat, c: string)
    ensures var store := Store(map[row := n], {});
            && (row in Execute(held, grants, {}, Store(map[], {}), Insert(row, {})).rows <==>
                 exists g :: g in grants && GrantedOn(held, g, row.table, {"INSERT", "ALL", "ALL PRIVILEGES"}))
            && (row !in Execute(held, grants, {}, store, Delete(row)).rows <==>
                 exists g :: g in grants && g.columns.None?
                             && GrantedOn(held, g, row.table, {"DELETE", "ALL", "ALL PRIVILEGES"}))
            && (row !in Execute(held, grants, {}, store, Truncate({row.table})).rows <==>
                 exists g :: g in grants && g.columns.None?
                             && GrantedOn(held, g, row.table, {"TRUNCATE", "ALL", "ALL PRIVILEGES"}))
            && (Execute(held, grants, {}, store, Update(row, {c}, {})).rows == map[row := n + 1] <==>
                 exists g :: g in grants && (g.columns.None? || c in g.columns.value)
                             && GrantedOn(held, g, row.table, {"UPDATE", "ALL", "ALL PRIVILEGES"}))
  {
    InsertNeeds(held, grants, row);
    RemovalsNeed(held, grants, row, n);
    UpdateNeeds(held, grants, row, n, c);
  }

  lemma InsertNeeds(held: Held, grants: Grants, row: Row)
    ensures row in Execute(held, grants, {}, Store(map[], {}), Insert(row, {})).rows <==>
      exists g :: g in grants && GrantedOn(held, g, row.table, {"INSERT", "ALL", "ALL PRIVILEGES"})
  {
    forall i | 0 <= i < |grants|
      ensures Gives(held, grants[i], row.table, "INSERT")
         <==> GrantedOn(held, grants[i], row.table, {"INSERT", "ALL", "ALL PRIVILEGES"})
    {
      GivesIff(held, grants[i], row.table, "INSERT");
    }
    if g :| g in grants && GrantedOn(held, g, row.table, {"INSERT", "ALL", "ALL PRIVILEGES"}) {
      var i :| 0 <= i < |grants| && grants[i] == g;
      assert Gives(held, grants[i], row.table, "INSERT");
    }
    assert Aimed({}, map[row := 0], row, {});
  }

  lemma AllowedIff(held: Held, grants: Grants, t: string, privilege: string)
    requires privilege in {"DELETE", "TRUNCATE"}
    ensures Allowed(held, grants, t, privilege) <==>
      exists g :: g in grants && g.columns.None? && GrantedOn(held, g, t, {privilege, "ALL", "ALL PRIVILEGES"})
  {
    forall i | 0 <= i < |grants|
      ensures Gives(held, grants[i], t, privilege) <==>
        GrantedOn(held, grants[i], t, {privilege, "ALL", "ALL PRIVILEGES"}) && grants[i].columns.None?
    {
      GivesIff(held, grants[i], t, privilege);
    }
    if g :| g in grants && g.columns.None? && GrantedOn(held, g, t, {privilege, "ALL", "ALL PRIVILEGES"}) {
      var i :| 0 <= i < |grants| && grants[i] == g;
      assert Gives(held, grants[i], t, privilege);
    }
  }

  /** Without references nothing befalls a row but what the statement does to it. */
  lemma NothingSpreads(start: set<Hurt>, h: Hurt)
    ensures Befalls({}, start, h) <==> h in start
    ensures !Blocked({}, start)
  {
    if h in start {
      assert RowChain({}, start, [h]);
    }
    if p :| RowChain({}, start, p) && p[|p| - 1] == h {
      assert |p| > 1 ==> RowPasses({}, p[0], p[0 + 1]);
    }
  }

  lemma RemovalsNeed(held: Held, grants: Grants, row: Row, n: nat)
    ensures var store := Store(map[row := n], {});
            && (row !in Execute(held, grants, {}, store, Delete(row)).rows <==>
                 exists g :: g in grants && g.columns.None?
                             && GrantedOn(held, g, row.table, {"DELETE", "ALL", "ALL PRIVILEGES"}))
            && (row !in Execute(held, grants, {}, store, Truncate({row.table})).rows <==>
                 exists g :: g in grants && g.columns.None?
                             && GrantedOn(held, g, row.table, {"TRUNCATE", "ALL", "ALL PRIVILEGES"}))
  {
    AllowedIff(held, grants, row.table, "DELETE");
    AllowedIff(held, grants, row.table, "TRUNCATE");
    var gone := Hurt(row.id, Gone(row.table));
    NothingSpreads({gone}, gone);
  }

  lemma UpdateNeeds(held: Held, grants: Grants, row: Row, n: nat, c: string)
    ensures Execute(held, grants, {}, Store(map[row := n], {}), Update(row, {c}, {})).rows == map[row := n + 1] <==>
      exists g :: g in grants && (g.columns.None? || c in g.columns.value)
                  && GrantedOn(held, g, row.table, {"UPDATE", "ALL", "ALL PRIVILEGES"})
  {
    forall i | 0 <= i < |grants|
      ensures GivesOn(held, grants[i], row.table, "UPDATE", c) <==>
        && GrantedOn(held, grants[i], row.table, {"UPDATE", "ALL", "ALL PRIVILEGES"})
        && (grants[i].columns.None? || c in grants[i].columns.value)
    {
      GivesIff(held, grants[i], row.table, "UPDATE");
    }
    if g :| g in grants && (g.columns.None? || c in g.columns.value)
            && GrantedOn(held, g, row.table, {"UPDATE", "ALL", "ALL PRIVILEGES"}) {
      var i :| 0 <= i < |grants| && grants[i] == g;
      assert GivesOn(held, grants[i], row.table, "UPDATE", c);
    }
    OneRowIsAltered(row, n, c);
  }

  lemma OneRowIsAltered(row: Row, n: nat, c: string)
    ensures !Blocked({}, ColumnsHurt(row, {c}))
    ensures Spread(Store(map[row := n], {}), ColumnsHurt(row, {c})).rows == map[row := n + 1]
  {
    var start, hurt := ColumnsHurt(row, {c}), Hurt(row.id, Changed(row.table, c));
    assert hurt in start;
    NothingSpreads(start, hurt);
    NothingSpreads(start, Hurt(row.id, Gone(row.table)));
    assert Altered({}, start, row) && !Lost({}, start, row);
  }

  /** Every row of the table is still there, with no more changes than it had. */
  ghost predicate Kept(before: Store, after: Store, t: string) {
    forall r :: r in before.rows && r.table == t ==> r in after.rows && after.rows[r] == before.rows[r]
  }

  /** No run of statements by the runtime role removes or alters a row of the table. */
  ghost predicate AppendOnly(held: Held, grants: Grants, links: Links, t: string) {
    forall store, statements :: Valid(store, links) ==> Kept(store, Run(held, grants, links, store, statements), t)
  }

  // ---------------------------------------------------------------- what endangers a table

  /** The runtime role may do this itself. */
  predicate Source(held: Held, grants: Grants, h: Harm) {
    match h
    case Gone(s) => Allowed(held, grants, s, "DELETE")
    case Changed(s, c) => AllowedOn(held, grants, s, "UPDATE", c)
  }

  /** From something the runtime role may do, foreign keys lead on to the last harm. */
  ghost predicate HarmChain(held: Held, grants: Grants, links: Links, p: seq<Harm>) {
    p != [] && Source(held, grants, p[0]) && forall i :: 0 <= i < |p| - 1 ==> Spreads(links, p[i], p[i + 1])
  }

  /** Some chain of harms ends at the table. */
  ghost predicate Endangered(held: Held, grants: Grants, links: Links, t: string) {
    exists p: seq<Harm> :: HarmChain(held, grants, links, p) && p[|p| - 1].table == t
  }

  ghost predicate Refers(links: Links, u: string, t: string) {
    exists l :: l in links && l.child == u && l.parent == t
  }

  /** References lead from the first table to the last. */
  ghost predicate Referring(links: Links, p: seq<string>) {
    p != [] && forall i :: 0 <= i < |p| - 1 ==> Refers(links, p[i], p[i + 1])
  }

  ghost predicate RefersTo(links: Links, u: string, t: string) {
    exists p :: Referring(links, p) && p[0] == u && p[|p| - 1] == t
  }

  /** The table and all that refer to it, directly or not, may be truncated together. */
  ghost predicate Truncatable(held: Held, grants: Grants, links: Links, t: string) {
    forall u :: RefersTo(links, u, t) ==> Allowed(held, grants, u, "TRUNCATE")
  }

  // ---------------------------------------------------------------- what is not endangered is kept

  /** A chain of harmed rows is a chain of harms between their tables. */
  lemma RowChainIsHarmChain(held: Held, grants: Grants, links: Links, store: Store, start: set<Hurt>, p: seq<Hurt>)
    requires Valid(store, links) && RowChain(store.pointers, start, p)
    requires forall h :: h in start ==> Source(held, grants, h.harm)
    ensures HarmChain(held, grants, links, seq(|p|, i requires 0 <= i < |p| => p[i].harm))
  {
    forall i | 0 <= i < |p| - 1 ensures Spreads(links, p[i].harm, p[i + 1].harm) {
      assert RowPasses(store.pointers, p[i], p[i + 1]);
    }
  }

  lemma SafeRowsAreUnhurt(held: Held, grants: Grants, links: Links, store: Store, start: set<Hurt>, t: string, h: Hurt)
    requires Valid(store, links) && !Endangered(held, grants, links, t) && h.harm.table == t
    requires forall h :: h in start ==> Source(held, grants, h.harm)
    ensures !Befalls(store.pointers, start, h)
  {
    if p :| RowChain(store.pointers, start, p) && p[|p| - 1] == h {
      RowChainIsHarmChain(held, grants, links, store, start, p);
    }
  }

  lemma SpreadKeeps(held: Held, grants: Grants, links: Links, store: Store, start: set<Hurt>, t: string)
    requires Valid(store, links) && !Endangered(held, grants, links, t)
    requires forall h :: h in start ==> Source(held, grants, h.harm)
    ensures Kept(store, Spread(store, start), t)
  {
    forall r | r in store.rows && r.table == t
      ensures !Lost(store.pointers, start, r) && !Altered(store.pointers, start, r)
    {
      forall h: Hurt | h.harm.table == t ensures !Befalls(store.pointers, start, h) {
        SafeRowsAreUnhurt(held, grants, links, store, start, t, h);
      }
    }
  }

  /** A set of tables closed under referring tables holds all that refer to its members. */
  lemma {:induction false} ClosedHoldsReferring(links: Links, tables: set<string>, p: seq<string>, i: nat)
    requires forall l :: l in links && l.parent in tables ==> l.child in tables
    requires Referring(links, p) && i < |p| && p[|p| - 1] in tables
    ensures p[i] in tables
    decreases |p| - i
  {
    if i < |p| - 1 {
      assert Refers(links, p[i], p[i + 1]);
      ClosedHoldsReferring(links, tables, p, i + 1);
    }
  }

  lemma ClosedSetIsTruncatable(held: Held, grants: Grants, links: Links, tables: set<string>, t: string)
    requires forall l :: l in links && l.parent in tables ==> l.child in tables
    requires t in tables && forall u :: u in tables ==> Allowed(held, grants, u, "TRUNCATE")
    ensures Truncatable(held, grants, links, t)
  {
    forall u | RefersTo(links, u, t) ensures Allowed(held, grants, u, "TRUNCATE") {
      var p :| Referring(links, p) && p[0] == u && p[|p| - 1] == t;
      ClosedHoldsReferring(links, tables, p, 0);
    }
  }

  lemma StatementStaysValid(held: Held, grants: Grants, links: Links, store: Store, s: Statement)
    requires Valid(store, links)
    ensures Valid(Execute(held, grants, links, store, s), links)
  {
  }

  lemma StatementKeeps(held: Held, grants: Grants, links: Links, store: Store, s: Statement, t: string)
    requires Valid(store, links)
    requires !Endangered(held, grants, links, t) && !Truncatable(held, grants, links, t)
    ensures Kept(store, Execute(held, grants, links, store, s), t)
  {
    match s
    case Insert(_, _) =>
    case Update(row, columns, _) =>
      if forall c :: c in columns ==> AllowedOn(held, grants, row.table, "UPDATE", c) {
        SpreadKeeps(held, grants, links, store, ColumnsHurt(row, columns), t);
      }
    case Delete(row) =>
      if Allowed(held, grants, row.table, "DELETE") {
        SpreadKeeps(held, grants, links, store, {Hurt(row.id, Gone(row.table))}, t);
      }
    case Truncate(tables) =>
      if t in tables && (forall l :: l in links && l.parent in tables ==> l.child in tables)
         && (forall u :: u in tables ==> Allowed(held, grants, u, "TRUNCATE")) {
        ClosedSetIsTruncatable(held, grants, links, tables, t);
      }
  }

  /** Over every run, a table that is neither endangered nor truncatable loses nothing. */
  lemma {:induction false} SafeRunsKeep(held: Held, grants: Grants, links: Links, store: Store,
                                        statements: seq<Statement>, t: string)
    requires Valid(store, links)
    requires !Endangered(held, grants, links, t) && !Truncatable(held, grants, links, t)
    ensures Kept(store, Run(held, grants, links, store, statements), t)
    decreases |statements|
  {
    if statements != [] {
      StatementStaysValid(held, grants, links, store, statements[0]);
      StatementKeeps(held, grants, links, store, statements[0], t);
      SafeRunsKeep(held, grants, links, Execute(held, grants, links, store, statements[0]), statements[1..], t);
    }
  }

  // ---------------------------------------------------------------- what is endangered is lost

  ghost predicate Joined(links: Links, p: seq<Harm>, via: seq<Link>) {
    p != [] && |via| == |p| - 1 && forall i :: 0 <= i < |via| ==> via[i] in links && Passes(via[i], p[i], p[i + 1])
  }

  lemma {:induction false} JoinChain(links: Links, p: seq<Harm>) returns (via: seq<Link>)
    requires p != [] && forall i :: 0 <= i < |p| - 1 ==> Spreads(links, p[i], p[i + 1])
    ensures Joined(links, p, via)
  {
    if |p| == 1 {
      via := [];
    } else {
      var n := |p| - 1;
      var before := JoinChain(links, p[..n]);
      assert Spreads(links, p[n - 1], p[n - 1 + 1]);
      var l :| l in links && Passes(l, p[n - 1], p[n]);
      via := before + [l];
      forall i | 0 <= i < |via| ensures via[i] in links && Passes(via[i], p[i], p[i + 1]) {
        if i < n - 1 {
          assert before[i] in links && Passes(before[i], p[..n][i], p[..n][i + 1]);
        }
      }
    }
  }

  /** One row for each harm of a chain, each referring to the one before it. */
  function ChainStore(p: seq<Harm>, via: seq<Link>): Store
    requires |via| == |p| - 1
  {
    Store(map i: nat | i < |p| :: Row(p[i].table, i) := 0, set i: nat | i < |via| :: Pointer(i + 1, via[i], i))
  }

  /** The statement that starts the chain at its first row. */
  function FirstStatement(h: Harm): Statement {
    match h
    case Gone(s) => Delete(Row(s, 0))
    case Changed(s, c) => Update(Row(s, 0), {c}, {})
  }

  /** In that store a row meets only the kind of harm the chain has for it. */
  lemma {:induction false} ChainKinds(links: Links, p: seq<Harm>, via: seq<Link>, q: seq<Hurt>, k: nat)
    requires Joined(links, p, via) && RowChain(ChainStore(p, via).pointers, {Hurt(0, p[0])}, q) && k < |q|
    ensures q[k].id == k < |p| && q[k].harm.table == p[k].table && q[k].harm.Gone? == p[k].Gone?
  {
    if k > 0 {
      ChainKinds(links, p, via, q, k - 1);
      assert RowPasses(ChainStore(p, via).pointers, q[k - 1], q[k - 1 + 1]);
      assert Passes(via[k - 1], q[k - 1].harm, q[k].harm) && Passes(via[k - 1], p[k - 1], p[k - 1 + 1]);
    }
  }

  lemma ChainIsNotBlocked(links: Links, p: seq<Harm>, via: seq<Link>)
    requires Joined(links, p, via)
    ensures !Blocked(ChainStore(p, via).pointers, {Hurt(0, p[0])})
  {
    var ps, start := ChainStore(p, via).pointers, {Hurt(0, p[0])};
    forall q, h | q in ps && Befalls(ps, start, Hurt(q.parent, h)) ensures !Forbids(q.link, h) {
      var c :| RowChain(ps, start, c) && c[|c| - 1] == Hurt(q.parent, h);
      ChainKinds(links, p, via, c, |c| - 1);
      var i: nat :| i < |via| && q == Pointer(i + 1, via[i], i);
      assert Passes(via[i], p[i], p[i + 1]);
    }
  }

  lemma ChainBefalls(links: Links, p: seq<Harm>, via: seq<Link>)
    requires Joined(links, p, via)
    ensures Befalls(ChainStore(p, via).pointers, {Hurt(0, p[0])}, Hurt(|p| - 1, p[|p| - 1]))
  {
    var ps := ChainStore(p, via).pointers;
    var q := seq(|p|, i requires 0 <= i < |p| => Hurt(i, p[i]));
    forall i | 0 <= i < |q| - 1 ensures RowPasses(ps, q[i], q[i + 1]) {
      assert Pointer(i + 1, via[i], i) in ps && Passes(via[i], p[i], p[i + 1]);
    }
    assert RowChain(ps, {Hurt(0, p[0])}, q);
  }

  lemma ChainStoreIsValid(links: Links, p: seq<Harm>, via: seq<Link>)
    requires Joined(links, p, via)
    ensures Valid(ChainStore(p, via), links)
    ensures forall i: nat :: i < |p| ==> Row(p[i].table, i) in ChainStore(p, via).rows
  {
    var store := ChainStore(p, via);
    assert forall i: nat :: i < |p| ==> Row(p[i].table, i) in store.rows;
    forall q | q in store.pointers
      ensures q.link in links && Row(q.link.child, q.child) in store.rows && Row(q.link.parent, q.parent) in store.rows
    {
      var i: nat :| i < |via| && q == Pointer(i + 1, via[i], i);
      assert Passes(via[i], p[i], p[i + 1]);
    }
  }

  lemma DeleteExecutes(held: Held, grants: Grants, links: Links, store: Store, row: Row)
    requires Allowed(held, grants, row.table, "DELETE") && row in store.rows
    requires !Blocked(store.pointers, {Hurt(row.id, Gone(row.table))})
    ensures Execute(held, grants, links, store, Delete(row)).rows == Spread(store, {Hurt(row.id, Gone(row.table))}).rows
  {
  }

  lemma UpdateExecutes(held: Held, grants: Grants, links: Links, store: Store, row: Row, columns: set<string>)
    requires row in store.rows && forall c :: c in columns ==> AllowedOn(held, grants, row.table, "UPDATE", c)
    requires !Blocked(store.pointers, ColumnsHurt(row, columns))
    ensures Execute(held, grants, links, store, Update(row, columns, {})).rows
         == Spread(store, ColumnsHurt(row, columns)).rows
  {
  }

  lemma FirstStatementExecutes(held: Held, grants: Grants, links: Links, store: Store, h: Harm)
    requires Source(held, grants, h) && Row(h.table, 0) in store.rows && !Blocked(store.pointers, {Hurt(0, h)})
    ensures Execute(held, grants, links, store, FirstStatement(h)).rows == Spread(store, {Hurt(0, h)}).rows
  {
    var row := Row(h.table, 0);
    if h.Gone? {
      DeleteExecutes(held, grants, links, store, row);
    } else {
      assert ColumnsHurt(row, {h.column}) == {Hurt(0, h)};
      UpdateExecutes(held, grants, links, store, row, {h.column});
    }
  }

  lemma HarmedIsNotKept(store: Store, start: set<Hurt>, id: nat, h: Harm)
    requires Row(h.table, id) in store.rows && Befalls(store.pointers, start, Hurt(id, h))
    ensures var r, after := Row(h.table, id), Spread(store, start).rows;
            r in after ==> after[r] != store.rows[r]
  {
    var r := Row(h.table, id);
    if h.Changed? {
      assert Altered(store.pointers, start, r);
    }
  }

  /** The first statement of a chain executes, and harms the last row. */
  lemma ChainEscapes(held: Held, grants: Grants, links: Links, p: seq<Harm>, via: seq<Link>)
    requires Joined(links, p, via) && Source(held, grants, p[0])
    ensures var store := ChainStore(p, via);
            !Kept(store, Execute(held, grants, links, store, FirstStatement(p[0])), p[|p| - 1].table)
  {
    var store, start, n := ChainStore(p, via), {Hurt(0, p[0])}, |p| - 1;
    ChainStoreIsValid(links, p, via);
    ChainIsNotBlocked(links, p, via);
    ChainBefalls(links, p, via);
    assert Row(p[n].table, n) in store.rows && Row(p[0].table, 0) in store.rows;
    FirstStatementExecutes(held, grants, links, store, p[0]);
    HarmedIsNotKept(store, start, n, p[n]);
  }

  lemma RunOne(held: Held, grants: Grants, links: Links, store: Store, s: Statement)
    ensures Run(held, grants, links, store, [s]) == Execute(held, grants, links, store, s)
  {
    assert [s][1..] == [];
  }

  lemma EndangeredEscapes(held: Held, grants: Grants, links: Links, t: string)
    requires Endangered(held, grants, links, t)
    ensures !AppendOnly(held, grants, links, t)
  {
    var p: seq<Harm> :| HarmChain(held, grants, links, p) && p[|p| - 1].table == t;
    var via := JoinChain(links, p);
    ChainStoreIsValid(links, p, via);
    ChainEscapes(held, grants, links, p, via);
    RunOne(held, grants, links, ChainStore(p, via), FirstStatement(p[0]));
  }

  /** The table and all that refer to it, directly or not. */
  ghost function ReferringTables(links: Links, t: string): set<string> {
    {t} + set l | l in links && RefersTo(links, l.child, t) :: l.child
  }

  lemma RefersToStep(links: Links, l: Link, t: string)
    requires l in links && RefersTo(links, l.parent, t)
    ensures RefersTo(links, l.child, t)
  {
    var p :| Referring(links, p) && p[0] == l.parent && p[|p| - 1] == t;
    var q := [l.child] + p;
    assert Refers(links, l.child, l.parent);
    forall i | 0 <= i < |q| - 1 ensures Refers(links, q[i], q[i + 1]) {
      assert i > 0 ==> Refers(links, p[i - 1], p[i - 1 + 1]);
    }
    assert Referring(links, q);
  }

  lemma ReferringTablesAre(links: Links, t: string)
    ensures forall u :: u in ReferringTables(links, t) ==> RefersTo(links, u, t)
    ensures forall l :: l in links && l.parent in ReferringTables(links, t) ==> l.child in ReferringTables(links, t)
  {
    assert Referring(links, [t]);
    assert RefersTo(links, t, t);
    forall l | l in links && l.parent in ReferringTables(links, t) ensures l.child in ReferringTables(links, t) {
      RefersToStep(links, l, t);
    }
  }

  lemma TruncateExecutes(held: Held, grants: Grants, links: Links, store: Store, tables: set<string>, row: Row)
    requires forall l :: l in links && l.parent in tables ==> l.child in tables
    requires forall u :: u in tables ==> Allowed(held, grants, u, "TRUNCATE")
    requires row.table in tables
    ensures row !in Execute(held, grants, links, store, Truncate(tables)).rows
  {
  }

  lemma TruncatableEscapes(held: Held, grants: Grants, links: Links, t: string)
    requires Truncatable(held, grants, links, t)
    ensures !AppendOnly(held, grants, links, t)
  {
    var tables, store := ReferringTables(links, t), Store(map[Row(t, 0) := 0], {});
    ReferringTablesAre(links, t);
    TruncateExecutes(held, grants, links, store, tables, Row(t, 0));
    RunOne(held, grants, links, store, Truncate(tables));
    assert Valid(store, links) && Row(t, 0) in store.rows;
    assert !Kept(store, Run(held, grants, links, store, [Truncate(tables)]), t);
  }

  /**
   A table is append-only, over every run, exactly when no chain of foreign keys leads to it
   from something the runtime role may do, and it cannot be truncated with all that refers to it.
   */
  lemma AppendOnlyIff(held: Held, grants: Grants, links: Links, t: string)
    ensures AppendOnly(held, grants, links, t)
       <==> !Endangered(held, grants, links, t) && !Truncatable(held, grants, links, t)
  {
    if Endangered(held, grants, links, t) {
      EndangeredEscapes(held, grants, links, t);
    } else if Truncatable(held, grants, links, t) {
      TruncatableEscapes(held, grants, links, t);
    } else {
      forall store, statements | Valid(store, links)
        ensures Kept(store, Run(held, grants, links, store, statements), t)
      {
        SafeRunsKeep(held, grants, links, store, statements, t);
      }
    }
  }

  // ---------------------------------------------------------------- what accepting says

  predicate Full(g: Grant) {
    "ALL" in g.privileges || "ALL PRIVILEGES" in g.privileges
  }

  /** What the check looks for: UPDATE or DELETE on a table it lists, in a parsed statement to the runtime role. */
  predicate LookedFor(g: Grant, t: string) {
    g.parsed && t in g.tables && g.roles == {RUNTIME} && !Full(g)
  }

  /**
   A statement that lets rows of the table itself be altered or removed, in a form the check
   does not look for: ALL, or UPDATE or DELETE in a statement that is not parsed, covers the
   whole schema or names another role the runtime role holds.
   */
  predicate Overlooked(held: Held, g: Grant, t: string) {
    && !LookedFor(g, t)
    && ((Gives(held, g, t, "UPDATE") && (g.columns.None? || g.columns.value != {})) || Gives(held, g, t, "DELETE"))
  }

  /** Something the runtime role may do to one table comes to this one through at least one foreign key. */
  ghost predicate EndangeredFromElsewhere(held: Held, grants: Grants, links: Links, t: string) {
    exists p: seq<Harm> :: HarmChain(held, grants, links, p) && |p| > 1 && p[|p| - 1].table == t
  }

  lemma SeenGrantIsHarmless(g: Grant, m: Match, t: string)
    requires Yields(g, m) && FindingsOf(m) == {} && g.roles == {RUNTIME} && t in g.tables * AUDIT_TABLES
    ensures "UPDATE" !in g.privileges && "DELETE" !in g.privileges
  {
    assert m.role in g.roles;
    assert Finding("UPDATE", t) !in FindingsOf(m) && Finding("DELETE", t) !in FindingsOf(m);
  }

  lemma AcceptedSourceIsOverlooked(held: Held, grants: Grants, matches: seq<Match>, t: string)
    requires Extracted(grants, matches) && Accepted(matches) && t in AUDIT_TABLES
    ensures (exists h: Harm :: h.table == t && Source(held, grants, h))
        <==> exists g :: g in grants && Overlooked(held, g, t)
  {
    forall i | 0 <= i < |grants| && LookedFor(grants[i], t)
      ensures !Gives(held, grants[i], t, "UPDATE") && !Gives(held, grants[i], t, "DELETE")
    {
      var g := grants[i];
      assert g in grants;
      var m :| m in matches && Yields(g, m);
      SeenGrantIsHarmless(g, m, t);
    }
    if g :| g in grants && Overlooked(held, g, t) {
      var i :| 0 <= i < |grants| && grants[i] == g;
      if Gives(held, g, t, "DELETE") {
        assert Source(held, grants, Gone(t));
      } else {
        var c: string :| g.columns.None? || c in g.columns.value;
        assert GivesOn(held, grants[i], t, "UPDATE", c);
        assert Source(held, grants, Changed(t, c));
      }
    }
    if h: Harm :| h.table == t && Source(held, grants, h) {
      if h.Gone? {
        var i :| 0 <= i < |grants| && Gives(held, grants[i], t, "DELETE");
        assert grants[i] in grants && Overlooked(held, grants[i], t);
      } else {
        var i :| 0 <= i < |grants| && GivesOn(held, grants[i], t, "UPDATE", h.column);
        assert grants[i] in grants && Overlooked(held, grants[i], t);
      }
    }
  }

  lemma EndangeredIff(held: Held, grants: Grants, links: Links, t: string)
    ensures Endangered(held, grants, links, t)
       <==> (exists h: Harm :: h.table == t && Source(held, grants, h))
            || EndangeredFromElsewhere(held, grants, links, t)
  {
    if h: Harm :| h.table == t && Source(held, grants, h) {
      assert HarmChain(held, grants, links, [h]) && [h][0].table == t;
    }
    if p: seq<Harm> :| HarmChain(held, grants, links, p) && p[|p| - 1].table == t && |p| == 1 {
      assert Source(held, grants, p[0]);
    }
  }

  /**
   Under matches the check accepts, an audit table is append-only exactly when no statement
   gives UPDATE or DELETE on it in a form the check overlooks, no foreign key hands it a change
   the runtime role may make elsewhere, and it cannot be truncated with all that refers to it.
   */
  lemma AcceptedIsAppendOnlyIff(held: Held, grants: Grants, matches: seq<Match>, links: Links, t: string)
    requires Extracted(grants, matches) && Accepted(matches) && t in AUDIT_TABLES
    ensures AppendOnly(held, grants, links, t)
       <==> && (forall g :: g in grants ==> !Overlooked(held, g, t))
            && !EndangeredFromElsewhere(held, grants, links, t)
            && !Truncatable(held, grants, links, t)
  {
    AppendOnlyIff(held, grants, links, t);
    AcceptedSourceIsOverlooked(held, grants, matches, t);
    EndangeredIff(held, grants, links, t);
  }

  // ---------------------------------------------------------------- accepted, and not append-only

  lemma SourceEscapes(held: Held, grants: Grants, links: Links, h: Harm)
    requires Source(held, grants, h)
    ensures !AppendOnly(held, grants, links, h.table)
  {
    assert HarmChain(held, grants, links, [h]) && [h][0] == h;
    EndangeredEscapes(held, grants, links, h.table);
  }

  lemma OneGrant(g: Grant, t: string, privilege: string, c: string)
    requires RUNTIME in g.roles && t in g.tables && GivesOn({RUNTIME}, g, t, privilege, c)
    ensures Allowed({RUNTIME}, [g], t, privilege) && AllowedOn({RUNTIME}, [g], t, privilege, c)
  {
    assert [g][0] == g;
  }

  /** UPDATE limited to a column leaves no match. */
  lemma ColumnGrantEscapes(t: string, c: string, links: Links)
    ensures var grants := [Grant({"UPDATE"}, Some({c}), {t}, false, {RUNTIME}, false)];
            Extracted(grants, []) && Accepted([]) && !AppendOnly({RUNTIME}, grants, links, t)
  {
    var g := Grant({"UPDATE"}, Some({c}), {t}, false, {RUNTIME}, false);
    assert RUNTIME in g.roles * {RUNTIME};
    OneGrant(g, t, "UPDATE", c);
    SourceEscapes({RUNTIME}, [g], links, Changed(t, c));
  }

  /** A destructive statement that leaves no match: lower case, or a second role. */
  lemma UnparsedGrantEscapes(privilege: string, t: string, others: set<string>, links: Links)
    requires privilege in {"UPDATE", "DELETE"}
    ensures var grants := [Grant({privilege}, None, {t}, false, {RUNTIME} + others, false)];
            Extracted(grants, []) && Accepted([]) && !AppendOnly({RUNTIME}, grants, links, t)
  {
    var g := Grant({privilege}, None, {t}, false, {RUNTIME} + others, false);
    assert RUNTIME in g.roles * {RUNTIME};
    OneGrant(g, t, privilege, "");
    SourceEscapes({RUNTIME}, [g], links, if privilege == "UPDATE" then Changed(t, "") else Gone(t));
  }

  /** GRANT ALL on a table is parsed and accepted, and lets its rows be removed. */
  lemma GrantAllEscapes(t: string, links: Links)
    ensures var grants, matches := [Grant({"ALL"}, None, {t}, false, {RUNTIME}, true)], [Match({"ALL"}, {t}, RUNTIME)];
            Extracted(grants, matches) && Accepted(matches) && !AppendOnly({RUNTIME}, grants, links, t)
  {
    var g, m := Grant({"ALL"}, None, {t}, false, {RUNTIME}, true), Match({"ALL"}, {t}, RUNTIME);
    assert Yields(g, m) && m in [m];
    assert RUNTIME in g.roles * {RUNTIME};
    OneGrant(g, t, "DELETE", "");
    SourceEscapes({RUNTIME}, [g], links, Gone(t));
  }

  /** The grant on suite versions, and their reference to be deleted with them. */
  function SuiteGrants(): Grants {
    [Grant({"SELECT", "INSERT", "UPDATE", "DELETE"}, None, {"suite_version"}, false, {RUNTIME}, true),
     Grant({"SELECT", "INSERT"}, None, {"suite_grant"}, false, {RUNTIME}, true)]
  }

  function SuiteMatches(): seq<Match> {
    [Match({"SELECT", "INSERT", "UPDATE", "DELETE"}, {"suite_version"}, RUNTIME),
     Match({"SELECT", "INSERT"}, {"suite_grant"}, RUNTIME)]
  }

  function SuiteReference(onDelete: Action): Link {
    Link("suite_grant", ["organization_id", "suite_version_id"], "suite_version", ["organization_id", "id"],
         onDelete, Refuse)
  }

  lemma SuiteGrantsAreExtracted()
    ensures Extracted(SuiteGrants(), SuiteMatches())
  {
    var gs, ms := SuiteGrants(), SuiteMatches();
    assert Yields(gs[0], ms[0]) && Yields(gs[1], ms[1]) && ms[0] in ms && ms[1] in ms;
  }

  lemma SuiteGrantsAreAccepted()
    ensures Accepted(SuiteMatches())
    ensures forall g :: g in SuiteGrants() ==> !Overlooked({RUNTIME}, g, "suite_grant")
  {
  }

  lemma DeletingVersionsIsAllowed()
    ensures Source({RUNTIME}, SuiteGrants(), Gone("suite_version"))
  {
    assert RUNTIME in SuiteGrants()[0].roles * {RUNTIME};
    assert Gives({RUNTIME}, SuiteGrants()[0], "suite_version", "DELETE");
  }

  lemma CascadePasses(t: string, u: string, l: Link)
    requires l.child == u && l.parent == t && l.onDelete == Cascade
    ensures Passes(l, Gone(t), Gone(u))
  {
  }

  /** If the reference says ON DELETE CASCADE, the check is silent and deleting a version removes its grants. */
  lemma CascadeEscapes()
    ensures Extracted(SuiteGrants(), SuiteMatches()) && Accepted(SuiteMatches())
    ensures forall g :: g in SuiteGrants() ==> !Overlooked({RUNTIME}, g, "suite_grant")
    ensures !AppendOnly({RUNTIME}, SuiteGrants(), {SuiteReference(Cascade)}, "suite_grant")
  {
    SuiteGrantsAreExtracted();
    SuiteGrantsAreAccepted();
    DeletingVersionsIsAllowed();
    var l, p := SuiteReference(Cascade), [Gone("suite_version"), Gone("suite_grant")];
    CascadePasses("suite_version", "suite_grant", l);
    assert Spreads({l}, p[0], p[0 + 1]);
    assert HarmChain({RUNTIME}, SuiteGrants(), {l}, p);
    EndangeredEscapes({RUNTIME}, SuiteGrants(), {l}, "suite_grant");
  }

  lemma RefusingPassesNothing(l: Link, h: Harm, k: Harm)
    requires l.onDelete == l.onUpdate == Refuse
    ensures !Passes(l, h, k)
  {
  }

  lemma ElsewhereNeedsALink(held: Held, grants: Grants, links: Links, t: string)
    ensures EndangeredFromElsewhere(held, grants, links, t) ==> exists h, k :: Spreads(links, h, k)
  {
    if p: seq<Harm> :| HarmChain(held, grants, links, p) && |p| > 1 {
      assert Spreads(links, p[0], p[0 + 1]);
    }
  }

  lemma NoTruncateOnGrants()
    ensures !Allowed({RUNTIME}, SuiteGrants(), "suite_grant", "TRUNCATE")
  {
  }

  /** As the reference is declared, without an action, these grants keep the table append-only. */
  lemma RefusingReferenceKeeps()
    ensures AppendOnly({RUNTIME}, SuiteGrants(), {SuiteReference(Refuse)}, "suite_grant")
  {
    var l := SuiteReference(Refuse);
    SuiteGrantsAreExtracted();
    SuiteGrantsAreAccepted();
    NoTruncateOnGrants();
    forall h, k ensures !Spreads({l}, h, k) {
      RefusingPassesNothing(l, h, k);
    }
    ElsewhereNeedsALink({RUNTIME}, SuiteGrants(), {l}, "suite_grant");
    assert Referring({l}, ["suite_grant"]);
    AcceptedIsAppendOnlyIff({RUNTIME}, SuiteGrants(), SuiteMatches(), {l}, "suite_grant");
  }
}
