/**
 Path redaction of evidence: separators are normalised, then every registered path is
 replaced by its token, longest path first, ignoring case.
 */
module Redaction {
  import opened Json

  datatype Entry = Entry(path: string, token: string)

  /** Whether a pattern character matches a text character. */
  type Same = (char, char) -> bool

  // ---------------------------------------------------------------- replace-all

  predicate MatchAt(same: Same, p: string, s: string, i: nat) {
    i + |p| <= |s| && forall k :: 0 <= k < |p| ==> same(p[k], s[i + k])
  }

  ghost predicate Occurs(same: Same, p: string, s: string) {
    exists i: nat :: MatchAt(same, p, s, i)
  }

  /** The leftmost match of `p` in `s`, or |s| when there is none. */
  function FirstMatch(same: Same, p: string, s: string): (m: nat)
    requires p != ""
    ensures m <= |s|
    ensures m < |s| ==> MatchAt(same, p, s, m)
    ensures forall i: nat :: i < m ==> !MatchAt(same, p, s, i)
    decreases |s|
  {
    if s == "" then 0
    else if MatchAt(same, p, s, 0) then 0
    else
      var m := 1 + FirstMatch(same, p, s[1..]);
      assert forall i: nat :: 1 <= i ==> MatchAt(same, p, s, i) == MatchAt(same, p, s[1..], i - 1);
      m
  }

  /** Replace every match, scanning left to right past each replacement. */
  function Sub(same: Same, p: string, t: string, s: string): string
    requires p != ""
    decreases |s|
  {
    var m := FirstMatch(same, p, s);
    if m == |s| then s else s[..m] + t + Sub(same, p, t, s[m + |p|..])
  }

  function Exactly(): Same {
    (c: char, d: char) => c == d
  }

  function Normalise(s: string): string {
    Sub(Exactly(), "\\", "/", Sub(Exactly(), "\\\\", "/", s))
  }

  function Rewrite(same: Same, table: seq<Entry>, s: string): string
    requires forall e :: e in table ==> e.path != ""
  {
    if table == [] then s
    else Rewrite(same, table[1..], Sub(same, table[0].path, table[0].token, s))
  }

  function RedactText(same: Same, table: seq<Entry>, s: string): string
    requires forall e :: e in table ==> e.path != ""
  {
    Rewrite(same, table, Normalise(s))
  }

  function Redact(same: Same, table: seq<Entry>, value: Node): Node
    requires forall e :: e in table ==> e.path != ""
  {
    match value
    case Str(s) => Str(RedactText(same, table, s))
    case Arr(items) => Arr(seq(|items|, i requires 0 <= i < |items| => Redact(same, table, items[i])))
    case Obj(members) =>
      Obj(seq(|members|, i requires 0 <= i < |members| => (members[i].0, Redact(same, table, members[i].1))))
    case Atom(_) => value
  }

  // ---------------------------------------------------------------- the token table

  /** Sorted by descending length; entries of equal length keep their order. */
  function SortLongestFirst(entries: seq<Entry>): seq<Entry> {
    if entries == [] then [] else Insert(entries[0], SortLongestFirst(entries[1..]))
  }

  function Insert(e: Entry, sorted: seq<Entry>): seq<Entry> {
    if sorted == [] || |e.path| >= |sorted[0].path| then [e] + sorted
    else [sorted[0]] + Insert(e, sorted[1..])
  }

  function Entries(pairs: seq<(string, string)>): seq<Entry> {
    seq(|pairs|, i requires 0 <= i < |pairs| => Entry(Sub(Exactly(), "\\", "/", pairs[i].0), pairs[i].1))
  }

  class Redactor {
    var redactions: seq<Entry>

    constructor ()
      ensures redactions == []
    {
      redactions := [];
    }

    /**
     `pairs` are absolute paths, already resolved, with their tokens. The table holds each of
     them once, longest path first, and those of one length in the order they were given.
     */
    method Register(pairs: seq<(string, string)>)
      modifies this
      ensures Descending(redactions)
      ensures multiset(redactions) == multiset(Entries(pairs))
      ensures forall n :: OfLength(n, redactions) == OfLength(n, Entries(pairs))
      ensures redactions == SortLongestFirst(Entries(pairs))
    {
      var sorted: seq<Entry> := [];
      ghost var all := Entries(pairs);
      for i := |pairs| downto 0
        invariant sorted == SortLongestFirst(all[i..])
      {
        assert all[i..][0] == all[i] && all[i..][1..] == all[i + 1..];
        sorted := Insert(Entry(Sub(Exactly(), "\\", "/", pairs[i].0), pairs[i].1), sorted);
      }
      assert all[0..] == all;
      redactions := sorted;
      forall n ensures OfLength(n, redactions) == OfLength(n, all) {
        RegistrationSorts(all, n);
      }
      RegistrationSorts(all, 0);
    }

    method RedactString(same: Same, value: string) returns (out: string)
      requires forall e :: e in redactions ==> e.path != ""
      ensures out == RedactText(same, redactions, value)
    {
      out := Sub(Exactly(), "\\", "/", Sub(Exactly(), "\\\\", "/", value));
      for i := 0 to |redactions|
        invariant Rewrite(same, redactions[i..], out) == RedactText(same, redactions, value)
      {
        out := Sub(same, redactions[i].path, redactions[i].token, out);
        assert redactions[i..][1..] == redactions[i + 1..];
      }
    }
  }

  ghost predicate Descending(table: seq<Entry>) {
    forall i, j :: 0 <= i < j < |table| ==> |table[i].path| >= |table[j].path|
  }

  function OnlyOfLength(n: nat, e: Entry): seq<Entry> {
    if |e.path| == n then [e] else []
  }

  function OfLength(n: nat, table: seq<Entry>): seq<Entry> {
    if table == [] then [] else OnlyOfLength(n, table[0]) + OfLength(n, table[1..])
  }

  /** Insertion puts the entry behind every strictly longer one and in front of the rest. */
  lemma {:induction false} InsertSplits(e: Entry, sorted: seq<Entry>) returns (k: nat)
    ensures k <= |sorted| && Insert(e, sorted) == sorted[..k] + [e] + sorted[k..]
    ensures forall i :: 0 <= i < k ==> |sorted[i].path| > |e.path|
    ensures k < |sorted| ==> |e.path| >= |sorted[k].path|
  {
    if sorted == [] || |e.path| >= |sorted[0].path| {
      k := 0;
    } else {
      var j := InsertSplits(e, sorted[1..]);
      k := j + 1;
      assert sorted[..k] == [sorted[0]] + sorted[1..][..j];
    }
  }

  lemma {:induction false} InsertKeepsAll(e: Entry, sorted: seq<Entry>)
    ensures multiset(Insert(e, sorted)) == multiset{e} + multiset(sorted)
  {
    if sorted != [] && |e.path| < |sorted[0].path| {
      InsertKeepsAll(e, sorted[1..]);
      assert sorted == [sorted[0]] + sorted[1..];
    }
  }

  lemma OfLengthCons(n: nat, e: Entry, rest: seq<Entry>)
    ensures OfLength(n, [e] + rest) == OnlyOfLength(n, e) + OfLength(n, rest)
  {
    assert ([e] + rest)[1..] == rest;
  }

  lemma DifferentLengthsCommute(n: nat, e: Entry, f: Entry, rest: seq<Entry>)
    requires |e.path| != |f.path|
    ensures OnlyOfLength(n, e) + (OnlyOfLength(n, f) + rest) == OnlyOfLength(n, f) + (OnlyOfLength(n, e) + rest)
  {
    assert OnlyOfLength(n, e) == [] || OnlyOfLength(n, f) == [];
  }

  lemma {:induction false} InsertKeepsOrder(e: Entry, sorted: seq<Entry>, n: nat)
    ensures OfLength(n, Insert(e, sorted)) == OnlyOfLength(n, e) + OfLength(n, sorted)
  {
    if sorted == [] || |e.path| >= |sorted[0].path| {
      OfLengthCons(n, e, sorted);
    } else {
      InsertKeepsOrder(e, sorted[1..], n);
      OfLengthCons(n, sorted[0], Insert(e, sorted[1..]));
      DifferentLengthsCommute(n, e, sorted[0], OfLength(n, sorted[1..]));
    }
  }

  lemma InsertDescends(e: Entry, sorted: seq<Entry>)
    requires Descending(sorted)
    ensures Descending(Insert(e, sorted))
  {
    var k := InsertSplits(e, sorted);
    var r := Insert(e, sorted);
    forall i, j | 0 <= i < j < |r| ensures |r[i].path| >= |r[j].path| {
      assert r[i] == if i < k then sorted[i] else if i == k then e else sorted[i - 1];
      assert r[j] == if j < k then sorted[j] else if j == k then e else sorted[j - 1];
    }
  }

  lemma {:induction false} SortDescends(entries: seq<Entry>)
    ensures Descending(SortLongestFirst(entries))
  {
    if entries != [] {
      SortDescends(entries[1..]);
      InsertDescends(entries[0], SortLongestFirst(entries[1..]));
    }
  }

  lemma {:induction false} SortKeepsAll(entries: seq<Entry>)
    ensures multiset(SortLongestFirst(entries)) == multiset(entries)
  {
    if entries != [] {
      SortKeepsAll(entries[1..]);
      InsertKeepsAll(entries[0], SortLongestFirst(entries[1..]));
      assert entries == [entries[0]] + entries[1..];
    }
  }

  lemma {:induction false} SortKeepsOrder(entries: seq<Entry>, n: nat)
    ensures OfLength(n, SortLongestFirst(entries)) == OfLength(n, entries)
  {
    if entries != [] {
      SortKeepsOrder(entries[1..], n);
      InsertKeepsOrder(entries[0], SortLongestFirst(entries[1..]), n);
    }
  }

  /** Registration loses nothing, orders by length and keeps equal lengths in order. */
  lemma RegistrationSorts(entries: seq<Entry>, n: nat)
    ensures Descending(SortLongestFirst(entries))
    ensures multiset(SortLongestFirst(entries)) == multiset(entries)
    ensures OfLength(n, SortLongestFirst(entries)) == OfLength(n, entries)
  {
    SortDescends(entries);
    SortKeepsAll(entries);
    SortKeepsOrder(entries, n);
  }

  // ---------------------------------------------------------------- admissible tables

  /** Case-blind matching: an equivalence that leaves separators, brackets and the colon alone. */
  ghost predicate CaseBlind(same: Same) {
    && (forall c :: same(c, c))
    && (forall c, d :: same(c, d) ==> same(d, c))
    && (forall c, d, e :: same(c, d) && same(d, e) ==> same(c, e))
    && (forall c, d :: same(c, d) && c in "/\\<>:" ==> c == d)
  }

  predicate AdmissiblePath(p: string) {
    '/' in p && '\\' !in p && '<' !in p && '>' !in p
  }

  predicate AdmissibleToken(t: string) {
    '/' !in t && '\\' !in t
  }

  /** Which paths may be registered: resolved ones of either kind of system, or any with a separator. */
  datatype Paths = Posix | Windows | AnyPath

  predicate IsLetter(c: char) {
    'a' <= c <= 'z' || 'A' <= c <= 'Z'
  }

  predicate OnDrive(p: string) {
    |p| >= 3 && IsLetter(p[0]) && p[1] == ':' && p[2] == '/'
  }

  /**
   A path as resolving leaves it, with its separators normalised: absolute, and without a
   separator at the end unless it is a root.
   */
  predicate Resolved(kind: Paths, p: string) {
    AdmissiblePath(p) &&
    match kind
    case Posix => p[0] == '/' && (|p| > 1 ==> p[|p| - 1] != '/')
    case Windows => (OnDrive(p) && (|p| > 3 ==> p[|p| - 1] != '/')) || "//" <= p
    case AnyPath => true
  }

  /** The shape of every token of the table: an angle bracket at both ends. */
  predicate Bracketed(t: string) {
    t != "" && t[0] in "<>" && t[|t| - 1] in "<>"
  }

  ghost predicate DriveLetter(same: Same, c: char) {
    exists d :: IsLetter(d) && same(d, c)
  }

  ghost predicate EndsInDrive(same: Same, t: string) {
    || (|t| >= 1 && DriveLetter(same, t[|t| - 1]))
    || (|t| >= 2 && t[|t| - 1] == ':' && DriveLetter(same, t[|t| - 2]))
  }

  /** What a token needs so that no path of the kind can begin or end inside it. */
  ghost predicate Closed(kind: Paths, same: Same, t: string) {
    match kind
    case Posix => t != "" && t[0] in "<>"
    case Windows => t != "" && t[0] in "<>" && !EndsInDrive(same, t)
    case AnyPath => Bracketed(t)
  }

  /** Resolved paths with closed tokens. */
  ghost predicate SafeTable(kind: Paths, same: Same, table: seq<Entry>) {
    forall e :: e in table ==> Resolved(kind, e.path) && AdmissibleToken(e.token) && Closed(kind, same, e.token)
  }

  ghost predicate AdmissibleTable(table: seq<Entry>) {
    forall e :: e in table ==> AdmissiblePath(e.path) && AdmissibleToken(e.token)
  }

  // ---------------------------------------------------------------- no path survives

  lemma MatchWithin(same: Same, p: string, s: string, i: nat, from: nat, to: nat)
    requires from <= i && i + |p| <= to <= |s|
    ensures MatchAt(same, p, s, i) == MatchAt(same, p, s[from..to], i - from)
  {
  }

  /** A matched stretch of text holds no bracket and at least one separator. */
  lemma MatchedStretch(same: Same, q: string, s: string, i: nat)
    requires CaseBlind(same) && AdmissiblePath(q) && MatchAt(same, q, s, i)
    ensures forall w :: i <= w < i + |q| ==> s[w] !in "<>"
    ensures exists w :: i <= w < i + |q| && s[w] == '/'
  {
    forall w | i <= w < i + |q| ensures s[w] !in "<>" {
      assert same(q[w - i], s[i + (w - i)]);
      assert q[w - i] in q;
    }
    var k :| 0 <= k < |q| && q[k] == '/';
    assert same(q[k], s[i + k]);
    assert s[i + k] == '/';
  }

  lemma BracketedIsClosed(kind: Paths, same: Same, t: string)
    requires CaseBlind(same) && Bracketed(t)
    ensures Closed(kind, same, t)
  {
    var last := t[|t| - 1];
    assert last in "/\\<>:" && last != ':';
    forall d | same(d, last) ensures !IsLetter(d) {
      assert same(last, d);
    }
  }

  lemma MatchedChar(same: Same, q: string, s: string, i: nat, k: nat)
    requires MatchAt(same, q, s, i) && k < |q|
    ensures same(q[k], s[i + k])
    ensures CaseBlind(same) && q[k] in "/:" ==> s[i + k] == q[k]
  {
    assert q[k] in "/:" ==> q[k] in "/\\<>:";
  }

  /** No path of the kind matches from inside a closed token on. */
  lemma NothingBeginsInside(kind: Paths, same: Same, q: string, t: string, v: string, i: nat)
    requires CaseBlind(same) && Resolved(kind, q) && AdmissibleToken(t) && Closed(kind, same, t)
    requires 0 < i < |t|
    ensures !MatchAt(same, q, t + v, i)
  {
    var s := t + v;
    assert forall w :: 0 <= w < |t| ==> s[w] == t[w] && s[w] != '/';
    assert kind == AnyPath ==> s[|t| - 1] in "<>";
    if MatchAt(same, q, s, i) {
      MatchedChar(same, q, s, i, 0);
      if kind == AnyPath {
        MatchedStretch(same, q, s, i);
      } else if q[0] != '/' {
        MatchedChar(same, q, s, i, 1);
        MatchedChar(same, q, s, i, 2);
        assert DriveLetter(same, s[i]);
      }
    }
  }

  lemma Sides(u: string, t: string, v: string)
    ensures (u + t + v)[0..|u|] == u && (u + t + v)[|u| + |t|..|u + t + v|] == v
    ensures (u + t + v)[|u|..|u + t + v|] == t + v
  {
  }

  /** A closed token is a wall: what neither side shows, the whole does not show. */
  lemma {:induction false} TokenIsAWall(kind: Paths, same: Same, q: string, u: string, t: string, v: string)
    requires CaseBlind(same) && Resolved(kind, q) && AdmissibleToken(t) && Closed(kind, same, t)
    requires !Occurs(same, q, u) && !Occurs(same, q, v)
    ensures !Occurs(same, q, u + t + v)
  {
    var s := u + t + v;
    assert s[|u|] == t[0];
    Sides(u, t, v);
    forall i: nat | i + |q| <= |s| ensures !MatchAt(same, q, s, i) {
      if i + |q| <= |u| {
        MatchWithin(same, q, s, i, 0, |u|);
      } else if |u| + |t| <= i {
        MatchWithin(same, q, s, i, |u| + |t|, |s|);
      } else if |u| < i {
        NothingBeginsInside(kind, same, q, t, v, i - |u|);
        MatchWithin(same, q, s, i, |u|, |s|);
      } else if MatchAt(same, q, s, i) {
        MatchedStretch(same, q, s, i);
      }
    }
  }

  lemma PartsAreFree(same: Same, q: string, a: string, b: string, c: string)
    requires !Occurs(same, q, a + b + c)
    ensures !Occurs(same, q, a) && !Occurs(same, q, c)
  {
    var s := a + b + c;
    forall i: nat ensures !MatchAt(same, q, a, i) && !MatchAt(same, q, c, i) {
      assert s[0..|a|] == a && s[|a| + |b|..|s|] == c;
      if i + |q| <= |a| {
        MatchWithin(same, q, s, i, 0, |a|);
      }
      if i + |q| <= |c| {
        MatchWithin(same, q, s, |a| + |b| + i, |a| + |b|, |s|);
      }
    }
  }

  /** One replacement: what precedes the first match, the match, and what is scanned next. */
  lemma SubSplits(same: Same, p: string, t: string, s: string) returns (before: string, match_: string, rest: string)
    requires p != "" && Occurs(same, p, s)
    ensures s == before + match_ + rest && |match_| == |p| && MatchAt(same, p, match_, 0)
    ensures Sub(same, p, t, s) == before + t + Sub(same, p, t, rest)
    ensures !Occurs(same, p, before)
  {
    var i: nat :| MatchAt(same, p, s, i);
    var m := FirstMatch(same, p, s);
    assert m <= i;
    before, match_, rest := s[..m], s[m..m + |p|], s[m + |p|..];
    MatchWithin(same, p, s, m, m, m + |p|);
    forall i: nat | i + |p| <= m ensures !MatchAt(same, p, before, i) {
      MatchWithin(same, p, s, i, 0, m);
      assert s[0..m] == before;
    }
  }

  lemma AbsentIsUntouched(same: Same, p: string, t: string, s: string)
    requires p != "" && !Occurs(same, p, s)
    ensures Sub(same, p, t, s) == s
  {
    var m := FirstMatch(same, p, s);
  }

  /**
   Replacing one path leaves no occurrence of it, and creates no occurrence of any path
   that the text was already free of.
   */
  lemma {:induction false} SubCreatesNothing(kind: Paths, same: Same, q: string, p: string, t: string, s: string)
    requires CaseBlind(same) && p != "" && Resolved(kind, q) && AdmissibleToken(t) && Closed(kind, same, t)
    requires q == p || !Occurs(same, q, s)
    ensures !Occurs(same, q, Sub(same, p, t, s))
    decreases |s|
  {
    if !Occurs(same, p, s) {
      AbsentIsUntouched(same, p, t, s);
    } else {
      var before, match_, rest := SubSplits(same, p, t, s);
      if q != p {
        PartsAreFree(same, q, before, match_, rest);
      }
      SubCreatesNothing(kind, same, q, p, t, rest);
      TokenIsAWall(kind, same, q, before, t, Sub(same, p, t, rest));
    }
  }

  lemma {:induction false} RewriteCreatesNothing(kind: Paths, same: Same, table: seq<Entry>, q: string, s: string)
    requires CaseBlind(same) && SafeTable(kind, same, table)
    requires Resolved(kind, q) && !Occurs(same, q, s)
    ensures !Occurs(same, q, Rewrite(same, table, s))
  {
    if table != [] {
      SubCreatesNothing(kind, same, q, table[0].path, table[0].token, s);
      RewriteCreatesNothing(kind, same, table[1..], q, Sub(same, table[0].path, table[0].token, s));
    }
  }

  ghost predicate Clean(same: Same, table: seq<Entry>, s: string) {
    '\\' !in s && forall e :: e in table ==> !Occurs(same, e.path, s)
  }

  lemma {:induction false} RewriteClears(kind: Paths, same: Same, table: seq<Entry>, s: string)
    requires CaseBlind(same) && SafeTable(kind, same, table)
    ensures forall e :: e in table ==> !Occurs(same, e.path, Rewrite(same, table, s))
  {
    if table != [] {
      var s' := Sub(same, table[0].path, table[0].token, s);
      SubCreatesNothing(kind, same, table[0].path, table[0].path, table[0].token, s);
      RewriteCreatesNothing(kind, same, table[1..], table[0].path, s');
      RewriteClears(kind, same, table[1..], s');
    }
  }

  lemma {:induction false} SubKeepsOut(same: Same, p: string, t: string, s: string, c: char)
    requires p != "" && c !in t && (c !in s || (p == [c] && same(c, c)))
    ensures c !in Sub(same, p, t, s)
    decreases |s|
  {
    if !Occurs(same, p, s) {
      AbsentIsUntouched(same, p, t, s);
      CharOccurs(same, p, s, c);
    } else {
      var before, match_, rest := SubSplits(same, p, t, s);
      CharOccurs(same, p, before, c);
      SubKeepsOut(same, p, t, rest, c);
    }
  }

  lemma CharOccurs(same: Same, p: string, s: string, c: char)
    requires (p == [c] && same(c, c) && !Occurs(same, p, s)) || c !in s
    ensures c !in s
  {
    forall i | 0 <= i < |s| && c in s ensures s[i] != c {
      assert !MatchAt(same, p, s, i);
      assert !same(p[0], s[i + 0]);
    }
  }

  lemma {:induction false} RewriteKeepsOut(same: Same, table: seq<Entry>, s: string, c: char)
    requires forall e :: e in table ==> e.path != "" && c !in e.token
    requires c !in s
    ensures c !in Rewrite(same, table, s)
  {
    if table != [] {
      SubKeepsOut(same, table[0].path, table[0].token, s, c);
      RewriteKeepsOut(same, table[1..], Sub(same, table[0].path, table[0].token, s), c);
    }
  }

  lemma NormaliseDropsBackslashes(s: string)
    ensures '\\' !in Normalise(s)
  {
    SubKeepsOut(Exactly(), "\\", "/", Sub(Exactly(), "\\\\", "/", s), '\\');
  }

  lemma MatchBehind(same: Same, p: string, c: char, s: string, i: nat)
    ensures MatchAt(same, p, [c] + s, i + 1) == MatchAt(same, p, s, i)
  {
    var cs := [c] + s;
    if i + |p| <= |s| {
      MatchWithin(same, p, cs, i + 1, 1, |cs|);
      assert cs[1..|cs|] == s;
    }
  }

  lemma {:induction false} SubCons(same: Same, p: string, t: string, c: char, s: string)
    requires p != "" && !MatchAt(same, p, [c] + s, 0)
    ensures Sub(same, p, t, [c] + s) == [c] + Sub(same, p, t, s)
  {
    var cs, m := [c] + s, FirstMatch(same, p, s);
    forall i: nat ensures MatchAt(same, p, cs, i) == (i > 0 && MatchAt(same, p, s, i - 1)) {
      if i > 0 {
        MatchBehind(same, p, c, s, i - 1);
      }
    }
    if m < |s| {
      SubStep(same, p, t, s, m);
      FoundBehind(same, p, t, c, s, m);
      ConsAssociates(c, s[..m], t, Sub(same, p, t, s[m + |p|..]));
    } else {
      NoMatchAnywhere(same, p, s);
      AbsentIsUntouched(same, p, t, s);
      AbsentIsUntouched(same, p, t, cs);
    }
  }

  lemma {:induction false} FoundBehind(same: Same, p: string, t: string, c: char, s: string, m: nat)
    requires p != "" && MatchAt(same, p, s, m) && MatchAt(same, p, [c] + s, m + 1)
    requires forall i: nat :: i < m + 1 ==> !MatchAt(same, p, [c] + s, i)
    ensures Sub(same, p, t, [c] + s) == [c] + s[..m] + t + Sub(same, p, t, s[m + |p|..])
  {
    var cs, n := [c] + s, m + 1;
    ConsSlices(c, s, m, m + |p|);
    SubStep(same, p, t, cs, n);
    assert cs[..n] == [c] + s[..m] && cs[n + |p|..] == s[m + |p|..];
  }

  lemma ConsSlices(c: char, s: string, m: nat, n: nat)
    requires m <= n <= |s|
    ensures ([c] + s)[..m + 1] == [c] + s[..m] && ([c] + s)[n + 1..] == s[n..]
  {
  }

  lemma ConsAssociates(c: char, a: string, t: string, r: string)
    ensures [c] + a + t + r == [c] + (a + t + r)
  {
  }

  lemma NoMatchAnywhere(same: Same, p: string, s: string)
    requires p != "" && FirstMatch(same, p, s) == |s|
    ensures !Occurs(same, p, s)
  {
    forall i: nat ensures !MatchAt(same, p, s, i) {
      assert i >= |s| ==> i + |p| > |s|;
    }
  }

  lemma {:induction false} SubHead(same: Same, p: string, t: string, a: string, s: string)
    requires p != "" && |a| == |p| && MatchAt(same, p, a, 0)
    ensures Sub(same, p, t, a + s) == t + Sub(same, p, t, s)
  {
    assert (a + s)[0..|a|] == a && (a + s)[|p|..] == s && (a + s)[..0] == "";
    MatchWithin(same, p, a + s, 0, 0, |a|);
    SubStep(same, p, t, a + s, 0);
  }

  lemma OtherStart(p: string, c: char, s: string)
    requires p != "" && p[0] != c
    ensures !MatchAt(Exactly(), p, [c] + s, 0)
  {
    assert ([c] + s)[0 + 0] == c && !Exactly()(p[0], c);
  }

  /** Two backslashes in a row become one slash, so does one alone, and every other character stays. */
  lemma {:induction false} NormaliseReads(c: char, s: string)
    ensures Normalise("") == ""
    ensures c != '\\' ==> Normalise([c] + s) == [c] + Normalise(s)
    ensures Normalise(['\\', '\\'] + s) == ['/'] + Normalise(s)
    ensures s == "" || s[0] != '\\' ==> Normalise(['\\'] + s) == ['/'] + Normalise(s)
  {
    NormaliseKeeps(c, s);
    NormalisePair(s);
    NormaliseSingle(s);
  }

  lemma {:induction false} NormaliseKeeps(c: char, s: string)
    ensures c != '\\' ==> Normalise([c] + s) == [c] + Normalise(s)
  {
    if c != '\\' {
      OtherStart("\\\\", c, s);
      OtherStart("\\", c, Sub(Exactly(), "\\\\", "/", s));
      SubCons(Exactly(), "\\\\", "/", c, s);
      SubCons(Exactly(), "\\", "/", c, Sub(Exactly(), "\\\\", "/", s));
    }
  }

  lemma {:induction false} NormalisePair(s: string)
    ensures Normalise(['\\', '\\'] + s) == ['/'] + Normalise(s)
  {
    SubHead(Exactly(), "\\\\", "/", "\\\\", s);
    OtherStart("\\", '/', Sub(Exactly(), "\\\\", "/", s));
    SubCons(Exactly(), "\\", "/", '/', Sub(Exactly(), "\\\\", "/", s));
  }

  lemma {:induction false} NormaliseSingle(s: string)
    ensures s == "" || s[0] != '\\' ==> Normalise(['\\'] + s) == ['/'] + Normalise(s)
  {
    if s == "" || s[0] != '\\' {
      assert !MatchAt(Exactly(), "\\\\", ['\\'] + s, 0) by {
        assert |s| > 0 ==> (['\\'] + s)[0 + 1] == s[0] && !Exactly()("\\\\"[1], s[0]);
      }
      SubCons(Exactly(), "\\\\", "/", '\\', s);
      SubHead(Exactly(), "\\", "/", "\\", Sub(Exactly(), "\\\\", "/", s));
    }
  }

  lemma {:induction false} SlashFirst(c: char, s: string)
    ensures Sub(Exactly(), "\\", "/", [c] + s) == [if c == '\\' then '/' else c] + Sub(Exactly(), "\\", "/", s)
  {
    if c == '\\' {
      SubHead(Exactly(), "\\", "/", [c], s);
    } else {
      OtherStart("\\", c, s);
      SubCons(Exactly(), "\\", "/", c, s);
    }
  }

  lemma {:induction false} SlashesOnly(p: string)
    ensures var q := Sub(Exactly(), "\\", "/", p);
            && |q| == |p|
            && forall k :: 0 <= k < |p| ==> q[k] == if p[k] == '\\' then '/' else p[k]
  {
    if p != "" {
      SlashesOnly(p[1..]);
      SlashFirst(p[0], p[1..]);
      assert p == [p[0]] + p[1..];
    }
  }

  /** Registering keeps each token and each character of a path but its backslashes, which become slashes. */
  lemma EntriesKeep(pairs: seq<(string, string)>)
    ensures |Entries(pairs)| == |pairs|
    ensures forall i :: 0 <= i < |pairs| ==>
      && Entries(pairs)[i].token == pairs[i].1
      && |Entries(pairs)[i].path| == |pairs[i].0|
      && forall k :: 0 <= k < |pairs[i].0| ==>
           Entries(pairs)[i].path[k] == if pairs[i].0[k] == '\\' then '/' else pairs[i].0[k]
  {
    forall i | 0 <= i < |pairs|
      ensures |Entries(pairs)[i].path| == |pairs[i].0|
      ensures forall k :: 0 <= k < |pairs[i].0| ==>
        Entries(pairs)[i].path[k] == if pairs[i].0[k] == '\\' then '/' else pairs[i].0[k]
    {
      SlashesOnly(pairs[i].0);
    }
  }

  /** No string keeps a registered path, in any case, or a backslash. */
  lemma RedactTextIsClean(kind: Paths, same: Same, table: seq<Entry>, s: string)
    requires CaseBlind(same) && SafeTable(kind, same, table)
    ensures Clean(same, table, RedactText(same, table, s))
  {
    NormaliseDropsBackslashes(s);
    RewriteClears(kind, same, table, Normalise(s));
    RewriteKeepsOut(same, table, Normalise(s), '\\');
  }

  lemma {:induction false} CleanIsUntouched(same: Same, table: seq<Entry>, s: string)
    requires (forall e :: e in table ==> e.path != "") && Clean(same, table, s)
    ensures Rewrite(same, table, s) == s
  {
    if table != [] {
      AbsentIsUntouched(same, table[0].path, table[0].token, s);
      CleanIsUntouched(same, table[1..], s);
    }
  }

  lemma NoBackslashIsNormal(s: string)
    requires '\\' !in s
    ensures Normalise(s) == s
  {
    forall i: nat ensures !MatchAt(Exactly(), "\\\\", s, i) && !MatchAt(Exactly(), "\\", s, i) {
      assert i < |s| ==> !Exactly()("\\\\"[0], s[i + 0]) && !Exactly()("\\"[0], s[i + 0]);
    }
    AbsentIsUntouched(Exactly(), "\\\\", "/", s);
    AbsentIsUntouched(Exactly(), "\\", "/", s);
  }

  // ---------------------------------------------------------------- whole values

  ghost predicate CleanValue(same: Same, table: seq<Entry>, value: Node) {
    match value
    case Str(s) => Clean(same, table, s)
    case Arr(items) => forall i :: 0 <= i < |items| ==> CleanValue(same, table, items[i])
    case Obj(members) => forall i :: 0 <= i < |members| ==> CleanValue(same, table, members[i].1)
    case Atom(_) => true
  }

  /** Equal up to the contents of string leaves; members keep their keys and order. */
  ghost predicate SameShape(v: Node, w: Node) {
    match v
    case Str(_) => w.Str?
    case Arr(items) =>
      && w.Arr? && |w.items| == |items|
      && forall i :: 0 <= i < |items| ==> SameShape(items[i], w.items[i])
    case Obj(members) =>
      && w.Obj? && |w.members| == |members|
      && forall i :: 0 <= i < |members| ==> members[i].0 == w.members[i].0 && SameShape(members[i].1, w.members[i].1)
    case Atom(_) => w == v
  }

  /** No leaf at any depth keeps a path; nothing but leaves changes; a second pass changes nothing. */
  lemma {:induction false} RedactIsCleanAndIdempotent(kind: Paths, same: Same, table: seq<Entry>, value: Node)
    requires CaseBlind(same) && SafeTable(kind, same, table)
    ensures CleanValue(same, table, Redact(same, table, value))
    ensures SameShape(value, Redact(same, table, value))
    ensures Redact(same, table, Redact(same, table, value)) == Redact(same, table, value)
  {
    var r := Redact(same, table, value);
    match value
    case Str(s) =>
      RedactTextIsClean(kind, same, table, s);
      NoBackslashIsNormal(r.text);
      CleanIsUntouched(same, table, r.text);
    case Arr(items) =>
      forall i | 0 <= i < |items|
        ensures CleanValue(same, table, r.items[i]) && SameShape(items[i], r.items[i])
        ensures Redact(same, table, r.items[i]) == r.items[i]
      {
        RedactIsCleanAndIdempotent(kind, same, table, items[i]);
      }
      assert Redact(same, table, r).items == r.items;
    case Obj(members) =>
      forall i | 0 <= i < |members|
        ensures CleanValue(same, table, r.members[i].1) && SameShape(members[i].1, r.members[i].1)
        ensures Redact(same, table, r.members[i].1) == r.members[i].1
      {
        RedactIsCleanAndIdempotent(kind, same, table, members[i].1);
      }
      assert Redact(same, table, r).members == r.members;
    case Atom(_) =>
  }

  /** A value without paths or backslashes comes back as it is. */
  lemma {:induction false} CleanValueIsKept(same: Same, table: seq<Entry>, value: Node)
    requires (forall e :: e in table ==> e.path != "") && CleanValue(same, table, value)
    ensures Redact(same, table, value) == value
  {
    match value
    case Str(s) =>
      NoBackslashIsNormal(s);
      CleanIsUntouched(same, table, s);
    case Arr(items) =>
      forall i | 0 <= i < |items| ensures Redact(same, table, items[i]) == items[i] {
        CleanValueIsKept(same, table, items[i]);
      }
      assert Redact(same, table, value).items == items;
    case Obj(members) =>
      forall i | 0 <= i < |members| ensures Redact(same, table, members[i].1) == members[i].1 {
        CleanValueIsKept(same, table, members[i].1);
      }
      assert Redact(same, table, value).members == members;
    case Atom(_) =>
  }

  /** The result has the positions of the value, and a string leaf becomes what its redaction is. */
  lemma {:induction false} LeafIsRedacted(same: Same, table: seq<Entry>, value: Node, p: Position)
    requires forall e :: e in table ==> e.path != ""
    ensures Exists(Redact(same, table, value), p) <==> Exists(value, p)
    ensures Exists(value, p) && At(value, p).Str? ==>
      At(Redact(same, table, value), p) == Str(RedactText(same, table, At(value, p).text))
    decreases |p|
  {
    if p != [] && p[0] < Children(value) {
      LeafIsRedacted(same, table, Child(value, p[0]), p[1..]);
      assert Child(Redact(same, table, value), p[0]) == Redact(same, table, Child(value, p[0]));
    }
  }

  // ---------------------------------------------------------------- which tokens are safe

  /** Every character matches itself, and the protected ones nothing else. */
  ghost predicate Literal(same: Same) {
    && (forall c :: same(c, c))
    && (forall c, d :: same(c, d) && (c in "/\\<>:" || d in "/\\<>:") ==> c == d)
  }

  lemma CaseBlindIsLiteral(same: Same)
    requires CaseBlind(same)
    ensures Literal(same)
  {
    forall c, d | same(c, d) && (c in "/\\<>:" || d in "/\\<>:") ensures c == d {
      assert same(d, c);
    }
  }

  lemma StandsAlone(same: Same, x: char, c: char)
    requires Literal(same) && x in "/\\<>:" && c != x
    ensures !same(x, c) && !same(c, x)
  {
  }

  lemma FirstMatchIs(same: Same, p: string, s: string, m: nat)
    requires p != "" && MatchAt(same, p, s, m) && forall i: nat :: i < m ==> !MatchAt(same, p, s, i)
    ensures FirstMatch(same, p, s) == m
  {
    var k := FirstMatch(same, p, s);
  }

  lemma {:induction false} SubStep(same: Same, p: string, t: string, s: string, m: nat)
    requires p != "" && MatchAt(same, p, s, m) && forall i: nat :: i < m ==> !MatchAt(same, p, s, i)
    ensures Sub(same, p, t, s) == s[..m] + t + Sub(same, p, t, s[m + |p|..])
  {
    assert m < |s|;
    FirstMatchIs(same, p, s, m);
  }

  /** Some text still shows the path after its own replacement. */
  ghost predicate Survives(same: Same, p: string, t: string, s: string) {
    p != "" && Occurs(same, p, Sub(same, p, t, s))
  }

  /** Some path of the kind survives its own replacement by this token in some text. */
  ghost predicate Leaks(kind: Paths, same: Same, t: string) {
    exists p, s :: Resolved(kind, p) && Survives(same, p, t, s)
  }

  lemma {:induction false} LeaksAt(kind: Paths, same: Same, t: string, p: string, s: string)
    requires Resolved(kind, p) && Survives(same, p, t, s)
    ensures Leaks(kind, same, t)
  {
  }

  lemma {:induction false} SurvivesAt(same: Same, p: string, t: string, s: string, r: string, i: nat)
    requires p != "" && Sub(same, p, t, s) == r && MatchAt(same, p, r, i)
    ensures Survives(same, p, t, s)
  {
  }

  lemma {:induction false} ShortIsFree(same: Same, p: string, s: string)
    requires |s| < |p|
    ensures !Occurs(same, p, s)
  {
  }

  /** One match, at a known place, with less than the path behind it. */
  lemma {:induction false} SubOnce(same: Same, p: string, t: string, before: string, rest: string)
    requires p != "" && |rest| < |p| && forall c :: same(c, c)
    requires forall i: nat :: i < |before| ==> !MatchAt(same, p, before + p + rest, i)
    ensures Sub(same, p, t, before + p + rest) == before + t + rest
  {
    var s, m := before + p + rest, |before|;
    assert s[m + |p|..] == rest && s[..m] == before;
    SubStep(same, p, t, s, m);
    ShortIsFree(same, p, rest);
    AbsentIsUntouched(same, p, t, rest);
  }

  /** A token that does not start with a bracket can complete a path on its left. */
  lemma {:induction false} OpenOnTheLeft(kind: Paths, same: Same, t: string)
    requires Literal(same) && AdmissibleToken(t) && t != "" && t[0] !in "<>"
    ensures Leaks(kind, same, t)
  {
    var lead := if kind == Windows then "//a/b/c" else "/a";
    var p := lead + [t[0]];
    LeadIsResolved(kind, lead, t[0]);
    NotInLead(kind, same, lead, t[0]);
    LeadCompletes(same, p, t, lead);
    LeaksAt(kind, same, t, p, lead + p + []);
  }

  lemma {:induction false} LeadCompletes(same: Same, p: string, t: string, lead: string)
    requires Literal(same) && t != "" && p == lead + [t[0]]
    requires forall i: nat :: i < |lead| ==> !MatchAt(same, p, lead + p + [], i)
    ensures Survives(same, p, t, lead + p + [])
  {
    SubOnce(same, p, t, lead, []);
    MatchedPrefix(same, p, lead + t + [], 0);
    SurvivesAt(same, p, t, lead + p + [], lead + t + [], 0);
  }

  lemma {:induction false} MatchedPrefix(same: Same, p: string, r: string, i: nat)
    requires Literal(same) && i + |p| <= |r| && r[i..i + |p|] == p
    ensures MatchAt(same, p, r, i)
  {
    forall k | 0 <= k < |p| ensures same(p[k], r[i + k]) {
      assert r[i..i + |p|][k] == r[i + k];
    }
  }

  lemma LeadIsResolved(kind: Paths, lead: string, c: char)
    requires c !in "/\\<>" && lead == if kind == Windows then "//a/b/c" else "/a"
    ensures Resolved(kind, lead + [c])
  {
    var p := lead + [c];
    assert p[0] == '/';
  }

  lemma {:induction false} NotInLead(kind: Paths, same: Same, lead: string, c: char)
    requires Literal(same) && c !in "/\\<>" && lead == if kind == Windows then "//a/b/c" else "/a"
    ensures forall i: nat :: i < |lead| ==> !MatchAt(same, lead + [c], lead + (lead + [c]) + [], i)
  {
    var p, s := lead + [c], lead + (lead + [c]) + [];
    StandsAlone(same, '/', c);
    StandsAlone(same, '/', 'a');
    StandsAlone(same, '/', 'b');
    StandsAlone(same, '/', 'c');
    if kind == Windows {
      forall i: nat | i < |lead| ensures !MatchAt(same, p, s, i) {
        assert i == 0 ==> s[7] == '/' && !same(p[7], s[0 + 7]);
        assert i > 0 ==> !same(p[0], s[i + 0]) || !same(p[1], s[i + 1]);
      }
    } else {
      assert !same(p[2], s[2]) && !same(p[0], s[1]);
    }
  }

  /** A token that ends in something like a drive letter can complete a path on its right. */
  lemma {:induction false} DriveOnTheRight(same: Same, t: string)
    requires Literal(same) && EndsInDrive(same, t)
    ensures Leaks(Windows, same, t)
  {
    var k: nat := if DriveLetter(same, t[|t| - 1]) then 1 else 2;
    var d :| IsLetter(d) && same(d, t[|t| - k]);
    var p := [d, ':', '/', d];
    DriveIsResolved(d);
    DriveCompleted(same, t, p, k);
    EndCompletes(same, p, t, k);
    LeaksAt(Windows, same, t, p, [] + p + p[k..]);
  }

  lemma {:induction false} EndCompletes(same: Same, p: string, t: string, k: nat)
    requires Literal(same) && 0 < k < |p| && k <= |t|
    requires MatchAt(same, p, [] + t + p[k..], |t| - k)
    ensures Survives(same, p, t, [] + p + p[k..])
  {
    SubOnce(same, p, t, [], p[k..]);
    SurvivesAt(same, p, t, [] + p + p[k..], [] + t + p[k..], |t| - k);
  }

  lemma DriveIsResolved(d: char)
    requires IsLetter(d)
    ensures Resolved(Windows, [d, ':', '/', d])
  {
    var p := [d, ':', '/', d];
    assert p[2] == '/';
  }

  lemma {:induction false} DriveCompleted(same: Same, t: string, p: string, k: nat)
    requires Literal(same) && 1 <= k <= 2 && k <= |t| && |p| == 4
    requires same(p[0], t[|t| - k]) && p[1] == ':' && (k == 2 ==> t[|t| - 1] == ':')
    ensures MatchAt(same, p, [] + t + p[k..], |t| - k)
  {
    var r := [] + t + p[k..];
    assert forall j :: k <= j < 4 ==> r[|t| - k + j] == p[j];
  }

  /** Where any path counts, so can a token that does not end with a bracket. */
  lemma {:induction false} OpenOnTheRight(same: Same, t: string)
    requires Literal(same) && AdmissibleToken(t) && t != "" && t[|t| - 1] !in "<>"
    ensures Leaks(AnyPath, same, t)
  {
    var p := [t[|t| - 1], '/'];
    assert p[1] == '/';
    LastCompleted(same, t, p);
    EndCompletes(same, p, t, 1);
    LeaksAt(AnyPath, same, t, p, [] + p + p[1..]);
  }

  lemma {:induction false} LastCompleted(same: Same, t: string, p: string)
    requires Literal(same) && t != "" && |p| == 2 && p[0] == t[|t| - 1]
    ensures MatchAt(same, p, [] + t + p[1..], |t| - 1)
  {
    var r := [] + t + p[1..];
    assert r[|t| - 1] == p[0] && r[|t|] == p[1];
  }

  /** An empty token closes the gap and can join two halves of a path. */
  lemma {:induction false} EmptyTokenJoins(kind: Paths, same: Same, d: char)
    requires Literal(same) && IsLetter(d)
    ensures Leaks(kind, same, [])
  {
    var half := if kind == Windows then [d, ':'] else ['/', d];
    var other := if kind == Windows then ['/', d] else ['/', d, d];
    var p := half + other;
    HalvesAreResolved(kind, d, half, other);
    NotInHalf(kind, same, d, half, other);
    HalvesJoin(same, p, half, other);
    LeaksAt(kind, same, [], p, half + p + other);
  }

  lemma {:induction false} HalvesJoin(same: Same, p: string, half: string, other: string)
    requires Literal(same) && p == half + other && half != "" && other != ""
    requires forall i: nat :: i < |half| ==> !MatchAt(same, p, half + p + other, i)
    ensures Survives(same, p, [], half + p + other)
  {
    SubOnce(same, p, [], half, other);
    assert half + [] == half;
    SurvivesAt(same, p, [], half + p + other, p, 0);
  }

  lemma HalvesAreResolved(kind: Paths, d: char, half: string, other: string)
    requires IsLetter(d) && half == (if kind == Windows then [d, ':'] else ['/', d])
    requires other == if kind == Windows then ['/', d] else ['/', d, d]
    ensures Resolved(kind, half + other)
  {
    var p := half + other;
    assert p[2] == '/';
  }

  lemma {:induction false} NotInHalf(kind: Paths, same: Same, d: char, half: string, other: string)
    requires Literal(same) && IsLetter(d)
    requires half == if kind == Windows then [d, ':'] else ['/', d]
    requires other == if kind == Windows then ['/', d] else ['/', d, d]
    ensures forall i: nat :: i < |half| ==> !MatchAt(same, half + other, half + (half + other) + other, i)
  {
    var p, s := half + other, half + (half + other) + other;
    StandsAlone(same, '/', d);
    StandsAlone(same, ':', d);
    assert !same(p[0], s[1]) && (if kind == Windows then !same(p[2], s[2]) else !same(p[4], s[4]));
  }

  /** A token that is not closed fails for some path of the kind and some text. */
  lemma {:induction false} OpenTokenFails(kind: Paths, same: Same, t: string)
    requires Literal(same) && AdmissibleToken(t) && !Closed(kind, same, t)
    ensures Leaks(kind, same, t)
  {
    if t == "" {
      EmptyTokenJoins(kind, same, 'a');
    } else if t[0] !in "<>" {
      OpenOnTheLeft(kind, same, t);
    } else if kind == Windows {
      DriveOnTheRight(same, t);
    } else {
      OpenOnTheRight(same, t);
    }
  }

  /** A token is safe for every path of the kind and every text exactly when it is closed. */
  lemma {:induction false} TokenIsSafeIff(kind: Paths, same: Same, t: string)
    requires CaseBlind(same) && AdmissibleToken(t)
    ensures Closed(kind, same, t) <==> forall p, s :: Resolved(kind, p) ==> !Survives(same, p, t, s)
  {
    if Closed(kind, same, t) {
      forall p, s | Resolved(kind, p) ensures !Survives(same, p, t, s) {
        SubCreatesNothing(kind, same, p, p, t, s);
      }
    } else {
      CaseBlindIsLiteral(same);
      OpenTokenFails(kind, same, t);
    }
  }

  // ---------------------------------------------------------------- the most specific token

  /** The whole of `q` is the path `p`, up to case. */
  predicate Alike(same: Same, p: string, q: string) {
    |p| == |q| && forall k :: 0 <= k < |p| ==> same(p[k], q[k])
  }

  function FirstAlike(same: Same, table: seq<Entry>, q: string): (e: Entry)
    requires exists e :: e in table && Alike(same, e.path, q)
    ensures e in table && Alike(same, e.path, q)
  {
    if Alike(same, table[0].path, q) then table[0] else FirstAlike(same, table[1..], q)
  }

  lemma WholeMatch(same: Same, p: string, t: string, q: string)
    requires p != "" && |p| >= |q|
    ensures Sub(same, p, t, q) == if Alike(same, p, q) then t else q
  {
    if Alike(same, p, q) {
      assert MatchAt(same, p, q, 0);
      assert q[|p|..] == "";
      assert Sub(same, p, t, q) == q[..0] + t + Sub(same, p, t, "");
    } else {
      forall i: nat ensures !MatchAt(same, p, q, i) {
        assert i + |p| <= |q| ==> i == 0;
      }
      AbsentIsUntouched(same, p, t, q);
    }
  }

  lemma TokenIsFinal(same: Same, table: seq<Entry>, t: string)
    requires CaseBlind(same) && AdmissibleTable(table) && AdmissibleToken(t)
    ensures Rewrite(same, table, t) == t
  {
    assert forall w :: 0 <= w < |t| ==> t[w] != '/';
    forall e, i: nat | e in table ensures !MatchAt(same, e.path, t, i) {
      if MatchAt(same, e.path, t, i) {
        MatchedStretch(same, e.path, t, i);
      }
    }
    CleanIsUntouched(same, table, t);
  }

  lemma {:induction false} WholePathGetsFirstAlike(same: Same, table: seq<Entry>, q: string)
    requires CaseBlind(same) && AdmissibleTable(table) && Descending(table)
    requires exists e :: e in table && Alike(same, e.path, q)
    ensures Rewrite(same, table, q) == FirstAlike(same, table, q).token
  {
    var e :| e in table && Alike(same, e.path, q);
    assert |table[0].path| >= |e.path|;
    WholeMatch(same, table[0].path, table[0].token, q);
    if Alike(same, table[0].path, q) {
      TokenIsFinal(same, table[1..], table[0].token);
    } else {
      assert e in table[1..];
      WholePathGetsFirstAlike(same, table[1..], q);
    }
  }

  /** A leaf that is a registered path, in any case, becomes the token of its first entry in the table. */
  lemma {:induction false} PathLeafBecomesToken(same: Same, table: seq<Entry>, value: Node, p: Position, k: nat)
    requires CaseBlind(same) && AdmissibleTable(table) && Descending(table)
    requires Exists(value, p) && At(value, p).Str? && '\\' !in At(value, p).text
    requires k < |table| && Alike(same, table[k].path, At(value, p).text)
    requires forall j :: 0 <= j < k ==> !Alike(same, table[j].path, At(value, p).text)
    ensures Exists(Redact(same, table, value), p) && At(Redact(same, table, value), p) == Str(table[k].token)
  {
    LeafIsRedacted(same, table, value, p);
    NoBackslashIsNormal(At(value, p).text);
    WholePathGetsFirstAlike(same, table, At(value, p).text);
    FirstAlikeAt(same, table, At(value, p).text, k);
  }

  lemma {:induction false} FirstAlikeAt(same: Same, table: seq<Entry>, q: string, k: nat)
    requires k < |table| && Alike(same, table[k].path, q) && forall j :: 0 <= j < k ==> !Alike(same, table[j].path, q)
    ensures table[k] in table && FirstAlike(same, table, q) == table[k]
  {
    if k > 0 {
      FirstAlikeAt(same, table[1..], q, k - 1);
    }
  }

  /** Every match of a registered path in `u + q + v` lies within `q`. */
  ghost predicate OnlyWithin(same: Same, table: seq<Entry>, u: string, q: string, v: string) {
    forall e, i: nat :: e in table && MatchAt(same, e.path, u + q + v, i) ==> |u| <= i && i + |e.path| <= |u| + |q|
  }

  lemma OutsideIsFree(same: Same, table: seq<Entry>, p: string, u: string, q: string, v: string)
    requires p != "" && forall i: nat :: MatchAt(same, p, u + q + v, i) ==> |u| <= i && i + |p| <= |u| + |q|
    ensures !Occurs(same, p, u) && !Occurs(same, p, v)
  {
    var s := u + q + v;
    assert s[0..|u|] == u && s[|u| + |q|..|s|] == v;
    forall i: nat ensures !MatchAt(same, p, u, i) && !MatchAt(same, p, v, i) {
      if i + |p| <= |u| {
        MatchWithin(same, p, s, i, 0, |u|);
      }
      if i + |p| <= |v| {
        MatchWithin(same, p, s, |u| + |q| + i, |u| + |q|, |s|);
      }
    }
  }

  /** A path named once in a text becomes the token of its first entry, and all around it stays. */
  lemma {:induction false} PathInText(kind: Paths, same: Same, table: seq<Entry>, u: string, q: string, v: string,
                                      k: nat)
    requires CaseBlind(same) && SafeTable(kind, same, table) && Descending(table) && OnlyWithin(same, table, u, q, v)
    requires k < |table| && Alike(same, table[k].path, q) && forall j :: 0 <= j < k ==> !Alike(same, table[j].path, q)
    requires '\\' !in u + q + v
    ensures RedactText(same, table, u + q + v) == u + table[k].token + v
  {
    NoBackslashIsNormal(u + q + v);
    PathIsRewritten(kind, same, table, u, q, v, k);
  }

  lemma {:induction false} PathIsRewritten(kind: Paths, same: Same, table: seq<Entry>, u: string, q: string, v: string,
                                           k: nat)
    requires CaseBlind(same) && SafeTable(kind, same, table) && Descending(table) && OnlyWithin(same, table, u, q, v)
    requires k < |table| && Alike(same, table[k].path, q) && forall j :: 0 <= j < k ==> !Alike(same, table[j].path, q)
    requires '\\' !in u + q + v
    ensures Rewrite(same, table, u + q + v) == u + table[k].token + v
  {
    assert table[0] in table;
    if k == 0 {
      PathIsReplaced(same, table, table[0], u, q, v);
      TokenTextIsFinal(kind, same, table, u, q, v, table[0].token);
    } else {
      assert |table[0].path| >= |table[k].path|;
      OtherIsAbsent(same, table, table[0], u, q, v);
      assert OnlyWithin(same, table[1..], u, q, v);
      PathIsRewritten(kind, same, table[1..], u, q, v, k - 1);
    }
  }

  lemma {:induction false} PathIsReplaced(same: Same, table: seq<Entry>, e: Entry, u: string, q: string, v: string)
    requires OnlyWithin(same, table, u, q, v) && e in table && e.path != "" && Alike(same, e.path, q)
    ensures Sub(same, e.path, e.token, u + q + v) == u + e.token + v
  {
    var p, s := e.path, u + q + v;
    assert s[..|u|] == u && s[|u| + |p|..] == v && s[|u|..|u| + |p|] == q;
    MatchWithin(same, p, s, |u|, |u|, |u| + |p|);
    SubStep(same, p, e.token, s, |u|);
    OutsideIsFree(same, table, p, u, q, v);
    AbsentIsUntouched(same, p, e.token, v);
  }

  lemma {:induction false} OtherIsAbsent(same: Same, table: seq<Entry>, e: Entry, u: string, q: string, v: string)
    requires OnlyWithin(same, table, u, q, v) && e in table && e.path != ""
    requires |e.path| >= |q| && !Alike(same, e.path, q)
    ensures Sub(same, e.path, e.token, u + q + v) == u + q + v
  {
    var p, s := e.path, u + q + v;
    forall i: nat ensures !MatchAt(same, p, s, i) {
      if MatchAt(same, p, s, i) {
        assert i == |u| && s[|u|..|u| + |q|] == q;
        MatchWithin(same, p, s, |u|, |u|, |u| + |q|);
      }
    }
    AbsentIsUntouched(same, p, e.token, s);
  }

  lemma TokenTextIsFinal(kind: Paths, same: Same, table: seq<Entry>, u: string, q: string, v: string, t: string)
    requires CaseBlind(same) && SafeTable(kind, same, table) && OnlyWithin(same, table, u, q, v) && '\\' !in u + q + v
    requires AdmissibleToken(t) && Closed(kind, same, t) && table != []
    ensures Rewrite(same, table[1..], u + t + v) == u + t + v
  {
    forall e | e in table[1..] ensures !Occurs(same, e.path, u + t + v) {
      assert e in table;
      OutsideIsFree(same, table, e.path, u, q, v);
      TokenIsAWall(kind, same, e.path, u, t, v);
    }
    assert '\\' !in u + t + v;
    CleanIsUntouched(same, table[1..], u + t + v);
  }

  lemma AlikeIsAnEquivalence(same: Same, p: string, q: string, r: string)
    requires CaseBlind(same)
    ensures Alike(same, p, p)
    ensures Alike(same, p, q) ==> Alike(same, q, p)
    ensures Alike(same, p, q) && Alike(same, q, r) ==> Alike(same, p, r)
  {
  }

  lemma {:induction false} FirstAlikeDependsOnClass(same: Same, table: seq<Entry>, p: string, q: string)
    requires CaseBlind(same) && Alike(same, p, q)
    requires exists e :: e in table && Alike(same, e.path, p)
    ensures exists e :: e in table && Alike(same, e.path, q)
    ensures FirstAlike(same, table, p) == FirstAlike(same, table, q)
  {
    forall e | e in table ensures Alike(same, e.path, p) <==> Alike(same, e.path, q) {
      AlikeIsAnEquivalence(same, e.path, p, q);
      AlikeIsAnEquivalence(same, p, q, q);
      AlikeIsAnEquivalence(same, e.path, q, p);
    }
    if !Alike(same, table[0].path, p) {
      var e :| e in table && Alike(same, e.path, p);
      assert e in table[1..];
      FirstAlikeDependsOnClass(same, table[1..], p, q);
    }
  }

  lemma RegisteredPathGetsFirstAlike(same: Same, entries: seq<Entry>, e: Entry)
    requires CaseBlind(same) && AdmissibleTable(entries) && e in entries
    ensures forall f :: f in SortLongestFirst(entries) <==> f in entries
    ensures exists f :: f in SortLongestFirst(entries) && Alike(same, f.path, e.path)
    ensures RedactText(same, SortLongestFirst(entries), e.path)
         == FirstAlike(same, SortLongestFirst(entries), e.path).token
  {
    var table := SortLongestFirst(entries);
    RegistrationSorts(entries, 0);
    assert forall f :: (f in table <==> f in multiset(table)) && (f in entries <==> f in multiset(entries));
    AlikeIsAnEquivalence(same, e.path, e.path, e.path);
    assert e in table && Alike(same, e.path, e.path);
    NoBackslashIsNormal(e.path);
    WholePathGetsFirstAlike(same, table, e.path);
  }

  /** The registered path becomes its own token. */
  ghost predicate GetsOwnToken(same: Same, entries: seq<Entry>, e: Entry)
    requires forall f :: f in SortLongestFirst(entries) ==> f.path != ""
  {
    RedactText(same, SortLongestFirst(entries), e.path) == e.token
  }

  lemma SortMembers(entries: seq<Entry>)
    ensures forall f :: f in SortLongestFirst(entries) <==> f in entries
  {
    RegistrationSorts(entries, 0);
    var table := SortLongestFirst(entries);
    assert forall f :: (f in table <==> f in multiset(table)) && (f in entries <==> f in multiset(entries));
  }

  /**
   Every registered path becomes its own token, whatever shorter paths are registered,
   exactly when no two registered paths that differ at most in case have different tokens.
   */
  lemma MostSpecificTokenIff(same: Same, entries: seq<Entry>)
    requires CaseBlind(same) && AdmissibleTable(entries)
    ensures forall f :: f in SortLongestFirst(entries) <==> f in entries
    ensures (forall e :: e in entries ==> GetsOwnToken(same, entries, e))
       <==> (forall e, f :: e in entries && f in entries && Alike(same, e.path, f.path) ==> e.token == f.token)
  {
    var table := SortLongestFirst(entries);
    SortMembers(entries);
    if forall e, f :: e in entries && f in entries && Alike(same, e.path, f.path) ==> e.token == f.token {
      forall e | e in entries ensures GetsOwnToken(same, entries, e) {
        RegisteredPathGetsFirstAlike(same, entries, e);
        var f := FirstAlike(same, table, e.path);
        assert f in entries && Alike(same, f.path, e.path);
      }
    }
    if forall e :: e in entries ==> GetsOwnToken(same, entries, e) {
      forall e, f | e in entries && f in entries && Alike(same, e.path, f.path) ensures e.token == f.token {
        assert GetsOwnToken(same, entries, e) && GetsOwnToken(same, entries, f);
        RegisteredPathGetsFirstAlike(same, entries, e);
        RegisteredPathGetsFirstAlike(same, entries, f);
        FirstAlikeDependsOnClass(same, table, e.path, f.path);
      }
    }
  }

  /** Two directories whose names differ only in case, as a case-sensitive system allows. */
  function CaseSiblings(c: char, d: char): seq<Entry> {
    [Entry(['/', c], "<x>"), Entry(['/', d], "<y>")]
  }

  lemma SiblingsAreResolved(c: char, d: char)
    requires IsLetter(c) && IsLetter(d)
    ensures forall e :: e in CaseSiblings(c, d) ==> Resolved(Posix, e.path) && AdmissibleToken(e.token)
  {
    var entries := CaseSiblings(c, d);
    assert entries[0].path[0] == '/' && entries[1].path[0] == '/';
  }

  lemma SiblingsAreAlike(same: Same, c: char, d: char)
    requires CaseBlind(same) && same(c, d)
    ensures Alike(same, ['/', c], ['/', d])
  {
  }

  /** One of two paths that differ only in case becomes the other's token. */
  lemma {:induction false} CaseSiblingsCollide(same: Same, c: char, d: char)
    requires CaseBlind(same) && IsLetter(c) && IsLetter(d) && same(c, d)
    ensures forall e :: e in SortLongestFirst(CaseSiblings(c, d)) ==> e.path != "" && Resolved(Posix, e.path)
    ensures exists e :: e in CaseSiblings(c, d) && !GetsOwnToken(same, CaseSiblings(c, d), e)
  {
    var entries := CaseSiblings(c, d);
    SiblingsAreResolved(c, d);
    SiblingsAreAlike(same, c, d);
    MostSpecificTokenIff(same, entries);
    var e, f := entries[0], entries[1];
    assert e in entries && f in entries && e.token[1] != f.token[1];
  }
}
