/**
 A script as text: cut into lines at newlines and joined again. A subset printed as text is
 cut back into the lines it was printed from.
 */
module ScriptText {
  import opened Splitter

  function LineEnd(s: string): (k: nat)
    requires s != ""
    ensures 0 < k <= |s|
    ensures forall i :: 0 <= i < k - 1 ==> s[i] != '\n'
    ensures s[k - 1] == '\n' || k == |s|
  {
    if s[0] == '\n' || |s| == 1 then 1
    else
      var k := 1 + LineEnd(s[1..]);
      assert forall i :: 1 <= i < k ==> s[i] == s[1..][i - 1];
      k
  }

  /** The lines of a text, each with its newline. */
  function SplitLines(s: string): Lines
    decreases |s|
  {
    if s == "" then [] else [s[..LineEnd(s)]] + SplitLines(s[LineEnd(s)..])
  }

  function Join(ls: Lines): string {
    if ls == [] then "" else ls[0] + Join(ls[1..])
  }

  predicate Terminated(l: string) {
    l != "" && l[|l| - 1] == '\n' && forall i :: 0 <= i < |l| - 1 ==> l[i] != '\n'
  }

  predicate Unterminated(l: string) {
    l != "" && forall i :: 0 <= i < |l| ==> l[i] != '\n'
  }

  /** Every line ends in its only newline, except that the last may have none. */
  predicate Proper(ls: Lines) {
    ls == [] || ((Terminated(ls[0]) || (|ls| == 1 && Unterminated(ls[0]))) && Proper(ls[1..]))
  }

  predicate AllTerminated(ls: Lines) {
    forall l :: l in ls ==> Terminated(l)
  }

  lemma FirstLine(s: string, k: nat)
    requires 0 < k <= |s| && (s[k - 1] == '\n' || k == |s|)
    requires forall i :: 0 <= i < k - 1 ==> s[i] != '\n'
    ensures Terminated(s[..k]) || (Unterminated(s[..k]) && k == |s|)
  {
  }

  lemma JoinCons(l: string, ls: Lines)
    ensures Join([l] + ls) == l + Join(ls)
  {
    assert ([l] + ls)[1..] == ls;
  }

  lemma {:induction false} SplitLinesStep(s: string, k: nat)
    requires s != "" && k == LineEnd(s)
    ensures SplitLines(s) == [s[..k]] + SplitLines(s[k..]) && s[..k] + s[k..] == s
  {
  }

  /** Cutting a text into lines loses nothing. */
  lemma {:induction false} JoinSplitLines(s: string)
    ensures Join(SplitLines(s)) == s
    decreases |s|
  {
    if s != "" {
      var k := LineEnd(s);
      SplitLinesStep(s, k);
      JoinCons(s[..k], SplitLines(s[k..]));
      JoinSplitLines(s[k..]);
    }
  }

  lemma {:induction false} SplitLinesIsProper(s: string)
    ensures Proper(SplitLines(s))
    decreases |s|
  {
    if s != "" {
      var k := LineEnd(s);
      var line, rest := s[..k], SplitLines(s[k..]);
      FirstLine(s, k);
      SplitLinesIsProper(s[k..]);
      assert ([line] + rest)[1..] == rest;
    }
  }

  lemma LineEndOfConcat(l: string, rest: string)
    requires Terminated(l) || (Unterminated(l) && rest == "")
    ensures LineEnd(l + rest) == |l|
  {
    var s, k := l + rest, LineEnd(l + rest);
    assert forall i :: 0 <= i < |l| ==> s[i] == l[i];
  }

  lemma SplitOffLine(l: string, rest: string)
    requires Terminated(l) || (Unterminated(l) && rest == "")
    ensures SplitLines(l + rest) == [l] + SplitLines(rest)
  {
    LineEndOfConcat(l, rest);
    assert (l + rest)[..|l|] == l && (l + rest)[|l|..] == rest;
  }

  /** Proper lines survive being joined and split. */
  lemma {:induction false} SplitLinesJoin(ls: Lines)
    requires Proper(ls)
    ensures SplitLines(Join(ls)) == ls
  {
    if ls != [] {
      SplitOffLine(ls[0], Join(ls[1..]));
      SplitLinesJoin(ls[1..]);
      assert [ls[0]] + ls[1..] == ls;
    }
  }

  lemma {:induction false} JoinConcat(a: Lines, b: Lines)
    ensures Join(a + b) == Join(a) + Join(b)
  {
    if a == [] {
      assert a + b == b && "" + Join(b) == Join(b);
    } else {
      JoinConcat(a[1..], b);
      assert (a + b)[1..] == a[1..] + b;
      assert a[0] + (Join(a[1..]) + Join(b)) == a[0] + Join(a[1..]) + Join(b);
    }
  }

  lemma {:induction false} ProperParts(a: Lines, b: Lines)
    requires b != []
    ensures Proper(a + b) <==> AllTerminated(a) && Proper(b)
  {
    if a == [] {
      assert a + b == b;
    } else {
      ProperParts(a[1..], b);
      assert (a + b)[1..] == a[1..] + b;
      assert AllTerminated(a) <==> Terminated(a[0]) && AllTerminated(a[1..]);
    }
  }

  lemma {:induction false} LinesOfFlatten(segs: seq<Segment>, s: Segment)
    requires s in segs
    ensures forall l :: l in s.body ==> l in Flatten(segs)
  {
    if s != segs[0] {
      LinesOfFlatten(segs[1..], s);
    }
  }

  lemma {:induction false} FlattenTerminated(segs: seq<Segment>)
    requires forall s :: s in segs ==> AllTerminated(s.body)
    ensures AllTerminated(Flatten(segs))
  {
    if segs != [] {
      FlattenTerminated(segs[1..]);
    }
  }

  /** With no mark repeated and `done` last or absent, the pieces put back together are the source text. */
  lemma ReassembledTextIsSource(banner: Banner, source: string)
    requires DistinctMarks(Cut(banner, SplitLines(source)))
    requires DoneLast(Cut(banner, SplitLines(source)))
    ensures Join(Reassembled(banner, SplitLines(source))) == source
  {
    ReassemblyIff(banner, SplitLines(source));
    JoinSplitLines(source);
  }

  ghost predicate ClosedByDone(segs: seq<Segment>) {
    DistinctMarks(segs) && DoneLast(segs) && LastDone(segs) >= 0
  }

  /**
   For a script whose `done` banner is last, any subset printed as text is cut back into the
   very lines it was printed from, so splitting the text is splitting those lines.
   */
  lemma {:induction false} SubsetTextKeepsLines(banner: Banner, source: string, order: seq<string>)
    requires ClosedByDone(Cut(banner, SplitLines(source)))
    requires forall id :: id in order ==> id in Found(Cut(banner, SplitLines(source)))
    ensures var ls := SplitLines(source);
            var text := SubsetText(banner, ls, order);
            SplitLines(Join(text)) == text && SplitOn(banner, SplitLines(Join(text))) == SubsetParts(banner, ls, order)
  {
    var ls := SplitLines(source);
    var h, segs := Header(banner, ls), Cut(banner, ls);
    var before, footer := segs[..|segs| - 1], Footer(segs);
    SplitLinesIsProper(source);
    CutIsComplete(banner, AfterHeader(banner, ls));
    TailWhenDoneLast(segs);
    WellCutAt(banner, segs, |segs| - 1);
    FlattenSplits(segs, |segs| - 1);
    FlattenOne(segs[|segs| - 1]);
    Associative(h, Flatten(before), footer);
    ProperParts(h + Flatten(before), footer);
    PrintedAreTerminated(h, segs, order);
    ProperParts(h + Print(Found(segs), order), footer);
    SplitLinesJoin(h + Print(Found(segs), order) + footer);
    SubsetRoundTrip(banner, ls, order);
  }

  /** Where `done` closes the script, every check stands in front of it. */
  lemma ChecksStandBefore(segs: seq<Segment>, i: nat)
    requires ClosedByDone(segs) && i < |segs| && segs[i].mark.Check?
    ensures i < |segs| - 1 && segs[i] in segs[..|segs| - 1]
  {
    assert LastDone(segs) == |segs| - 1;
    assert segs[..|segs| - 1][i] == segs[i];
  }

  lemma FoundIsTerminated(segs: seq<Segment>, id: string)
    requires ClosedByDone(segs) && id in Found(segs) && AllTerminated(Flatten(segs[..|segs| - 1]))
    ensures AllTerminated(Found(segs)[id])
  {
    FoundHolds(segs);
    var i: nat :| i < |segs| && segs[i].mark == Check(id);
    ChecksStandBefore(segs, i);
    LinesOfFlatten(segs[..|segs| - 1], segs[i]);
  }

  lemma PrintedAreTerminated(h: Lines, segs: seq<Segment>, order: seq<string>)
    requires ClosedByDone(segs) && AllTerminated(h + Flatten(segs[..|segs| - 1]))
    requires forall id :: id in order ==> id in Found(segs)
    ensures AllTerminated(h + Print(Found(segs), order))
  {
    var lines := Flatten(segs[..|segs| - 1]);
    assert forall l :: l in h || l in lines ==> l in h + lines;
    var pick := Pick(Found(segs), order);
    forall s | s in pick ensures AllTerminated(s.body) {
      FoundIsTerminated(segs, s.mark.id);
    }
    FlattenTerminated(pick);
  }
}
