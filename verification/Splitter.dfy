/**
 Splitting a gate script on its check banners, and printing a subset of its checks. The
 banner expression is given as a function from a line to the mark it starts with, and the
 check expression as a function from a line to the ids it mentions.
 */
module Splitter {
  import opened Collections

  type Lines = seq<string>

  datatype Mark = Check(id: string) | Done

  type Banner = string -> Option<Mark>

  /** A mark and the lines from its banner up to the next one. */
  datatype Segment = Segment(mark: Mark, body: Lines)

  datatype Parts = NoBanners | Parts(header: Lines, found: map<string, Lines>, footer: Lines)

  datatype SubsetResult =
    | ShapeChanged
    | Unknown(missing: set<string>)
    | Derived(text: Lines, present: set<string>)

  // ---------------------------------------------------------------- cutting

  /** The lines in front of the first banner. */
  function Header(banner: Banner, ls: Lines): (h: Lines)
    ensures |h| <= |ls| && h == ls[..|h|]
    ensures forall i :: 0 <= i < |h| ==> banner(ls[i]).None?
    ensures |h| < |ls| ==> banner(ls[|h|]).Some?
  {
    if ls == [] || banner(ls[0]).Some? then [] else [ls[0]] + Header(banner, ls[1..])
  }

  predicate StartsAtBanner(banner: Banner, ls: Lines) {
    ls == [] || banner(ls[0]).Some?
  }

  function AfterHeader(banner: Banner, ls: Lines): (rest: Lines)
    ensures StartsAtBanner(banner, rest) && Header(banner, ls) + rest == ls
  {
    ls[|Header(banner, ls)|..]
  }

  function FirstSegment(banner: Banner, ls: Lines): Segment
    requires ls != [] && banner(ls[0]).Some?
  {
    Segment(banner(ls[0]).value, [ls[0]] + Header(banner, ls[1..]))
  }

  function Segments(banner: Banner, ls: Lines): seq<Segment>
    requires StartsAtBanner(banner, ls)
    decreases |ls|
  {
    if ls == [] then []
    else [FirstSegment(banner, ls)] + Segments(banner, AfterHeader(banner, ls[1..]))
  }

  /** The segments of a source, behind its header. */
  function Cut(banner: Banner, source: Lines): seq<Segment> {
    Segments(banner, AfterHeader(banner, source))
  }

  function Flatten(segs: seq<Segment>): Lines {
    if segs == [] then [] else segs[0].body + Flatten(segs[1..])
  }

  predicate WellFormed(banner: Banner, seg: Segment) {
    && seg.body != []
    && banner(seg.body[0]) == Some(seg.mark)
    && Header(banner, seg.body[1..]) == seg.body[1..]
  }

  predicate WellCut(banner: Banner, segs: seq<Segment>) {
    segs == [] || (WellFormed(banner, segs[0]) && WellCut(banner, segs[1..]))
  }

  lemma {:induction false} HeaderOfConcat(banner: Banner, h: Lines, rest: Lines)
    requires Header(banner, h) == h && StartsAtBanner(banner, rest)
    ensures Header(banner, h + rest) == h && AfterHeader(banner, h + rest) == rest
  {
    if h == [] {
      assert h + rest == rest;
    } else {
      assert (h + rest)[1..] == h[1..] + rest;
      assert Header(banner, h[1..]) == h[1..];
      HeaderOfConcat(banner, h[1..], rest);
    }
  }

  lemma HeaderOfHeader(banner: Banner, ls: Lines)
    ensures Header(banner, Header(banner, ls)) == Header(banner, ls)
  {
    var h := Header(banner, ls);
    assert forall i :: 0 <= i < |h| ==> h[i] == ls[i];
  }

  lemma Associative(a: Lines, b: Lines, c: Lines)
    ensures a + b + c == a + (b + c)
  {
  }

  lemma FirstSegmentIsWellFormed(banner: Banner, ls: Lines)
    requires ls != [] && banner(ls[0]).Some?
    ensures WellFormed(banner, FirstSegment(banner, ls))
    ensures FirstSegment(banner, ls).body + AfterHeader(banner, ls[1..]) == ls
  {
    var first, h, rest := [ls[0]], Header(banner, ls[1..]), AfterHeader(banner, ls[1..]);
    HeaderOfHeader(banner, ls[1..]);
    assert (first + h)[1..] == h;
    Associative(first, h, rest);
    assert first + ls[1..] == ls;
  }

  lemma FlattenCons(seg: Segment, segs: seq<Segment>)
    ensures Flatten([seg] + segs) == seg.body + Flatten(segs)
  {
    assert ([seg] + segs)[1..] == segs;
  }

  lemma FlattenOne(seg: Segment)
    ensures Flatten([seg]) == seg.body
  {
    FlattenCons(seg, []);
    assert [seg] + [] == [seg] && seg.body + [] == seg.body;
  }

  /** Cutting loses nothing. */
  lemma {:induction false} CutIsComplete(banner: Banner, ls: Lines)
    requires StartsAtBanner(banner, ls)
    ensures Flatten(Segments(banner, ls)) == ls
    ensures WellCut(banner, Segments(banner, ls))
    decreases |ls|
  {
    if ls != [] {
      var first, rest := FirstSegment(banner, ls), AfterHeader(banner, ls[1..]);
      FirstSegmentIsWellFormed(banner, ls);
      CutIsComplete(banner, rest);
      FlattenCons(first, Segments(banner, rest));
      assert ([first] + Segments(banner, rest))[1..] == Segments(banner, rest);
    }
  }

  lemma FirstOfConcat(banner: Banner, seg: Segment, rest: Lines)
    requires WellFormed(banner, seg) && StartsAtBanner(banner, rest)
    ensures var ls := seg.body + rest;
            && banner(ls[0]).Some? && FirstSegment(banner, ls) == seg && AfterHeader(banner, ls[1..]) == rest
  {
    var ls := seg.body + rest;
    HeaderOfConcat(banner, seg.body[1..], rest);
    assert ls[1..] == seg.body[1..] + rest;
    assert [seg.body[0]] + seg.body[1..] == seg.body;
  }

  /** Cutting is unique: lines assembled from segments are cut back into those segments. */
  lemma {:induction false} CutIsUnique(banner: Banner, segs: seq<Segment>)
    requires WellCut(banner, segs)
    ensures StartsAtBanner(banner, Flatten(segs))
    ensures Segments(banner, Flatten(segs)) == segs
  {
    if segs != [] {
      CutIsUnique(banner, segs[1..]);
      FirstOfConcat(banner, segs[0], Flatten(segs[1..]));
      assert [segs[0]] + segs[1..] == segs;
    }
  }

  // ---------------------------------------------------------------- blocks

  /** The dictionary the loop fills: a later block of the same id replaces an earlier one. */
  function Found(segs: seq<Segment>): map<string, Lines> {
    if segs == [] then map[]
    else
      var last := segs[|segs| - 1];
      var before := Found(segs[..|segs| - 1]);
      if last.mark.Check? then before[last.mark.id := last.body] else before
  }

  function LastDone(segs: seq<Segment>): (d: int)
    ensures -1 <= d < |segs|
    ensures d >= 0 ==> segs[d].mark.Done?
    ensures forall i :: d < i < |segs| ==> segs[i].mark.Check?
  {
    if segs == [] then -1
    else if segs[|segs| - 1].mark.Done? then |segs| - 1
    else LastDone(segs[..|segs| - 1])
  }

  /** The footer runs from the last `done` banner to the end of the text. */
  function Footer(segs: seq<Segment>): Lines {
    if LastDone(segs) < 0 then [] else Flatten(segs[LastDone(segs)..])
  }

  function SplitOn(banner: Banner, source: Lines): Parts {
    var segs := Cut(banner, source);
    if segs == [] then NoBanners else Parts(Header(banner, source), Found(segs), Footer(segs))
  }

  /** A banner match: its mark and the line it starts at. */
  datatype Match = Match(mark: Mark, start: nat)

  /** What the banner expression finds, line by line, in text order. */
  function FindAll(banner: Banner, ls: Lines, from: nat): seq<Match> {
    if ls == [] then []
    else
      var rest := FindAll(banner, ls[1..], from + 1);
      if banner(ls[0]).Some? then [Match(banner(ls[0]).value, from)] + rest else rest
  }

  /** The marks of segments and where each starts. */
  ghost function Matches(segs: seq<Segment>, from: nat): (ms: seq<Match>)
    ensures |ms| == |segs|
  {
    if segs == [] then [] else [Match(segs[0].mark, from)] + Matches(segs[1..], from + |segs[0].body|)
  }

  lemma {:induction false} FindAllPastHeader(banner: Banner, h: Lines, rest: Lines, from: nat)
    requires Header(banner, h) == h
    ensures FindAll(banner, h + rest, from) == FindAll(banner, rest, from + |h|)
  {
    if h == [] {
      assert h + rest == rest;
    } else {
      assert Header(banner, h[1..]) == h[1..];
      FindAllPastHeader(banner, h[1..], rest, from + 1);
      assert (h + rest)[1..] == h[1..] + rest;
    }
  }

  lemma OneBannerInSegment(banner: Banner, seg: Segment, rest: Lines, from: nat)
    requires WellFormed(banner, seg)
    ensures FindAll(banner, seg.body + rest, from) == [Match(seg.mark, from)] + FindAll(banner, rest, from + |seg.body|)
  {
    FindAllPastHeader(banner, seg.body[1..], rest, from + 1);
    assert (seg.body + rest)[1..] == seg.body[1..] + rest;
  }

  /** The banners the expression finds are the segments of the cut. */
  lemma {:induction false} FoundBannersAreSegments(banner: Banner, segs: seq<Segment>, from: nat)
    requires WellCut(banner, segs)
    ensures FindAll(banner, Flatten(segs), from) == Matches(segs, from)
  {
    if segs != [] {
      OneBannerInSegment(banner, segs[0], Flatten(segs[1..]), from);
      FoundBannersAreSegments(banner, segs[1..], from + |segs[0].body|);
    }
  }

  lemma {:induction false} FlattenConcat(a: seq<Segment>, b: seq<Segment>)
    ensures Flatten(a + b) == Flatten(a) + Flatten(b)
  {
    if a == [] {
      assert a + b == b;
    } else {
      FlattenConcat(a[1..], b);
      assert (a + b)[1..] == a[1..] + b;
      Associative(a[0].body, Flatten(a[1..]), Flatten(b));
    }
  }

  lemma FlattenFrom(segs: seq<Segment>, i: nat)
    requires i < |segs|
    ensures Flatten(segs[i..]) == segs[i].body + Flatten(segs[i + 1..])
  {
    assert segs[i..][0] == segs[i] && segs[i..][1..] == segs[i + 1..];
  }

  lemma FlattenUpTo(segs: seq<Segment>, i: nat)
    requires i < |segs|
    ensures Flatten(segs[..i + 1]) == Flatten(segs[..i]) + segs[i].body
  {
    assert segs[..i + 1] == segs[..i] + [segs[i]];
    FlattenConcat(segs[..i], [segs[i]]);
    FlattenOne(segs[i]);
  }

  lemma FlattenSplits(segs: seq<Segment>, i: nat)
    requires i < |segs|
    ensures Flatten(segs) == Flatten(segs[..i]) + Flatten(segs[i..])
    ensures Flatten(segs[..i + 1]) == Flatten(segs[..i]) + segs[i].body
    ensures Flatten(segs[i..]) == segs[i].body + Flatten(segs[i + 1..])
  {
    assert segs[..i] + segs[i..] == segs;
    FlattenConcat(segs[..i], segs[i..]);
    FlattenUpTo(segs, i);
    FlattenFrom(segs, i);
  }

  lemma Slices(a: Lines, b: Lines, c: Lines, d: Lines)
    ensures (a + (b + (c + d)))[|a| + |b|..] == c + d
    ensures (a + (b + (c + d)))[|a| + |b|..|a| + |b| + |c|] == c
  {
  }

  function Start(h: Lines, segs: seq<Segment>, i: nat): nat
    requires i <= |segs|
  {
    |h| + |Flatten(segs[..i])|
  }

  lemma {:induction false} MatchStarts(h: Lines, segs: seq<Segment>, i: nat)
    requires i < |segs|
    ensures Matches(segs, |h|)[i] == Match(segs[i].mark, Start(h, segs, i))
    decreases i
  {
    if i == 0 {
      assert segs[..0] == [];
    } else {
      MatchStarts(h + segs[0].body, segs[1..], i - 1);
      assert segs[..i] == [segs[0]] + segs[1..][..i - 1];
      FlattenCons(segs[0], segs[1..][..i - 1]);
    }
  }

  /** A segment's lines are the source between its banner and the next. */
  lemma SegmentLines(h: Lines, segs: seq<Segment>, i: nat)
    requires i < |segs|
    ensures Start(h, segs, i) <= Start(h, segs, i + 1) <= |h + Flatten(segs)|
    ensures (h + Flatten(segs))[Start(h, segs, i)..Start(h, segs, i + 1)] == segs[i].body
    ensures (h + Flatten(segs))[Start(h, segs, i)..] == Flatten(segs[i..])
  {
    FlattenSplits(segs, i);
    Slices(h, Flatten(segs[..i]), segs[i].body, Flatten(segs[i + 1..]));
  }

  /** The footer as far as the first `i` marks decide it. */
  function FooterSoFar(segs: seq<Segment>, i: nat): Lines
    requires i <= |segs|
  {
    if LastDone(segs[..i]) < 0 then [] else Flatten(segs[LastDone(segs[..i])..])
  }

  lemma OneMoreMark(segs: seq<Segment>, i: nat)
    requires i < |segs|
    ensures FooterSoFar(segs, i + 1) == if segs[i].mark.Done? then Flatten(segs[i..]) else FooterSoFar(segs, i)
    ensures Found(segs[..i + 1])
         == if segs[i].mark.Check? then Found(segs[..i])[segs[i].mark.id := segs[i].body] else Found(segs[..i])
  {
    assert segs[..i + 1][..i] == segs[..i];
  }

  /** The range of lines the loop cuts out for the `i`-th match. */
  lemma MatchRange(h: Lines, segs: seq<Segment>, i: nat)
    requires i < |segs|
    ensures var ms, source := Matches(segs, |h|), h + Flatten(segs);
            var end := if i + 1 < |ms| then ms[i + 1].start else |source|;
            && ms[i].mark == segs[i].mark && ms[i].start <= end <= |source|
            && source[ms[i].start..end] == segs[i].body
            && source[ms[i].start..] == Flatten(segs[i..])
  {
    MatchStarts(h, segs, i);
    SegmentLines(h, segs, i);
    if i + 1 < |segs| {
      MatchStarts(h, segs, i + 1);
    } else {
      assert segs[..i + 1] == segs;
    }
  }

  lemma {:induction false} CutOfSource(banner: Banner, source: Lines)
    ensures source == Header(banner, source) + Flatten(Cut(banner, source))
    ensures WellCut(banner, Cut(banner, source))
  {
    CutIsComplete(banner, AfterHeader(banner, source));
  }

  lemma {:induction false} BannersBehind(banner: Banner, h: Lines, segs: seq<Segment>)
    requires Header(banner, h) == h && WellCut(banner, segs)
    ensures FindAll(banner, h + Flatten(segs), 0) == Matches(segs, |h|)
  {
    FindAllPastHeader(banner, h, Flatten(segs), 0);
    FoundBannersAreSegments(banner, segs, |h|);
  }

  lemma {:induction false} BannersOfSource(banner: Banner, source: Lines)
    ensures FindAll(banner, source, 0) == Matches(Cut(banner, source), |Header(banner, source)|)
  {
    CutOfSource(banner, source);
    HeaderOfHeader(banner, source);
    BannersBehind(banner, Header(banner, source), Cut(banner, source));
  }

  /** What one turn of the loop does to the dictionary and the footer. */
  lemma {:induction false} OneMoreMatch(banner: Banner, source: Lines, i: nat)
    requires i < |Cut(banner, source)|
    ensures var segs, ms := Cut(banner, source), FindAll(banner, source, 0);
            && |ms| == |segs| && ms[i].mark == segs[i].mark
            && var start, end := ms[i].start, (if i + 1 < |ms| then ms[i + 1].start else |source|);
               && start <= end <= |source|
               && FooterSoFar(segs, i + 1) == (if ms[i].mark.Done? then source[start..] else FooterSoFar(segs, i))
               && Found(segs[..i + 1])
                  == if ms[i].mark.Check? then Found(segs[..i])[ms[i].mark.id := source[start..end]]
                     else Found(segs[..i])
  {
    CutOfSource(banner, source);
    BannersOfSource(banner, source);
    MatchRange(Header(banner, source), Cut(banner, source), i);
    OneMoreMark(Cut(banner, source), i);
  }

  lemma {:induction false} FirstMatch(banner: Banner, source: Lines)
    ensures var ms := FindAll(banner, source, 0);
            && |ms| == |Cut(banner, source)|
            && (ms != [] ==> ms[0].start <= |source| && source[..ms[0].start] == Header(banner, source))
  {
    BannersOfSource(banner, source);
  }

  /** The dictionary holds the lines of the last block of each id. */
  lemma {:induction false} FoundIsLast(segs: seq<Segment>, id: string, i: nat)
    requires i < |segs| && segs[i].mark == Check(id) && forall j :: i < j < |segs| ==> segs[j].mark != Check(id)
    ensures id in Found(segs) && Found(segs)[id] == segs[i].body
  {
    var n := |segs| - 1;
    if i < n {
      FoundIsLast(segs[..n], id, i);
    }
  }

  lemma {:induction false} FoundIsCheck(segs: seq<Segment>, id: string)
    requires id in Found(segs)
    ensures exists i :: 0 <= i < |segs| && segs[i].mark == Check(id)
  {
    var n := |segs| - 1;
    if segs[n].mark != Check(id) {
      FoundIsCheck(segs[..n], id);
      var i :| 0 <= i < n && segs[..n][i].mark == Check(id);
      assert segs[i].mark == Check(id);
    }
  }

  method Blocks(banner: Banner, source: Lines) returns (r: Parts)
    ensures r == SplitOn(banner, source)
  {
    var marks := FindAll(banner, source, 0);
    FirstMatch(banner, source);
    if marks == [] {
      return NoBanners;
    }
    ghost var segs := Cut(banner, source);
    var header := source[..marks[0].start];
    var found: map<string, Lines>, footer: Lines := map[], [];
    for i := 0 to |marks|
      invariant found == Found(segs[..i]) && footer == FooterSoFar(segs, i)
    {
      OneMoreMatch(banner, source, i);
      var start := marks[i].start;
      var end := if i + 1 < |marks| then marks[i + 1].start else |source|;
      match marks[i].mark
      case Done => footer := source[start..];
      case Check(id) => found := found[id := source[start..end]];
    }
    assert segs[..|marks|] == segs;
    return Parts(header, found, footer);
  }

  // ---------------------------------------------------------------- printing

  predicate DistinctMarks(segs: seq<Segment>) {
    forall i, j :: 0 <= i < j < |segs| ==> segs[i].mark != segs[j].mark
  }

  predicate DoneLast(segs: seq<Segment>) {
    forall i :: 0 <= i < |segs| && segs[i].mark.Done? ==> i == |segs| - 1
  }

  function Checks(segs: seq<Segment>): seq<Segment> {
    if segs == [] then [] else CheckOnly(segs[0]) + Checks(segs[1..])
  }

  /** The ids of the checks in text order. */
  function TextOrder(segs: seq<Segment>): seq<string> {
    if segs == [] then [] else (if segs[0].mark.Check? then [segs[0].mark.id] else []) + TextOrder(segs[1..])
  }

  function Pick(found: map<string, Lines>, order: seq<string>): seq<Segment>
    requires forall id :: id in order ==> id in found
  {
    seq(|order|, i requires 0 <= i < |order| => Segment(Check(order[i]), found[order[i]]))
  }

  function Print(found: map<string, Lines>, order: seq<string>): Lines
    requires forall id :: id in order ==> id in found
  {
    Flatten(Pick(found, order))
  }

  lemma {:induction false} FoundHolds(segs: seq<Segment>)
    requires DistinctMarks(segs)
    ensures forall i :: 0 <= i < |segs| && segs[i].mark.Check? ==>
      segs[i].mark.id in Found(segs) && Found(segs)[segs[i].mark.id] == segs[i].body
    ensures forall id :: id in Found(segs) ==> exists i :: 0 <= i < |segs| && segs[i].mark == Check(id)
  {
    if segs != [] {
      var n := |segs| - 1;
      FoundHolds(segs[..n]);
      forall i | 0 <= i < n && segs[i].mark.Check?
        ensures segs[i].mark.id in Found(segs) && Found(segs)[segs[i].mark.id] == segs[i].body
      {
        assert segs[..n][i] == segs[i];
      }
    }
  }

  lemma PickCons(found: map<string, Lines>, id: string, order: seq<string>)
    requires id in found && forall x :: x in order ==> x in found
    ensures Pick(found, [id] + order) == [Segment(Check(id), found[id])] + Pick(found, order)
  {
  }

  lemma FirstInOrder(segs: seq<Segment>)
    requires segs != []
    ensures TextOrder(segs)
         == if segs[0].mark.Check? then [segs[0].mark.id] + TextOrder(segs[1..]) else TextOrder(segs[1..])
    ensures Checks(segs) == if segs[0].mark.Check? then [segs[0]] + Checks(segs[1..]) else Checks(segs[1..])
  {
  }

  lemma {:induction false} PickTextOrder(found: map<string, Lines>, segs: seq<Segment>)
    requires forall s :: s in segs && s.mark.Check? ==> s.mark.id in found && found[s.mark.id] == s.body
    ensures forall id :: id in TextOrder(segs) ==> id in found
    ensures Pick(found, TextOrder(segs)) == Checks(segs)
  {
    if segs != [] {
      var first, rest := segs[0], segs[1..];
      assert first in segs && forall s :: s in rest ==> s in segs;
      PickTextOrder(found, rest);
      FirstInOrder(segs);
      if first.mark.Check? {
        PickCons(found, first.mark.id, TextOrder(rest));
      }
    }
  }

  function CheckOnly(seg: Segment): seq<Segment> {
    if seg.mark.Check? then [seg] else []
  }

  lemma {:induction false} AllChecks(segs: seq<Segment>)
    requires forall s :: s in segs ==> s.mark.Check?
    ensures Checks(segs) == segs
  {
    if segs != [] {
      AllChecks(segs[1..]);
    }
  }

  // ---------------------------------------------------------------- splitting and printing are inverse

  /** The lines of the script for the checks in `order`. */
  function SubsetText(banner: Banner, source: Lines, order: seq<string>): Lines
    requires forall id :: id in order ==> id in Found(Cut(banner, source))
  {
    Header(banner, source) + Print(Found(Cut(banner, source)), order) + Footer(Cut(banner, source))
  }

  /** Header, blocks in text order and footer put back together. */
  function Reassembled(banner: Banner, source: Lines): Lines
    requires DistinctMarks(Cut(banner, source))
  {
    var segs := Cut(banner, source);
    FoundHolds(segs);
    PickTextOrder(Found(segs), segs);
    SubsetText(banner, source, TextOrder(segs))
  }

  lemma {:induction false} ChecksAround(before: seq<Segment>, done: Segment, after: seq<Segment>)
    requires done.mark.Done?
    requires forall s :: s in before || s in after ==> s.mark.Check?
    ensures Checks(before + [done] + after) == before + after
  {
    var segs := before + [done] + after;
    if before == [] {
      AllChecks(after);
      assert segs[1..] == after && before + after == after;
    } else {
      ChecksAround(before[1..], done, after);
      assert segs[0] == before[0] && segs[1..] == before[1..] + [done] + after;
      assert [before[0]] + (before[1..] + after) == before + after;
    }
  }

  /** What follows the footer's banner is printed twice. */
  lemma PrintedTwice(before: seq<Segment>, done: Segment, after: seq<Segment>)
    requires after != [] ==> after[0].body != []
    ensures Flatten(before + after) + Flatten([done] + after) == Flatten(before + [done] + after) <==> after == []
  {
    FlattenConcat(before, after);
    FlattenConcat(before, [done]);
    FlattenConcat(before + [done], after);
    FlattenConcat([done], after);
    if after == [] {
      assert before + after == before && [done] + after == [done] && before + [done] + after == before + [done];
    } else {
      FlattenSplits(after, 0);
      assert |Flatten(after)| > 0;
    }
  }

  lemma SplitAtDone(segs: seq<Segment>, d: nat)
    requires d < |segs| && DistinctMarks(segs) && segs[d].mark.Done?
    ensures segs == segs[..d] + [segs[d]] + segs[d + 1..] && segs[d..] == [segs[d]] + segs[d + 1..]
    ensures forall s :: s in segs[..d] || s in segs[d + 1..] ==> s.mark.Check?
    ensures DoneLast(segs) <==> segs[d + 1..] == []
  {
    forall i | 0 <= i < |segs| && i != d ensures segs[i].mark.Check? {
      assert segs[i].mark != segs[d].mark;
    }
  }

  lemma ChecksAndFooter(segs: seq<Segment>, banner: Banner)
    requires DistinctMarks(segs) && WellCut(banner, segs)
    ensures Flatten(Checks(segs)) + Footer(segs) == Flatten(segs) <==> DoneLast(segs)
  {
    var d := LastDone(segs);
    if d < 0 {
      AllChecks(segs);
      assert Flatten(segs) + [] == Flatten(segs);
    } else {
      SplitAtDone(segs, d);
      ChecksAround(segs[..d], segs[d], segs[d + 1..]);
      if d + 1 < |segs| {
        WellCutAt(banner, segs, d + 1);
      }
      PrintedTwice(segs[..d], segs[d], segs[d + 1..]);
    }
  }

  lemma {:induction false} WellCutAt(banner: Banner, segs: seq<Segment>, i: nat)
    requires WellCut(banner, segs) && i < |segs|
    ensures WellFormed(banner, segs[i])
  {
    if i > 0 {
      WellCutAt(banner, segs[1..], i - 1);
    }
  }

  /** With no mark repeated, the pieces put back together are the source exactly when `done` is last or absent. */
  lemma ReassemblyIff(banner: Banner, source: Lines)
    requires DistinctMarks(Cut(banner, source))
    ensures Reassembled(banner, source) == source <==> DoneLast(Cut(banner, source))
  {
    var h, segs := Header(banner, source), Cut(banner, source);
    CutIsComplete(banner, AfterHeader(banner, source));
    FoundHolds(segs);
    PickTextOrder(Found(segs), segs);
    ChecksAndFooter(segs, banner);
    var body, footer := Flatten(Checks(segs)), Footer(segs);
    Associative(h, body, footer);
    SamePrefix(h, body + footer, Flatten(segs));
  }

  lemma SamePrefix(h: Lines, a: Lines, b: Lines)
    ensures h + a == h + b <==> a == b
  {
    if h + a == h + b {
      assert (h + a)[|h|..] == a && (h + b)[|h|..] == b;
    }
  }

  // ---------------------------------------------------------------- subsets

  ghost predicate Enumerates(order: seq<string>, keep: set<string>) {
    && (forall i, j :: 0 <= i < j < |order| ==> order[i] != order[j])
    && (forall id :: id in order <==> id in keep)
  }

  function AllMentioned(mentions: string -> set<string>, ls: Lines): set<string> {
    set i, id | 0 <= i < |ls| && id in mentions(ls[i]) :: id
  }

  lemma MentionedIff(mentions: string -> set<string>, ls: Lines)
    ensures forall id :: id in AllMentioned(mentions, ls) <==> exists line :: line in ls && id in mentions(line)
  {
    forall id, line | line in ls && id in mentions(line) ensures id in AllMentioned(mentions, ls) {
      var i :| 0 <= i < |ls| && ls[i] == line;
    }
  }

  ghost predicate Ascending(number: string -> int, order: seq<string>) {
    forall i, j :: 0 <= i < j < |order| ==> number(order[i]) <= number(order[j])
  }

  method Smallest(ids: set<string>, number: string -> int) returns (least: string)
    requires ids != {}
    ensures least in ids && forall id :: id in ids ==> number(least) <= number(id)
  {
    least :| least in ids;
    var todo := ids - {least};
    while todo != {}
      invariant least in ids && todo <= ids
      invariant forall id :: id in ids - todo ==> number(least) <= number(id)
      decreases todo
    {
      var id :| id in todo;
      if number(id) < number(least) {
        least := id;
      }
      todo := todo - {id};
    }
  }

  /** The kept ids in ascending order of their numbers. */
  method Sorted(ids: set<string>, number: string -> int) returns (order: seq<string>)
    ensures Enumerates(order, ids) && Ascending(number, order)
  {
    order := [];
    var todo := ids;
    while todo != {}
      invariant todo <= ids && Enumerates(order, ids - todo) && Ascending(number, order)
      invariant forall a, b :: a in order && b in todo ==> number(a) <= number(b)
      decreases todo
    {
      var id := Smallest(todo, number);
      assert forall i :: 0 <= i < |order| ==> order[i] in order && order[i] != id;
      order, todo := order + [id], todo - {id};
    }
    assert ids - todo == ids;
  }

  /** The blocks joined one after the other. */
  method Printed(found: map<string, Lines>, ids: seq<string>) returns (body: Lines)
    requires forall id :: id in ids ==> id in found
    ensures body == Print(found, ids)
  {
    body := [];
    for i := 0 to |ids|
      invariant body == Print(found, ids[..i])
    {
      assert ids[..i + 1] == ids[..i] + [ids[i]];
      PrintSnoc(found, ids[..i], ids[i]);
      body := body + found[ids[i]];
    }
    assert ids[..|ids|] == ids;
  }

  /**
   The script for the checks in `keep`, printed in ascending order of their numbers; the ids
   the text mentions are read back out of it.
   */
  method Subset(banner: Banner, mentions: string -> set<string>, number: string -> int, source: Lines,
                keep: set<string>)
    returns (r: SubsetResult, ghost order: seq<string>)
    ensures SplitOn(banner, source).NoBanners? ==> r == ShapeChanged
    ensures SplitOn(banner, source).Parts? ==>
      var p := SplitOn(banner, source);
      if keep <= p.found.Keys then
        && Enumerates(order, keep) && Ascending(number, order)
        && var text := p.header + Print(p.found, order) + p.footer;
           r == Derived(text, AllMentioned(mentions, text))
      else r == Unknown(keep - p.found.Keys)
    // The ids read back are those some printed line mentions.
    ensures r.Derived? ==> forall id :: id in r.present <==> exists line :: line in r.text && id in mentions(line)
  {
    order := [];
    var p := Blocks(banner, source);
    if p.NoBanners? {
      return ShapeChanged, order;
    }
    var missing := keep - p.found.Keys;
    if missing != {} {
      return Unknown(missing), order;
    }
    assert forall id :: id in keep ==> id !in missing;
    var ids := Sorted(keep, number);
    assert forall id :: id in ids ==> id in p.found;
    var body := Printed(p.found, ids);
    var text := p.header + body + p.footer;
    MentionedIff(mentions, text);
    return Derived(text, AllMentioned(mentions, text)), ids;
  }

  lemma PrintSnoc(found: map<string, Lines>, order: seq<string>, id: string)
    requires id in found && forall x :: x in order ==> x in found
    ensures Print(found, order + [id]) == Print(found, order) + found[id]
  {
    var last := Segment(Check(id), found[id]);
    assert Pick(found, order + [id]) == Pick(found, order) + [last];
    FlattenConcat(Pick(found, order), [last]);
    FlattenOne(last);
  }

  /** The segments of a subset: the kept checks, then the footer's. */
  function SubsetSegments(segs: seq<Segment>, order: seq<string>): seq<Segment>
    requires forall id :: id in order ==> id in Found(segs)
  {
    Pick(Found(segs), order) + (if LastDone(segs) < 0 then [] else segs[LastDone(segs)..])
  }

  lemma {:induction false} WellCutFrom(banner: Banner, segs: seq<Segment>, i: nat)
    requires WellCut(banner, segs) && i <= |segs|
    ensures WellCut(banner, segs[i..])
  {
    if i > 0 {
      WellCutFrom(banner, segs[1..], i - 1);
      assert segs[1..][i - 1..] == segs[i..];
    } else {
      assert segs[0..] == segs;
    }
  }

  lemma FoundIsWellFormed(banner: Banner, all: seq<Segment>, id: string)
    requires WellCut(banner, all) && DistinctMarks(all) && id in Found(all)
    ensures WellFormed(banner, Segment(Check(id), Found(all)[id]))
  {
    FoundHolds(all);
    var i :| 0 <= i < |all| && all[i].mark == Check(id);
    WellCutAt(banner, all, i);
  }

  lemma WellCutCons(banner: Banner, seg: Segment, segs: seq<Segment>)
    requires WellFormed(banner, seg) && WellCut(banner, segs)
    ensures WellCut(banner, [seg] + segs)
  {
    assert ([seg] + segs)[1..] == segs;
  }

  lemma PickOneMore(found: map<string, Lines>, order: seq<string>, tail: seq<Segment>)
    requires order != [] && forall id :: id in order ==> id in found
    ensures Pick(found, order) + tail == [Segment(Check(order[0]), found[order[0]])] + (Pick(found, order[1..]) + tail)
  {
  }

  lemma {:induction false} WellCutPick(banner: Banner, all: seq<Segment>, order: seq<string>, tail: seq<Segment>)
    requires WellCut(banner, all) && DistinctMarks(all) && WellCut(banner, tail)
    requires forall id :: id in order ==> id in Found(all)
    ensures WellCut(banner, Pick(Found(all), order) + tail)
  {
    if order == [] {
      assert Pick(Found(all), order) + tail == tail;
    } else {
      assert order[0] in order;
      FoundIsWellFormed(banner, all, order[0]);
      WellCutPick(banner, all, order[1..], tail);
      PickOneMore(Found(all), order, tail);
      WellCutCons(banner, Segment(Check(order[0]), Found(all)[order[0]]), Pick(Found(all), order[1..]) + tail);
    }
  }

  /** Splitting a printed subset gives back the same header, exactly the kept checks, and the footer. */
  lemma {:induction false} SubsetResplits(banner: Banner, source: Lines, order: seq<string>)
    requires DistinctMarks(Cut(banner, source))
    requires forall id :: id in order ==> id in Found(Cut(banner, source))
    ensures Header(banner, SubsetText(banner, source, order)) == Header(banner, source)
    ensures Cut(banner, SubsetText(banner, source, order)) == SubsetSegments(Cut(banner, source), order)
  {
    var segs := Cut(banner, source);
    var tail := if LastDone(segs) < 0 then [] else segs[LastDone(segs)..];
    CutIsComplete(banner, AfterHeader(banner, source));
    if LastDone(segs) >= 0 {
      WellCutFrom(banner, segs, LastDone(segs));
    }
    WellCutPick(banner, segs, order, tail);
    FlattenConcat(Pick(Found(segs), order), tail);
    CutIsUnique(banner, SubsetSegments(segs, order));
    HeaderOfHeader(banner, source);
    HeaderOfConcat(banner, Header(banner, source), Flatten(SubsetSegments(segs, order)));
    Associative(Header(banner, source), Print(Found(segs), order), Footer(segs));
  }

  lemma {:induction false} FoundOfPick(found: map<string, Lines>, order: seq<string>)
    requires forall id :: id in order ==> id in found
    ensures Found(Pick(found, order)) == map id | id in order :: found[id]
  {
    if order != [] {
      var n := |order| - 1;
      FoundOfPick(found, order[..n]);
      assert order == order[..n] + [order[n]];
      assert Pick(found, order)[..n] == Pick(found, order[..n]);
    }
  }

  /** The tail of a subset when `done` is last: the footer's segment, or nothing. */
  lemma TailWhenDoneLast(segs: seq<Segment>)
    requires DoneLast(segs)
    ensures LastDone(segs) >= 0
        ==> segs[LastDone(segs)..] == [segs[|segs| - 1]] && Footer(segs) == segs[|segs| - 1].body
  {
    if LastDone(segs) >= 0 {
      var last := segs[|segs| - 1];
      assert segs[LastDone(segs)..] == [last];
      FlattenOne(last);
    }
  }

  lemma ClosingWithDone(checks: seq<Segment>, done: Segment)
    requires done.mark.Done?
    ensures Found(checks + [done]) == Found(checks) && Footer(checks + [done]) == done.body
  {
    var segs := checks + [done];
    assert segs[..|checks|] == checks && segs[|checks|..] == [done];
    FlattenOne(done);
  }

  lemma SplitOfSubsetSegments(segs: seq<Segment>, order: seq<string>)
    requires DoneLast(segs) && forall id :: id in order ==> id in Found(segs)
    ensures Found(SubsetSegments(segs, order)) == map id | id in order :: Found(segs)[id]
    ensures Footer(SubsetSegments(segs, order)) == Footer(segs)
  {
    var pick := Pick(Found(segs), order);
    FoundOfPick(Found(segs), order);
    TailWhenDoneLast(segs);
    if LastDone(segs) < 0 {
      assert SubsetSegments(segs, order) == pick;
    } else {
      ClosingWithDone(pick, segs[|segs| - 1]);
    }
  }

  /** The source's header and footer with exactly the kept blocks. */
  function SubsetParts(banner: Banner, source: Lines, order: seq<string>): Parts
    requires forall id :: id in order ==> id in Found(Cut(banner, source))
  {
    var segs := Cut(banner, source);
    if order == [] && LastDone(segs) < 0 then NoBanners
    else Parts(Header(banner, source), map id | id in order :: Found(segs)[id], Footer(segs))
  }

  /**
   With no mark repeated and `done` last, splitting a printed subset returns the same header
   and footer and exactly the kept blocks.
   */
  lemma {:induction false} SubsetRoundTrip(banner: Banner, source: Lines, order: seq<string>)
    requires DistinctMarks(Cut(banner, source)) && DoneLast(Cut(banner, source))
    requires forall id :: id in order ==> id in Found(Cut(banner, source))
    ensures SplitOn(banner, SubsetText(banner, source, order)) == SubsetParts(banner, source, order)
  {
    var segs := Cut(banner, source);
    SubsetResplits(banner, source, order);
    SplitOfSubsetSegments(segs, order);
    assert SubsetSegments(segs, order) == [] <==> order == [] && LastDone(segs) < 0;
  }

  lemma {:induction false} TextOrderOfPick(found: map<string, Lines>, order: seq<string>, tail: seq<Segment>)
    requires forall id :: id in order ==> id in found
    requires forall s :: s in tail ==> s.mark.Done?
    ensures TextOrder(Pick(found, order) + tail) == order
  {
    var segs := Pick(found, order) + tail;
    if order != [] {
      TextOrderOfPick(found, order[1..], tail);
      assert segs[1..] == Pick(found, order[1..]) + tail;
    } else {
      assert segs == tail;
      NoChecksNoOrder(tail);
    }
  }

  lemma {:induction false} NoChecksNoOrder(tail: seq<Segment>)
    requires forall s :: s in tail ==> s.mark.Done?
    ensures TextOrder(tail) == []
  {
    if tail != [] {
      NoChecksNoOrder(tail[1..]);
    }
  }

  /** The text of a subset decides the order its checks were printed in. */
  lemma {:induction false} SubsetDeterminesOrder(banner: Banner, source: Lines, order: seq<string>)
    requires DistinctMarks(Cut(banner, source)) && DoneLast(Cut(banner, source))
    requires forall id :: id in order ==> id in Found(Cut(banner, source))
    ensures TextOrder(Cut(banner, SubsetText(banner, source, order))) == order
  {
    var segs := Cut(banner, source);
    SubsetResplits(banner, source, order);
    TailWhenDoneLast(segs);
    TextOrderOfPick(Found(segs), order, if LastDone(segs) < 0 then [] else segs[LastDone(segs)..]);
  }

  /** Keeping every check reproduces the source exactly when the ids are printed in text order. */
  lemma {:induction false} KeepAllIffTextOrder(banner: Banner, source: Lines, order: seq<string>)
    requires DistinctMarks(Cut(banner, source)) && DoneLast(Cut(banner, source))
    requires Enumerates(order, Found(Cut(banner, source)).Keys)
    ensures SubsetText(banner, source, order) == source <==> order == TextOrder(Cut(banner, source))
  {
    ReassemblyIff(banner, source);
    SubsetDeterminesOrder(banner, source, order);
  }

  ghost predicate NumbersDistinct(number: string -> int, ids: set<string>) {
    forall a, b :: a in ids && b in ids && number(a) == number(b) ==> a == b
  }

  lemma {:induction false} SameFirst(number: string -> int, ids: set<string>, a: seq<string>, b: seq<string>)
    requires NumbersDistinct(number, ids) && Enumerates(a, ids) && Enumerates(b, ids)
    requires Ascending(number, a) && Ascending(number, b)
    ensures a == [] <==> b == []
    ensures a != [] ==> a[0] == b[0] && a[0] in ids
  {
    assert (b != [] ==> b[0] in ids && b[0] in a) && (a != [] ==> a[0] in ids && a[0] in b);
    if a != [] {
      var i :| 0 <= i < |b| && b[i] == a[0];
      var j :| 0 <= j < |a| && a[j] == b[0];
      assert number(a[0]) <= number(a[j]) && number(b[0]) <= number(b[i]);
    }
  }

  lemma {:induction false} TailIsSorted(number: string -> int, ids: set<string>, a: seq<string>)
    requires a != [] && NumbersDistinct(number, ids) && Enumerates(a, ids) && Ascending(number, a)
    ensures NumbersDistinct(number, ids - {a[0]}) && Enumerates(a[1..], ids - {a[0]}) && Ascending(number, a[1..])
  {
    forall id | id in ids - {a[0]} ensures id in a[1..] {
      var i :| 0 <= i < |a| && a[i] == id;
      assert a[1..][i - 1] == id;
    }
  }

  lemma SameTailSame(a: seq<string>, b: seq<string>)
    requires a != [] && b != [] && a[0] == b[0] && a[1..] == b[1..]
    ensures a == b
  {
    assert a == [a[0]] + a[1..] && b == [b[0]] + b[1..];
  }

  /** The sort leaves one order only. */
  lemma {:induction false} SortedOnce(number: string -> int, ids: set<string>, a: seq<string>, b: seq<string>)
    requires NumbersDistinct(number, ids) && Enumerates(a, ids) && Enumerates(b, ids)
    requires Ascending(number, a) && Ascending(number, b)
    ensures a == b
    decreases |a|
  {
    SameFirst(number, ids, a, b);
    if a != [] {
      TailIsSorted(number, ids, a);
      TailIsSorted(number, ids, b);
      SortedOnce(number, ids - {a[0]}, a[1..], b[1..]);
      SameTailSame(a, b);
    }
  }

  lemma {:induction false} TextOrderEnumerates(segs: seq<Segment>)
    requires DistinctMarks(segs)
    ensures forall id :: id in TextOrder(segs) <==> exists i :: 0 <= i < |segs| && segs[i].mark == Check(id)
    ensures forall i, j :: 0 <= i < j < |TextOrder(segs)| ==> TextOrder(segs)[i] != TextOrder(segs)[j]
  {
    if segs != [] {
      var rest := segs[1..];
      TextOrderEnumerates(rest);
      forall id ensures (exists i :: 0 <= i < |segs| && segs[i].mark == Check(id))
                   <==> segs[0].mark == Check(id) || (exists i :: 0 <= i < |rest| && rest[i].mark == Check(id)) {
        if i :| 0 <= i < |rest| && rest[i].mark == Check(id) {
          assert segs[i + 1].mark == Check(id);
        }
        if i :| 0 < i < |segs| && segs[i].mark == Check(id) {
          assert rest[i - 1].mark == Check(id);
        }
      }
    }
  }

  /**
   With ids whose numbers differ, keeping every check reproduces the source exactly when the
   ids ascend numerically in the text.
   */
  lemma {:induction false} KeepAllIffAscending(banner: Banner, source: Lines, number: string -> int, order: seq<string>)
    requires DistinctMarks(Cut(banner, source)) && DoneLast(Cut(banner, source))
    requires Enumerates(order, Found(Cut(banner, source)).Keys) && Ascending(number, order)
    requires NumbersDistinct(number, Found(Cut(banner, source)).Keys)
    ensures SubsetText(banner, source, order) == source <==> Ascending(number, TextOrder(Cut(banner, source)))
  {
    var segs := Cut(banner, source);
    KeepAllIffTextOrder(banner, source, order);
    FoundHolds(segs);
    TextOrderEnumerates(segs);
    if Ascending(number, TextOrder(segs)) {
      SortedOnce(number, Found(segs).Keys, order, TextOrder(segs));
    }
  }

  // ---------------------------------------------------------------- scripts that do not come back

  lemma CutOfTwo(banner: Banner, a: string, b: string)
    requires banner(a).Some? && banner(b).Some?
    ensures Header(banner, [a, b]) == []
    ensures Cut(banner, [a, b]) == [Segment(banner(a).value, [a]), Segment(banner(b).value, [b])]
  {
    var s, t := Segment(banner(a).value, [a]), Segment(banner(b).value, [b]);
    assert WellFormed(banner, s) && WellFormed(banner, t);
    assert [s, t][1..] == [t] && [t][1..] == [];
    FlattenOne(t);
    FlattenCons(s, [t]);
    assert [s] + [t] == [s, t] && [a] + [b] == [a, b];
    CutIsUnique(banner, [s, t]);
    assert AfterHeader(banner, [a, b]) == [a, b];
  }

  /** A `done` block in front of a check is printed with that check, which then stands twice. */
  lemma {:induction false} DoneFirstComesBackLonger(banner: Banner, done: string, check: string)
    requires banner(done) == Some(Done) && banner(check).Some? && banner(check).value.Check?
    ensures DistinctMarks(Cut(banner, [done, check])) && Reassembled(banner, [done, check]) != [done, check]
  {
    CutOfTwo(banner, done, check);
    assert Cut(banner, [done, check])[0].mark.Done?;
    ReassemblyIff(banner, [done, check]);
  }

  lemma OrderOfTwo(segs: seq<Segment>)
    requires |segs| == 2 && segs[0].mark.Check? && segs[1].mark.Check?
    ensures TextOrder(segs) == [segs[0].mark.id, segs[1].mark.id]
  {
    FirstInOrder(segs);
    FirstInOrder(segs[1..]);
    assert segs[1..][1..] == [];
  }

  lemma FoundOfTwo(segs: seq<Segment>)
    requires |segs| == 2 && segs[0].mark.Check? && segs[1].mark.Check? && DistinctMarks(segs)
    ensures Found(segs).Keys == {segs[0].mark.id, segs[1].mark.id}
  {
    FoundHolds(segs);
  }

  /** Two checks whose numbers descend come back in another order. */
  lemma {:induction false} DescendingComesBackSorted(banner: Banner, number: string -> int, a: string, b: string,
                                                     order: seq<string>)
    requires banner(a).Some? && banner(b).Some? && banner(a).value.Check? && banner(b).value.Check?
    requires number(banner(a).value.id) > number(banner(b).value.id)
    requires Enumerates(order, {banner(a).value.id, banner(b).value.id}) && Ascending(number, order)
    ensures Found(Cut(banner, [a, b])).Keys == {banner(a).value.id, banner(b).value.id}
    ensures SubsetText(banner, [a, b], order) != [a, b]
  {
    CutOfTwo(banner, a, b);
    var segs := Cut(banner, [a, b]);
    assert segs[0].mark != segs[1].mark && DistinctMarks(segs) && DoneLast(segs);
    FoundOfTwo(segs);
    OrderOfTwo(segs);
    DescendingPair(number, segs[0].mark.id, segs[1].mark.id);
    KeepAllIffAscending(banner, [a, b], number, order);
  }

  lemma DescendingPair(number: string -> int, x: string, y: string)
    requires number(x) > number(y)
    ensures !Ascending(number, [x, y])
  {
    assert number([x, y][0]) > number([x, y][1]);
  }
}
