/**
 Splitting the body of a CREATE TABLE into column definitions: commas count only outside
 parentheses.
 */
module Columns {
  datatype Column = Column(name: string, definition: string)

  /** A blank definition has no first word, and asking for it fails. */
  datatype Parsed = Columns(columns: seq<Column>) | IndexError

  function DepthAfter(c: char, depth: int): int {
    if c == '(' then depth + 1 else if c == ')' then depth - 1 else depth
  }

  function Depth(s: string, depth: int): int {
    if s == "" then depth else Depth(s[1..], DepthAfter(s[0], depth))
  }

  /** No comma of `s` stands at running depth 0. */
  predicate NoTopComma(s: string, depth: int) {
    s == "" || (!(s[0] == ',' && depth == 0) && NoTopComma(s[1..], DepthAfter(s[0], depth)))
  }

  /** The pieces between top-level commas, unstripped; `buf` is what the current piece holds. */
  function Pieces(s: string, depth: int, buf: string): (ps: seq<string>)
    ensures |ps| > 0
    decreases |s|
  {
    if s == "" then [buf]
    else if s[0] == ',' && depth == 0 then [buf] + Pieces(s[1..], 0, "")
    else Pieces(s[1..], DepthAfter(s[0], depth), buf + [s[0]])
  }

  function Join(ps: seq<string>): string
    requires |ps| > 0
  {
    if |ps| == 1 then ps[0] else ps[0] + "," + Join(ps[1..])
  }

  // ---------------------------------------------------------------- stripping

  type Space = char -> bool

  function StripLeft(space: Space, s: string): string {
    if s != "" && space(s[0]) then StripLeft(space, s[1..]) else s
  }

  function StripRight(space: Space, s: string): string {
    if s != "" && space(s[|s| - 1]) then StripRight(space, s[..|s| - 1]) else s
  }

  function Strip(space: Space, s: string): string {
    StripRight(space, StripLeft(space, s))
  }

  predicate Blank(space: Space, s: string) {
    forall i :: 0 <= i < |s| ==> space(s[i])
  }

  function FirstWord(space: Space, s: string): string {
    if s == "" || space(s[0]) then "" else [s[0]] + FirstWord(space, s[1..])
  }

  function StripAll(space: Space, ps: seq<string>): (r: seq<string>)
    ensures |r| == |ps|
  {
    seq(|ps|, i requires 0 <= i < |ps| => Strip(space, ps[i]))
  }

  /** Every piece but the last is kept whatever it holds; a blank last piece is dropped. */
  function Definitions(space: Space, body: string): seq<string> {
    var ps := Pieces(body, 0, "");
    var last := Strip(space, ps[|ps| - 1]);
    StripAll(space, ps[..|ps| - 1]) + (if last != "" then [last] else [])
  }

  /** Table constraints are passed over; every other definition gives a name. */
  function Named(space: Space, constraint: string -> bool, defs: seq<string>): Parsed {
    if defs == [] then Columns([])
    else match Named(space, constraint, defs[..|defs| - 1])
      case IndexError => IndexError
      case Columns(before) =>
        var c := defs[|defs| - 1];
        if constraint(c) then Columns(before)
        else if c == "" then IndexError
        else Columns(before + [Column(FirstWord(space, c), c)])
  }

  /** The character loop: depth, buffer and the pieces cut so far. */
  method SplitBody(space: Space, body: string) returns (cols: seq<string>)
    ensures cols == Definitions(space, body)
  {
    cols := [];
    var depth: int, buf: string := 0, "";
    ghost var raw: seq<string> := [];
    ghost var all := Pieces(body, 0, "");
    for i := 0 to |body|
      invariant raw + Pieces(body[i..], depth, buf) == all
      invariant cols == StripAll(space, raw)
    {
      var ch := body[i];
      assert body[i..][0] == ch && body[i..][1..] == body[i + 1..];
      depth := DepthAfter(ch, depth);
      if ch == ',' && depth == 0 {
        cols := cols + [Strip(space, buf)];
        raw := raw + [buf];
        buf := "";
      } else {
        buf := buf + [ch];
      }
    }
    assert all == raw + [buf] && all[..|raw|] == raw;
    if Strip(space, buf) != "" {
      cols := cols + [Strip(space, buf)];
    }
  }

  method ParseColumns(space: Space, constraint: string -> bool, body: string) returns (r: Parsed)
    ensures r == Named(space, constraint, Definitions(space, body))
  {
    var cols := SplitBody(space, body);
    var out: seq<Column> := [];
    for i := 0 to |cols|
      invariant Named(space, constraint, cols[..i]) == Columns(out)
    {
      assert cols[..i + 1][..i] == cols[..i];
      if !constraint(cols[i]) {
        if cols[i] == "" {
          NamedFails(space, constraint, cols, i);
          return IndexError;
        }
        out := out + [Column(FirstWord(space, cols[i]), cols[i])];
      }
    }
    assert cols[..|cols|] == cols;
    return Columns(out);
  }

  lemma {:induction false} NamedFails(space: Space, constraint: string -> bool, defs: seq<string>, i: nat)
    requires i < |defs| && Named(space, constraint, defs[..i + 1]) == IndexError
    ensures Named(space, constraint, defs) == IndexError
  {
    if i + 1 == |defs| {
      assert defs[..i + 1] == defs;
    } else {
      var init := defs[..|defs| - 1];
      assert init[..i + 1] == defs[..i + 1];
      NamedFails(space, constraint, init, i);
    }
  }

  // ---------------------------------------------------------------- splitting and joining

  /** The unstripped pieces of any body join back to that body. */
  lemma {:induction false} JoinOfPieces(s: string, depth: int, buf: string)
    ensures Join(Pieces(s, depth, buf)) == buf + s
    decreases |s|
  {
    if s == "" {
      assert buf + s == buf;
    } else if s[0] == ',' && depth == 0 {
      JoinOfPieces(s[1..], 0, "");
      var rest := Pieces(s[1..], 0, "");
      assert ([buf] + rest)[1..] == rest;
      assert buf + "," + ("" + s[1..]) == buf + s;
    } else {
      JoinOfPieces(s[1..], DepthAfter(s[0], depth), buf + [s[0]]);
      assert buf + [s[0]] + s[1..] == buf + s;
    }
  }

  /** A stretch without a top-level comma only fills the buffer. */
  lemma {:induction false} StretchFillsBuffer(p: string, rest: string, depth: int, buf: string)
    requires NoTopComma(p, depth)
    ensures Pieces(p + rest, depth, buf) == Pieces(rest, Depth(p, depth), buf + p)
    decreases |p|
  {
    if p == "" {
      assert p + rest == rest && buf + p == buf;
    } else {
      assert (p + rest)[1..] == p[1..] + rest;
      StretchFillsBuffer(p[1..], rest, DepthAfter(p[0], depth), buf + [p[0]]);
      assert buf + [p[0]] + p[1..] == buf + p;
    }
  }

  /** The first piece reaches exactly to the first top-level comma. */
  lemma {:induction false} FirstPiece(s: string, depth: int, buf: string) returns (p: string, rest: string)
    ensures Pieces(s, depth, buf)[0] == buf + p && NoTopComma(p, depth)
    ensures |Pieces(s, depth, buf)| == 1 ==> s == p
    ensures |Pieces(s, depth, buf)| > 1 ==>
      s == p + "," + rest && Depth(p, depth) == 0 && Pieces(s, depth, buf)[1..] == Pieces(rest, 0, "")
    decreases |s|
  {
    if s == "" {
      p, rest := "", "";
      assert buf + p == buf;
    } else if s[0] == ',' && depth == 0 {
      p, rest := "", s[1..];
      assert buf + p == buf && s == p + "," + rest;
    } else {
      var q, r := FirstPiece(s[1..], DepthAfter(s[0], depth), buf + [s[0]]);
      p, rest := [s[0]] + q, r;
      assert p[1..] == q && buf + [s[0]] + q == buf + p;
      assert s == [s[0]] + s[1..];
      assert [s[0]] + (q + "," + rest) == p + "," + rest;
    }
  }

  /** Top-level commas only between the pieces, and every piece but the last balanced. */
  predicate WellSplit(ps: seq<string>) {
    forall i :: 0 <= i < |ps| ==> NoTopComma(ps[i], 0) && (i < |ps| - 1 ==> Depth(ps[i], 0) == 0)
  }

  lemma WellSplitCons(ps: seq<string>)
    requires |ps| > 1
    ensures WellSplit(ps) <==> NoTopComma(ps[0], 0) && Depth(ps[0], 0) == 0 && WellSplit(ps[1..])
  {
    if NoTopComma(ps[0], 0) && Depth(ps[0], 0) == 0 && WellSplit(ps[1..]) {
      forall i | 0 <= i < |ps| ensures NoTopComma(ps[i], 0) && (i < |ps| - 1 ==> Depth(ps[i], 0) == 0) {
        if i > 0 {
          assert ps[i] == ps[1..][i - 1];
        }
      }
    }
    if WellSplit(ps) {
      forall i | 0 <= i < |ps[1..]|
        ensures NoTopComma(ps[1..][i], 0) && (i < |ps[1..]| - 1 ==> Depth(ps[1..][i], 0) == 0)
      {
        assert ps[1..][i] == ps[i + 1];
      }
    }
  }

  lemma HeadSplitsOff(p: string, tail: string)
    requires NoTopComma(p, 0) && Depth(p, 0) == 0
    ensures Pieces(p + "," + tail, 0, "") == [p] + Pieces(tail, 0, "")
  {
    StretchFillsBuffer(p, "," + tail, 0, "");
    assert p + ("," + tail) == p + "," + tail && "" + p == p && ("," + tail)[1..] == tail;
  }

  lemma LonePiece(p: string)
    ensures Pieces(p, 0, "") == [p] <==> NoTopComma(p, 0)
  {
    var q, rest := FirstPiece(p, 0, "");
    assert "" + q == q;
    if NoTopComma(p, 0) {
      StretchFillsBuffer(p, "", 0, "");
      assert p + "" == p && "" + p == p;
    }
  }

  /** Splitting inverts joining exactly on well-split pieces. */
  lemma {:induction false} SplitInvertsJoinIff(ps: seq<string>)
    requires |ps| > 0
    ensures Pieces(Join(ps), 0, "") == ps <==> WellSplit(ps)
  {
    if |ps| == 1 {
      LonePiece(ps[0]);
      assert [ps[0]] == ps;
    } else {
      var tail := Join(ps[1..]);
      WellSplitCons(ps);
      SplitInvertsJoinIff(ps[1..]);
      assert [ps[0]] + ps[1..] == ps;
      if NoTopComma(ps[0], 0) && Depth(ps[0], 0) == 0 {
        HeadSplitsOff(ps[0], tail);
        assert ([ps[0]] + Pieces(tail, 0, ""))[1..] == Pieces(tail, 0, "");
      } else {
        var p, rest := FirstPiece(Join(ps), 0, "");
        assert "" + p == p;
      }
    }
  }

  // ---------------------------------------------------------------- depth, blanks and first words

  /** Opening brackets less closing ones. */
  function Open(s: string): int {
    (multiset(s)['('] as int) - (multiset(s)[')'] as int)
  }

  lemma {:induction false} DepthIsOpen(s: string, depth: int)
    ensures Depth(s, depth) == depth + Open(s)
  {
    if s != "" {
      DepthIsOpen(s[1..], DepthAfter(s[0], depth));
      assert s == [s[0]] + s[1..];
    }
  }

  /** No comma stands behind as many opening as closing brackets. */
  lemma {:induction false} NoTopCommaIff(s: string, depth: int)
    ensures NoTopComma(s, depth) <==> forall i :: 0 <= i < |s| && s[i] == ',' ==> depth + Open(s[..i]) != 0
  {
    if s != "" {
      NoTopCommaIff(s[1..], DepthAfter(s[0], depth));
      forall i | 0 <= i < |s[1..]| ensures depth + Open(s[..i + 1]) == DepthAfter(s[0], depth) + Open(s[1..][..i]) {
        assert s[..i + 1] == [s[0]] + s[1..][..i];
      }
      assert s[..0] == "" && forall i :: 0 < i < |s| ==> s[i] == s[1..][i - 1];
      if NoTopComma(s, depth) {
        forall i | 0 <= i < |s| && s[i] == ',' ensures depth + Open(s[..i]) != 0 {
          assert i > 0 ==> s[1..][i - 1] == ',' && depth + Open(s[..(i - 1) + 1]) != 0;
        }
      } else {
        if !NoTopComma(s[1..], DepthAfter(s[0], depth)) {
          var i :| 0 <= i < |s[1..]| && s[1..][i] == ',' && DepthAfter(s[0], depth) + Open(s[1..][..i]) == 0;
          assert s[i + 1] == ',' && depth + Open(s[..i + 1]) == 0;
        } else {
          assert s[0] == ',' && depth + Open(s[..0]) == 0;
        }
      }
    }
  }

  /** Blanks, then the text `t` with no blank at either end, then blanks. */
  ghost predicate Padded(space: Space, s: string, t: string) {
    && (t != "" ==> !space(t[0]) && !space(t[|t| - 1]))
    && exists l, r :: Blank(space, l) && Blank(space, r) && s == l + t + r
  }

  lemma {:induction false} StripLeftIs(space: Space, s: string) returns (l: string)
    ensures s == l + StripLeft(space, s) && Blank(space, l)
  {
    l := "";
    if s != "" && space(s[0]) {
      var k := StripLeftIs(space, s[1..]);
      l := [s[0]] + k;
    }
  }

  lemma {:induction false} StripRightIs(space: Space, s: string) returns (r: string)
    ensures s == StripRight(space, s) + r && Blank(space, r)
  {
    r := "";
    if s != "" && space(s[|s| - 1]) {
      var k := StripRightIs(space, s[..|s| - 1]);
      r := k + [s[|s| - 1]];
    }
  }

  lemma {:induction false} StripRightEnds(space: Space, s: string)
    ensures StripRight(space, s) != "" ==> !space(StripRight(space, s)[|StripRight(space, s)| - 1])
  {
    if s != "" && space(s[|s| - 1]) {
      StripRightEnds(space, s[..|s| - 1]);
    }
  }

  /** Stripping takes blanks off both ends, as many as there are, and nothing else. */
  lemma {:induction false} StripTakesBlanks(space: Space, s: string)
    ensures Padded(space, s, Strip(space, s))
  {
    var l := StripLeftIs(space, s);
    var r := StripRightIs(space, StripLeft(space, s));
    StripLeftKeeps(space, s);
    StripRightEnds(space, StripLeft(space, s));
    assert s == l + Strip(space, s) + r;
  }

  /** The first word reaches to the first blank. */
  lemma {:induction false} FirstWordEnds(space: Space, s: string) returns (rest: string)
    ensures s == FirstWord(space, s) + rest
    ensures forall c :: c in FirstWord(space, s) ==> !space(c)
    ensures rest == "" || space(rest[0])
  {
    rest := s;
    if s != "" && !space(s[0]) {
      rest := FirstWordEnds(space, s[1..]);
    }
  }

  // ---------------------------------------------------------------- definitions

  lemma {:induction false} StripOfBlank(space: Space, s: string)
    ensures Strip(space, s) == "" <==> Blank(space, s)
  {
    StripLeftKeeps(space, s);
    StripRightKeeps(space, StripLeft(space, s));
  }

  lemma {:induction false} StripLeftKeeps(space: Space, s: string)
    ensures Blank(space, s) <==> StripLeft(space, s) == ""
    ensures StripLeft(space, s) != "" ==> !space(StripLeft(space, s)[0])
  {
    if s != "" && space(s[0]) {
      StripLeftKeeps(space, s[1..]);
      assert forall i :: 0 < i < |s| ==> s[i] == s[1..][i - 1];
    }
  }

  lemma {:induction false} StripRightKeeps(space: Space, s: string)
    requires s != "" ==> !space(s[0])
    ensures StripRight(space, s) == "" <==> s == ""
  {
    if s != "" && space(s[|s| - 1]) {
      StripRightKeeps(space, s[..|s| - 1]);
    }
  }

  /** Joined definitions come back stripped, when they are well split and the last is not blank. */
  lemma {:induction false} DefinitionsOfJoin(space: Space, ps: seq<string>)
    requires |ps| > 0 && WellSplit(ps) && !Blank(space, ps[|ps| - 1])
    ensures Definitions(space, Join(ps)) == StripAll(space, ps)
  {
    SplitInvertsJoinIff(ps);
    StripOfBlank(space, ps[|ps| - 1]);
    StripAllLast(space, ps);
  }

  lemma StripAllLast(space: Space, ps: seq<string>)
    requires |ps| > 0
    ensures StripAll(space, ps[..|ps| - 1]) + [Strip(space, ps[|ps| - 1])] == StripAll(space, ps)
  {
  }

  lemma {:induction false} NamedFailsIff(space: Space, constraint: string -> bool, defs: seq<string>)
    requires !constraint("")
    ensures Named(space, constraint, defs).IndexError? <==> "" in defs
  {
    if defs != [] {
      NamedFailsIff(space, constraint, defs[..|defs| - 1]);
      assert defs == defs[..|defs| - 1] + [defs[|defs| - 1]];
    }
  }

  /** The parser fails exactly when some piece in front of the last top-level comma is blank. */
  lemma ParseFailsIff(space: Space, constraint: string -> bool, body: string)
    requires !constraint("")
    ensures Named(space, constraint, Definitions(space, body)).IndexError?
       <==> exists i :: 0 <= i < |Pieces(body, 0, "")| - 1 && Blank(space, Pieces(body, 0, "")[i])
  {
    var ps, defs := Pieces(body, 0, ""), Definitions(space, body);
    NamedFailsIff(space, constraint, defs);
    forall i | 0 <= i < |ps| - 1 ensures defs[i] == "" <==> Blank(space, ps[i]) {
      StripOfBlank(space, ps[i]);
    }
    if "" in defs {
      var i :| 0 <= i < |defs| && defs[i] == "";
      assert i < |ps| - 1 && Blank(space, ps[i]);
    }
  }

  /** A body that starts with a comma makes the parser fail, whatever follows. */
  lemma LeadingCommaFails(space: Space, constraint: string -> bool, rest: string)
    requires !constraint("")
    ensures Named(space, constraint, Definitions(space, "," + rest)).IndexError?
  {
    var body := "," + rest;
    assert body[1..] == rest;
    assert Pieces(body, 0, "") == [""] + Pieces(rest, 0, "");
    assert Blank(space, Pieces(body, 0, "")[0]);
    ParseFailsIff(space, constraint, body);
  }
}
