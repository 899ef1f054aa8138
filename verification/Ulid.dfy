/**
 Identifiers: the 128 bits of a UUID written as 26 characters of Crockford base 32, and
 read back.
 */
module Ulid {
  import opened Base32

  const ALPHABET: string := "0123456789ABCDEFGHJKMNPQRSTVWXYZ"
  const ULID_LENGTH: nat := 26
  const TWO_48: nat := 0x1_0000_0000_0000
  const TWO_80: nat := 0x1_0000_0000_0000_0000_0000
  const TWO_125: nat := 0x2000_0000_0000_0000_0000_0000_0000_0000
  const TWO_128: nat := 0x1_0000_0000_0000_0000_0000_0000_0000_0000

  datatype Error = WrongLength | IllegalCharacter(c: char) | Overflow

  datatype Result = Ok(value: nat) | Err(error: Error)

  // ---------------------------------------------------------------- the alphabet

  lemma AlphabetStep(i: nat)
    requires i < 31
    ensures ALPHABET[i] < ALPHABET[i + 1]
  {
  }

  lemma {:induction false} AlphabetAscends(i: Digit, j: Digit)
    requires i < j
    ensures ALPHABET[i] < ALPHABET[j]
    decreases j
  {
    if i < j - 1 {
      AlphabetAscends(i, j - 1);
    }
    AlphabetStep(j - 1);
  }

  lemma AlphabetOrder(i: Digit, j: Digit)
    ensures ALPHABET[i] < ALPHABET[j] <==> i < j
    ensures ALPHABET[i] == ALPHABET[j] <==> i == j
  {
    if i < j {
      AlphabetAscends(i, j);
    } else if j < i {
      AlphabetAscends(j, i);
    }
  }

  lemma AlphabetIsDistinct()
    ensures forall i: Digit, j: Digit :: ALPHABET[i] == ALPHABET[j] ==> i == j
  {
    forall i: Digit, j: Digit | ALPHABET[i] == ALPHABET[j] ensures i == j {
      AlphabetOrder(i, j);
    }
  }

  /** From each character of the alphabet to its position. */
  function DecodeTable(): (table: map<char, Digit>)
    ensures forall i: Digit :: ALPHABET[i] in table && table[ALPHABET[i]] == i
    ensures forall c :: c in table ==> ALPHABET[table[c]] == c
  {
    AlphabetIsDistinct();
    map i: Digit | 0 <= i < 32 :: ALPHABET[i] := i
  }

  /**
   Upper-casing of one character. Besides the ASCII letters one other character has an
   upper case inside the alphabet: the long s. Every other character keeps itself, and
   stays outside the alphabet.
   */
  function Upper(c: char): char {
    if 'a' <= c <= 'z' then c - 'a' + 'A'
    else if c == '\U{017F}' then 'S'
    else c
  }

  predicate Legal(c: char) {
    Upper(c) in DecodeTable()
  }

  function DigitOf(c: char): (d: Digit)
    requires Legal(c)
    ensures ALPHABET[d] == Upper(c)
  {
    DecodeTable()[Upper(c)]
  }

  lemma AlphabetIsUpper(i: Digit)
    ensures Upper(ALPHABET[i]) == ALPHABET[i]
  {
  }

  lemma DigitOfLetter(i: Digit)
    ensures Legal(ALPHABET[i]) && DigitOf(ALPHABET[i]) == i
  {
    AlphabetIsUpper(i);
    var table := DecodeTable();
  }

  predicate IsDigitOrLetter(c: char) {
    '0' <= c <= '9' || ('A' <= c <= 'Z' && c !in {'I', 'L', 'O', 'U'})
  }

  /** Ten digits come first, and the letters follow without I, L, O and U. */
  function Rank(c: char): Digit
    requires IsDigitOrLetter(c)
  {
    if c <= '9' then (c - '0') as int
    else
      var i := (c - 'A') as int + 10;
      if c < 'I' then i else if c < 'L' then i - 1 else if c < 'O' then i - 2 else if c < 'U' then i - 3 else i - 4
  }

  lemma EarlyRank(c: char)
    requires IsDigitOrLetter(c) && c < 'H'
    ensures ALPHABET[Rank(c)] == c
  {
  }

  lemma LateRank(c: char)
    requires IsDigitOrLetter(c) && c >= 'H'
    ensures ALPHABET[Rank(c)] == c
  {
  }

  lemma AlphabetHolds(i: Digit)
    ensures IsDigitOrLetter(ALPHABET[i])
  {
  }

  lemma {:induction false} TableHolds(c: char)
    ensures c in DecodeTable() <==> IsDigitOrLetter(c)
    ensures IsDigitOrLetter(c) ==> DecodeTable()[c] == Rank(c)
  {
    var table := DecodeTable();
    if IsDigitOrLetter(c) {
      if c < 'H' {
        EarlyRank(c);
      } else {
        LateRank(c);
      }
    } else if c in table {
      AlphabetHolds(table[c]);
    }
  }

  /** The characters read: the digits, the letters but I, L, O and U in either case, and the long s. */
  lemma {:induction false} LegalIff(c: char)
    ensures Legal(c) <==>
      || '0' <= c <= '9'
      || ('A' <= c <= 'Z' && c !in {'I', 'L', 'O', 'U'})
      || ('a' <= c <= 'z' && c !in {'i', 'l', 'o', 'u'})
      || c == '\U{017F}'
  {
    TableHolds(Upper(c));
  }

  /** What each character counts: its rank, that of the letter it is the lower-case form of, or that of S. */
  lemma {:induction false} DigitIs(c: char)
    requires Legal(c)
    ensures IsDigitOrLetter(c) ==> DigitOf(c) == Rank(c)
    ensures 'a' <= c <= 'z' ==> IsDigitOrLetter(c - 'a' + 'A') && DigitOf(c) == Rank(c - 'a' + 'A')
    ensures c == '\U{017F}' ==> DigitOf(c) == 25
  {
    TableHolds(Upper(c));
  }

  predicate LowerOf(lower: char, upper: char) {
    'a' <= lower <= 'z' && upper == lower - 'a' + 'A'
  }

  /** The same text with ASCII letters changed in case. */
  predicate SameButCase(s: string, t: string) {
    |s| == |t| && forall i :: 0 <= i < |s| ==> s[i] == t[i] || LowerOf(s[i], t[i]) || LowerOf(t[i], s[i])
  }

  /** A letter and its lower-case form are read alike. */
  lemma {:induction false} CaseIsIgnored(lower: char, upper: char)
    requires LowerOf(lower, upper)
    ensures Legal(lower) <==> Legal(upper)
    ensures Legal(lower) ==> DigitOf(lower) == DigitOf(upper)
  {
    LegalIff(lower);
    LegalIff(upper);
    if Legal(lower) {
      DigitIs(lower);
      DigitIs(upper);
    }
  }

  // ---------------------------------------------------------------- specification

  function Render(ds: seq<Digit>): (s: string)
    ensures |s| == |ds|
  {
    seq(|ds|, i requires 0 <= i < |ds| => ALPHABET[ds[i]])
  }

  predicate AllLegal(s: string) {
    forall i :: 0 <= i < |s| ==> Legal(s[i])
  }

  function Parse(s: string): (ds: seq<Digit>)
    requires AllLegal(s)
    ensures |ds| == |s|
  {
    seq(|s|, i requires 0 <= i < |s| => DigitOf(s[i]))
  }

  function UpperAll(s: string): (r: string)
    ensures |r| == |s|
  {
    seq(|s|, i requires 0 <= i < |s| => Upper(s[i]))
  }

  /** How many characters from the left are legal. */
  function LegalPrefix(s: string): (n: nat)
    ensures n <= |s|
    ensures forall i :: 0 <= i < n ==> Legal(s[i])
    ensures n < |s| ==> !Legal(s[n])
  {
    if s == "" || !Legal(s[0]) then 0
    else
      var n := LegalPrefix(s[1..]);
      assert forall i :: 1 <= i < n + 1 ==> s[i] == s[1..][i - 1];
      1 + n
  }

  function Encoded(value: nat): string {
    Render(Digits(value, ULID_LENGTH))
  }

  function Decoded(s: string): Result {
    if |s| != ULID_LENGTH then Err(WrongLength)
    else if LegalPrefix(s) < |s| then Err(IllegalCharacter(s[LegalPrefix(s)]))
    else if Value(Parse(s)) >= TWO_128 then Err(Overflow)
    else Ok(Value(Parse(s)))
  }

  /** `milliseconds` keeps 48 bits above the ten random bytes. */
  function FreshValue(milliseconds: nat, random: nat): (value: nat)
    requires random < TWO_80
    ensures value < TWO_128
  {
    milliseconds % TWO_48 * TWO_80 + random
  }

  function Fresh(milliseconds: nat, random: nat): string
    requires random < TWO_80
  {
    Encoded(FreshValue(milliseconds, random))
  }

  /** Order of equal-length strings by their first differing character. */
  ghost predicate Before(a: string, b: string)
    requires |a| == |b|
  {
    exists k :: 0 <= k < |a| && a[..k] == b[..k] && a[k] < b[k]
  }

  // ---------------------------------------------------------------- the code

  function Reversed(s: string): (r: string)
    ensures |r| == |s|
  {
    if s == "" then "" else Reversed(s[1..]) + [s[0]]
  }

  method Encode(value: nat) returns (ulid: string)
    ensures ulid == Encoded(value)
  {
    var out, rest := "", value;
    for i := 0 to ULID_LENGTH
      invariant Render(Digits(rest, ULID_LENGTH - i)) + Reversed(out) == Encoded(value)
    {
      RenderSnoc(Digits(rest / 32, ULID_LENGTH - i - 1), rest % 32);
      ReversedSnoc(out, ALPHABET[rest % 32]);
      out := out + [ALPHABET[rest % 32]];
      rest := rest / 32;
    }
    ulid := Reversed(out);
  }

  method Decode(ulid: string) returns (r: Result)
    ensures r == Decoded(ulid)
    ensures r == Err(WrongLength) <==> |ulid| != 26
  {
    if |ulid| != ULID_LENGTH {
      return Err(WrongLength);
    }
    var value: nat := 0;
    for i := 0 to |ulid|
      invariant forall j :: 0 <= j < i ==> Legal(ulid[j])
      invariant value == Value(Parse(ulid[..i]))
    {
      if !Legal(ulid[i]) {
        assert LegalPrefix(ulid) == i;
        return Err(IllegalCharacter(ulid[i]));
      }
      ParseSnoc(ulid, i);
      value := value * 32 + DigitOf(ulid[i]);
    }
    assert ulid[..|ulid|] == ulid;
    if value >= TWO_128 {
      return Err(Overflow);
    }
    return Ok(value);
  }

  method NewUlid(milliseconds: nat, random: nat) returns (ulid: string)
    requires random < TWO_80
    ensures ulid == Fresh(milliseconds, random)
  {
    ulid := Encode(FreshValue(milliseconds, random));
  }

  method IsUlid(value: string) returns (ok: bool)
    ensures ok <==> |value| == ULID_LENGTH && AllLegal(value) && DigitOf(value[0]) <= 7
  {
    var r := Decode(value);
    DecodeAcceptsExactly(value);
    ok := r.Ok?;
  }

  lemma {:induction false} ReversedSnoc(s: string, c: char)
    ensures Reversed(s + [c]) == [c] + Reversed(s)
  {
    if s != "" {
      assert (s + [c])[1..] == s[1..] + [c];
      ReversedSnoc(s[1..], c);
    }
  }

  lemma ParseSnoc(s: string, i: nat)
    requires i < |s| && forall j :: 0 <= j <= i ==> Legal(s[j])
    ensures Value(Parse(s[..i + 1])) == Value(Parse(s[..i])) * 32 + DigitOf(s[i])
  {
    assert Parse(s[..i + 1]) == Parse(s[..i]) + [DigitOf(s[i])];
    ValueSnoc(Parse(s[..i]), DigitOf(s[i]));
  }

  lemma RenderConcat(a: seq<Digit>, b: seq<Digit>)
    ensures Render(a + b)[..|a|] == Render(a) && Render(a + b)[|a|..] == Render(b)
  {
  }

  lemma RenderSnoc(ds: seq<Digit>, d: Digit)
    ensures Render(ds + [d]) == Render(ds) + [ALPHABET[d]]
  {
  }

  // ---------------------------------------------------------------- round trips

  lemma PowerOfLength()
    ensures Pow32(16) == TWO_80 && Pow32(25) == TWO_125 && Pow32(26) == 32 * TWO_125
    ensures TWO_128 == 8 * TWO_125 && TWO_48 * TWO_80 == TWO_128
  {
    assert Pow32(5) == 0x200_0000;
    assert Pow32(10) == 0x4_0000_0000_0000;
    assert Pow32(15) == 0x800_0000_0000_0000_0000;
    assert Pow32(20) == 0x10_0000_0000_0000_0000_0000_0000;
  }

  lemma ParseOfRender(ds: seq<Digit>)
    ensures AllLegal(Render(ds)) && Parse(Render(ds)) == ds
  {
    forall i | 0 <= i < |ds| ensures Legal(Render(ds)[i]) && DigitOf(Render(ds)[i]) == ds[i] {
      DigitOfLetter(ds[i]);
    }
  }

  lemma RenderOfParse(s: string)
    requires AllLegal(s)
    ensures Render(Parse(s)) == UpperAll(s)
  {
  }

  /** Every 128-bit value survives being written and read back. */
  lemma {:induction false} DecodeInvertsEncode(value: nat)
    requires value < TWO_128
    ensures Decoded(Encoded(value)) == Ok(value)
  {
    PowerOfLength();
    ParseOfRender(Digits(value, ULID_LENGTH));
    ValueOfDigits(value, ULID_LENGTH);
  }

  /** The leading digit decides whether 26 legal characters fit 128 bits. */
  lemma FitsIffLeadingDigit(s: string)
    requires |s| == ULID_LENGTH && AllLegal(s)
    ensures Value(Parse(s)) < TWO_128 <==> DigitOf(s[0]) <= 7
  {
    var lead: nat, p := DigitOf(s[0]), Pow32(25);
    PowerOfLength();
    LeadingDigit(Parse(s));
    if lead <= 7 {
      assert (lead + 1) * p <= 8 * p;
    } else {
      assert 8 * p <= lead * p;
    }
  }

  /**
   Decoding accepts exactly the 26-character strings of legal characters whose first digit
   is at most 7, and on those it loses nothing but case.
   */
  lemma {:induction false} DecodeAcceptsExactly(s: string)
    ensures Decoded(s).Ok? <==> |s| == ULID_LENGTH && AllLegal(s) && DigitOf(s[0]) <= 7
    ensures Decoded(s).Ok? ==> Decoded(s).value < TWO_128 && Encoded(Decoded(s).value) == UpperAll(s)
    ensures Decoded(s) == Err(Overflow) <==> |s| == ULID_LENGTH && AllLegal(s) && DigitOf(s[0]) > 7
  {
    if |s| == ULID_LENGTH && AllLegal(s) {
      FitsIffLeadingDigit(s);
      DigitsOfValue(Parse(s));
      RenderOfParse(s);
    }
  }

  /** A text of the right length with an illegal character is refused for the first of them. */
  lemma {:induction false} FirstIllegalIsNamed(s: string, i: nat)
    requires |s| == 26 && i < 26 && !Legal(s[i]) && forall j :: 0 <= j < i ==> Legal(s[j])
    ensures Decoded(s) == Err(IllegalCharacter(s[i]))
  {
    assert LegalPrefix(s) == i;
  }

  /** An identifier is accepted in any case, and names the same value. */
  lemma {:induction false} DecodingIgnoresCase(s: string, t: string)
    requires SameButCase(s, t) && Decoded(s).Ok?
    ensures Decoded(t) == Decoded(s)
  {
    DecodeAcceptsExactly(s);
    forall i | 0 <= i < |s| ensures Legal(t[i]) && DigitOf(t[i]) == DigitOf(s[i]) {
      if LowerOf(s[i], t[i]) {
        CaseIsIgnored(s[i], t[i]);
      } else if LowerOf(t[i], s[i]) {
        CaseIsIgnored(t[i], s[i]);
      }
    }
    assert Parse(t) == Parse(s);
  }

  /** Two accepted spellings name the same value exactly when they differ at most in case. */
  lemma {:induction false} SpellingsOfOneValue(s: string, t: string)
    requires Decoded(s).Ok? && Decoded(t).Ok?
    ensures Decoded(s) == Decoded(t) <==> UpperAll(s) == UpperAll(t)
  {
    DecodeAcceptsExactly(s);
    DecodeAcceptsExactly(t);
    DecodeInvertsEncode(Decoded(s).value);
    DecodeInvertsEncode(Decoded(t).value);
  }

  // ---------------------------------------------------------------- order

  lemma RenderKeepsOrder(a: seq<Digit>, b: seq<Digit>)
    requires |a| == |b|
    ensures DigitsBefore(a, b) <==> Before(Render(a), Render(b))
  {
    forall i | 0 <= i < |a|
      ensures Render(a)[i] < Render(b)[i] <==> a[i] < b[i]
      ensures Render(a)[i] == Render(b)[i] <==> a[i] == b[i]
    {
      AlphabetOrder(a[i], b[i]);
    }
    forall k | 0 <= k < |a| ensures a[..k] == b[..k] <==> Render(a)[..k] == Render(b)[..k] {
      if Render(a)[..k] == Render(b)[..k] {
        forall i | 0 <= i < k ensures a[i] == b[i] {
          assert Render(a)[..k][i] == Render(b)[..k][i];
        }
      }
      if a[..k] == b[..k] {
        forall i | 0 <= i < k ensures Render(a)[i] == Render(b)[i] {
          assert a[..k][i] == b[..k][i];
        }
      }
    }
    if DigitsBefore(a, b) {
      var k :| 0 <= k < |a| && a[..k] == b[..k] && a[k] < b[k];
      assert Render(a)[..k] == Render(b)[..k] && Render(a)[k] < Render(b)[k];
    }
    if Before(Render(a), Render(b)) {
      var k :| 0 <= k < |a| && Render(a)[..k] == Render(b)[..k] && Render(a)[k] < Render(b)[k];
      assert a[..k] == b[..k] && a[k] < b[k];
    }
  }

  /** Text order is numeric order. */
  lemma EncodeKeepsOrder(v: nat, w: nat)
    requires v < TWO_128 && w < TWO_128
    ensures v < w <==> Before(Encoded(v), Encoded(w))
  {
    PowerOfLength();
    DigitsOrder(v, w, ULID_LENGTH);
    RenderKeepsOrder(Digits(v, ULID_LENGTH), Digits(w, ULID_LENGTH));
  }

  // ---------------------------------------------------------------- fresh identifiers

  lemma FreshDigits(clock: nat, random: nat)
    requires clock < TWO_48 && random < TWO_80
    ensures Digits(clock * TWO_80 + random, ULID_LENGTH) == Digits(clock, 10) + Digits(random, 16)
  {
    PowerOfLength();
    DigitsSplit(clock, random, 10, 16);
  }

  lemma {:induction false} FreshDecodes(milliseconds: nat, random: nat)
    requires random < TWO_80
    ensures Decoded(Fresh(milliseconds, random)) == Ok(FreshValue(milliseconds, random))
  {
    DecodeInvertsEncode(FreshValue(milliseconds, random));
  }

  /** The first ten characters of a fresh identifier are the clock, the rest the random part. */
  lemma FreshShape(milliseconds: nat, random: nat)
    requires random < TWO_80
    ensures Fresh(milliseconds, random)[..10] == Render(Digits(milliseconds % TWO_48, 10))
    ensures Fresh(milliseconds, random)[10..] == Render(Digits(random, 16))
  {
    var high, low := Digits(milliseconds % TWO_48, 10), Digits(random, 16);
    FreshDigits(milliseconds % TWO_48, random);
    assert Fresh(milliseconds, random) == Render(high + low);
    RenderConcat(high, low);
  }

  /**
   One fresh identifier sorts before another exactly when its clock field is smaller, or the
   fields are equal and its random part is smaller: creation order within one millisecond is
   not kept, and the order restarts every 2^48 milliseconds.
   */
  lemma FreshOrder(m1: nat, r1: nat, m2: nat, r2: nat)
    requires r1 < TWO_80 && r2 < TWO_80
    ensures Before(Fresh(m1, r1), Fresh(m2, r2))
       <==> m1 % TWO_48 < m2 % TWO_48 || (m1 % TWO_48 == m2 % TWO_48 && r1 < r2)
  {
    PowerOfLength();
    EncodeKeepsOrder(FreshValue(m1, r1), FreshValue(m2, r2));
  }

  /** Within the clock's range a later millisecond sorts strictly later, whatever the random parts. */
  lemma LaterMillisecondSortsLater(m1: nat, r1: nat, m2: nat, r2: nat)
    requires r1 < TWO_80 && r2 < TWO_80 && m1 < m2 < TWO_48
    ensures Before(Fresh(m1, r1), Fresh(m2, r2))
  {
    FreshOrder(m1, r1, m2, r2);
  }
}
