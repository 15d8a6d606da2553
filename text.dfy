/**
 * The few JavaScript string operations the modelled code relies on:
 * `String.prototype.includes`, `trim`, `toUpperCase` and number-to-string.
 * Strings are sequences of Unicode scalar values (`char`). Where the code
 * measures or slices a string, it works on UTF-16 code units; `Utf16` gives
 * those units, and agrees with the characters on text without characters
 * outside the Basic Multilingual Plane.
 */
module Text {
  import opened Wrappers

  // ---------------------------------------------------------------------------
  // includes

  predicate StartsWith(s: string, prefix: string) {
    |prefix| <= |s| && s[..|prefix|] == prefix
  }

  /** `s.includes(sub)` */
  predicate Contains(s: string, sub: string)
    decreases |s|
  {
    StartsWith(s, sub) || (s != [] && Contains(s[1..], sub))
  }

  /** `sub` occurs in `s` at position `i`. */
  predicate OccursAt(s: string, sub: string, i: nat) {
    i + |sub| <= |s| && s[i..i + |sub|] == sub
  }

  /** `Contains` holds exactly when `sub` occurs at some position of `s`. */
  lemma {:induction false} ContainsWhenOccurs(s: string, sub: string, i: nat)
    requires OccursAt(s, sub, i)
    ensures Contains(s, sub)
  {
    if i > 0 {
      assert s[1..][i - 1..i - 1 + |sub|] == s[i..i + |sub|];
      ContainsWhenOccurs(s[1..], sub, i - 1);
    }
  }

  lemma {:induction false} OccurrenceOfContains(s: string, sub: string) returns (i: nat)
    requires Contains(s, sub)
    ensures OccursAt(s, sub, i)
  {
    if StartsWith(s, sub) {
      i := 0;
    } else {
      var j := OccurrenceOfContains(s[1..], sub);
      assert s[1..][j..j + |sub|] == s[j + 1..j + 1 + |sub|];
      i := j + 1;
    }
  }

  /** The position of the first occurrence of `sub` in `s` (a leftmost regular-expression match). */
  function FirstOccurrence(s: string, sub: string): Option<nat>
    decreases |s|
  {
    if StartsWith(s, sub) then Some(0)
    else if s == [] then None
    else
      match FirstOccurrence(s[1..], sub)
      case None => None
      case Some(j) => Some(j + 1)
  }

  lemma OccursShift(s: string, sub: string, j: nat)
    requires s != []
    ensures OccursAt(s, sub, j + 1) <==> OccursAt(s[1..], sub, j)
  {
    if j + 1 + |sub| <= |s| {
      assert s[1..][j..j + |sub|] == s[j + 1..j + 1 + |sub|];
    }
  }

  /** `FirstOccurrence` finds an occurrence with none before it, and finds one whenever there is one. */
  lemma {:induction false} FirstOccurrenceCorrect(s: string, sub: string)
    ensures FirstOccurrence(s, sub).Some? ==>
              OccursAt(s, sub, FirstOccurrence(s, sub).value)
              && forall j: nat :: j < FirstOccurrence(s, sub).value ==> !OccursAt(s, sub, j)
    ensures FirstOccurrence(s, sub).None? ==> forall j: nat :: !OccursAt(s, sub, j)
  {
    if StartsWith(s, sub) {
    } else if s == [] {
    } else {
      FirstOccurrenceCorrect(s[1..], sub);
      assert !OccursAt(s, sub, 0);
      forall j: nat | j > 0 ensures OccursAt(s, sub, j) <==> OccursAt(s[1..], sub, j - 1) {
        OccursShift(s, sub, j - 1);
      }
    }
  }

  // ---------------------------------------------------------------------------
  // Ordering

  /** Code-point lexicographic order: `a` sorts no later than `b`. */
  predicate LexLessEq(a: string, b: string)
    decreases |a|
  {
    a == [] || (b != [] && (a[0] < b[0] || (a[0] == b[0] && LexLessEq(a[1..], b[1..]))))
  }

  lemma {:induction false} LexTotal(a: string, b: string)
    ensures LexLessEq(a, b) || LexLessEq(b, a)
  {
    if a != [] && b != [] && a[0] == b[0] {
      LexTotal(a[1..], b[1..]);
    }
  }

  lemma {:induction false} LexTransitive(a: string, b: string, c: string)
    requires LexLessEq(a, b) && LexLessEq(b, c)
    ensures LexLessEq(a, c)
  {
    if a != [] && a[0] == b[0] && b[0] == c[0] {
      LexTransitive(a[1..], b[1..], c[1..]);
    }
  }

  // ---------------------------------------------------------------------------
  // trim

  /**
   * The white space `trim` removes: the ECMAScript WhiteSpace characters (tab,
   * vertical tab, form feed, the byte order mark and every space separator)
   * and the LineTerminator characters (line feed, carriage return, line and
   * paragraph separators).
   */
  predicate IsSpace(c: char) {
    || c == '\t' || c == '\n' || c == '\U{000B}' || c == '\U{000C}' || c == '\r' || c == ' '
    || c == '\U{00A0}' || c == '\U{1680}' || ('\U{2000}' <= c <= '\U{200A}')
    || c == '\U{2028}' || c == '\U{2029}' || c == '\U{202F}' || c == '\U{205F}'
    || c == '\U{3000}' || c == '\U{FEFF}'
  }

  function TrimStart(s: string): (r: string)
    ensures |r| <= |s| && r == s[|s| - |r|..]
    ensures r == [] || !IsSpace(r[0])
    ensures forall i :: 0 <= i < |s| - |r| ==> IsSpace(s[i])
  {
    if s != [] && IsSpace(s[0]) then TrimStart(s[1..]) else s
  }

  function TrimEnd(s: string): (r: string)
    ensures |r| <= |s| && r == s[..|r|]
    ensures r == [] || !IsSpace(r[|r| - 1])
    ensures forall i :: |r| <= i < |s| ==> IsSpace(s[i])
  {
    if s != [] && IsSpace(s[|s| - 1]) then TrimEnd(s[..|s| - 1]) else s
  }

  /** How many white-space characters `s` starts with. */
  function LeadingSpace(s: string): (n: nat)
    ensures n <= |s|
    ensures forall i :: 0 <= i < n ==> IsSpace(s[i])
    ensures n == |s| || !IsSpace(s[n])
  {
    |s| - |TrimStart(s)|
  }

  /**
   * `s.trim()`: the part of `s` after its leading white space that neither
   * starts nor ends with white space; only white space was cut off.
   */
  function Trim(s: string): (r: string)
    ensures LeadingSpace(s) + |r| <= |s| && r == s[LeadingSpace(s)..LeadingSpace(s) + |r|]
    ensures forall i :: LeadingSpace(s) + |r| <= i < |s| ==> IsSpace(s[i])
    ensures r == [] || (!IsSpace(r[0]) && !IsSpace(r[|r| - 1]))
  {
    TrimEnd(TrimStart(s))
  }

  // ---------------------------------------------------------------------------
  // toUpperCase

  /** `toUpperCase` on ASCII letters; every other character is kept. */
  function UpperChar(c: char): char {
    if 'a' <= c <= 'z' then (c as int - 'a' as int + 'A' as int) as char else c
  }

  function ToUpper(s: string): (r: string)
    ensures |r| == |s|
    ensures forall i :: 0 <= i < |s| ==> r[i] == UpperChar(s[i])
  {
    seq(|s|, i requires 0 <= i < |s| => UpperChar(s[i]))
  }

  /** Upper-casing twice is upper-casing once. */
  lemma UpperIdempotent(s: string)
    ensures ToUpper(ToUpper(s)) == ToUpper(s)
  {
    assert forall i :: 0 <= i < |s| ==> UpperChar(UpperChar(s[i])) == UpperChar(s[i]);
  }

  // ---------------------------------------------------------------------------
  // Number to string

  function DigitChar(d: nat): char
    requires d < 10
  {
    "0123456789"[d]
  }

  function DigitValue(c: char): nat
    requires '0' <= c <= '9'
  {
    c as int - '0' as int
  }

  predicate AllDigits(s: string) {
    forall i :: 0 <= i < |s| ==> '0' <= s[i] <= '9'
  }

  /** `String(n)` for a non-negative integer: its decimal digits, no leading zero. */
  function NatToString(n: nat): (r: string)
    ensures |r| >= 1 && AllDigits(r)
    ensures |r| == 1 <==> n < 10
  {
    if n < 10 then [DigitChar(n)] else NatToString(n / 10) + [DigitChar(n % 10)]
  }

  function ParseDigits(s: string): nat
    requires AllDigits(s)
  {
    if s == [] then 0 else 10 * ParseDigits(s[..|s| - 1]) + DigitValue(s[|s| - 1])
  }

  /** The decimal text of n reads back as n. */
  lemma {:induction false} NatToStringRoundTrip(n: nat)
    ensures ParseDigits(NatToString(n)) == n
  {
    if n >= 10 {
      NatToStringRoundTrip(n / 10);
      var s := NatToString(n);
      assert s[..|s| - 1] == NatToString(n / 10);
    }
  }

  /** A decimal text as `String` prints one: digits, and no leading zero unless it is `0` itself. */
  predicate Canonical(d: string) {
    AllDigits(d) && d != "" && (d[0] != '0' || d == "0")
  }

  /** Every printed number is canonical. */
  lemma {:induction false} NatToStringCanonical(n: nat)
    ensures Canonical(NatToString(n))
  {
    if n >= 10 {
      NatToStringCanonical(n / 10);
      assert NatToString(n)[0] == NatToString(n / 10)[0];
    }
  }

  /** Text without white space is its own trim. */
  lemma TrimWithoutSpace(s: string)
    requires forall i :: 0 <= i < |s| ==> !IsSpace(s[i])
    ensures Trim(s) == s
  {
    assert TrimStart(s) == s;
    assert TrimEnd(s) == s;
  }

  /** A canonical text that starts with a zero is `0` and reads as zero. */
  lemma LeadingZero(d: string)
    requires Canonical(d)
    ensures d[0] == '0' ==> ParseDigits(d) == 0
  {
    if d[0] == '0' {
      assert |d| == 1;
      assert d[..0] == [];
    }
  }

  /** A canonical text with a non-zero first digit reads as at least one. */
  lemma {:induction false} LeadingDigitPositive(d: string)
    requires AllDigits(d) && d != "" && d[0] != '0'
    ensures ParseDigits(d) >= 1
  {
    if |d| > 1 {
      LeadingDigitPositive(d[..|d| - 1]);
    }
  }

  /** A canonical text reads as the number that prints as it. */
  lemma {:induction false} CanonicalRoundTrip(d: string)
    requires Canonical(d)
    ensures NatToString(ParseDigits(d)) == d
  {
    var c := d[|d| - 1];
    assert DigitChar(DigitValue(c)) == c;
    if |d| > 1 {
      var front := d[..|d| - 1];
      LeadingDigitPositive(front);
      CanonicalRoundTrip(front);
      var n := ParseDigits(d);
      assert n / 10 == ParseDigits(front) && n % 10 == DigitValue(c);
      assert d == front + [c];
    }
  }

  /** Two-digit numbers print as exactly two characters. */
  lemma TwoDigits(n: nat)
    requires 10 <= n < 100
    ensures |NatToString(n)| == 2
  {
  }

  // ---------------------------------------------------------------------------
  // UTF-16

  /** A UTF-16 code unit, what JavaScript's `length` counts and `slice` cuts. */
  newtype CodeUnit = x: int | 0 <= x < 0x1_0000

  /** The code units of one character: itself below U+10000, else a surrogate pair. */
  function UnitsOf(c: char): (r: seq<CodeUnit>)
    ensures |r| == if c as int < 0x1_0000 then 1 else 2
    ensures |r| == 1 ==> r[0] as int == c as int
    ensures |r| == 2 ==> && 0xD800 <= r[0] as int < 0xDC00 && 0xDC00 <= r[1] as int < 0xE000
                         && (r[0] as int - 0xD800) * 0x400 + (r[1] as int - 0xDC00) + 0x1_0000 == c as int
  {
    var n := c as int;
    if n < 0x1_0000 then [n as CodeUnit]
    else
      var v := n - 0x1_0000;
      [(0xD800 + v / 0x400) as CodeUnit, (0xDC00 + v % 0x400) as CodeUnit]
  }

  /** The UTF-16 encoding of a string: the code units a JavaScript string holds. */
  function Utf16(s: string): (r: seq<CodeUnit>)
    ensures |r| >= |s|
  {
    if s == [] then [] else UnitsOf(s[0]) + Utf16(s[1..])
  }

  /** Text inside the Basic Multilingual Plane has one code unit per character, so slicing agrees too. */
  lemma {:induction false} Utf16OfBmp(s: string, k: nat)
    requires forall i :: 0 <= i < |s| ==> s[i] as int < 0x1_0000
    requires k <= |s|
    ensures |Utf16(s)| == |s| && Utf16(s)[..k] == Utf16(s[..k])
  {
    if s != [] {
      Utf16OfBmp(s[1..], if k == 0 then 0 else k - 1);
      if k > 0 {
        assert s[..k][0] == s[0] && s[..k][1..] == s[1..][..k - 1];
      } else {
        assert s[..k] == [];
      }
    }
  }

  /** Text made only of characters outside the Basic Multilingual Plane has two code units per character. */
  lemma {:induction false} Utf16OfAstral(s: string)
    requires forall i :: 0 <= i < |s| ==> s[i] as int >= 0x1_0000
    ensures |Utf16(s)| == 2 * |s|
  {
    if s != [] {
      Utf16OfAstral(s[1..]);
    }
  }
}
