/**
 * The string operations the service relies on: lower-casing, whitespace
 * stripping, substring search and decimal rendering.
 */
module Text {

  /** Lower-cases an ASCII capital; every other character is kept. */
  function LowerChar(c: char): char
  {
    if 'A' <= c <= 'Z' then (c as int + 32) as char else c
  }

  /** str.lower(), restricted to ASCII letters. */
  function Lower(s: string): (r: string)
    ensures |r| == |s|
    ensures forall i :: 0 <= i < |s| ==> r[i] == LowerChar(s[i])
  {
    if s == [] then [] else [LowerChar(s[0])] + Lower(s[1..])
  }

  lemma LowerIdempotent(s: string)
    ensures Lower(Lower(s)) == Lower(s)
  {
    var once := Lower(s);
    assert forall i :: 0 <= i < |s| ==> Lower(once)[i] == once[i];
  }

  /** needle occurs in hay starting at position i. */
  predicate OccursAt(needle: string, hay: string, i: nat)
  {
    i + |needle| <= |hay| && hay[i..i + |needle|] == needle
  }

  /** Substring search, scanning hay from the left. */
  function Contains(hay: string, needle: string): bool
    decreases |hay|
  {
    if needle <= hay then true
    else if hay == [] then false
    else Contains(hay[1..], needle)
  }

  /** The scan finds exactly the occurrences. */
  lemma {:induction false} ContainsIffOccurs(hay: string, needle: string)
    ensures Contains(hay, needle) <==> exists i: nat :: OccursAt(needle, hay, i)
    decreases |hay|
  {
    if needle <= hay {
      assert OccursAt(needle, hay, 0);
    } else if hay == [] {
    } else {
      ContainsIffOccurs(hay[1..], needle);
      OccursAtStart(hay, needle);
      if i: nat :| OccursAt(needle, hay[1..], i) {
        OccursAfterFirst(hay, needle, i);
      }
      if i: nat :| OccursAt(needle, hay, i) {
        assert i > 0;
        OccursAfterFirst(hay, needle, i - 1);
      }
    }
  }

  /** An occurrence at position 0 is a prefix. */
  lemma OccursAtStart(hay: string, needle: string)
    ensures OccursAt(needle, hay, 0) <==> needle <= hay
  {
  }

  /** Dropping the first character moves every occurrence one position left. */
  lemma OccursAfterFirst(hay: string, needle: string, i: nat)
    requires hay != []
    ensures OccursAt(needle, hay[1..], i) <==> OccursAt(needle, hay, i + 1)
  {
    if i + |needle| <= |hay| - 1 {
      assert hay[1..][i..i + |needle|] == hay[i + 1..i + 1 + |needle|];
    }
  }

  /** A character Python's str.strip() removes; only ASCII whitespace is modelled. */
  predicate IsSpace(c: char)
  {
    c == ' ' || 9 <= c as int <= 13 || 28 <= c as int <= 31
  }

  /** The number of whitespace characters s starts with. */
  function LeadingSpaces(s: string): (n: nat)
    ensures n <= |s|
    ensures forall k :: 0 <= k < n ==> IsSpace(s[k])
    ensures n < |s| ==> !IsSpace(s[n])
  {
    if s == [] || !IsSpace(s[0]) then 0 else 1 + LeadingSpaces(s[1..])
  }

  /** The number of whitespace characters s ends with. */
  function TrailingSpaces(s: string): (n: nat)
    ensures n <= |s|
    ensures forall k :: |s| - n <= k < |s| ==> IsSpace(s[k])
    ensures n < |s| ==> !IsSpace(s[|s| - 1 - n])
  {
    if s == [] || !IsSpace(s[|s| - 1]) then 0 else 1 + TrailingSpaces(s[..|s| - 1])
  }

  /**
   * str.strip(): the part of s between its leading and its trailing
   * whitespace. It is empty exactly when s is all whitespace, and otherwise
   * starts and ends with a character that is not whitespace.
   */
  function Trim(s: string): (r: string)
    ensures |r| <= |s|
    ensures r == [] <==> forall k :: 0 <= k < |s| ==> IsSpace(s[k])
    ensures r != [] ==> !IsSpace(r[0]) && !IsSpace(r[|r| - 1])
  {
    var a := LeadingSpaces(s);
    var b := TrailingSpaces(s[a..]);
    assert forall k :: |s| - b <= k < |s| ==> s[k] == s[a..][k - a];
    s[a..|s| - b]
  }

  /** What strip() removes is whitespace only: the result sits in s between a whitespace prefix and a whitespace suffix. */
  lemma TrimIsInfix(s: string)
    ensures exists i: nat :: && OccursAt(Trim(s), s, i)
                             && (forall k :: 0 <= k < i ==> IsSpace(s[k]))
                             && (forall k :: i + |Trim(s)| <= k < |s| ==> IsSpace(s[k]))
  {
    var a := LeadingSpaces(s);
    var b := TrailingSpaces(s[a..]);
    assert forall k :: |s| - b <= k < |s| ==> s[k] == s[a..][k - a];
    assert OccursAt(Trim(s), s, a);
  }

  /** A string with no whitespace at either end is its own stripped form. */
  lemma TrimOfTrimmed(s: string)
    requires s == [] || (!IsSpace(s[0]) && !IsSpace(s[|s| - 1]))
    ensures Trim(s) == s
  {
    if s != [] {
      assert LeadingSpaces(s) == 0;
      assert TrailingSpaces(s) == 0;
    }
  }

  /** Stripping twice is stripping once. */
  lemma TrimIdempotent(s: string)
    ensures Trim(Trim(s)) == Trim(s)
  {
    TrimOfTrimmed(Trim(s));
  }

  /** str.rfind for one character: the last position of c in s, or -1. */
  function LastIndexOf(s: string, c: char): (k: int)
    ensures -1 <= k < |s|
    ensures k >= 0 ==> s[k] == c
    ensures forall j :: k < j < |s| ==> s[j] != c
  {
    if s == [] then -1
    else if s[|s| - 1] == c then |s| - 1
    else LastIndexOf(s[..|s| - 1], c)
  }

  /** Django's icontains lookup: a substring test after lower-casing both sides. */
  function ContainsIgnoringCase(hay: string, needle: string): bool
  {
    Contains(Lower(hay), Lower(needle))
  }

  lemma ContainsIgnoringCaseOfLowered(hay: string, needle: string)
    ensures ContainsIgnoringCase(hay, Lower(needle)) == ContainsIgnoringCase(hay, needle)
  {
    LowerIdempotent(needle);
  }

  predicate IsDigits(s: string)
  {
    forall i :: 0 <= i < |s| ==> '0' <= s[i] <= '9'
  }

  function DigitChar(d: nat): char
    requires d < 10
  {
    ('0' as int + d) as char
  }

  /** The decimal rendering of n, as str() gives it. */
  function NatToString(n: nat): (s: string)
    ensures |s| >= 1 && IsDigits(s)
    ensures s[0] == '0' <==> n == 0
    decreases n
  {
    if n < 10 then [DigitChar(n)] else NatToString(n / 10) + [DigitChar(n % 10)]
  }

  /** str() of an integer: a minus sign before the digits of a negative value. */
  function IntToString(i: int): (s: string)
    ensures i >= 0 ==> IsDigits(s)
    ensures i < 0 ==> |s| >= 2 && s[0] == '-' && IsDigits(s[1..])
  {
    if i < 0 then "-" + NatToString(-i) else NatToString(i)
  }

  /** The number a string of decimal digits denotes. */
  function DecimalValue(s: string): nat
    requires IsDigits(s)
    decreases |s|
  {
    if s == [] then 0 else DecimalValue(s[..|s| - 1]) * 10 + (s[|s| - 1] as int - '0' as int)
  }

  /** Reading back the rendering gives the number. */
  lemma {:induction false} DecimalRoundTrip(n: nat)
    ensures DecimalValue(NatToString(n)) == n
    decreases n
  {
    if n >= 10 {
      var s := NatToString(n);
      assert s[..|s| - 1] == NatToString(n / 10);
      DecimalRoundTrip(n / 10);
    }
  }
}
