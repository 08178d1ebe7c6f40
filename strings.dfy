/**
 * The two string facilities the client relies on: the decimal rendering of an
 * index inside a template literal, and String.prototype.indexOf.
 */
module Strings {

  /** The character of decimal digit d. */
  function DigitChar(d: nat): char
    requires d < 10
  {
    (d + 48) as char
  }

  /** The decimal text of n, as `${n}` renders a non-negative integer. */
  function NatToString(n: nat): (s: string)
    ensures 1 <= |s|
    ensures n < 10 <==> |s| == 1
    decreases n
  {
    if n < 10 then [DigitChar(n)] else NatToString(n / 10) + [DigitChar(n % 10)]
  }

  /** Different indices are rendered as different texts. */
  lemma {:induction false} NatToStringInjective(a: nat, b: nat)
    ensures NatToString(a) == NatToString(b) ==> a == b
    decreases a
  {
    var sa, sb := NatToString(a), NatToString(b);
    if sa == sb && 10 <= a && 10 <= b {
      assert DigitChar(a % 10) == sa[|sa| - 1] == sb[|sb| - 1] == DigitChar(b % 10);
      assert NatToString(a / 10) == sa[..|sa| - 1] == sb[..|sb| - 1] == NatToString(b / 10);
      NatToStringInjective(a / 10, b / 10);
    } else if sa == sb && a < 10 && b < 10 {
      assert DigitChar(a) == sa[0] == sb[0] == DigitChar(b);
    }
  }

  /** needle occurs in s starting at position i. */
  predicate OccursAt(s: string, needle: string, i: nat)
  {
    i + |needle| <= |s| && s[i..i + |needle|] == needle
  }

  /** The first position at or after start where needle occurs in s, or -1. */
  function IndexFrom(s: string, needle: string, start: nat): (r: int)
    requires start <= |s|
    ensures r == -1 || start <= r <= |s|
    ensures r >= 0 ==> OccursAt(s, needle, r)
    ensures r >= 0 ==> forall j: nat :: start <= j < r ==> !OccursAt(s, needle, j)
    ensures r == -1 ==> forall j: nat :: start <= j ==> !OccursAt(s, needle, j)
    decreases |s| - start
  {
    if OccursAt(s, needle, start) then start
    else if start == |s| then -1
    else IndexFrom(s, needle, start + 1)
  }

  /** String.prototype.indexOf: the first position where needle occurs in s, or -1. */
  function IndexOf(s: string, needle: string): (r: int)
    ensures -1 <= r <= |s|
    ensures r >= 0 ==> OccursAt(s, needle, r)
    ensures r >= 0 ==> forall j: nat :: j < r ==> !OccursAt(s, needle, j)
    ensures r == -1 <==> forall j: nat :: !OccursAt(s, needle, j)
  {
    IndexFrom(s, needle, 0)
  }

  /** `s.indexOf(needle) >= 0`. */
  predicate Contains(s: string, needle: string)
  {
    IndexOf(s, needle) >= 0
  }

  /** Contains holds exactly when some occurrence exists. */
  lemma ContainsIff(s: string, needle: string)
    ensures Contains(s, needle) <==> exists i: nat :: OccursAt(s, needle, i)
  {
    if Contains(s, needle) {
      assert OccursAt(s, needle, IndexOf(s, needle));
    }
  }

  /** A non-empty needle never occurs in the empty string. */
  lemma ContainsNonEmpty(s: string, needle: string)
    requires needle != ""
    ensures Contains(s, needle) ==> s != ""
  {
  }
}
