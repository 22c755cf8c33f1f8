/**
  The string operations the listing relies on: `toLowerCase`, `includes`
  and the decimal rendering of a non-negative integer in a template string.
 */
module Text {

  /** Lower-cases an ASCII capital; every other character (Hangul included) is unchanged. */
  function LowerChar(c: char): char {
    if 'A' <= c <= 'Z' then (c as int + 32) as char else c
  }

  /** `toLowerCase`, restricted to ASCII letters. */
  function Lower(s: string): (r: string)
    ensures |r| == |s|
    ensures forall i :: 0 <= i < |s| ==> r[i] == LowerChar(s[i])
    decreases |s|
  {
    if |s| == 0 then "" else [LowerChar(s[0])] + Lower(s[1..])
  }

  /** Text without ASCII capitals is its own lower-case form. */
  lemma LowerFixesUncapitalised(s: string)
    requires forall i :: 0 <= i < |s| ==> !('A' <= s[i] <= 'Z')
    ensures Lower(s) == s
  {
  }

  /** `pat` occurs in `text` at position `i`. */
  ghost predicate OccursAt(text: string, pat: string, i: int) {
    0 <= i && i + |pat| <= |text| && text[i..i + |pat|] == pat
  }

  /** `pat` occurs somewhere in `text`. */
  ghost predicate OccursIn(text: string, pat: string) {
    exists i :: OccursAt(text, pat, i)
  }

  /** `text.includes(pat)`: scans `text` for a position where `pat` is a prefix. */
  predicate Contains(text: string, pat: string)
    decreases |text|
  {
    pat <= text || (|pat| < |text| && Contains(text[1..], pat))
  }

  /** The scan finds `pat` exactly when `pat` occurs somewhere in `text`; the empty pattern occurs everywhere. */
  lemma {:induction false} ContainsIff(text: string, pat: string)
    ensures Contains(text, pat) <==> exists i :: OccursAt(text, pat, i)
    decreases |text|
  {
    if pat <= text {
      assert text[0..|pat|] == pat;
      assert OccursAt(text, pat, 0);
    } else if |pat| < |text| {
      ContainsIff(text[1..], pat);
      forall i | OccursAt(text[1..], pat, i)
        ensures OccursAt(text, pat, i + 1)
      {
        assert text[1..][i..i + |pat|] == text[i + 1..i + 1 + |pat|];
      }
      forall i | OccursAt(text, pat, i)
        ensures i > 0 && OccursAt(text[1..], pat, i - 1)
      {
        if i > 0 {
          assert text[1..][i - 1..i - 1 + |pat|] == text[i..i + |pat|];
        }
      }
    }
  }

  /** An occurrence of a longer pattern contains an occurrence of each of its prefixes. */
  lemma PrefixOccurs(text: string, pat: string, longer: string)
    requires pat <= longer && Contains(text, longer)
    ensures Contains(text, pat)
  {
    ContainsIff(text, longer);
    var i :| OccursAt(text, longer, i);
    assert text[i..i + |pat|] == longer[..|pat|];
    assert OccursAt(text, pat, i);
    ContainsIff(text, pat);
  }

  /** The character of one decimal digit. */
  function DigitChar(d: int): (c: char)
    requires 0 <= d < 10
    ensures '0' <= c <= '9' && c as int - '0' as int == d
  {
    ('0' as int + d) as char
  }

  /** Decimal rendering of `n`, as `${n}` prints it: digits only, no leading zero. */
  function NatToString(n: nat): (r: string)
    ensures |r| >= 1
    ensures forall i :: 0 <= i < |r| ==> '0' <= r[i] <= '9'
    ensures (|r| == 1) == (n < 10)
    decreases n
  {
    if n < 10 then [DigitChar(n)] else NatToString(n / 10) + [DigitChar(n % 10)]
  }

  /** Distinct numbers render differently. */
  lemma {:induction false} NatToStringInjective(a: nat, b: nat)
    requires NatToString(a) == NatToString(b)
    ensures a == b
    decreases a
  {
    var s := NatToString(a);
    if a >= 10 && b >= 10 {
      assert s[|s| - 1] == DigitChar(a % 10) == DigitChar(b % 10);
      assert NatToString(a / 10) == s[..|s| - 1] == NatToString(b / 10);
      NatToStringInjective(a / 10, b / 10);
    } else if a < 10 && b < 10 {
      assert s[0] == DigitChar(a) == DigitChar(b);
    }
  }
}
