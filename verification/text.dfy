/** Cell-text operations the sorter relies on: lower-casing and the string
    comparison used for the `string` column type. */
module Text {

  /** ASCII upper-case letters map to their lower-case forms; every other
      character is kept. */
  function LowerChar(c: char): char {
    if 'A' <= c <= 'Z' then (c as int - 'A' as int + 'a' as int) as char else c
  }

  /** `toLowerCase`, restricted to ASCII letters. */
  function Lower(s: string): (r: string)
    ensures |r| == |s|
  {
    seq(|s|, i requires 0 <= i < |s| => LowerChar(s[i]))
  }

  /** Lower-casing turns each ASCII upper-case letter into its own
      lower-case letter and keeps every other character where it was. */
  lemma LowerFacts(s: string)
    ensures forall i | 0 <= i < |s| :: !('A' <= Lower(s)[i] <= 'Z')
    ensures forall i | 0 <= i < |s| && 'A' <= s[i] <= 'Z' ::
      Lower(s)[i] as int == s[i] as int + ('a' as int - 'A' as int)
    ensures forall i | 0 <= i < |s| :: !('A' <= s[i] <= 'Z') ==> Lower(s)[i] == s[i]
  {
  }

  /** The two characters are equal, or one is an ASCII upper-case letter and
      the other its lower-case form. */
  predicate CharsAlike(a: char, b: char) {
    || a == b
    || ('A' <= a <= 'Z' && b as int == a as int + ('a' as int - 'A' as int))
    || ('A' <= b <= 'Z' && a as int == b as int + ('a' as int - 'A' as int))
  }

  /** The texts differ at most in the case of ASCII letters. */
  predicate SameUpToCase(x: string, y: string) {
    |x| == |y| && forall i | 0 <= i < |x| :: CharsAlike(x[i], y[i])
  }

  /** Two texts lower-case alike exactly when they differ only in case. */
  lemma LowerIgnoresCase(x: string, y: string)
    ensures SameUpToCase(x, y) <==> Lower(x) == Lower(y)
  {
    LowerFacts(x);
    LowerFacts(y);
    if Lower(x) == Lower(y) {
      forall i | 0 <= i < |x| ensures CharsAlike(x[i], y[i]) {
        assert Lower(x)[i] == Lower(y)[i];
      }
    }
  }

  /** Lower-casing twice is lower-casing once. */
  lemma LowerIdempotent(s: string)
    ensures Lower(Lower(s)) == Lower(s)
  {
    LowerFacts(s);
    LowerFacts(Lower(s));
  }

  /** `localeCompare`, modelled as code-point lexicographic order: a proper
      prefix comes first, otherwise the first differing character decides.
      The sign is what the sort reads. */
  function LocaleCompare(x: string, y: string): (c: int)
    ensures -1 <= c <= 1
    ensures c == 0 <==> x == y
  {
    if |x| == 0 then (if |y| == 0 then 0 else -1)
    else if |y| == 0 then 1
    else if x[0] < y[0] then -1
    else if y[0] < x[0] then 1
    else
      assert x == [x[0]] + x[1..] && y == [y[0]] + y[1..];
      LocaleCompare(x[1..], y[1..])
  }

  /** Swapping the operands flips the sign. */
  lemma {:induction false} LocaleCompareFlip(x: string, y: string)
    ensures LocaleCompare(y, x) == -LocaleCompare(x, y)
  {
    if |x| > 0 && |y| > 0 && x[0] == y[0] {
      LocaleCompareFlip(x[1..], y[1..]);
    }
  }

  /** "Not after" is transitive, so the comparison is a total order. */
  lemma {:induction false} LocaleCompareTransitive(x: string, y: string, z: string)
    requires LocaleCompare(x, y) <= 0 && LocaleCompare(y, z) <= 0
    ensures LocaleCompare(x, z) <= 0
  {
    if |x| > 0 && |y| > 0 && |z| > 0 && x[0] == y[0] && y[0] == z[0] {
      LocaleCompareTransitive(x[1..], y[1..], z[1..]);
    }
  }
}
