/**
 * Case-insensitive string comparison, as used by the derived repository query
 * `existsByRestaurantIdAndCategoryNameIgnoreCase`. The database's case folding is
 * modelled as ASCII folding: 'A'..'Z' map to 'a'..'z', every other character is kept.
 */
module CaseFold {

  /** Lower-cases one ASCII letter; any other character is returned as it is. */
  function LowerChar(c: char): (d: char)
    ensures 'A' <= c <= 'Z' ==> d as int == c as int + 32
    ensures !('A' <= c <= 'Z') ==> d == c
    ensures !('A' <= d <= 'Z')
  {
    if 'A' <= c <= 'Z' then (c as int + 32) as char else c
  }

  /** Lower-cases every character of `s`. */
  function ToLower(s: string): (r: string)
    ensures |r| == |s|
    ensures forall i :: 0 <= i < |s| ==> r[i] == LowerChar(s[i])
  {
    seq(|s|, i requires 0 <= i < |s| => LowerChar(s[i]))
  }

  /** `a` and `b` are equal when case is ignored: they fold to the same string, which is
      the case exactly when they have the same length and agree position by position up
      to case. */
  predicate EqualsIgnoreCase(a: string, b: string)
    ensures EqualsIgnoreCase(a, b) <==>
              |a| == |b| && forall i :: 0 <= i < |a| ==> LowerChar(a[i]) == LowerChar(b[i])
  {
    ToLower(a) == ToLower(b)
  }

  /** Two characters fold to the same character exactly when they are equal or are
      the upper- and lower-case forms of one ASCII letter. */
  lemma LowerCharEqual(c: char, d: char)
    ensures LowerChar(c) == LowerChar(d) <==>
              c == d
              || ('A' <= c <= 'Z' && d as int == c as int + 32)
              || ('A' <= d <= 'Z' && c as int == d as int + 32)
  {
  }

  /** Folding is idempotent: a folded string is its own fold. */
  lemma ToLowerIdempotent(s: string)
    ensures ToLower(ToLower(s)) == ToLower(s)
  {
  }

  /** Ignoring case is an equivalence relation. */
  lemma EqualsIgnoreCaseIsEquivalence(a: string, b: string, c: string)
    ensures EqualsIgnoreCase(a, a)
    ensures EqualsIgnoreCase(a, b) ==> EqualsIgnoreCase(b, a)
    ensures EqualsIgnoreCase(a, b) && EqualsIgnoreCase(b, c) ==> EqualsIgnoreCase(a, c)
  {
  }

  /** Every string is equal, ignoring case, to its own fold. */
  lemma EqualsIgnoreCaseToLower(s: string)
    ensures EqualsIgnoreCase(s, ToLower(s))
  {
    ToLowerIdempotent(s);
  }
}
