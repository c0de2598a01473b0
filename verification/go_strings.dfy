/** The parts of Go's `strings` package that the other modules reason with:
    substring occurrence, `strings.Contains` and `strings.HasSuffix`. */
module GoStrings {

  /** `t` sits in `s` starting at index `i`. */
  predicate OccursAt(s: string, t: string, i: nat)
  {
    i + |t| <= |s| && s[i..i + |t|] == t
  }

  /** `strings.Contains(s, t)`. */
  predicate Contains(s: string, t: string)
  {
    exists i: nat | i <= |s| :: OccursAt(s, t, i)
  }

  /** `strings.HasSuffix(s, suffix)`. */
  predicate HasSuffix(s: string, suffix: string)
  {
    |suffix| <= |s| && s[|s| - |suffix|..] == suffix
  }

  lemma OccursInExtension(a: string, s: string, b: string, t: string, i: nat)
    requires OccursAt(s, t, i)
    ensures OccursAt(a + s + b, t, |a| + i)
  {
  }

  /** Text added on either side never removes an occurrence. */
  lemma ContainsInExtension(a: string, s: string, b: string, t: string)
    requires Contains(s, t)
    ensures Contains(a + s + b, t)
  {
    var i: nat :| i <= |s| && OccursAt(s, t, i);
    OccursInExtension(a, s, b, t, i);
  }
}
