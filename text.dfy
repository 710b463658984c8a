/**
 * The two Python string operations the assertion helpers rely on:
 * `s.startswith(p)` and the containment test `t in s`. Strings are
 * sequences of characters; `""` is a prefix of, and contained in, every
 * string, as in Python.
 */
module PyText {

  /** `s.startswith(p)`: the first |p| characters of s are p. */
  predicate StartsWith(s: string, p: string) {
    |p| <= |s| && s[..|p|] == p
  }

  /** `t in s`: t is a prefix of s or of some suffix of s. */
  predicate Contains(s: string, t: string)
    decreases |s|
  {
    StartsWith(s, t) || (|s| > 0 && Contains(s[1..], t))
  }

  /** Reference definition of containment: t is the slice of s at offset k. */
  ghost predicate OccursAt(s: string, t: string, k: int) {
    0 <= k && k + |t| <= |s| && s[k..k + |t|] == t
  }

  /** Prefix matching is the same as being the front of a concatenation. */
  lemma StartsWithIffConcat(s: string, p: string)
    ensures StartsWith(s, p) <==> exists rest :: s == p + rest
  {
    if StartsWith(s, p) {
      assert s == p + s[|p|..];
    }
  }

  /** The recursive containment test agrees with the offset definition. */
  lemma {:induction false} ContainsIffOccurs(s: string, t: string)
    ensures Contains(s, t) <==> exists k :: OccursAt(s, t, k)
    decreases |s|
  {
    if StartsWith(s, t) {
      assert OccursAt(s, t, 0);
    } else if |s| > 0 {
      ContainsIffOccurs(s[1..], t);
      if k :| OccursAt(s[1..], t, k) {
        assert s[k + 1..k + 1 + |t|] == s[1..][k..k + |t|];
        assert OccursAt(s, t, k + 1);
      }
      if k :| OccursAt(s, t, k) {
        assert k != 0;
        assert s[1..][k - 1..k - 1 + |t|] == s[k..k + |t|];
        assert OccursAt(s[1..], t, k - 1);
      }
    }
  }

  /** A contained string is never longer than the string it is found in. */
  lemma {:induction false} ContainsIsShorter(s: string, t: string)
    requires Contains(s, t)
    ensures |t| <= |s|
    decreases |s|
  {
    if !StartsWith(s, t) {
      ContainsIsShorter(s[1..], t);
    }
  }

  /** A one-character string is contained exactly when that character occurs. */
  lemma {:induction false} ContainsCharIff(s: string, c: char)
    ensures Contains(s, [c]) <==> c in s
    decreases |s|
  {
    if |s| > 0 {
      ContainsCharIff(s[1..], c);
      assert s == [s[0]] + s[1..];
    }
  }
}
