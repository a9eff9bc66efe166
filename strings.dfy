/**
 * The JavaScript string tests the build configuration relies on, `endsWith`
 * and `includes`, over strings as sequences of characters. `StartsWith` is
 * the step `Includes` tries at each position.
 */
module Strings {

  /** `prefix` is a prefix of `s`: the check `Includes` makes at one position. */
  predicate StartsWith(s: string, prefix: string) {
    |prefix| <= |s| && s[..|prefix|] == prefix
  }

  /** `s.endsWith(suffix)`. */
  predicate EndsWith(s: string, suffix: string) {
    |suffix| <= |s| && s[|s| - |suffix|..] == suffix
  }

  /** A string ends with `suffix` exactly when it is some stem followed by `suffix`. */
  lemma EndsWithSplit(s: string, suffix: string)
    ensures EndsWith(s, suffix) <==> |suffix| <= |s| && s == s[..|s| - |suffix|] + suffix
  {
    if EndsWith(s, suffix) {
      assert s == s[..|s| - |suffix|] + s[|s| - |suffix|..];
    }
  }

  /** A stem followed by `suffix` ends with `suffix`. */
  lemma EndsWithConcat(stem: string, suffix: string)
    ensures EndsWith(stem + suffix, suffix)
  {
    assert (stem + suffix)[|stem|..] == suffix;
  }

  /** `sub` occurs in `s` starting at index `i`. */
  predicate OccursAt(s: string, sub: string, i: int) {
    0 <= i && i + |sub| <= |s| && s[i..i + |sub|] == sub
  }

  /**
   * `s.includes(sub)`: try every start position from left to right.
   * The empty string is included in every string, as in JavaScript.
   */
  predicate Includes(s: string, sub: string)
    decreases |s|
  {
    StartsWith(s, sub) || (|s| > 0 && Includes(s[1..], sub))
  }

  /** An occurrence at any position makes the scan succeed. */
  lemma {:induction false} OccursAtIncludes(s: string, sub: string, i: int)
    requires OccursAt(s, sub, i)
    ensures Includes(s, sub)
    decreases i
  {
    if i > 0 {
      assert s[1..][i - 1..i - 1 + |sub|] == s[i..i + |sub|];
      OccursAtIncludes(s[1..], sub, i - 1);
    }
  }

  /** A successful scan has found an occurrence. */
  lemma {:induction false} IncludesOccurs(s: string, sub: string)
    requires Includes(s, sub)
    ensures exists i :: OccursAt(s, sub, i)
    decreases |s|
  {
    if StartsWith(s, sub) {
      assert OccursAt(s, sub, 0);
    } else {
      IncludesOccurs(s[1..], sub);
      var i :| OccursAt(s[1..], sub, i);
      assert s[1..][i..i + |sub|] == s[i + 1..i + 1 + |sub|];
      assert OccursAt(s, sub, i + 1);
    }
  }

  /** `includes` holds exactly when `sub` occurs somewhere in `s`. */
  lemma IncludesIff(s: string, sub: string)
    ensures Includes(s, sub) <==> exists i :: OccursAt(s, sub, i)
  {
    if Includes(s, sub) {
      IncludesOccurs(s, sub);
    }
    if exists i :: OccursAt(s, sub, i) {
      var i :| OccursAt(s, sub, i);
      OccursAtIncludes(s, sub, i);
    }
  }

  /** Each piece of an occurrence lines up with the same piece of `sub`. */
  lemma OccursAtSlice(s: string, sub: string, i: int, j: int, k: int)
    requires OccursAt(s, sub, i)
    requires 0 <= j <= k <= |sub|
    ensures s[i + j..i + k] == sub[j..k]
  {
    forall t | 0 <= t < k - j
      ensures s[i + j..i + k][t] == sub[j..k][t]
    {
      assert s[i..i + |sub|][j + t] == s[i + j + t];
    }
  }

  /** The middle part of a concatenation occurs in it, right after the first part. */
  lemma OccursInConcat(a: string, sub: string, b: string)
    ensures OccursAt(a + sub + b, sub, |a|)
    ensures Includes(a + sub + b, sub)
  {
    assert (a + sub + b)[|a|..|a| + |sub|] == sub;
    OccursAtIncludes(a + sub + b, sub, |a|);
  }

  /** A string that contains `big` contains everything `big` contains. */
  lemma IncludesInfix(s: string, big: string, small: string, j: int)
    requires Includes(s, big)
    requires OccursAt(big, small, j)
    ensures Includes(s, small)
  {
    IncludesOccurs(s, big);
    var i :| OccursAt(s, big, i);
    OccursAtSlice(s, big, i, j, j + |small|);
    OccursAtIncludes(s, small, i + j);
  }

  /** A string lacking a character of `sub` cannot include `sub`. */
  lemma {:induction false} MissingCharExcludes(s: string, sub: string, c: char)
    requires c in sub && c !in s
    ensures !Includes(s, sub)
    decreases |s|
  {
    var k :| 0 <= k < |sub| && sub[k] == c;
    assert |sub| <= |s| ==> s[..|sub|][k] == s[k];
    if |s| > 0 {
      assert c !in s[1..] by {
        assert forall x :: x in s[1..] ==> x in s;
      }
      MissingCharExcludes(s[1..], sub, c);
    }
  }
}
