/**
 * The string operations `searchBooks` uses: `toLowerCase` (restricted to
 * ASCII letters) and `includes` (substring test).
 */
module Text {

  /** Lower-cases one character: 'A'..'Z' map to 'a'..'z', everything else is kept. */
  function LowerChar(c: char): char
  {
    if 'A' <= c <= 'Z' then (c as int + 32) as char else c
  }

  /** `toLowerCase`, character by character. */
  function ToLower(s: string): string
  {
    seq(|s|, i requires 0 <= i < |s| => LowerChar(s[i]))
  }

  /** `q` occurs in `s` starting at position `k`. */
  predicate OccursAt(s: string, q: string, k: int)
  {
    0 <= k && k + |q| <= |s| && s[k..k + |q|] == q
  }

  /** `s.includes(q)`: `q` is a prefix of `s` or of one of its suffixes. */
  predicate Includes(s: string, q: string)
    decreases |s|
  {
    |q| <= |s| && (s[..|q|] == q || (s != [] && Includes(s[1..], q)))
  }

  /** `Includes` holds exactly when `q` occurs somewhere in `s`. */
  lemma {:induction false} IncludesIff(s: string, q: string)
    ensures Includes(s, q) <==> exists k :: OccursAt(s, q, k)
  {
    if |q| <= |s| && s != [] {
      IncludesIff(s[1..], q);
      if s[..|q|] == q {
        assert s[0..|q|] == s[..|q|];
        assert OccursAt(s, q, 0);
      }
      if exists k :: OccursAt(s[1..], q, k) {
        var k :| OccursAt(s[1..], q, k);
        assert s[k + 1..k + 1 + |q|] == s[1..][k..k + |q|];
        assert OccursAt(s, q, k + 1);
      }
      if exists k :: OccursAt(s, q, k) {
        var k :| OccursAt(s, q, k);
        if k > 0 {
          assert s[1..][k - 1..k - 1 + |q|] == s[k..k + |q|];
          assert OccursAt(s[1..], q, k - 1);
        } else {
          assert s[..|q|] == s[k..k + |q|];
        }
      }
    } else if |q| <= |s| {
      assert OccursAt(s, q, 0);
    }
  }

  /** The empty string is included in every string. */
  lemma EmptyIncluded(s: string)
    ensures Includes(s, "")
  {
  }

  /** No upper-case ASCII letter survives lower-casing. */
  lemma ToLowerHasNoUpper(s: string)
    ensures |ToLower(s)| == |s|
    ensures forall i :: 0 <= i < |s| ==> !('A' <= ToLower(s)[i] <= 'Z')
  {
  }

  /** Lower-casing is idempotent. */
  lemma ToLowerIdempotent(s: string)
    ensures ToLower(ToLower(s)) == ToLower(s)
  {
  }

  /** `s` and `t` differ at most in the case of ASCII letters. */
  predicate SameUpToCase(s: string, t: string)
  {
    |s| == |t| &&
    forall i :: 0 <= i < |s| ==>
      s[i] == t[i] ||
      ('A' <= s[i] <= 'Z' && t[i] as int == s[i] as int + 32) ||
      ('A' <= t[i] <= 'Z' && s[i] as int == t[i] as int + 32)
  }

  /** Strings that differ only in letter case lower-case to the same string. */
  lemma ToLowerCaseBlind(s: string, t: string)
    requires SameUpToCase(s, t)
    ensures ToLower(s) == ToLower(t)
  {
  }
}
