/** Case-insensitive substring matching as the name search uses it:
    `toLowerCase` on both sides, then `includes`. */
module TextMatch {

  /** The ASCII part of `toLowerCase`: 'A'..'Z' become 'a'..'z', every other
      character is kept. */
  function LowerChar(c: char): (d: char)
    ensures !('A' <= d <= 'Z')
    ensures 'A' <= c <= 'Z' ==> d as int == c as int + 32
    ensures !('A' <= c <= 'Z') ==> d == c
  {
    if 'A' <= c <= 'Z' then (c as int + 32) as char else c
  }

  /** No ASCII upper-case letter occurs in `s`. */
  predicate IsLower(s: string)
  {
    forall i :: 0 <= i < |s| ==> !('A' <= s[i] <= 'Z')
  }

  /** `s.toLowerCase()`, character by character. */
  function ToLower(s: string): (r: string)
    ensures |r| == |s|
    ensures forall i :: 0 <= i < |s| ==> r[i] == LowerChar(s[i])
    ensures IsLower(r)
  {
    if s == [] then [] else [LowerChar(s[0])] + ToLower(s[1..])
  }

  /** Lower-casing twice is lower-casing once. */
  lemma ToLowerIdempotent(s: string)
    ensures ToLower(ToLower(s)) == ToLower(s)
  {
    var once := ToLower(s);
    assert forall i :: 0 <= i < |once| ==> ToLower(once)[i] == once[i];
  }

  /** A string of the same length that lower-cases `s` character by
      character is `ToLower(s)`. */
  lemma ToLowerUnique(s: string, r: string)
    requires |r| == |s| && forall k :: 0 <= k < |s| ==> r[k] == LowerChar(s[k])
    ensures r == ToLower(s)
  {
    var lowered := ToLower(s);
    assert forall k :: 0 <= k < |s| ==> r[k] == lowered[k];
  }

  /** Lower-casing commutes with taking a slice. */
  lemma ToLowerSlice(s: string, i: nat, j: nat)
    requires i <= j <= |s|
    ensures ToLower(s)[i..j] == ToLower(s[i..j])
  {
    var lowered, part := ToLower(s), s[i..j];
    var r := lowered[i..j];
    forall k | 0 <= k < |part| ensures r[k] == LowerChar(part[k]) {
      assert r[k] == lowered[i + k];
    }
    ToLowerUnique(part, r);
  }

  /** `q` occurs in `s` starting at index `i`. */
  predicate OccursAt(s: string, q: string, i: nat)
  {
    i + |q| <= |s| && s[i..i + |q|] == q
  }

  /** `s.includes(q)`: some slice of `s` is exactly `q` (the empty query is
      included in every string). */
  predicate Includes(s: string, q: string)
  {
    exists i: nat | i <= |s| :: OccursAt(s, q, i)
  }

  /** Every string includes itself. */
  lemma IncludesSelf(s: string)
    ensures Includes(s, s)
  {
    assert s[0..|s|] == s;
    assert OccursAt(s, s, 0);
  }

  /** A query that occurs with the same letter case also matches once both
      sides are lower-cased: the search never loses an exact hit. */
  lemma IncludesLowered(s: string, q: string)
    requires Includes(s, q)
    ensures Includes(ToLower(s), ToLower(q))
  {
    var i: nat :| i <= |s| && OccursAt(s, q, i);
    var j := i + |q|;
    assert j <= |s| && s[i..j] == q;
    ToLowerSlice(s, i, j);
    var lowered := ToLower(s);
    assert |lowered| == |s| && lowered[i..j] == ToLower(q);
    assert OccursAt(lowered, ToLower(q), i);
  }
}
