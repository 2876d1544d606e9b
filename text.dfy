/** Character and string helpers shared by the upload filter and the name search. */
module Text {

  /** ASCII lower-casing: 'A'..'Z' become 'a'..'z' and every other character
      is kept. This is SQLite's built-in LOWER(). */
  function LowerChar(c: char): char
  {
    if 'A' <= c <= 'Z' then (c as int + 32) as char else c
  }

  /** LOWER() applied to every character of a string. */
  function Lower(s: string): (r: string)
    ensures forall i :: 0 <= i < |r| ==> !('A' <= r[i] <= 'Z')
  {
    seq(|s|, i requires 0 <= i < |s| => LowerChar(s[i]))
  }

  /** Lower-casing twice is lower-casing once. */
  lemma LowerIdempotent(s: string)
    ensures Lower(Lower(s)) == Lower(s)
  {
  }

  lemma LowerAppend(a: string, b: string)
    ensures Lower(a + b) == Lower(a) + Lower(b)
  {
    assert forall i :: 0 <= i < |a + b| ==> Lower(a + b)[i] == (Lower(a) + Lower(b))[i];
  }

  /** `f` occurs in `s` starting at position `k`. */
  ghost predicate OccursAt(s: string, f: string, k: int)
  {
    0 <= k && k + |f| <= |s| && s[k..k + |f|] == f
  }

  /** `f` occurs in `s` as a contiguous piece. */
  ghost predicate Contains(s: string, f: string)
  {
    exists k :: OccursAt(s, f, k)
  }
}
