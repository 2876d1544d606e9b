/** SQLite's LIKE operator as the search query uses it (no ESCAPE clause). */
module SqlLike {
  import opened Text

  /** `s LIKE p`: '%' matches any run of characters, '_' exactly one character,
      and every other pattern character itself. SQLite's LIKE also ignores ASCII
      case; the search query lower-cases both sides before matching, so the
      model compares the characters as they are. */
  predicate Like(s: string, p: string)
    decreases |s| + |p|
  {
    if p == [] then s == []
    else if p[0] == '%' then Like(s, p[1..]) || (s != [] && Like(s[1..], p))
    else s != [] && (p[0] == '_' || p[0] == s[0]) && Like(s[1..], p[1..])
  }

  /** `f` holds neither of LIKE's two wildcards. */
  predicate WildcardFree(f: string)
  {
    forall i :: 0 <= i < |f| ==> f[i] != '%' && f[i] != '_'
  }

  /** A lone '%' matches every string. */
  lemma {:induction false} PercentMatchesAll(s: string)
    ensures Like(s, "%")
  {
    assert "%"[1..] == "";
    if s != [] {
      PercentMatchesAll(s[1..]);
    }
  }

  /** A wildcard-free text followed by '%' matches exactly the strings it is a prefix of. */
  lemma {:induction false} PrefixPattern(s: string, f: string)
    requires WildcardFree(f)
    ensures Like(s, f + "%") <==> f <= s
  {
    if f == [] {
      assert f + "%" == "%";
      PercentMatchesAll(s);
    } else {
      var p := f + "%";
      assert p[0] == f[0] && p[1..] == f[1..] + "%";
      assert WildcardFree(f[1..]) by {
        assert forall i :: 0 <= i < |f[1..]| ==> f[1..][i] == f[i + 1];
      }
      if s != [] {
        PrefixPattern(s[1..], f[1..]);
        assert f <= s <==> f[0] == s[0] && f[1..] <= s[1..];
      }
    }
  }

  /** A leading '%' lets the rest of the pattern match any suffix. */
  lemma {:induction false} LeadingPercent(s: string, q: string)
    ensures Like(s, "%" + q) <==> exists k :: 0 <= k <= |s| && Like(s[k..], q)
  {
    var p := "%" + q;
    assert p[0] == '%' && p[1..] == q;
    assert s[0..] == s;
    if s != [] {
      LeadingPercent(s[1..], q);
      forall k | 1 <= k <= |s|
        ensures s[1..][k - 1..] == s[k..]
      {
      }
      if Like(s[1..], p) {
        var k :| 0 <= k <= |s[1..]| && Like(s[1..][k..], q);
        assert Like(s[k + 1..], q);
      }
      if k :| 0 <= k <= |s| && Like(s[k..], q) {
        if k > 0 {
          assert Like(s[1..][k - 1..], q);
        }
      }
    }
  }

  /** `s LIKE '%' || f || '%'` holds exactly when `f` occurs in `s`, for a wildcard-free `f`. */
  lemma SubstringPattern(s: string, f: string)
    requires WildcardFree(f)
    ensures Like(s, "%" + f + "%") <==> Contains(s, f)
  {
    assert "%" + f + "%" == "%" + (f + "%");
    LeadingPercent(s, f + "%");
    if Contains(s, f) {
      var k :| OccursAt(s, f, k);
      PrefixPattern(s[k..], f);
      assert f <= s[k..];
    }
    if k :| 0 <= k <= |s| && Like(s[k..], f + "%") {
      PrefixPattern(s[k..], f);
      assert OccursAt(s, f, k);
    }
  }
}
