/**
 * The SQL `LIKE` test the criteria builder emits for `MATCH` and `MATCH_END`.
 * The pattern is passed without an escape character, so `%` in it matches any
 * run of characters and `_` any single character.
 */
module SqlLike {
  import opened JavaText

  function Like(s: string, p: string): bool
    decreases |s| + |p|
  {
    if p == [] then s == []
    else if p[0] == '%' then Like(s, p[1..]) || (s != [] && Like(s[1..], p))
    else s != [] && (p[0] == '_' || p[0] == s[0]) && Like(s[1..], p[1..])
  }

  predicate IsWildcard(c: char) { c == '%' || c == '_' }

  predicate NoWildcards(w: string) {
    forall k :: 0 <= k < |w| ==> !IsWildcard(w[k])
  }

  /** A lone `%` matches every string. */
  lemma {:induction false} LikeAnySuffix(s: string)
    ensures Like(s, "%")
  {
    if s != [] {
      LikeAnySuffix(s[1..]);
    }
  }

  /** A pattern opening with literal characters matches exactly the strings that start with them. */
  lemma {:induction false} LikeLiteralPrefix(s: string, w: string, q: string)
    requires NoWildcards(w)
    ensures Like(s, w + q) <==> StartsWith(s, w) && Like(s[|w|..], q)
  {
    if w == [] {
      assert w + q == q;
    } else {
      assert (w + q)[0] == w[0];
      assert (w + q)[1..] == w[1..] + q;
      if s != [] {
        LikeLiteralPrefix(s[1..], w[1..], q);
        if |w| <= |s| { assert s[1..][|w| - 1..] == s[|w|..]; }
        assert StartsWith(s, w) <==> s[0] == w[0] && StartsWith(s[1..], w[1..]) by {
          if s[0] == w[0] && StartsWith(s[1..], w[1..]) {
            assert s[..|w|] == [s[0]] + s[1..][..|w| - 1];
            assert w == [w[0]] + w[1..];
          }
          if StartsWith(s, w) {
            assert s[0] == s[..|w|][0];
            assert s[1..][..|w| - 1] == s[..|w|][1..];
          }
        }
      }
    }
  }

  /** A pattern opening with `%` matches when the rest matches some suffix. */
  lemma {:induction false} LikeLeadingPercent(s: string, q: string)
    ensures Like(s, "%" + q) <==> exists i :: 0 <= i <= |s| && Like(s[i..], q)
    decreases |s|
  {
    var p := "%" + q;
    assert p[1..] == q;
    assert s[0..] == s;
    if s != [] {
      LikeLeadingPercent(s[1..], q);
      forall i | 1 <= i <= |s| ensures s[1..][i - 1..] == s[i..] { }
      if exists i :: 0 <= i <= |s| && Like(s[i..], q) {
        var i :| 0 <= i <= |s| && Like(s[i..], q);
        if i > 0 {
          assert Like(s[1..][i - 1..], q);
        }
      }
    }
  }

  /** Without wildcards in `v`, the `MATCH` pattern `%v%` tests containment. */
  lemma MatchPatternIsContainment(a: string, v: string)
    requires NoWildcards(v)
    ensures Like(a, "%" + v + "%") <==> Contains(a, v)
  {
    assert "%" + v + "%" == "%" + (v + "%");
    LikeLeadingPercent(a, v + "%");
    forall i | 0 <= i <= |a|
      ensures Like(a[i..], v + "%") <==> OccursAt(a, v, i)
    {
      MatchEndPatternIsPrefix(a[i..], v);
      if i + |v| <= |a| {
        assert a[i..][..|v|] == a[i..i + |v|];
      }
    }
  }

  /** Without wildcards in `v`, the `MATCH_END` pattern `v%` tests for a prefix. */
  lemma MatchEndPatternIsPrefix(a: string, v: string)
    requires NoWildcards(v)
    ensures Like(a, v + "%") <==> StartsWith(a, v)
  {
    LikeLiteralPrefix(a, v, "%");
    if StartsWith(a, v) {
      LikeAnySuffix(a[|v|..]);
    }
  }

  /** Lower-casing neither adds nor removes wildcards. */
  lemma LowerKeepsWildcards(v: string)
    ensures NoWildcards(Lower(v)) <==> NoWildcards(v)
  {
  }

  /** `_` matches any character: "%a_c%" matches "abc", which does not contain "a_c". */
  lemma UnderscoreMatchesAnyChar()
    ensures Like("abc", "%a_c%")
    ensures !Contains("abc", "a_c")
  {
    var a := "abc";
    assert "%a_c%"[1..] == "a_c%";
    assert Like(a, "a_c%") by {
      assert a[1..] == "bc" && "a_c%"[1..] == "_c%";
      assert a[1..][1..] == "c" && "_c%"[1..] == "c%";
      assert "c"[1..] == [] && "c%"[1..] == "%";
      LikeAnySuffix([]);
    }
    forall i | 0 <= i <= |a| ensures !OccursAt(a, "a_c", i) {
      if i <= |a| - 3 {
        assert a[i..i + 3][1] == a[i + 1];
      }
    }
  }
}
