/** MySQL's `LIKE` as the list views use it (`field LIKE '%term%'`), under a
    case-insensitive collation: `%` matches any run of characters, `_` any
    single character, `\` (the default escape character) followed by a
    character matches that character literally, and every other character
    matches itself up to ASCII case. The term is bound without escaping its
    own `%`, `_` and `\`, so they keep these meanings. */
module SqlLike {
  import opened PhpBuiltins

  /** `s LIKE p`. */
  function Like(s: string, p: string): bool
    decreases |p|, |s|
  {
    if p == [] then s == []
    else if p[0] == '%' then Like(s, p[1..]) || (s != [] && Like(s[1..], p))
    else if s == [] then false
    else if p[0] == '\\' && |p| >= 2 then LowerChar(s[0]) == LowerChar(p[1]) && Like(s[1..], p[2..])
    else if p[0] == '_' then Like(s[1..], p[1..])
    else LowerChar(s[0]) == LowerChar(p[0]) && Like(s[1..], p[1..])
  }

  /** The pattern `%term%` that the handlers bind for a search term. */
  function ContainsPattern(term: string): string {
    "%" + term + "%"
  }

  /** A term in which no character has a special meaning to `LIKE`. */
  predicate NoWildcards(t: string) {
    '%' !in t && '_' !in t && '\\' !in t
  }

  /** `t` occurs in `s` at position `i`, ignoring ASCII case. */
  predicate OccursAt(s: string, t: string, i: int) {
    0 <= i && i + |t| <= |s| && Lower(s[i..i + |t|]) == Lower(t)
  }

  /** Case-insensitive substring containment. */
  predicate ContainsFold(s: string, t: string) {
    exists i :: 0 <= i <= |s| && OccursAt(s, t, i)
  }

  /** `%` alone matches every string. */
  lemma {:induction false} LikeAnyMatchesAll(s: string)
    ensures Like(s, "%")
  {
    if s != [] {
      LikeAnyMatchesAll(s[1..]);
    }
  }

  /** A wildcard-free pattern followed by `%` matches exactly the strings that
      start with it, up to case. */
  lemma {:induction false} LikePrefix(s: string, t: string)
    requires NoWildcards(t)
    ensures Like(s, t + "%") <==> |t| <= |s| && Lower(s[..|t|]) == Lower(t)
  {
    if t == [] {
      LikeAnyMatchesAll(s);
      assert t + "%" == "%";
    } else {
      var p := t + "%";
      assert p[0] == t[0] && p[1..] == t[1..] + "%";
      if s == [] {
      } else {
        LikePrefix(s[1..], t[1..]);
        if |t| <= |s| {
          assert Lower(s[..|t|]) == [LowerChar(s[0])] + Lower(s[1..][..|t| - 1]);
          assert Lower(t) == [LowerChar(t[0])] + Lower(t[1..]);
        }
      }
    }
  }

  /** A pattern that starts with `%` matches when its rest matches some suffix. */
  lemma {:induction false} LikeLeadingAny(s: string, q: string)
    ensures Like(s, "%" + q) <==> exists i :: 0 <= i <= |s| && Like(s[i..], q)
  {
    var p := "%" + q;
    assert p[0] == '%' && p[1..] == q;
    if s == [] {
      assert s[0..] == s;
    } else {
      LikeLeadingAny(s[1..], q);
      if Like(s, p) {
        if Like(s, q) {
          assert s[0..] == s;
        } else {
          var i :| 0 <= i <= |s| - 1 && Like(s[1..][i..], q);
          assert s[1..][i..] == s[i + 1..];
        }
      }
      if exists i :: 0 <= i <= |s| && Like(s[i..], q) {
        var i :| 0 <= i <= |s| && Like(s[i..], q);
        if i == 0 {
          assert s[0..] == s;
        } else {
          assert s[1..][i - 1..] == s[i..];
        }
      }
    }
  }

  /** For a term without wildcards, `field LIKE '%term%'` is exactly
      case-insensitive substring containment. */
  lemma LikeContains(s: string, t: string)
    requires NoWildcards(t)
    ensures Like(s, ContainsPattern(t)) <==> ContainsFold(s, t)
  {
    assert ContainsPattern(t) == "%" + (t + "%");
    LikeLeadingAny(s, t + "%");
    if Like(s, ContainsPattern(t)) {
      var i :| 0 <= i <= |s| && Like(s[i..], t + "%");
      LikePrefix(s[i..], t);
      assert s[i..][..|t|] == s[i..i + |t|];
      assert OccursAt(s, t, i);
    }
    if ContainsFold(s, t) {
      var i :| 0 <= i <= |s| && OccursAt(s, t, i);
      LikePrefix(s[i..], t);
      assert s[i..][..|t|] == s[i..i + |t|];
    }
  }

  /** A `\` in a search term is an escape, not a character to look for: the
      term `a\b` finds "ab", and a term ending in `\` turns the closing `%`
      into a literal percent sign. */
  lemma EscapeInTerm()
    ensures Like("ab", ContainsPattern("a\\b"))
    ensures !ContainsFold("ab", "a\\b")
    ensures Like("xa%", ContainsPattern("a\\")) && !Like("xab", ContainsPattern("a\\"))
  {
    var p := ContainsPattern("a\\b");
    assert p == "%a\\b%";
    assert Like("ab", p[1..]) by {
      assert p[1..][2..] == "b%" && p[1..][2..][1..] == "%";
      assert Like("", "");
    }
    assert !OccursAt("ab", "a\\b", 0);
    var q := ContainsPattern("a\\");
    assert q == "%a\\%";
    assert Like("a%", q[1..]) by {
      assert q[1..][1..] == "\\%" && q[1..][1..][2..] == "";
    }
    assert Like("xa%", q) by {
      assert "xa%"[1..] == "a%";
    }
    assert !Like("xab", q) by {
      assert !Like("xab", q[1..]);
      assert "xab"[1..] == "ab";
      assert Like("ab", q) == (Like("ab", q[1..]) || Like("b", q));
      assert !Like("ab", q[1..]) by {
        assert q[1..][1..] == "\\%";
        assert !Like("b", "\\%");
      }
      assert !Like("b", q);
    }
  }

  /** Every string contains the empty term, so `LIKE '%%'` keeps every row. */
  lemma EmptyPatternMatchesAll(s: string)
    ensures Like(s, ContainsPattern(""))
  {
    LikeContains(s, "");
    assert 0 <= 0 <= |s| && OccursAt(s, "", 0);
  }
}
