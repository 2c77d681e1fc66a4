/**
 * The meaning of an SQL `LIKE` pattern without an escape character, as the database applies the
 * patterns the `search_columns` tool builds: `%` matches any run of characters, `_` any single
 * character, every other character itself.
 */
module SqlLike {
  import opened JsText

  predicate Like(pattern: string, s: string)
    decreases |pattern| + |s|
  {
    if pattern == [] then s == []
    else if pattern[0] == '%' then Like(pattern[1..], s) || (s != [] && Like(pattern, s[1..]))
    else s != [] && (pattern[0] == '_' || pattern[0] == s[0]) && Like(pattern[1..], s[1..])
  }

  /** A pattern character that matches only itself. */
  predicate IsLiteral(t: string) {
    forall i :: 0 <= i < |t| ==> t[i] != '%' && t[i] != '_'
  }

  /** A pattern without `%`: each of its characters stands for exactly one character. */
  predicate NoPercent(t: string) {
    forall i :: 0 <= i < |t| ==> t[i] != '%'
  }

  /** The pattern character `p` matches the character `c`: `_` matches any character. */
  predicate CharMatches(p: char, c: char) {
    p == '_' || p == c
  }

  /** The `%`-free pattern `t` matches `w` character by character. */
  predicate Fits(t: string, w: string) {
    |t| == |w| && forall k :: 0 <= k < |t| ==> CharMatches(t[k], w[k])
  }

  /** The window of `s` starting at index `i` matches the `%`-free pattern `t`. */
  predicate FitsAt(s: string, t: string, i: int) {
    0 <= i && i + |t| <= |s| && Fits(t, s[i..i + |t|])
  }

  /** Some window of `s` matches the `%`-free pattern `t` character by character. */
  predicate FitsWithin(s: string, t: string) {
    exists i :: 0 <= i <= |s| && FitsAt(s, t, i)
  }

  lemma FitsCons(t: string, w: string)
    requires t != [] && |t| == |w|
    ensures Fits(t, w) <==> CharMatches(t[0], w[0]) && Fits(t[1..], w[1..])
  {
    if CharMatches(t[0], w[0]) && Fits(t[1..], w[1..]) {
      forall k | 0 <= k < |t| ensures CharMatches(t[k], w[k]) {
        if k > 0 {
          assert t[1..][k - 1] == t[k] && w[1..][k - 1] == w[k];
        }
      }
    }
  }

  /** `%` on its own matches every string. */
  lemma {:induction false} LikeAnything(s: string)
    ensures Like("%", s)
    decreases |s|
  {
    if s != [] {
      LikeAnything(s[1..]);
    }
  }

  /** A literal followed by `%` matches exactly the strings that start with the literal. */
  lemma {:induction false} LikePrefix(t: string, s: string)
    requires IsLiteral(t)
    ensures Like(t + "%", s) <==> StartsWith(s, t)
    decreases |t|
  {
    if t == [] {
      assert t + "%" == "%";
      LikeAnything(s);
    } else {
      assert (t + "%")[1..] == t[1..] + "%";
      if s != [] {
        LikePrefix(t[1..], s[1..]);
        if t[0] == s[0] && StartsWith(s[1..], t[1..]) {
          assert s[..|t|] == [s[0]] + s[1..][..|t| - 1];
        }
        if StartsWith(s, t) {
          assert s[1..][..|t| - 1] == s[..|t|][1..];
        }
      }
    }
  }

  /** A `%`-free pattern followed by `%` matches exactly the strings whose start it fits. */
  lemma {:induction false} LikePrefixFits(t: string, s: string)
    requires NoPercent(t)
    ensures Like(t + "%", s) <==> |t| <= |s| && Fits(t, s[..|t|])
    decreases |t|
  {
    if t == [] {
      assert t + "%" == "%";
      LikeAnything(s);
    } else {
      assert (t + "%")[0] == t[0] && (t + "%")[1..] == t[1..] + "%";
      assert NoPercent(t[1..]) by {
        forall i | 0 <= i < |t| - 1 ensures t[1..][i] != '%' {
          assert t[1..][i] == t[i + 1];
        }
      }
      if s != [] {
        LikePrefixFits(t[1..], s[1..]);
        if |t| <= |s| {
          assert s[1..][..|t| - 1] == s[..|t|][1..];
          FitsCons(t, s[..|t|]);
        }
      }
    }
  }

  /** A leading `%` lets the rest of the pattern match any suffix. */
  lemma {:induction false} LikeSuffix(q: string, s: string)
    ensures Like("%" + q, s) <==> exists i :: 0 <= i <= |s| && Like(q, s[i..])
    decreases |s|
  {
    var p := "%" + q;
    assert p[1..] == q;
    assert s[0..] == s;
    if s != [] {
      LikeSuffix(q, s[1..]);
      forall i | 1 <= i <= |s| ensures s[1..][i - 1..] == s[i..] { }
      if j :| 0 <= j <= |s[1..]| && Like(q, s[1..][j..]) {
        assert s[1..][j..] == s[j + 1..];
      }
      if i :| 0 <= i <= |s| && Like(q, s[i..]) && i > 0 {
        assert s[1..][i - 1..] == s[i..];
      }
    }
  }

  /** `%t%` with a literal `t` matches exactly the strings that contain `t`. */
  lemma LikeContains(t: string, s: string)
    requires IsLiteral(t)
    ensures Like("%" + t + "%", s) <==> Includes(s, t)
  {
    assert "%" + t + "%" == "%" + (t + "%");
    LikeSuffix(t + "%", s);
    if Includes(s, t) {
      var i :| 0 <= i <= |s| && OccursAt(s, t, i);
      LikePrefix(t, s[i..]);
      assert s[i..][..|t|] == s[i..i + |t|];
    }
    if i :| 0 <= i <= |s| && Like(t + "%", s[i..]) {
      LikePrefix(t, s[i..]);
      assert s[i..][..|t|] == s[i..i + |t|];
      assert OccursAt(s, t, i);
    }
  }

  /**
   * `%t%` with a `%`-free `t` matches exactly the strings with a window that `t` fits, `_` in `t`
   * standing for any one character.
   */
  lemma LikeWithin(t: string, s: string)
    requires NoPercent(t)
    ensures Like("%" + t + "%", s) <==> FitsWithin(s, t)
  {
    assert "%" + t + "%" == "%" + (t + "%");
    LikeSuffix(t + "%", s);
    if FitsWithin(s, t) {
      var i :| 0 <= i <= |s| && FitsAt(s, t, i);
      LikePrefixFits(t, s[i..]);
      assert s[i..][..|t|] == s[i..i + |t|];
    }
    if i :| 0 <= i <= |s| && Like(t + "%", s[i..]) {
      LikePrefixFits(t, s[i..]);
      assert s[i..][..|t|] == s[i..i + |t|];
      assert FitsAt(s, t, i);
    }
  }
}
