/**
 * `LIKE` with `ESCAPE '\'` (section 9.7.1 of the PostgreSQL manual) and the pattern the
 * product lists build from a name search.
 */
module SearchPattern {
  import opened Prelude
  import opened Texts

  const SEARCH_ESCAPE := '\\'

  predicate IsSpecial(c: char) { c == '\\' || c == '%' || c == '_' }

  /** Whether `s` matches the pattern `p`: `%` any run, `_` any one character, `\` a literal. */
  predicate Like(s: string, p: string)
    decreases |p| + |s|
  {
    if p == "" then s == ""
    else if p[0] == '%' then Like(s, p[1..]) || (s != "" && Like(s[1..], p))
    else if p[0] == '_' then s != "" && Like(s[1..], p[1..])
    else if p[0] == SEARCH_ESCAPE then |p| >= 2 && s != "" && s[0] == p[1] && Like(s[1..], p[2..])
    else s != "" && s[0] == p[0] && Like(s[1..], p[1..])
  }

  /** PostgreSQL refuses a pattern that ends in the middle of an escape. */
  predicate Complete(p: string)
    decreases |p|
  {
    if p == "" then true
    else if p[0] == SEARCH_ESCAPE then |p| >= 2 && Complete(p[2..])
    else Complete(p[1..])
  }

  /** `ILIKE`: both sides are folded, then matched. */
  predicate ILike(fold: char -> char, s: string, p: string) { Like(Map(fold, s), Map(fold, p)) }

  /** Case folding neither moves a metacharacter nor produces one. */
  ghost predicate KeepsSpecials(fold: char -> char) {
    forall c :: (IsSpecial(c) ==> fold(c) == c) && (IsSpecial(fold(c)) ==> IsSpecial(c))
  }

  /** Puts the escape character before every metacharacter. */
  function Escape(s: string): string {
    if s == "" then ""
    else (if IsSpecial(s[0]) then [SEARCH_ESCAPE, s[0]] else [s[0]]) + Escape(s[1..])
  }

  function NameSearchPattern(query: Option<string>): Option<string> {
    match query
    case None => None
    case Some(q) =>
      var trimmed := Trim(q);
      if trimmed == "" then None else Some("%" + Escape(trimmed) + "%")
  }

  /** `q` occurs in `s` as a literal substring. */
  ghost predicate Occurs(q: string, s: string) {
    exists k :: 0 <= k <= |s| && q <= s[k..]
  }

  lemma {:induction false} LikeAnything(s: string)
    ensures Like(s, "%")
  {
    assert "%"[1..] == "";
    if s != "" { LikeAnything(s[1..]); }
  }

  function EscapedChar(c: char): string { if IsSpecial(c) then [SEARCH_ESCAPE, c] else [c] }

  /** An escaped character asks for itself. */
  lemma {:induction false} LikeHead(s: string, c: char, rest: string)
    ensures Like(s, EscapedChar(c) + rest) <==> s != "" && s[0] == c && Like(s[1..], rest)
  {
    var p := EscapedChar(c) + rest;
    if IsSpecial(c) {
      assert p == [SEARCH_ESCAPE, c] + rest && p[2..] == rest;
    } else {
      assert p == [c] + rest && p[1..] == rest;
    }
  }

  lemma {:induction false} LikePrefix(s: string, q: string)
    ensures Like(s, Escape(q) + "%") <==> q <= s
  {
    if q == "" {
      LikeAnything(s);
      assert Escape(q) + "%" == "%";
    } else {
      LikeHead(s, q[0], Escape(q[1..]) + "%");
      assert Escape(q) + "%" == EscapedChar(q[0]) + (Escape(q[1..]) + "%");
      if s != "" {
        LikePrefix(s[1..], q[1..]);
        assert q <= s <==> q[0] == s[0] && q[1..] <= s[1..] by {
          assert q == [q[0]] + q[1..] && s == [s[0]] + s[1..];
        }
      }
    }
  }

  /** `path LIKE prefix || '%'` is the prefix test when the prefix carries no metacharacter. */
  lemma {:induction false} LikePlainPrefix(s: string, q: string)
    requires forall i :: 0 <= i < |q| ==> !IsSpecial(q[i])
    ensures Like(s, q + "%") <==> q <= s
  {
    EscapePlain(q);
    LikePrefix(s, q);
  }

  lemma {:induction false} EscapePlain(q: string)
    requires forall i :: 0 <= i < |q| ==> !IsSpecial(q[i])
    ensures Escape(q) == q
  {
    if q != "" {
      EscapePlain(q[1..]);
      assert q == [q[0]] + q[1..];
    }
  }

  lemma {:induction false} LikeInfix(s: string, q: string)
    ensures Like(s, "%" + Escape(q) + "%") <==> Occurs(q, s)
  {
    var rest := Escape(q) + "%";
    var p := "%" + Escape(q) + "%";
    assert p[0] == '%' && p[1..] == rest;
    LikePrefix(s, q);
    assert s[0..] == s;
    if s != "" {
      LikeInfix(s[1..], q);
      if k :| 0 <= k <= |s| && q <= s[k..] {
        if k > 0 {
          assert s[k..] == s[1..][k - 1..];
          assert Occurs(q, s[1..]);
        }
      }
      if k :| 0 <= k <= |s| - 1 && q <= s[1..][k..] {
        assert s[1..][k..] == s[k + 1..];
        assert Occurs(q, s);
      }
    } else {
      assert forall k :: 0 <= k <= |s| ==> s[k..] == s;
    }
  }

  lemma {:induction false} FoldEscape(fold: char -> char, q: string)
    requires KeepsSpecials(fold)
    ensures Map(fold, Escape(q)) == Escape(Map(fold, q))
  {
    var m := Map(fold, q);
    if q == "" {
      assert m == "";
    } else {
      FoldEscape(fold, q[1..]);
      assert m[1..] == Map(fold, q[1..]);
      var head := if IsSpecial(q[0]) then [SEARCH_ESCAPE, q[0]] else [q[0]];
      assert IsSpecial(SEARCH_ESCAPE);
      assert IsSpecial(m[0]) <==> IsSpecial(q[0]);
      assert Map(fold, head) == if IsSpecial(m[0]) then [SEARCH_ESCAPE, m[0]] else [m[0]];
      assert Map(fold, head + Escape(q[1..])) == Map(fold, head) + Map(fold, Escape(q[1..]));
    }
  }

  lemma {:induction false} EscapeComplete(q: string)
    ensures Complete(Escape(q) + "%")
  {
    if q == "" {
      assert Escape(q) + "%" == "%" && "%"[1..] == "";
    } else {
      EscapeComplete(q[1..]);
      var rest := Escape(q[1..]) + "%";
      var p := Escape(q) + "%";
      if IsSpecial(q[0]) {
        assert p == [SEARCH_ESCAPE, q[0]] + rest;
        assert p[2..] == rest;
      } else {
        assert p == [q[0]] + rest;
        assert p[1..] == rest;
      }
    }
  }

  /**
   * The search means what the seller typed: no pattern exactly for a blank query, and otherwise
   * a pattern PostgreSQL accepts, matching a name exactly when the trimmed query occurs in it
   * literally, whatever `%`, `_` and `\` it carries.
   */
  lemma {:induction false} NameSearchIsLiteral(fold: char -> char, query: Option<string>, name: string)
    requires KeepsSpecials(fold)
    ensures NameSearchPattern(query).None? <==> query.None? || forall i :: 0 <= i < |query.value| ==>
                IsSpace(query.value[i])
    ensures NameSearchPattern(query).Some? ==>
              var p := NameSearchPattern(query).value;
              && Complete(p)
              && (ILike(fold, name, p) <==> Occurs(Map(fold, Trim(query.value)), Map(fold, name)))
  {
    if query.Some? {
      var t := Trim(query.value);
      TrimBlank(query.value);
      if t != "" {
        var p := "%" + Escape(t) + "%";
        EscapeComplete(t);
        assert p[1..] == Escape(t) + "%";
        FoldEscape(fold, t);
        assert IsSpecial('%');
        assert Map(fold, p) == "%" + Map(fold, Escape(t)) + "%";
        LikeInfix(Map(fold, name), Map(fold, t));
      }
    }
  }

  /** What escaping buys: the bare pattern for `_` accepts every name with a character in it. */
  lemma {:induction false} UnescapedUnderscoreMatchesAll(name: string)
    requires name != ""
    ensures Like(name, "%_%")
    ensures Like(name, "%" + Escape("_") + "%") <==> '_' in name
  {
    LikeAnything(name[1..]);
    assert "_%"[1..] == "%";
    assert "%_%"[1..] == "_%";
    LikeInfix(name, "_");
    if '_' in name {
      var k :| 0 <= k < |name| && name[k] == '_';
      assert "_" <= name[k..];
    }
    if k :| 0 <= k <= |name| && "_" <= name[k..] {
      assert name[k] == '_';
    }
  }
}
