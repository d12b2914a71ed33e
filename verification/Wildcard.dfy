/**
 * The filename wildcard matcher against ordinary glob semantics.
 *
 * The matcher's loop over a '*' in mid-pattern never tries the empty suffix, so for
 * patterns ending in "**" it asks for one character more than a glob does; for all
 * others it is the glob.
 */
module Wildcard {

  // ------------------------------------------------------------ ordinary glob

  /** ASCII folding, as tolower does it in the C locale. */
  function Lower(c: char): char {
    if 'A' <= c <= 'Z' then (c as int + 32) as char else c
  }

  predicate IsSlash(c: char) { c == '/' || c == '\\' }

  /** One pattern character other than '*' accepts one character. */
  predicate Accepts(p: char, c: char) {
    if p == '?' then true
    else if IsSlash(p) then IsSlash(c)
    else Lower(c) == Lower(p)
  }

  /** Glob matching: '*' stands for any run of characters, the empty one included. */
  predicate Glob(pattern: string, str: string)
    decreases |pattern|, |str|
  {
    if pattern == "" then str == ""
    else if pattern[0] == '*' then Glob(pattern[1..], str) || (str != "" && Glob(pattern, str[1..]))
    else str != "" && Accepts(pattern[0], str[0]) && Glob(pattern[1..], str[1..])
  }

  /** A star matches exactly when what follows it matches some suffix. */
  lemma {:induction false} StarTriesSuffixes(rest: string, str: string)
    ensures Glob("*" + rest, str) <==> exists k :: 0 <= k <= |str| && Glob(rest, str[k..])
    decreases |str|
  {
    assert ("*" + rest)[1..] == rest;
    assert str[0..] == str;
    if str != "" {
      StarTriesSuffixes(rest, str[1..]);
      assert forall k :: 1 <= k <= |str| ==> str[k..] == str[1..][k - 1..];
      if exists k :: 0 <= k <= |str[1..]| && Glob(rest, str[1..][k..]) {
        var k :| 0 <= k <= |str[1..]| && Glob(rest, str[1..][k..]);
        assert Glob(rest, str[k + 1..]);
      }
      if exists k :: 0 <= k <= |str| && Glob(rest, str[k..]) {
        var k :| 0 <= k <= |str| && Glob(rest, str[k..]);
        assert k > 0 ==> Glob(rest, str[1..][k - 1..]);
      }
    }
  }

  predicate AllStars(pattern: string) { forall i :: 0 <= i < |pattern| ==> pattern[i] == '*' }

  /** A pattern with a character other than '*' in it does not match the empty string; one of stars alone does. */
  lemma {:induction false} EmptyNeedsStars(pattern: string)
    ensures Glob(pattern, "") <==> AllStars(pattern)
  {
    if pattern != "" && pattern[0] == '*' {
      EmptyNeedsStars(pattern[1..]);
      assert AllStars(pattern) <==> AllStars(pattern[1..]) by {
        assert forall i :: 1 <= i < |pattern| ==> pattern[i] == pattern[1..][i - 1];
      }
    }
  }

  // ------------------------------------------------------------ what the matcher computes

  predicate EndsInTwoStars(pattern: string) {
    |pattern| >= 2 && pattern[|pattern| - 1] == '*' && pattern[|pattern| - 2] == '*'
  }

  /** The pattern the matcher really matches: a tail of two stars or more asks for at least one character. */
  function Effective(pattern: string): string {
    if AllStars(pattern) && |pattern| >= 2 then "?*"
    else if pattern == "" then ""
    else [pattern[0]] + Effective(pattern[1..])
  }

  /** Only a tail of two stars or more makes a difference. */
  lemma {:induction false} EffectiveIsUsuallyItself(pattern: string)
    requires !EndsInTwoStars(pattern)
    ensures Effective(pattern) == pattern
  {
    if pattern != "" && !(AllStars(pattern) && |pattern| >= 2) {
      EffectiveIsUsuallyItself(pattern[1..]);
      assert pattern == [pattern[0]] + pattern[1..];
    }
  }

  /** The effective pattern of something that is not stars alone keeps a character no empty string can match. */
  lemma {:induction false} EffectiveNeedsACharacter(pattern: string)
    requires pattern != "*" && pattern != ""
    ensures !AllStars(Effective(pattern))
  {
    if AllStars(pattern) && |pattern| >= 2 {
      assert Effective(pattern)[0] == '?';
    } else if pattern[0] != '*' {
      assert Effective(pattern)[0] == pattern[0];
    } else {
      var rest := pattern[1..];
      assert pattern == ['*'] + rest;
      EffectiveNeedsACharacter(rest);
      var i :| 0 <= i < |Effective(rest)| && Effective(rest)[i] != '*';
      assert Effective(pattern)[i + 1] == Effective(rest)[i];
    }
  }

  /** What the mid-pattern loop decides: the rest of the pattern against every suffix but the empty one. */
  lemma MidStarSkipsEmpty(rest: string, str: string)
    requires rest != ""
    ensures Glob(Effective("*" + rest), str) <==> exists k :: 0 <= k < |str| && Glob(Effective(rest), str[k..])
  {
    assert ("*" + rest)[1..] == rest;
    if AllStars(rest) {
      assert AllStars("*" + rest) && Effective("*" + rest) == "?*";
      NonEmptyIsEnough(rest, str);
    } else {
      var i :| 0 <= i < |rest| && rest[i] != '*';
      assert ("*" + rest)[i + 1] != '*';
      assert Effective("*" + rest) == "*" + Effective(rest);
      StarTriesSuffixes(Effective(rest), str);
      EffectiveNeedsACharacter(rest);
      EmptyNeedsStars(Effective(rest));
      assert str[|str|..] == "";
    }
  }

  lemma {:induction false} StarMatchesAll(str: string)
    ensures Glob("*", str)
  {
    if str != "" {
      StarMatchesAll(str[1..]);
    }
  }

  lemma QuestionStar(str: string)
    ensures Glob("?*", str) <==> str != ""
  {
    assert "?*"[1..] == "*";
    if str != "" {
      StarMatchesAll(str[1..]);
    }
  }

  lemma NonEmptyIsEnough(rest: string, str: string)
    requires rest != "" && AllStars(rest)
    ensures Glob("?*", str) <==> exists k :: 0 <= k < |str| && Glob(Effective(rest), str[k..])
  {
    QuestionStar(str);
    if str != "" {
      assert str[0..] == str;
      if |rest| == 1 {
        assert rest == "*" && Effective(rest) == "*" by { assert Effective("*") == ['*'] + Effective(""); }
        StarMatchesAll(str);
      }
      assert Glob(Effective(rest), str[0..]);
    }
  }

  // ------------------------------------------------------------ the matcher

  /** The two-pointer loop, recursing at a star in mid-pattern. */
  method WildcardMatch(pattern: string, str: string) returns (matched: bool)
    ensures matched <==> Glob(Effective(pattern), str)
    decreases |pattern|
  {
    var p, s := 0, 0;
    assert pattern[0..] == pattern && str[0..] == str;
    while p < |pattern|
      invariant 0 <= p <= |pattern| && 0 <= s <= |str|
      invariant Glob(Effective(pattern), str) <==> Glob(Effective(pattern[p..]), str[s..])
    {
      var c := pattern[p];
      assert pattern[p..] == [c] + pattern[p + 1..];
      if c == '*' {
        if p + 1 == |pattern| {
          assert pattern[p..] == "*" && Effective("*") == "*" by { assert Effective("*") == ['*'] + Effective(""); }
          StarMatchesAll(str[s..]);
          return true;
        }
        MidStarSkipsEmpty(pattern[p + 1..], str[s..]);
        ghost var tail := str[s..];
        var k := 0;
        while s + k < |str|
          invariant 0 <= k <= |tail|
          invariant forall j :: 0 <= j < k ==> !Glob(Effective(pattern[p + 1..]), tail[j..])
        {
          assert str[s + k..] == tail[k..];
          var hit := WildcardMatch(pattern[p + 1..], str[s + k..]);
          if hit {
            return true;
          }
          k := k + 1;
        }
        return false;
      }
      PlainStep(c, pattern[p + 1..], str[s..]);
      if s == |str| || !Accepts(c, str[s]) {
        return false;
      }
      assert str[s..][1..] == str[s + 1..];
      s := s + 1;
      p := p + 1;
    }
    return s == |str|;
  }

  /** A character other than '*' is matched one for one. */
  lemma PlainStep(c: char, rest: string, str: string)
    requires c != '*'
    ensures Glob(Effective([c] + rest), str) <==> str != "" && Accepts(c, str[0]) && Glob(Effective(rest), str[1..])
  {
    var pattern := [c] + rest;
    assert pattern[0] == c && pattern[1..] == rest;
    assert Effective(pattern) == [c] + Effective(rest);
    assert Effective(pattern)[1..] == Effective(rest);
  }

  // ------------------------------------------------------------ exactly when it is a glob

  /** For every pattern not ending in two stars the matcher is the glob. */
  lemma MatcherIsGlob(pattern: string, str: string)
    requires !EndsInTwoStars(pattern)
    ensures Glob(Effective(pattern), str) == Glob(pattern, str)
  {
    EffectiveIsUsuallyItself(pattern);
  }

  /** The shortest string a pattern matches: one character for each that is not a star. */
  function Shortest(pattern: string): string {
    if pattern == "" then ""
    else if pattern[0] == '*' then Shortest(pattern[1..])
    else [pattern[0]] + Shortest(pattern[1..])
  }

  lemma {:induction false} ShortestMatches(pattern: string)
    ensures Glob(pattern, Shortest(pattern))
  {
    if pattern != "" {
      ShortestMatches(pattern[1..]);
    }
  }

  /** Nothing shorter than its plain characters matches a pattern. */
  lemma {:induction false} MatchesAreLongEnough(pattern: string, str: string)
    requires Glob(pattern, str)
    ensures |str| >= |Shortest(pattern)|
    decreases |pattern|, |str|
  {
    if pattern != "" {
      if pattern[0] == '*' && !Glob(pattern[1..], str) {
        MatchesAreLongEnough(pattern, str[1..]);
      } else if pattern[0] == '*' {
        MatchesAreLongEnough(pattern[1..], str);
      } else {
        MatchesAreLongEnough(pattern[1..], str[1..]);
      }
    }
  }

  lemma {:induction false} EffectiveAsksForMore(pattern: string)
    requires EndsInTwoStars(pattern)
    ensures |Shortest(Effective(pattern))| == |Shortest(pattern)| + 1
  {
    if AllStars(pattern) {
      StarsAreFree(pattern);
      assert Shortest("?*") == ['?'] + Shortest("*") && Shortest("*") == "" by {
        assert "?*"[1..] == "*" && "*"[1..] == "";
      }
    } else {
      var rest := pattern[1..];
      assert EndsInTwoStars(rest) by {
        if |pattern| == 2 {
          assert AllStars(pattern);
        }
      }
      EffectiveAsksForMore(rest);
      assert ([pattern[0]] + Effective(rest))[1..] == Effective(rest);
    }
  }

  lemma {:induction false} StarsAreFree(pattern: string)
    requires AllStars(pattern)
    ensures Shortest(pattern) == ""
  {
    if pattern != "" {
      StarsAreFree(pattern[1..]);
    }
  }

  /** A pattern ending in two stars misses a string the glob matches: the shortest one. */
  lemma TwoStarsMissTheShortest(pattern: string)
    requires EndsInTwoStars(pattern)
    ensures Glob(pattern, Shortest(pattern)) && !Glob(Effective(pattern), Shortest(pattern))
  {
    ShortestMatches(pattern);
    EffectiveAsksForMore(pattern);
    if Glob(Effective(pattern), Shortest(pattern)) {
      MatchesAreLongEnough(Effective(pattern), Shortest(pattern));
    }
  }

  /** The matcher agrees with glob on all strings exactly when the pattern does not end in two stars. */
  lemma GlobExactlyWhen(pattern: string)
    ensures (forall str :: Glob(Effective(pattern), str) == Glob(pattern, str)) <==> !EndsInTwoStars(pattern)
  {
    if EndsInTwoStars(pattern) {
      TwoStarsMissTheShortest(pattern);
    } else {
      forall str ensures Glob(Effective(pattern), str) == Glob(pattern, str) {
        MatcherIsGlob(pattern, str);
      }
    }
  }

  // ------------------------------------------------------------ case, slashes and single characters

  /** The same character but for ASCII case, or both of them slashes. */
  predicate Same(c: char, d: char) {
    || c == d
    || (c in "/\\" && d in "/\\")
    || ('A' <= c <= 'Z' && d as int == c as int + 32)
    || ('A' <= d <= 'Z' && c as int == d as int + 32)
  }

  predicate SameText(a: string, b: string) {
    |a| == |b| && forall i :: 0 <= i < |a| ==> Same(a[i], b[i])
  }

  lemma SameTails(a: string, b: string)
    requires SameText(a, b) && a != ""
    ensures SameText(a[1..], b[1..]) && Same(a[0], b[0])
  {
  }

  /** A character other than '?' and '*' accepts exactly itself in either case, or either slash. */
  lemma AcceptsTheSame(p: char, c: char)
    ensures p != '?' ==> (Accepts(p, c) <==> Same(p, c))
    ensures Accepts('?', c)
  {
  }

  /** A pattern without wildcards matches exactly the strings that differ from it in case and slashes only. */
  lemma {:induction false} PlainMatchesItself(pattern: string, str: string)
    requires '*' !in pattern && '?' !in pattern
    ensures Glob(pattern, str) <==> SameText(pattern, str)
    decreases |pattern|
  {
    if pattern != "" && str != "" {
      AcceptsTheSame(pattern[0], str[0]);
      PlainMatchesItself(pattern[1..], str[1..]);
      assert SameText(pattern, str) <==> Same(pattern[0], str[0]) && SameText(pattern[1..], str[1..]) by {
        if Same(pattern[0], str[0]) && SameText(pattern[1..], str[1..]) {
          forall i | 0 <= i < |pattern| ensures Same(pattern[i], str[i]) {
            assert i > 0 ==> pattern[i] == pattern[1..][i - 1] && str[i] == str[1..][i - 1];
          }
        }
      }
    }
  }

  /** A question mark takes exactly one character, whatever it is. */
  lemma QuestionTakesOne(rest: string, str: string)
    ensures Glob("?" + rest, str) <==> str != "" && Glob(rest, str[1..])
  {
    assert ("?" + rest)[1..] == rest;
  }

  lemma {:induction false} GlobIgnoresCase(p: string, q: string, a: string, b: string)
    requires SameText(p, q) && SameText(a, b)
    ensures Glob(p, a) == Glob(q, b)
    decreases |p|, |a|
  {
    if p != "" {
      SameTails(p, q);
      GlobIgnoresCase(p[1..], q[1..], a, b);
      if a != "" {
        SameTails(a, b);
        GlobIgnoresCase(p[1..], q[1..], a[1..], b[1..]);
        if p[0] == '*' {
          GlobIgnoresCase(p, q, a[1..], b[1..]);
        }
      }
    }
  }

  lemma {:induction false} EffectiveIgnoresCase(p: string, q: string)
    requires SameText(p, q)
    ensures SameText(Effective(p), Effective(q))
  {
    assert AllStars(p) <==> AllStars(q);
    if p != "" && !(AllStars(p) && |p| >= 2) {
      SameTails(p, q);
      EffectiveIgnoresCase(p[1..], q[1..]);
    }
  }

  /** The matcher sees neither ASCII case nor which slash was written, in the pattern or in the string. */
  lemma MatcherIgnoresCaseAndSlashes(p: string, q: string, a: string, b: string)
    requires SameText(p, q) && SameText(a, b)
    ensures Glob(Effective(p), a) == Glob(Effective(q), b)
  {
    EffectiveIgnoresCase(p, q);
    GlobIgnoresCase(Effective(p), Effective(q), a, b);
  }
}
