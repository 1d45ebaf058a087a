/**
 * Wildcard patterns of import rules. A pattern that holds `*` or `?` is
 * compiled into a regular expression anchored at its start only: `*` becomes
 * `.*`, `?` becomes `.`, and every other character is escaped, so it stands
 * for itself. A pattern without either glyph is a plain prefix test.
 */
module Wildcard {
  import opened Text

  predicate HasGlyph(p: string) {
    '*' in p || '?' in p
  }

  /**
   * Whether the compiled expression `^` + p finds a match in `s`: a match
   * may stop anywhere, since nothing anchors the end.
   */
  predicate MatchesAtStart(p: string, s: string)
    decreases |p|, |s|
  {
    if p == [] then true
    else if p[0] == '*' then MatchesAtStart(p[1..], s) || (s != [] && MatchesAtStart(p, s[1..]))
    else s != [] && (p[0] == '?' || p[0] == s[0]) && MatchesAtStart(p[1..], s[1..])
  }

  /**
   * The glob language of a pattern, as a reference: `p` covers all of `s`,
   * a `*` standing for any run of characters.
   */
  predicate MatchesWhole(p: string, s: string)
    decreases |p|
  {
    if p == [] then s == []
    else if p[0] == '*' then exists k :: 0 <= k <= |s| && MatchesWhole(p[1..], s[k..])
    else s != [] && (p[0] == '?' || p[0] == s[0]) && MatchesWhole(p[1..], s[1..])
  }

  /**
   * Anchoring at the start only: `s` matches exactly when some prefix of `s`
   * belongs to the pattern's glob language.
   */
  lemma {:induction false} MatchesAtStartIffPrefixMatches(p: string, s: string)
    ensures MatchesAtStart(p, s) <==> exists k :: 0 <= k <= |s| && MatchesWhole(p, s[..k])
  {
    if MatchesAtStart(p, s) {
      var k := PrefixWitness(p, s);
    }
    if k :| 0 <= k <= |s| && MatchesWhole(p, s[..k]) {
      PrefixMatchesAtStart(p, s, k);
    }
  }

  lemma {:induction false} PrefixWitness(p: string, s: string) returns (k: nat)
    requires MatchesAtStart(p, s)
    ensures k <= |s| && MatchesWhole(p, s[..k])
    decreases |p|, |s|
  {
    if p == [] {
      k := 0;
    } else if p[0] == '*' {
      if MatchesAtStart(p[1..], s) {
        k := PrefixWitness(p[1..], s);
        assert s[..k][0..] == s[..k];
      } else {
        var k' := PrefixWitness(p, s[1..]);
        k := k' + 1;
        var j' :| 0 <= j' <= |s[1..][..k']| && MatchesWhole(p[1..], s[1..][..k'][j'..]);
        assert s[..k][j' + 1..] == s[1..][..k'][j'..];
      }
    } else {
      var k' := PrefixWitness(p[1..], s[1..]);
      k := k' + 1;
      assert s[..k][1..] == s[1..][..k'];
    }
  }

  lemma {:induction false} PrefixMatchesAtStart(p: string, s: string, k: nat)
    requires k <= |s| && MatchesWhole(p, s[..k])
    ensures MatchesAtStart(p, s)
    decreases |p|
  {
    if p != [] {
      if p[0] == '*' {
        var j :| 0 <= j <= |s[..k]| && MatchesWhole(p[1..], s[..k][j..]);
        assert s[j..][..k - j] == s[..k][j..];
        PrefixMatchesAtStart(p[1..], s[j..], k - j);
        StarSkips(p, s, j);
      } else {
        assert s[1..][..k - 1] == s[..k][1..];
        PrefixMatchesAtStart(p[1..], s[1..], k - 1);
      }
    }
  }

  /** A leading `*` may skip any number of characters. */
  lemma {:induction false} StarSkips(p: string, s: string, j: nat)
    requires p != [] && p[0] == '*' && j <= |s|
    requires MatchesAtStart(p[1..], s[j..])
    ensures MatchesAtStart(p, s)
    decreases j
  {
    if j > 0 {
      assert s[1..][j - 1..] == s[j..];
      StarSkips(p, s[1..], j - 1);
    }
  }

  /**
   * Without glyphs the compiled expression is the escaped pattern alone, so it
   * matches exactly the strings that start with the pattern: the regular
   * expression branch and the StartsWith branch agree.
   */
  lemma {:induction false} LiteralMatchIsPrefix(p: string, s: string)
    requires !HasGlyph(p)
    ensures MatchesAtStart(p, s) <==> StartsWith(s, p)
    decreases |p|
  {
    if p != [] {
      assert '*' !in p[1..] && '?' !in p[1..] by {
        assert forall c :: c in p[1..] ==> c in p;
      }
      if s != [] {
        LiteralMatchIsPrefix(p[1..], s[1..]);
        if StartsWith(s, p) {
          assert s[1..][..|p| - 1] == s[..|p|][1..];
        }
        if StartsWith(s[1..], p[1..]) && p[0] == s[0] {
          assert s[..|p|] == [s[0]] + s[1..][..|p| - 1];
          assert p == [p[0]] + p[1..];
        }
      }
    }
  }

  /** Since the end is not anchored, every extension of a matching string matches. */
  lemma {:induction false} MatchExtends(p: string, s: string, t: string)
    requires MatchesAtStart(p, s)
    ensures MatchesAtStart(p, s + t)
    decreases |p|, |s|
  {
    if p != [] {
      if p[0] == '*' {
        if MatchesAtStart(p[1..], s) {
          MatchExtends(p[1..], s, t);
        } else {
          MatchExtends(p, s[1..], t);
          assert (s + t)[1..] == s[1..] + t;
        }
      } else {
        MatchExtends(p[1..], s[1..], t);
        assert (s + t)[1..] == s[1..] + t;
      }
    }
  }

  /**
   * The match is judged from the first character: a string whose first
   * character differs from a pattern's leading literal never matches, whatever
   * follows it.
   */
  lemma LeadingLiteralMismatch(p: string, s: string)
    requires p != [] && p[0] != '*' && p[0] != '?'
    requires s == [] || s[0] != p[0]
    ensures !MatchesAtStart(p, s)
  {
  }
}
