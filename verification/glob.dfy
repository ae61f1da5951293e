/**
 * How Apple's app-site-association matcher reads an entry of `paths`: `*`
 * matches any run of characters (possibly empty), `?` exactly one, and every
 * other character itself. Used to state which URL paths the generated
 * document routes to the app.
 */
module Glob {

  /** The pattern contains neither `*` nor `?`: it is a literal. */
  predicate IsLiteral(pat: string) {
    '*' !in pat && '?' !in pat
  }

  /** Does pattern `pat` match the whole of `s`? */
  predicate Matches(pat: string, s: string)
    decreases |pat| + |s|
  {
    if pat == [] then s == []
    else if pat[0] == '*' then Matches(pat[1..], s) || (s != [] && Matches(pat, s[1..]))
    else s != [] && (pat[0] == '?' || pat[0] == s[0]) && Matches(pat[1..], s[1..])
  }

  /** A lone `*` matches every string. */
  lemma {:induction false} StarMatchesAll(s: string)
    ensures Matches("*", s)
  {
    if s != [] {
      StarMatchesAll(s[1..]);
    }
  }

  /** A literal head must occur at the front of the subject; the rest of the
      pattern then matches what follows it. */
  lemma {:induction false} LiteralHead(lit: string, rest: string, s: string)
    requires IsLiteral(lit)
    ensures Matches(lit + rest, s) <==> lit <= s && Matches(rest, s[|lit|..])
  {
    if lit != [] {
      var pat := lit + rest;
      assert pat[0] == lit[0] && pat[1..] == lit[1..] + rest;
      assert IsLiteral(lit[1..]) by {
        assert forall c :: c in lit[1..] ==> c in lit;
      }
      if s != [] {
        LiteralHead(lit[1..], rest, s[1..]);
        if |lit| <= |s| {
          assert s[1..][|lit| - 1..] == s[|lit|..];
        }
        assert lit <= s <==> lit[0] == s[0] && lit[1..] <= s[1..];
      }
    } else {
      assert lit + rest == rest;
    }
  }

  /** A literal matches exactly itself. */
  lemma LiteralMatches(lit: string, s: string)
    requires IsLiteral(lit)
    ensures Matches(lit, s) <==> s == lit
  {
    LiteralHead(lit, [], s);
    assert lit + [] == lit;
  }

  /** A literal followed by `*` matches exactly the strings it begins. */
  lemma LiteralStarMatches(lit: string, s: string)
    requires IsLiteral(lit)
    ensures Matches(lit + "*", s) <==> lit <= s
  {
    LiteralHead(lit, "*", s);
    if lit <= s {
      StarMatchesAll(s[|lit|..]);
    }
  }

  /** Some pattern of the list matches `s`. */
  predicate Covers(patterns: seq<string>, s: string) {
    exists i :: 0 <= i < |patterns| && Matches(patterns[i], s)
  }

  /** A concatenated list covers what either part covers. */
  lemma CoversAppend(a: seq<string>, b: seq<string>, s: string)
    ensures Covers(a + b, s) <==> Covers(a, s) || Covers(b, s)
  {
    if Covers(a + b, s) {
      var i :| 0 <= i < |a + b| && Matches((a + b)[i], s);
      if i >= |a| {
        assert b[i - |a|] == (a + b)[i];
      }
    }
    if Covers(b, s) {
      var i :| 0 <= i < |b| && Matches(b[i], s);
      assert (a + b)[|a| + i] == b[i];
    }
    if Covers(a, s) {
      var i :| 0 <= i < |a| && Matches(a[i], s);
      assert (a + b)[i] == a[i];
    }
  }
}
