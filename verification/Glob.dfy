/** What a glob pattern means, and the matcher of gpattern.c. */
module Glob {

  /** The plain meaning: `*` matches any string, `?` any one character, anything else itself. */
  predicate Matches(p: string, s: string)
    decreases |p| + |s|
  {
    if p == "" then s == ""
    else if p[0] == '*' then Matches(p[1..], s) || (s != "" && Matches(p, s[1..]))
    else s != "" && (p[0] == '?' || p[0] == s[0]) && Matches(p[1..], s[1..])
  }

  /** The character a C pointer sees at index `i` of a NUL-terminated string. */
  function CharAt(s: string, i: nat): char {
    if i < |s| then s[i] else '\0'
  }

  predicate NulFree(s: string) {
    '\0' !in s
  }

  ghost predicate NoSuffix(p: string, s: string) {
    forall k: nat :: k <= |s| ==> !Matches(p, s[k..])
  }

  /** A pattern that starts with `*` and matches a suffix matches the whole. */
  lemma {:induction false} StarAbsorbs(p: string, s: string, k: nat)
    requires p != "" && p[0] == '*' && k <= |s| && Matches(p, s[k..])
    ensures Matches(p, s)
    decreases k
  {
    if k > 0 {
      assert s[1..][k - 1..] == s[k..];
      StarAbsorbs(p, s[1..], k - 1);
    } else {
      assert s[0..] == s;
    }
  }

  // ---------------------------------------------------------------- the meaning without recursion

  /** The string can be cut into one piece for each character of the pattern, from `cut[i]` up to
      `cut[i + 1]`: any piece for `*`, else one character, which is any for `?` and the same for others. */
  ghost predicate Fits(p: string, s: string, cut: seq<nat>) {
    && |cut| == |p| + 1 && cut[0] == 0 && cut[|p|] == |s|
    && forall i :: 0 <= i < |p| ==> Piece(p[i], s, cut[i], cut[i + 1])
  }

  ghost predicate Piece(c: char, s: string, from: nat, to: nat) {
    if c == '*' then from <= to else to == from + 1 && from < |s| && (c == '?' || c == s[from])
  }

  lemma {:induction false} CutGrows(p: string, s: string, cut: seq<nat>, i: nat, j: nat)
    requires Fits(p, s, cut) && i <= j <= |p|
    ensures cut[i] <= cut[j]
    decreases j - i
  {
    if i < j {
      CutGrows(p, s, cut, i, j - 1);
      assert Piece(p[j - 1], s, cut[j - 1], cut[j - 1 + 1]);
    }
  }

  lemma {:induction false} FitMatches(p: string, s: string, cut: seq<nat>)
    requires Fits(p, s, cut)
    ensures Matches(p, s)
    decreases |p|
  {
    if p != "" {
      var m := cut[1];
      assert Piece(p[0], s, cut[0], cut[0 + 1]);
      forall k: nat | 1 <= k <= |p| ensures m <= cut[k] <= |s| {
        CutGrows(p, s, cut, 1, k);
        CutGrows(p, s, cut, k, |p|);
      }
      var rest: seq<nat> := seq(|p|, k requires 0 <= k < |p| => cut[k + 1] - m);
      forall i | 0 <= i < |p| - 1 ensures Piece(p[1..][i], s[m..], rest[i], rest[i + 1]) {
        assert Piece(p[i + 1], s, cut[i + 1], cut[i + 1 + 1]);
      }
      FitMatches(p[1..], s[m..], rest);
      if p[0] == '*' {
        StarAbsorbs(p, s, m);
      }
    }
  }

  lemma {:induction false} MatchFits(p: string, s: string) returns (cut: seq<nat>)
    requires Matches(p, s)
    ensures Fits(p, s, cut)
    decreases |p| + |s|
  {
    if p == "" {
      cut := [0];
    } else if p[0] == '*' && Matches(p[1..], s) {
      var rest := MatchFits(p[1..], s);
      cut := [0] + rest;
      forall i | 0 <= i < |p| ensures Piece(p[i], s, cut[i], cut[i + 1]) {
        if i > 0 { assert Piece(p[1..][i - 1], s, rest[i - 1], rest[i - 1 + 1]); }
      }
    } else {
      var star := p[0] == '*';
      var rest := MatchFits(if star then p else p[1..], s[1..]);
      var moved: seq<nat> := seq(|rest|, k requires 0 <= k < |rest| => rest[k] + 1);
      cut := if star then [0] + moved[1..] else [0] + moved;
      forall i | 0 <= i < |p| ensures Piece(p[i], s, cut[i], cut[i + 1]) {
        if star {
          assert Piece(p[i], s[1..], rest[i], rest[i + 1]);
        } else if i > 0 {
          assert Piece(p[1..][i - 1], s[1..], rest[i - 1], rest[i - 1 + 1]);
        }
      }
    }
  }

  /** The recursive meaning is the declarative one. */
  lemma MatchesIs(p: string, s: string)
    ensures Matches(p, s) <==> exists cut :: Fits(p, s, cut)
  {
    if Matches(p, s) {
      var cut := MatchFits(p, s);
    }
    if cut :| Fits(p, s, cut) {
      FitMatches(p, s, cut);
    }
  }

  /** A wildcard-free prefix of the pattern takes exactly as many characters as it has. */
  lemma {:induction false} FreePrefix(p: string, i: nat, s: string)
    requires i <= |p| && '*' !in p[..i] && Matches(p, s)
    ensures i <= |s| && Matches(p[i..], s[i..])
  {
    if i > 0 {
      assert p[0] == p[..i][0];
      assert p[1..][..i - 1] == p[..i][1..];
      FreePrefix(p[1..], i - 1, s[1..]);
      assert p[1..][i - 1..] == p[i..] && s[1..][i - 1..] == s[i..];
    } else {
      assert p[0..] == p && s[0..] == s;
    }
  }

  /** Once a wildcard was reached by consuming the pattern before it, failure is final: the
      pattern does not match any later suffix either. */
  lemma WildcardReached(p: string, i: nat, s: string)
    requires i < |p| && '*' !in p[..i] && p[i] == '*'
    requires i <= |s| && (Matches(p, s) <==> Matches(p[i..], s[i..]))
    ensures Matches(p, s) || NoSuffix(p, s)
  {
    if exists k: nat :: k <= |s| && Matches(p, s[k..]) {
      var k: nat :| k <= |s| && Matches(p, s[k..]);
      FreePrefix(p, i, s[k..]);
      assert s[k..][i..] == s[i..][k..];
      StarAbsorbs(p[i..], s[i..], k);
    }
  }

  lemma {:induction false} StarJoker(r: string, s: string)
    ensures Matches("*?" + r, s) <==> s != "" && Matches("*" + r, s[1..])
  {
    var p, q := "*?" + r, "*" + r;
    assert p[1..] == "?" + r && p[1..][1..] == r && q[1..] == r;
    if s != "" {
      StarJoker(r, s[1..]);
    }
  }

  lemma {:induction false} StarStar(r: string, s: string)
    ensures Matches("**" + r, s) <==> Matches("*" + r, s)
  {
    var p, q := "**" + r, "*" + r;
    assert p[1..] == q;
    if s != "" {
      StarStar(r, s[1..]);
    }
  }

  lemma {:induction false} StarAll(s: string)
    ensures Matches("*", s)
  {
    if s != "" {
      StarAll(s[1..]);
    }
  }

  /** `*c...`: look for `c`, then match the rest or look further. */
  lemma StarLiteral(c: char, r: string, s: string)
    requires c != '*' && c != '?'
    ensures s == "" ==> !Matches("*" + [c] + r, s)
    ensures s != "" ==> (Matches("*" + [c] + r, s) <==> (s[0] == c && Matches(r, s[1..])) || Matches("*" + [c] + r, s[1..]))
  {
    var p := "*" + [c] + r;
    assert p[1..] == [c] + r && p[1..][1..] == r;
  }

  /** The star case of g_pattern_ph_match, up to `if (!ch)`: skip further wildcards and take one
      character of the string per joker. `ch` is the first other character, NUL at the end. */
  method SkipWildcards(p: string, s: string, pi0: nat, si0: nat) returns (failed: bool, ch: char, pi: nat, si: nat)
    requires NulFree(p) && NulFree(s) && pi0 <= |p| && si0 <= |s|
    ensures si <= |s|
    ensures failed ==> !Matches("*" + p[pi0..], s[si0..])
    ensures !failed && ch == '\0' ==> Matches("*" + p[pi0..], s[si0..])
    ensures !failed && ch != '\0' ==> pi0 < pi <= |p| && ch == p[pi - 1] && ch != '*' && ch != '?'
    ensures !failed && ch != '\0' ==>
              (Matches("*" + p[pi0..], s[si0..]) <==> Matches("*" + [ch] + p[pi..], s[si..]))
  {
    failed, ch, pi, si := false, '*', pi0, si0;
    while ch == '*' || ch == '?'
      invariant si <= |s| && pi0 <= pi <= |p| + 1
      invariant ch == '*' || ch == '?' ==> pi <= |p| && (Matches("*" + p[pi0..], s[si0..]) <==> Matches("*" + p[pi..], s[si..]))
      invariant ch != '*' && ch != '?' && ch != '\0' ==> pi0 < pi <= |p| && ch == p[pi - 1]
      invariant ch != '*' && ch != '?' && ch != '\0' ==>
                  (Matches("*" + p[pi0..], s[si0..]) <==> Matches("*" + [ch] + p[pi..], s[si..]))
      invariant ch == '\0' ==> Matches("*" + p[pi0..], s[si0..])
      decreases |p| + 1 - pi
    {
      ch := CharAt(p, pi);
      ghost var tail := p[pi..];
      if pi == |p| {
        assert "*" + tail == "*";
        StarAll(s[si..]);
      } else {
        assert tail == [ch] + p[pi + 1..];
        assert "*" + tail == "*" + [ch] + p[pi + 1..];
        if ch == '*' {
          assert "*" + tail == "**" + p[pi + 1..];
          StarStar(p[pi + 1..], s[si..]);
        } else if ch == '?' {
          assert "*" + tail == "*?" + p[pi + 1..];
          StarJoker(p[pi + 1..], s[si..]);
        }
      }
      pi := pi + 1;
      if ch == '?' {
        if CharAt(s, si) == '\0' {
          failed := true;
          return;
        }
        assert s[si..][1..] == s[si + 1..];
        si := si + 1;
      }
    }
  }

  /** The second do-loop of the star case: try the rest of the pattern after every `ch`. It falls
      out only at the end of the string, and then the rest does not match the empty string. */
  method FindNext(ch: char, r: string, s: string, si0: nat) returns (done: bool, ok: bool, si: nat)
    requires NulFree(r) && NulFree(s) && ch != '\0' && ch != '*' && ch != '?' && si0 <= |s|
    ensures done ==> (ok <==> Matches("*" + [ch] + r, s[si0..]))
    ensures !done ==> si == |s| && !Matches("*" + [ch] + r, s[si0..]) && !Matches(r, "")
    decreases |r|, 1
  {
    ghost var p := "*" + [ch] + r;
    done, ok, si := true, false, si0;
    var again := true;
    while again
      invariant si <= |s|
      invariant Matches(p, s[si0..]) <==> Matches(p, s[si..])
      invariant !again ==> si == |s| && !Matches(r, "")
      decreases again, |s| - si
    {
      while ch != CharAt(s, si)
        invariant si <= |s|
        invariant Matches(p, s[si0..]) <==> Matches(p, s[si..])
        decreases |s| - si
      {
        StarLiteral(ch, r, s[si..]);
        if CharAt(s, si) == '\0' {
          return true, false, si;
        }
        assert s[si..][1..] == s[si + 1..];
        si := si + 1;
      }
      StarLiteral(ch, r, s[si..]);
      assert s[si..][1..] == s[si + 1..];
      si := si + 1;
      var matched, nextReached := PhMatch(r, s[si..]);
      if matched {
        return true, true, si;
      }
      if nextReached {
        NoLaterStar(ch, r, s[si..]);
        return true, false, si;
      }
      again := CharAt(s, si) != '\0';
    }
    StarLiteral(ch, r, s[si..]);
    done := false;
  }

  /** If the rest matches no suffix, looking further for `c` is pointless. */
  lemma {:induction false} NoLaterStar(c: char, r: string, s: string)
    requires c != '*' && c != '?' && NoSuffix(r, s)
    ensures !Matches("*" + [c] + r, s)
  {
    StarLiteral(c, r, s);
    if s != "" {
      forall k: nat | k <= |s[1..]|
        ensures !Matches(r, s[1..][k..])
      {
        assert s[1..][k..] == s[k + 1..];
      }
      NoLaterStar(c, r, s[1..]);
    }
  }

  /** g_pattern_ph_match. `reached` is what the source reports through wildcard_reached_p; when it
      is set and the match fails, no later suffix of the string matches, which is why the caller
      may give up at once. */
  method PhMatch(p: string, s: string) returns (ok: bool, reached: bool)
    requires NulFree(p) && NulFree(s)
    ensures ok <==> Matches(p, s)
    ensures !ok && reached ==> NoSuffix(p, s)
    decreases |p|, 0
  {
    var pi: nat, si: nat := 0, 0;
    reached := false;
    assert p[0..] == p && s[0..] == s;
    while pi < |p|
      invariant pi <= |p| && si <= |s|
      invariant Matches(p, s) <==> Matches(p[pi..], s[si..])
      invariant reached ==> Matches(p, s) || NoSuffix(p, s)
      invariant !reached ==> pi == si && '*' !in p[..pi]
    {
      var ch := p[pi];
      ghost var tail, rest := p[pi..], s[si..];
      assert tail[1..] == p[pi + 1..] && (si < |s| ==> rest[1..] == s[si + 1..]);
      if ch == '*' {
        if !reached {
          WildcardReached(p, pi, s);
        }
        reached := true;
        assert tail == "*" + p[pi + 1..];
        var failed, c, pi', si' := SkipWildcards(p, s, pi + 1, si);
        if failed || c == '\0' {
          return !failed, reached;
        }
        pi, si := pi', si';
        var done, found;
        done, found, si := FindNext(c, p[pi..], s, si);
        if done {
          return found, reached;
        }
        assert s[si..] == "";
      } else {
        pi := pi + 1;
        if si < |s| && (ch == '?' || ch == s[si]) {
          si := si + 1;
        } else {
          return false, reached;
        }
      }
    }
    ok := si == |s|;
  }
}
