/** Compiling a glob pattern (g_pattern_spec_new) and matching with the compiled form. */
module GlobSpecs {
  import opened Glob
  import opened Options

  datatype MatchType = MatchAll | MatchAllTail | MatchHead | MatchTail | MatchExact

  /** GPatternSpec; pattern_length is |pattern|. */
  datatype Spec = Spec(kind: MatchType, pattern: string, minLength: nat, maxLength: nat)

  const UINT_MAX: nat := 0xFFFF_FFFF

  // ---------------------------------------------------------------- concatenation

  ghost predicate SplitAt(a: string, b: string, s: string, i: nat) {
    i <= |s| && Matches(a, s[..i]) && Matches(b, s[i..])
  }

  lemma {:induction false} JoinMatches(a: string, b: string, s: string, i: nat)
    requires SplitAt(a, b, s, i)
    ensures Matches(a + b, s)
    decreases |a| + i
  {
    if a == "" {
      assert s[..i] == "" && s[i..] == s && a + b == b;
    } else {
      assert (a + b)[1..] == a[1..] + b;
      if a[0] == '*' && Matches(a[1..], s[..i]) {
        JoinMatches(a[1..], b, s, i);
      } else {
        assert s[..i][1..] == s[1..][..i - 1] && s[i..] == s[1..][i - 1..];
        JoinMatches(if a[0] == '*' then a else a[1..], b, s[1..], i - 1);
      }
    }
  }

  lemma {:induction false} SplitMatches(a: string, b: string, s: string) returns (i: nat)
    requires Matches(a + b, s)
    ensures SplitAt(a, b, s, i)
    decreases |a| + |s|
  {
    if a == "" {
      i := 0;
      assert s[i..] == s && a + b == b && s[..i] == "";
    } else {
      assert (a + b)[1..] == a[1..] + b;
      if a[0] == '*' && Matches(a[1..] + b, s) {
        i := SplitMatches(a[1..], b, s);
      } else {
        var j := SplitMatches(if a[0] == '*' then a else a[1..], b, s[1..]);
        i := j + 1;
        assert s[..i][1..] == s[1..][..j] && s[i..] == s[1..][j..];
      }
    }
  }

  /** Two patterns that match the same strings. */
  ghost predicate Same(p: string, q: string) {
    forall s: string :: Matches(p, s) <==> Matches(q, s)
  }

  lemma SameAppend(p: string, q: string, r: string)
    requires Same(p, q)
    ensures Same(p + r, q + r)
  {
    forall s: string
      ensures Matches(p + r, s) <==> Matches(q + r, s)
    {
      if Matches(p + r, s) {
        var i := SplitMatches(p, r, s);
        JoinMatches(q, r, s, i);
      }
      if Matches(q + r, s) {
        var i := SplitMatches(q, r, s);
        JoinMatches(p, r, s, i);
      }
    }
  }

  lemma SamePrepend(p: string, q: string, r: string)
    requires Same(p, q)
    ensures Same(r + p, r + q)
  {
    forall s: string
      ensures Matches(r + p, s) <==> Matches(r + q, s)
    {
      if Matches(r + p, s) {
        var i := SplitMatches(r, p, s);
        JoinMatches(r, q, s, i);
      }
      if Matches(r + q, s) {
        var i := SplitMatches(r, q, s);
        JoinMatches(r, p, s, i);
      }
    }
  }

  // ---------------------------------------------------------------- reversal

  function Reverse(s: string): (r: string)
    ensures |r| == |s|
  {
    if s == "" then "" else Reverse(s[1..]) + [s[0]]
  }

  lemma {:induction false} ReverseSplit(s: string, j: nat)
    requires j <= |s|
    ensures Reverse(s) == Reverse(s[j..]) + Reverse(s[..j])
  {
    if j == 0 {
      assert s[0..] == s;
    } else {
      ReverseSplit(s[1..], j - 1);
      assert s[1..][j - 1..] == s[j..] && s[1..][..j - 1] == s[..j][1..];
    }
  }

  lemma SingleReverse(c: char, s: string)
    ensures Matches([c], Reverse(s)) <==> Matches([c], s)
  {
    if c == '*' {
      StarAll(s);
      StarAll(Reverse(s));
    } else {
      assert [c][1..] == "";
      if |s| == 1 {
        assert s == [s[0]] && s[1..] == "";
        assert Reverse(s) == s;
      }
    }
  }

  /** A reversed pattern matches the reversed strings. */
  lemma {:induction false} ReverseMatches(p: string, s: string)
    ensures Matches(Reverse(p), Reverse(s)) <==> Matches(p, s)
    decreases |p|
  {
    if p != "" {
      var c, r := [p[0]], p[1..];
      assert c + r == p;
      if Matches(p, s) {
        var j := SplitMatches(c, r, s);
        ReverseSplit(s, j);
        ReverseMatches(r, s[j..]);
        SingleReverse(p[0], s[..j]);
        assert Reverse(s)[..|s| - j] == Reverse(s[j..]) && Reverse(s)[|s| - j..] == Reverse(s[..j]);
        JoinMatches(Reverse(r), c, Reverse(s), |s| - j);
      }
      if Matches(Reverse(p), Reverse(s)) {
        var i := SplitMatches(Reverse(r), c, Reverse(s));
        var j := |s| - i;
        ReverseSplit(s, j);
        ReverseMatches(r, s[j..]);
        SingleReverse(p[0], s[..j]);
        assert Reverse(s)[..i] == Reverse(s[j..]) && Reverse(s)[i..] == Reverse(s[..j]);
        JoinMatches(c, r, s, j);
      }
    }
  }

  // ---------------------------------------------------------------- canonical form

  function Jokers(n: nat): (j: string)
    ensures |j| == n && forall i :: 0 <= i < n ==> j[i] == '?'
  {
    if n == 0 then "" else "?" + Jokers(n - 1)
  }

  lemma JokerStar(r: string)
    ensures Same("?*" + r, "*?" + r)
  {
    forall s: string
      ensures Matches("?*" + r, s) <==> Matches("*?" + r, s)
    {
      StarJoker(r, s);
      assert ("?*" + r)[1..] == "*" + r;
    }
  }

  lemma {:induction false} JokersStar(n: nat)
    ensures Same(Jokers(n) + "*", "*" + Jokers(n))
  {
    if n == 0 {
      assert Jokers(n) + "*" == "*" + Jokers(n);
    } else {
      var j := Jokers(n - 1);
      JokersStar(n - 1);
      SamePrepend(j + "*", "*" + j, "?");
      assert "?" + (j + "*") == Jokers(n) + "*" && "?" + ("*" + j) == "?*" + j && "*?" + j == "*" + Jokers(n);
      JokerStar(j);
    }
  }

  /** The pattern read so far means what has been written, with the pending jokers at the end. */
  ghost predicate Written(a: string, out: string, pending: nat, follows: bool) {
    && Same(a, out + Jokers(pending))
    && (follows ==> out != "" && out[|out| - 1] == '*')
  }

  lemma EmptyWritten()
    ensures Written("", "", 0, false)
  {
  }

  lemma WriteStar(a: string, out: string, pending: nat, follows: bool)
    requires Written(a, out, pending, follows)
    ensures Same(a + "*", out + "*" + Jokers(pending))
    ensures follows ==> Same(a + "*", out + Jokers(pending))
  {
    var j := Jokers(pending);
    SameAppend(a, out + j, "*");
    JokersStar(pending);
    SamePrepend(j + "*", "*" + j, out);
    assert out + (j + "*") == out + j + "*" && out + ("*" + j) == out + "*" + j;
    if follows {
      var o := out[..|out| - 1];
      forall s: string
        ensures Matches("**" + j, s) <==> Matches("*" + j, s)
      {
        StarStar(j, s);
      }
      SamePrepend("**" + j, "*" + j, o);
      assert o + ("**" + j) == out + "*" + j && o + ("*" + j) == out + j;
    }
  }

  lemma WriteJoker(a: string, out: string, pending: nat, follows: bool)
    requires Written(a, out, pending, follows)
    ensures Written(a + "?", out, pending + 1, follows)
  {
    SameAppend(a, out + Jokers(pending), "?");
    JokersCommute(pending);
    assert out + Jokers(pending) + "?" == out + Jokers(pending + 1);
  }

  lemma JokersCommute(n: nat)
    ensures Jokers(n) + "?" == Jokers(n + 1)
  {
  }

  lemma WriteLiteral(a: string, out: string, pending: nat, follows: bool, c: char)
    requires Written(a, out, pending, follows)
    ensures Written(a + [c], out + Jokers(pending) + [c], 0, false)
  {
    SameAppend(a, out + Jokers(pending), [c]);
    assert out + Jokers(pending) + [c] + Jokers(0) == out + Jokers(pending) + [c];
  }

  // ---------------------------------------------------------------- lengths

  function NonStars(p: string): nat {
    if p == "" then 0 else NonStars(p[..|p| - 1]) + if p[|p| - 1] == '*' then 0 else 1
  }

  lemma {:induction false} NonStarsPlain(a: string, x: string)
    requires '*' !in x
    ensures NonStars(a + x) == NonStars(a) + |x|
    decreases |x|
  {
    if x == "" {
      assert a + x == a;
    } else {
      var y := x[..|x| - 1];
      assert (a + x)[..|a + x| - 1] == a + y;
      NonStarsPlain(a, y);
    }
  }

  lemma NonStarsJokers(a: string, n: nat)
    ensures NonStars(a + Jokers(n)) == NonStars(a) + n
  {
    NonStarsPlain(a, Jokers(n));
  }

  lemma {:induction false} LongEnough(p: string, s: string)
    requires Matches(p, s)
    ensures NonStars(p) <= |s|
    decreases |p|
  {
    if p != "" {
      var a, c := p[..|p| - 1], [p[|p| - 1]];
      assert a + c == p;
      var i := SplitMatches(a, c, s);
      LongEnough(a, s[..i]);
    }
  }

  lemma ExactLength(p: string, s: string)
    requires Matches(p, s) && '*' !in p
    ensures |s| == |p|
  {
    assert p[..|p|] == p;
    FreePrefix(p, |p|, s);
  }

  /** First and last position of a character in what has been written; -1 when there is none. */
  ghost predicate Positions(out: string, c: char, first: int, last: int) {
    if first < 0 then
      c !in out
    else
      && first <= last < |out| && out[first] == c && out[last] == c
      && c !in out[..first] && c !in out[last + 1..]
  }

  /** hj_pos is set exactly when a joker has been written. */
  ghost predicate JokerSeen(out: string, hj: int) {
    hj >= 0 <==> '?' in out
  }

  lemma JokerSeenAppend(out: string, c: char, hj: int)
    requires JokerSeen(out, hj) && c != '?'
    ensures JokerSeen(out + [c], hj)
  {
  }

  /** Writing the pending jokers. `count` says whether the position advances: it does not in the
      second of the two loops. */
  method FlushJokers(out0: string, pending0: nat, i0: nat, hj0: int, tj0: int, count: bool)
    returns (out: string, i: nat, hj: int, tj: int)
    requires JokerSeen(out0, hj0)
    ensures out == out0 + Jokers(pending0) && i == if count then i0 + pending0 else i0
    ensures JokerSeen(out, hj)
  {
    out, i, hj, tj := out0, i0, hj0, tj0;
    var pending := pending0;
    while pending > 0
      invariant 0 <= pending <= pending0
      invariant out == out0 + Jokers(pending0 - pending)
      invariant i == if count then i0 + (pending0 - pending) else i0
      invariant hj >= 0 <==> '?' in out
    {
      JokersCommute(pending0 - pending);
      out := out + "?";
      if hj < 0 {
        hj := i;
      }
      tj := i;
      pending := pending - 1;
      i := if count then i + 1 else i;
    }
  }

  lemma PositionsLiteral(out: string, more: string, first: int, last: int)
    requires Positions(out, '*', first, last) && '*' !in more
    ensures Positions(out + more, '*', first, last)
  {
    if first >= 0 {
      assert (out + more)[..first] == out[..first];
      assert (out + more)[last + 1..] == out[last + 1..] + more;
    }
  }

  lemma PositionsStar(out: string, first: int, last: int)
    requires Positions(out, '*', first, last)
    ensures Positions(out + "*", '*', if first < 0 then |out| else first, |out|)
  {
    assert (out + "*")[..|out|] == out;
    if first >= 0 {
      assert (out + "*")[..first] == out[..first];
    }
  }

  /** What g_pattern_spec_new knows after reading `a`. */
  ghost predicate Scanned(a: string, out: string, pending: nat, follows: bool, hw: int, tw: int, min: nat, max: nat) {
    && Written(a, out, pending, follows) && NulFree(out)
    && Positions(out, '*', hw, tw) && ('*' in a <==> hw >= 0)
    && min == NonStars(out) + pending == NonStars(a) && min <= max <= 4 * |a| && (hw < 0 ==> min == |a|)
    && (min == 0 ==> if hw >= 0 then out == "*" && follows else out == "")
  }

  lemma ScanStart()
    ensures Scanned("", "", 0, false, -1, -1, 0, 0) && JokerSeen("", -1)
  {
    EmptyWritten();
  }

  lemma ScanStar(a: string, out: string, pending: nat, follows: bool, hw: int, tw: int, min: nat, max: nat)
    requires Scanned(a, out, pending, follows, hw, tw, min, max)
    ensures follows ==> Scanned(a + "*", out, pending, true, hw, tw, min, max)
    ensures !follows ==> Scanned(a + "*", out + "*", pending, true, if hw < 0 then |out| else hw, |out|, min, max)
  {
    WriteStar(a, out, pending, follows);
    PositionsStar(out, hw, tw);
    hide Same, Positions;
    assert (a + "*")[..|a|] == a && (out + "*")[..|out|] == out;
    assert follows ==> '*' in out;
  }

  lemma ScanJoker(a: string, out: string, pending: nat, follows: bool, hw: int, tw: int, min: nat, max: nat)
    requires Scanned(a, out, pending, follows, hw, tw, min, max)
    ensures Scanned(a + "?", out, pending + 1, follows, hw, tw, min + 1, max + 4)
  {
    WriteJoker(a, out, pending, follows);
    hide Same, Positions;
    assert (a + "?")[..|a|] == a;
  }

  lemma ScanLiteral(a: string, out: string, pending: nat, follows: bool, hw: int, tw: int, min: nat, max: nat, c: char)
    requires Scanned(a, out, pending, follows, hw, tw, min, max) && c != '*' && c != '?' && c != '\0'
    ensures Scanned(a + [c], out + Jokers(pending) + [c], 0, false, hw, tw, min + 1, max + 1)
  {
    WriteLiteral(a, out, pending, follows, c);
    PositionsLiteral(out, Jokers(pending) + [c], hw, tw);
    NonStarsJokers(out, pending);
    hide Same, Positions;
    var out' := out + Jokers(pending) + [c];
    assert out' == out + (Jokers(pending) + [c]);
    assert (a + [c])[..|a|] == a && out'[..|out'| - 1] == out + Jokers(pending);
  }

  lemma ScanEnd(a: string, out: string, pending: nat, follows: bool, hw: int, tw: int, min: nat, max: nat)
    requires Scanned(a, out, pending, follows, hw, tw, min, max)
    ensures Same(a, out + Jokers(pending)) && NulFree(out + Jokers(pending)) && ('*' in a <==> hw >= 0)
    ensures min == NonStars(a) && min <= max <= 4 * |a| && (hw < 0 ==> min == |a|)
    ensures Positions(out + Jokers(pending), '*', hw, tw) && min == NonStars(out + Jokers(pending))
    ensures min == 0 ==> '?' !in out + Jokers(pending) && (hw >= 0 ==> out + Jokers(pending) == "*")
  {
    PositionsLiteral(out, Jokers(pending), hw, tw);
    NonStarsJokers(out, pending);
  }

  /** The first part of g_pattern_spec_new: compress wildcards, move jokers behind them, and note
      lengths and positions. The canonical pattern matches the same strings. */
  method Canonicalize(pattern: string)
    returns (out: string, length: nat, hw: int, tw: int, hj: int, tj: int, min: nat, max: nat)
    requires NulFree(pattern)
    ensures Same(pattern, out) && NulFree(out) && |out| == length <= |pattern|
    ensures Positions(out, '*', hw, tw) && JokerSeen(out, hj)
    ensures '*' in pattern <==> hw >= 0
    ensures min == NonStars(out) == NonStars(pattern) && min <= max <= 4 * |pattern| && ('*' !in pattern ==> min == |pattern|)
    ensures min == 0 ==> '?' !in out && (hw >= 0 ==> out == "*")
  {
    ScanStart();
    hide Scanned, Same, Positions, NonStars, Jokers, JokerSeen;
    hw, tw, hj, tj, min, max := -1, -1, -1, -1, 0, 0;
    out, length := "", |pattern|;
    var follows, pending: nat, i: nat := false, 0, 0;
    for k := 0 to |pattern|
      invariant Scanned(pattern[..k], out, pending, follows, hw, tw, min, max)
      invariant i == |out| && |pattern| >= length == |out| + pending + (|pattern| - k)
      invariant JokerSeen(out, hj)
    {
      var c := pattern[k];
      assert pattern[..k + 1] == pattern[..k] + [c];
      if c == '*' {
        ScanStar(pattern[..k], out, pending, follows, hw, tw, min, max);
        if follows {
          length := length - 1;
          continue;
        }
        follows := true;
        if hw < 0 {
          hw := i;
        }
        tw := i;
      } else if c == '?' {
        ScanJoker(pattern[..k], out, pending, follows, hw, tw, min, max);
        pending, min, max := pending + 1, min + 1, max + 4;
        continue;
      } else {
        ScanLiteral(pattern[..k], out, pending, follows, hw, tw, min, max, c);
        out, i, hj, tj := FlushJokers(out, pending, i, hj, tj, true);
        pending, follows := 0, false;
        min, max := min + 1, max + 1;
      }
      JokerSeenAppend(out, c, hj);
      out := out + [c];
      i := i + 1;
    }
    assert pattern[..|pattern|] == pattern;
    ScanEnd(pattern, out, pending, follows, hw, tw, min, max);
    out, i, hj, tj := FlushJokers(out, pending, i, hj, tj, false);
  }

  // ---------------------------------------------------------------- match types

  predicate Plain(x: string) {
    '*' !in x && '?' !in x
  }

  lemma {:induction false} PlainMatches(x: string, s: string)
    requires Plain(x)
    ensures Matches(x, s) <==> s == x
  {
    if x != "" && s != "" {
      PlainMatches(x[1..], s[1..]);
      assert x == [x[0]] + x[1..] && s == [s[0]] + s[1..];
    }
  }

  predicate EndsWith(s: string, y: string) {
    |y| <= |s| && s[|s| - |y|..] == y
  }

  lemma TailMatches(y: string, s: string)
    requires Plain(y)
    ensures Matches("*" + y, s) <==> EndsWith(s, y)
  {
    if Matches("*" + y, s) {
      var i := SplitMatches("*", y, s);
      PlainMatches(y, s[i..]);
    }
    if EndsWith(s, y) {
      var i := |s| - |y|;
      StarAll(s[..i]);
      PlainMatches(y, s[i..]);
      JoinMatches("*", y, s, i);
    }
  }

  lemma HeadMatches(x: string, s: string)
    requires Plain(x)
    ensures Matches(x + "*", s) <==> x <= s
  {
    if Matches(x + "*", s) {
      var i := SplitMatches(x, "*", s);
      PlainMatches(x, s[..i]);
    }
    if x <= s {
      PlainMatches(x, s[..|x|]);
      StarAll(s[|x|..]);
      JoinMatches(x, "*", s, |x|);
    }
  }

  /** `spec` is a compiled form of `p`: its match type and pattern mean what `p` means, its length
      limits exclude nothing that `p` matches, and a reversed match is never asked of the empty
      string. */
  ghost predicate Compiled(spec: Spec, p: string) {
    && NulFree(spec.pattern)
    && (forall s: string :: Means(spec, p, s))
    && (spec.kind == MatchAllTail ==> spec.minLength > 0)
    && (spec.kind == MatchHead || spec.kind == MatchTail ==> spec.minLength == |spec.pattern|)
  }

  ghost predicate Means(spec: Spec, p: string, s: string) {
    && (|s| <= UINT_MAX && Matches(p, s) ==> spec.minLength <= |s| <= spec.maxLength)
    && (Matches(p, s) <==>
          match spec.kind
          case MatchAll => Matches(spec.pattern, s)
          case MatchAllTail => Matches(spec.pattern, Reverse(s))
          case MatchHead => spec.pattern <= s
          case MatchTail => EndsWith(s, spec.pattern)
          case MatchExact => s == spec.pattern)
  }

  ghost predicate Limits(spec: Spec, p: string, out: string) {
    && Same(p, out) && NulFree(out)
    && spec.minLength == NonStars(p) == NonStars(out)
    && if '*' in p then spec.maxLength == UINT_MAX else |p| <= spec.maxLength
  }

  lemma LengthsOk(spec: Spec, p: string, out: string, s: string)
    requires Limits(spec, p, out) && |s| <= UINT_MAX && Matches(p, s)
    ensures spec.minLength <= |s| <= spec.maxLength
  {
    LongEnough(p, s);
    if '*' !in p {
      ExactLength(p, s);
    }
  }

  lemma TailCompiled(p: string, y: string, spec: Spec)
    requires Limits(spec, p, "*" + y) && Plain(y) && spec.kind == MatchTail && spec.pattern == y
    ensures Compiled(spec, p)
  {
    assert NonStars("*") == 0 by { assert "*"[..0] == ""; }
    NonStarsPlain("*", y);
    assert forall c :: c in y ==> c in "*" + y;
    forall s: string
      ensures Means(spec, p, s)
    {
      TailMatches(y, s);
      if |s| <= UINT_MAX && Matches(p, s) {
        LengthsOk(spec, p, "*" + y, s);
      }
    }
  }

  lemma HeadCompiled(p: string, x: string, spec: Spec)
    requires Limits(spec, p, x + "*") && Plain(x) && spec.kind == MatchHead && spec.pattern == x
    ensures Compiled(spec, p)
  {
    assert (x + "*")[..|x|] == x && "" + x == x;
    NonStarsPlain("", x);
    assert forall c :: c in x ==> c in x + "*";
    forall s: string
      ensures Means(spec, p, s)
    {
      HeadMatches(x, s);
      if |s| <= UINT_MAX && Matches(p, s) {
        LengthsOk(spec, p, x + "*", s);
      }
    }
  }

  lemma ExactCompiled(p: string, out: string, spec: Spec)
    requires Limits(spec, p, out) && Plain(out) && spec.kind == MatchExact && spec.pattern == out
    ensures Compiled(spec, p)
  {
    forall s: string
      ensures Means(spec, p, s)
    {
      PlainMatches(out, s);
      if |s| <= UINT_MAX && Matches(p, s) {
        LengthsOk(spec, p, out, s);
      }
    }
  }

  lemma AllCompiled(p: string, out: string, spec: Spec)
    requires Limits(spec, p, out)
    requires (spec.kind == MatchAll && spec.pattern == out) || (spec.kind == MatchAllTail && spec.pattern == Reverse(out) && spec.minLength > 0)
    ensures Compiled(spec, p)
  {
    ReverseNulFree(out);
    forall s: string
      ensures Means(spec, p, s)
    {
      ReverseMatches(out, s);
      if |s| <= UINT_MAX && Matches(p, s) {
        LengthsOk(spec, p, out, s);
      }
    }
  }

  lemma ReverseNulFree(s: string)
    requires NulFree(s)
    ensures NulFree(Reverse(s))
  {
  }

  lemma {:induction false} ReverseAt(s: string, i: nat)
    requires i < |s|
    ensures Reverse(s)[|s| - 1 - i] == s[i]
  {
    if i > 0 {
      ReverseAt(s[1..], i - 1);
    }
  }

  const TWO31: nat := 0x8000_0000

  /** An unsigned 32-bit length passed as a signed one. */
  function AsInt(n: nat): int
    requires n <= UINT_MAX
  {
    if n < TWO31 then n else n - UINT_MAX - 1
  }

  /** string_reverse. The length comes as a signed 32-bit number, and NULL is returned unless that
      is positive. */
  method StringReverse(s: string, length: int) returns (r: Option<string>)
    requires |s| <= UINT_MAX && length == AsInt(|s|)
    ensures r == if 0 < |s| < TWO31 then Some(Reverse(s)) else None
  {
    if length <= 0 {
      return None;
    }
    var a := new char[|s|];
    for i := 0 to |s|
      invariant forall k :: 0 <= k < i ==> a[|s| - 1 - k] == s[k]
    {
      a[|s| - i - 1] := s[i];
    }
    forall j | 0 <= j < |s|
      ensures a[j] == Reverse(s)[j]
    {
      ReverseAt(s, |s| - 1 - j);
      assert a[|s| - 1 - (|s| - 1 - j)] == s[|s| - 1 - j];
    }
    r := Some(a[..]);
    assert a[..] == Reverse(s);
  }

  /** With at most one wildcard and no joker, what is left of the wildcard is plain text. */
  lemma OneStar(out: string, hw: int)
    requires Positions(out, '*', hw, hw) && '?' !in out
    ensures hw == 0 ==> out == "*" + out[1..] && Plain(out[1..])
    ensures hw >= 0 && hw == |out| - 1 ==> out == out[..hw] + "*" && Plain(out[..hw])
    ensures hw < 0 ==> Plain(out)
  {
  }

  /** g_pattern_spec_new. */
  method SpecNew(pattern: string) returns (spec: Spec)
    requires NulFree(pattern) && 4 * |pattern| <= UINT_MAX
    ensures Compiled(spec, pattern)
  {
    var out, length, hw, tw, hj, tj, min, max := Canonicalize(pattern);
    var seenJoker, seenWildcard := hj >= 0, hw >= 0;
    var moreWildcards := seenWildcard && hw != tw;
    max := if seenWildcard then UINT_MAX else max;
    if !seenJoker && !moreWildcards {
      if CharAt(out, 0) == '*' {
        spec := Spec(MatchTail, out[1..], min, max);
        OneStar(out, hw);
        TailCompiled(pattern, out[1..], spec);
        return;
      }
      if length > 0 && out[length - 1] == '*' {
        spec := Spec(MatchHead, out[..length - 1], min, max);
        OneStar(out, hw);
        HeadCompiled(pattern, out[..length - 1], spec);
        return;
      }
      if !seenWildcard {
        spec := Spec(MatchExact, out, min, max);
        OneStar(out, hw);
        ExactCompiled(pattern, out, spec);
        return;
      }
    }
    tw, tj := length - 1 - tw, length - 1 - tj;
    var tail := if seenWildcard then tw > hw else tj > hj;
    if tail {
      var reversed := StringReverse(out, AsInt(length));
      spec := Spec(MatchAllTail, reversed.value, min, max);
    } else {
      spec := Spec(MatchAll, out, min, max);
    }
    AllCompiled(pattern, out, spec);
  }

  /** The matcher would get NULL: the pattern is matched backwards, no reversed text was given, and
      the text is too long for string_reverse. */
  predicate NoString(spec: Spec, text: string, reversed: Option<string>) {
    spec.kind == MatchAllTail && reversed.None? && TWO31 <= |text| <= spec.maxLength && spec.minLength <= |text|
  }

  /** g_pattern_match: the compiled form decides exactly what the pattern means, unless the matcher
      would get NULL; then there is no answer. */
  method PatternMatch(spec: Spec, text: string, reversed: Option<string>, ghost p: string) returns (r: Option<bool>)
    requires Compiled(spec, p) && NulFree(text) && |text| <= UINT_MAX
    requires reversed.Some? ==> reversed.value == Reverse(text)
    ensures r.None? <==> NoString(spec, text, reversed)
    ensures r.Some? ==> (r.value <==> Matches(p, text))
  {
    assert Means(spec, p, text);
    var n, length := |text|, |spec.pattern|;
    if n < spec.minLength || n > spec.maxLength {
      return Some(false);
    }
    var ok;
    match spec.kind {
      case MatchAll =>
        var dummy;
        ok, dummy := PhMatch(spec.pattern, text);
      case MatchAllTail =>
        ReverseNulFree(text);
        var backwards := reversed;
        if reversed.None? {
          backwards := StringReverse(text, AsInt(n));
        }
        if backwards.None? {
          return None;
        }
        var dummy;
        ok, dummy := PhMatch(spec.pattern, backwards.value);
      case MatchHead =>
        if length == n {
          ok := spec.pattern == text;
        } else if length > 0 {
          ok := spec.pattern == text[..length];
        } else {
          ok := true;
        }
      case MatchTail =>
        ok := if length > 0 then spec.pattern == text[n - length..] else true;
      case MatchExact =>
        ok := if length != n then false else spec.pattern == text;
    }
    r := Some(ok);
  }

  /** Compiling a pattern and matching with the result is matching with the pattern, except that a
      text of 2^31 characters or more gets no answer from a pattern that is matched backwards. */
  method CompileAndMatch(pattern: string, s: string) returns (r: Option<bool>, spec: Spec)
    requires NulFree(pattern) && NulFree(s) && 4 * |pattern| <= UINT_MAX && |s| <= UINT_MAX
    ensures Compiled(spec, pattern) && (r.None? <==> NoString(spec, s, None))
    ensures r.Some? ==> (r.value <==> Matches(pattern, s))
    ensures |s| < TWO31 ==> r.Some?
  {
    spec := SpecNew(pattern);
    r := PatternMatch(spec, s, None, pattern);
  }

  /** Such an input: the pattern `*a?` and 2^31 times the letter a. The text matches, and the
      compiled pattern gets no reversed string to find that out. */
  lemma LongText(spec: Spec, text: string)
    requires spec == Spec(MatchAllTail, Reverse("*a?"), 2, UINT_MAX)
    requires |text| == TWO31 && forall i :: 0 <= i < |text| ==> text[i] == 'a'
    ensures Compiled(spec, "*a?") && Matches("*a?", text) && NoString(spec, text, None)
  {
    var p, k: nat := "*a?", |text| - 2;
    assert NonStars(p) == 2 by {
      assert p[..2] == "*a" && "*a"[..1] == "*" && "*"[..0] == "";
      assert NonStars("*") == 0 && NonStars("*a") == 1;
    }
    AllCompiled(p, p, spec);
    assert text[k..] == "aa";
    assert Matches(p, "aa") by {
      assert p[1..] == "a?" && "a?"[1..] == "?" && "?"[1..] == "" && "aa"[1..] == "a" && "a"[1..] == "";
      assert Matches("?", "a") && Matches("a?", "aa");
    }
    StarAbsorbs(p, text, k);
  }
}
