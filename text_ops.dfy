/** Hand-written string operations the package applies to text: trimming XML white space
    (strings.Trim with the cutset " \r\n\t") and the left-to-right, non-overlapping
    rewrites used to post-process serialized output (strings.ReplaceAll with a literal
    pattern, and the one regular expression `></[^>]+>`). */
module TextOps {

  import opened DomTypes

  /** The white-space characters of production [3] S in section 2.3 of XML 1.0. */
  predicate IsXmlSpace(c: char) {
    c == ' ' || c == '\r' || c == '\n' || c == '\t'
  }

  predicate AllSpace(s: string) {
    forall k :: 0 <= k < |s| ==> IsXmlSpace(s[k])
  }

  /** The index of the first character at or after `i` that is not white space (|s|
      if there is none): where strings.TrimLeft cuts. */
  function SkipSpace(s: string, i: nat): (j: nat)
    requires i <= |s|
    ensures i <= j <= |s|
    ensures forall k :: i <= k < j ==> IsXmlSpace(s[k])
    ensures j < |s| ==> !IsXmlSpace(s[j])
    decreases |s| - i
  {
    if i == |s| || !IsXmlSpace(s[i]) then i else SkipSpace(s, i + 1)
  }

  /** The index just past the last character before `j`, and at or after `lo`, that is
      not white space (`lo` if there is none): where strings.TrimRight cuts. */
  function SkipSpaceBack(s: string, lo: nat, j: nat): (k: nat)
    requires lo <= j <= |s|
    ensures lo <= k <= j
    ensures forall m :: k <= m < j ==> IsXmlSpace(s[m])
    ensures k > lo ==> !IsXmlSpace(s[k - 1])
    decreases j - lo
  {
    if j == lo || !IsXmlSpace(s[j - 1]) then j else SkipSpaceBack(s, lo, j - 1)
  }

  /** strings.Trim(s, " \r\n\t"), which is TrimRight(TrimLeft(s)): `s` with the white
      space at both ends cut off. It is empty exactly when `s` is all white space. */
  function Trim(s: string): (r: string)
    ensures r == [] <==> AllSpace(s)
    ensures r != [] ==> !IsXmlSpace(r[0]) && !IsXmlSpace(r[|r| - 1])
  {
    var lo := SkipSpace(s, 0);
    var hi := SkipSpaceBack(s, lo, |s|);
    s[lo..hi]
  }

  /** Trimming cuts white space only: the result is a slice of `s` with nothing but
      white space before and after it. */
  lemma {:induction false} TrimCutsOnlySpace(s: string)
    ensures exists lo, hi :: (0 <= lo <= hi <= |s| && Trim(s) == s[lo..hi] &&
                              (forall k :: 0 <= k < lo ==> IsXmlSpace(s[k])) &&
                              (forall k :: hi <= k < |s| ==> IsXmlSpace(s[k])))
  {
    var lo := SkipSpace(s, 0);
    var hi := SkipSpaceBack(s, lo, |s|);
    assert Trim(s) == s[lo..hi];
  }

  /** Trimming is idempotent: a trimmed string is its own trim. */
  lemma {:induction false} TrimIdempotent(s: string)
    ensures Trim(Trim(s)) == Trim(s)
  {
    var t := Trim(s);
    if t != [] {
      assert SkipSpace(t, 0) == 0;
      assert SkipSpaceBack(t, 0, |t|) == |t|;
      assert t[0..|t|] == t;
    }
  }

  // ---------------------------------------------------------------------------------
  // Occurrences of a pattern in a string

  predicate StartsWith(s: string, w: string) {
    |w| <= |s| && s[..|w|] == w
  }

  /** `w` occurs somewhere in `s`. */
  predicate Occurs(s: string, w: string) {
    exists i :: 0 <= i <= |s| && StartsWith(s[i..], w)
  }

  /** No character of `rep` appears in `w`. */
  predicate Disjoint(rep: string, w: string) {
    forall k :: 0 <= k < |rep| ==> rep[k] !in w
  }

  // ---------------------------------------------------------------------------------
  // Left-to-right, non-overlapping rewriting

  /** The patterns the package rewrites: a literal string (strings.ReplaceAll) and the
      regular expression `></[^>]+>` that marks an empty element's end tag. */
  datatype Pattern = Literal(pat: string) | EmptyEndTag

  /** The index of the first '>' in `s` at or after `from`, if any. */
  function NextGt(s: string, from: nat): (r: Option<nat>)
    decreases |s| - from
    ensures r.Some? ==> from <= r.value < |s| && s[r.value] == '>'
    ensures r.Some? ==> forall k :: from <= k < r.value ==> s[k] != '>'
    ensures r.None? ==> forall k :: from <= k < |s| ==> s[k] != '>'
  {
    if from >= |s| then None
    else if s[from] == '>' then Some(from)
    else NextGt(s, from + 1)
  }

  /** The length of the match of `p` at the front of `s`, or 0 when there is none.
      The regular expression's `[^>]+` cannot cross a '>', so its match runs from `></`
      to the first '>' after it, with at least one character in between. */
  function MatchLen(p: Pattern, s: string): (n: nat)
    ensures n <= |s|
    ensures p.Literal? ==> (n > 0 <==> p.pat != [] && StartsWith(s, p.pat))
    ensures p.Literal? && n > 0 ==> n == |p.pat|
    ensures p.EmptyEndTag? && n > 0 ==>
      n >= 5 && StartsWith(s, "></") && s[n - 1] == '>' &&
      forall k :: 3 <= k < n - 1 ==> s[k] != '>'
  {
    match p
    case Literal(pat) =>
      if pat != [] && StartsWith(s, pat) then |pat| else 0
    case EmptyEndTag =>
      if |s| >= 4 && StartsWith(s, "></") && s[3] != '>' then
        match NextGt(s, 4)
        case Some(j) => j + 1
        case None => 0
      else 0
  }

  /** The length of the shortest text `p` matches: a literal matches only itself, and
      the regular expression needs `></`, at least one character and a '>'. */
  function ShortestMatch(p: Pattern): nat {
    if p.Literal? then |p.pat| else 5
  }

  /** Replaces each match of `p`, scanning left to right, by `rep`; text between
      matches is copied unchanged. This is what strings.ReplaceAll and
      regexp.ReplaceAllString do for the patterns above. */
  function Rewrite(s: string, p: Pattern, rep: string): string
    decreases |s|
  {
    if s == [] then []
    else if MatchLen(p, s) > 0 then rep + Rewrite(s[MatchLen(p, s)..], p, rep)
    else [s[0]] + Rewrite(s[1..], p, rep)
  }

  /** A replacement no longer than the shortest match never makes the text longer. */
  lemma {:induction false} RewriteNeverGrows(s: string, p: Pattern, rep: string)
    requires |rep| <= ShortestMatch(p)
    ensures |Rewrite(s, p, rep)| <= |s|
    decreases |s|
  {
    if s != [] {
      var n := MatchLen(p, s);
      if n > 0 {
        RewriteNeverGrows(s[n..], p, rep);
      } else {
        RewriteNeverGrows(s[1..], p, rep);
      }
    }
  }

  /** strings.ReplaceAll(s, pat, rep) for a non-empty `pat`, the only kind the package
      passes. (For an empty `pat` Go inserts `rep` at every rune boundary; here nothing
      matches and `s` is returned unchanged.) A replacement no longer than the pattern
      never makes the text longer. */
  function ReplaceAll(s: string, pat: string, rep: string): (r: string)
    ensures |rep| <= |pat| ==> |r| <= |s|
  {
    LiteralNeverGrows(s, pat, rep);
    Rewrite(s, Literal(pat), rep)
  }

  /** Replacing a literal by text no longer than it never makes the text longer. */
  lemma LiteralNeverGrows(s: string, pat: string, rep: string)
    ensures |rep| <= |pat| ==> |Rewrite(s, Literal(pat), rep)| <= |s|
  {
    if |rep| <= |pat| {
      RewriteNeverGrows(s, Literal(pat), rep);
    }
  }

  /** If the rewritten text starts with `w`, so did the original, provided no character
      of the (non-empty) replacement appears in `w`. */
  lemma {:induction false} RewriteStartsWith(t: string, p: Pattern, rep: string, w: string)
    requires rep != [] && Disjoint(rep, w)
    ensures StartsWith(Rewrite(t, p, rep), w) ==> StartsWith(t, w)
    decreases |t|
  {
    if w == [] || t == [] {
    } else if MatchLen(p, t) > 0 {
      assert Rewrite(t, p, rep)[0] == rep[0];
      assert rep[0] !in w;
    } else {
      var rest := Rewrite(t[1..], p, rep);
      assert Rewrite(t, p, rep) == [t[0]] + rest;
      assert Disjoint(rep, w[1..]) by {
        forall k | 0 <= k < |rep| ensures rep[k] !in w[1..] {
          assert rep[k] !in w;
          assert w == [w[0]] + w[1..];
        }
      }
      RewriteStartsWith(t[1..], p, rep, w[1..]);
      var out := Rewrite(t, p, rep);
      if StartsWith(out, w) {
        assert out[..|w|] == w;
        assert rest[..|w| - 1] == out[..|w|][1..];
        assert StartsWith(t[1..], w[1..]);
        assert t[0] == out[0] == w[0];
        assert t[..|w|] == [t[0]] + t[1..][..|w| - 1];
      }
    }
  }

  /** A suffix of a string without `w` has no `w` either. */
  lemma {:induction false} SuffixKeepsAbsence(t: string, k: nat, w: string)
    requires k <= |t| && !Occurs(t, w)
    ensures !Occurs(t[k..], w)
  {
    forall j | 0 <= j <= |t[k..]| ensures !StartsWith(t[k..][j..], w) {
      assert t[k..][j..] == t[k + j..];
    }
  }

  /** Rewriting creates no new occurrence of `w` when the replacement is non-empty and
      shares no character with `w`: every occurrence in the output comes from the input.
      (An empty replacement can join the text around a match into a new occurrence.) */
  lemma {:induction false} RewriteKeepsAbsence(t: string, p: Pattern, rep: string, w: string)
    requires w != [] && rep != [] && Disjoint(rep, w)
    requires !Occurs(t, w)
    ensures !Occurs(Rewrite(t, p, rep), w)
    decreases |t|
  {
    if t != [] {
      var n := MatchLen(p, t);
      var k := if n > 0 then n else 1;
      var piece := if n > 0 then rep else [t[0]];
      var rest := Rewrite(t[k..], p, rep);
      var out := piece + rest;
      assert Rewrite(t, p, rep) == out;
      SuffixKeepsAbsence(t, k, w);
      RewriteKeepsAbsence(t[k..], p, rep, w);
      forall i | 0 <= i <= |out| ensures !StartsWith(out[i..], w) {
        if i >= |piece| {
          assert out[i..] == rest[i - |piece|..];
        } else if n > 0 {
          assert out[i] == rep[i];
        } else {
          assert i == 0 && out[i..] == Rewrite(t, p, rep);
          RewriteStartsWith(t, p, rep, w);
          assert t[0..] == t;
        }
      }
    }
  }

  /** After ReplaceAll no occurrence of the pattern is left, provided the replacement is
      non-empty and shares no character with the pattern. */
  lemma {:induction false} ReplaceAllRemovesPattern(t: string, pat: string, rep: string)
    requires pat != [] && rep != [] && Disjoint(rep, pat)
    ensures !Occurs(ReplaceAll(t, pat, rep), pat)
    decreases |t|
  {
    if t != [] {
      var n := MatchLen(Literal(pat), t);
      var k := if n > 0 then n else 1;
      var piece := if n > 0 then rep else [t[0]];
      var rest := ReplaceAll(t[k..], pat, rep);
      var out := piece + rest;
      assert ReplaceAll(t, pat, rep) == out;
      ReplaceAllRemovesPattern(t[k..], pat, rep);
      forall i | 0 <= i <= |out| ensures !StartsWith(out[i..], pat) {
        if i >= |piece| {
          assert out[i..] == rest[i - |piece|..];
        } else if n > 0 {
          assert out[i] == rep[i];
        } else {
          assert i == 0 && out[i..] == ReplaceAll(t, pat, rep);
          RewriteStartsWith(t, Literal(pat), rep, pat);
          assert !StartsWith(t, pat);
        }
      }
    }
  }

  /** ReplaceAll leaves a string without the pattern unchanged. */
  lemma {:induction false} ReplaceAllAbsent(t: string, pat: string, rep: string)
    requires !Occurs(t, pat)
    ensures ReplaceAll(t, pat, rep) == t
    decreases |t|
  {
    if t != [] {
      assert t[0..] == t;
      assert MatchLen(Literal(pat), t) == 0;
      SuffixKeepsAbsence(t, 1, pat);
      ReplaceAllAbsent(t[1..], pat, rep);
    }
  }

  /** A character at the front of the text is replaced by `pat` if it is `c`, and kept
      otherwise. */
  lemma {:induction false} ReplaceCharFront(x: char, mid: string, c: char, pat: string)
    ensures ReplaceAll([x] + mid, [c], pat) ==
      (if x == c then pat else [x]) + ReplaceAll(mid, [c], pat)
  {
    var u := [x] + mid;
    assert u[1..] == mid;
    assert StartsWith(u, [c]) <==> x == c by {
      assert u[..1] == [x];
    }
  }

  /** Replacing a character reference by its one-character meaning is undone by the
      reverse replacement exactly when the text held no bare copy of that character. */
  lemma {:induction false} UnescapeRoundTrip(t: string, pat: string, c: char)
    requires pat != [] && c !in t
    ensures ReplaceAll(ReplaceAll(t, pat, [c]), [c], pat) == t
    decreases |t|
  {
    if t != [] {
      var n := MatchLen(Literal(pat), t);
      var k := if n > 0 then n else 1;
      assert c !in t[k..] by {
        forall j | 0 <= j < |t[k..]| ensures t[k..][j] != c {
          assert t[k..][j] == t[k + j];
        }
      }
      UnescapeRoundTrip(t[k..], pat, c);
      var mid := ReplaceAll(t[k..], pat, [c]);
      var x := if n > 0 then c else t[0];
      assert ReplaceAll(t, pat, [c]) == [x] + mid;
      ReplaceCharFront(x, mid, c, pat);
      if n > 0 {
        assert t[..n] == pat;
        assert t == t[..n] + t[k..];
      } else {
        assert t[0] != c;
        assert t == [t[0]] + t[1..];
      }
    }
  }

  /** Prefixing text whose characters never start `w` creates no occurrence of `w`. */
  lemma {:induction false} PrefixKeepsAbsence(a: string, b: string, w: string)
    requires w != [] && w[0] !in a
    requires !Occurs(b, w)
    ensures !Occurs(a + b, w)
  {
    forall i | 0 <= i <= |a + b| ensures !StartsWith((a + b)[i..], w) {
      if i < |a| {
        assert (a + b)[i] == a[i];
      } else {
        assert (a + b)[i..] == b[i - |a|..];
      }
    }
  }
}
