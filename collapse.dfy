/** The self-closing pass as evidently intended: an end tag is collapsed into " />" only
    where it directly follows the start tag it closes, so that comments and directives
    that end an element are left intact. */
module Collapse {

  import opened DomTypes
  import opened TextOps

  /** A '<' that opens a start tag, as opposed to an end tag, a comment, a directive or
      a processing instruction. */
  predicate OpensStartTag(s: string) {
    |s| >= 2 && s[0] == '<' && s[1] != '/' && s[1] != '!' && s[1] != '?'
  }

  /** The end of the comment that starts `s`: just past the first "-->" at or after
      `from`, or the end of `s` if the comment is never closed. */
  function CommentEnd(s: string, from: nat): (n: nat)
    requires from <= |s|
    ensures from <= n <= |s|
    decreases |s| - from
  {
    if from + 3 > |s| then |s|
    else if s[from..from + 3] == "-->" then from + 3
    else CommentEnd(s, from + 1)
  }

  /** One step of the corrected pass: what it writes, how many characters it consumes,
      and whether it is inside a start tag afterwards. */
  datatype Piece = Piece(out: string, len: nat, inStart: bool)

  /** The step at the front of non-empty `s`: inside a start tag, `></name>` becomes
      " />"; a comment is copied whole; any other character is copied, and a '<' that
      opens a start tag enters one while a '>' leaves it. */
  function Scan(s: string, inStart: bool): (p: Piece)
    requires s != []
    ensures 1 <= p.len <= |s|
  {
    if inStart && MatchLen(EmptyEndTag, s) > 0 then Piece(" />", MatchLen(EmptyEndTag, s), false)
    else if StartsWith(s, "<!--") then Piece(s[..CommentEnd(s, 4)], CommentEnd(s, 4), false)
    else Piece([s[0]], 1, if s[0] == '<' then OpensStartTag(s) else if s[0] == '>' then false else inStart)
  }

  /** The corrected pass: it scans like the regular expression but remembers whether it
      is inside a start tag, copies comments whole, and collapses `></name>` to " />"
      only at the '>' that closes a start tag. */
  function CollapseEmpty(s: string, inStart: bool): string
    decreases |s|
  {
    if s == [] then []
    else
      var p := Scan(s, inStart);
      p.out + CollapseEmpty(s[p.len..], p.inStart)
  }

  /** The corrected pass never makes the text longer: each step writes at most as many
      characters as it consumes. */
  lemma {:induction false} CollapseNeverGrows(s: string, inStart: bool)
    ensures |CollapseEmpty(s, inStart)| <= |s|
    decreases |s|
  {
    if s != [] {
      var p := Scan(s, inStart);
      assert |p.out| <= p.len;
      CollapseNeverGrows(s[p.len..], p.inStart);
    }
  }

  /** A character other than '<' and '>' is copied, and the scan state is kept. */
  lemma {:induction false} CollapsePlain(x: char, rest: string, inStart: bool)
    requires x != '<' && x != '>'
    ensures CollapseEmpty([x] + rest, inStart) == [x] + CollapseEmpty(rest, inStart)
  {
    var s := [x] + rest;
    assert s[0] == x && s[1..] == rest;
    assert !StartsWith(s, "<!--") by {
      if |s| >= 4 { assert s[..4][0] == s[0]; }
    }
    assert MatchLen(EmptyEndTag, s) == 0 by {
      if |s| >= 3 { assert s[..3][0] == s[0]; }
    }
    assert Scan(s, inStart) == Piece([x], 1, inStart);
  }

  /** Splitting off the head of a non-empty text commutes with appending. */
  lemma SplitHead(a: string, c: string)
    requires a != []
    ensures a + c == [a[0]] + (a[1..] + c)
  {
    assert a == [a[0]] + a[1..];
  }

  /** The first character of `a`, neither '<' nor '>', is copied in front of `b`. */
  lemma {:induction false} CollapseHead(a: string, b: string, inStart: bool)
    requires a != [] && a[0] != '<' && a[0] != '>'
    ensures CollapseEmpty(a + b, inStart) == [a[0]] + CollapseEmpty(a[1..] + b, inStart)
  {
    assert a + b == [a[0]] + (a[1..] + b);
    CollapsePlain(a[0], a[1..] + b, inStart);
  }

  /** Text with no '<' and no '>' is copied through, and the scan state is kept. */
  lemma {:induction false} CollapseCopies(a: string, b: string, inStart: bool)
    requires forall k :: 0 <= k < |a| ==> a[k] != '<' && a[k] != '>'
    ensures CollapseEmpty(a + b, inStart) == a + CollapseEmpty(b, inStart)
    decreases |a|
  {
    if a == [] {
      assert a + b == b;
    } else {
      CollapseHead(a, b, inStart);
      CollapseCopies(a[1..], b, inStart);
      SplitHead(a, CollapseEmpty(b, inStart));
    }
  }

  /** One '<' or '>' that neither starts a comment nor ends a start tag before an end
      tag is copied; the scan is inside a start tag after it exactly when it opened one. */
  lemma {:induction false} CollapseStep(s: string, inStart: bool)
    requires s != [] && (s[0] == '<' || s[0] == '>')
    requires !StartsWith(s, "<!--")
    requires !(inStart && StartsWith(s, "></"))
    ensures CollapseEmpty(s, inStart) == [s[0]] + CollapseEmpty(s[1..], s[0] == '<' && OpensStartTag(s))
  {
    if inStart {
      assert MatchLen(EmptyEndTag, s) == 0;
    }
    assert Scan(s, inStart) == Piece([s[0]], 1, s[0] == '<' && OpensStartTag(s));
  }

  /** A '<' that opens a start tag is copied, and the scan is then inside the tag. */
  lemma {:induction false} CollapseOpensTag(rest: string, inStart: bool)
    requires rest != [] && rest[0] != '/' && rest[0] != '!' && rest[0] != '?'
    ensures CollapseEmpty("<" + rest, inStart) == "<" + CollapseEmpty(rest, true)
  {
    var s := "<" + rest;
    assert s[0] == '<' && s[1] == rest[0] && s[1..] == rest;
    assert OpensStartTag(s);
    assert !StartsWith(s, "<!--") by {
      if |s| >= 4 { assert s[..4][1] == s[1]; }
    }
    CollapseStep(s, inStart);
  }

  /** A '<' that opens an end tag is copied, and the scan is then outside any start tag. */
  lemma {:induction false} CollapseOpensEndTag(rest: string, inStart: bool)
    requires rest != [] && rest[0] == '/'
    ensures CollapseEmpty("<" + rest, inStart) == "<" + CollapseEmpty(rest, false)
  {
    var s := "<" + rest;
    assert s[0] == '<' && s[1] == '/' && s[1..] == rest;
    assert !OpensStartTag(s);
    assert !StartsWith(s, "<!--") by {
      if |s| >= 4 { assert s[..4][1] == s[1]; }
    }
    CollapseStep(s, inStart);
  }

  /** A '>' not followed by an end tag is copied, and the scan leaves any start tag. */
  lemma {:induction false} CollapseCloses(rest: string, inStart: bool)
    requires !StartsWith(rest, "</")
    ensures CollapseEmpty(">" + rest, inStart) == ">" + CollapseEmpty(rest, false)
  {
    var s := ">" + rest;
    assert s[0] == '>' && s[1..] == rest;
    assert !StartsWith(s, "></") by {
      if |s| >= 3 { assert s[..3][1..] == rest[..2]; }
    }
    assert !StartsWith(s, "<!--") by {
      if |s| >= 4 { assert s[..4][0] == s[0]; }
    }
    CollapseStep(s, inStart);
  }

  /** A start tag's '<' and name are copied, and the scan is then inside the start tag. */
  lemma {:induction false} CollapseOpenTag(tag: string, t: string)
    requires tag != [] && tag[0] != '/' && tag[0] != '!' && tag[0] != '?'
    requires forall k :: 0 <= k < |tag| ==> tag[k] != '<' && tag[k] != '>'
    ensures CollapseEmpty("<" + tag + t, false) == "<" + tag + CollapseEmpty(t, true)
  {
    var rest := CollapseEmpty(t, true);
    assert CollapseEmpty("<" + tag + t, false) == "<" + CollapseEmpty(tag + t, true) by {
      assert "<" + tag + t == "<" + (tag + t);
      assert (tag + t)[0] == tag[0];
      CollapseOpensTag(tag + t, false);
    }
    assert CollapseEmpty(tag + t, true) == tag + rest by {
      CollapseCopies(tag, t, true);
    }
    assert "<" + (tag + rest) == "<" + tag + rest;
  }

  /** Inside a start tag, `></name>` collapses to " />" and the scan goes on after it. */
  lemma {:induction false} CollapseEndTagThen(name: string, rest: string)
    requires '>' !in name && name != []
    ensures CollapseEmpty("></" + name + ">" + rest, true) == " />" + CollapseEmpty(rest, false)
  {
    var s := "></" + name + ">" + rest;
    var j := 3 + |name|;
    assert s[..3] == "></";
    assert s[3] == name[0] && name[0] in name;
    forall k | 4 <= k < j ensures s[k] != '>' {
      assert s[k] == name[k - 3] && name[k - 3] in name;
    }
    assert s[j] == '>';
    assert NextGt(s, 4) == Some(j);
    assert MatchLen(EmptyEndTag, s) == j + 1;
    assert Scan(s, true) == Piece(" />", j + 1, false);
    assert s[j + 1..] == rest;
  }

  /** The corrected pass still collapses an empty element: `<tag></name>` becomes the
      empty-element tag `<tag />`. */
  lemma {:induction false} CollapseEmptyElement(tag: string, name: string)
    requires tag != [] && tag[0] != '/' && tag[0] != '!' && tag[0] != '?'
    requires forall k :: 0 <= k < |tag| ==> tag[k] != '<' && tag[k] != '>'
    requires '>' !in name && name != []
    ensures CollapseEmpty("<" + tag + "></" + name + ">", false) == "<" + tag + " />"
  {
    var end := "></" + name + ">";
    assert "<" + tag + "></" + name + ">" == "<" + tag + end;
    CollapseOpenTag(tag, end);
    CollapseEndTagThen(name, []);
    assert end + [] == end;
  }

  /** A comment with no '>' in it is copied whole. */
  lemma {:induction false} CollapseComment(c: string, rest: string)
    requires '>' !in c
    ensures CollapseEmpty("<!--" + c + "-->" + rest, false) == "<!--" + c + "-->" + CollapseEmpty(rest, false)
  {
    var comment := "<!--" + c + "-->";
    var u := comment + rest;
    assert u[..4] == "<!--";
    assert u[..|c| + 7] == comment;
    CommentEndIsClose(u, c);
    assert u[..|comment|] == comment && u[|comment|..] == rest;
  }

  /** An end tag outside a start tag is copied unchanged. */
  lemma {:induction false} CollapseKeepsEndTag(name: string)
    requires forall k :: 0 <= k < |name| ==> name[k] != '<' && name[k] != '>'
    ensures CollapseEmpty("</" + name + ">", false) == "</" + name + ">"
  {
    EndTagOpensNothing(name);
    CollapseWithoutStartTags("</" + name + ">");
  }

  /** No '<' in an end tag opens a start tag. */
  lemma {:induction false} EndTagOpensNothing(name: string)
    requires forall k :: 0 <= k < |name| ==> name[k] != '<'
    ensures NoStartTag("</" + name + ">")
  {
    var s := "</" + name + ">";
    forall i | 0 <= i < |s| ensures !OpensStartTag(s[i..]) {
      assert s[i..][0] == s[i];
      if i == 0 {
        assert s[0..][1] == s[1] == '/';
      } else if i == 1 {
        assert s[1] == '/';
      } else if i < |s| - 1 {
        assert s[i] == name[i - 2];
      } else {
        assert s[i] == '>';
      }
    }
  }

  /** The corrected pass leaves alone an element whose last child is a comment, the
      input SelfCloseMangledComment shows the written pass breaking. */
  lemma {:induction false} CollapseKeepsTrailingComment(tag: string, c: string)
    requires tag != [] && tag[0] != '/' && tag[0] != '!' && tag[0] != '?'
    requires forall k :: 0 <= k < |tag| ==> tag[k] != '<' && tag[k] != '>'
    requires '>' !in c
    ensures var s := "<" + tag + "><!--" + c + "--></" + tag + ">";
      CollapseEmpty(s, false) == s
  {
    var comment := "<!--" + c + "-->";
    var close := "</" + tag + ">";
    var u := comment + close;
    var s := "<" + tag + (">" + u);
    assert s == "<" + tag + "><!--" + c + "--></" + tag + ">";
    CollapseOpenTag(tag, ">" + u);
    assert !StartsWith(u, "</") by { assert u[..2][1] == u[1] == '!'; }
    CollapseCloses(u, true);
    CollapseComment(c, close);
    CollapseKeepsEndTag(tag);
  }

  /** The corrected pass leaves alone an element whose last child is an element holding
      text, the input SelfCloseClosesParent shows the written pass breaking. */
  lemma {:induction false} CollapseKeepsParentEnd(a: string, b: string, x: string)
    requires a != [] && a[0] != '/' && a[0] != '!' && a[0] != '?'
    requires forall k :: 0 <= k < |a| ==> a[k] != '<' && a[k] != '>'
    requires b != [] && b[0] != '/' && b[0] != '!' && b[0] != '?'
    requires forall k :: 0 <= k < |b| ==> b[k] != '<' && b[k] != '>'
    requires x != [] && forall k :: 0 <= k < |x| ==> x[k] != '<' && x[k] != '>'
    ensures var s := "<" + a + "><" + b + ">" + x + "</" + b + "></" + a + ">";
      CollapseEmpty(s, false) == s
  {
    var close := "</" + a + ">";
    var t6 := ">" + close;
    var endb := "/" + b;
    var t5 := "<" + (endb + t6);
    var t4 := x + t5;
    var t3 := ">" + t4;
    var t2 := "<" + b + t3;
    var t1 := ">" + t2;
    NestedShape(a, b, x);
    CollapseOpenTag(a, t1);
    assert !StartsWith(t2, "</") by { assert t2[..2][1] == t2[1] == b[0]; }
    CollapseCloses(t2, true);
    CollapseOpenTag(b, t3);
    assert !StartsWith(t4, "</") by { assert t4[..2][0] == t4[0] == x[0]; }
    CollapseCloses(t4, true);
    CollapseCopies(x, t5, false);
    assert (endb + t6)[0] == '/';
    CollapseOpensEndTag(endb + t6, false);
    assert forall k :: 0 <= k < |endb| ==> endb[k] != '<' && endb[k] != '>' by {
      forall k | 0 <= k < |endb| ensures endb[k] != '<' && endb[k] != '>' {
        if k > 0 { assert endb[k] == b[k - 1]; }
      }
    }
    CollapseCopies(endb, t6, false);
    assert t6[0] == '>' && t6[1..] == close;
    assert !StartsWith(t6, "<!--") by {
      if |t6| >= 4 { assert t6[..4][0] == t6[0]; }
    }
    CollapseStep(t6, false);
    CollapseKeepsEndTag(a);
  }

  /** How the element with a nested last child splits into the pieces the pass sees. */
  lemma {:induction false} NestedShape(a: string, b: string, x: string)
    ensures "<" + a + "><" + b + ">" + x + "</" + b + "></" + a + ">" ==
      "<" + a + (">" + ("<" + b + (">" + (x + ("<" + (("/" + b) + (">" + ("</" + a + ">"))))))))
  {
  }

  /** The comment `<!--c-->` with no '>' in `c` ends at its own "-->". */
  lemma {:induction false} CommentEndIsClose(u: string, c: string)
    requires '>' !in c
    requires |u| >= |c| + 7 && u[..|c| + 7] == "<!--" + c + "-->"
    ensures CommentEnd(u, 4) == |c| + 7
  {
    var m := |c| + 7;
    forall q | 6 <= q < m - 1 ensures u[q] != '>' {
      assert u[q] == u[..m][q];
      if q < 4 + |c| {
        assert u[..m][q] == c[q - 4] && c[q - 4] in c;
      }
    }
    assert u[m - 3..m] == u[..m][m - 3..m];
    CommentEndScan(u, 4, m);
  }

  /** Scanning for "-->" from `from` passes every position whose third character is not
      '>' and stops at the "-->" that ends at `m`. */
  lemma {:induction false} CommentEndScan(u: string, from: nat, m: nat)
    requires 4 <= from <= m - 3 && m <= |u|
    requires u[m - 3..m] == "-->"
    requires forall q :: from + 2 <= q < m - 1 ==> u[q] != '>'
    ensures CommentEnd(u, from) == m
    decreases m - from
  {
    if from < m - 3 {
      assert u[from..from + 3][2] == u[from + 2];
      CommentEndScan(u, from + 1, m);
    }
  }

  /** No '<' in `s` opens a start tag. */
  predicate NoStartTag(s: string) {
    forall i :: 0 <= i < |s| ==> !OpensStartTag(s[i..])
  }

  /** Text in which no '<' opens a start tag is never changed by the corrected pass:
      text, comments, directives and end tags are copied as they are. */
  lemma {:induction false} CollapseWithoutStartTags(s: string)
    requires NoStartTag(s)
    ensures CollapseEmpty(s, false) == s
    decreases |s|
  {
    if s != [] {
      var k := if StartsWith(s, "<!--") then CommentEnd(s, 4) else 1;
      assert k > 0;
      forall i | 0 <= i < |s[k..]| ensures !OpensStartTag(s[k..][i..]) {
        assert s[k..][i..] == s[k + i..];
      }
      CollapseWithoutStartTags(s[k..]);
      assert s[..0] == [] && s[0..] == s;
      assert s == s[..k] + s[k..];
    }
  }
}
