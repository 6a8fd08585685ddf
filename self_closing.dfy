/** The self-closing pass of MarshalIndent (dom.go:28, 235), which rewrites every match
    of the regular expression `></[^>]+>` to " />". */
module SelfClosing {

  import opened DomTypes
  import opened TextOps

  /** regSelfClosing.ReplaceAllString(s, " />"): every `></name>` becomes " />". */
  function SelfClose(s: string): string {
    Rewrite(s, EmptyEndTag, " />")
  }

  /** Where the text does not start with `></`, the self-closing pass copies one character. */
  lemma {:induction false} SelfCloseSkips(s: string)
    requires s != [] && !StartsWith(s, "></")
    ensures SelfClose(s) == [s[0]] + SelfClose(s[1..])
  {
  }

  /** A character other than '>' is copied by the self-closing pass. */
  lemma {:induction false} SelfCloseCopiesOne(x: char, rest: string)
    requires x != '>'
    ensures SelfClose([x] + rest) == [x] + SelfClose(rest)
  {
    var s := [x] + rest;
    assert s[0] == x && s[1..] == rest;
    assert !StartsWith(s, "></") by {
      if |s| >= 3 {
        assert s[..3][0] == s[0];
      }
    }
    SelfCloseSkips(s);
  }

  /** Text with no '>' is copied through the self-closing pass unchanged. */
  lemma {:induction false} SelfCloseCopiesPrefix(a: string, b: string)
    requires '>' !in a
    ensures SelfClose(a + b) == a + SelfClose(b)
    decreases |a|
  {
    if a == [] {
      assert a + b == b;
    } else {
      assert a + b == [a[0]] + (a[1..] + b);
      assert a[0] in a;
      SelfCloseCopiesOne(a[0], a[1..] + b);
      assert '>' !in a[1..] by {
        assert a == [a[0]] + a[1..];
      }
      SelfCloseCopiesPrefix(a[1..], b);
      assert a == [a[0]] + a[1..];
    }
  }

  /** At `></` followed by a non-empty run up to the next '>', the pass writes " />". */
  lemma {:induction false} SelfCloseMatches(s: string, j: nat)
    requires StartsWith(s, "></") && |s| >= 4 && s[3] != '>'
    requires 4 <= j < |s| && s[j] == '>' && forall k :: 4 <= k < j ==> s[k] != '>'
    ensures SelfClose(s) == " />" + SelfClose(s[j + 1..])
  {
    assert NextGt(s, 4) == Some(j);
  }

  /** An end tag right after a '>' is rewritten to " />", and the scan goes on after it. */
  lemma {:induction false} SelfCloseEndTagThen(name: string, rest: string)
    requires '>' !in name && name != []
    ensures SelfClose("></" + name + ">" + rest) == " />" + SelfClose(rest)
  {
    var s := "></" + name + ">" + rest;
    var j := 3 + |name|;
    assert s[..3] == "></";
    assert s[3] == name[0] && name[0] in name;
    forall k | 4 <= k < j ensures s[k] != '>' {
      assert s[k] == name[k - 3] && name[k - 3] in name;
    }
    assert s[j] == '>';
    SelfCloseMatches(s, j);
    assert s[j + 1..] == rest;
  }

  /** An end tag right after a '>' is rewritten to " />". */
  lemma {:induction false} SelfCloseEndTag(name: string)
    requires '>' !in name && name != []
    ensures SelfClose("></" + name + ">") == " />"
  {
    SelfCloseEndTagThen(name, []);
    assert "></" + name + ">" + [] == "></" + name + ">";
  }

  /** An end tag that does not follow a '>' is copied unchanged. */
  lemma {:induction false} SelfCloseKeepsEndTag(name: string)
    requires '>' !in name
    ensures SelfClose("</" + name + ">") == "</" + name + ">"
  {
    assert '>' !in "</" + name;
    SelfCloseCopiesPrefix("</" + name, ">");
    assert SelfClose(">") == ">" by {
      assert MatchLen(EmptyEndTag, ">") == 0;
      assert ">"[1..] == [];
    }
  }

  /** An empty element written as a start tag and its end tag collapses to the
      empty-element tag of section 3.1 of XML 1.0. */
  lemma {:induction false} SelfCloseEmptyElement(tag: string, name: string)
    requires '>' !in tag && '>' !in name && name != []
    ensures SelfClose("<" + tag + "></" + name + ">") == "<" + tag + " />"
  {
    var end := "></" + name + ">";
    assert "<" + tag + "></" + name + ">" == ("<" + tag) + end;
    assert '>' !in "<" + tag;
    SelfCloseCopiesPrefix("<" + tag, end);
    SelfCloseEndTag(name);
  }

  /** The pass makes a single left-to-right scan: after `<a></b></c>` is rewritten to
      `<a /></c>`, the " />" it wrote and the `</c>` after it form a new match, which is
      left in place. */
  lemma {:induction false} SelfCloseSinglePass(a: string, b: string, c: string)
    requires '>' !in a && '>' !in b && '>' !in c && b != []
    ensures SelfClose("<" + a + "></" + b + "></" + c + ">") == "<" + a + " /></" + c + ">"
  {
    var open := "<" + a;
    var after := "</" + c + ">";
    var tail := "></" + b + ">" + after;
    assert "<" + a + "></" + b + "></" + c + ">" == open + tail;
    assert '>' !in open;
    SelfCloseCopiesPrefix(open, tail);
    SelfCloseEndTagThen(b, after);
    SelfCloseKeepsEndTag(c);
    assert "<" + a + " /></" + c + ">" == open + (" />" + after);
  }

  /** As written, the pattern also matches after the "-->" of a comment: in indented
      output an element with no child element writes its last comment directly before
      its end tag, and the pass turns `<a><!--c--></a>` into `<a><!--c-- />`, which is no longer
      well-formed (the comment is never closed). */
  lemma {:induction false} SelfCloseMangledComment(tag: string, c: string)
    requires '>' !in tag && '>' !in c && tag != []
    ensures SelfClose("<" + tag + "><!--" + c + "--></" + tag + ">") == "<" + tag + "><!--" + c + "-- />"
  {
    var open := "<" + tag;
    var body := "<!--" + c + "--";
    var rest := ">" + body + "></" + tag + ">";
    CommentShape(tag, c);
    SelfCloseCopiesPrefix(open, rest);
    assert body[1] == '!';
    SelfCloseEndTagAfter(body, tag);
  }

  /** How the element with a trailing comment splits into the pieces the pass sees. */
  lemma {:induction false} CommentShape(tag: string, c: string)
    requires '>' !in tag && '>' !in c
    ensures '>' !in "<" + tag && '>' !in "<!--" + c + "--"
    ensures "<" + tag + "><!--" + c + "--></" + tag + ">" ==
      ("<" + tag) + (">" + ("<!--" + c + "--") + "></" + tag + ">")
    ensures "<" + tag + "><!--" + c + "-- />" == ("<" + tag) + (">" + ("<!--" + c + "--") + " />")
  {
  }

  /** Text whose second and third characters are not "</" does not start with `></`. */
  lemma NotAtEndTag(s: string)
    requires |s| >= 3 && (s[1] != '<' || s[2] != '/')
    ensures !StartsWith(s, "></")
  {
  }

  /** A '>' that ends markup other than a start tag, then `body` (no '>', and not the
      start of an end tag), then an end tag: the end tag is rewritten all the same. */
  lemma {:induction false} SelfCloseEndTagAfter(body: string, name: string)
    requires '>' !in body && |body| >= 2 && !(body[0] == '<' && body[1] == '/')
    requires '>' !in name && name != []
    ensures SelfClose(">" + body + "></" + name + ">") == ">" + body + " />"
  {
    var end := "></" + name + ">";
    var rest := ">" + body + end;
    assert rest == ">" + body + "></" + name + ">";
    assert rest[1] == body[0] && rest[2] == body[1];
    NotAtEndTag(rest);
    SelfCloseSkips(rest);
    assert rest[1..] == body + end;
    SelfCloseCopiesPrefix(body, end);
    SelfCloseEndTag(name);
  }

  /** With an empty prefix and indent the encoder writes no newlines, and the pattern
      also matches the end tag of an element whose last child is an element holding
      text: `<a><b>x</b></a>` becomes `<a><b>x</b />`, which leaves `<a>` unclosed. */
  lemma {:induction false} SelfCloseClosesParent(a: string, b: string, x: string)
    requires '>' !in a && a != []
    requires '>' !in b && b != [] && b[0] != '/'
    requires '>' !in x && x != [] && x[0] != '<'
    ensures SelfClose("<" + a + "><" + b + ">" + x + "</" + b + "></" + a + ">") ==
      "<" + a + "><" + b + ">" + x + "</" + b + " />"
  {
    var open, body := "<" + b, x + "</" + b;
    var r2 := ">" + body + "></" + a + ">";
    var r1 := ">" + (open + r2);
    ParentShape(a, b, x);
    SelfCloseCopiesPrefix("<" + a, r1);
    assert r1[1..] == open + r2 && r1[1] == '<' && r1[2] == b[0];
    NotAtEndTag(r1);
    SelfCloseSkips(r1);
    SelfCloseCopiesPrefix(open, r2);
    SelfCloseEndTagAfter(body, a);
  }

  /** How the element with a nested last child splits into the pieces the pass sees. */
  lemma {:induction false} ParentShape(a: string, b: string, x: string)
    requires '>' !in a && '>' !in b && '>' !in x && x != []
    ensures '>' !in "<" + a && '>' !in "<" + b && '>' !in x + "</" + b
    ensures |x + "</" + b| >= 2 && (x + "</" + b)[0] == x[0]
    ensures "<" + a + "><" + b + ">" + x + "</" + b + "></" + a + ">" ==
      ("<" + a) + (">" + (("<" + b) + (">" + (x + "</" + b) + "></" + a + ">")))
    ensures "<" + a + "><" + b + ">" + x + "</" + b + " />" ==
      ("<" + a) + (">" + (("<" + b) + (">" + (x + "</" + b) + " />")))
  {
  }
}
