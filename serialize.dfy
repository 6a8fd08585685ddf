/** Element.Marshal and Element.MarshalIndent (dom.go:198-242): the text the structural
    serializer produced is post-processed by plain string rewrites. Character references
    for quotes are turned back into the quote characters unless asked to keep them,
    MarshalIndent then applies the self-closing pass, and finally may put the XML
    declaration of section 2.8 of XML 1.0 in front. */
module Serialize {

  import opened DomTypes
  import opened TextOps
  import opened SelfClosing

  /** The character reference the serializer writes for '"' (section 4.1 of XML 1.0). */
  const QuotRef: string := "&#34;"

  /** The character reference the serializer writes for '\''. */
  const AposRef: string := "&#39;"

  /** The XML declaration MarshalIndent can put in front (dom.go:238). */
  const Declaration: string := "<?xml version=\"1.0\" encoding=\"utf-8\"?>"

  /** The two rewrites of dom.go:206-212 and dom.go:227-233, in that order: `&#34;`
      becomes '"' unless `escQuot`, then `&#39;` becomes '\'' unless `escApos`. The
      text never grows, and with both flags set it is left as it is. */
  function Unescape(s: string, escQuot: bool, escApos: bool): (r: string)
    ensures |r| <= |s|
    ensures escQuot && escApos ==> r == s
  {
    var q := if escQuot then s else ReplaceAll(s, QuotRef, "\"");
    if escApos then q else ReplaceAll(q, AposRef, "'")
  }

  /** After un-escaping, no reference that was to be replaced is left: neither rewrite
      leaves its own reference behind nor creates the other's. */
  lemma {:induction false} UnescapeRemovesRefs(s: string, escQuot: bool, escApos: bool)
    ensures !escQuot ==> !Occurs(Unescape(s, escQuot, escApos), QuotRef)
    ensures !escApos ==> !Occurs(Unescape(s, escQuot, escApos), AposRef)
  {
    var q := if escQuot then s else ReplaceAll(s, QuotRef, "\"");
    if !escQuot {
      ReplaceAllRemovesPattern(s, QuotRef, "\"");
      if !escApos {
        RewriteKeepsAbsence(q, Literal(AposRef), "'", QuotRef);
      }
    }
    if !escApos {
      ReplaceAllRemovesPattern(q, AposRef, "'");
    }
  }

  /** Text holding neither reference comes out of the un-escaping unchanged. */
  lemma {:induction false} UnescapeKeepsPlainText(s: string, escQuot: bool, escApos: bool)
    requires !Occurs(s, QuotRef) && !Occurs(s, AposRef)
    ensures Unescape(s, escQuot, escApos) == s
  {
    ReplaceAllAbsent(s, QuotRef, "\"");
    ReplaceAllAbsent(s, AposRef, "'");
  }

  /** Turning `&#34;` into '"' loses nothing when the text held no bare '"': escaping
      every '"' again gives the text back. Likewise for `&#39;` and '\''. */
  lemma {:induction false} UnescapeReversible(s: string)
    ensures '"' !in s ==> ReplaceAll(Unescape(s, false, true), "\"", QuotRef) == s
    ensures '\'' !in s ==> ReplaceAll(Unescape(s, true, false), "'", AposRef) == s
  {
    if '"' !in s {
      UnescapeRoundTrip(s, QuotRef, '"');
    }
    if '\'' !in s {
      UnescapeRoundTrip(s, AposRef, '\'');
    }
  }

  /** Marshal (dom.go:198-215). `dat` is what xml.Marshal returned for the element: the
      serialized text, or the error that is handed back with an empty result. */
  method Marshal(dat: Result<string>, escQuot: bool, escApos: bool) returns (res: string, err: Option<Error>)
    ensures dat.Failure? ==> res == "" && err == Some(dat.error)
    ensures dat.Success? ==> err == None && res == Unescape(dat.value, escQuot, escApos)
    ensures dat.Success? && !escQuot ==> !Occurs(res, QuotRef)
    ensures dat.Success? && !escApos ==> !Occurs(res, AposRef)
  {
    if dat.Failure? {
      return "", Some(dat.error);
    }
    res := dat.value;
    if !escQuot {
      res := ReplaceAll(res, QuotRef, "\"");
    }
    if !escApos {
      res := ReplaceAll(res, AposRef, "'");
    }
    err := None;
    UnescapeRemovesRefs(dat.value, escQuot, escApos);
  }

  /** The text MarshalIndent returns for serialized text `s`: un-escaped, passed through
      the self-closing pass, and with the declaration in front when `withDecl`. Apart
      from the declaration it is never longer than `s`. */
  function Indented(s: string, withDecl: bool, escQuot: bool, escApos: bool): (r: string)
    ensures |r| <= (if withDecl then |Declaration| + 1 else 0) + |s|
  {
    RewriteNeverGrows(Unescape(s, escQuot, escApos), EmptyEndTag, " />");
    var body := SelfClose(Unescape(s, escQuot, escApos));
    if withDecl then Declaration + "\n" + body else body
  }

  /** MarshalIndent (dom.go:219-242). `dat` is what xml.MarshalIndent returned for the
      element with the caller's prefix and indent, which only shape `dat`. The result
      starts with the declaration and a newline exactly when `withDecl` is set, and the
      references that were to be replaced stay absent through the self-closing pass. */
  method MarshalIndent(dat: Result<string>, withDecl: bool, escQuot: bool, escApos: bool)
    returns (res: string, err: Option<Error>)
    ensures dat.Failure? ==> res == "" && err == Some(dat.error)
    ensures dat.Success? ==> err == None && res == Indented(dat.value, withDecl, escQuot, escApos)
    ensures dat.Success? && !escQuot ==> !Occurs(res, QuotRef)
    ensures dat.Success? && !escApos ==> !Occurs(res, AposRef)
  {
    if dat.Failure? {
      return "", Some(dat.error);
    }
    res := dat.value;
    if !escQuot {
      res := ReplaceAll(res, QuotRef, "\"");
    }
    if !escApos {
      res := ReplaceAll(res, AposRef, "'");
    }
    res := SelfClose(res);
    if withDecl {
      res := Declaration + "\n" + res;
    }
    err := None;
    IndentedKeepsRefsOut(dat.value, withDecl, escQuot, escApos);
  }

  /** The references removed by the un-escaping stay absent in MarshalIndent's result:
      neither " />" nor the declaration holds a character of them that could complete one. */
  lemma {:induction false} IndentedKeepsRefsOut(s: string, withDecl: bool, escQuot: bool, escApos: bool)
    ensures !escQuot ==> !Occurs(Indented(s, withDecl, escQuot, escApos), QuotRef)
    ensures !escApos ==> !Occurs(Indented(s, withDecl, escQuot, escApos), AposRef)
  {
    var u := Unescape(s, escQuot, escApos);
    UnescapeRemovesRefs(s, escQuot, escApos);
    if !escQuot {
      KeptOut(u, withDecl, QuotRef);
    }
    if !escApos {
      KeptOut(u, withDecl, AposRef);
    }
  }

  /** A reference absent from `u` is absent after the self-closing pass and the optional
      declaration: " />" and the declaration hold no '&' that could start one. */
  lemma {:induction false} KeptOut(u: string, withDecl: bool, ref: string)
    requires ref == QuotRef || ref == AposRef
    requires !Occurs(u, ref)
    ensures var body := SelfClose(u);
      !Occurs(if withDecl then Declaration + "\n" + body else body, ref)
  {
    RefsStartWithAmp(ref);
    RewriteKeepsAbsence(u, EmptyEndTag, " />", ref);
    if withDecl {
      PrefixKeepsAbsence(Declaration + "\n", SelfClose(u), ref);
    }
  }

  /** Both references start with '&', which neither " />" nor the declaration holds. */
  lemma {:induction false} RefsStartWithAmp(ref: string)
    requires ref == QuotRef || ref == AposRef
    ensures ref != [] && ref[0] == '&' && Disjoint(" />", ref)
    ensures ref[0] !in Declaration + "\n"
  {
    NoAmpInDeclaration();
  }

  lemma {:induction false} NoAmpInDeclaration()
    ensures '&' !in Declaration + "\n"
  {
    var d := Declaration + "\n";
    forall k | 0 <= k < |d| ensures d[k] != '&' {
    }
  }

  /** With the declaration, the result begins with it and a newline, and what follows
      is the text without it. */
  lemma {:induction false} DeclarationInFront(s: string, escQuot: bool, escApos: bool)
    ensures var r := Indented(s, true, escQuot, escApos);
      StartsWith(r, Declaration + "\n") &&
      r[|Declaration| + 1..] == Indented(s, false, escQuot, escApos)
  {
    var d := Declaration + "\n";
    var body := Indented(s, false, escQuot, escApos);
    assert (d + body)[..|d|] == d;
    assert (d + body)[|d|..] == body;
  }
}
