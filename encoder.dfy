/** Element.MarshalXML (dom.go:32-56): the walk that hands an element's tokens to the
    structural encoder, depth first and in child order, stopping at the encoder's first
    error. The encoder is an object that accepts or refuses each token; which tokens it
    refuses is a parameter, since the package leaves that to encoding/xml. */
module Encoder {

  import opened DomTypes

  /** The tokens MarshalXML hands to the encoder for `t`: a start token with its name
      and attributes, the tokens of its children in order, and the matching end token. */
  function ElementEvents(t: Tree): (r: seq<Token>)
    ensures |r| >= 2 && r[0] == Start(t.name, t.attr) && r[|r| - 1] == End(t.name)
    decreases t
  {
    [Start(t.name, t.attr)] + ChildEvents(t.children) + [End(t.name)]
  }

  function ChildEvents(ns: seq<Node>): seq<Token>
    decreases ns
  {
    if ns == [] then [] else NodeEvents(ns[0]) + ChildEvents(ns[1..])
  }

  /** One child: an element recursively, text, a comment or a directive as one token,
      and nothing for a child of any other type. */
  function NodeEvents(n: Node): seq<Token>
    decreases n
  {
    match n
    case ElemNode(t) => ElementEvents(t)
    case TextNode(s) => [CharData(s)]
    case CommentNode(s) => [Comment(s)]
    case DirectiveNode(s) => [Directive(s)]
    case OtherNode(_) => []
  }

  lemma {:induction false} ChildEventsAppend(ns: seq<Node>, n: Node)
    ensures ChildEvents(ns + [n]) == ChildEvents(ns) + NodeEvents(n)
    decreases |ns|
  {
    if ns == [] {
      assert [] + [n] == [n];
      assert [n][1..] == [];
    } else {
      assert (ns + [n])[0] == ns[0];
      assert (ns + [n])[1..] == ns[1..] + [n];
      ChildEventsAppend(ns[1..], n);
    }
  }

  // ---------------------------------------------------------------------------------
  // The structural encoder

  /** What the encoder holds after a run of EncodeToken calls: the tokens it accepted,
      and the error of the call that stopped the run, if one did. */
  datatype Sent = Sent(written: seq<Token>, err: Option<Error>)

  /** Hands `evs` to an encoder that has already accepted `w`, one token at a time,
      stopping at the first token `reject` refuses. */
  function Send(w: seq<Token>, evs: seq<Token>, reject: (seq<Token>, Token) -> Option<Error>): Sent
    decreases |evs|
  {
    if evs == [] then Sent(w, None)
    else match reject(w, evs[0])
      case Some(e) => Sent(w, Some(e))
      case None => Send(w + [evs[0]], evs[1..], reject)
  }

  /** `s` is what sending `evs` after `w` leaves when exactly the prefix `evs[..k]` was
      written: every one of its tokens was accepted, and either all tokens went through
      or the next one, `evs[k]`, was refused with the reported error. */
  predicate StoppedAt(w: seq<Token>, evs: seq<Token>, reject: (seq<Token>, Token) -> Option<Error>,
                      s: Sent, k: nat)
  {
    k <= |evs| && s.written == w + evs[..k] &&
    (forall j :: 0 <= j < k ==> reject(w + evs[..j], evs[j]).None?) &&
    (s.err.None? <==> k == |evs|) &&
    (s.err.Some? ==> k < |evs| && s.err == reject(w + evs[..k], evs[k]))
  }

  /** Sending stops at the first refused token. */
  lemma {:induction false} SendStopsAtFirstError(w: seq<Token>, evs: seq<Token>, reject: (seq<Token>, Token) -> Option<Error>)
    ensures exists k :: StoppedAt(w, evs, reject, Send(w, evs, reject), k)
    decreases |evs|
  {
    var s := Send(w, evs, reject);
    if evs == [] {
      assert StoppedAt(w, evs, reject, s, 0);
    } else if reject(w, evs[0]).Some? {
      assert w + evs[..0] == w;
      assert StoppedAt(w, evs, reject, s, 0);
    } else {
      SendStopsAtFirstError(w + [evs[0]], evs[1..], reject);
      var k :| StoppedAt(w + [evs[0]], evs[1..], reject, s, k);
      StoppedShift(w, evs, reject, s, k);
    }
  }

  /** Accepting the first token shifts the stopping point by one. */
  lemma {:induction false} StoppedShift(w: seq<Token>, evs: seq<Token>, reject: (seq<Token>, Token) -> Option<Error>,
                     s: Sent, k: nat)
    requires evs != [] && reject(w, evs[0]).None?
    requires StoppedAt(w + [evs[0]], evs[1..], reject, s, k)
    ensures StoppedAt(w, evs, reject, s, k + 1)
  {
    forall j | 0 <= j < k + 1 ensures reject(w + evs[..j], evs[j]).None? {
      if j == 0 {
        assert w + evs[..0] == w;
      } else {
        PrefixShift(w, evs, j - 1);
        assert evs[1..][j - 1] == evs[j];
      }
    }
    PrefixShift(w, evs, k);
    if s.err.Some? {
      assert evs[1..][k] == evs[k + 1];
    }
  }

  lemma {:induction false} PrefixShift(w: seq<Token>, evs: seq<Token>, j: nat)
    requires j < |evs|
    ensures (w + [evs[0]]) + evs[1..][..j] == w + evs[..j + 1]
  {
    assert evs[..j + 1] == [evs[0]] + evs[1..][..j];
  }

  /** Sending two runs of tokens one after the other is sending their concatenation:
      the second run is sent only if the first went through. */
  lemma {:induction false} SendAppend(w: seq<Token>, a: seq<Token>, b: seq<Token>, reject: (seq<Token>, Token) -> Option<Error>)
    ensures Send(w, a + b, reject) ==
      var s := Send(w, a, reject); if s.err.Some? then s else Send(s.written, b, reject)
    decreases |a|
  {
    if a == [] {
      assert a + b == b;
    } else {
      assert (a + b)[0] == a[0];
      assert (a + b)[1..] == a[1..] + b;
      if reject(w, a[0]).None? {
        SendAppend(w + [a[0]], a[1..], b, reject);
      }
    }
  }

  /** The xml.Encoder MarshalXML writes to: the tokens it has accepted so far, and the
      rule by which it refuses a token given what it has already written. */
  class TokenEncoder {
    var written: seq<Token>
    const reject: (seq<Token>, Token) -> Option<Error>

    constructor (reject: (seq<Token>, Token) -> Option<Error>)
      ensures written == [] && this.reject == reject
    {
      written := [];
      this.reject := reject;
    }

    /** xml.Encoder.EncodeToken: a refused token is reported and not written. */
    method EncodeToken(t: Token) returns (err: Option<Error>)
      modifies this
      ensures err == reject(old(written), t)
      ensures written == if err.None? then old(written) + [t] else old(written)
    {
      err := reject(written, t);
      if err.None? {
        written := written + [t];
      }
    }
  }

  /** dom.go:32-56. Writes the start token, then each child in order, then the end
      token, and returns at the first error the encoder reports. What the encoder ends
      up holding is exactly the element's tokens sent one by one until the first refusal. */
  method MarshalXML(elem: Tree, e: TokenEncoder) returns (err: Option<Error>)
    modifies e
    decreases elem, 1
    ensures Sent(e.written, err) == Send(old(e.written), ElementEvents(elem), e.reject)
  {
    ghost var w0 := e.written;
    err := e.EncodeToken(Start(elem.name, elem.attr));
    SendOne(w0, Start(elem.name, elem.attr), e.reject);
    assert Opening(elem, 0) == [Start(elem.name, elem.attr)];
    if err.Some? {
      StopsInOpening(w0, elem, 0, e.reject);
      return;
    }
    var i := 0;
    while i < |elem.children|
      invariant 0 <= i <= |elem.children|
      invariant Send(w0, Opening(elem, i), e.reject) == Sent(e.written, None)
    {
      err := MarshalChild(elem.children[i], e);
      OpeningStep(w0, elem, i, e.reject);
      if err.Some? {
        StopsInOpening(w0, elem, i + 1, e.reject);
        return;
      }
      i := i + 1;
    }
    err := e.EncodeToken(End(elem.name));
    SendOne(e.written, End(elem.name), e.reject);
    Closing(w0, elem, e.reject);
  }

  /** The tokens of `elem` up to the end of its first `i` children. */
  function Opening(elem: Tree, i: nat): seq<Token>
    requires i <= |elem.children|
  {
    [Start(elem.name, elem.attr)] + ChildEvents(elem.children[..i])
  }

  /** Sending one token. */
  lemma {:induction false} SendOne(w: seq<Token>, t: Token, reject: (seq<Token>, Token) -> Option<Error>)
    ensures Send(w, [t], reject) ==
      if reject(w, t).Some? then Sent(w, reject(w, t)) else Sent(w + [t], None)
  {
    assert [t][1..] == [];
  }

  /** The element's tokens are its opening up to child `i`, then the remaining
      children's tokens and the end token. */
  lemma {:induction false} OpeningSplit(elem: Tree, i: nat)
    requires i <= |elem.children|
    ensures ElementEvents(elem) ==
      Opening(elem, i) + (ChildEvents(elem.children[i..]) + [End(elem.name)])
  {
    ChildEventsSplit(elem.children, i);
  }

  /** A refusal within the opening ends the whole element's run there. */
  lemma {:induction false} StopsInOpening(w0: seq<Token>, elem: Tree, i: nat, reject: (seq<Token>, Token) -> Option<Error>)
    requires i <= |elem.children|
    requires Send(w0, Opening(elem, i), reject).err.Some?
    ensures Send(w0, ElementEvents(elem), reject) == Send(w0, Opening(elem, i), reject)
  {
    OpeningSplit(elem, i);
    SendAppend(w0, Opening(elem, i), ChildEvents(elem.children[i..]) + [End(elem.name)], reject);
  }

  /** Sending the opening up to child i+1 is sending that up to child i and then the
      tokens of child i. */
  lemma {:induction false} OpeningStep(w0: seq<Token>, elem: Tree, i: nat, reject: (seq<Token>, Token) -> Option<Error>)
    requires i < |elem.children|
    ensures var s := Send(w0, Opening(elem, i), reject);
      Send(w0, Opening(elem, i + 1), reject) ==
        if s.err.Some? then s else Send(s.written, NodeEvents(elem.children[i]), reject)
  {
    ChildrenStep(w0, Start(elem.name, elem.attr), elem.children, i, reject);
  }

  /** Once every child is sent, the end token completes the element's run. */
  lemma {:induction false} Closing(w0: seq<Token>, elem: Tree, reject: (seq<Token>, Token) -> Option<Error>)
    ensures var s := Send(w0, Opening(elem, |elem.children|), reject);
      Send(w0, ElementEvents(elem), reject) ==
        if s.err.Some? then s else Send(s.written, [End(elem.name)], reject)
  {
    OpeningSplit(elem, |elem.children|);
    assert elem.children[|elem.children|..] == [];
    assert ChildEvents(elem.children[|elem.children|..]) + [End(elem.name)] == [End(elem.name)];
    SendAppend(w0, Opening(elem, |elem.children|), [End(elem.name)], reject);
  }

  /** One child, as the type switch in dom.go:39-48 handles it. */
  method MarshalChild(child: Node, e: TokenEncoder) returns (err: Option<Error>)
    modifies e
    decreases child, 0
    ensures Sent(e.written, err) == Send(old(e.written), NodeEvents(child), e.reject)
  {
    match child {
      case ElemNode(c) =>
        err := MarshalXML(c, e);
      case TextNode(s) =>
        err := e.EncodeToken(CharData(s));
        assert [CharData(s)][1..] == [];
      case CommentNode(s) =>
        err := e.EncodeToken(Comment(s));
        assert [Comment(s)][1..] == [];
      case DirectiveNode(s) =>
        err := e.EncodeToken(Directive(s));
        assert [Directive(s)][1..] == [];
      case OtherNode(_) =>
        err := None;
    }
  }

  /** Sending the tokens of the first i+1 children is sending those of the first i and
      then those of child i. */
  lemma {:induction false} ChildrenStep(w0: seq<Token>, start: Token, ns: seq<Node>, i: nat,
                     reject: (seq<Token>, Token) -> Option<Error>)
    requires i < |ns|
    ensures var s := Send(w0, [start] + ChildEvents(ns[..i]), reject);
      Send(w0, [start] + ChildEvents(ns[..i + 1]), reject) ==
        if s.err.Some? then s else Send(s.written, NodeEvents(ns[i]), reject)
  {
    assert ns[..i + 1] == ns[..i] + [ns[i]];
    ChildEventsAppend(ns[..i], ns[i]);
    assert [start] + ChildEvents(ns[..i + 1]) == ([start] + ChildEvents(ns[..i])) + NodeEvents(ns[i]);
    SendAppend(w0, [start] + ChildEvents(ns[..i]), NodeEvents(ns[i]), reject);
  }

  /** The tokens of a child list split at any index into those of the two parts. */
  lemma {:induction false} ChildEventsSplit(ns: seq<Node>, i: nat)
    requires i <= |ns|
    ensures ChildEvents(ns) == ChildEvents(ns[..i]) + ChildEvents(ns[i..])
    decreases i
  {
    if i == 0 {
      assert ns[..0] == [] && ns[0..] == ns;
    } else {
      ChildEventsSplit(ns, i - 1);
      assert ns[..i] == ns[..i - 1] + [ns[i - 1]];
      ChildEventsAppend(ns[..i - 1], ns[i - 1]);
      assert ns[i - 1..] == [ns[i - 1]] + ns[i..];
      assert ChildEvents(ns[i - 1..]) == NodeEvents(ns[i - 1]) + ChildEvents(ns[i..]) by {
        assert ns[i - 1..][0] == ns[i - 1] && ns[i - 1..][1..] == ns[i..];
      }
    }
  }
}
