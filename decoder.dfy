/** The token loop of Element.UnmarshalXML (dom.go:59-90) as a function over a token
    stream: recursive descent with one frame per element, the tokenizer modelled as a
    sequence of tokens read from a position onwards. */
module Decoder {

  import opened DomTypes
  import opened TextOps

  /** What one decode frame produced: the children it appended, in order; the position
      just after the last token it consumed; and the error that stopped it, if any. */
  datatype Frame = Frame(children: seq<Node>, next: nat, err: Option<Error>)

  function Prepend(n: Node, f: Frame): Frame {
    f.(children := [n] + f.children)
  }

  /** The element a nested start tag decodes to: a fresh Element whose local name and
      attribute list are copied from the start tag. Its namespace stays empty. */
  function Opened(start: Name, attrs: seq<Attr>, children: seq<Node>): Tree {
    Tree(Name("", start.local), attrs, children)
  }

  /** The children decoded from position `pos` up to and including the end tag that
      closes the current element. Input that ends inside the element reports
      UnexpectedEOF; an error token or a failed nested element stops the frame at once. */
  function DecodeContent(toks: seq<Token>, pos: nat): (f: Frame)
    requires pos <= |toks|
    ensures pos <= f.next <= |toks|
    ensures f.err.None? ==> pos < f.next && toks[f.next - 1].End?
    decreases |toks| - pos
  {
    if pos == |toks| then Frame([], pos, Some(UnexpectedEOF))
    else
      match toks[pos]
      case CharData(s) =>
        var rest := DecodeContent(toks, pos + 1);
        if Trim(s) != [] then Prepend(TextNode(Trim(s)), rest) else rest
      case Comment(s) => Prepend(CommentNode(s), DecodeContent(toks, pos + 1))
      case Directive(s) => Prepend(DirectiveNode(s), DecodeContent(toks, pos + 1))
      case Start(name, attrs) =>
        var inner := DecodeContent(toks, pos + 1);
        if inner.err.Some? then Frame([], inner.next, inner.err)
        else Prepend(ElemNode(Opened(name, attrs, inner.children)), DecodeContent(toks, inner.next))
      case End(_) => Frame([], pos + 1, None)
      case ProcInst(_, _) => DecodeContent(toks, pos + 1)
      case Err(e) => Frame([], pos + 1, Some(e))
  }

  // ---------------------------------------------------------------------------------
  // What the decoder stores

  /** A text node as the decoder stores it: non-empty, with no white space at either end. */
  predicate TrimmedText(s: string) {
    s != [] && Trim(s) == s
  }

  /** A node the decoder can produce: text is trimmed and non-blank, every element has
      an empty namespace, and no node is of a kind the decoder never stores. */
  predicate CanonicalNode(n: Node) {
    match n
    case ElemNode(t) => CanonicalTree(t)
    case TextNode(s) => TrimmedText(s)
    case CommentNode(_) => true
    case DirectiveNode(_) => true
    case OtherNode(_) => false
  }

  predicate CanonicalTree(t: Tree) {
    t.name.space == "" && forall i :: 0 <= i < |t.children| ==> CanonicalNode(t.children[i])
  }

  predicate AllCanonical(ns: seq<Node>) {
    forall i :: 0 <= i < |ns| ==> CanonicalNode(ns[i])
  }

  lemma {:induction false} PrependCanonical(n: Node, f: Frame)
    requires CanonicalNode(n) && AllCanonical(f.children)
    ensures AllCanonical(Prepend(n, f).children)
  {
    var ns := Prepend(n, f).children;
    forall i | 0 <= i < |ns| ensures CanonicalNode(ns[i]) {
      if i > 0 { assert ns[i] == f.children[i - 1]; }
    }
  }

  /** Every node the decoder stores, at any depth, is canonical: in particular no stored
      text is empty or begins or ends with white space, whether the frame succeeded or
      failed part-way. */
  lemma {:induction false} DecodedCanonical(toks: seq<Token>, pos: nat)
    requires pos <= |toks|
    ensures AllCanonical(DecodeContent(toks, pos).children)
    decreases |toks| - pos
  {
    if pos < |toks| {
      match toks[pos]
      case CharData(s) =>
        DecodedCanonical(toks, pos + 1);
        if Trim(s) != [] {
          TrimIdempotent(s);
          PrependCanonical(TextNode(Trim(s)), DecodeContent(toks, pos + 1));
        }
      case Comment(s) =>
        DecodedCanonical(toks, pos + 1);
        PrependCanonical(CommentNode(s), DecodeContent(toks, pos + 1));
      case Directive(s) =>
        DecodedCanonical(toks, pos + 1);
        PrependCanonical(DirectiveNode(s), DecodeContent(toks, pos + 1));
      case Start(name, attrs) =>
        var inner := DecodeContent(toks, pos + 1);
        if inner.err.None? {
          DecodedCanonical(toks, pos + 1);
          DecodedCanonical(toks, inner.next);
          PrependCanonical(ElemNode(Opened(name, attrs, inner.children)), DecodeContent(toks, inner.next));
        }
      case End(_) =>
      case ProcInst(_, _) =>
        DecodedCanonical(toks, pos + 1);
      case Err(_) =>
    }
  }

  // ---------------------------------------------------------------------------------
  // A run of tokens with no nested element: an independent, append-style reference

  /** The node a single leaf token adds to the element: trimmed non-blank text,
      a comment or a directive verbatim, and nothing for anything else. It adds at most
      one node, and one the decoder can produce. */
  function LeafOf(t: Token): (r: seq<Node>)
    ensures |r| <= 1 && forall i :: 0 <= i < |r| ==> CanonicalNode(r[i])
  {
    match t
    case CharData(s) =>
      TrimIdempotent(s);
      if Trim(s) == [] then [] else [TextNode(Trim(s))]
    case Comment(s) => [CommentNode(s)]
    case Directive(s) => [DirectiveNode(s)]
    case _ => []
  }

  /** The nodes a run of leaf tokens adds, in token order. */
  function Leaves(ts: seq<Token>): seq<Node> {
    if ts == [] then [] else LeafOf(ts[0]) + Leaves(ts[1..])
  }

  /** A token the decoder stores or skips without opening, closing or failing. */
  predicate IsLeaf(t: Token) {
    t.CharData? || t.Comment? || t.Directive? || t.ProcInst?
  }

  /** One leaf token adds its nodes in front of what the rest of the frame stores. */
  lemma {:induction false} DecodeLeafStep(toks: seq<Token>, pos: nat)
    requires pos < |toks| && IsLeaf(toks[pos])
    ensures var rest := DecodeContent(toks, pos + 1);
      DecodeContent(toks, pos) == rest.(children := LeafOf(toks[pos]) + rest.children)
  {
  }

  // ---------------------------------------------------------------------------------
  // The frame as a loop: what is left to decode after the children gathered so far

  /** Decoding from `pos` gathers `added` and then continues exactly as decoding from `i`. */
  predicate Resumes(toks: seq<Token>, pos: nat, i: nat, added: seq<Node>)
    requires pos <= |toks| && i <= |toks|
  {
    var g := DecodeContent(toks, i);
    DecodeContent(toks, pos) == g.(children := added + g.children)
  }

  lemma {:induction false} ResumesAtStart(toks: seq<Token>, pos: nat)
    requires pos <= |toks|
    ensures Resumes(toks, pos, pos, [])
  {
    assert [] + DecodeContent(toks, pos).children == DecodeContent(toks, pos).children;
  }

  /** Decoding from `i` stores `stored` and then continues exactly as decoding from `j`. */
  predicate Advances(toks: seq<Token>, i: nat, j: nat, stored: seq<Node>)
    requires i <= |toks| && j <= |toks|
  {
    var h := DecodeContent(toks, j);
    DecodeContent(toks, i) == h.(children := stored + h.children)
  }

  /** Folding one more step of a frame into the children gathered so far. */
  lemma {:induction false} Absorb(toks: seq<Token>, pos: nat, i: nat, j: nat, added: seq<Node>, stored: seq<Node>)
    requires pos <= |toks| && i <= |toks| && j <= |toks|
    requires Resumes(toks, pos, i, added) && Advances(toks, i, j, stored)
    ensures Resumes(toks, pos, j, added + stored)
  {
    var h := DecodeContent(toks, j);
    assert added + (stored + h.children) == (added + stored) + h.children;
  }

  /** A leaf token stores its nodes and decoding goes on with the next token. */
  lemma {:induction false} LeafAdvances(toks: seq<Token>, i: nat)
    requires i < |toks| && IsLeaf(toks[i])
    ensures Advances(toks, i, i + 1, LeafOf(toks[i]))
  {
    DecodeLeafStep(toks, i);
  }

  /** A nested element that decoded without error is stored, and decoding goes on
      after its end tag. */
  lemma {:induction false} ElementAdvances(toks: seq<Token>, i: nat)
    requires i < |toks| && toks[i].Start?
    requires DecodeContent(toks, i + 1).err.None?
    ensures var inner := DecodeContent(toks, i + 1);
      Advances(toks, i, inner.next, [ElemNode(Opened(toks[i].name, toks[i].attrs, inner.children))])
  {
  }

  /** A nested element whose decoding failed ends the frame with the children gathered
      before it and the nested error. */
  lemma {:induction false} ElementFails(toks: seq<Token>, pos: nat, i: nat, added: seq<Node>)
    requires pos <= i < |toks| && toks[i].Start?
    requires Resumes(toks, pos, i, added)
    requires DecodeContent(toks, i + 1).err.Some?
    ensures var inner := DecodeContent(toks, i + 1);
      DecodeContent(toks, pos) == Frame(added, inner.next, inner.err)
  {
    assert added + [] == added;
  }

  /** A step that ends the frame on its own ends it with the children gathered so far. */
  lemma {:induction false} FrameStops(toks: seq<Token>, pos: nat, i: nat, added: seq<Node>,
                                      next: nat, err: Option<Error>)
    requires pos <= i <= |toks|
    requires Resumes(toks, pos, i, added)
    requires DecodeContent(toks, i) == Frame([], next, err)
    ensures DecodeContent(toks, pos) == Frame(added, next, err)
  {
    assert added + [] == added;
  }

  /** The end of the stream, an end tag or an error token ends the frame with the
      children gathered so far. */
  lemma {:induction false} FrameEnds(toks: seq<Token>, pos: nat, i: nat, added: seq<Node>)
    requires pos <= i <= |toks|
    requires i == |toks| || toks[i].End? || toks[i].Err?
    requires Resumes(toks, pos, i, added)
    ensures DecodeContent(toks, pos) ==
      if i == |toks| then Frame(added, i, Some(UnexpectedEOF))
      else if toks[i].End? then Frame(added, i + 1, None)
      else Frame(added, i + 1, Some(toks[i].error))
  {
    DecodeStops(toks, i);
    assert added + [] == added;
  }

  /** At the end of the stream, an end tag or an error token the frame stops at once. */
  lemma {:induction false} DecodeStops(toks: seq<Token>, k: nat)
    requires k == |toks| || (k < |toks| && (toks[k].End? || toks[k].Err?))
    ensures DecodeContent(toks, k).children == []
    ensures DecodeContent(toks, k).err ==
      if k == |toks| then Some(UnexpectedEOF) else if toks[k].End? then None else Some(toks[k].error)
    ensures DecodeContent(toks, k).next == if k == |toks| then k else k + 1
  {
  }

  /** A frame made of leaf tokens stores exactly their nodes, in token order, and
      is ended by what follows the run: the end tag (success), an error token (that
      error, children kept so far), or the end of the input (UnexpectedEOF). */
  lemma {:induction false} DecodeLeafRun(toks: seq<Token>, pos: nat, k: nat)
    requires pos <= k <= |toks|
    requires forall i :: pos <= i < k ==> IsLeaf(toks[i])
    requires k == |toks| || toks[k].End? || toks[k].Err?
    ensures DecodeContent(toks, pos).children == Leaves(toks[pos..k])
    ensures DecodeContent(toks, pos).err ==
      if k == |toks| then Some(UnexpectedEOF) else if toks[k].End? then None else Some(toks[k].error)
    ensures DecodeContent(toks, pos).next == if k == |toks| then k else k + 1
    decreases k - pos
  {
    if pos == k {
      assert toks[pos..k] == [];
      DecodeStops(toks, k);
    } else {
      var run := toks[pos..k];
      assert run[0] == toks[pos] && run[1..] == toks[pos + 1..k];
      DecodeLeafRun(toks, pos + 1, k);
      LeafAdvances(toks, pos);
    }
  }

  // ---------------------------------------------------------------------------------
  // Where the decoder stops

  /** The error of frame `f` comes from the stream: either the input ended (UnexpectedEOF,
      with everything consumed) or the last token consumed was that error. */
  predicate ErrorFromToken(toks: seq<Token>, f: Frame) {
    f.err.Some? ==> (f.next == |toks| && f.err == Some(UnexpectedEOF)) ||
                    (0 < f.next <= |toks| && toks[f.next - 1] == Err(f.err.value))
  }

  /** Every error a frame reports comes from the stream. */
  lemma {:induction false} ErrorFromStream(toks: seq<Token>, pos: nat)
    requires pos <= |toks|
    ensures ErrorFromToken(toks, DecodeContent(toks, pos))
    decreases |toks| - pos
  {
    if pos == |toks| {
    } else if IsLeaf(toks[pos]) {
      LeafAdvances(toks, pos);
      ErrorFromStream(toks, pos + 1);
    } else if toks[pos].Start? {
      var inner := DecodeContent(toks, pos + 1);
      ErrorFromStream(toks, pos + 1);
      if inner.err.None? {
        ElementAdvances(toks, pos);
        ErrorFromStream(toks, inner.next);
      } else {
        ResumesAtStart(toks, pos);
        ElementFails(toks, pos, pos, []);
      }
    } else {
      ResumesAtStart(toks, pos);
      FrameEnds(toks, pos, pos, []);
    }
  }

  /** A frame that ended on an end tag or an error token (as opposed to running out of
      input) read nothing after it: the same frame is decoded whatever tokens follow.
      So after the first error no later sibling is consumed, and an end tag ends the
      current frame. */
  lemma {:induction false} DecodeIgnoresLaterTokens(toks: seq<Token>, more: seq<Token>, pos: nat)
    requires pos <= |toks|
    requires var f := DecodeContent(toks, pos);
      pos < f.next && (f.err.None? || toks[f.next - 1] == Err(f.err.value))
    ensures DecodeContent(toks + more, pos) == DecodeContent(toks, pos)
    decreases |toks| - pos, 1
  {
    assert pos < |toks|;
    assert (toks + more)[pos] == toks[pos];
    if toks[pos].Start? {
      StartIgnoresLaterTokens(toks, more, pos);
    } else if !toks[pos].End? && !toks[pos].Err? {
      // a leaf token: the frame goes on at pos + 1 with the same end and error
      var f, rest := DecodeContent(toks, pos), DecodeContent(toks, pos + 1);
      assert f.next == rest.next && f.err == rest.err;
      DecodeIgnoresLaterTokens(toks, more, pos + 1);
    }
  }

  /** The nested-element case of DecodeIgnoresLaterTokens: the inner frame is the same,
      and so is the rest of the frame when the inner one ended cleanly. */
  lemma {:induction false} StartIgnoresLaterTokens(toks: seq<Token>, more: seq<Token>, pos: nat)
    requires pos < |toks| && toks[pos].Start?
    requires var f := DecodeContent(toks, pos);
      pos < f.next && (f.err.None? || toks[f.next - 1] == Err(f.err.value))
    ensures DecodeContent(toks + more, pos) == DecodeContent(toks, pos)
    decreases |toks| - pos, 0
  {
    assert (toks + more)[pos] == toks[pos];
    var f, inner := DecodeContent(toks, pos), DecodeContent(toks, pos + 1);
    if inner.err.Some? {
      assert f.next == inner.next && f.err == inner.err;
      DecodeIgnoresLaterTokens(toks, more, pos + 1);
    } else {
      var rest := DecodeContent(toks, inner.next);
      assert f.next == rest.next && f.err == rest.err;
      DecodeIgnoresLaterTokens(toks, more, pos + 1);
      DecodeIgnoresLaterTokens(toks, more, inner.next);
    }
  }
}
