/** Decoding with UnmarshalXML the tokens MarshalXML hands to the encoder gives the
    element back, for every element the decoder itself can produce: text trimmed and
    non-blank, no namespace on element names, only the node kinds the decoder stores.
    The round trip is over tokens; the encoder's text and the tokenizer that reads it
    back are not part of it. */
module RoundTrip {

  import opened DomTypes
  import opened TextOps
  import opened Decoder
  import opened Encoder

  /** A token window that is the concatenation of two runs is each run in its place. */
  lemma {:induction false} SliceSplit(toks: seq<Token>, pos: nat, a: seq<Token>, b: seq<Token>)
    requires pos + |a| + |b| <= |toks|
    requires toks[pos..pos + |a| + |b|] == a + b
    ensures toks[pos..pos + |a|] == a
    ensures toks[pos + |a|..pos + |a| + |b|] == b
  {
    assert toks[pos..pos + |a|] == (a + b)[..|a|];
    assert toks[pos + |a|..pos + |a| + |b|] == (a + b)[|a|..];
  }

  /** The tokens of canonical children, followed by an end tag, decode to exactly those
      children, consuming them and the end tag and nothing more. */
  lemma {:induction false} DecodeEncodedNodes(ns: seq<Node>, toks: seq<Token>, pos: nat)
    requires AllCanonical(ns)
    requires pos + |ChildEvents(ns)| < |toks|
    requires toks[pos..pos + |ChildEvents(ns)|] == ChildEvents(ns)
    requires toks[pos + |ChildEvents(ns)|].End?
    ensures DecodeContent(toks, pos) == Frame(ns, pos + |ChildEvents(ns)| + 1, None)
    decreases ns, 1
  {
    if ns == [] {
      DecodeStops(toks, pos);
    } else {
      DecodeEncodedCons(ns, toks, pos);
    }
  }

  /** The inductive step of DecodeEncodedNodes: the first child, then the rest. */
  lemma {:induction false} DecodeEncodedCons(ns: seq<Node>, toks: seq<Token>, pos: nat)
    requires ns != [] && AllCanonical(ns)
    requires pos + |ChildEvents(ns)| < |toks|
    requires toks[pos..pos + |ChildEvents(ns)|] == ChildEvents(ns)
    requires toks[pos + |ChildEvents(ns)|].End?
    ensures DecodeContent(toks, pos) == Frame(ns, pos + |ChildEvents(ns)| + 1, None)
    decreases ns, 0
  {
    var j := pos + |NodeEvents(ns[0])|;
    var next := pos + |ChildEvents(ns)| + 1;
    ConsEvents(ns, toks, pos, j);
    NodeAdvances(ns[0], toks, pos, j);
    TailCanonical(ns);
    DecodeEncodedNodes(ns[1..], toks, j);
    Chain(toks, pos, j, ns[0], ns[1..], next);
    assert [ns[0]] + ns[1..] == ns;
  }

  /** The tokens of a non-empty child list are those of its first child, then those of
      the rest. */
  lemma {:induction false} ConsEvents(ns: seq<Node>, toks: seq<Token>, pos: nat, j: nat)
    requires ns != [] && j == pos + |NodeEvents(ns[0])|
    requires pos + |ChildEvents(ns)| <= |toks|
    requires toks[pos..pos + |ChildEvents(ns)|] == ChildEvents(ns)
    ensures j + |ChildEvents(ns[1..])| == pos + |ChildEvents(ns)|
    ensures toks[pos..j] == NodeEvents(ns[0])
    ensures toks[j..j + |ChildEvents(ns[1..])|] == ChildEvents(ns[1..])
  {
    assert ChildEvents(ns) == NodeEvents(ns[0]) + ChildEvents(ns[1..]);
    SliceSplit(toks, pos, NodeEvents(ns[0]), ChildEvents(ns[1..]));
  }

  lemma {:induction false} TailCanonical(ns: seq<Node>)
    requires ns != [] && AllCanonical(ns)
    ensures AllCanonical(ns[1..])
  {
    forall i | 0 <= i < |ns[1..]| ensures CanonicalNode(ns[1..][i]) {
      assert ns[1..][i] == ns[i + 1];
    }
  }

  /** One stored child followed by a frame that succeeds. */
  lemma {:induction false} Chain(toks: seq<Token>, pos: nat, j: nat, n: Node, rest: seq<Node>, next: nat)
    requires pos <= |toks| && j <= |toks|
    requires Advances(toks, pos, j, [n])
    requires DecodeContent(toks, j) == Frame(rest, next, None)
    ensures DecodeContent(toks, pos) == Frame([n] + rest, next, None)
  {
  }

  /** The tokens of one canonical child store exactly that child and hand over to the
      token after them. */
  lemma {:induction false} NodeAdvances(n: Node, toks: seq<Token>, pos: nat, j: nat)
    requires CanonicalNode(n)
    requires j == pos + |NodeEvents(n)| <= |toks|
    requires toks[pos..j] == NodeEvents(n)
    ensures Advances(toks, pos, j, [n])
    decreases n
  {
    match n
    case ElemNode(t) =>
      DecodeEncodedTree(t, toks, pos);
      ElementAdvances(toks, pos);
      assert Opened(t.name, t.attr, t.children) == t;
    case TextNode(s) =>
      assert toks[pos] == CharData(s);
      LeafAdvances(toks, pos);
    case CommentNode(s) =>
      assert toks[pos] == Comment(s);
      LeafAdvances(toks, pos);
    case DirectiveNode(s) =>
      assert toks[pos] == Directive(s);
      LeafAdvances(toks, pos);
  }

  /** Once the start tag of a canonical element's tokens is read, the frame that follows
      stores the element's children and ends right after its end tag. */
  lemma {:induction false} DecodeEncodedTree(t: Tree, toks: seq<Token>, pos: nat)
    requires CanonicalTree(t)
    requires pos + |ElementEvents(t)| <= |toks|
    requires toks[pos..pos + |ElementEvents(t)|] == ElementEvents(t)
    ensures toks[pos] == Start(t.name, t.attr)
    ensures DecodeContent(toks, pos + 1) == Frame(t.children, pos + |ElementEvents(t)|, None)
    decreases t
  {
    var body := ChildEvents(t.children);
    var start := [Start(t.name, t.attr)];
    var close := [End(t.name)];
    assert ElementEvents(t) == start + (body + close);
    SliceSplit(toks, pos, start, body + close);
    SliceSplit(toks, pos + 1, body, close);
    assert toks[pos] == toks[pos..pos + 1][0];
    assert toks[pos + 1 + |body|] == toks[pos + 1 + |body|..pos + 1 + |body| + 1][0];
    assert AllCanonical(t.children);
    DecodeEncodedNodes(t.children, toks, pos + 1);
  }

  /** An encoder that refuses nothing ends up holding exactly the tokens sent to it. */
  lemma {:induction false} SendAllAccepted(w: seq<Token>, evs: seq<Token>,
                                           reject: (seq<Token>, Token) -> Option<Error>)
    requires forall v, t :: reject(v, t).None?
    ensures Send(w, evs, reject) == Sent(w + evs, None)
    decreases |evs|
  {
    if evs != [] {
      assert reject(w, evs[0]).None?;
      SendAllAccepted(w + [evs[0]], evs[1..], reject);
      assert w + [evs[0]] + evs[1..] == w + evs;
    }
  }

  /** Round trip of one element: MarshalXML on an encoder that refuses nothing writes
      ElementEvents(t); decoding those tokens reads the start tag, rebuilds exactly `t`
      from it and the children that follow, and consumes every token. */
  lemma {:induction false} EncodeThenDecode(t: Tree, reject: (seq<Token>, Token) -> Option<Error>)
    requires CanonicalTree(t)
    requires forall v, tok :: reject(v, tok).None?
    ensures Send([], ElementEvents(t), reject) == Sent(ElementEvents(t), None)
    ensures var toks := ElementEvents(t);
      toks[0] == Start(t.name, t.attr) &&
      var f := DecodeContent(toks, 1);
      f == Frame(t.children, |toks|, None) && Opened(t.name, t.attr, f.children) == t
  {
    var toks := ElementEvents(t);
    SendAllAccepted([], toks, reject);
    assert [] + toks == toks;
    assert toks[0..|toks|] == toks;
    DecodeEncodedTree(t, toks, 0);
  }

  /** Decoding is stable: whatever children a frame decodes, also when it failed
      part-way, encoding them again and decoding that gives the same children back. */
  lemma {:induction false} DecodeEncodeStable(toks: seq<Token>, pos: nat, close: Name)
    requires pos <= |toks|
    ensures var ns := DecodeContent(toks, pos).children;
      var again := ChildEvents(ns) + [End(close)];
      DecodeContent(again, 0) == Frame(ns, |again|, None)
  {
    var ns := DecodeContent(toks, pos).children;
    var again := ChildEvents(ns) + [End(close)];
    DecodedCanonical(toks, pos);
    assert again[0..|ChildEvents(ns)|] == ChildEvents(ns);
    DecodeEncodedNodes(ns, again, 0);
  }
}
