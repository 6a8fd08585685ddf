/** The Element type of dom.go and the operations on it: decoding an element from the
    token stream, the attribute and text helpers, and the child visitors. Go methods
    that accept a nil receiver are module-level members taking an `Element?`. */
module Dom {

  import opened DomTypes
  import opened TextOps
  import opened Decoder

  /** dom.Element (dom.go:17-21). A child element is held as the value of its subtree. */
  class Element {
    var name: Name
    var attr: seq<Attr>
    var children: seq<Node>

    /** &Element{}: no name, no attributes, no children. */
    constructor ()
      ensures name == Name("", "") && attr == [] && children == []
    {
      name := Name("", "");
      attr := [];
      children := [];
    }

    /** The element's current value. */
    function Value(): Tree
      reads this
    {
      Tree(name, attr, children)
    }

    /** UnmarshalXML (dom.go:59-90), called once the tokenizer has returned `start`;
        `toks[pos..]` is what it returns next. The element takes the start tag's local
        name (its namespace is left as it was) and attributes, and appends what the
        token loop decodes: exactly the children DecodeContent stores, ending where
        and with the error DecodeContent ends. */
    method UnmarshalXML(toks: seq<Token>, start: Token, pos: nat) returns (next: nat, err: Option<Error>)
      requires start.Start? && pos <= |toks|
      modifies this
      decreases |toks| - pos, 1
      ensures name == Name(old(name).space, start.name.local) && attr == start.attrs
      ensures var f := DecodeContent(toks, pos);
        children == old(children) + f.children
      ensures var f := DecodeContent(toks, pos);
        next == f.next && err == f.err
    {
      name := name.(local := start.name.local);
      attr := start.attrs;
      ghost var before := children;
      ghost var added: seq<Node> := [];
      ResumesAtStart(toks, pos);
      var i := pos;
      while true
        invariant pos <= i <= |toks|
        invariant name == Name(old(name).space, start.name.local) && attr == start.attrs
        invariant children == before + added
        invariant Resumes(toks, pos, i, added)
        decreases |toks| - i
      {
        if i == |toks| {
          FrameEnds(toks, pos, i, added);
          next, err := i, Some(UnexpectedEOF);
          return;
        }
        var stored, j, done, tnext, terr := SwitchToken(toks, i);
        if done {
          FrameStops(toks, pos, i, added, tnext, terr);
          next, err := tnext, terr;
          return;
        }
        Absorb(toks, pos, i, j, added, stored);
        assert (before + added) + stored == before + (added + stored);
        children := children + stored;
        added := added + stored;
        i := j;
      }
    }
  }

  /** One pass of the type switch in dom.go:68-88 on the token at `i`: either the nodes
      it appends and the position the loop goes on from, or (`done`) the position and
      error with which the loop breaks. Text is trimmed and kept only when non-blank;
      comments and directives are kept; a start tag decodes a whole child element; an
      end tag or an error ends the loop; anything else is skipped. */
  method SwitchToken(toks: seq<Token>, i: nat)
    returns (stored: seq<Node>, j: nat, done: bool, next: nat, err: Option<Error>)
    requires i < |toks|
    decreases |toks| - i, 0
    ensures !done ==> i < j <= |toks| && Advances(toks, i, j, stored)
    ensures done ==> DecodeContent(toks, i) == Frame([], next, err)
  {
    stored, j, done, next, err := [], i + 1, false, 0, None;
    match toks[i] {
      case CharData(s) =>
        var text := Trim(s);
        if |text| > 0 {
          stored := [TextNode(text)];
        }
        LeafAdvances(toks, i);
      case Comment(s) =>
        stored := [CommentNode(s)];
        LeafAdvances(toks, i);
      case Directive(s) =>
        stored := [DirectiveNode(s)];
        LeafAdvances(toks, i);
      case Start(_, _) =>
        var node, cnext, cerr := DecodeElement(toks, toks[i], i + 1);
        if cerr.Some? {
          done, next, err := true, cnext, cerr;
        } else {
          ElementAdvances(toks, i);
          stored, j := [node], cnext;
        }
      case End(_) =>
        done, next := true, i + 1;
      case ProcInst(_, _) =>
        LeafAdvances(toks, i);
      case Err(e) =>
        done, next, err := true, i + 1, Some(e);
    }
  }

  /** d.DecodeElement(child, &token) on a fresh `&Element{}` (dom.go:76-77): the child
      element decoded from the tokens after its start tag, with the position and error
      its frame ends with. */
  method DecodeElement(toks: seq<Token>, start: Token, pos: nat) returns (node: Node, next: nat, err: Option<Error>)
    requires start.Start? && pos <= |toks|
    decreases |toks| - pos, 2
    ensures var f := DecodeContent(toks, pos);
      node == ElemNode(Opened(start.name, start.attrs, f.children)) && next == f.next && err == f.err
  {
    var child := new Element();
    next, err := child.UnmarshalXML(toks, start, pos);
    node := ElemNode(child.Value());
  }

  // ---------------------------------------------------------------------------------
  // Attributes, text and emptiness

  /** IsEmpty (dom.go:103-105): a nil element, or one with neither attributes nor
      children. An empty element has no text. */
  function IsEmpty(elem: Element?): (r: bool)
    reads elem
    ensures r <==> elem == null || (elem.attr == [] && elem.children == [])
    ensures r ==> Text(elem) == ("", false)
  {
    elem == null || (|elem.attr| == 0 && |elem.children| == 0)
  }

  /** FindAttr (dom.go:113-127): the index of the first attribute whose local name is
      `name`, by linear search; none for a nil element or when no attribute has it. */
  method FindAttr(elem: Element?, name: string) returns (r: Option<nat>)
    ensures r.Some? ==> (elem != null && r.value < |elem.attr| &&
                         elem.attr[r.value].name.local == name &&
                         forall j :: 0 <= j < r.value ==> elem.attr[j].name.local != name)
    ensures r.None? ==> elem == null || forall j :: 0 <= j < |elem.attr| ==> elem.attr[j].name.local != name
  {
    if elem == null {
      return None;
    }
    var n := |elem.attr|;
    var i := 0;
    while i < n
      invariant 0 <= i <= n
      invariant forall j :: 0 <= j < i ==> elem.attr[j].name.local != name
    {
      if elem.attr[i].name.local == name {
        return Some(i);
      }
      i := i + 1;
    }
    return None;
  }

  /** HasAttr (dom.go:108-110): whether FindAttr finds an attribute called `name`. */
  method HasAttr(elem: Element?, name: string) returns (b: bool)
    ensures b <==> elem != null && exists j :: 0 <= j < |elem.attr| && elem.attr[j].name.local == name
  {
    var r := FindAttr(elem, name);
    b := r != None;
  }

  /** Text (dom.go:131-138): reports true exactly when the element's only child is
      text, and then returns that text; otherwise ("", false), also for a nil element. */
  function Text(elem: Element?): (r: (string, bool))
    reads elem
    ensures r.1 <==> elem != null && |elem.children| == 1 && elem.children[0].TextNode?
    ensures r.1 ==> elem.children == [TextNode(r.0)]
    ensures !r.1 ==> r.0 == ""
  {
    if elem != null && |elem.children| == 1 && elem.children[0].TextNode? then (elem.children[0].text, true)
    else ("", false)
  }

  /** The children SetText leaves: none for the empty string, else one text node. */
  function TextChildren(s: string): seq<Node> {
    if |s| == 0 then [] else [TextNode(s)]
  }

  /** SetText (dom.go:141-151): replaces all children by the text `s` (by nothing when
      `s` is empty) and changes nothing else; a nil element is left alone. Text then
      reads back exactly `s`, reporting true iff `s` is non-empty. */
  method SetText(elem: Element?, s: string)
    modifies elem
    ensures elem != null ==> (elem.children == TextChildren(s) &&
                              elem.name == old(elem.name) && elem.attr == old(elem.attr))
    ensures Text(elem) == if elem == null then ("", false) else (s, s != [])
  {
    if elem == null {
      return;
    }
    if |s| == 0 {
      elem.children := [];
    } else {
      elem.children := [TextNode(s)];
    }
  }

  // ---------------------------------------------------------------------------------
  // Visiting child elements

  /** What a visitor returns for one child element: go on, stop with this child
      (ErrBreak), or stop with an error. */
  datatype Visit = Continue | Break | Fail(error: Error)

  /** What ForEachChild returns: the child it stopped at on ErrBreak, or an error. */
  datatype Outcome = Outcome(res: Option<Tree>, err: Option<Error>)

  /** The visit of ForEachChild, child by child: non-element children are skipped, and
      the first Break or Fail ends the visit. */
  function VisitChildren(ns: seq<Node>, fn: Tree -> Visit): (o: Outcome)
    ensures !(o.res.Some? && o.err.Some?)
  {
    if ns == [] then Outcome(None, None)
    else if !ns[0].ElemNode? then VisitChildren(ns[1..], fn)
    else match fn(ns[0].elem)
      case Continue => VisitChildren(ns[1..], fn)
      case Break => Outcome(Some(ns[0].elem), None)
      case Fail(e) => Outcome(None, Some(e))
  }

  /** The child elements on which the visit calls `fn`, in order: every child element
      up to and including the first on which `fn` does not go on. */
  function Called(ns: seq<Node>, fn: Tree -> Visit): seq<Tree> {
    if ns == [] then []
    else if !ns[0].ElemNode? then Called(ns[1..], fn)
    else [ns[0].elem] + (if fn(ns[0].elem) == Continue then Called(ns[1..], fn) else [])
  }

  /** ForEachChild (dom.go:159-172): calls `fn` on each child element in order. It
      returns the child at which `fn` asked to break, or the first other error `fn`
      reported with no child, or nothing when every call went on. `called` records the
      children `fn` was called on. */
  method ForEachChild(elem: Element, fn: Tree -> Visit)
    returns (res: Option<Tree>, err: Option<Error>, ghost called: seq<Tree>)
    ensures Outcome(res, err) == VisitChildren(elem.children, fn)
    ensures called == Called(elem.children, fn)
  {
    var ns := elem.children;
    var i := 0;
    called := [];
    while i < |ns|
      invariant 0 <= i <= |ns|
      invariant VisitChildren(ns, fn) == VisitChildren(ns[i..], fn)
      invariant Called(ns, fn) == called + Called(ns[i..], fn)
    {
      assert ns[i..][0] == ns[i] && ns[i..][1..] == ns[i + 1..];
      var child := ns[i];
      if child.ElemNode? {
        var v := fn(child.elem);
        assert called + ([child.elem] + Called(ns[i + 1..], fn)) == (called + [child.elem]) + Called(ns[i + 1..], fn);
        assert called + ([child.elem] + []) == called + [child.elem];
        called := called + [child.elem];
        match v {
          case Continue =>
          case Break =>
            return Some(child.elem), None, called;
          case Fail(e) =>
            return None, Some(e), called;
        }
      }
      i := i + 1;
    }
    assert ns[i..] == [];
    assert called + [] == called;
    return None, None, called;
  }

  /** The visit of the child elements `es` stopped at index `k` with outcome `o`: every
      child element before `k` went on, and either all went on and nothing is returned,
      or `es[k]` asked to stop and `o` is what it asked for. */
  predicate StopsAt(es: seq<Tree>, fn: Tree -> Visit, o: Outcome, k: nat) {
    k <= |es| && (forall j :: 0 <= j < k ==> fn(es[j]) == Continue) &&
    (k == |es| ==> o == Outcome(None, None)) &&
    (k < |es| ==> match fn(es[k])
                  case Continue => false
                  case Break => o == Outcome(Some(es[k]), None)
                  case Fail(e) => o == Outcome(None, Some(e)))
  }

  /** `called` is the child elements up to the stopping index `k`, and `es[k]` too when
      the visit stopped there. */
  predicate CalledUpTo(es: seq<Tree>, called: seq<Tree>, k: nat) {
    k <= |es| && called == es[..if k < |es| then k + 1 else k]
  }

  /** A child element that goes on, put in front, moves the stopping index one on. */
  lemma StopsAtCons(e: Tree, es: seq<Tree>, fn: Tree -> Visit, o: Outcome, k: nat)
    requires fn(e) == Continue && StopsAt(es, fn, o, k)
    ensures StopsAt([e] + es, fn, o, k + 1)
  {
    var all := [e] + es;
    forall j | 0 <= j < k + 1 ensures fn(all[j]) == Continue {
      if j > 0 { assert all[j] == es[j - 1]; }
    }
    if k < |es| { assert all[k + 1] == es[k]; }
  }

  /** A child element put in front of the visited ones is called first. */
  lemma CalledUpToCons(e: Tree, es: seq<Tree>, called: seq<Tree>, k: nat)
    requires CalledUpTo(es, called, k)
    ensures CalledUpTo([e] + es, [e] + called, k + 1)
  {
    var m := if k < |es| then k + 1 else k;
    assert ([e] + es)[..m + 1] == [e] + es[..m];
  }

  /** The visit ends at the first child element on which `fn` does not go on: `fn` is
      called on the child elements es[0..k] in order (es[k] included when it exists),
      all but the last of those calls go on, and the outcome is the one that last call
      asked for (nothing, if every child element was visited). */
  lemma {:induction false} VisitStopsAtFirst(ns: seq<Node>, fn: Tree -> Visit)
    ensures exists k :: StopsAt(ElementChildren(ns), fn, VisitChildren(ns, fn), k) &&
                        CalledUpTo(ElementChildren(ns), Called(ns, fn), k)
  {
    var es := ElementChildren(ns);
    var o := VisitChildren(ns, fn);
    var c := Called(ns, fn);
    if ns == [] {
      assert StopsAt(es, fn, o, 0) && CalledUpTo(es, c, 0);
    } else {
      var rest := ElementChildren(ns[1..]);
      var o' := VisitChildren(ns[1..], fn);
      var c' := Called(ns[1..], fn);
      VisitStopsAtFirst(ns[1..], fn);
      var k': nat :| StopsAt(rest, fn, o', k') && CalledUpTo(rest, c', k');
      if !ns[0].ElemNode? {
        assert es == rest && o == o' && c == c';
        assert StopsAt(es, fn, o, k') && CalledUpTo(es, c, k');
      } else {
        assert es == [ns[0].elem] + rest;
        if fn(ns[0].elem) == Continue {
          assert o == o' && c == [ns[0].elem] + c';
          StopsAtCons(ns[0].elem, rest, fn, o, k');
          CalledUpToCons(ns[0].elem, rest, c', k');
        } else {
          assert c == [ns[0].elem] + [];
          assert StopsAt(es, fn, o, 0) && CalledUpTo(es, c, 0);
        }
      }
    }
  }

  /** The child ForEachChild stops at is one of the element's children. */
  lemma {:induction false} VisitResultIsChild(ns: seq<Node>, fn: Tree -> Visit)
    ensures var o := VisitChildren(ns, fn);
      o.res.Some? ==> ElemNode(o.res.value) in ns && fn(o.res.value) == Break
  {
    if ns != [] {
      VisitResultIsChild(ns[1..], fn);
      var o := VisitChildren(ns, fn);
      if o.res.Some? && !(ns[0].ElemNode? && fn(ns[0].elem) == Break) {
        assert o == VisitChildren(ns[1..], fn);
        assert ns == [ns[0]] + ns[1..];
      }
    }
  }

  // ---------------------------------------------------------------------------------
  // Visiting the children that satisfy a predicate

  /** The visitor ForEachChildPred hands to ForEachChild: children failing `pred` are
      passed over, the others go to `fn`. */
  function Guarded(pred: Tree -> bool, fn: Tree -> Visit): Tree -> Visit {
    (t: Tree) => if !pred(t) then Continue else fn(t)
  }

  /** The child elements satisfying `pred`, in order (the other children dropped). */
  function Matching(ns: seq<Node>, pred: Tree -> bool): (r: seq<Node>)
    ensures forall i :: 0 <= i < |r| ==> r[i].ElemNode? && pred(r[i].elem)
    ensures |r| <= |ns|
  {
    if ns == [] then []
    else (if ns[0].ElemNode? && pred(ns[0].elem) then [ns[0]] else []) + Matching(ns[1..], pred)
  }

  /** Visiting with the guarded visitor is visiting the matching children with `fn`. */
  lemma {:induction false} GuardedVisitsMatching(ns: seq<Node>, pred: Tree -> bool, fn: Tree -> Visit)
    ensures VisitChildren(ns, Guarded(pred, fn)) == VisitChildren(Matching(ns, pred), fn)
  {
    if ns != [] {
      GuardedVisitsMatching(ns[1..], pred, fn);
      var m := Matching(ns, pred);
      if ns[0].ElemNode? && pred(ns[0].elem) {
        assert m[0] == ns[0] && m[1..] == Matching(ns[1..], pred);
      } else {
        assert m == Matching(ns[1..], pred);
      }
    }
  }

  /** The trees of `ts` satisfying `pred`, in order. */
  function Satisfying(ts: seq<Tree>, pred: Tree -> bool): seq<Tree> {
    if ts == [] then [] else (if pred(ts[0]) then [ts[0]] else []) + Satisfying(ts[1..], pred)
  }

  lemma {:induction false} SatisfyingCons(t: Tree, ts: seq<Tree>, pred: Tree -> bool)
    ensures Satisfying([t] + ts, pred) == (if pred(t) then [t] else []) + Satisfying(ts, pred)
  {
    assert ([t] + ts)[0] == t && ([t] + ts)[1..] == ts;
  }

  /** The guarded visitor passes to `fn` exactly the children the visit of the matching
      children calls `fn` on: those satisfying `pred`, up to the first that does not go on. */
  lemma {:induction false} GuardedCalls(ns: seq<Node>, pred: Tree -> bool, fn: Tree -> Visit)
    ensures Satisfying(Called(ns, Guarded(pred, fn)), pred) == Called(Matching(ns, pred), fn)
  {
    if ns != [] {
      GuardedCalls(ns[1..], pred, fn);
      var g := Guarded(pred, fn);
      var m := Matching(ns, pred);
      if !ns[0].ElemNode? {
        assert m == Matching(ns[1..], pred);
      } else {
        var e := ns[0].elem;
        var tail := if g(e) == Continue then Called(ns[1..], g) else [];
        assert Called(ns, g) == [e] + tail;
        SatisfyingCons(e, tail, pred);
        if pred(e) {
          assert m[0] == ns[0] && m[1..] == Matching(ns[1..], pred);
          assert g(e) == fn(e);
          assert Satisfying([], pred) == [];
        } else {
          assert m == Matching(ns[1..], pred);
          assert g(e) == Continue;
        }
      }
    }
  }

  /** ForEachChildPred (dom.go:176-183): ForEachChild over the children satisfying
      `pred`. The child it stops at satisfies `pred`, and `fn` is called, in order, only
      on children satisfying `pred`: those the visit of the matching children reaches. */
  method ForEachChildPred(elem: Element, pred: Tree -> bool, fn: Tree -> Visit)
    returns (res: Option<Tree>, err: Option<Error>, ghost called: seq<Tree>)
    ensures Outcome(res, err) == VisitChildren(Matching(elem.children, pred), fn)
    ensures res.Some? ==> pred(res.value) && ElemNode(res.value) in elem.children
    ensures called == Called(Matching(elem.children, pred), fn)
  {
    ghost var guarded;
    res, err, guarded := ForEachChild(elem, Guarded(pred, fn));
    called := Satisfying(guarded, pred);
    GuardedVisitsMatching(elem.children, pred, fn);
    VisitResultIsChild(elem.children, Guarded(pred, fn));
    GuardedCalls(elem.children, pred, fn);
  }

  /** The predicate ForEachChildNamed uses: the local name is `name`. */
  function LocalNamed(name: string): Tree -> bool {
    (t: Tree) => t.name.local == name
  }

  /** ForEachChildNamed (dom.go:187-195): ForEachChild over the children whose local
      name is `name`; `fn` is called only on such children. */
  method ForEachChildNamed(elem: Element, name: string, fn: Tree -> Visit)
    returns (res: Option<Tree>, err: Option<Error>, ghost called: seq<Tree>)
    ensures Outcome(res, err) == VisitChildren(Matching(elem.children, LocalNamed(name)), fn)
    ensures res.Some? ==> res.value.name.local == name && ElemNode(res.value) in elem.children
    ensures called == Called(Matching(elem.children, LocalNamed(name)), fn)
  {
    res, err, called := ForEachChildPred(elem, LocalNamed(name), fn);
  }
}
