/** The value types shared by the decoder, the encoder and the navigation helpers:
    XML names and attributes, the typed tokens exchanged with the tokenizer and the
    structural encoder, and the ordered, mixed-content node tree. */
module DomTypes {

  datatype Option<+T> = None | Some(value: T)

  /** An error reported by the tokenizer, the structural encoder or a visitor.
      `UnexpectedEOF` is the syntax error the tokenizer reports when the input ends
      while an element is still open (xml.SyntaxError "unexpected EOF"); the tokenizer
      never hands io.EOF to a decoder inside an element. */
  datatype Error = UnexpectedEOF | Fault(msg: string)

  /** A value, or the error that took its place. */
  datatype Result<+T> = Success(value: T) | Failure(error: Error)

  /** xml.Name: a namespace and a local part. */
  datatype Name = Name(space: string, local: string)

  /** xml.Attr: an attribute name and its value. */
  datatype Attr = Attr(name: Name, value: string)

  /** The typed tokens of the XML token stream. `Err` stands for a call of the tokenizer
      that returned an error instead of a token; `ProcInst` is the one token kind the
      decoder neither stores nor treats as an error. */
  datatype Token =
    | Start(name: Name, attrs: seq<Attr>)
    | End(name: Name)
    | CharData(text: string)
    | Comment(text: string)
    | Directive(text: string)
    | ProcInst(target: string, inst: string)
    | Err(error: Error)

  /** A child of an element. Go holds children as `interface{}`; the four kinds the
      package works with get their own constructor, and `OtherNode` stands for a value
      of any other dynamic type a caller may have put into the child list. */
  datatype Node =
    | ElemNode(elem: Tree)
    | TextNode(text: string)
    | CommentNode(text: string)
    | DirectiveNode(text: string)
    | OtherNode(kind: string)

  /** The value of an element: its name, its attributes and its children, in order. */
  datatype Tree = Tree(name: Name, attr: seq<Attr>, children: seq<Node>)

  /** The child elements of `ns`, in order, skipping every other kind of node. */
  function ElementChildren(ns: seq<Node>): (r: seq<Tree>)
    ensures |r| <= |ns|
  {
    if ns == [] then []
    else (if ns[0].ElemNode? then [ns[0].elem] else []) + ElementChildren(ns[1..])
  }
}
