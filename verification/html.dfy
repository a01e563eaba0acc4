/**
  The element rewriting the worker asks of HTMLRewriter: every `script`
  element gets a `nonce` attribute holding the request's nonce.

  The body is modelled as the sequence of nodes the rewriter streams past:
  elements (a tag name and an attribute map) and every other kind of content
  (text, comments, doctype) as opaque text.  The handler object and the
  element object it mutates are classes, as in the source; the observable
  effect on the whole stream is the function Rewrite.
 */
module Html {

  datatype Node =
    | Element(tag: string, attributes: map<string, string>)
    | Text(content: string)

  /** The selector the handler is registered on. */
  const ScriptTag := "script"

  /** The attribute the handler sets. */
  const NonceAttribute := "nonce"

  predicate IsScript(n: Node)
  {
    n.Element? && n.tag == ScriptTag
  }

  /** The effect of the handler on one node of the stream: only script elements change. */
  function RewriteNode(n: Node, nonce: string): Node
  {
    if IsScript(n) then n.(attributes := n.attributes[NonceAttribute := nonce]) else n
  }

  /**
    The rewritten stream.  Order and length are kept; each script element
    carries the nonce (replacing any earlier `nonce`) and keeps every other
    attribute; every other node is passed through unchanged.
   */
  function Rewrite(doc: seq<Node>, nonce: string): (r: seq<Node>)
    ensures |r| == |doc|
    ensures forall i | 0 <= i < |doc| && IsScript(doc[i]) ::
      && IsScript(r[i])
      && r[i].attributes.Keys == doc[i].attributes.Keys + {NonceAttribute}
      && r[i].attributes[NonceAttribute] == nonce
      && (forall a | a in doc[i].attributes && a != NonceAttribute :: r[i].attributes[a] == doc[i].attributes[a])
    ensures forall i | 0 <= i < |doc| && !IsScript(doc[i]) :: r[i] == doc[i]
  {
    seq(|doc|, i requires 0 <= i < |doc| => RewriteNode(doc[i], nonce))
  }

  /** A rewrite whose nonce is then rewritten again leaves only the second nonce: the last one set wins. */
  lemma RewriteOverwrites(doc: seq<Node>, n1: string, n2: string)
    ensures Rewrite(Rewrite(doc, n1), n2) == Rewrite(doc, n2)
  {
    var once, twice := Rewrite(doc, n2), Rewrite(Rewrite(doc, n1), n2);
    forall i | 0 <= i < |doc|
      ensures twice[i] == once[i]
    {
      if IsScript(doc[i]) {
        assert doc[i].attributes[NonceAttribute := n1][NonceAttribute := n2] == doc[i].attributes[NonceAttribute := n2];
      }
    }
  }

  /** Number of script elements in a stream. */
  function CountScripts(doc: seq<Node>): nat
  {
    if doc == [] then 0 else (if IsScript(doc[0]) then 1 else 0) + CountScripts(doc[1..])
  }

  /** Number of script elements whose `nonce` attribute is the given value. */
  function CountNonced(doc: seq<Node>, nonce: string): nat
  {
    if doc == [] then 0
    else
      var n := doc[0];
      (if IsScript(n) && NonceAttribute in n.attributes && n.attributes[NonceAttribute] == nonce then 1 else 0)
      + CountNonced(doc[1..], nonce)
  }

  /** After rewriting, as many script elements carry the nonce as there were script elements. */
  lemma {:induction false} RewriteCount(doc: seq<Node>, nonce: string)
    ensures CountNonced(Rewrite(doc, nonce), nonce) == CountScripts(doc)
    ensures CountScripts(Rewrite(doc, nonce)) == CountScripts(doc)
  {
    if doc != [] {
      RewriteCount(doc[1..], nonce);
      assert Rewrite(doc, nonce)[1..] == Rewrite(doc[1..], nonce);
    }
  }

  /** The element object a handler receives, whose attributes it may change in place. */
  class HtmlElement {
    const tagName: string
    var attributes: map<string, string>

    constructor (tagName: string, attributes: map<string, string>)
      ensures this.tagName == tagName && this.attributes == attributes
    {
      this.tagName := tagName;
      this.attributes := attributes;
    }

    /** `element.setAttribute(name, value)`: adds the attribute, or replaces its value. */
    method SetAttribute(name: string, value: string)
      modifies this
      ensures attributes == old(attributes)[name := value]
    {
      attributes := attributes[name := value];
    }
  }

  /** The handler registered on `script`: it holds the request's nonce and stamps it on each element. */
  class ScriptNonceHandler {
    const nonce: string

    constructor (nonce: string)
      ensures this.nonce == nonce
    {
      this.nonce := nonce;
    }

    method Element(element: HtmlElement)
      modifies element
      ensures element.attributes == old(element.attributes)[NonceAttribute := nonce]
    {
      element.SetAttribute(NonceAttribute, nonce);
    }
  }

  /**
    `new HTMLRewriter().on('script', handler).transform(...)` on the body:
    one pass over the stream, handing each script element to the handler as
    a fresh element object and emitting the element as the handler left it.
   */
  method Transform(handler: ScriptNonceHandler, doc: seq<Node>) returns (out: seq<Node>)
    ensures out == Rewrite(doc, handler.nonce)
  {
    out := [];
    for i := 0 to |doc|
      invariant |out| == i
      invariant forall k | 0 <= k < i :: out[k] == RewriteNode(doc[k], handler.nonce)
    {
      var node := doc[i];
      if IsScript(node) {
        var element := new HtmlElement(node.tag, node.attributes);
        handler.Element(element);
        node := Element(element.tagName, element.attributes);
      }
      out := out + [node];
    }
  }
}
