/** The part of the DOM the selector code touches. */
module Dom {

  /** The kind of a node: the document itself, its `body` and `head`
      elements, any other element, or a text or comment node. */
  datatype Kind = Document | Body | Head | Element | Text | Comment

  /** `element.nodeType === 1`. */
  predicate IsElement(k: Kind)
  {
    k == Body || k == Head || k == Element
  }

  /** `nodeName` agrees with the kind of node: `#document`, `#text` and
      `#comment` for those nodes, `BODY` and `HEAD` for those elements, and
      any other tag name for the rest. */
  predicate NameFits(nodeName: string, kind: Kind)
  {
    match kind
    case Document => nodeName == "#document"
    case Text => nodeName == "#text"
    case Comment => nodeName == "#comment"
    case Body => nodeName == "BODY"
    case Head => nodeName == "HEAD"
    case Element => nodeName != "" && nodeName[0] != '#' && nodeName != "BODY" && nodeName != "HEAD"
  }

  /** A DOM node. The structure (`nodeName`, `kind`, `parentNode`) is fixed;
      `id` and the class list are the attributes the selector code changes
      and restores; `childNodes` is set when the tree is built. */
  class Node {
    const nodeName: string
    const kind: Kind
    const parent: Node?
    /** Distance from the top of the tree, for termination of upward walks. */
    ghost const depth: nat
    var id: string
    var classes: seq<string>
    var childNodes: seq<Node>

    /** The name fits the kind, and every step to the parent goes strictly
        up. */
    ghost predicate Linked()
      decreases depth
    {
      NameFits(nodeName, kind) && (parent != null ==> parent.depth < depth && parent.Linked())
    }

    /** The node and all its ancestors. */
    ghost function Ancestors(): (r: set<Node>)
      requires Linked()
      decreases depth
      ensures this in r
      ensures forall a :: a in r ==> a.depth <= depth
    {
      {this} + (if parent == null then {} else parent.Ancestors())
    }

    constructor (nodeName: string, kind: Kind, parent: Node?, id: string, classes: seq<string>)
      requires NameFits(nodeName, kind)
      requires parent != null ==> parent.Linked()
      ensures this.nodeName == nodeName && this.kind == kind && this.parent == parent
      ensures this.id == id && this.classes == classes && childNodes == []
      ensures Linked()
    {
      this.nodeName := nodeName;
      this.kind := kind;
      this.parent := parent;
      this.depth := if parent == null then 0 else parent.depth + 1;
      this.id := id;
      this.classes := classes;
      this.childNodes := [];
    }
  }

  /** The ancestors of an allocated node are allocated. */
  lemma {:induction false} AncestorsAllocated(n: Node)
    requires n.Linked()
    decreases n.depth
    ensures forall a :: a in n.Ancestors() ==> allocated(a)
  {
    if n.parent != null {
      AncestorsAllocated(n.parent);
    }
  }
}
