/** The element tree of etree/etree.go as mutable objects. */
module ETree {
  import opened Basics
  import opened XmlModel

  /** A CharData, Comment, Directive or ProcInst object. */
  class Leaf {
    var value: LeafValue
    var parent: Element?

    constructor (value: LeafValue, parent: Element?)
      ensures this.value == value && this.parent == parent
    {
      this.value, this.parent := value, parent;
    }
  }

  datatype Token = ElementToken(e: Element) | LeafToken(l: Leaf)

  class Element {
    var space: string
    var tag: string
    var attr: seq<Attr>
    var child: seq<Token>
    var parent: Element?

    constructor (space: string, tag: string, attr: seq<Attr>, child: seq<Token>, parent: Element?)
      ensures this.space == space && this.tag == tag && this.attr == attr
      ensures this.child == child && this.parent == parent
    {
      this.space, this.tag, this.attr, this.child, this.parent := space, tag, attr, child, parent;
    }

    ghost function TextLeaf(): set<Leaf>
      reads this
    {
      if child != [] && child[0].LeafToken? then {child[0].l} else {}
    }

    /** The characters immediately following the opening tag. */
    function Text(): string
      reads this, TextLeaf()
    {
      if |child| == 0 then ""
      else if child[0].LeafToken? && child[0].l.value.CharData? then child[0].l.value.data
      else ""
    }
  }

  /** The elements among the child tokens. */
  function ElementsOf(child: seq<Token>): (r: seq<Element>)
  {
    if child == [] then []
    else
      var t := child[|child| - 1];
      ElementsOf(child[..|child| - 1]) + if t.ElementToken? then [t.e] else []
  }
}
