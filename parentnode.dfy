/** parentnode.py: `ParentNode`, the container node that has no value of its
    own and whose `to_html` raises when its tag or its children are missing. */
module ParentNode {
  import opened Wrappers
  import opened Errors
  import opened HtmlNode

  /** `ParentNode(tag, children, props)`: keeps the three fields; value is forced to None. */
  function NewParent(tag: Option<string>, children: Children, props: Option<Props>): (n: Node)
    ensures n.Parent? && n.ValueField() == None
    ensures n.tag == tag && n.ChildrenField() == children && n.props == props
  {
    Parent(tag, children, props)
  }

  /** A missing tag raises, whatever the children; otherwise missing children raise. */
  lemma ParentRaisesOnMissingFields(tag: Option<string>, children: Children, props: Option<Props>)
    ensures tag.None? ==> Render(Parent(tag, children, props)) == Err(MissingTag)
    ensures tag.Some? && children.NoChildren? ==> Render(Parent(tag, children, props)) == Err(MissingChildren)
  {
  }

  /** A parent renders its open tag, each child's rendering in order, and its
      close tag; the first child that raises makes the parent raise. */
  lemma ParentRendersChildrenInOrder(tag: string, children: seq<Node>, props: Option<Props>)
    ensures Render(Parent(Some(tag), ChildList(children), props)) ==
      match RenderAll(children)
      case Err(e) => Err(e)
      case Ok(inner) => Ok("<" + tag + PropsToHtml(props) + ">" + inner + "</" + tag + ">")
    ensures Render(Parent(Some(tag), ChildList(children), props)).Ok? <==>
      forall i :: 0 <= i < |children| ==> Render(children[i]).Ok?
  {
    RenderAllOkIff(children);
    if RenderAll(children).Ok? {
      var x := OpenTag(tag, props) + RenderAll(children).value;
      assert OpenTag(tag, props) == "<" + tag + PropsToHtml(props) + ">";
      assert x + CloseTag(tag) == x + "</" + tag + ">";
    }
  }

  /** With no children the parent is an empty element; empty or None props add nothing. */
  lemma ParentWithoutChildren(tag: string, props: Option<Props>)
    requires props == None || props == Some([])
    ensures Render(Parent(Some(tag), ChildList([]), props)) == Ok("<" + tag + "></" + tag + ">")
  {
    assert RenderAll([]) == Ok("");
    assert PropsToHtml(props) == "";
    assert OpenTag(tag, props) + "" + CloseTag(tag) == "<" + tag + "></" + tag + ">";
  }

  /** Wherever `ParentNode.to_html` does not raise for a missing field, it
      agrees with the base class's `HTMLNode.to_html` on the same fields. */
  lemma ParentAgreesWithGeneric(tag: string, children: seq<Node>, props: Option<Props>)
    ensures Render(Parent(Some(tag), ChildList(children), props)) ==
            Render(Generic(Some(tag), None, ChildList(children), props))
  {
    if RenderAll(children).Ok? {
      var x := OpenTag(tag, props);
      assert x + "" + RenderAll(children).value == x + RenderAll(children).value;
    }
  }
}
