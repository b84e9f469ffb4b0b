/** leafnode.py: `LeafNode`, the node that holds text and no children, and
    whose `to_html` raises when that text is missing. */
module LeafNode {
  import opened Wrappers
  import opened Errors
  import opened HtmlNode

  /** `LeafNode(tag, value, props)`: keeps the three fields; children stays None. */
  function NewLeaf(tag: Option<string>, value: Option<string>, props: Option<Props>): (n: Node)
    ensures n.Leaf? && n.ChildrenField() == NoChildren
    ensures n.tag == tag && n.ValueField() == value && n.props == props
  {
    Leaf(tag, value, props)
  }

  /** A leaf renders exactly when it has a value; a missing value raises
      before the tag is looked at, so a tagless leaf without value raises too. */
  lemma LeafRaisesIffNoValue(tag: Option<string>, value: Option<string>, props: Option<Props>)
    ensures Render(Leaf(tag, value, props)).Err? <==> value.None?
    ensures value.None? ==> Render(Leaf(tag, value, props)) == Err(MissingValue)
  {
  }

  /** A tagless leaf renders its value verbatim; a tagged one wraps it in open
      and close tags, attributes in insertion order, even when the value is "". */
  lemma LeafRendersValue(tag: Option<string>, value: string, props: Option<Props>)
    ensures tag.None? ==> Render(Leaf(tag, Some(value), props)) == Ok(value)
    ensures tag.Some? ==>
      Render(Leaf(tag, Some(value), props)) == Ok("<" + tag.value + PropsToHtml(props) + ">" + value + "</" + tag.value + ">")
  {
    if tag.Some? {
      var open := "<" + tag.value + PropsToHtml(props) + ">";
      assert OpenTag(tag.value, props) == open;
      assert open + value + CloseTag(tag.value) == open + value + "</" + tag.value + ">";
    }
  }

  /** Wherever `LeafNode.to_html` does not raise, it agrees with the base
      class's `HTMLNode.to_html` on the same fields. */
  lemma LeafAgreesWithGeneric(tag: Option<string>, value: Option<string>, props: Option<Props>)
    requires value.Some?
    ensures Render(Leaf(tag, value, props)) == Render(Generic(tag, value, NoChildren, props))
  {
    if tag.Some? {
      assert RenderAll([]) == Ok("");
      var x := OpenTag(tag.value, props) + value.value;
      assert x + "" + CloseTag(tag.value) == x + CloseTag(tag.value);
    }
  }
}
