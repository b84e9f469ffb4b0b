/** The HTML node tree of htmlnode.py, leafnode.py and parentnode.py. The
    three Python classes become the three variants of one datatype, and each
    class's `to_html` is the matching arm of `Render`. Fields that Python
    leaves as `None` are `Option`s; a `props` dict is its list of entries in
    insertion order. */
module HtmlNode {
  import opened Wrappers
  import opened Errors

  /** A `props` dict: its (key, value) entries in insertion order. */
  type Props = seq<(string, string)>

  /** A node's `children` attribute: None, or a list of nodes. */
  datatype Children = NoChildren | ChildList(nodes: seq<Node>) {
    /** `self.children or []`. */
    function OrEmpty(): seq<Node> {
      if ChildList? then nodes else []
    }
  }

  datatype Node =
      /** `HTMLNode(tag, value, children, props)`: renders leniently, never raises itself. */
    | Generic(tag: Option<string>, value: Option<string>, children: Children, props: Option<Props>)
      /** `LeafNode(tag, value, props)`: children stays None. */
    | Leaf(tag: Option<string>, value: Option<string>, props: Option<Props>)
      /** `ParentNode(tag, children, props)`: value is forced to None. */
    | Parent(tag: Option<string>, children: Children, props: Option<Props>)
  {
    /** The `value` attribute every HTMLNode carries. */
    function ValueField(): Option<string> {
      match this
      case Generic(_, v, _, _) => v
      case Leaf(_, v, _) => v
      case Parent(_, _, _) => None
    }

    /** The `children` attribute every HTMLNode carries. */
    function ChildrenField(): Children {
      match this
      case Generic(_, _, c, _) => c
      case Leaf(_, _, _) => NoChildren
      case Parent(_, c, _) => c
    }
  }

  /** One attribute as `props_to_html` writes it: ` key="value"`. */
  function Attribute(entry: (string, string)): string {
    " " + entry.0 + "=\"" + entry.1 + "\""
  }

  /** The attribute loop `html += f' {prop}="{props[prop]}"'` over the entries so far. */
  function Attributes(entries: Props): string {
    if entries == [] then "" else Attributes(entries[..|entries| - 1]) + Attribute(entries[|entries| - 1])
  }

  /** `HTMLNode.props_to_html`: "" for None props, else the attributes in insertion order. */
  function PropsToHtml(props: Option<Props>): string {
    match props
    case None => ""
    case Some(entries) => Attributes(entries)
  }

  function OpenTag(tag: string, props: Option<Props>): string {
    "<" + tag + PropsToHtml(props) + ">"
  }

  function CloseTag(tag: string): string {
    "</" + tag + ">"
  }

  /** `to_html`, dispatched on the node's class. */
  function Render(n: Node): Result<string, Error>
  {
    match n
    case Generic(tag, value, children, props) =>
      if tag.None? then Ok(value.GetOr(""))
      else if children.NoChildren? && value.None? then Ok(OpenTag(tag.value, props))
      else
        // `if self.children:` skips both None and the empty list
        var inner :- if children.ChildList? then RenderAll(children.nodes) else Ok("");
        Ok(OpenTag(tag.value, props) + value.GetOr("") + inner + CloseTag(tag.value))
    case Leaf(tag, value, props) =>
      if value.None? then Err(MissingValue)
      else if tag.None? then Ok(value.value)
      // the `props is not None and len(props) > 0` guard yields "" exactly where props_to_html does
      else Ok(OpenTag(tag.value, props) + value.value + CloseTag(tag.value))
    case Parent(tag, children, props) =>
      if tag.None? then Err(MissingTag)
      else if children.NoChildren? then Err(MissingChildren)
      else
        var inner :- RenderAll(children.nodes);
        Ok(OpenTag(tag.value, props) + inner + CloseTag(tag.value))
  }

  /** The loop `children_html += child.to_html()`: the renders of `cs` concatenated
      in order, or the error of the first child that raises. */
  function RenderAll(cs: seq<Node>): Result<string, Error>
  {
    if cs == [] then Ok("")
    else
      var done :- RenderAll(cs[..|cs| - 1]);
      var last :- Render(cs[|cs| - 1]);
      Ok(done + last)
  }

  /** Attributes render entry by entry, in insertion order: the rendering of
      a concatenation of entry lists is the concatenation of their renderings. */
  lemma {:induction false} AttributesInInsertionOrder(a: Props, b: Props)
    ensures Attributes(a + b) == Attributes(a) + Attributes(b)
    decreases |b|
  {
    if b == [] {
      assert a + b == a;
    } else {
      AttributesInInsertionOrder(a, b[..|b| - 1]);
      AttributesStep(a, b);
    }
  }

  lemma AttributesStep(a: Props, b: Props)
    requires b != []
    requires Attributes(a + b[..|b| - 1]) == Attributes(a) + Attributes(b[..|b| - 1])
    ensures Attributes(a + b) == Attributes(a) + Attributes(b)
  {
    var b' := b[..|b| - 1];
    var x := b[|b| - 1];
    assert (a + b)[..|a + b| - 1] == a + b';
    assert (a + b)[|a + b| - 1] == x;
    SnocGlue(Attributes(a + b), Attributes(a + b'), Attribute(x), Attributes(a), Attributes(b'), Attributes(b));
  }

  /** Reassociation with named parts: `whole = (x + y) + z` and `yz = y + z`
      give `whole = x + yz`. */
  lemma SnocGlue(whole: string, front: string, z: string, x: string, y: string, yz: string)
    requires whole == front + z && front == x + y && yz == y + z
    ensures whole == x + yz
  {
  }

  /** `props_to_html` gives "" for None or an empty dict and ` key="value"`
      for one entry; with AttributesInInsertionOrder this fixes it on every dict. */
  lemma PropsToHtmlCases(key: string, value: string)
    ensures PropsToHtml(None) == "" && PropsToHtml(Some([])) == ""
    ensures PropsToHtml(Some([(key, value)])) == " " + key + "=\"" + value + "\""
  {
    assert [(key, value)][..0] == [];
  }

  /** Rendering the children fails exactly when some child fails. */
  lemma {:induction false} RenderAllOkIff(cs: seq<Node>)
    ensures RenderAll(cs).Ok? <==> forall i :: 0 <= i < |cs| ==> Render(cs[i]).Ok?
    decreases |cs|
  {
    if cs != [] {
      var init := cs[..|cs| - 1];
      RenderAllOkIff(init);
      assert forall i :: 0 <= i < |init| ==> init[i] == cs[i];
    }
  }

  /** The children render in order: rendering `a + b` renders `a`, then `b`,
      and concatenates; the first error, from `a` before `b`, wins. */
  lemma {:induction false} RenderAllAppend(a: seq<Node>, b: seq<Node>)
    ensures RenderAll(a + b) ==
      match RenderAll(a)
      case Err(e) => Err(e)
      case Ok(x) => (match RenderAll(b) case Err(e) => Err(e) case Ok(y) => Ok(x + y))
    decreases |b|
  {
    if b == [] {
      assert a + b == a;
      if RenderAll(a).Ok? {
        assert RenderAll(a).value + "" == RenderAll(a).value;
      }
    } else {
      var b', last := b[..|b| - 1], b[|b| - 1];
      RenderAllAppend(a, b');
      assert (a + b)[..|a + b| - 1] == a + b';
      assert (a + b)[|a + b| - 1] == last;
      if RenderAll(a).Ok? && RenderAll(b').Ok? && Render(last).Ok? {
        var x, y, z := RenderAll(a).value, RenderAll(b').value, Render(last).value;
        assert RenderAll(a + b) == Ok((x + y) + z);
        assert RenderAll(b) == Ok(y + z);
        assert (x + y) + z == x + (y + z);
      }
    }
  }

  /** A single child renders as itself. */
  lemma RenderAllSingle(c: Node)
    ensures RenderAll([c]) == Render(c)
  {
    assert [c][..0] == [];
    assert RenderAll([]) == Ok("");
    if Render(c).Ok? {
      assert "" + Render(c).value == Render(c).value;
    }
  }

  /** `HTMLNode.to_html` never raises on its own account: it fails only when it
      has a tag and one of its children fails, and then it does fail. */
  lemma GenericFailsOnlyThroughChildren(tag: Option<string>, value: Option<string>, children: Children, props: Option<Props>)
    ensures Render(Generic(tag, value, children, props)).Err? <==>
      tag.Some? && children.ChildList? && exists i :: 0 <= i < |children.nodes| && Render(children.nodes[i]).Err?
  {
    if tag.Some? && children.ChildList? {
      RenderAllOkIff(children.nodes);
    }
  }

  /** `HTMLNode.to_html` without a tag is the bare value, or "" for None. */
  lemma GenericWithoutTag(value: Option<string>, children: Children, props: Option<Props>)
    ensures Render(Generic(None, value, children, props)) == Ok(value.GetOr(""))
  {
  }

  /** `HTMLNode.to_html` with a tag but neither children nor value is a lone open tag. */
  lemma GenericVoidElement(tag: string, props: Option<Props>)
    ensures Render(Generic(Some(tag), None, NoChildren, props)) == Ok("<" + tag + PropsToHtml(props) + ">")
  {
  }

  /** `HTMLNode.to_html` otherwise: open tag, value (or ""), the children in
      order, close tag; an empty child list contributes nothing. */
  lemma GenericElement(tag: string, value: Option<string>, children: Children, props: Option<Props>)
    requires value.Some? || children.ChildList?
    requires RenderAll(children.OrEmpty()).Ok?
    ensures Render(Generic(Some(tag), value, children, props)) ==
      Ok("<" + tag + PropsToHtml(props) + ">" + value.GetOr("") + RenderAll(children.OrEmpty()).value + "</" + tag + ">")
    ensures children.OrEmpty() == [] ==> RenderAll(children.OrEmpty()).value == ""
  {
    var open, v, inner := "<" + tag + PropsToHtml(props) + ">", value.GetOr(""), RenderAll(children.OrEmpty()).value;
    assert OpenTag(tag, props) == open;
    var x := open + v + inner;
    assert Render(Generic(Some(tag), value, children, props)) == Ok(x + CloseTag(tag));
    assert x + CloseTag(tag) == x + "</" + tag + ">";
  }
}
