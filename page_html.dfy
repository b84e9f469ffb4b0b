/** The HTML a page is meant to become, written directly from its blocks,
    and the proof that the tree `markdown_to_html_node` builds renders to it
    through `to_html` without raising: every container is an `HTMLNode`
    with a tag and a child list, and every leaf in it carries a value. */
module PageHtml {
  import opened Wrappers
  import opened Errors
  import opened Strings
  import opened InlineMarkup
  import opened HtmlNode
  import opened LeafNode
  import opened InlinePipeline
  import opened Blocks
  import opened BlockTypes
  import opened Compiler

  /** The HTML of a piece of inline text: the HTML of its spans. */
  function TextHtml(text: string, extractImages: Extractor, extractLinks: Extractor): string {
    match TextNodesOf(text, extractImages, extractLinks)
    case Ok(spans) => SpansHtml(spans)
    case Err(_) => ""
  }

  /** The HTML of a list's items: an `li` element per accepted line. */
  function ItemsHtml(lines: seq<string>, itemOf: string -> Option<string>,
                     extractImages: Extractor, extractLinks: Extractor): string
  {
    if lines == [] then ""
    else
      (match itemOf(lines[0])
       case None => ""
       case Some(content) => Element("li", "", TextHtml(content, extractImages, extractLinks))) +
      ItemsHtml(lines[1..], itemOf, extractImages, extractLinks)
  }

  /** The HTML of one block, by its kind. */
  function BlockHtml(block: string, extractImages: Extractor, extractLinks: Extractor): string {
    var lines := Split(block, '\n');
    match BlockToBlockType(block)
    case Paragraph => Element("p", "", TextHtml(CollapseWhitespace(Strip(block)), extractImages, extractLinks))
    case Heading =>
      var level := LeadingHashes(block);
      Element("h" + NatToString(level), "", TextHtml(Strip(block[level..]), extractImages, extractLinks))
    case Code => Element("pre", "", Element("code", "", CodeContent(block)))
    case Quote => Element("blockquote", "", TextHtml(Strip(QuoteAccum(lines)), extractImages, extractLinks))
    case OrderedList => Element("ol", "", ItemsHtml(lines, OrderedItem, extractImages, extractLinks))
    case UnorderedList => Element("ul", "", ItemsHtml(lines, UnorderedItem, extractImages, extractLinks))
  }

  function BlocksHtml(blocks: seq<string>, extractImages: Extractor, extractLinks: Extractor): string {
    if blocks == [] then "" else BlockHtml(blocks[0], extractImages, extractLinks) + BlocksHtml(blocks[1..], extractImages, extractLinks)
  }

  /** The HTML of a page: a `div` holding the HTML of its blocks, in order. */
  function PageHtmlOf(markdown: string, extractImages: Extractor, extractLinks: Extractor): string {
    Element("div", "", BlocksHtml(BlocksOf(markdown), extractImages, extractLinks))
  }

  /** Empty attributes and an empty value drop out of an element. */
  lemma Unpadded(tag: string, props: string, value: string, inner: string)
    requires props == "" && value == ""
    ensures "<" + tag + props + ">" + value + inner + "</" + tag + ">" == Element(tag, "", inner)
  {
  }

  /** A container whose children render renders as the element around them:
      an empty `props` dict and a missing value add nothing. */
  lemma ContainerRenders(tag: string, children: seq<Node>, inner: string)
    requires RenderAll(children) == Ok(inner)
    ensures Render(Container(tag, children)) == Ok(Element(tag, "", inner))
  {
    PropsToHtmlCases("", "");
    assert ChildList(children).OrEmpty() == children;
    GenericElement(tag, None, ChildList(children), Some([]));
    Unpadded(tag, PropsToHtml(Some([])), None.GetOr(""), inner);
  }

  /** The children of a piece of text render as its HTML. */
  lemma ChildrenRender(text: string, extractImages: Extractor, extractLinks: Extractor)
    requires ChildrenOf(text, extractImages, extractLinks).Ok?
    ensures RenderAll(ChildrenOf(text, extractImages, extractLinks).value) == Ok(TextHtml(text, extractImages, extractLinks))
  {
    ChildrenRenderSpans(text, extractImages, extractLinks);
  }

  lemma {:induction false} ItemsRender(lines: seq<string>, itemOf: string -> Option<string>,
                                       extractImages: Extractor, extractLinks: Extractor)
    requires ListItems(lines, itemOf, extractImages, extractLinks).Ok?
    ensures RenderAll(ListItems(lines, itemOf, extractImages, extractLinks).value) ==
            Ok(ItemsHtml(lines, itemOf, extractImages, extractLinks))
    decreases |lines|
  {
    if lines != [] {
      ItemsRender(lines[1..], itemOf, extractImages, extractLinks);
      var rest := ListItems(lines[1..], itemOf, extractImages, extractLinks).value;
      match itemOf(lines[0]) {
        case None =>
          assert "" + ItemsHtml(lines[1..], itemOf, extractImages, extractLinks) ==
                 ItemsHtml(lines[1..], itemOf, extractImages, extractLinks);
        case Some(content) =>
          var children := ChildrenOf(content, extractImages, extractLinks).value;
          var item := Container("li", children);
          ChildrenRender(content, extractImages, extractLinks);
          ContainerRenders("li", children, TextHtml(content, extractImages, extractLinks));
          RenderAllSingle(item);
          RenderAllAppend([item], rest);
      }
    }
  }

  /** A leaf holding the code text, inside `code`, inside `pre`. */
  lemma CodeRenders(content: string)
    ensures Render(Container("pre", [Container("code", [Leaf(None, Some(content), None)])])) ==
            Ok(Element("pre", "", Element("code", "", content)))
  {
    var leaf := Leaf(None, Some(content), None);
    LeafRendersValue(None, content, None);
    RenderAllSingle(leaf);
    ContainerRenders("code", [leaf], content);
    RenderAllSingle(Container("code", [leaf]));
    ContainerRenders("pre", [Container("code", [leaf])], Element("code", "", content));
  }

  /** The node of a block renders as the HTML of the block. */
  lemma BlockRenders(block: string, extractImages: Extractor, extractLinks: Extractor)
    requires BlockNode(block, extractImages, extractLinks).Ok?
    ensures Render(BlockNode(block, extractImages, extractLinks).value) == Ok(BlockHtml(block, extractImages, extractLinks))
  {
    var lines := Split(block, '\n');
    match BlockToBlockType(block) {
      case Paragraph =>
        var text := CollapseWhitespace(Strip(block));
        ChildrenRender(text, extractImages, extractLinks);
        ContainerRenders("p", ChildrenOf(text, extractImages, extractLinks).value, TextHtml(text, extractImages, extractLinks));
      case Heading =>
        var level := LeadingHashes(block);
        var text := Strip(block[level..]);
        ChildrenRender(text, extractImages, extractLinks);
        ContainerRenders("h" + NatToString(level), ChildrenOf(text, extractImages, extractLinks).value,
                         TextHtml(text, extractImages, extractLinks));
      case Code =>
        CodeRenders(CodeContent(block));
      case Quote =>
        var text := Strip(QuoteAccum(lines));
        ChildrenRender(text, extractImages, extractLinks);
        ContainerRenders("blockquote", ChildrenOf(text, extractImages, extractLinks).value, TextHtml(text, extractImages, extractLinks));
      case OrderedList =>
        ItemsRender(lines, OrderedItem, extractImages, extractLinks);
        ContainerRenders("ol", ListItems(lines, OrderedItem, extractImages, extractLinks).value,
                         ItemsHtml(lines, OrderedItem, extractImages, extractLinks));
      case UnorderedList =>
        ItemsRender(lines, UnorderedItem, extractImages, extractLinks);
        ContainerRenders("ul", ListItems(lines, UnorderedItem, extractImages, extractLinks).value,
                         ItemsHtml(lines, UnorderedItem, extractImages, extractLinks));
    }
  }

  lemma {:induction false} BlocksRender(blocks: seq<string>, extractImages: Extractor, extractLinks: Extractor)
    requires BlockNodes(blocks, extractImages, extractLinks).Ok?
    ensures RenderAll(BlockNodes(blocks, extractImages, extractLinks).value) == Ok(BlocksHtml(blocks, extractImages, extractLinks))
    decreases |blocks|
  {
    if blocks != [] {
      BlockNodesAt(blocks, 0, extractImages, extractLinks);
      assert blocks[0..] == blocks;
      var node := BlockNode(blocks[0], extractImages, extractLinks).value;
      var rest := BlockNodes(blocks[1..], extractImages, extractLinks).value;
      BlocksRender(blocks[1..], extractImages, extractLinks);
      BlockRenders(blocks[0], extractImages, extractLinks);
      RenderAllSingle(node);
      RenderAllAppend([node], rest);
    }
  }

  /** A page that converts renders, without raising, as a `div` holding the
      HTML of each of its blocks in order. */
  lemma PageRenders(markdown: string, extractImages: Extractor, extractLinks: Extractor)
    requires PageOf(markdown, extractImages, extractLinks).Ok?
    ensures Render(PageOf(markdown, extractImages, extractLinks).value) == Ok(PageHtmlOf(markdown, extractImages, extractLinks))
  {
    var blocks := BlocksOf(markdown);
    BlocksRender(blocks, extractImages, extractLinks);
    ContainerRenders("div", BlockNodes(blocks, extractImages, extractLinks).value, BlocksHtml(blocks, extractImages, extractLinks));
  }
}
