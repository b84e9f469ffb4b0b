/** `markdown_to_html_node` of utils.py: every block of the page becomes one
    child of a root `div`, built according to the block's kind. The text of
    paragraphs, headings, quotes and list items goes through
    `text_to_children`; a code block's text does not. The nodes the
    converter appends to are fresh and seen by nobody else, so building a
    node's child list in place is modelled as building the list first. */
module Compiler {
  import opened Wrappers
  import opened Errors
  import opened Strings
  import TextNodes
  import opened InlineMarkup
  import opened HtmlNode
  import opened InlinePipeline
  import opened Blocks
  import opened BlockTypes

  /** `HTMLNode(tag, None, children, {})`, the container every branch builds. */
  function Container(tag: string, children: seq<Node>): Node {
    Generic(Some(tag), None, ChildList(children), Some([]))
  }

  /** The run of leading '#' is the only prefix of '#' that is followed by
      something other than '#'. */
  lemma LeadingHashesUnique(s: string, n: nat)
    requires n <= |s| && (forall j :: 0 <= j < n ==> s[j] == '#') && (n < |s| ==> s[n] != '#')
    ensures n == LeadingHashes(s)
  {
  }

  /** The heading-level loop: counts the '#' the block starts with and stops
      at the first other character. */
  method HeadingLevel(block: string) returns (level: nat)
    ensures level == LeadingHashes(block)
  {
    level := 0;
    for i := 0 to |block|
      invariant level == i && forall j :: 0 <= j < i ==> block[j] == '#'
    {
      if block[i] != '#' {
        break;
      }
      level := level + 1;
    }
    LeadingHashesUnique(block, level);
  }

  /** The text of a code block: its stripped lines, fences included, made
      into code text by FenceContent. */
  function CodeContent(block: string): string {
    FenceContent(Split(Strip(block), '\n'))
  }

  /** The lines without the first and the last (`lines[1:-1]`, nothing for
      fewer than three lines), each left-stripped, joined by line breaks,
      plus a final line break. */
  function FenceContent(lines: seq<string>): string {
    var inner := if |lines| >= 2 then lines[1..|lines| - 1] else [];
    Join(seq(|inner|, i requires 0 <= i < |inner| => LStrip(inner[i])), '\n') + "\n"
  }

  /** `quote_content` after the quote loop has seen `lines`: every line that
      starts with `>` adds its text after the `>`, stripped, and a space. */
  function QuoteAccum(lines: seq<string>): string {
    if lines == [] then ""
    else
      var last := lines[|lines| - 1];
      QuoteAccum(lines[..|lines| - 1]) + (if StartsWith(last, ">") then Strip(last[1..]) + " " else "")
  }

  /** The quote loop over the lines of a block. */
  method QuoteContent(lines: seq<string>) returns (content: string)
    ensures content == QuoteAccum(lines)
  {
    content := "";
    for i := 0 to |lines|
      invariant content == QuoteAccum(lines[..i])
    {
      assert lines[..i + 1][..i] == lines[..i];
      if StartsWith(lines[i], ">") {
        content := content + Strip(lines[i][1..]) + " ";
      }
    }
    assert lines[..|lines|] == lines;
  }

  /** `any(stripped_line.startswith(f"{i}.") for i in range(10))`. */
  predicate DigitDot(t: string) {
    exists d :: 0 <= d < 10 && StartsWith(t, NatToString(d) + ".")
  }

  /** The item test of the ordered-list loop: a non-empty stripped line
      that starts with a single digit and a period is an item, whose text is
      what follows the first period, stripped. */
  function OrderedItem(line: string): Option<string> {
    var t := Strip(line);
    if t != [] && DigitDot(t) then
      match IndexOf(t, ".")
      case Some(p) => Some(Strip(t[p + 1..]))
      case None => None
    else None
  }

  /** The item test of the unordered-list loop: a non-empty stripped line
      that starts with `-`, `*` or `+` is an item, whose text is what follows
      that character, stripped. */
  function UnorderedItem(line: string): Option<string> {
    var t := Strip(line);
    if t != [] && (StartsWith(t, "-") || StartsWith(t, "*") || StartsWith(t, "+")) then Some(Strip(t[1..]))
    else None
  }

  /** The `li` nodes of a list: one per line the item test accepts, in
      order, holding the children of the item's text; the first item whose
      text raises makes the list raise. */
  function ListItems(lines: seq<string>, itemOf: string -> Option<string>,
                     extractImages: Extractor, extractLinks: Extractor): Result<seq<Node>, Error>
  {
    if lines == [] then Ok([])
    else
      match itemOf(lines[0])
      case None => ListItems(lines[1..], itemOf, extractImages, extractLinks)
      case Some(content) =>
        var children :- ChildrenOf(content, extractImages, extractLinks);
        Prepend([Container("li", children)], ListItems(lines[1..], itemOf, extractImages, extractLinks))
  }

  function ListNode(lines: seq<string>, tag: string, itemOf: string -> Option<string>,
                    extractImages: Extractor, extractLinks: Extractor): Result<Node, Error>
  {
    var items :- ListItems(lines, itemOf, extractImages, extractLinks);
    Ok(Container(tag, items))
  }

  /** The list loops: the list node starts empty and gets one `li` appended
      per accepted line. */
  method BuildList(lines: seq<string>, tag: string, itemOf: string -> Option<string>,
                   extractImages: Extractor, extractLinks: Extractor) returns (r: Result<Node, Error>)
    ensures r == ListNode(lines, tag, itemOf, extractImages, extractLinks)
  {
    var items: seq<Node> := [];
    assert lines[0..] == lines;
    PrependNothing(ListItems(lines, itemOf, extractImages, extractLinks));
    for i := 0 to |lines|
      invariant Prepend(items, ListItems(lines[i..], itemOf, extractImages, extractLinks)) ==
                ListItems(lines, itemOf, extractImages, extractLinks)
    {
      assert lines[i..][0] == lines[i] && lines[i..][1..] == lines[i + 1..];
      match itemOf(lines[i]) {
        case None =>
        case Some(content) =>
          var itemChildren :- TextToChildren(content, extractImages, extractLinks);
          var item := Container("li", itemChildren);
          PrependTwice(items, [item], ListItems(lines[i + 1..], itemOf, extractImages, extractLinks));
          items := items + [item];
      }
    }
    assert lines[|lines|..] == [];
    assert items + [] == items;
    r := Ok(Container(tag, items));
  }

  /** The node one block becomes, by the block's kind. */
  function BlockNode(block: string, extractImages: Extractor, extractLinks: Extractor): Result<Node, Error> {
    match BlockToBlockType(block)
    case Paragraph => ParagraphOf(block, extractImages, extractLinks)
    case Heading => HeadingOf(block, extractImages, extractLinks)
    case Code => Ok(CodeOf(block))
    case Quote => QuoteOf(block, extractImages, extractLinks)
    case OrderedList => ListNode(Split(block, '\n'), "ol", OrderedItem, extractImages, extractLinks)
    case UnorderedList => ListNode(Split(block, '\n'), "ul", UnorderedItem, extractImages, extractLinks)
  }

  /** A paragraph: the block stripped, its runs of whitespace collapsed. */
  function ParagraphOf(block: string, extractImages: Extractor, extractLinks: Extractor): Result<Node, Error> {
    var children :- ChildrenOf(CollapseWhitespace(Strip(block)), extractImages, extractLinks);
    Ok(Container("p", children))
  }

  /** A heading: `h` and the number of leading '#', holding the rest of the
      block, stripped. */
  function HeadingOf(block: string, extractImages: Extractor, extractLinks: Extractor): Result<Node, Error> {
    var level := LeadingHashes(block);
    var children :- ChildrenOf(Strip(block[level..]), extractImages, extractLinks);
    Ok(Container("h" + NatToString(level), children))
  }

  /** A code block: a leaf made from one plain span of the code text, inside
      `code`, inside `pre`. */
  function CodeOf(block: string): Node {
    // a plain span never raises
    var leaf := TextNodeToHtmlNode(TextNodes.TextNode(CodeContent(block), TextNodes.Text, None)).value;
    Container("pre", [Container("code", [leaf])])
  }

  /** A quote: the text the quote loop gathers, stripped. */
  function QuoteOf(block: string, extractImages: Extractor, extractLinks: Extractor): Result<Node, Error> {
    var children :- ChildrenOf(Strip(QuoteAccum(Split(block, '\n'))), extractImages, extractLinks);
    Ok(Container("blockquote", children))
  }

  /** The body of the block loop: classify the block, then build its node. */
  method BlockToHtmlNode(block: string, extractImages: Extractor, extractLinks: Extractor)
    returns (r: Result<Node, Error>)
    ensures r == BlockNode(block, extractImages, extractLinks)
  {
    var blockType := BlockToBlockType(block);
    match blockType {
      case Paragraph =>
        var children :- TextToChildren(CollapseWhitespace(Strip(block)), extractImages, extractLinks);
        r := Ok(Container("p", children));
      case Heading =>
        var level := HeadingLevel(block);
        var children :- TextToChildren(Strip(block[level..]), extractImages, extractLinks);
        r := Ok(Container("h" + NatToString(level), children));
      case Code =>
        var leaf := TextNodeToHtmlNode(TextNodes.TextNode(CodeContent(block), TextNodes.Text, None)).value;
        r := Ok(Container("pre", [Container("code", [leaf])]));
      case Quote =>
        var quote := QuoteContent(Split(block, '\n'));
        var children :- TextToChildren(Strip(quote), extractImages, extractLinks);
        r := Ok(Container("blockquote", children));
      case OrderedList =>
        r := BuildList(Split(block, '\n'), "ol", OrderedItem, extractImages, extractLinks);
      case UnorderedList =>
        r := BuildList(Split(block, '\n'), "ul", UnorderedItem, extractImages, extractLinks);
    }
  }

  /** The children of the root: one node per block, in order; the first
      block that raises makes the page raise. */
  function BlockNodes(blocks: seq<string>, extractImages: Extractor, extractLinks: Extractor): Result<seq<Node>, Error> {
    MapAll(blocks, block => BlockNode(block, extractImages, extractLinks))
  }

  /** The fold over the blocks from position `i`: the node of block `i`,
      then the rest, or the error of block `i`. */
  lemma BlockNodesAt(blocks: seq<string>, i: nat, extractImages: Extractor, extractLinks: Extractor)
    requires i < |blocks|
    ensures BlockNode(blocks[i], extractImages, extractLinks).Err? ==>
      BlockNodes(blocks[i..], extractImages, extractLinks) == Err(BlockNode(blocks[i], extractImages, extractLinks).error)
    ensures BlockNode(blocks[i], extractImages, extractLinks).Ok? ==>
      BlockNodes(blocks[i..], extractImages, extractLinks) ==
      Prepend([BlockNode(blocks[i], extractImages, extractLinks).value], BlockNodes(blocks[i + 1..], extractImages, extractLinks))
  {
    MapAllAt(blocks, i, block => BlockNode(block, extractImages, extractLinks));
  }

  function PageOf(markdown: string, extractImages: Extractor, extractLinks: Extractor): Result<Node, Error> {
    var children :- BlockNodes(BlocksOf(markdown), extractImages, extractLinks);
    Ok(Container("div", children))
  }

  /** The block loop: the node of each block appended in turn. */
  method BuildChildren(blocks: seq<string>, extractImages: Extractor, extractLinks: Extractor)
    returns (r: Result<seq<Node>, Error>)
    ensures r == BlockNodes(blocks, extractImages, extractLinks)
  {
    var children: seq<Node> := [];
    assert blocks[0..] == blocks;
    PrependNothing(BlockNodes(blocks, extractImages, extractLinks));
    for i := 0 to |blocks|
      invariant Prepend(children, BlockNodes(blocks[i..], extractImages, extractLinks)) ==
                BlockNodes(blocks, extractImages, extractLinks)
    {
      BlockNodesAt(blocks, i, extractImages, extractLinks);
      var node :- BlockToHtmlNode(blocks[i], extractImages, extractLinks);
      PrependTwice(children, [node], BlockNodes(blocks[i + 1..], extractImages, extractLinks));
      children := children + [node];
    }
    assert blocks[|blocks|..] == [];
    assert children + [] == children;
    r := Ok(children);
  }

  /** `markdown_to_html_node(markdown)`: the blocks of the page, then a root
      `div` holding the node of each. */
  method MarkdownToHtmlNode(markdown: string, extractImages: Extractor, extractLinks: Extractor)
    returns (r: Result<Node, Error>)
    ensures r == PageOf(markdown, extractImages, extractLinks)
  {
    var blocks := MarkdownToBlocks(markdown);
    var children :- BuildChildren(blocks, extractImages, extractLinks);
    r := Ok(Container("div", children));
  }
}
