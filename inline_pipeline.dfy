/** The inline half of utils.py: `text_to_textnodes`, which runs the five
    splitters over a block's text, `text_node_to_html_node`, which turns a
    span into a leaf node, and `text_to_children`, which does both. */
module InlinePipeline {
  import opened Wrappers
  import opened Errors
  import opened Strings
  import opened TextNodes
  import opened InlineDelimiter
  import opened InlineMarkup
  import opened HtmlNode
  import opened LeafNode

  /** `text_node_to_html_node`: a plain span becomes an untagged leaf, a
      styled span a leaf tagged `b`, `i` or `code`, a link an `a` leaf with an
      `href`, an image an `img` leaf with empty value and `src` then `alt`. A
      link or image without url raises. */
  function TextNodeToHtmlNode(n: TextNode): (r: Result<Node, Error>)
    ensures r.Err? <==> (n.textType == Link || n.textType == Image) && n.url.None?
    ensures r.Err? ==> r.error == MissingUrl
    ensures r.Ok? ==> r.value.Leaf? && r.value.ValueField().Some?
  {
    match n.textType
    case Text => Ok(NewLeaf(None, Some(n.text), None))
    case Bold => Ok(NewLeaf(Some("b"), Some(n.text), None))
    case Italic => Ok(NewLeaf(Some("i"), Some(n.text), None))
    case Code => Ok(NewLeaf(Some("code"), Some(n.text), None))
    case Link =>
      if n.url.None? then Err(MissingUrl)
      else Ok(NewLeaf(Some("a"), Some(n.text), Some([("href", n.url.value)])))
    case Image =>
      if n.url.None? then Err(MissingUrl)
      else Ok(NewLeaf(Some("img"), Some(""), Some([("src", n.url.value), ("alt", n.text)])))
  }

  /** An element written out: open tag with its attributes, content, close tag. */
  function Element(tag: string, attributes: string, content: string): string {
    "<" + tag + attributes + ">" + content + "</" + tag + ">"
  }

  /** The HTML a span is meant to become: its text as it is, or wrapped in
      the element of its style; a link's url as `href`, an image's url and
      text as `src` and `alt` around no content. */
  function SpanHtml(n: TextNode): string {
    match n.textType
    case Text => n.text
    case Bold => Element("b", "", n.text)
    case Italic => Element("i", "", n.text)
    case Code => Element("code", "", n.text)
    case Link => Element("a", Attribute(("href", n.url.GetOr(""))), n.text)
    case Image => Element("img", Attribute(("src", n.url.GetOr(""))) + Attribute(("alt", n.text)), "")
  }

  /** The leaf a span becomes renders as the HTML the span stands for. */
  lemma TextNodeRendersAsHtml(n: TextNode)
    requires TextNodeToHtmlNode(n).Ok?
    ensures Render(TextNodeToHtmlNode(n).value) == Ok(SpanHtml(n))
  {
    match n.textType
    case Text =>
      LeafRendersValue(None, n.text, None);
    case Bold =>
      StyledLeafRenders("b", n.text);
    case Italic =>
      StyledLeafRenders("i", n.text);
    case Code =>
      StyledLeafRenders("code", n.text);
    case Link =>
      var u := n.url.value;
      LeafRendersValue(Some("a"), n.text, Some([("href", u)]));
      PropsToHtmlCases("href", u);
    case Image =>
      var u := n.url.value;
      var props := [("src", u), ("alt", n.text)];
      LeafRendersValue(Some("img"), "", Some(props));
      assert props[..1] == [("src", u)] && [("src", u)][..0] == [];
      assert Attributes([("src", u)]) == "" + Attribute(("src", u)) == Attribute(("src", u));
      assert PropsToHtml(Some(props)) == Attributes([("src", u)]) + Attribute(("alt", n.text));
  }

  lemma StyledLeafRenders(tag: string, text: string)
    ensures Render(Leaf(Some(tag), Some(text), None)) == Ok(Element(tag, "", text))
  {
    LeafRendersValue(Some(tag), text, None);
    assert "<" + tag + "" == "<" + tag;
  }

  /** The loop of `text_to_children` as a value: every span converted, in
      order; the first span that raises makes the whole call raise. */
  function ToHtmlNodes(spans: seq<TextNode>): (r: Result<seq<Node>, Error>)
    ensures r.Ok? <==> UrlsPresent(spans)
    ensures r.Ok? ==> |r.value| == |spans| &&
                      forall i :: 0 <= i < |spans| ==> r.value[i] == TextNodeToHtmlNode(spans[i]).value
    ensures r.Err? ==> r.error == MissingUrl
    decreases |spans|
  {
    if spans == [] then Ok([])
    else
      UrlsPresentCons(spans);
      match TextNodeToHtmlNode(spans[0])
      case Err(e) => Err(e)
      case Ok(h) => Prepend([h], ToHtmlNodes(spans[1..]))
  }

  lemma UrlsPresentCons(spans: seq<TextNode>)
    requires spans != []
    ensures UrlsPresent(spans) <==> TextNodeToHtmlNode(spans[0]).Ok? && UrlsPresent(spans[1..])
  {
    assert forall i :: 0 <= i < |spans[1..]| ==> spans[1..][i] == spans[i + 1];
    if !UrlsPresent(spans) {
      var i :| 0 <= i < |spans| && (spans[i].textType == Link || spans[i].textType == Image) && spans[i].url.None?;
      if i > 0 {
        assert spans[1..][i - 1] == spans[i];
      }
    }
  }

  /** The HTML of a list of spans, concatenated in order. */
  function SpansHtml(spans: seq<TextNode>): string {
    if spans == [] then "" else SpanHtml(spans[0]) + SpansHtml(spans[1..])
  }

  /** The converted spans, rendered in order, give the HTML of the spans. */
  lemma {:induction false} ToHtmlNodesRender(spans: seq<TextNode>)
    requires UrlsPresent(spans)
    ensures RenderAll(ToHtmlNodes(spans).value) == Ok(SpansHtml(spans))
    decreases |spans|
  {
    if spans != [] {
      UrlsPresentCons(spans);
      ToHtmlNodesRender(spans[1..]);
      ToHtmlNodesRenderStep(spans);
    }
  }

  lemma ToHtmlNodesRenderStep(spans: seq<TextNode>)
    requires spans != [] && UrlsPresent(spans) && UrlsPresent(spans[1..])
    requires RenderAll(ToHtmlNodes(spans[1..]).value) == Ok(SpansHtml(spans[1..]))
    ensures RenderAll(ToHtmlNodes(spans).value) == Ok(SpansHtml(spans))
  {
    var h := TextNodeToHtmlNode(spans[0]).value;
    var t := ToHtmlNodes(spans[1..]).value;
    assert ToHtmlNodes(spans).value == [h] + t;
    TextNodeRendersAsHtml(spans[0]);
    RenderAllSingle(h);
    RenderAllAppend([h], t);
  }

  /** The three delimiter stages of `text_to_textnodes`, on the block's text
      as one plain span: bold `**`, then italic `_`, then code `` ` ``. */
  function DelimitedSpans(text: string): Result<seq<TextNode>, Error> {
    var bold :- SplitDelimiter([TextNode(text, Text, None)], "**", Bold);
    var italic :- SplitDelimiter(bold, "_", Italic);
    SplitDelimiter(italic, "`", Code)
  }

  /** `text_to_textnodes` as a value: the delimiter stages, then images, then
      links, each stage on the spans of the one before. */
  function TextNodesOf(text: string, extractImages: Extractor, extractLinks: Extractor): Result<seq<TextNode>, Error> {
    var code :- DelimitedSpans(text);
    var images :- SplitAll(code, Image, extractImages);
    SplitAll(images, Link, extractLinks)
  }

  /** `text_to_textnodes(text)`, with the two extractors as parameters. */
  method TextToTextNodes(text: string, extractImages: Extractor, extractLinks: Extractor)
    returns (r: Result<seq<TextNode>, Error>)
    ensures r == TextNodesOf(text, extractImages, extractLinks)
  {
    var nodes := [TextNode(text, Text, None)];
    var boldSplit :- SplitNodesDelimiter(nodes, "**", Bold);
    var italicSplit :- SplitNodesDelimiter(boldSplit, "_", Italic);
    var codeSplit :- SplitNodesDelimiter(italicSplit, "`", Code);
    var imageSplit :- SplitNodesImage(codeSplit, extractImages);
    r := SplitNodesLink(imageSplit, extractLinks);
  }

  /** `text_to_children` as a value. */
  function ChildrenOf(block: string, extractImages: Extractor, extractLinks: Extractor): Result<seq<Node>, Error> {
    var spans :- TextNodesOf(block, extractImages, extractLinks);
    ToHtmlNodes(spans)
  }

  /** `text_to_children(block)`: the spans of the block, each converted in turn. */
  method TextToChildren(block: string, extractImages: Extractor, extractLinks: Extractor)
    returns (r: Result<seq<Node>, Error>)
    ensures r == ChildrenOf(block, extractImages, extractLinks)
  {
    var textNodes :- TextToTextNodes(block, extractImages, extractLinks);
    var htmlNodes: seq<Node> := [];
    assert textNodes[0..] == textNodes;
    PrependNothing(ToHtmlNodes(textNodes));
    for i := 0 to |textNodes|
      invariant Prepend(htmlNodes, ToHtmlNodes(textNodes[i..])) == ToHtmlNodes(textNodes)
    {
      assert textNodes[i..][0] == textNodes[i] && textNodes[i..][1..] == textNodes[i + 1..];
      var htmlNode :- TextNodeToHtmlNode(textNodes[i]);
      PrependTwice(htmlNodes, [htmlNode], ToHtmlNodes(textNodes[i + 1..]));
      htmlNodes := htmlNodes + [htmlNode];
    }
    assert textNodes[|textNodes|..] == [];
    assert htmlNodes + [] == htmlNodes;
    r := Ok(htmlNodes);
  }

  /** Every link and image span the pipeline yields carries its url. */
  lemma TextNodesKeepUrls(text: string, extractImages: Extractor, extractLinks: Extractor)
    requires TextNodesOf(text, extractImages, extractLinks).Ok?
    ensures UrlsPresent(TextNodesOf(text, extractImages, extractLinks).value)
  {
    var start := [TextNode(text, Text, None)];
    var bold := SplitDelimiter(start, "**", Bold).value;
    var italic := SplitDelimiter(bold, "_", Italic).value;
    var code := SplitDelimiter(italic, "`", Code).value;
    var images := SplitAll(code, Image, extractImages).value;
    SplitDelimiterKeepsUrls(start, "**", Bold);
    SplitDelimiterKeepsUrls(bold, "_", Italic);
    SplitDelimiterKeepsUrls(italic, "`", Code);
    SplitAllKeepsUrls(code, Image, extractImages);
    SplitAllKeepsUrls(images, Link, extractLinks);
  }

  /** `text_to_children` raises only where `text_to_textnodes` does; when it
      does not, the children render as the HTML of the spans, in order. */
  lemma ChildrenRenderSpans(block: string, extractImages: Extractor, extractLinks: Extractor)
    ensures ChildrenOf(block, extractImages, extractLinks).Ok? <==> TextNodesOf(block, extractImages, extractLinks).Ok?
    ensures ChildrenOf(block, extractImages, extractLinks).Ok? ==>
      RenderAll(ChildrenOf(block, extractImages, extractLinks).value) ==
      Ok(SpansHtml(TextNodesOf(block, extractImages, extractLinks).value))
  {
    if TextNodesOf(block, extractImages, extractLinks).Ok? {
      TextNodesKeepUrls(block, extractImages, extractLinks);
      ToHtmlNodesRender(TextNodesOf(block, extractImages, extractLinks).value);
    }
  }

  /** The pipeline raises only for an unterminated `**`, `_` or `` ` ``, or
      for a marker the text does not hold. */
  lemma TextNodesErrors(text: string, extractImages: Extractor, extractLinks: Extractor)
    requires TextNodesOf(text, extractImages, extractLinks).Err?
    ensures var e := TextNodesOf(text, extractImages, extractLinks).error;
      e == UnterminatedDelimiter("**") || e == UnterminatedDelimiter("_") ||
      e == UnterminatedDelimiter("`") || e.MissingMarker?
  {
    var start := [TextNode(text, Text, None)];
    SplitDelimiterErrorNamesDelimiter(start, "**", Bold);
    if SplitDelimiter(start, "**", Bold).Ok? {
      var bold := SplitDelimiter(start, "**", Bold).value;
      SplitDelimiterErrorNamesDelimiter(bold, "_", Italic);
      if SplitDelimiter(bold, "_", Italic).Ok? {
        SplitDelimiterErrorNamesDelimiter(SplitDelimiter(bold, "_", Italic).value, "`", Code);
        if DelimitedSpans(text).Ok? {
          var code := DelimitedSpans(text).value;
          SplitAllErrorIsMissingMarker(code, Image, extractImages);
          if SplitAll(code, Image, extractImages).Ok? {
            SplitAllErrorIsMissingMarker(SplitAll(code, Image, extractImages).value, Link, extractLinks);
          }
        }
      }
    }
  }

  /** An odd number of `**` in the text, and nothing else, makes the pipeline
      raise for an unterminated `**`. */
  lemma UnbalancedBoldFails(text: string, extractImages: Extractor, extractLinks: Extractor)
    ensures CountFrom(text, "**", 0) % 2 == 1 <==>
      TextNodesOf(text, extractImages, extractLinks) == Err(UnterminatedDelimiter("**"))
  {
    var start := [TextNode(text, Text, None)];
    SplitDelimiterFailsIffOdd(start, "**", Bold);
    SplitDelimiterErrorNamesDelimiter(start, "**", Bold);
    if SplitDelimiter(start, "**", Bold).Ok? {
      var bold := SplitDelimiter(start, "**", Bold).value;
      SplitDelimiterErrorNamesDelimiter(bold, "_", Italic);
      if SplitDelimiter(bold, "_", Italic).Ok? {
        SplitDelimiterErrorNamesDelimiter(SplitDelimiter(bold, "_", Italic).value, "`", Code);
        if DelimitedSpans(text).Ok? {
          var code := DelimitedSpans(text).value;
          SplitAllErrorIsMissingMarker(code, Image, extractImages);
          if SplitAll(code, Image, extractImages).Ok? {
            SplitAllErrorIsMissingMarker(SplitAll(code, Image, extractImages).value, Link, extractLinks);
          }
        }
      }
    }
  }

  /** A text without delimiters in which the extractors find nothing comes
      out as one plain span, even when empty. */
  lemma PlainTextPassesThrough(text: string, extractImages: Extractor, extractLinks: Extractor)
    requires !Contains(text, "**") && !Contains(text, "_") && !Contains(text, "`")
    requires extractImages(text) == [] && extractLinks(text) == []
    ensures TextNodesOf(text, extractImages, extractLinks) == Ok([TextNode(text, Text, None)])
  {
    var start := [TextNode(text, Text, None)];
    IndexOfIsFirst(text, "**");
    IndexOfIsFirst(text, "_");
    IndexOfIsFirst(text, "`");
    assert start[1..] == [] && start + [] == start;
    assert SplitDelimiter(start, "**", Bold) == Ok(start);
    assert SplitDelimiter(start, "_", Italic) == Ok(start);
    assert SplitDelimiter(start, "`", Code) == Ok(start);
    assert SplitAll(start, Image, extractImages) == Ok(start);
    assert SplitAll(start, Link, extractLinks) == Ok(start);
  }

  /** The delimiter stages keep the Markdown source of the text. */
  lemma DelimitedSpansKeepMarkdown(text: string)
    requires DelimitedSpans(text).Ok?
    ensures MarkdownOf(DelimitedSpans(text).value) == text
  {
    var start := [TextNode(text, Text, None)];
    var bold := SplitDelimiter(start, "**", Bold).value;
    var italic := SplitDelimiter(bold, "_", Italic).value;
    MarkdownOfSingle(TextNode(text, Text, None));
    SplitDelimiterKeepsMarkdown(start, Bold);
    SplitDelimiterKeepsMarkdown(bold, Italic);
    SplitDelimiterKeepsMarkdown(italic, Code);
  }

  /** When the extractors report markers only in plain spans, the spans of
      the pipeline stand for exactly the text they came from. */
  lemma TextNodesKeepMarkdown(text: string, extractImages: Extractor, extractLinks: Extractor)
    requires TextNodesOf(text, extractImages, extractLinks).Ok?
    requires MarkersOnlyInPlain(DelimitedSpans(text).value, extractImages)
    requires MarkersOnlyInPlain(SplitAll(DelimitedSpans(text).value, Image, extractImages).value, extractLinks)
    ensures MarkdownOf(TextNodesOf(text, extractImages, extractLinks).value) == text
  {
    var code := DelimitedSpans(text).value;
    DelimitedSpansKeepMarkdown(text);
    SplitAllKeepsMarkdown(code, Image, extractImages);
    SplitAllKeepsMarkdown(SplitAll(code, Image, extractImages).value, Link, extractLinks);
  }
}
