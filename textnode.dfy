/** The inline span type the pipeline passes between its stages. textnode.py
    is not part of this model; what the pipeline and its tests rely on is a
    record of text, span kind and optional url, compared field by field,
    which is what a Dafny datatype is. */
module TextNodes {
  import opened Wrappers

  /** `TextType`: plain text and the five inline styles. */
  datatype TextType = Text | Bold | Italic | Code | Link | Image

  /** `TextNode(text, text_type, url=None)`. */
  datatype TextNode = TextNode(text: string, textType: TextType, url: Option<string>)

  /** The plain span a splitter emits for a piece of text, or nothing when
      the piece is empty (`if split[0] != "":` and `if before_text:`). */
  function PlainSpans(s: string): (r: seq<TextNode>)
    ensures |r| <= 1
    ensures r != [] <==> s != []
    ensures r != [] ==> r[0] == TextNode(s, Text, None)
  {
    if s != [] then [TextNode(s, Text, None)] else []
  }

  /** `f"![{alt}]({url})"`, the marker split_nodes_image cuts out. */
  function ImageMarkup(alt: string, url: string): string {
    "![" + alt + "](" + url + ")"
  }

  /** `f"[{anchor}]({url})"`, the marker split_nodes_link cuts out. */
  function LinkMarkup(anchor: string, url: string): string {
    "[" + anchor + "](" + url + ")"
  }

  /** The delimiter text_to_textnodes pairs with each delimited style. */
  function DelimiterOf(t: TextType): string
    requires t == Bold || t == Italic || t == Code
  {
    match t
    case Bold => "**"
    case Italic => "_"
    case Code => "`"
  }

  /** The Markdown source a span stands for: its text in the markup of its kind.
      The inline stages are proved to keep this text unchanged. */
  function Markdown(n: TextNode): string {
    match n.textType
    case Text => n.text
    case Bold => "**" + n.text + "**"
    case Italic => "_" + n.text + "_"
    case Code => "`" + n.text + "`"
    case Link => LinkMarkup(n.text, n.url.GetOr(""))
    case Image => ImageMarkup(n.text, n.url.GetOr(""))
  }

  /** The Markdown of a list of spans, concatenated in order. */
  function MarkdownOf(ns: seq<TextNode>): string {
    if ns == [] then "" else Markdown(ns[0]) + MarkdownOf(ns[1..])
  }

  /** Plain spans stand for their own text. */
  lemma PlainSpansMarkdown(s: string)
    ensures MarkdownOf(PlainSpans(s)) == s
  {
    if s != [] {
      assert MarkdownOf(PlainSpans(s)) == s + "";
    }
  }

  lemma MarkdownOfSingle(n: TextNode)
    ensures MarkdownOf([n]) == Markdown(n)
  {
    assert MarkdownOf([n]) == Markdown(n) + "";
  }

  /** Every link and image span carries a url: the spans
      `text_node_to_html_node` converts without raising. */
  predicate UrlsPresent(spans: seq<TextNode>) {
    forall i :: 0 <= i < |spans| && (spans[i].textType == Link || spans[i].textType == Image) ==> spans[i].url.Some?
  }

  lemma UrlsPresentAppend(a: seq<TextNode>, b: seq<TextNode>)
    requires UrlsPresent(a) && UrlsPresent(b)
    ensures UrlsPresent(a + b)
  {
    forall i | 0 <= i < |a + b|
      ensures (a + b)[i] == if i < |a| then a[i] else b[i - |a|]
    {
    }
  }

  lemma {:induction false} MarkdownOfAppend(a: seq<TextNode>, b: seq<TextNode>)
    ensures MarkdownOf(a + b) == MarkdownOf(a) + MarkdownOf(b)
    decreases |a|
  {
    if a == [] {
      assert a + b == b;
    } else {
      MarkdownOfAppend(a[1..], b);
      ConsAppend(a, b);
      var first := Markdown(a[0]);
      ConcatGlue(MarkdownOf(a + b), first, MarkdownOf(a[1..] + b), MarkdownOf(a), MarkdownOf(a[1..]), MarkdownOf(b));
    }
  }
}
