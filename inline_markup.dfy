/** The image and link splitters of utils.py, `split_nodes_image` and
    `split_nodes_link`: every node whose text the extractor reports markers
    in is cut at those markers, whatever the node's own type; a node in which
    it reports none passes through unchanged. */
module InlineMarkup {
  import opened Wrappers
  import opened Errors
  import opened Strings
  import opened TextNodes

  /** `extract_markdown_images` or `extract_markdown_links`: the (label, url)
      pairs found in a text, in the order found. extract.py is not part of
      this model, so the extractor is a parameter of the splitters. */
  type Extractor = string -> seq<(string, string)>

  /** The two span kinds these splitters emit. */
  predicate IsMarkupKind(kind: TextType) {
    kind == Image || kind == Link
  }

  /** The marker cut out for a pair: `![alt](url)` or `[anchor](url)`. */
  function Marker(kind: TextType, pair: (string, string)): (m: string)
    requires IsMarkupKind(kind)
    ensures m != []
    ensures m == Markdown(TextNode(pair.0, kind, Some(pair.1)))
  {
    if kind == Image then ImageMarkup(pair.0, pair.1) else LinkMarkup(pair.0, pair.1)
  }

  /** The inner loop of the splitters over one node's pairs, starting from
      the text still to cut: for each pair, the text before its marker (when
      not empty) as a plain span, then the pair as a span of `kind`; after the
      last pair, what is left (when not empty) as a plain span. A marker the
      remaining text does not hold makes `split(marker, 1)[1]` raise. */
  function SplitPairs(text: string, kind: TextType, pairs: seq<(string, string)>): Result<seq<TextNode>, Error>
    requires IsMarkupKind(kind)
    decreases |pairs|
  {
    if pairs == [] then Ok(PlainSpans(text))
    else
      var parts := SplitOnce(text, Marker(kind, pairs[0]));
      if |parts| == 1 then Err(MissingMarker(Marker(kind, pairs[0])))
      else Prepend(CutSpans(parts[0], kind, pairs[0]), SplitPairs(parts[1], kind, pairs[1..]))
  }

  /** What the splitters make of one node: the node itself when the
      extractor reports nothing in its text, otherwise the cut text. */
  function SplitNode(node: TextNode, kind: TextType, extract: Extractor): Result<seq<TextNode>, Error>
    requires IsMarkupKind(kind)
  {
    var pairs := extract(node.text);
    if pairs == [] then Ok([node]) else SplitPairs(node.text, kind, pairs)
  }

  /** The splitters as a value: every node cut in turn, the pieces in node
      order; the first node that raises makes the whole call raise. */
  function SplitAll(nodes: seq<TextNode>, kind: TextType, extract: Extractor): Result<seq<TextNode>, Error>
    requires IsMarkupKind(kind)
    decreases |nodes|
  {
    if nodes == [] then Ok([])
    else Chain(SplitNode(nodes[0], kind, extract), SplitAll(nodes[1..], kind, extract))
  }

  /** The spans one cut appends: the text before the marker (when not
      empty) as a plain span, then the pair as a span of `kind`. */
  function CutSpans(before: string, kind: TextType, pair: (string, string)): seq<TextNode> {
    PlainSpans(before) + [TextNode(pair.0, kind, Some(pair.1))]
  }

  /** One step of the inner loop: with the marker of `pairs[0]` present, the
      spans still to come are those of the cut, then those of the rest. */
  lemma SplitPairsStep(spans: seq<TextNode>, text: string, kind: TextType, pairs: seq<(string, string)>)
    requires IsMarkupKind(kind) && pairs != []
    requires |SplitOnce(text, Marker(kind, pairs[0]))| == 2
    ensures Prepend(spans, SplitPairs(text, kind, pairs)) ==
      Prepend(spans + CutSpans(SplitOnce(text, Marker(kind, pairs[0]))[0], kind, pairs[0]),
              SplitPairs(SplitOnce(text, Marker(kind, pairs[0]))[1], kind, pairs[1..]))
  {
    var parts := SplitOnce(text, Marker(kind, pairs[0]));
    PrependTwice(spans, CutSpans(parts[0], kind, pairs[0]), SplitPairs(parts[1], kind, pairs[1..]));
  }

  lemma AppendPlain(spans: seq<TextNode>, s: string)
    ensures (if s != "" then spans + [TextNode(s, Text, None)] else spans) == spans + PlainSpans(s)
  {
    if s == "" {
      assert spans + [] == spans;
    }
  }

  lemma AppendCut(spans: seq<TextNode>, before: string, kind: TextType, pair: (string, string))
    ensures (if before != "" then spans + [TextNode(before, Text, None)] else spans) + [TextNode(pair.0, kind, Some(pair.1))] ==
      spans + CutSpans(before, kind, pair)
  {
    AppendPlain(spans, before);
  }

  /** The inner loop of the splitters: cut one node's text at the markers
      of its pairs, in order, advancing `curr_text` past each marker. */
  method SplitText(text: string, kind: TextType, pairs: seq<(string, string)>)
    returns (r: Result<seq<TextNode>, Error>)
    requires IsMarkupKind(kind)
    ensures r == SplitPairs(text, kind, pairs)
  {
    var spans: seq<TextNode> := [];
    var currText := text;
    assert pairs[0..] == pairs;
    PrependNothing(SplitPairs(text, kind, pairs));
    for j := 0 to |pairs|
      invariant Prepend(spans, SplitPairs(currText, kind, pairs[j..])) == SplitPairs(text, kind, pairs)
    {
      var pair := pairs[j];
      assert pairs[j..][0] == pair && pairs[j..][1..] == pairs[j + 1..];
      var marker := Marker(kind, pair);
      var split := SplitOnce(currText, marker);
      if |split| == 1 {
        return Err(MissingMarker(marker));
      }
      SplitPairsStep(spans, currText, kind, pairs[j..]);
      AppendCut(spans, split[0], kind, pair);
      if split[0] != "" {
        spans := spans + [TextNode(split[0], Text, None)];
      }
      spans := spans + [TextNode(pair.0, kind, Some(pair.1))];
      currText := split[1];
    }
    assert pairs[|pairs|..] == [];
    AppendPlain(spans, currText);
    if currText != "" {
      spans := spans + [TextNode(currText, Text, None)];
    }
    r := Ok(spans);
  }

  /** The outer loop shared by `split_nodes_image` and `split_nodes_link`,
      which differ only in the marker and the span kind: a node with pairs is
      cut, any other node is kept as it is. */
  method SplitNodesMarkup(oldNodes: seq<TextNode>, kind: TextType, extract: Extractor)
    returns (r: Result<seq<TextNode>, Error>)
    requires IsMarkupKind(kind)
    ensures r == SplitAll(oldNodes, kind, extract)
  {
    var result: seq<TextNode> := [];
    assert oldNodes[0..] == oldNodes;
    PrependNothing(SplitAll(oldNodes, kind, extract));
    for i := 0 to |oldNodes|
      invariant Prepend(result, SplitAll(oldNodes[i..], kind, extract)) == SplitAll(oldNodes, kind, extract)
    {
      var node := oldNodes[i];
      assert oldNodes[i..][0] == node && oldNodes[i..][1..] == oldNodes[i + 1..];
      var pairs := extract(node.text);
      if |pairs| > 0 {
        var cut := SplitText(node.text, kind, pairs);
        if cut.Err? {
          return Err(cut.error);
        }
        PrependTwice(result, cut.value, SplitAll(oldNodes[i + 1..], kind, extract));
        result := result + cut.value;
      } else {
        PrependTwice(result, [node], SplitAll(oldNodes[i + 1..], kind, extract));
        result := result + [node];
      }
    }
    assert oldNodes[|oldNodes|..] == [];
    assert result + [] == result;
    r := Ok(result);
  }

  /** `split_nodes_image(old_nodes)`, with `extract_markdown_images` as `extract`. */
  method SplitNodesImage(oldNodes: seq<TextNode>, extract: Extractor) returns (r: Result<seq<TextNode>, Error>)
    ensures r == SplitAll(oldNodes, Image, extract)
  {
    r := SplitNodesMarkup(oldNodes, Image, extract);
  }

  /** `split_nodes_link(old_nodes)`, with `extract_markdown_links` as `extract`. */
  method SplitNodesLink(oldNodes: seq<TextNode>, extract: Extractor) returns (r: Result<seq<TextNode>, Error>)
    ensures r == SplitAll(oldNodes, Link, extract)
  {
    r := SplitNodesMarkup(oldNodes, Link, extract);
  }
  /** Each marker occurs in the text left after cutting out the ones before
      it, which is what the extractor is expected to guarantee. */
  predicate MarkersInOrder(text: string, kind: TextType, pairs: seq<(string, string)>)
    requires IsMarkupKind(kind)
    decreases |pairs|
  {
    pairs == [] ||
      (Contains(text, Marker(kind, pairs[0])) &&
       MarkersInOrder(SplitOnce(text, Marker(kind, pairs[0]))[1], kind, pairs[1..]))
  }

  /** The pairs a list of spans carries: label and url of every span of
      `kind`, in order. */
  function Labels(spans: seq<TextNode>, kind: TextType): seq<(string, string)> {
    if spans == [] then []
    else LabelOf(spans[0], kind) + Labels(spans[1..], kind)
  }

  function LabelOf(span: TextNode, kind: TextType): seq<(string, string)> {
    if span.textType == kind then [(span.text, span.url.GetOr(""))] else []
  }

  lemma {:induction false} LabelsAppend(a: seq<TextNode>, b: seq<TextNode>, kind: TextType)
    ensures Labels(a + b, kind) == Labels(a, kind) + Labels(b, kind)
    decreases |a|
  {
    if a == [] {
      assert a + b == b;
    } else {
      LabelsAppend(a[1..], b, kind);
      LabelsAppendStep(a, b, kind);
    }
  }

  lemma LabelsAppendStep(a: seq<TextNode>, b: seq<TextNode>, kind: TextType)
    requires a != []
    requires Labels(a[1..] + b, kind) == Labels(a[1..], kind) + Labels(b, kind)
    ensures Labels(a + b, kind) == Labels(a, kind) + Labels(b, kind)
  {
    ConsAppend(a, b);
    ConcatGlue(Labels(a + b, kind), LabelOf(a[0], kind), Labels(a[1..] + b, kind),
               Labels(a, kind), Labels(a[1..], kind), Labels(b, kind));
  }

  /** Every span a cut yields is a non-empty plain span without url, or a
      span of `kind` with a url. */
  predicate MarkupSpans(spans: seq<TextNode>, kind: TextType) {
    forall i :: 0 <= i < |spans| ==>
      (spans[i].textType == Text && spans[i].text != [] && spans[i].url == None) ||
      (spans[i].textType == kind && spans[i].url.Some?)
  }

  /** Cutting succeeds exactly when the markers occur in order; otherwise the
      error names a missing marker. */
  lemma {:induction false} SplitPairsOkIffInOrder(text: string, kind: TextType, pairs: seq<(string, string)>)
    requires IsMarkupKind(kind)
    ensures SplitPairs(text, kind, pairs).Ok? <==> MarkersInOrder(text, kind, pairs)
    ensures SplitPairs(text, kind, pairs).Err? ==>
      exists p :: p in pairs && SplitPairs(text, kind, pairs).error == MissingMarker(Marker(kind, p))
    decreases |pairs|
  {
    if pairs != [] {
      var parts := SplitOnce(text, Marker(kind, pairs[0]));
      if |parts| == 2 {
        SplitPairsOkIffInOrder(parts[1], kind, pairs[1..]);
        if SplitPairs(text, kind, pairs).Err? {
          var p :| p in pairs[1..] && SplitPairs(parts[1], kind, pairs[1..]).error == MissingMarker(Marker(kind, p));
          assert p in pairs;
        }
      } else {
        assert pairs[0] in pairs;
      }
    }
  }

  /** The spans of one cut followed by the rest: re-joined with their
      markers, they give the text before the marker, the marker and what the
      rest re-joins to. */
  lemma MarkdownAtMarker(before: string, pair: (string, string), kind: TextType, tail: seq<TextNode>)
    requires IsMarkupKind(kind)
    ensures MarkdownOf(PlainSpans(before) + [TextNode(pair.0, kind, Some(pair.1))] + tail) ==
      before + Marker(kind, pair) + MarkdownOf(tail)
  {
    var span := TextNode(pair.0, kind, Some(pair.1));
    var m := Marker(kind, pair);
    PlainSpansMarkdown(before);
    MarkdownOfSingle(span);
    MarkdownOfAppend(PlainSpans(before), [span]);
    MarkdownOfAppend(PlainSpans(before) + [span], tail);
    assert MarkdownOf(PlainSpans(before) + [span]) == before + m;
  }

  /** Round trip: re-joining the pieces with their markers, in order,
      reproduces the text that was cut. */
  lemma {:induction false} SplitPairsRoundTrip(text: string, kind: TextType, pairs: seq<(string, string)>)
    requires IsMarkupKind(kind)
    requires SplitPairs(text, kind, pairs).Ok?
    ensures MarkdownOf(SplitPairs(text, kind, pairs).value) == text
    decreases |pairs|
  {
    if pairs == [] {
      PlainSpansMarkdown(text);
    } else {
      var parts := SplitOnce(text, Marker(kind, pairs[0]));
      SplitOnceCut(text, Marker(kind, pairs[0]));
      SplitPairsRoundTrip(parts[1], kind, pairs[1..]);
      MarkdownAtMarker(parts[0], pairs[0], kind, SplitPairs(parts[1], kind, pairs[1..]).value);
    }
  }

  lemma MarkupSpansAtMarker(before: string, pair: (string, string), kind: TextType, tail: seq<TextNode>)
    requires IsMarkupKind(kind) && MarkupSpans(tail, kind)
    ensures MarkupSpans(PlainSpans(before) + [TextNode(pair.0, kind, Some(pair.1))] + tail, kind)
    ensures Labels(PlainSpans(before) + [TextNode(pair.0, kind, Some(pair.1))] + tail, kind) == [pair] + Labels(tail, kind)
  {
    var span := TextNode(pair.0, kind, Some(pair.1));
    LabelsAppend(PlainSpans(before), [span], kind);
    LabelsAppend(PlainSpans(before) + [span], tail, kind);
    assert Labels([span], kind) == [pair] + [];
    if before != [] {
      assert Labels(PlainSpans(before), kind) == [] + [];
    }
  }

  /** The shape of a cut: non-empty plain spans and spans of `kind`, the
      latter carrying exactly the extracted pairs, in order. */
  lemma {:induction false} SplitPairsShape(text: string, kind: TextType, pairs: seq<(string, string)>)
    requires IsMarkupKind(kind)
    requires SplitPairs(text, kind, pairs).Ok?
    ensures MarkupSpans(SplitPairs(text, kind, pairs).value, kind)
    ensures Labels(SplitPairs(text, kind, pairs).value, kind) == pairs
    decreases |pairs|
  {
    if pairs == [] {
      if text != [] {
        assert Labels(PlainSpans(text), kind) == [] + [];
      }
    } else {
      var parts := SplitOnce(text, Marker(kind, pairs[0]));
      SplitPairsShape(parts[1], kind, pairs[1..]);
      MarkupSpansAtMarker(parts[0], pairs[0], kind, SplitPairs(parts[1], kind, pairs[1..]).value);
      assert [pairs[0]] + pairs[1..] == pairs;
    }
  }

  /** Nodes in whose text the extractor reports nothing come out unchanged,
      whatever their type. */
  lemma {:induction false} SplitAllPassesThrough(nodes: seq<TextNode>, kind: TextType, extract: Extractor)
    requires IsMarkupKind(kind)
    requires forall i :: 0 <= i < |nodes| ==> extract(nodes[i].text) == []
    ensures SplitAll(nodes, kind, extract) == Ok(nodes)
    decreases |nodes|
  {
    if nodes != [] {
      SplitAllPassesThrough(nodes[1..], kind, extract);
      assert [nodes[0]] + nodes[1..] == nodes;
    }
  }

  /** Node order is kept: cutting `a + b` cuts `a`, then `b`; the first
      error, from `a` before `b`, wins. */
  lemma {:induction false} SplitAllAppend(a: seq<TextNode>, b: seq<TextNode>, kind: TextType, extract: Extractor)
    requires IsMarkupKind(kind)
    ensures SplitAll(a + b, kind, extract) == Chain(SplitAll(a, kind, extract), SplitAll(b, kind, extract))
    decreases |a|
  {
    if a == [] {
      assert a + b == b;
      PrependNothing(SplitAll(b, kind, extract));
    } else {
      SplitAllAppend(a[1..], b, kind, extract);
      SplitAllAppendStep(a, b, kind, extract);
    }
  }

  lemma SplitAllAppendStep(a: seq<TextNode>, b: seq<TextNode>, kind: TextType, extract: Extractor)
    requires IsMarkupKind(kind) && a != []
    requires SplitAll(a[1..] + b, kind, extract) == Chain(SplitAll(a[1..], kind, extract), SplitAll(b, kind, extract))
    ensures SplitAll(a + b, kind, extract) == Chain(SplitAll(a, kind, extract), SplitAll(b, kind, extract))
  {
    ConsAppend(a, b);
    ChainGlue(SplitAll(a + b, kind, extract), SplitNode(a[0], kind, extract), SplitAll(a[1..] + b, kind, extract),
              SplitAll(a, kind, extract), SplitAll(a[1..], kind, extract), SplitAll(b, kind, extract));
  }

  /** A failing cut names the marker it did not find. */
  lemma {:induction false} SplitAllErrorIsMissingMarker(nodes: seq<TextNode>, kind: TextType, extract: Extractor)
    requires IsMarkupKind(kind)
    ensures SplitAll(nodes, kind, extract).Err? ==> SplitAll(nodes, kind, extract).error.MissingMarker?
    decreases |nodes|
  {
    if nodes != [] {
      SplitPairsOkIffInOrder(nodes[0].text, kind, extract(nodes[0].text));
      SplitAllErrorIsMissingMarker(nodes[1..], kind, extract);
    }
  }

  /** Cutting keeps every link and image span's url, and the spans it makes
      of `kind` carry the extracted url. */
  lemma {:induction false} SplitAllKeepsUrls(nodes: seq<TextNode>, kind: TextType, extract: Extractor)
    requires IsMarkupKind(kind)
    requires UrlsPresent(nodes) && SplitAll(nodes, kind, extract).Ok?
    ensures UrlsPresent(SplitAll(nodes, kind, extract).value)
    decreases |nodes|
  {
    if nodes != [] {
      var n := nodes[0];
      assert UrlsPresent(nodes[1..]) by {
        forall i | 0 <= i < |nodes[1..]| ensures nodes[1..][i] == nodes[i + 1] { }
      }
      SplitAllKeepsUrls(nodes[1..], kind, extract);
      var head := SplitNode(n, kind, extract).value;
      if extract(n.text) != [] {
        SplitPairsShape(n.text, kind, extract(n.text));
      }
      assert UrlsPresent(head);
      UrlsPresentAppend(head, SplitAll(nodes[1..], kind, extract).value);
    }
  }

  /** A node of another style whose text holds markers loses its style: what
      it is cut into is plain spans and spans of `kind` only. */
  lemma SplitNodeDropsStyle(node: TextNode, kind: TextType, extract: Extractor)
    requires IsMarkupKind(kind)
    requires extract(node.text) != [] && SplitNode(node, kind, extract).Ok?
    ensures forall i :: 0 <= i < |SplitNode(node, kind, extract).value| ==>
      SplitNode(node, kind, extract).value[i].textType in {Text, kind}
  {
    SplitPairsShape(node.text, kind, extract(node.text));
  }

  /** The extractor reports markers only in the text of plain spans. */
  predicate MarkersOnlyInPlain(nodes: seq<TextNode>, extract: Extractor) {
    forall i :: 0 <= i < |nodes| && extract(nodes[i].text) != [] ==> nodes[i].textType == Text
  }

  /** When the extractor reports markers only in plain spans, cutting keeps
      the Markdown source of the list unchanged. */
  lemma {:induction false} SplitAllKeepsMarkdown(nodes: seq<TextNode>, kind: TextType, extract: Extractor)
    requires IsMarkupKind(kind)
    requires MarkersOnlyInPlain(nodes, extract)
    requires SplitAll(nodes, kind, extract).Ok?
    ensures MarkdownOf(SplitAll(nodes, kind, extract).value) == MarkdownOf(nodes)
    decreases |nodes|
  {
    if nodes != [] {
      var n := nodes[0];
      assert MarkersOnlyInPlain(nodes[1..], extract) by {
        forall i | 0 <= i < |nodes[1..]| ensures nodes[1..][i] == nodes[i + 1] { }
      }
      SplitAllKeepsMarkdown(nodes[1..], kind, extract);
      var head := SplitNode(n, kind, extract).value;
      if extract(n.text) != [] {
        SplitPairsRoundTrip(n.text, kind, extract(n.text));
      } else {
        assert MarkdownOf([n]) == Markdown(n) + "";
      }
      MarkdownOfAppend(head, SplitAll(nodes[1..], kind, extract).value);
    }
  }
}
