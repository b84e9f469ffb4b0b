/** The delimiter splitter of utils.py: `process_text_node`, which cuts one
    plain-text span at pairs of a delimiter such as `**`, and
    `split_nodes_delimiter`, which applies it to every plain-text span of a list. */
module InlineDelimiter {
  import opened Wrappers
  import opened Errors
  import opened Strings
  import opened TextNodes

  /** The spans cut off at the front of a text: the text before the opening
      delimiter, when there is any, as plain text, then the delimited text. */
  function Opening(before: string, delimited: string, textType: TextType): seq<TextNode> {
    PlainSpans(before) + [TextNode(delimited, textType, None)]
  }

  /** One scan of `process_text_node` over a text from offset `from` on:
      no delimiter, an opening delimiter with no closing one, or the
      positions of the opening and of the closing delimiter. */
  datatype Cut = NoDelimiter | Unterminated | Pieces(start: nat, end: nat)

  function CutAt(text: string, delimiter: string, from: nat): (c: Cut)
    requires delimiter != []
    ensures c.Pieces? ==> from <= c.start && c.start + |delimiter| <= c.end && c.end + |delimiter| <= |text|
  {
    match Find(text, delimiter, from)
    case None => NoDelimiter
    case Some(start) =>
      match Find(text, delimiter, start + |delimiter|)
      case None => Unterminated
      case Some(end) => Pieces(start, end)
  }

  /** The pieces and the two delimiters make up the scanned text. */
  lemma {:induction false} CutAtJoin(text: string, d: string, from: nat)
    requires d != [] && from <= |text|
    ensures var c := CutAt(text, d, from);
      c.Pieces? ==> text[from..] == text[from..c.start] + d + text[c.start + |d|..c.end] + d + text[c.end + |d|..]
  {
    var c := CutAt(text, d, from);
    if c.Pieces? {
      FindOccurs(text, d, from);
      FindOccurs(text, d, c.start + |d|);
      SplitAtTwoOccurrences(text, d, from, c.start, c.end);
    }
  }

  /** Neither the text before the opening delimiter nor the delimited text
      contains the delimiter; when there is no delimiter, the scanned text
      does not contain it. */
  lemma {:induction false} CutAtFree(text: string, d: string, from: nat)
    requires d != [] && from <= |text|
    ensures CutAt(text, d, from).NoDelimiter? ==> !Contains(text[from..], d)
    ensures var c := CutAt(text, d, from);
      c.Pieces? ==> !Contains(text[from..c.start], d) && !Contains(text[c.start + |d|..c.end], d)
  {
    var c := CutAt(text, d, from);
    if c.NoDelimiter? {
      NothingFound(text, d, from);
    } else if c.Pieces? {
      NothingBeforeFound(text, d, from, c.start);
      NothingBeforeFound(text, d, c.start + |d|, c.end);
    }
  }

  /** What `process_text_node` makes of a plain span whose text is
      `text[from:]`: that span itself when `delimiter` does not occur;
      otherwise the text before the first delimiter (if any) as plain text,
      the text up to the next delimiter as a span of `textType`, and what
      the same process makes of the rest, when there is a rest. An opening
      delimiter without a closing one raises. The recursive call on the rest
      is the same scan continued from the offset after the closing delimiter
      (FindInSuffix: searching a suffix is searching from an offset). */
  function SplitFrom(text: string, delimiter: string, textType: TextType, from: nat): Result<seq<TextNode>, Error>
    requires delimiter != [] && from <= |text|
    decreases |text| - from
  {
    var c := CutAt(text, delimiter, from);
    if c.NoDelimiter? then Ok([TextNode(text[from..], Text, None)])
    else if c.Unterminated? then Err(UnterminatedDelimiter(delimiter))
    else
      var head := Opening(text[from..c.start], text[c.start + |delimiter|..c.end], textType);
      if c.end + |delimiter| == |text| then Ok(head)
      else Prepend(head, SplitFrom(text, delimiter, textType, c.end + |delimiter|))
  }

  /** `process_text_node(node, delimiter, text_type)`: the node itself,
      unchanged, when the delimiter does not occur in its text. */
  function ProcessTextNode(node: TextNode, delimiter: string, textType: TextType): Result<seq<TextNode>, Error>
    requires delimiter != []
  {
    if IndexOf(node.text, delimiter).None? then Ok([node])
    else SplitFrom(node.text, delimiter, textType, 0)
  }

  /** The occurrences of `d` in `s` from `from` on, counted left to right
      without overlap. */
  function CountFrom(s: string, d: string, from: nat): nat
    requires d != []
    decreases |s| - from
  {
    match Find(s, d, from)
    case None => 0
    case Some(i) => 1 + CountFrom(s, d, i + |d|)
  }

  /** How the count follows the scan: none, one, or the two around the
      delimited text and those after it. */
  lemma {:induction false} CountAtCut(text: string, d: string, from: nat)
    requires d != []
    ensures CutAt(text, d, from).NoDelimiter? ==> CountFrom(text, d, from) == 0
    ensures CutAt(text, d, from).Unterminated? ==> CountFrom(text, d, from) == 1
    ensures var c := CutAt(text, d, from);
      c.Pieces? ==> CountFrom(text, d, from) == 2 + CountFrom(text, d, c.end + |d|)
  {
    match Find(text, d, from)
    case None =>
    case Some(start) =>
      assert CountFrom(text, d, from) == 1 + CountFrom(text, d, start + |d|);
  }

  /** The text a list of spans came from: plain spans as they are, styled
      spans wrapped in the delimiter again. */
  function Rewrap(spans: seq<TextNode>, d: string): string {
    if spans == [] then ""
    else (if spans[0].textType == Text then spans[0].text else d + spans[0].text + d) + Rewrap(spans[1..], d)
  }

  lemma {:induction false} RewrapAppend(a: seq<TextNode>, b: seq<TextNode>, d: string)
    ensures Rewrap(a + b, d) == Rewrap(a, d) + Rewrap(b, d)
    decreases |a|
  {
    if a == [] {
      assert a + b == b;
    } else {
      RewrapAppend(a[1..], b, d);
      ConsAppend(a, b);
      var first := if a[0].textType == Text then a[0].text else d + a[0].text + d;
      ConcatGlue(Rewrap(a + b, d), first, Rewrap(a[1..] + b, d), Rewrap(a, d), Rewrap(a[1..], d), Rewrap(b, d));
    }
  }

  lemma RewrapOpening(before: string, inside: string, k: TextType, d: string)
    requires k != Text
    ensures Rewrap(Opening(before, inside, k), d) == before + d + inside + d
  {
    var styled := TextNode(inside, k, None);
    assert Rewrap([styled], d) == d + inside + d + "";
    if before != [] {
      assert Rewrap([TextNode(before, Text, None)], d) == before + "";
      RewrapAppend([TextNode(before, Text, None)], [styled], d);
    } else {
      assert Opening(before, inside, k) == [styled];
    }
  }

  /** One cut as SplitFrom takes it: the opening spans alone when the
      closing delimiter ends the text, otherwise the opening spans followed
      by what the scan of the rest yields, or the rest's error. */
  lemma {:induction false} SplitFromStep(text: string, d: string, k: TextType, from: nat)
    requires d != [] && from <= |text| && CutAt(text, d, from).Pieces?
    ensures var c := CutAt(text, d, from);
      var head := Opening(text[from..c.start], text[c.start + |d|..c.end], k);
      if c.end + |d| == |text| then SplitFrom(text, d, k, from) == Ok(head)
      else
        && (SplitFrom(text, d, k, from).Ok? <==> SplitFrom(text, d, k, c.end + |d|).Ok?)
        && (SplitFrom(text, d, k, from).Ok? ==> SplitFrom(text, d, k, from).value == head + SplitFrom(text, d, k, c.end + |d|).value)
        && (SplitFrom(text, d, k, from).Err? ==> SplitFrom(text, d, k, from).error == SplitFrom(text, d, k, c.end + |d|).error)
  {
  }

  /** Every opening delimiter the scan meets from `from` on has a closing one. */
  predicate Balanced(text: string, d: string, from: nat)
    requires d != [] && from <= |text|
    decreases |text| - from
  {
    var c := CutAt(text, d, from);
    if c.NoDelimiter? then true
    else if c.Unterminated? then false
    else c.end + |d| == |text| || Balanced(text, d, c.end + |d|)
  }

  /** The scan is balanced exactly when the delimiter occurs an even number
      of times. */
  lemma {:induction false} BalancedIffEven(text: string, d: string, from: nat)
    requires d != [] && from <= |text|
    ensures Balanced(text, d, from) <==> CountFrom(text, d, from) % 2 == 0
    decreases |text| - from
  {
    CountAtCut(text, d, from);
    if CutAt(text, d, from).Pieces? {
      if CutAt(text, d, from).end + |d| < |text| {
        BalancedIffEven(text, d, CutAt(text, d, from).end + |d|);
      } else {
        assert Find(text, d, CutAt(text, d, from).end + |d|).None?;
      }
    }
  }

  /** Splitting succeeds exactly on a balanced scan. */
  lemma {:induction false} SplitFromOkIffBalanced(text: string, d: string, k: TextType, from: nat)
    requires d != [] && from <= |text|
    ensures SplitFrom(text, d, k, from).Ok? <==> Balanced(text, d, from)
    decreases |text| - from
  {
    if CutAt(text, d, from).Pieces? && CutAt(text, d, from).end + |d| < |text| {
      SplitFromOkIffBalanced(text, d, k, CutAt(text, d, from).end + |d|);
    }
  }

  /** The only error a split raises names the delimiter. */
  lemma {:induction false} SplitFromErrorNamesDelimiter(text: string, d: string, k: TextType, from: nat)
    requires d != [] && from <= |text|
    ensures SplitFrom(text, d, k, from).Err? ==> SplitFrom(text, d, k, from).error == UnterminatedDelimiter(d)
    decreases |text| - from
  {
    if CutAt(text, d, from).Pieces? && CutAt(text, d, from).end + |d| < |text| {
      SplitFromErrorNamesDelimiter(text, d, k, CutAt(text, d, from).end + |d|);
    }
  }

  /** An opening delimiter without a closing one raises: splitting fails
      exactly when the scanned text holds an odd number of delimiters, and
      the error names the delimiter. */
  lemma SplitFromFailsIffOdd(text: string, d: string, k: TextType, from: nat)
    requires d != [] && from <= |text|
    ensures SplitFrom(text, d, k, from).Err? <==> CountFrom(text, d, from) % 2 == 1
    ensures SplitFrom(text, d, k, from).Err? ==> SplitFrom(text, d, k, from).error == UnterminatedDelimiter(d)
  {
    SplitFromOkIffBalanced(text, d, k, from);
    BalancedIffEven(text, d, from);
    SplitFromErrorNamesDelimiter(text, d, k, from);
  }

  /** Spans that re-wrap to the text of the cut, followed by spans that
      re-wrap to the rest, re-wrap to the whole. */
  lemma RewrapJoin(whole: string, before: string, inside: string, rest: string, d: string, k: TextType, tail: seq<TextNode>)
    requires k != Text
    requires whole == before + d + inside + d + rest
    requires Rewrap(tail, d) == rest
    ensures Rewrap(Opening(before, inside, k) + tail, d) == whole
  {
    RewrapOpening(before, inside, k, d);
    RewrapAppend(Opening(before, inside, k), tail, d);
  }

  /** The opening spans of a cut, followed by spans that re-wrap to the
      rest, re-wrap to the whole scanned text. */
  lemma RewrapAtCut(text: string, d: string, k: TextType, from: nat, tail: seq<TextNode>)
    requires d != [] && k != Text && from <= |text| && CutAt(text, d, from).Pieces?
    requires Rewrap(tail, d) == text[CutAt(text, d, from).end + |d|..]
    ensures var c := CutAt(text, d, from);
      Rewrap(Opening(text[from..c.start], text[c.start + |d|..c.end], k) + tail, d) == text[from..]
  {
    CutAtJoin(text, d, from);
    var c := CutAt(text, d, from);
    RewrapJoin(text[from..], text[from..c.start], text[c.start + |d|..c.end], text[c.end + |d|..], d, k, tail);
  }

  /** Round trip: re-wrapping the styled spans in the delimiter and
      concatenating everything restores the text that was split. */
  lemma {:induction false} SplitFromRoundTrip(text: string, d: string, k: TextType, from: nat)
    requires d != [] && k != Text && from <= |text|
    requires SplitFrom(text, d, k, from).Ok?
    ensures Rewrap(SplitFrom(text, d, k, from).value, d) == text[from..]
    decreases |text| - from
  {
    if CutAt(text, d, from).NoDelimiter? {
      assert Rewrap([TextNode(text[from..], Text, None)], d) == text[from..] + "";
    } else {
      var c := CutAt(text, d, from);
      var next := c.end + |d|;
      var head := Opening(text[from..c.start], text[c.start + |d|..c.end], k);
      SplitFromStep(text, d, k, from);
      var tail: seq<TextNode> := if next < |text| then SplitFrom(text, d, k, next).value else [];
      if next < |text| {
        SplitFromRoundTrip(text, d, k, next);
      } else {
        assert head + tail == head;
      }
      assert SplitFrom(text, d, k, from).value == head + tail;
      RewrapAtCut(text, d, k, from, tail);
    }
  }

  /** What every span of a split satisfies: no url; either of the requested
      type, or plain and non-empty; free of the delimiter. */
  predicate CleanSpans(spans: seq<TextNode>, d: string, k: TextType) {
    forall i :: 0 <= i < |spans| ==>
      && spans[i].url == None
      && (spans[i].textType == k || (spans[i].textType == Text && spans[i].text != []))
      && !Contains(spans[i].text, d)
  }

  lemma CleanAtCut(text: string, d: string, k: TextType, from: nat, tail: seq<TextNode>)
    requires d != [] && from <= |text| && CutAt(text, d, from).Pieces?
    requires CleanSpans(tail, d, k)
    ensures var c := CutAt(text, d, from);
      CleanSpans(Opening(text[from..c.start], text[c.start + |d|..c.end], k) + tail, d, k)
  {
    CutAtFree(text, d, from);
  }

  /** The spans a split of a non-empty text yields are clean: plain spans are
      never empty, styled spans are of the requested type, none has a url,
      and none contains the delimiter any more. */
  lemma {:induction false} SplitFromSpans(text: string, d: string, k: TextType, from: nat)
    requires d != [] && from < |text|
    requires SplitFrom(text, d, k, from).Ok?
    ensures CleanSpans(SplitFrom(text, d, k, from).value, d, k)
    decreases |text| - from
  {
    if CutAt(text, d, from).NoDelimiter? {
      CutAtFree(text, d, from);
    } else {
      SplitFromStep(text, d, k, from);
      if CutAt(text, d, from).end + |d| < |text| {
        SplitFromSpans(text, d, k, CutAt(text, d, from).end + |d|);
        CleanAtCut(text, d, k, from, SplitFrom(text, d, k, CutAt(text, d, from).end + |d|).value);
      } else {
        CleanAtCut(text, d, k, from, []);
        assert SplitFrom(text, d, k, from).value == SplitFrom(text, d, k, from).value + [];
      }
    }
  }

  /** `process_text_node` fails exactly when its text holds an odd number of
      delimiters, naming the delimiter in the error. */
  lemma {:induction false} ProcessTextNodeFailsIffOdd(node: TextNode, d: string, k: TextType)
    requires d != []
    ensures ProcessTextNode(node, d, k).Err? <==> CountFrom(node.text, d, 0) % 2 == 1
    ensures ProcessTextNode(node, d, k).Err? ==> ProcessTextNode(node, d, k).error == UnterminatedDelimiter(d)
  {
    SplitFromFailsIffOdd(node.text, d, k, 0);
  }

  /** A plain node without the delimiter comes back as it is; otherwise the
      output spans are the non-empty plain pieces and the styled pieces, and
      re-wrapping the styled ones restores the node's text. */
  lemma {:induction false} ProcessTextNodeSpans(node: TextNode, d: string, k: TextType)
    requires d != [] && node.textType == Text && k != Text
    requires ProcessTextNode(node, d, k).Ok?
    ensures !Contains(node.text, d) ==> ProcessTextNode(node, d, k).value == [node]
    ensures Rewrap(ProcessTextNode(node, d, k).value, d) == node.text
    ensures Contains(node.text, d) ==> CleanSpans(ProcessTextNode(node, d, k).value, d, k)
  {
    IndexOfIsFirst(node.text, d);
    assert node.text[0..] == node.text;
    if IndexOf(node.text, d).None? {
      assert Rewrap([node], d) == node.text + "";
    } else {
      SplitFromRoundTrip(node.text, d, k, 0);
      SplitFromSpans(node.text, d, k, 0);
    }
  }

  /** `split_nodes_delimiter` as a value: every non-plain node passes through,
      every plain node is replaced by what ProcessTextNode makes of it, in
      order; the first node that raises makes the whole call raise. */
  function SplitDelimiter(nodes: seq<TextNode>, d: string, k: TextType): Result<seq<TextNode>, Error>
    requires d != []
    decreases |nodes|
  {
    if nodes == [] then Ok([])
    else Chain(DelimitNode(nodes[0], d, k), SplitDelimiter(nodes[1..], d, k))
  }

  /** What `split_nodes_delimiter` makes of one node: a node that is not
      plain text is kept, a plain one goes through ProcessTextNode. */
  function DelimitNode(node: TextNode, d: string, k: TextType): Result<seq<TextNode>, Error>
    requires d != []
  {
    if node.textType != Text then Ok([node]) else ProcessTextNode(node, d, k)
  }

  /** `split_nodes_delimiter(old_nodes, delimiter, text_type)`. */
  method SplitNodesDelimiter(oldNodes: seq<TextNode>, delimiter: string, textType: TextType)
    returns (r: Result<seq<TextNode>, Error>)
    requires delimiter != []
    ensures r == SplitDelimiter(oldNodes, delimiter, textType)
  {
    var result: seq<TextNode> := [];
    assert oldNodes[0..] == oldNodes;
    PrependNothing(SplitDelimiter(oldNodes, delimiter, textType));
    for i := 0 to |oldNodes|
      invariant Prepend(result, SplitDelimiter(oldNodes[i..], delimiter, textType)) == SplitDelimiter(oldNodes, delimiter, textType)
    {
      var node := oldNodes[i];
      assert oldNodes[i..][0] == node && oldNodes[i..][1..] == oldNodes[i + 1..];
      if node.textType != Text {
        PrependTwice(result, [node], SplitDelimiter(oldNodes[i + 1..], delimiter, textType));
        result := result + [node];
      } else {
        var processed := ProcessTextNode(node, delimiter, textType);
        if processed.Err? {
          return Err(processed.error);
        }
        PrependTwice(result, processed.value, SplitDelimiter(oldNodes[i + 1..], delimiter, textType));
        result := result + processed.value;
      }
    }
    assert oldNodes[|oldNodes|..] == [];
    assert result + [] == result;
    r := Ok(result);
  }

  /** Nodes that are not plain text come out unchanged. */
  lemma {:induction false} SplitDelimiterPassesThrough(nodes: seq<TextNode>, d: string, k: TextType)
    requires d != []
    requires forall i :: 0 <= i < |nodes| ==> nodes[i].textType != Text
    ensures SplitDelimiter(nodes, d, k) == Ok(nodes)
    decreases |nodes|
  {
    if nodes != [] {
      SplitDelimiterPassesThrough(nodes[1..], d, k);
      assert [nodes[0]] + nodes[1..] == nodes;
    }
  }

  /** Node order is kept: splitting `a + b` splits `a`, then `b`; the first
      error, from `a` before `b`, wins. */
  lemma {:induction false} SplitDelimiterAppend(a: seq<TextNode>, b: seq<TextNode>, d: string, k: TextType)
    requires d != []
    ensures SplitDelimiter(a + b, d, k) == Chain(SplitDelimiter(a, d, k), SplitDelimiter(b, d, k))
    decreases |a|
  {
    if a == [] {
      assert a + b == b;
      PrependNothing(SplitDelimiter(b, d, k));
    } else {
      SplitDelimiterAppend(a[1..], b, d, k);
      SplitDelimiterAppendStep(a, b, d, k);
    }
  }

  lemma SplitDelimiterAppendStep(a: seq<TextNode>, b: seq<TextNode>, d: string, k: TextType)
    requires d != [] && a != []
    requires SplitDelimiter(a[1..] + b, d, k) == Chain(SplitDelimiter(a[1..], d, k), SplitDelimiter(b, d, k))
    ensures SplitDelimiter(a + b, d, k) == Chain(SplitDelimiter(a, d, k), SplitDelimiter(b, d, k))
  {
    ConsAppend(a, b);
    ChainGlue(SplitDelimiter(a + b, d, k), DelimitNode(a[0], d, k), SplitDelimiter(a[1..] + b, d, k),
              SplitDelimiter(a, d, k), SplitDelimiter(a[1..], d, k), SplitDelimiter(b, d, k));
  }

  /** The whole list fails exactly when one of its plain nodes holds an odd
      number of delimiters. */
  lemma {:induction false} SplitDelimiterFailsIffOdd(nodes: seq<TextNode>, d: string, k: TextType)
    requires d != []
    ensures SplitDelimiter(nodes, d, k).Err? <==>
      exists i :: 0 <= i < |nodes| && nodes[i].textType == Text && CountFrom(nodes[i].text, d, 0) % 2 == 1
    decreases |nodes|
  {
    if nodes != [] {
      ProcessTextNodeFailsIffOdd(nodes[0], d, k);
      SplitDelimiterFailsIffOdd(nodes[1..], d, k);
      assert forall i :: 1 <= i < |nodes| ==> nodes[1..][i - 1] == nodes[i];
    }
  }

  /** A failing split names the delimiter it found unterminated. */
  lemma {:induction false} SplitDelimiterErrorNamesDelimiter(nodes: seq<TextNode>, d: string, k: TextType)
    requires d != []
    ensures SplitDelimiter(nodes, d, k).Err? ==> SplitDelimiter(nodes, d, k).error == UnterminatedDelimiter(d)
    decreases |nodes|
  {
    if nodes != [] {
      ProcessTextNodeFailsIffOdd(nodes[0], d, k);
      SplitDelimiterErrorNamesDelimiter(nodes[1..], d, k);
    }
  }

  /** Splitting into a style other than link or image keeps every link and
      image span's url: the split spans have none, and need none. */
  lemma {:induction false} SplitDelimiterKeepsUrls(nodes: seq<TextNode>, d: string, k: TextType)
    requires d != [] && k != Text && k != Link && k != Image
    requires UrlsPresent(nodes) && SplitDelimiter(nodes, d, k).Ok?
    ensures UrlsPresent(SplitDelimiter(nodes, d, k).value)
    decreases |nodes|
  {
    if nodes != [] {
      var n := nodes[0];
      assert UrlsPresent(nodes[1..]) by {
        forall i | 0 <= i < |nodes[1..]| ensures nodes[1..][i] == nodes[i + 1] { }
      }
      SplitDelimiterKeepsUrls(nodes[1..], d, k);
      var head := DelimitNode(n, d, k).value;
      if n.textType == Text {
        ProcessTextNodeSpans(n, d, k);
      }
      assert UrlsPresent(head);
      UrlsPresentAppend(head, SplitDelimiter(nodes[1..], d, k).value);
    }
  }

  /** With the delimiter that belongs to the style, splitting keeps the
      Markdown source of the list unchanged. */
  lemma {:induction false} SplitDelimiterKeepsMarkdown(nodes: seq<TextNode>, k: TextType)
    requires k == Bold || k == Italic || k == Code
    requires SplitDelimiter(nodes, DelimiterOf(k), k).Ok?
    ensures MarkdownOf(SplitDelimiter(nodes, DelimiterOf(k), k).value) == MarkdownOf(nodes)
    decreases |nodes|
  {
    var d := DelimiterOf(k);
    if nodes != [] {
      var n := nodes[0];
      SplitDelimiterKeepsMarkdown(nodes[1..], k);
      var tail := SplitDelimiter(nodes[1..], d, k).value;
      var head := if n.textType != Text then [n] else ProcessTextNode(n, d, k).value;
      if n.textType == Text {
        ProcessTextNodeSpans(n, d, k);
        RewrapIsMarkdown(head, k);
      } else {
        assert MarkdownOf([n]) == Markdown(n) + "";
      }
      MarkdownOfAppend(head, tail);
      assert MarkdownOf(nodes) == Markdown(n) + MarkdownOf(nodes[1..]);
    }
  }

  /** For plain spans and spans of a delimited style, re-wrapping in that
      style's delimiter is the Markdown source. */
  lemma {:induction false} RewrapIsMarkdown(spans: seq<TextNode>, k: TextType)
    requires k == Bold || k == Italic || k == Code
    requires forall i :: 0 <= i < |spans| ==> spans[i].textType == Text || spans[i].textType == k
    ensures Rewrap(spans, DelimiterOf(k)) == MarkdownOf(spans)
    decreases |spans|
  {
    if spans != [] {
      RewrapIsMarkdown(spans[1..], k);
    }
  }
}
