# Markdown to HTML, modelled in Dafny

The static site generator turns a Markdown page into a tree of HTML nodes,
and the tree into an HTML string. This project models that pipeline and
proves what it does:

- **HTML nodes** (`htmlnode.py`, `leafnode.py`, `parentnode.py`). The three
  node classes are the three variants `Generic`, `Leaf` and `Parent` of one
  datatype `HtmlNode.Node`. Each class's `to_html` is the matching arm of the
  recursive `HtmlNode.Render`, which returns a string or an error. A `props`
  dict is its list of entries in insertion order, and a Python `None` is an
  `Option`.
- **Inline pipeline** (`utils.py` lines 8-133 and 206-212). This covers
  `process_text_node`, `split_nodes_delimiter`, `split_nodes_image`,
  `split_nodes_link`, `text_to_textnodes`, `text_node_to_html_node` and
  `text_to_children`. Spans are `TextNodes.TextNode` values. A raised
  exception is an `Err` carrying an `Errors.Error`.
- **Block segmenter** (`markdown_to_blocks`). It is a scanner over lines
  whose state is the finished groups, the current group and the
  in-code-block flag.
- **Block classifier** (`block_to_block_type`). Five line tests are tried in
  order, and a block that passes none is a paragraph.
- **Block compiler** (`markdown_to_html_node`). It builds a `div` holding one
  subtree per block. `PageHtml` states the HTML string that this tree renders
  to.

The loops of the source are methods, and each method is proved equal to a
recursive function that specifies it:

- `SplitNodesDelimiter`, `SplitText`, `SplitNodesImage` and `SplitNodesLink`;
- `TextToTextNodes` and `TextToChildren`;
- `MarkdownToBlocks`;
- `HeadingLevel`, `QuoteContent` and `BuildList`;
- `BlockToHtmlNode`, `BuildChildren` and `MarkdownToHtmlNode`.

The properties are lemmas about those functions.

`extract_markdown_images` and `extract_markdown_links` live in `extract.py`,
which is not part of this model. They are parameters of type
`InlineMarkup.Extractor`, a function from text to `(label, url)` pairs. The
split loops call `split(marker, 1)[1]`, which raises when a marker does not
occur. The model makes that failure an error, `MissingMarker`, instead of a
precondition. `SplitPairsOkIffInOrder` states exactly when the error happens.

Python's `str.strip`, `str.split`, `str.find`, `re.match(r"^#{1,6} ")`
and `re.sub(r'\s+', ' ')` are written out as string functions in `Strings`
and `BlockTypes`. Whitespace is the ASCII set that `str.isspace` accepts:
code points 9 to 13 and 28 to 32.

The documentation of the format and the code disagree in two places. The
model follows the code in both:

- An ordered-list line must start with `"i. "`, including the space after
  the period.
- A block that is a lone three-backtick line both starts and ends with three
  backticks, so it is classified as code.

The code's quirks are reproduced and stated as lemmas:

- The image and link splitters re-split styled spans.
- The unordered-list loop's item test accepts the `-`, `*` and `+` markers
  (`UnorderedMarkers`), but the classifier lets only blocks whose every line
  starts with `- ` reach that loop, so only `-` items are ever compiled
  (`UnorderedListKeepsAll`).
- The ordered-list compiler keeps only items numbered 1 to 9.

## Model

| member | source | states |
|---|---|---|
| HtmlNode.AttributesInInsertionOrder | src/htmlnode.py:25-31 | Attributes render entry by entry in insertion order: the attributes of two concatenated entry lists are the two renderings concatenated. |
| HtmlNode.PropsToHtmlCases | src/htmlnode.py:25-31 | None props and empty props render as the empty string. A single entry renders as ` key="value"`. |
| HtmlNode.RenderAllOkIff | src/htmlnode.py:17-20 | The children's concatenated render succeeds exactly when every child renders without raising. |
| HtmlNode.RenderAllAppend | src/htmlnode.py:17-20 | Rendering two child lists one after the other gives the two renders concatenated. On failure the error comes from the first part that raises. |
| HtmlNode.RenderAllSingle | src/htmlnode.py:19-20 | A one-child list renders as that child. |
| HtmlNode.GenericFailsOnlyThroughChildren | src/htmlnode.py:8-23 | An `HTMLNode` raises only when it has a tag and a child list and one of its children raises. It never raises itself. |
| HtmlNode.GenericWithoutTag | src/htmlnode.py:9-10 | With no tag, the node renders its value, or the empty string when the value is None. |
| HtmlNode.GenericVoidElement | src/htmlnode.py:13-14 | With a tag but no value and no children, the node renders only the opening tag with its attributes. |
| HtmlNode.GenericElement | src/htmlnode.py:16-23 | Otherwise it renders the opening tag, then the value or the empty string, then the children in order, then the closing tag. An empty child list contributes nothing. |
| LeafNode.NewLeaf | src/leafnode.py:4-5 | A new leaf keeps its tag, value and props, and its children stay None. |
| LeafNode.LeafRaisesIffNoValue | src/leafnode.py:8-9 | A leaf raises exactly when its value is None, whatever its tag, and the error is the missing value. |
| LeafNode.LeafRendersValue | src/leafnode.py:10-16 | An untagged leaf renders its value verbatim. A tagged leaf renders `<tag props>value</tag>`, also when the value is empty. |
| LeafNode.LeafAgreesWithGeneric | src/leafnode.py:7-16 | A leaf with a value renders exactly like the lenient `HTMLNode` with the same fields and no children. |
| ParentNode.NewParent | src/parentnode.py:4-5 | A new parent keeps its tag, children and props, and its value is None. |
| ParentNode.ParentRaisesOnMissingFields | src/parentnode.py:8-11 | A missing tag raises the missing-tag error. With a tag, missing children raise the missing-children error. |
| ParentNode.ParentRendersChildrenInOrder | src/parentnode.py:12-20 | A parent renders `<tag props>`, then each child's render in order, then `</tag>`. It succeeds exactly when every child does, and otherwise passes on the child's error. |
| ParentNode.ParentWithoutChildren | src/parentnode.py:12-20 | An empty child list with None or empty props renders `<tag></tag>`. |
| ParentNode.ParentAgreesWithGeneric | src/parentnode.py:7-20 | A parent with a tag and a child list renders exactly like an `HTMLNode` with no value. |
| Strings.LStrip | src/utils.py:258 | Left strip is no longer than its input, and the result is empty or starts with a non-whitespace character. |
| Strings.LStripDrops | src/utils.py:258 | Left strip is a suffix of its input, and everything it drops is whitespace. |
| Strings.RStrip | src/utils.py:143 | Right strip is no longer than its input, and the result is empty or ends with a non-whitespace character. |
| Strings.RStripDrops | src/utils.py:143 | Right strip is a prefix of its input, and everything it drops is whitespace. |
| Strings.Strip | src/utils.py:143 | The result is empty exactly when the input is blank. Otherwise it starts and ends with a non-whitespace character. |
| Strings.StripIsInfix | src/utils.py:143 | The stripped string is the contiguous piece of the input that starts after its leading whitespace. |
| Strings.StripKeepsFirst | src/utils.py:195 | Stripping a string that starts with a non-whitespace character keeps that first character. |
| Strings.StripNothing | src/utils.py:195 | A string with no whitespace at either end is its own strip. |
| Strings.Find | src/utils.py:87 | A position found from an offset lies at or after the offset, and the pattern fits there. |
| Strings.FindOccurs | src/utils.py:87 | The pattern occurs at the position found. |
| Strings.FindIsFirst | src/utils.py:93 | The pattern occurs nowhere between the offset and the position found, and nowhere after the offset when nothing is found. |
| Strings.IndexOfIsFirst | src/utils.py:87-90 | `find` returns nothing exactly when the pattern does not occur. Otherwise it returns an occurrence with none before it. |
| Strings.FindInSuffix | src/utils.py:113-115 | Searching a suffix of the text is searching the text from the suffix's offset. This is why the recursion on the after-text is a scan continued in place. |
| Strings.CutAtFirst | src/utils.py:99-101 | At the first occurrence the text is the part before it, the delimiter and the rest, and the part before holds no delimiter. |
| Strings.SplitOnce | src/utils.py:54 | `split(sep, 1)` gives one piece, the text itself, exactly when the separator does not occur. Otherwise it gives two pieces. |
| Strings.SplitOnceCut | src/utils.py:54 | The two pieces rejoined around the separator give back the text, and the first piece holds no separator. |
| Strings.Split | src/utils.py:136 | `split` gives at least one piece, and no piece holds the separator. |
| Strings.JoinSplit | src/utils.py:136 | Joining the pieces of a split with the separator gives back the original text. |
| Strings.SplitJoin | src/utils.py:148 | Splitting the join of separator-free lines gives back those lines. |
| Strings.JoinBlank | src/utils.py:178 | A blank join of lines has only blank lines. |
| Strings.CollapseWhitespace | src/utils.py:222 | The result holds no whitespace but single spaces, and no two of them adjacent. It is empty exactly when the input is, and its first character is kept or becomes a space. That each inner run becomes exactly one space is `CollapseRun`. |
| Strings.CollapseKeepsLast | src/utils.py:222 | A last character that is not whitespace stays last. |
| Strings.CollapseKeepsVisible | src/utils.py:222 | Collapsing whitespace keeps every non-whitespace character, in order. |
| Strings.LStripBlankPrefix | src/utils.py:222 | Left strip of a whitespace run followed by a visible character leaves exactly what follows the run. |
| Strings.LStripAppend | src/utils.py:222 | Left strip of a text that is not blank does not reach what follows it. |
| Strings.LStripKeepsLast | src/utils.py:222 | Left strip keeps a visible last character last. |
| Strings.CollapseRunFirst | src/utils.py:222 | A leading whitespace run before a visible character becomes one space. |
| Strings.CollapseSpaceFirst | src/utils.py:222 | A text starting with whitespace collapses to one space, then the collapsed text after that whitespace. |
| Strings.CollapseVisibleFirst | src/utils.py:222 | A text starting with a visible character collapses to that character, then the collapsed rest. |
| Strings.CollapseRunVisible | src/utils.py:222 | A visible first character is kept in front of the collapsed rest. |
| Strings.CollapseRunSpace | src/utils.py:222 | A leading whitespace run of the text before the run becomes one space in front of the collapsed rest. |
| Strings.CollapseRun | src/utils.py:222 | A whitespace run between two visible characters becomes exactly one space, and each side collapses on its own. |
| Strings.CollapseNoWhitespace | src/utils.py:222 | Text without whitespace is unchanged. |
| Strings.StripSpaceAfter | src/utils.py:277-280 | A space appended before stripping makes no difference. |
| Strings.JoinEnds | src/utils.py:277-280 | A join whose first and last pieces are not empty starts with the first piece's first character and ends with the last piece's last. |
| Strings.VisibleStrip | src/utils.py:222 | Stripping keeps every non-whitespace character, in order. |
| Strings.VisibleLStrip | src/utils.py:222 | Left strip keeps every non-whitespace character, in order. |
| Strings.VisibleRStrip | src/utils.py:222 | Right strip keeps every non-whitespace character, in order. |
| Strings.VisibleAppend | src/utils.py:277 | The visible characters of a concatenation are those of each part, in order. |
| Strings.DigitChar | src/utils.py:294 | The digit character of a number below ten is a digit with that value. |
| Strings.NatToString | src/utils.py:201 | The numeral of `n` is all digits, has no leading zero, and is one character long exactly when `n` is below ten. |
| Strings.SingleDigit | src/utils.py:294 | The numeral of a number below ten is its single digit. |
| Strings.ParseNatToString | src/utils.py:201 | Reading the numeral of `n` back as a decimal number gives `n`. |
| TextNodes.PlainSpans | src/utils.py:106-107 | The text before a delimiter adds one plain span, and only when it is non-empty. |
| TextNodes.PlainSpansMarkdown | src/utils.py:106-107 | The Markdown of those plain spans is that text. |
| TextNodes.MarkdownOfAppend | src/utils.py:119-133 | The Markdown of two span lists one after the other is their two Markdown texts concatenated. |
| InlineDelimiter.CutAt | src/utils.py:87-101 | The opening delimiter lies at or after the scan offset, and the closing one lies after it, within the text. |
| InlineDelimiter.CutAtJoin | src/utils.py:99-101 | The scanned text is the before-text, the delimiter, the delimited text, the delimiter and the after-text. |
| InlineDelimiter.CutAtFree | src/utils.py:87-93 | Neither the before-text nor the delimited text holds the delimiter, and with no opening delimiter the rest holds none. |
| InlineDelimiter.CountAtCut | src/utils.py:87-96 | No opening delimiter means zero occurrences, an opening without a closing means one, and a cut uses two. |
| InlineDelimiter.RewrapOpening | src/utils.py:106-110 | Re-wrapping the spans before and inside a delimiter pair gives back the before-text, the delimiter, the inside and the delimiter. |
| InlineDelimiter.RewrapAppend | src/utils.py:113-115 | Re-wrapping concatenated spans is re-wrapping each part. |
| InlineDelimiter.SplitFromStep | src/utils.py:103-117 | Each cut emits its opening spans and then exactly what the scan of the after-text emits or raises. A cut that ends the text emits only its own spans. |
| InlineDelimiter.BalancedIffEven | src/utils.py:93-96 | Every opening delimiter finds its closing one exactly when the delimiter occurs an even number of times. |
| InlineDelimiter.SplitFromOkIffBalanced | src/utils.py:93-96 | The scan succeeds exactly when every opening delimiter has a closing one. |
| InlineDelimiter.SplitFromErrorNamesDelimiter | src/utils.py:96 | A failing scan reports the delimiter it could not close. |
| InlineDelimiter.SplitFromFailsIffOdd | src/utils.py:93-96 | The scan raises exactly when the delimiter occurs an odd number of times, and the error names the delimiter. |
| InlineDelimiter.RewrapAtCut | src/utils.py:99-117 | The spans of a cut, followed by spans that re-wrap to the after-text, re-wrap to the scanned text. |
| InlineDelimiter.SplitFromRoundTrip | src/utils.py:99-117 | Concatenating the output spans, with the styled ones wrapped in the delimiter again, gives back the scanned text. |
| InlineDelimiter.CleanAtCut | src/utils.py:106-115 | The spans of one cut meet the span invariant: no empty plain span, no URL, and no delimiter inside any span. |
| InlineDelimiter.SplitFromSpans | src/utils.py:103-117 | Every emitted span is a non-empty plain span or a styled span of the requested kind, possibly empty. None carries a URL and none holds the delimiter. |
| InlineDelimiter.ProcessTextNodeFailsIffOdd | src/utils.py:84-96 | `process_text_node` raises exactly when its text holds the delimiter an odd number of times, and the error names the delimiter. |
| InlineDelimiter.ProcessTextNodeSpans | src/utils.py:84-117 | With no delimiter the node comes back unchanged as `[node]`. The spans re-wrap to the node's text. With a delimiter the spans meet the span invariant. |
| InlineDelimiter.SplitNodesDelimiter | src/utils.py:33-44 | The loop over the nodes computes the specified splitting, node by node, in order. |
| InlineDelimiter.SplitDelimiterPassesThrough | src/utils.py:37-38 | Nodes that are not plain text come through unchanged. |
| InlineDelimiter.SplitDelimiterAppend | src/utils.py:36-42 | Splitting two node lists one after the other is splitting each, in order. |
| InlineDelimiter.SplitDelimiterFailsIffOdd | src/utils.py:33-44 | Splitting raises exactly when some plain node holds the delimiter an odd number of times. |
| InlineDelimiter.SplitDelimiterErrorNamesDelimiter | src/utils.py:96 | The error of a failed split names the delimiter. |
| InlineDelimiter.SplitDelimiterKeepsUrls | src/utils.py:37-42 | Every link and image span keeps its URL. |
| InlineDelimiter.SplitDelimiterKeepsMarkdown | src/utils.py:33-44 | Splitting out bold, italic or code spans does not change the Markdown text the node list spells. |
| InlineDelimiter.RewrapIsMarkdown | src/utils.py:99-110 | Spans that are plain or of one style re-wrap to their Markdown. |
| InlineMarkup.Marker | src/utils.py:54 | The marker split on is non-empty and is the Markdown of the image or link span it becomes. |
| InlineMarkup.AppendPlain | src/utils.py:78-79 | Appending the remainder when it is non-empty is appending its plain spans. |
| InlineMarkup.AppendCut | src/utils.py:74-76 | The prefix, when non-empty, and then the link or image span is the cut's spans appended. |
| InlineMarkup.SplitPairsStep | src/utils.py:72-77 | One iteration of the loop emits the cut's spans and continues on the text after the marker. |
| InlineMarkup.SplitText | src/utils.py:53-60 | The loop over one node's pairs computes the specified spans. |
| InlineMarkup.SplitNodesMarkup | src/utils.py:49-62 | The loop over the nodes computes the specified splitting. |
| InlineMarkup.SplitNodesImage | src/utils.py:46-63 | `split_nodes_image` is that splitting for image markers. |
| InlineMarkup.SplitNodesLink | src/utils.py:65-82 | `split_nodes_link` is that splitting for link markers. |
| InlineMarkup.LabelsAppend | src/utils.py:57 | The pairs read back from two span lists one after the other are the two readings concatenated. |
| InlineMarkup.SplitPairsOkIffInOrder | src/utils.py:53-58 | The split succeeds exactly when each marker occurs in the text left after the previous one. A failure names a marker that is missing. |
| InlineMarkup.MarkdownAtMarker | src/utils.py:54-57 | The Markdown of a cut's spans is the prefix followed by the marker. |
| InlineMarkup.SplitPairsRoundTrip | src/utils.py:53-60 | Rejoining the spans with their marker strings gives back the original text. |
| InlineMarkup.MarkupSpansAtMarker | src/utils.py:55-57 | The spans of a cut are the plain prefix, when non-empty, and one image or link span with a URL. Reading their pairs back gives the pair cut, then the pairs of the spans after it. |
| InlineMarkup.SplitPairsShape | src/utils.py:53-60 | Every span is a non-empty plain span, or an image or link span with a URL. Reading the image or link spans back, left to right, gives exactly the extracted pairs. |
| InlineMarkup.SplitAllPassesThrough | src/utils.py:61-62 | Nodes for which the extractor returns nothing come through unchanged, whatever their type. |
| InlineMarkup.SplitAllAppend | src/utils.py:49-62 | Splitting two node lists one after the other is splitting each, in order. |
| InlineMarkup.SplitAllErrorIsMissingMarker | src/utils.py:54 | The only error is a marker that does not occur. |
| InlineMarkup.SplitAllKeepsUrls | src/utils.py:57 | Every link and image span keeps its URL. |
| InlineMarkup.SplitNodeDropsStyle | src/utils.py:49-60 | A node with markers is re-split into plain spans and image or link spans, whatever its type, so a styled node loses its style. |
| InlineMarkup.SplitAllKeepsMarkdown | src/utils.py:46-63 | When only plain nodes hold markers, splitting does not change the Markdown text the node list spells. |
| InlinePipeline.TextNodeToHtmlNode | src/utils.py:8-31 | Conversion raises exactly for a link or image without a URL, with the missing-URL error. Otherwise it gives a leaf with a value. |
| InlinePipeline.TextNodeRendersAsHtml | src/utils.py:8-31 | Plain text renders verbatim, and bold, italic and code render in `b`, `i` and `code`. A link renders in `a` with `href`, and an image as `img` with empty content and attributes `src` then `alt`. |
| InlinePipeline.StyledLeafRenders | src/leafnode.py:12-16 | A tagged leaf without props renders as the element around its value. |
| InlinePipeline.ToHtmlNodes | src/utils.py:209-211 | Conversion of a span list succeeds exactly when every link and image has a URL. Then it gives one node per span, in order. |
| InlinePipeline.UrlsPresentCons | src/utils.py:209-211 | A span list has its URLs exactly when its first span converts and the rest have theirs. |
| InlinePipeline.ToHtmlNodesRender | src/utils.py:209-211 | The converted nodes render to the spans' HTML concatenated in order. |
| InlinePipeline.TextToTextNodes | src/utils.py:119-133 | The method computes bold `**`, then italic `_`, then code with a backtick, then images, then links, from one plain node. |
| InlinePipeline.TextToChildren | src/utils.py:206-212 | The method converts each span of `text_to_textnodes` to an HTML leaf, in order. |
| InlinePipeline.TextNodesKeepUrls | src/utils.py:119-133 | Every link and image span the pipeline produces carries a URL. |
| InlinePipeline.ChildrenRenderSpans | src/utils.py:206-212 | `text_to_children` fails exactly when `text_to_textnodes` does, so the URL check never fires. Its leaves render as the spans' HTML. |
| InlinePipeline.TextNodesErrors | src/utils.py:126-130 | The pipeline fails only on an unclosed `**`, `_` or backtick, or on a missing marker. |
| InlinePipeline.UnbalancedBoldFails | src/utils.py:126 | The pipeline fails with an unclosed `**` exactly when the text holds `**` an odd number of times. |
| InlinePipeline.PlainTextPassesThrough | src/utils.py:119-133 | Text without delimiters and without markers becomes the single plain span of that text. |
| InlinePipeline.DelimitedSpansKeepMarkdown | src/utils.py:126-128 | The three delimiter passes do not change the Markdown text the spans spell. |
| InlinePipeline.TextNodesKeepMarkdown | src/utils.py:119-133 | When markers occur only in plain spans, the spans of `text_to_textnodes` spell the input text again. |
| Blocks.JoinAll | src/utils.py:148 | One block per line group, each its lines joined by a line break. |
| Blocks.DropBlank | src/utils.py:178 | No remaining block is whitespace-only. Blocks with no blank ones come through unchanged. |
| Blocks.MarkdownToBlocks | src/utils.py:135-180 | The loop over the lines returns `BlocksOf`. Its blocks are cut where `BlankLineSplits`, `PlainLinesStayTogether` and `CodeBlockKept` say, and they keep the lines as `GroupsKeepLines` and `BlockLines` say. |
| Blocks.ScanSnoc | src/utils.py:141 | Scanning one more line is one more step of the scanner. |
| Blocks.JoinAllSnoc | src/utils.py:148 | Joining one more group appends one block. |
| Blocks.StepValid | src/utils.py:141-171 | Each line keeps the scanner invariant. Finished groups are plain or closed fences, the current group is an open fence in a code block, and otherwise it is plain. |
| Blocks.ScanValid | src/utils.py:141-171 | The invariant holds after any sequence of lines. |
| Blocks.GroupsShape | src/utils.py:135-176 | Every group is either a plain group of non-blank, non-fence lines or a fence-to-fence group with no fence between. Only the last group can be an unterminated fence flushed at the end. |
| Blocks.BlocksNeverBlank | src/utils.py:174-178 | No group joins to a whitespace-only block, so the final filter removes nothing. |
| Blocks.StepPlaces | src/utils.py:141-171 | Each line is placed after everything before it, or it is blank and dropped. |
| Blocks.ScanPlaces | src/utils.py:141-171 | The scanner places the input lines in document order and drops only blank lines. |
| Blocks.GroupsKeepLines | src/utils.py:135-176 | The blocks' lines, in order, are the input lines with only blank lines removed. |
| Blocks.DropsOnlyBlankFrom | src/utils.py:141-171 | Every placed line is an input line. |
| Blocks.FlattenHolds | src/utils.py:148 | Every line of every group is among the placed lines. |
| Blocks.BlockLines | src/utils.py:135-180 | There is one block per group, and each block splits back into exactly its group's lines. |
| Blocks.StepAfter | src/utils.py:141-171 | A loop step does not look at the blocks finished earlier. |
| Blocks.ScanAfterBoundary | src/utils.py:141-171 | Once nothing is being built and no code block is open, the later lines are cut as if they stood alone. |
| Blocks.ExtendCurrent | src/utils.py:162-171 | Non-fence lines, non-blank outside a code block, extend the block being built and change nothing else. |
| Blocks.ExtendStep | src/utils.py:162-171 | One line that is not a fence, and outside a code block not blank, is appended to the block being built; nothing else changes. |
| Blocks.ExtendFrom | src/utils.py:162-171 | Such lines, taken one at a time, are appended in order to the block being built. |
| Blocks.BlankLineSplits | src/utils.py:165-168 | Outside a code block, a blank line separates. The blocks around it are those of the lines before it, then those of the lines after it. |
| Blocks.PlainLinesStayTogether | src/utils.py:170-171 | Outside a code block, adjacent lines that are neither blank nor fences all join the one block being built. |
| Blocks.PlainRunAlone | src/utils.py:170-171 | Plain lines standing alone are one block still being built, outside a code block. |
| Blocks.CodeBlockKept | src/utils.py:143-163 | A fenced code block is one block with its fences and every line between them, blank lines included. The lines around it are cut as if they stood alone. |
| Blocks.UnclosedCodeBlockKept | src/utils.py:143-175 | A fence that is never closed runs to the end of the document and is still kept as one block. |
| Blocks.TwoParagraphs | src/utils.py:165-175 | Two paragraphs with a blank line between them are two blocks. |
| BlockTypes.LeadingHashes | src/utils.py:193 | The count is the length of the run of `#` that opens the line. |
| BlockTypes.HeadingLineIsPattern | src/utils.py:193 | The regular expression `^#{1,6} ` matches exactly when the whole run of leading `#` is one to six long and a space follows it. |
| BlockTypes.BlockTypeCases | src/utils.py:190-204 | The first test that passes wins: heading only for one line matching the pattern, then code, quote, unordered list and ordered list. A paragraph passes none of the five tests. |
| BlockTypes.FirstLineStart | src/utils.py:191 | The first line of a block starts with the block's first character. |
| BlockTypes.JoinStart | src/utils.py:191 | Joined lines start with the first line's first character. |
| BlockTypes.Hashes | src/utils.py:193 | A run of `n` `#` characters. |
| BlockTypes.HeadingBlock | src/utils.py:193-194 | One to six `#`, a space and one line of text form a heading. |
| BlockTypes.CodeBlock | src/utils.py:195-196 | A block fenced by three backticks on both sides is code, whatever lies between. |
| BlockTypes.NeitherHeadingNorCode | src/utils.py:193-196 | A block that starts with neither `#`, a backtick nor whitespace is neither a heading nor code. |
| BlockTypes.QuoteBlock | src/utils.py:197-198 | Lines that all start with `>` form a quote. |
| BlockTypes.BulletBlock | src/utils.py:199-200 | Lines that all start with `- ` form an unordered list. |
| BlockTypes.NumberedBlock | src/utils.py:201-202 | Lines numbered `1. `, `2. `, and so on form an ordered list. |
| BlockTypes.ParagraphBlock | src/utils.py:203-204 | A block that starts with a character that can open none of the five kinds is a paragraph. |
| BlockTypes.NumberedLine | src/utils.py:201 | A line that starts with the numeral of `n` and `. ` has decimal digits before its period that read back as `n`. |
| BlockTypes.OrderedListNumbers | src/utils.py:201-202 | In an ordered list, each line starts with the decimal numeral of its one-based position, then a period. |
| Compiler.LeadingHashesUnique | src/utils.py:232-237 | A run of `#` that ends at a character other than `#` is the leading-hash count. |
| Compiler.HeadingLevel | src/utils.py:232-237 | The counting loop with its `break` gives the length of the leading `#` run. |
| Compiler.QuoteContent | src/utils.py:271-277 | The accumulating loop gives the specified quote text. |
| Compiler.BuildList | src/utils.py:288-333 | The list loop gives the specified `ol` or `ul` node, with one `li` per accepted line. |
| Compiler.BlockToHtmlNode | src/utils.py:218-333 | The per-block branch of the compiler gives the specified node for the block's kind. |
| Compiler.BlockNodesAt | src/utils.py:217-218 | From any block on, the children are that block's node and then those of the rest, and a failing block stops the conversion. |
| Compiler.BuildChildren | src/utils.py:215-217 | The loop over the blocks gives the specified children, in block order. |
| Compiler.MarkdownToHtmlNode | src/utils.py:214-334 | The compiler gives the specified page. |
| Wrappers.MapAllAt | src/utils.py:217 | Converting from position `i` on is converting element `i` and then the rest. |
| Wrappers.MapAllOk | src/utils.py:217-218 | Converting a list succeeds exactly when every element converts. The result has one value per element, in order. |
| Wrappers.MapAllErr | src/utils.py:217-218 | A failed conversion reports the error of an element that failed. |
| Pages.OneChildPerBlock | src/utils.py:214-334 | The page converts exactly when every block does. The root is then a `div` with exactly one child per block, in block order. |
| Pages.ChildrenErrors | src/utils.py:206-212 | Converting inline text fails only on an unclosed delimiter or a missing marker. |
| Pages.ListItemsErrors | src/utils.py:291-330 | A list fails only through an item's inline text. |
| Pages.BlockNodeErrors | src/utils.py:218-333 | A block fails only through its inline text. |
| Pages.BlockNodesErrors | src/utils.py:217-333 | The blocks fail only through some block's inline text. |
| Pages.PageErrors | src/utils.py:214-334 | A page fails only on an unclosed `**`, `_` or backtick, or on a missing marker. It never raises a missing value, tag, children or URL. |
| Pages.ParagraphText | src/utils.py:219-229 | Paragraph text holds only single, non-adjacent spaces and no whitespace at either end (each run between two pieces becomes one space by `ParagraphRun`). It keeps every visible character of the block, and the paragraph node is `p` around its children. |
| Pages.ParagraphRun | src/utils.py:222 | Two pieces with visible ends, separated by any whitespace run such as a line break, become their collapsed texts with exactly one space between them. |
| Pages.ParagraphWords | src/utils.py:222 | Two lines that are single words become the words with one space between them. |
| Pages.HeadingNode | src/utils.py:230-249 | A heading is `h` followed by the count of leading `#`, around the children of the stripped text after the `#` run. |
| Pages.HeadingParts | src/utils.py:232-240 | In `n` `#`, a space and text, the `#` count is `n` and what follows the run is the space and the text. |
| Pages.HeadingCompiles | src/utils.py:230-249 | One to six `#`, a space and a line of text become an `h1` to `h6` node around the text's children. |
| Pages.CodeNode | src/utils.py:250-268 | A code block becomes `pre` around `code` around one untagged leaf holding the code text, with no inline parsing. |
| Pages.CodeParts | src/utils.py:252-255 | Lines fenced by three backticks form a code block whose stripped lines are those lines. |
| Pages.CodeText | src/utils.py:255-258 | The code text ends with a line break. What precedes it splits back into the inner lines with their leading whitespace dropped. Lines without leading whitespace come through unchanged. |
| Pages.CodeCompiles | src/utils.py:250-268 | A fenced block becomes `pre` and `code` around the inner lines, each left-stripped and joined by line breaks, plus a final line break. |
| Pages.QuoteAccumVisible | src/utils.py:272-277 | The gathered quote text holds exactly the visible characters of the lines after their `>`. |
| Pages.QuoteStep | src/utils.py:276-277 | One more stripped line and a space keep that correspondence. |
| Pages.QuoteText | src/utils.py:269-286 | The quote text has no whitespace at either end and keeps every visible character after the `>` markers. The node is `blockquote` around its children. |
| Pages.QuoteAccumJoin | src/utils.py:273-277 | The quote loop gathers each line's stripped text after `>`, joined by single spaces, with a final space. |
| Pages.QuoteJoinsLines | src/utils.py:269-286 | The quote text is the lines' stripped texts joined by single spaces, then stripped. When the first and last texts are not empty, it is the join itself. The node is `blockquote` around the join's children. |
| Pages.QuoteJoinText | src/utils.py:272-280 | The stripped quote text is the stripped `' '`-join of the lines' pieces, and the join itself when its end pieces are not empty. |
| Pages.ItemsHoldCons | src/utils.py:305-308 | One more `li` in front of items that match their texts keeps the match. |
| Pages.ListItemsContents | src/utils.py:291-308 | A list has one `li` per accepted line, in order, each holding the children of that line's text. |
| Pages.ContentsFirst | src/utils.py:291-299 | When exactly the first `k` lines are accepted, the texts are those of the first `k` lines, or of all lines if there are fewer. |
| Pages.ListKeepsFirst | src/utils.py:287-333 | When exactly the first `k` lines are items, the list has one `li` for each of them, in order, around the children of its text. |
| Pages.UnorderedMarkers | src/utils.py:316-321 | The unordered item test accepts a line exactly when its stripped form starts with `-`, `*` or `+`, and the item text is the stripped rest after that one character. |
| Pages.UnorderedListKeepsAll | src/utils.py:312-333 | An unordered list is a `ul` with one item per line. Item `i` holds the children of line `i` stripped, without its `-` marker, stripped again. |
| Pages.OrderedLineKept | src/utils.py:292-299 | A line numbered 1 to 9 is accepted as an item. Its text is the stripped line after the digit and period, stripped again. |
| Pages.OrderedLineDropped | src/utils.py:292-299 | A line numbered 10 or more is dropped, because no single digit is followed by a period. |
| Pages.OrderedListKeepsNine | src/utils.py:287-311 | An ordered list is an `ol` with one item per line, up to the ninth. Later lines are silently dropped. Item `i` holds the children of line `i` stripped, without its digit and period, stripped again. |
| PageHtml.ContainerRenders | src/htmlnode.py:16-23 | A container whose children render renders as its element around them. Empty props and the missing value add nothing. |
| PageHtml.ChildrenRender | src/utils.py:206-212 | The children of a piece of text render as its HTML. |
| PageHtml.ItemsRender | src/utils.py:305-308 | A list's items render as an `li` element per accepted line. |
| PageHtml.CodeRenders | src/utils.py:261-267 | The code node renders as `pre` around `code` around the code text, verbatim. |
| PageHtml.BlockRenders | src/utils.py:218-333 | A block's node renders, without raising, as that block's HTML. |
| PageHtml.BlocksRender | src/utils.py:217-333 | The blocks' nodes render as the blocks' HTML, in order. |
| PageHtml.PageRenders | src/utils.py:214-334 | A page that converts renders, without raising, as a `div` holding each block's HTML in order. |

## Left out

- src/copystatic.py, src/generate.py and src/main.py are file-system and command-line I/O and are not part of this model.
- `extract.py` is not part of this model. Its two extractors are parameters, so the regular expressions inside them are not modelled.
- `extract_title` is not part of this model.
- `textnode.py` is not part of this model. `TextNode` is the datatype `TextNodes.TextNode`, whose equality is structural.
- The `text is None` checks of `text_node_to_html_node` are left out. The pipeline never builds a span without text, so the span's text is a string and not an `Option`.
- The `case _` branch of `text_node_to_html_node` is left out, because every span kind is matched.
- `HTMLNode.__repr__` is debugging output.
- Python's `re` module is not modelled. Its two uses are written as string functions, `BlockTypes.HeadingLine` and `Strings.CollapseWhitespace`, with `HeadingLineIsPattern` relating the first to the pattern.
- Unicode whitespace is not modelled. `str.strip`, `str.isspace` and `\s` use the ASCII whitespace set.
- The compiler appends to `parent_node.children` and `list_node.children` in place. The model builds the child list as a value and puts it in the node, so aliasing of those lists is not modelled.
- Exception classes are not modelled. `ValueError`, the generic `Exception` of the delimiter scan and the `IndexError` of `split(...)[1]` (src/utils.py:58 and 77) are all cases of `Errors.Error`, and the message text is reduced to the delimiter or marker involved.
- InlineDelimiter.SplitFrom: has no recursion bound. The Python scan recurses once per delimiter pair and raises `RecursionError` past the interpreter's recursion limit (about a thousand pairs), which the model does not reproduce.
- InlinePipeline.TextNodesKeepMarkdown: holds only when markers occur in plain spans alone. The image and link splitters re-split styled spans, so a marker inside a bold span loses the bold markup.
- InlineMarkup.SplitAllKeepsMarkdown: holds only under the same hypothesis, for the same reason.
