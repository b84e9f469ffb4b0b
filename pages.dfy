/** What `markdown_to_html_node` promises about the tree it builds: one
    child of the root per block, the text each kind of block hands to the
    inline pipeline, what a list keeps of its lines, and the only errors a
    page can raise. */
module Pages {
  import opened Wrappers
  import opened Errors
  import opened Strings
  import opened InlineMarkup
  import opened HtmlNode
  import opened InlinePipeline
  import opened Blocks
  import opened BlockTypes
  import opened Compiler

  /** The root holds exactly one child per block, in block order, and the
      page raises exactly when one of its blocks does. */
  lemma OneChildPerBlock(markdown: string, extractImages: Extractor, extractLinks: Extractor)
    ensures PageOf(markdown, extractImages, extractLinks).Ok? <==>
      forall i :: 0 <= i < |BlocksOf(markdown)| ==> BlockNode(BlocksOf(markdown)[i], extractImages, extractLinks).Ok?
    ensures PageOf(markdown, extractImages, extractLinks).Ok? ==>
      var root := PageOf(markdown, extractImages, extractLinks).value;
      root.Generic? && root.tag == Some("div") && root.children.ChildList? &&
      |root.children.nodes| == |BlocksOf(markdown)| &&
      forall i :: 0 <= i < |BlocksOf(markdown)| ==>
        root.children.nodes[i] == BlockNode(BlocksOf(markdown)[i], extractImages, extractLinks).value
  {
    MapAllOk(BlocksOf(markdown), block => BlockNode(block, extractImages, extractLinks));
  }

  /** The errors of the inline pipeline: an unterminated `**`, `_` or
      `` ` ``, or a marker the text does not hold. */
  predicate InlineError(e: Error) {
    e == UnterminatedDelimiter("**") || e == UnterminatedDelimiter("_") ||
    e == UnterminatedDelimiter("`") || e.MissingMarker?
  }

  /** `text_to_children` raises only with an inline error. */
  lemma ChildrenErrors(text: string, extractImages: Extractor, extractLinks: Extractor)
    requires ChildrenOf(text, extractImages, extractLinks).Err?
    ensures InlineError(ChildrenOf(text, extractImages, extractLinks).error)
  {
    ChildrenRenderSpans(text, extractImages, extractLinks);
    TextNodesErrors(text, extractImages, extractLinks);
  }

  lemma {:induction false} ListItemsErrors(lines: seq<string>, itemOf: string -> Option<string>,
                                           extractImages: Extractor, extractLinks: Extractor)
    requires ListItems(lines, itemOf, extractImages, extractLinks).Err?
    ensures InlineError(ListItems(lines, itemOf, extractImages, extractLinks).error)
    decreases |lines|
  {
    match itemOf(lines[0]) {
      case None =>
        ListItemsErrors(lines[1..], itemOf, extractImages, extractLinks);
      case Some(content) =>
        if ChildrenOf(content, extractImages, extractLinks).Err? {
          ChildrenErrors(content, extractImages, extractLinks);
        } else {
          ListItemsErrors(lines[1..], itemOf, extractImages, extractLinks);
        }
    }
  }

  lemma BlockNodeErrors(block: string, extractImages: Extractor, extractLinks: Extractor)
    requires BlockNode(block, extractImages, extractLinks).Err?
    ensures InlineError(BlockNode(block, extractImages, extractLinks).error)
  {
    var lines := Split(block, '\n');
    match BlockToBlockType(block) {
      case Paragraph => ChildrenErrors(CollapseWhitespace(Strip(block)), extractImages, extractLinks);
      case Heading => ChildrenErrors(Strip(block[LeadingHashes(block)..]), extractImages, extractLinks);
      case Code =>
      case Quote => ChildrenErrors(Strip(QuoteAccum(lines)), extractImages, extractLinks);
      case OrderedList => ListItemsErrors(lines, OrderedItem, extractImages, extractLinks);
      case UnorderedList => ListItemsErrors(lines, UnorderedItem, extractImages, extractLinks);
    }
  }

  lemma BlockNodesErrors(blocks: seq<string>, extractImages: Extractor, extractLinks: Extractor)
    requires BlockNodes(blocks, extractImages, extractLinks).Err?
    ensures InlineError(BlockNodes(blocks, extractImages, extractLinks).error)
  {
    MapAllErr(blocks, block => BlockNode(block, extractImages, extractLinks));
    var i :| 0 <= i < |blocks| && BlockNode(blocks[i], extractImages, extractLinks).Err? &&
             BlockNodes(blocks, extractImages, extractLinks).error == BlockNode(blocks[i], extractImages, extractLinks).error;
    BlockNodeErrors(blocks[i], extractImages, extractLinks);
  }

  /** Converting a page raises only for an unterminated delimiter or a
      missing marker: never for a missing url, value, tag or children. */
  lemma PageErrors(markdown: string, extractImages: Extractor, extractLinks: Extractor)
    requires PageOf(markdown, extractImages, extractLinks).Err?
    ensures InlineError(PageOf(markdown, extractImages, extractLinks).error)
  {
    BlockNodesErrors(BlocksOf(markdown), extractImages, extractLinks);
  }

  /** A paragraph's text reaches the inline pipeline with its whitespace runs
      collapsed to single spaces and its ends stripped, and with every
      visible character of the block, in order. */
  lemma ParagraphText(block: string, extractImages: Extractor, extractLinks: Extractor)
    requires BlockToBlockType(block) == Paragraph
    ensures var t := CollapseWhitespace(Strip(block));
      Collapsed(t) && (t == [] || (!IsWhitespace(t[0]) && !IsWhitespace(t[|t| - 1]))) &&
      Visible(t) == Visible(block)
    ensures BlockNode(block, extractImages, extractLinks).Ok? ==>
      BlockNode(block, extractImages, extractLinks).value ==
      Container("p", ChildrenOf(CollapseWhitespace(Strip(block)), extractImages, extractLinks).value)
  {
    var s := Strip(block);
    VisibleStrip(block);
    CollapseKeepsVisible(s);
    if s != [] {
      CollapseKeepsLast(s);
    }
  }

  /** Two pieces of a paragraph with visible ends, separated by any run of
      whitespace (a line break, several spaces), reach the inline pipeline as
      their own collapsed texts joined by exactly one space. */
  lemma {:induction false} ParagraphRun(x: string, w: string, y: string)
    requires x != [] && !IsWhitespace(x[0]) && !IsWhitespace(x[|x| - 1])
    requires w != [] && IsBlank(w)
    requires y != [] && !IsWhitespace(y[0]) && !IsWhitespace(y[|y| - 1])
    ensures CollapseWhitespace(Strip(x + w + y)) == CollapseWhitespace(x) + " " + CollapseWhitespace(y)
  {
    var s := x + w + y;
    assert s[0] == x[0] && s[|s| - 1] == y[|y| - 1];
    StripNothing(s);
    CollapseRun(x, w, y);
  }

  /** Two lines of single words become those words with one space between. */
  lemma ParagraphWords(x: string, y: string)
    requires x != [] && forall i :: 0 <= i < |x| ==> !IsWhitespace(x[i])
    requires y != [] && forall i :: 0 <= i < |y| ==> !IsWhitespace(y[i])
    ensures CollapseWhitespace(Strip(x + "\n" + y)) == x + " " + y
  {
    ParagraphRun(x, "\n", y);
    CollapseNoWhitespace(x);
    CollapseNoWhitespace(y);
  }

  /** The node of a heading block: `h` and the number of leading '#',
      holding the children of the rest of the block, stripped. */
  lemma HeadingNode(block: string, extractImages: Extractor, extractLinks: Extractor)
    requires BlockToBlockType(block) == Heading
    ensures var level := LeadingHashes(block);
      level <= |block| &&
      BlockNode(block, extractImages, extractLinks) ==
      match ChildrenOf(Strip(block[level..]), extractImages, extractLinks)
      case Err(e) => Err(e)
      case Ok(children) => Ok(Container("h" + NatToString(level), children))
  {
  }

  /** The heading written as one to six '#', a space and a line of text:
      its run of '#' is the level, and the rest is the space and the text. */
  lemma HeadingParts(level: nat, text: string)
    requires 1 <= level <= 6
    ensures var block := Hashes(level) + " " + text;
      LeadingHashes(block) == level && block[level..] == " " + text
  {
    var block := Hashes(level) + " " + text;
    assert block[level] == ' ';
    LeadingHashesUnique(block, level);
    AfterPrefix(Hashes(level), " ", text);
  }

  lemma StripSpace(text: string)
    ensures Strip(" " + text) == Strip(text)
  {
    assert (" " + text)[1..] == text;
    assert LStrip(" " + text) == LStrip(text);
  }

  /** One to six '#', a space and a line of text compile to the heading
      element of that level, `h1` to `h6`, whose children come from the
      stripped text. */
  lemma HeadingCompiles(level: nat, text: string, extractImages: Extractor, extractLinks: Extractor)
    requires 1 <= level <= 6 && '\n' !in text
    ensures var block := Hashes(level) + " " + text;
      BlockNode(block, extractImages, extractLinks) ==
      match ChildrenOf(Strip(text), extractImages, extractLinks)
      case Err(e) => Err(e)
      case Ok(children) => Ok(Container("h" + [DigitChar(level)], children))
  {
    HeadingBlock(level, text);
    HeadingParts(level, text);
    StripSpace(text);
    SingleDigit(level);
    HeadingNode(Hashes(level) + " " + text, extractImages, extractLinks);
  }

  /** The node of a code block: `pre` holding `code` holding one untagged
      leaf with the block's code text. */
  lemma CodeNode(block: string, extractImages: Extractor, extractLinks: Extractor)
    requires BlockToBlockType(block) == Code
    ensures BlockNode(block, extractImages, extractLinks) ==
      Ok(Container("pre", [Container("code", [Leaf(None, Some(CodeContent(block)), None)])]))
  {
  }

  /** A block of lines between two fences is a code block whose lines are
      those lines. */
  lemma CodeParts(body: seq<string>)
    requires forall i :: 0 <= i < |body| ==> '\n' !in body[i]
    ensures var lines := ["```"] + body + ["```"];
      BlockToBlockType(Join(lines, '\n')) == Code && Split(Strip(Join(lines, '\n')), '\n') == lines
  {
    var lines := ["```"] + body + ["```"];
    var block := Join(lines, '\n');
    var middle := if body == [] then [] else Join(body, '\n') + ['\n'];
    var inner := ['\n'] + middle;
    JoinBetween("```", body, "```", '\n');
    Regroup("```", ['\n'], middle, "```");
    CodeBlock(inner);
    StripNothing(block);
    LinesWithout("```", body, "```", '\n');
    SplitJoin(lines, '\n');
  }

  /** The code text of lines between two fences ends with a line break, and
      what comes before it, split at its line breaks, is those lines with
      their leading whitespace dropped; lines that start with no whitespace
      come through unchanged. */
  lemma CodeText(body: seq<string>)
    requires forall i :: 0 <= i < |body| ==> '\n' !in body[i]
    ensures var c := FenceContent(["```"] + body + ["```"]);
      c != [] && c[|c| - 1] == '\n' &&
      (body == [] ==> c == "\n") &&
      (body != [] ==> Split(c[..|c| - 1], '\n') == seq(|body|, i requires 0 <= i < |body| => LStrip(body[i]))) &&
      ((forall i :: 0 <= i < |body| ==> body[i] == [] || !IsWhitespace(body[i][0])) ==> c == Join(body, '\n') + "\n")
  {
    var lines := ["```"] + body + ["```"];
    assert lines[1..|lines| - 1] == body;
    var stripped := seq(|body|, i requires 0 <= i < |body| => LStrip(body[i]));
    var c := FenceContent(lines);
    assert c == Join(stripped, '\n') + "\n";
    assert c[..|c| - 1] == Join(stripped, '\n');
    if body != [] {
      forall i | 0 <= i < |stripped| ensures '\n' !in stripped[i] {
        LStripDrops(body[i]);
      }
      SplitJoin(stripped, '\n');
    }
    if forall i :: 0 <= i < |body| ==> body[i] == [] || !IsWhitespace(body[i][0]) {
      assert stripped == body;
    }
  }

  /** A fenced code block compiles to `pre` holding `code` holding one
      untagged leaf whose text is the lines between the fences, each with its
      leading whitespace dropped, joined, with a final line break; nothing in
      it is parsed as inline markup. */
  lemma CodeCompiles(body: seq<string>, extractImages: Extractor, extractLinks: Extractor)
    requires forall i :: 0 <= i < |body| ==> '\n' !in body[i]
    ensures BlockNode(Join(["```"] + body + ["```"], '\n'), extractImages, extractLinks) ==
      Ok(Container("pre", [Container("code",
        [Leaf(None, Some(Join(seq(|body|, i requires 0 <= i < |body| => LStrip(body[i])), '\n') + "\n"), None)])]))
  {
    var lines := ["```"] + body + ["```"];
    CodeParts(body);
    assert lines[1..|lines| - 1] == body;
    CodeNode(Join(lines, '\n'), extractImages, extractLinks);
  }

  lemma LinesWithout(first: string, body: seq<string>, last: string, c: char)
    requires c !in first && c !in last && forall i :: 0 <= i < |body| ==> c !in body[i]
    ensures forall i :: 0 <= i < |[first] + body + [last]| ==> c !in ([first] + body + [last])[i]
  {
    var lines := [first] + body + [last];
    forall i | 0 <= i < |lines| ensures c !in lines[i] {
      if 0 < i < |lines| - 1 {
        assert lines[i] == body[i - 1];
      }
    }
  }

  lemma AfterPrefix(x: string, y: string, z: string)
    ensures (x + y + z)[|x|..] == y + z
  {
  }

  lemma Regroup(a: string, b: string, c: string, d: string)
    ensures a + b + c + d == a + (b + c) + d
  {
  }

  /** The lines of a quote with their `>` dropped, concatenated. */
  function Unquoted(lines: seq<string>): string {
    if lines == [] then []
    else
      var last := lines[|lines| - 1];
      Unquoted(lines[..|lines| - 1]) + (if last == [] then [] else last[1..])
  }

  lemma {:induction false} QuoteAccumVisible(lines: seq<string>)
    requires QuoteLines(lines)
    ensures Visible(QuoteAccum(lines)) == Visible(Unquoted(lines))
    decreases |lines|
  {
    if lines != [] {
      var init, last := lines[..|lines| - 1], lines[|lines| - 1];
      assert forall i :: 0 <= i < |init| ==> init[i] == lines[i];
      QuoteAccumVisible(init);
      assert StartsWith(last, ">") && last != [];
      QuoteStep(QuoteAccum(init), Unquoted(init), last[1..]);
    }
  }

  /** One more quoted line adds the same visible characters to both sides. */
  lemma QuoteStep(gathered: string, unquoted: string, rest: string)
    requires Visible(gathered) == Visible(unquoted)
    ensures Visible(gathered + (Strip(rest) + " ")) == Visible(unquoted + rest)
  {
    VisibleAppend(gathered, Strip(rest) + " ");
    VisibleAppend(Strip(rest), " ");
    VisibleStrip(rest);
    assert Visible(" ") == [];
    VisibleAppend(unquoted, rest);
  }

  /** A quote's text reaches the inline pipeline stripped, holding every
      visible character of its lines after their `>`, in order. */
  lemma QuoteText(block: string, extractImages: Extractor, extractLinks: Extractor)
    requires BlockToBlockType(block) == Quote
    ensures var t := Strip(QuoteAccum(Split(block, '\n')));
      (t == [] || (!IsWhitespace(t[0]) && !IsWhitespace(t[|t| - 1]))) &&
      Visible(t) == Visible(Unquoted(Split(block, '\n')))
    ensures BlockNode(block, extractImages, extractLinks).Ok? ==>
      BlockNode(block, extractImages, extractLinks).value ==
      Container("blockquote", ChildrenOf(Strip(QuoteAccum(Split(block, '\n'))), extractImages, extractLinks).value)
  {
    BlockTypeCases(block);
    var lines := Split(block, '\n');
    assert QuoteLines(lines);
    VisibleStrip(QuoteAccum(lines));
    QuoteAccumVisible(lines);
  }

  /** What each line of a quote contributes: its text after the `>`, stripped. */
  function QuotePieces(lines: seq<string>): seq<string> {
    seq(|lines|, i requires 0 <= i < |lines| => if lines[i] == [] then [] else Strip(lines[i][1..]))
  }

  /** The quote loop gathers each line's text followed by one space: the
      texts joined by single spaces, and a final space. */
  lemma {:induction false} QuoteAccumJoin(lines: seq<string>)
    requires lines != [] && QuoteLines(lines)
    ensures QuoteAccum(lines) == Join(QuotePieces(lines), ' ') + " "
    decreases |lines|
  {
    var init, last := lines[..|lines| - 1], lines[|lines| - 1];
    assert StartsWith(last, ">") && last != [];
    var piece := Strip(last[1..]);
    assert QuoteAccum(lines) == QuoteAccum(init) + (piece + " ");
    QuotePiecesSnoc(lines);
    if init == [] {
      assert QuotePieces(lines) == [piece];
    } else {
      assert forall i :: 0 <= i < |init| ==> init[i] == lines[i];
      QuoteAccumJoin(init);
      QuoteJoinStep(QuoteAccum(init), QuotePieces(init), piece);
    }
  }

  lemma QuotePiecesSnoc(lines: seq<string>)
    requires lines != [] && lines[|lines| - 1] != []
    ensures QuotePieces(lines) == QuotePieces(lines[..|lines| - 1]) + [Strip(lines[|lines| - 1][1..])]
  {
  }

  /** One more piece after the gathered text and its space. */
  lemma QuoteJoinStep(gathered: string, pieces: seq<string>, piece: string)
    requires |pieces| >= 1 && gathered == Join(pieces, ' ') + " "
    ensures gathered + (piece + " ") == Join(pieces + [piece], ' ') + " "
  {
    JoinSnoc(pieces, piece, ' ');
  }

  /** A quote's text is its lines' texts after the `>`, each stripped, joined
      by single spaces, the whole stripped; when the first and the last of
      those texts are not empty, the join is the text as it stands. */
  lemma QuoteJoinsLines(block: string, extractImages: Extractor, extractLinks: Extractor)
    requires BlockToBlockType(block) == Quote
    ensures var pieces := QuotePieces(Split(block, '\n'));
      Strip(QuoteAccum(Split(block, '\n'))) == Strip(Join(pieces, ' ')) &&
      (pieces[0] != [] && pieces[|pieces| - 1] != [] ==> Strip(QuoteAccum(Split(block, '\n'))) == Join(pieces, ' '))
    ensures BlockNode(block, extractImages, extractLinks).Ok? ==>
      BlockNode(block, extractImages, extractLinks).value ==
      Container("blockquote", ChildrenOf(Strip(Join(QuotePieces(Split(block, '\n')), ' ')), extractImages, extractLinks).value)
  {
    QuoteBlockLines(block);
    QuoteJoinText(Split(block, '\n'));
  }

  lemma QuoteBlockLines(block: string)
    requires BlockToBlockType(block) == Quote
    ensures QuoteLines(Split(block, '\n'))
  {
    BlockTypeCases(block);
  }

  /** The quote loop's text, stripped, is the lines' pieces joined by single
      spaces, stripped; the join itself when its end pieces are not empty. */
  lemma QuoteJoinText(lines: seq<string>)
    requires lines != [] && QuoteLines(lines)
    ensures var pieces := QuotePieces(lines);
      Strip(QuoteAccum(lines)) == Strip(Join(pieces, ' ')) &&
      (pieces[0] != [] && pieces[|pieces| - 1] != [] ==> Strip(QuoteAccum(lines)) == Join(pieces, ' '))
  {
    var pieces := QuotePieces(lines);
    QuoteAccumJoin(lines);
    StripSpaceAfter(Join(pieces, ' '));
    if pieces[0] != [] && pieces[|pieces| - 1] != [] {
      assert pieces[0] == Strip(lines[0][1..]);
      assert pieces[|pieces| - 1] == Strip(lines[|lines| - 1][1..]);
      JoinStripped(pieces);
    }
  }

  /** Pieces whose join starts and ends with visible characters join to a
      text that stripping leaves alone. */
  lemma JoinStripped(pieces: seq<string>)
    requires pieces != [] && pieces[0] != [] && pieces[|pieces| - 1] != []
    requires !IsWhitespace(pieces[0][0]) && !IsWhitespace(pieces[|pieces| - 1][|pieces[|pieces| - 1]| - 1])
    ensures Strip(Join(pieces, ' ')) == Join(pieces, ' ')
  {
    JoinEnds(pieces, ' ');
    StripNothing(Join(pieces, ' '));
  }

  /** The text of each line the item test accepts, in order. */
  function Contents(lines: seq<string>, itemOf: string -> Option<string>): seq<string> {
    if lines == [] then []
    else (match itemOf(lines[0]) case Some(text) => [text] case None => []) + Contents(lines[1..], itemOf)
  }

  /** `items` are one `li` per text, in order, each holding the children
      `childrenOf` gives for its text. */
  predicate ItemsHold(items: seq<Node>, texts: seq<string>, childrenOf: string -> Result<seq<Node>, Error>) {
    |items| == |texts| &&
    forall j :: 0 <= j < |texts| ==>
      childrenOf(texts[j]).Ok? && items[j] == Container("li", childrenOf(texts[j]).value)
  }

  lemma ItemsHoldCons(text: string, rest: seq<Node>, texts: seq<string>, childrenOf: string -> Result<seq<Node>, Error>)
    requires childrenOf(text).Ok?
    requires ItemsHold(rest, texts, childrenOf)
    ensures ItemsHold([Container("li", childrenOf(text).value)] + rest, [text] + texts, childrenOf)
  {
    var items := [Container("li", childrenOf(text).value)] + rest;
    var all := [text] + texts;
    forall j | 1 <= j < |all|
      ensures childrenOf(all[j]).Ok? && items[j] == Container("li", childrenOf(all[j]).value)
    {
      assert items[j] == rest[j - 1] && all[j] == texts[j - 1];
    }
  }

  /** A list holds one `li` per accepted line, in order, each holding the
      children of that line's text. */
  lemma {:induction false} ListItemsContents(lines: seq<string>, itemOf: string -> Option<string>,
                                             extractImages: Extractor, extractLinks: Extractor)
    requires ListItems(lines, itemOf, extractImages, extractLinks).Ok?
    ensures ItemsHold(ListItems(lines, itemOf, extractImages, extractLinks).value, Contents(lines, itemOf),
                      text => ChildrenOf(text, extractImages, extractLinks))
    decreases |lines|
  {
    if lines != [] {
      ListItemsContents(lines[1..], itemOf, extractImages, extractLinks);
      match itemOf(lines[0])
      case None =>
      case Some(text) =>
        ItemsHoldCons(text, ListItems(lines[1..], itemOf, extractImages, extractLinks).value,
                      Contents(lines[1..], itemOf), t => ChildrenOf(t, extractImages, extractLinks));
    }
  }

  /** When the item test accepts exactly the first `k` lines, the texts are
      those of the first `k` lines, or of all of them if there are fewer. */
  lemma {:induction false} ContentsFirst(lines: seq<string>, itemOf: string -> Option<string>, k: nat)
    requires forall i :: 0 <= i < |lines| ==> (itemOf(lines[i]).Some? <==> i < k)
    ensures |Contents(lines, itemOf)| == if |lines| < k then |lines| else k
    ensures forall i :: 0 <= i < |Contents(lines, itemOf)| ==> Contents(lines, itemOf)[i] == itemOf(lines[i]).value
    decreases |lines|
  {
    if lines != [] {
      assert forall i :: 0 <= i < |lines| - 1 ==> lines[1..][i] == lines[i + 1];
      ContentsFirst(lines[1..], itemOf, if k == 0 then 0 else k - 1);
      if k > 0 {
        var texts := Contents(lines, itemOf);
        assert texts == [itemOf(lines[0]).value] + Contents(lines[1..], itemOf);
        forall i | 1 <= i < |texts| ensures texts[i] == itemOf(lines[i]).value {
          assert texts[i] == Contents(lines[1..], itemOf)[i - 1];
        }
      }
    }
  }

  /** The unordered-list loop's item test: a line is an item exactly when,
      stripped, it starts with `-`, `*` or `+`; its text is what follows
      that one character, stripped. */
  lemma UnorderedMarkers(line: string)
    ensures var t := Strip(line);
      (UnorderedItem(line).Some? <==> t != [] && t[0] in {'-', '*', '+'}) &&
      (UnorderedItem(line).Some? ==> UnorderedItem(line).value == Strip(t[1..]))
  {
    var t := Strip(line);
    if t != [] {
      assert StartsWith(t, "-") <==> t[0] == '-';
      assert StartsWith(t, "*") <==> t[0] == '*';
      assert StartsWith(t, "+") <==> t[0] == '+';
    }
  }

  /** Every line of an unordered list starts with `- `, so the list loop,
      which accepts `-`, `*` and `+`, keeps every one of them: item `i`
      holds the children of line `i` stripped, without its marker, stripped
      again. */
  lemma UnorderedListKeepsAll(block: string, extractImages: Extractor, extractLinks: Extractor)
    requires BlockToBlockType(block) == UnorderedList && BlockNode(block, extractImages, extractLinks).Ok?
    ensures var list, lines := BlockNode(block, extractImages, extractLinks).value, Split(block, '\n');
      list.Generic? && list.tag == Some("ul") && |list.ChildrenField().OrEmpty()| == |lines| &&
      forall i :: 0 <= i < |lines| ==>
        var t := Strip(lines[i]);
        t != [] && t[0] == '-' && ChildrenOf(Strip(t[1..]), extractImages, extractLinks).Ok? &&
        list.ChildrenField().OrEmpty()[i] == Container("li", ChildrenOf(Strip(t[1..]), extractImages, extractLinks).value)
  {
    var lines := Split(block, '\n');
    assert BulletLines(lines) by {
      BlockTypeCases(block);
    }
    forall i | 0 <= i < |lines| ensures Strip(lines[i]) != [] && Strip(lines[i])[0] == '-' && UnorderedItem(lines[i]).Some? {
      StartsWithFirst(lines[i], "- ");
      StripKeepsFirst(lines[i]);
      var t := Strip(lines[i]);
      assert t[..1] == "-";
    }
    ListKeepsFirst(lines, "ul", UnorderedItem, |lines|, extractImages, extractLinks);
  }

  /** When the item test accepts exactly the first `k` lines, the list holds
      one `li` for each of them, in order, around the children of its text. */
  lemma ListKeepsFirst(lines: seq<string>, tag: string, itemOf: string -> Option<string>, k: nat,
                       extractImages: Extractor, extractLinks: Extractor)
    requires ListNode(lines, tag, itemOf, extractImages, extractLinks).Ok?
    requires forall i :: 0 <= i < |lines| ==> (itemOf(lines[i]).Some? <==> i < k)
    ensures var list := ListNode(lines, tag, itemOf, extractImages, extractLinks).value;
      list.Generic? && list.tag == Some(tag) &&
      |list.ChildrenField().OrEmpty()| == (if |lines| < k then |lines| else k) &&
      forall i :: 0 <= i < |lines| && i < k ==>
        ChildrenOf(itemOf(lines[i]).value, extractImages, extractLinks).Ok? &&
        list.ChildrenField().OrEmpty()[i] == Container("li", ChildrenOf(itemOf(lines[i]).value, extractImages, extractLinks).value)
  {
    ListItemsContents(lines, itemOf, extractImages, extractLinks);
    ContentsFirst(lines, itemOf, k);
  }

  /** A line numbered with a single digit is an ordered-list item whose text
      is the line stripped, without its digit and period, stripped again. */
  lemma OrderedLineKept(line: string, n: nat)
    requires 1 <= n <= 9 && StartsWith(line, NatToString(n) + ". ")
    ensures var t := Strip(line); |t| >= 2 && OrderedItem(line) == Some(Strip(t[2..]))
  {
    var numeral := NatToString(n) + ". ";
    assert NatToString(n) == [DigitChar(n)];
    assert line[..2] == numeral[..2];
    StripKeepsPrefix(line, 2);
    var t := Strip(line);
    assert StartsWith(t, NatToString(n) + ".") by {
      assert t[..2] == line[..2] == NatToString(n) + ".";
    }
    assert DigitDot(t);
    assert OccursAt(t, ".", 1) by {
      assert t[1..2] == ".";
    }
    assert !OccursAt(t, ".", 0) by {
      assert t[0] == DigitChar(n);
    }
    IndexOfIsFirst(t, ".");
  }

  /** A line numbered 10 or more is not: the item test wants a single digit
      before the period. */
  lemma OrderedLineDropped(line: string, n: nat)
    requires n >= 10 && StartsWith(line, NatToString(n) + ". ")
    ensures OrderedItem(line).None?
  {
    var numeral := NatToString(n);
    var k := |numeral|;
    assert line[..k + 1] == (numeral + ". ")[..k + 1];
    assert line[k] == '.';
    StripKeepsPrefix(line, k + 1);
    var t := Strip(line);
    assert t[1] == line[1] == numeral[1];
    forall d | 0 <= d < 10 ensures !StartsWith(t, NatToString(d) + ".") {
      assert NatToString(d) == [DigitChar(d)];
      assert (NatToString(d) + ".")[1] == '.';
      assert t[1] != '.';
    }
  }

  /** An ordered list keeps its first nine items and silently drops every
      later one: the classifier accepts `10. ` but the list loop does not.
      Item `i` holds the children of line `i` stripped, without its digit and
      period, stripped again. */
  lemma OrderedListKeepsNine(block: string, extractImages: Extractor, extractLinks: Extractor)
    requires BlockToBlockType(block) == OrderedList && BlockNode(block, extractImages, extractLinks).Ok?
    ensures var list, lines := BlockNode(block, extractImages, extractLinks).value, Split(block, '\n');
      var n := |lines|;
      list.Generic? && list.tag == Some("ol") &&
      |list.ChildrenField().OrEmpty()| == (if n <= 9 then n else 9) &&
      forall i :: 0 <= i < n && i < 9 ==>
        var t := Strip(lines[i]);
        |t| >= 2 && ChildrenOf(Strip(t[2..]), extractImages, extractLinks).Ok? &&
        list.ChildrenField().OrEmpty()[i] == Container("li", ChildrenOf(Strip(t[2..]), extractImages, extractLinks).value)
  {
    var lines := Split(block, '\n');
    assert NumberedLines(lines) by {
      BlockTypeCases(block);
    }
    forall i | 0 <= i < |lines|
      ensures (OrderedItem(lines[i]).Some? <==> i < 9) &&
        (i < 9 ==> |Strip(lines[i])| >= 2 && OrderedItem(lines[i]) == Some(Strip(Strip(lines[i])[2..])))
    {
      if i < 9 {
        OrderedLineKept(lines[i], i + 1);
      } else {
        OrderedLineDropped(lines[i], i + 1);
      }
    }
    ListKeepsFirst(lines, "ol", OrderedItem, 9, extractImages, extractLinks);
  }
}
