/** `BlockType` and `block_to_block_type` of utils.py: the kind of a block is
    decided from its lines by five tests tried in a fixed order, heading,
    code, quote, unordered list, ordered list; the first that passes wins
    and a block that passes none is a paragraph. */
module BlockTypes {
  import opened Strings

  datatype BlockType = Paragraph | Heading | Code | Quote | UnorderedList | OrderedList

  /** The number of '#' characters `s` starts with. */
  function LeadingHashes(s: string): (n: nat)
    ensures n <= |s|
    ensures forall j :: 0 <= j < n ==> s[j] == '#'
    ensures n < |s| ==> s[n] != '#'
    decreases |s|
  {
    if s != [] && s[0] == '#' then 1 + LeadingHashes(s[1..]) else 0
  }

  /** `re.match(r"^#{1,6} ", line)` read as the pattern says: a run of one
      to six '#' at the start, followed by a space. */
  predicate HeadingPattern(line: string) {
    exists k :: 1 <= k <= 6 && k < |line| && line[k] == ' ' && forall j :: 0 <= j < k ==> line[j] == '#'
  }

  /** The same test without a search: the whole run of leading '#' is one to
      six long and a space follows it. */
  predicate HeadingLine(line: string) {
    var n := LeadingHashes(line);
    1 <= n <= 6 && n < |line| && line[n] == ' '
  }

  /** The regular expression can only match the whole run of '#': a shorter
      run is followed by another '#', not by the space. */
  lemma HeadingLineIsPattern(line: string)
    ensures HeadingLine(line) <==> HeadingPattern(line)
  {
    var n := LeadingHashes(line);
    if HeadingPattern(line) {
      var k :| 1 <= k <= 6 && k < |line| && line[k] == ' ' && forall j :: 0 <= j < k ==> line[j] == '#';
    }
  }

  /** The stripped block opens and closes with a fence of three backticks. */
  predicate Fenced(block: string) {
    var t := Strip(block);
    StartsWith(t, "```") && EndsWith(t, "```")
  }

  /** Every line starts with `>`. */
  predicate QuoteLines(lines: seq<string>) {
    forall i :: 0 <= i < |lines| ==> StartsWith(lines[i], ">") && lines[i] != ""
  }

  /** Every line starts with `- `. */
  predicate BulletLines(lines: seq<string>) {
    forall i :: 0 <= i < |lines| ==> StartsWith(lines[i], "- ") && lines[i] != ""
  }

  /** The line at position `i`, counting from 0, starts with the numeral of
      `i + 1` and `. `, as `enumerate(lines, 1)` numbers them. */
  predicate NumberedLines(lines: seq<string>) {
    forall i :: 0 <= i < |lines| ==> StartsWith(lines[i], NatToString(i + 1) + ". ") && lines[i] != ""
  }

  /** `block_to_block_type`: the first test that passes decides; a block
      that passes none is a paragraph. */
  function BlockToBlockType(block: string): BlockType {
    var lines := Split(block, '\n');
    if |lines| == 1 && HeadingLine(lines[0]) then Heading
    else if Fenced(block) then Code
    else if QuoteLines(lines) then Quote
    else if BulletLines(lines) then UnorderedList
    else if NumberedLines(lines) then OrderedList
    else Paragraph
  }

  /** What each kind means. A heading is a block of a single line the
      regular expression matches; the later kinds hold their lines' test;
      a paragraph passes none of the five tests. */
  lemma BlockTypeCases(block: string)
    ensures var r, lines := BlockToBlockType(block), Split(block, '\n');
      && (r == Heading <==> |lines| == 1 && HeadingPattern(lines[0]))
      && (r == Code ==> Fenced(block))
      && (r == Quote ==> QuoteLines(lines))
      && (r == UnorderedList ==> BulletLines(lines))
      && (r == OrderedList ==> NumberedLines(lines))
      && (r == Paragraph <==>
            !(|lines| == 1 && HeadingPattern(lines[0])) && !Fenced(block) &&
            !QuoteLines(lines) && !BulletLines(lines) && !NumberedLines(lines))
  {
    HeadingLineIsPattern(Split(block, '\n')[0]);
  }

  /** The first line of a block that does not start with a line break
      starts with the block's first character. */
  lemma FirstLineStart(block: string)
    requires block != [] && block[0] != '\n'
    ensures Split(block, '\n')[0] != [] && Split(block, '\n')[0][0] == block[0]
  {
  }

  /** Joined lines start with the first character of the first line. */
  lemma JoinStart(lines: seq<string>)
    requires |lines| >= 1 && lines[0] != []
    ensures Join(lines, '\n') != [] && Join(lines, '\n')[0] == lines[0][0]
  {
  }

  /** One to six '#', a space and a line of text make a heading. */
  lemma HeadingBlock(level: nat, text: string)
    requires 1 <= level <= 6 && '\n' !in text
    ensures BlockToBlockType(Hashes(level) + " " + text) == Heading
  {
    var hashes := Hashes(level);
    assert '\n' !in hashes;
    var block := hashes + " " + text;
    assert '\n' !in block;
    SplitJoin([block], '\n');
    assert block[level] == ' ';
    HeadingLineIsPattern(block);
  }

  function Hashes(n: nat): (r: string)
    ensures |r| == n && forall j :: 0 <= j < n ==> r[j] == '#'
  {
    if n == 0 then "" else "#" + Hashes(n - 1)
  }

  /** A block fenced by three backticks on each side is a code block,
      whatever lies between. */
  lemma CodeBlock(inner: string)
    ensures BlockToBlockType("```" + inner + "```") == Code
  {
    var block := "```" + inner + "```";
    StripNothing(block);
    assert block[..3] == "```" && block[|block| - 3..] == "```";
    FirstLineStart(block);
  }

  /** A block whose first character is neither '#', a backtick, a line
      break nor whitespace is neither a heading nor a code block. */
  lemma NeitherHeadingNorCode(block: string)
    requires block != [] && !IsWhitespace(block[0]) && block[0] != '#' && block[0] != '`'
    ensures !HeadingLine(Split(block, '\n')[0]) && !Fenced(block)
  {
    assert block[0] != '\n';
    FirstLineStart(block);
    var line := Split(block, '\n')[0];
    assert LeadingHashes(line) == 0;
    StripKeepsFirst(block);
    StartsWithOther(Strip(block), "```");
  }

  /** Lines that each start with `>` join into a quote block. */
  lemma QuoteBlock(lines: seq<string>)
    requires |lines| >= 1 && forall i :: 0 <= i < |lines| ==> '\n' !in lines[i]
    requires QuoteLines(lines)
    ensures BlockToBlockType(Join(lines, '\n')) == Quote
  {
    StartsWithFirst(lines[0], ">");
    var block := Join(lines, '\n');
    JoinStart(lines);
    NeitherHeadingNorCode(block);
    SplitJoin(lines, '\n');
  }

  /** Lines that each start with `- ` join into an unordered list. */
  lemma BulletBlock(lines: seq<string>)
    requires |lines| >= 1 && forall i :: 0 <= i < |lines| ==> '\n' !in lines[i]
    requires BulletLines(lines)
    ensures BlockToBlockType(Join(lines, '\n')) == UnorderedList
  {
    StartsWithFirst(lines[0], "- ");
    StartsWithOther(lines[0], ">");
    var block := Join(lines, '\n');
    JoinStart(lines);
    NeitherHeadingNorCode(block);
    SplitJoin(lines, '\n');
    assert !QuoteLines(lines);
  }

  /** Lines numbered `1. `, `2. `, ... in order join into an ordered list. */
  lemma NumberedBlock(lines: seq<string>)
    requires |lines| >= 1 && forall i :: 0 <= i < |lines| ==> '\n' !in lines[i]
    requires NumberedLines(lines)
    ensures BlockToBlockType(Join(lines, '\n')) == OrderedList
  {
    var first := NatToString(1) + ". ";
    SingleDigit(1);
    assert first[0] == DigitChar(1);
    StartsWithFirst(lines[0], first);
    StartsWithOther(lines[0], ">");
    StartsWithOther(lines[0], "- ");
    var block := Join(lines, '\n');
    JoinStart(lines);
    NeitherHeadingNorCode(block);
    SplitJoin(lines, '\n');
    assert !QuoteLines(lines) && !BulletLines(lines);
  }

  /** A block whose first character can start none of the five kinds
      (no '#', backtick, `>`, `-`, digit or whitespace) is a paragraph. */
  lemma ParagraphBlock(block: string)
    requires block != [] && !IsWhitespace(block[0]) && !IsDigit(block[0])
    requires block[0] !in "#`>-"
    ensures BlockToBlockType(block) == Paragraph
  {
    var lines := Split(block, '\n');
    FirstLineStart(block);
    StripKeepsFirst(block);
    assert block[0] != '#' && block[0] != '`' && block[0] != '>' && block[0] != '-';
    assert lines[0][0] != (NatToString(1) + ". ")[0];
  }

  /** A line that starts with the numeral of `n` and `. ` carries the
      number `n` in decimal digits before its period. */
  lemma NumberedLine(line: string, n: nat)
    requires StartsWith(line, NatToString(n) + ". ")
    ensures var k := |NatToString(n)|;
      k < |line| && line[k] == '.' && (forall j :: 0 <= j < k ==> IsDigit(line[j])) && ParseNat(line[..k]) == n
  {
    var numeral := NatToString(n);
    var k := |numeral|;
    assert line[..k] == (numeral + ". ")[..k] == numeral;
    assert line[k] == (numeral + ". ")[k];
    ParseNatToString(n);
  }

  /** In an ordered list every line starts with the decimal numeral of its
      position, counting from one, and a period. */
  lemma OrderedListNumbers(block: string)
    requires BlockToBlockType(block) == OrderedList
    ensures forall i :: 0 <= i < |Split(block, '\n')| ==>
      var line, k := Split(block, '\n')[i], |NatToString(i + 1)|;
      k < |line| && line[k] == '.' &&
      (forall j :: 0 <= j < k ==> IsDigit(line[j])) && ParseNat(line[..k]) == i + 1
  {
    BlockTypeCases(block);
    var lines := Split(block, '\n');
    assert NumberedLines(lines);
    forall i | 0 <= i < |lines|
      ensures var line, k := lines[i], |NatToString(i + 1)|;
        k < |line| && line[k] == '.' &&
        (forall j :: 0 <= j < k ==> IsDigit(line[j])) && ParseNat(line[..k]) == i + 1
    {
      NumberedLine(lines[i], i + 1);
    }
  }
}
