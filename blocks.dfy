/** `markdown_to_blocks` of utils.py: the document is cut into lines, and the
    lines into blocks. Outside a fenced code block a blank line ends the block
    being built; a fence line opens a code block, which runs, blank lines and
    all, up to and including the next fence line. */
module Blocks {
  import opened Wrappers
  import opened Strings

  /** `line.strip().startswith("```")`: the line opens or closes a code block. */
  predicate IsFence(line: string) {
    StartsWith(Strip(line), "```")
  }

  /** The loop state of `markdown_to_blocks`: the blocks finished so far, each
      as its list of lines, the lines of the block being built
      (`current_block`), and `in_code_block`. */
  datatype Scanner = Scanner(groups: seq<seq<string>>, current: seq<string>, inCode: bool)

  /** One turn of the loop, branch for branch: a fence line opens a code
      block (finishing a non-empty block first) or closes the open one;
      inside a code block every line is kept; outside, a blank line finishes
      a non-empty block, a non-blank line extends it, and a blank line with
      nothing to finish is dropped. */
  function Step(s: Scanner, line: string): Scanner {
    if IsFence(line) then
      if !s.inCode then Scanner(s.groups + (if s.current != [] then [s.current] else []), [line], true)
      else Scanner(s.groups + [s.current + [line]], [], false)
    else if s.inCode then Scanner(s.groups, s.current + [line], true)
    else if Strip(line) == "" && s.current != [] then Scanner(s.groups + [s.current], [], false)
    else if Strip(line) != "" then Scanner(s.groups, s.current + [line], false)
    else s
  }

  /** The loop state after the given lines. */
  function Scan(lines: seq<string>): Scanner
    decreases |lines|
  {
    if lines == [] then Scanner([], [], false)
    else Step(Scan(lines[..|lines| - 1]), lines[|lines| - 1])
  }

  /** The blocks as lists of lines once the last one is finished
      (`if current_block:` after the loop). */
  function Groups(lines: seq<string>): seq<seq<string>> {
    var s := Scan(lines);
    s.groups + (if s.current != [] then [s.current] else [])
  }

  /** Every list of lines joined with "\n", in order. */
  function JoinAll(groups: seq<seq<string>>): (r: seq<string>)
    ensures |r| == |groups|
    ensures forall i :: 0 <= i < |groups| ==> r[i] == Join(groups[i], '\n')
    decreases |groups|
  {
    if groups == [] then []
    else JoinAll(groups[..|groups| - 1]) + [Join(groups[|groups| - 1], '\n')]
  }

  /** `[block for block in blocks if block.strip()]`. */
  function DropBlank(blocks: seq<string>): (r: seq<string>)
    ensures forall i :: 0 <= i < |r| ==> Strip(r[i]) != ""
    ensures (forall i :: 0 <= i < |blocks| ==> Strip(blocks[i]) != "") ==> r == blocks
    decreases |blocks|
  {
    if blocks == [] then []
    else (if Strip(blocks[0]) != "" then [blocks[0]] else []) + DropBlank(blocks[1..])
  }

  /** `markdown_to_blocks(markdown)` as a value. */
  function BlocksOf(markdown: string): seq<string> {
    DropBlank(JoinAll(Groups(Split(markdown, '\n'))))
  }

  /** `markdown_to_blocks(markdown)`. */
  method MarkdownToBlocks(markdown: string) returns (blocks: seq<string>)
    ensures blocks == BlocksOf(markdown)
  {
    var lines := Split(markdown, '\n');
    blocks := [];
    var currentBlock: seq<string> := [];
    var inCodeBlock := false;
    ghost var groups: seq<seq<string>> := [];
    for i := 0 to |lines|
      invariant Scan(lines[..i]) == Scanner(groups, currentBlock, inCodeBlock)
      invariant blocks == JoinAll(groups)
    {
      var line := lines[i];
      ScanSnoc(lines, i);
      if StartsWith(Strip(line), "```") {
        if !inCodeBlock {
          if currentBlock == [] {
            StepOpenEmpty(Scanner(groups, currentBlock, inCodeBlock), line);
          } else {
            JoinAllSnoc(groups, currentBlock);
            blocks := blocks + [Join(currentBlock, '\n')];
            groups := groups + [currentBlock];
            currentBlock := [];
          }
          assert currentBlock == [] && [] + [line] == [line];
          currentBlock := currentBlock + [line];
          inCodeBlock := true;
        } else {
          currentBlock := currentBlock + [line];
          JoinAllSnoc(groups, currentBlock);
          blocks := blocks + [Join(currentBlock, '\n')];
          groups := groups + [currentBlock];
          currentBlock := [];
          inCodeBlock := false;
        }
      } else if inCodeBlock {
        currentBlock := currentBlock + [line];
      } else if Strip(line) == "" && currentBlock != [] && !inCodeBlock {
        JoinAllSnoc(groups, currentBlock);
        blocks := blocks + [Join(currentBlock, '\n')];
        groups := groups + [currentBlock];
        currentBlock := [];
      } else if Strip(line) != "" && !inCodeBlock {
        currentBlock := currentBlock + [line];
      }
    }
    assert lines[..|lines|] == lines;
    if currentBlock != [] {
      JoinAllSnoc(groups, currentBlock);
      blocks := blocks + [Join(currentBlock, '\n')];
      groups := groups + [currentBlock];
    }
    assert groups == Groups(lines);
    blocks := DropBlank(blocks);
  }

  /** Opening a code block when nothing is being built finishes nothing. */
  lemma StepOpenEmpty(s: Scanner, line: string)
    requires IsFence(line) && !s.inCode && s.current == []
    ensures Step(s, line) == Scanner(s.groups, [line], true)
  {
    assert s.groups + [] == s.groups;
  }

  lemma ScanSnoc(lines: seq<string>, i: nat)
    requires i < |lines|
    ensures Scan(lines[..i + 1]) == Step(Scan(lines[..i]), lines[i])
  {
    assert lines[..i + 1][..i] == lines[..i];
  }

  lemma JoinAllSnoc(groups: seq<seq<string>>, g: seq<string>)
    ensures JoinAll(groups + [g]) == JoinAll(groups) + [Join(g, '\n')]
  {
    assert (groups + [g])[..|groups|] == groups;
  }

  /** An ordinary block: lines none of which is blank or a fence. */
  predicate PlainGroup(g: seq<string>) {
    g != [] && forall i :: 0 <= i < |g| ==> !IsBlank(g[i]) && !IsFence(g[i])
  }

  /** A code block: its opening fence line, then lines none of which is a
      fence, then, when `closed`, its closing fence line. */
  predicate CodeGroup(g: seq<string>, closed: bool) {
    && g != []
    && IsFence(g[0])
    && (closed ==> |g| >= 2 && IsFence(g[|g| - 1]))
    && forall i :: 0 < i < |g| - (if closed then 1 else 0) ==> !IsFence(g[i])
  }

  /** What the loop keeps true: finished blocks are ordinary or closed code
      blocks; inside a code block the block being built is an open code
      block; outside, it is empty or ordinary. */
  predicate ValidScanner(s: Scanner) {
    && (forall i :: 0 <= i < |s.groups| ==> PlainGroup(s.groups[i]) || CodeGroup(s.groups[i], true))
    && (s.inCode ==> CodeGroup(s.current, false))
    && (!s.inCode ==> s.current == [] || PlainGroup(s.current))
  }

  lemma StepValid(s: Scanner, line: string)
    requires ValidScanner(s)
    ensures ValidScanner(Step(s, line))
  {
    var t := Step(s, line);
    if IsFence(line) && s.inCode {
      var g := s.current + [line];
      assert g[0] == s.current[0] && g[|g| - 1] == line;
      assert forall i :: 0 < i < |g| - 1 ==> g[i] == s.current[i];
      assert t.groups[|t.groups| - 1] == g;
    } else if !IsFence(line) && s.inCode {
      assert forall i :: 0 <= i < |s.current| ==> t.current[i] == s.current[i];
    } else if !IsFence(line) && Strip(line) != "" {
      assert forall i :: 0 <= i < |s.current| ==> t.current[i] == s.current[i];
    }
  }

  lemma {:induction false} ScanValid(lines: seq<string>)
    ensures ValidScanner(Scan(lines))
    decreases |lines|
  {
    if lines != [] {
      ScanValid(lines[..|lines| - 1]);
      StepValid(Scan(lines[..|lines| - 1]), lines[|lines| - 1]);
    }
  }

  /** Every block is an ordinary block or a closed code block, except that
      the last may be a code block whose closing fence never came. */
  lemma GroupsShape(lines: seq<string>)
    ensures forall i :: 0 <= i < |Groups(lines)| ==>
      PlainGroup(Groups(lines)[i]) || CodeGroup(Groups(lines)[i], true) ||
      (i == |Groups(lines)| - 1 && CodeGroup(Groups(lines)[i], false))
  {
    ScanValid(lines);
  }

  /** No block is blank: an ordinary block has no blank line and a code block
      starts with a fence line; so the final filter drops nothing. */
  lemma {:induction false} BlocksNeverBlank(lines: seq<string>)
    ensures forall i :: 0 <= i < |Groups(lines)| ==> Strip(JoinAll(Groups(lines))[i]) != ""
    ensures DropBlank(JoinAll(Groups(lines))) == JoinAll(Groups(lines))
  {
    var gs := Groups(lines);
    GroupsShape(lines);
    forall i | 0 <= i < |gs| ensures Strip(JoinAll(gs)[i]) != "" {
      var g := gs[i];
      assert !IsBlank(g[0]) by {
        if IsFence(g[0]) {
          assert Strip(g[0]) != "";
        }
      }
      if IsBlank(Join(g, '\n')) {
        JoinBlank(g, '\n');
      }
    }
  }

  /** All lines of a list of blocks, in order. */
  function Flatten(groups: seq<seq<string>>): seq<string>
    decreases |groups|
  {
    if groups == [] then [] else Flatten(groups[..|groups| - 1]) + groups[|groups| - 1]
  }

  /** `kept` is `lines` with some blank lines left out, order kept. */
  predicate DropsOnlyBlank(kept: seq<string>, lines: seq<string>)
    decreases |lines|
  {
    if lines == [] then kept == []
    else
      || (kept != [] && kept[|kept| - 1] == lines[|lines| - 1] &&
          DropsOnlyBlank(kept[..|kept| - 1], lines[..|lines| - 1]))
      || (IsBlank(lines[|lines| - 1]) && DropsOnlyBlank(kept, lines[..|lines| - 1]))
  }

  /** The lines the loop has placed in blocks so far. */
  function Placed(s: Scanner): seq<string> {
    Flatten(s.groups) + s.current
  }

  lemma FlattenSnoc(groups: seq<seq<string>>, g: seq<string>)
    ensures Flatten(groups + [g]) == Flatten(groups) + g
  {
    assert (groups + [g])[..|groups|] == groups;
  }

  /** One turn of the loop places the line after those already placed, or
      drops it, and then it is blank. */
  lemma StepPlaces(s: Scanner, line: string)
    ensures Placed(Step(s, line)) == Placed(s) + [line] ||
      (IsBlank(line) && Placed(Step(s, line)) == Placed(s))
  {
    var f := Flatten(s.groups);
    if IsFence(line) && !s.inCode {
      if s.current != [] {
        FlattenSnoc(s.groups, s.current);
      } else {
        assert s.groups + [] == s.groups;
      }
    } else if IsFence(line) && s.inCode {
      FlattenSnoc(s.groups, s.current + [line]);
      assert f + (s.current + [line]) + [] == f + s.current + [line];
    } else if !s.inCode && Strip(line) == "" && s.current != [] {
      FlattenSnoc(s.groups, s.current);
      assert f + s.current + [] == f + s.current;
    } else if !s.inCode && Strip(line) != "" {
      assert f + (s.current + [line]) == f + s.current + [line];
    } else if s.inCode {
      assert f + (s.current + [line]) == f + s.current + [line];
    }
  }

  lemma {:induction false} ScanPlaces(lines: seq<string>)
    ensures DropsOnlyBlank(Placed(Scan(lines)), lines)
    decreases |lines|
  {
    if lines != [] {
      var init := lines[..|lines| - 1];
      var line := lines[|lines| - 1];
      ScanPlaces(init);
      StepPlaces(Scan(init), line);
      var p := Placed(Scan(lines));
      if p == Placed(Scan(init)) + [line] {
        assert p[..|p| - 1] == Placed(Scan(init));
      }
    }
  }

  /** Order kept, nothing lost: the lines of the blocks, in order, are the
      lines of the document with only blank lines left out. */
  lemma GroupsKeepLines(lines: seq<string>)
    ensures DropsOnlyBlank(Flatten(Groups(lines)), lines)
  {
    var s := Scan(lines);
    ScanPlaces(lines);
    if s.current != [] {
      FlattenSnoc(s.groups, s.current);
    } else {
      assert s.groups + [] == s.groups;
      assert Flatten(s.groups) + [] == Flatten(s.groups);
    }
  }

  lemma {:induction false} DropsOnlyBlankFrom(kept: seq<string>, lines: seq<string>)
    requires DropsOnlyBlank(kept, lines)
    ensures forall x :: x in kept ==> x in lines
    decreases |lines|
  {
    if lines != [] {
      var init := lines[..|lines| - 1];
      if kept != [] && kept[|kept| - 1] == lines[|lines| - 1] && DropsOnlyBlank(kept[..|kept| - 1], init) {
        DropsOnlyBlankFrom(kept[..|kept| - 1], init);
        assert kept == kept[..|kept| - 1] + [lines[|lines| - 1]];
      } else {
        DropsOnlyBlankFrom(kept, init);
      }
    }
  }

  lemma {:induction false} FlattenHolds(groups: seq<seq<string>>, i: nat, j: nat)
    requires i < |groups| && j < |groups[i]|
    ensures groups[i][j] in Flatten(groups)
    decreases |groups|
  {
    var init := groups[..|groups| - 1];
    if i < |groups| - 1 {
      FlattenHolds(init, i, j);
    } else {
      assert Flatten(groups) == Flatten(init) + groups[i];
      assert Flatten(groups)[|Flatten(init)| + j] == groups[i][j];
    }
  }

  /** Each block is its lines joined with "\n": cutting it at "\n" gives
      back exactly the lines it was built from. */
  lemma BlockLines(markdown: string)
    ensures |BlocksOf(markdown)| == |Groups(Split(markdown, '\n'))|
    ensures forall i :: 0 <= i < |BlocksOf(markdown)| ==>
      Split(BlocksOf(markdown)[i], '\n') == Groups(Split(markdown, '\n'))[i]
  {
    var lines := Split(markdown, '\n');
    var gs := Groups(lines);
    BlocksNeverBlank(lines);
    GroupsShape(lines);
    GroupsKeepLines(lines);
    DropsOnlyBlankFrom(Flatten(gs), lines);
    forall i | 0 <= i < |gs| ensures Split(JoinAll(gs)[i], '\n') == gs[i] {
      forall j | 0 <= j < |gs[i]| ensures '\n' !in gs[i][j] {
        FlattenHolds(gs, i, j);
      }
      SplitJoin(gs[i], '\n');
    }
  }

  /** The loop state `s` seen after blocks `groups` finished before it. */
  function After(groups: seq<seq<string>>, s: Scanner): Scanner {
    Scanner(groups + s.groups, s.current, s.inCode)
  }

  lemma StepAfter(groups: seq<seq<string>>, s: Scanner, line: string)
    ensures Step(After(groups, s), line) == After(groups, Step(s, line))
  {
    var c := if s.current != [] then [s.current] else [];
    assert groups + s.groups + c == groups + (s.groups + c);
    assert groups + s.groups + [s.current + [line]] == groups + (s.groups + [s.current + [line]]);
    assert groups + s.groups + [s.current] == groups + (s.groups + [s.current]);
  }

  /** Once the lines `a` leave no block being built and no code block open,
      the lines after them are cut into blocks as if they stood alone. */
  lemma {:induction false} ScanAfterBoundary(a: seq<string>, b: seq<string>)
    requires Scan(a).current == [] && !Scan(a).inCode
    ensures Scan(a + b) == After(Scan(a).groups, Scan(b))
    decreases |b|
  {
    if b == [] {
      assert a + b == a;
      assert Scan(a).groups + [] == Scan(a).groups;
    } else {
      var init := b[..|b| - 1];
      assert (a + b)[..|a + b| - 1] == a + init;
      assert (a + b)[|a + b| - 1] == b[|b| - 1];
      ScanAfterBoundary(a, init);
      StepAfter(Scan(a).groups, Scan(init), b[|b| - 1]);
    }
  }

  /** The line is not a fence, and outside a code block not blank. */
  predicate Extends(line: string, code: bool) {
    !IsFence(line) && (code || !IsBlank(line))
  }

  /** Lines that are not fences, and outside a code block not blank, extend
      the block being built and change nothing else. */
  lemma ExtendCurrent(a: seq<string>, more: seq<string>, code: bool)
    requires Scan(a).inCode == code
    requires forall i :: 0 <= i < |more| ==> Extends(more[i], code)
    ensures Scan(a + more) == Scanner(Scan(a).groups, Scan(a).current + more, code)
  {
    ExtendFrom(a, more, Scan(a).groups, Scan(a).current, code);
  }

  /** `ExtendCurrent` with the loop state before the lines named, taking
      the lines one at a time from the front. */
  lemma {:induction false} ExtendFrom(a: seq<string>, more: seq<string>,
                                      groups: seq<seq<string>>, current: seq<string>, code: bool)
    requires Scan(a) == Scanner(groups, current, code)
    requires forall i :: 0 <= i < |more| ==> Extends(more[i], code)
    ensures Scan(a + more) == Scanner(groups, current + more, code)
    decreases |more|
  {
    if more == [] {
      assert a + more == a;
      assert current + more == current;
    } else {
      var line, rest := more[0], more[1..];
      assert Scan(a + [line]) == Scanner(groups, current + [line], code) by {
        ExtendStep(a, line, groups, current, code);
      }
      assert Scan((a + [line]) + rest) == Scanner(groups, (current + [line]) + rest, code) by {
        ExtendFrom(a + [line], rest, groups, current + [line], code);
      }
      ShiftFirst(a, more);
      ShiftFirst(current, more);
    }
  }

  /** One line that is not a fence, and outside a code block not blank,
      extends the block being built. */
  lemma ExtendStep(lines: seq<string>, line: string, groups: seq<seq<string>>, current: seq<string>, code: bool)
    requires Scan(lines) == Scanner(groups, current, code)
    requires Extends(line, code)
    ensures Scan(lines + [line]) == Scanner(groups, current + [line], code)
  {
    var all := lines + [line];
    assert all[..|all| - 1] == lines && all[|all| - 1] == line;
    assert Strip(line) != "" || code;
  }

  /** Outside a code block a blank line separates: the blocks of the lines
      around it are those of the lines before it, then those of the lines
      after it, cut as if they stood alone. */
  lemma BlankLineSplits(a: seq<string>, blank: string, b: seq<string>)
    requires !Scan(a).inCode && IsBlank(blank)
    ensures Groups(a + [blank] + b) == Groups(a) + Groups(b)
  {
    var a1 := a + [blank];
    assert a1[..|a1| - 1] == a && a1[|a1| - 1] == blank;
    assert Strip(blank) == [];
    assert !IsFence(blank);
    assert Scan(a1) == Scanner(Groups(a), [], false);
    ScanAfterBoundary(a1, b);
    assert a + [blank] + b == a1 + b;
    var sb := Scan(b);
    var c := if sb.current != [] then [sb.current] else [];
    assert Groups(a) + sb.groups + c == Groups(a) + (sb.groups + c);
  }

  /** Outside a code block, adjacent lines that are neither blank nor fences
      all go to the one block being built. */
  lemma PlainLinesStayTogether(a: seq<string>, run: seq<string>)
    requires !Scan(a).inCode && run != []
    requires forall i :: 0 <= i < |run| ==> !IsBlank(run[i]) && !IsFence(run[i])
    ensures Groups(a + run) == Scan(a).groups + [Scan(a).current + run]
    ensures !Scan(a + run).inCode
  {
    ExtendCurrent(a, run, false);
  }

  /** A fenced code block outside a code block is one block holding its
      fences and every line between them, blank lines included; the lines
      before and after it are cut as if they stood alone. */
  lemma CodeBlockKept(a: seq<string>, open: string, body: seq<string>, close: string, b: seq<string>)
    requires !Scan(a).inCode && IsFence(open) && IsFence(close)
    requires forall i :: 0 <= i < |body| ==> !IsFence(body[i])
    ensures Groups(a + [open] + body + [close] + b) == Groups(a) + [[open] + body + [close]] + Groups(b)
  {
    var a1 := a + [open];
    assert a1[..|a1| - 1] == a && a1[|a1| - 1] == open;
    assert Scan(a1) == Scanner(Groups(a), [open], true);
    ExtendCurrent(a1, body, true);
    var a2 := a1 + body;
    var a3 := a2 + [close];
    assert a3[..|a3| - 1] == a2 && a3[|a3| - 1] == close;
    assert Scan(a3) == Scanner(Groups(a) + [[open] + body + [close]], [], false);
    ScanAfterBoundary(a3, b);
    assert a + [open] + body + [close] + b == a3 + b;
    var sb := Scan(b);
    var c := if sb.current != [] then [sb.current] else [];
    assert Groups(a) + [[open] + body + [close]] + sb.groups + c ==
      Groups(a) + [[open] + body + [close]] + (sb.groups + c);
  }

  /** A fence that is never closed: the code block runs to the end of the
      document and is kept as a block all the same. */
  lemma UnclosedCodeBlockKept(a: seq<string>, open: string, body: seq<string>)
    requires !Scan(a).inCode && IsFence(open)
    requires forall i :: 0 <= i < |body| ==> !IsFence(body[i])
    ensures Groups(a + [open] + body) == Groups(a) + [[open] + body]
  {
    var a1 := a + [open];
    assert a1[..|a1| - 1] == a && a1[|a1| - 1] == open;
    assert Scan(a1) == Scanner(Groups(a), [open], true);
    ExtendCurrent(a1, body, true);
  }

  /** Two paragraphs with a blank line between them are two blocks, not one. */
  lemma TwoParagraphs(p: seq<string>, blank: string, q: seq<string>)
    requires p != [] && q != [] && IsBlank(blank)
    requires forall i :: 0 <= i < |p| ==> !IsBlank(p[i]) && !IsFence(p[i])
    requires forall i :: 0 <= i < |q| ==> !IsBlank(q[i]) && !IsFence(q[i])
    ensures Groups(p + [blank] + q) == [p, q]
  {
    PlainRunAlone(p);
    PlainRunAlone(q);
    BlankLineSplits(p, blank, q);
  }

  /** Lines that are neither blank nor fences, standing alone, are one block
      still being built. */
  lemma PlainRunAlone(run: seq<string>)
    requires forall i :: 0 <= i < |run| ==> !IsBlank(run[i]) && !IsFence(run[i])
    ensures Scan(run) == Scanner([], run, false)
  {
    var none: seq<string> := [];
    assert Scan(none) == Scanner([], [], false);
    assert forall i :: 0 <= i < |run| ==> Extends(run[i], false);
    ExtendFrom(none, run, [], [], false);
    assert none + run == run;
    assert [] + run == run;
  }
}
