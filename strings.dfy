/** The Python `str` operations the converter relies on, written out over
    `seq<char>`: `strip`/`lstrip`, `startswith`/`endswith`, `find`,
    `split` and `join`, decimal formatting of an int, and the one regular
    expression substitution (`\s+` -> `' '`). Whitespace is the ASCII part of
    Python's `str.isspace`. */
module Strings {
  import opened Wrappers

  /** `c.isspace()` restricted to ASCII: tab, line feed, vertical tab, form
      feed, carriage return, the four separators 0x1C-0x1F, and space. */
  predicate IsWhitespace(c: char) {
    9 <= c as int <= 13 || 28 <= c as int <= 32
  }

  /** `not s.strip()`: the string holds nothing but whitespace. */
  predicate IsBlank(s: string) {
    forall i :: 0 <= i < |s| ==> IsWhitespace(s[i])
  }

  predicate StartsWith(s: string, prefix: string) {
    |prefix| <= |s| && s[..|prefix|] == prefix
  }

  lemma StartsWithFirst(s: string, prefix: string)
    requires prefix != [] && StartsWith(s, prefix)
    ensures s != [] && s[0] == prefix[0]
  {
    assert s[0] == s[..|prefix|][0];
  }

  lemma StartsWithOther(s: string, prefix: string)
    requires prefix != [] && s != [] && s[0] != prefix[0]
    ensures !StartsWith(s, prefix)
  {
    if |prefix| <= |s| {
      assert s[..|prefix|][0] != prefix[0];
    }
  }

  predicate EndsWith(s: string, suffix: string) {
    |suffix| <= |s| && s[|s| - |suffix|..] == suffix
  }

  /** `s.lstrip()`: the suffix of `s` left after dropping its leading whitespace. */
  function LStrip(s: string): (r: string)
    ensures |r| <= |s|
    ensures r == [] || !IsWhitespace(r[0])
    decreases |s|
  {
    if s != [] && IsWhitespace(s[0]) then LStrip(s[1..]) else s
  }

  /** What `lstrip` drops is whitespace, and what it keeps is the rest of `s`. */
  lemma {:induction false} LStripDrops(s: string)
    ensures LStrip(s) == s[|s| - |LStrip(s)|..]
    ensures forall i :: 0 <= i < |s| - |LStrip(s)| ==> IsWhitespace(s[i])
    decreases |s|
  {
    if s != [] && IsWhitespace(s[0]) {
      LStripDrops(s[1..]);
      assert s[1..][|s| - 1 - |LStrip(s)|..] == s[|s| - |LStrip(s)|..];
      forall i | 0 < i < |s| - |LStrip(s)| ensures IsWhitespace(s[i]) {
        assert s[i] == s[1..][i - 1];
      }
    }
  }

  /** `s.rstrip()`: the prefix of `s` left after dropping its trailing whitespace. */
  function RStrip(s: string): (r: string)
    ensures |r| <= |s|
    ensures r == [] || !IsWhitespace(r[|r| - 1])
    decreases |s|
  {
    if s != [] && IsWhitespace(s[|s| - 1]) then RStrip(s[..|s| - 1]) else s
  }

  /** What `rstrip` drops is whitespace, and what it keeps is the start of `s`. */
  lemma {:induction false} RStripDrops(s: string)
    ensures RStrip(s) == s[..|RStrip(s)|]
    ensures forall i :: |RStrip(s)| <= i < |s| ==> IsWhitespace(s[i])
    decreases |s|
  {
    if s != [] && IsWhitespace(s[|s| - 1]) {
      RStripDrops(s[..|s| - 1]);
      assert s[..|s| - 1][..|RStrip(s)|] == s[..|RStrip(s)|];
      forall i | |RStrip(s)| <= i < |s| - 1 ensures IsWhitespace(s[i]) {
        assert s[i] == s[..|s| - 1][i];
      }
    }
  }

  /** `r` is the piece of `s` that starts at index `k`. */
  predicate InfixAt(r: string, s: string, k: int) {
    0 <= k && k + |r| <= |s| && s[k..k + |r|] == r
  }

  /** `s.strip()`: neither starting nor ending with whitespace; empty exactly
      when `s` is blank. StripPiece places it inside `s`. */
  function Strip(s: string): (r: string)
    ensures r == [] || (!IsWhitespace(r[0]) && !IsWhitespace(r[|r| - 1]))
    ensures r == [] <==> IsBlank(s)
  {
    StripPiece(s);
    RStrip(LStrip(s))
  }

  /** Right-stripping the left-stripped string leaves the piece of `s` that
      starts where the leading whitespace ends; nothing is left only when
      all of `s` is whitespace. */
  lemma StripPiece(s: string)
    ensures InfixAt(RStrip(LStrip(s)), s, |s| - |LStrip(s)|)
    ensures RStrip(LStrip(s)) == [] ==> IsBlank(s)
    ensures RStrip(LStrip(s)) == [] || !IsWhitespace(RStrip(LStrip(s))[0])
  {
    var l := LStrip(s);
    var r := RStrip(l);
    LStripDrops(s);
    RStripDrops(l);
    PrefixOfSuffix(s, l, r, |s| - |l|);
    StripEmptyIsBlank(s, l, r);
  }

  /** `s.strip()` is the piece of `s` that starts where its leading
      whitespace ends. */
  lemma StripIsInfix(s: string)
    ensures InfixAt(Strip(s), s, |s| - |LStrip(s)|)
  {
    StripPiece(s);
  }

  /** A prefix of the suffix of `s` from `n` is the piece of `s` at `n`. */
  lemma PrefixOfSuffix(s: string, l: string, r: string, n: int)
    requires 0 <= n <= |s| && l == s[n..] && |r| <= |l| && r == l[..|r|]
    ensures InfixAt(r, s, n)
  {
    assert s[n..][..|r|] == s[n..n + |r|];
  }

  lemma StripEmptyIsBlank(s: string, l: string, r: string)
    requires l == LStrip(s) && r == RStrip(l)
    ensures r == [] ==> IsBlank(s)
  {
    if r == [] {
      RStripDrops(l);
      assert l == [];
      LStripDrops(s);
    }
  }

  /** Stripping a string that starts with a non-whitespace character keeps that character first. */
  lemma StripKeepsFirst(s: string)
    requires s != [] && !IsWhitespace(s[0])
    ensures Strip(s) != [] && Strip(s)[0] == s[0]
  {
    assert LStrip(s) == s;
    RStripDrops(s);
  }

  /** Stripping a string that starts with a non-whitespace character keeps
      every prefix that also ends with one. */
  lemma StripKeepsPrefix(s: string, k: nat)
    requires 0 < k <= |s| && !IsWhitespace(s[0]) && !IsWhitespace(s[k - 1])
    ensures k <= |Strip(s)| && Strip(s)[..k] == s[..k]
  {
    assert LStrip(s) == s;
    RStripDrops(s);
    var r := RStrip(s);
    assert r[..k] == s[..|r|][..k];
  }

  /** A string that neither starts nor ends with whitespace is its own strip. */
  lemma StripNothing(s: string)
    requires s != [] && !IsWhitespace(s[0]) && !IsWhitespace(s[|s| - 1])
    ensures Strip(s) == s
  {
    StripKeepsPrefix(s, |s|);
    StripIsInfix(s);
  }

  /** `pat` occurs in `s` starting at index `j`. */
  predicate OccursAt(s: string, pat: string, j: int) {
    0 <= j && j + |pat| <= |s| && s[j..j + |pat|] == pat
  }

  /** `s.find(pat, from)`: the first index at or after `from` at which `pat`
      occurs, or None for -1 (FindIsFirst states that no earlier index from
      `from` on matches). */
  function Find(s: string, pat: string, from: nat): (r: Option<nat>)
    ensures r.Some? ==> from <= r.value && r.value + |pat| <= |s|
    decreases |s| - from
  {
    if from + |pat| > |s| then None
    else if MatchesAt(s, pat, from, 0) then Some(from)
    else Find(s, pat, from + 1)
  }

  /** The characters of `pat` from index `i` on sit in `s` from `j + i` on;
      compared one character at a time, as a search does. */
  predicate MatchesAt(s: string, pat: string, j: nat, i: nat)
    requires j + |pat| <= |s|
    decreases |pat| - i
  {
    i >= |pat| || (s[j + i] == pat[i] && MatchesAt(s, pat, j, i + 1))
  }

  lemma {:induction false} MatchesAtSlice(s: string, pat: string, j: nat, i: nat)
    requires j + |pat| <= |s| && i <= |pat|
    ensures MatchesAt(s, pat, j, i) <==> s[j + i..j + |pat|] == pat[i..]
    decreases |pat| - i
  {
    if i < |pat| {
      MatchesAtSlice(s, pat, j, i + 1);
      assert s[j + i..j + |pat|] == [s[j + i]] + s[j + i + 1..j + |pat|];
      assert pat[i..] == [pat[i]] + pat[i + 1..];
    }
  }

  /** A comparison from the first character decides an occurrence. */
  lemma MatchesIsOccurs(s: string, pat: string, j: nat)
    requires j + |pat| <= |s|
    ensures MatchesAt(s, pat, j, 0) <==> OccursAt(s, pat, j)
  {
    MatchesAtSlice(s, pat, j, 0);
  }

  /** What Find returns is an occurrence. */
  lemma {:induction false} FindOccurs(s: string, pat: string, from: nat)
    ensures Find(s, pat, from).Some? ==> OccursAt(s, pat, Find(s, pat, from).value)
    decreases |s| - from
  {
    if from + |pat| <= |s| {
      MatchesIsOccurs(s, pat, from);
      if !MatchesAt(s, pat, from, 0) {
        FindOccurs(s, pat, from + 1);
      }
    }
  }

  /** `s.find(pat)`. */
  function IndexOf(s: string, pat: string): Option<nat> {
    Find(s, pat, 0)
  }

  /** Searching a suffix of `s` is searching `s` from further on. */
  lemma {:induction false} FindInSuffix(s: string, pat: string, m: nat, from: nat)
    requires m <= |s|
    ensures Find(s[m..], pat, from) ==
      match Find(s, pat, m + from)
      case None => None
      case Some(i) => Some(i - m)
    decreases |s| - m - from
  {
    if m + from + |pat| <= |s| {
      MatchesIsOccurs(s, pat, m + from);
      MatchesIsOccurs(s[m..], pat, from);
      assert s[m..][from..from + |pat|] == s[m + from..m + from + |pat|];
      if !OccursAt(s, pat, m + from) {
        FindInSuffix(s, pat, m, from + 1);
      }
    }
  }

  /** `pat in s`. */
  predicate Contains(s: string, pat: string) {
    exists j :: 0 <= j <= |s| && OccursAt(s, pat, j)
  }

  /** Find returns the first match from `from` on, and None when there is none. */
  lemma {:induction false} FindIsFirst(s: string, pat: string, from: nat)
    ensures Find(s, pat, from).None? ==> forall j :: from <= j ==> !OccursAt(s, pat, j)
    ensures Find(s, pat, from).Some? ==> forall j :: from <= j < Find(s, pat, from).value ==> !OccursAt(s, pat, j)
    decreases |s| - from
  {
    if from + |pat| <= |s| {
      MatchesIsOccurs(s, pat, from);
      if !MatchesAt(s, pat, from, 0) {
        FindIsFirst(s, pat, from + 1);
      }
    }
  }

  /** `s.find(pat) == -1` exactly when `pat not in s`. */
  lemma IndexOfIsFirst(s: string, pat: string)
    ensures IndexOf(s, pat).None? <==> !Contains(s, pat)
    ensures IndexOf(s, pat).Some? ==> forall j :: 0 <= j < IndexOf(s, pat).value ==> !OccursAt(s, pat, j)
    ensures IndexOf(s, pat).Some? ==> OccursAt(s, pat, IndexOf(s, pat).value)
  {
    FindIsFirst(s, pat, 0);
    FindOccurs(s, pat, 0);
    if IndexOf(s, pat).Some? {
      assert OccursAt(s, pat, IndexOf(s, pat).value);
    }
  }

  /** A text in which `d` occurs at `i` is the text before it, `d`, and the
      text after it. */
  lemma {:induction false} SplitAtOccurrence(s: string, d: string, i: nat)
    requires OccursAt(s, d, i)
    ensures s == s[..i] + d + s[i + |d|..]
  {
    assert s == s[..i] + s[i..i + |d|] + s[i + |d|..];
  }

  /** The text from `from` up to the first match found from there does not
      contain `d`. */
  lemma {:induction false} NothingBeforeFound(s: string, d: string, from: nat, i: nat)
    requires d != []
    requires Find(s, d, from) == Some(i)
    ensures !Contains(s[from..i], d)
  {
    FindIsFirst(s, d, from);
    forall k | 0 <= k <= i - from && k + |d| <= i - from
      ensures !OccursAt(s[from..i], d, k)
    {
      OccursInSlice(s, d, from, i, k);
    }
  }

  /** An occurrence inside the piece of `s` from `from` to `i` is one in `s`. */
  lemma OccursInSlice(s: string, d: string, from: nat, i: nat, k: nat)
    requires from <= i <= |s|
    ensures OccursAt(s[from..i], d, k) ==> OccursAt(s, d, from + k)
  {
    if OccursAt(s[from..i], d, k) {
      var piece := s[from..i];
      forall j | 0 <= j < |d| ensures s[from + k + j] == d[j] {
        assert piece[k..k + |d|][j] == d[j];
        assert piece[k + j] == s[from + k + j];
      }
      assert s[from + k..from + k + |d|] == d;
    }
  }

  /** A text in which `d` occurs first at `i` is the text before it, `d`,
      and the text after it; the text before it does not contain `d`. */
  lemma {:induction false} CutAtFirst(s: string, d: string, i: nat)
    requires d != []
    requires IndexOf(s, d) == Some(i)
    ensures i + |d| <= |s|
    ensures s == s[..i] + d + s[i + |d|..]
    ensures !Contains(s[..i], d)
  {
    FindOccurs(s, d, 0);
    SplitAtOccurrence(s, d, i);
    NothingBeforeFound(s, d, 0, i);
    assert s[0..i] == s[..i];
  }

  /** From `from` on, a text holding `d` at `i` and again at `e`, past the
      end of the first, is: before, `d`, between, `d`, after. */
  lemma {:induction false} SplitAtTwoOccurrences(text: string, d: string, from: nat, i: nat, e: nat)
    requires OccursAt(text, d, i) && OccursAt(text, d, e) && from <= i && i + |d| <= e
    ensures text[from..] == text[from..i] + d + text[i + |d|..e] + d + text[e + |d|..]
  {
    SplitAtOccurrence(text, d, i);
    SplitAtOccurrence(text, d, e);
    var before, between, after := text[from..i], text[i + |d|..e], text[e + |d|..];
    assert text[i + |d|..] == between + d + after by {
      assert text[..e] == text[..i] + d + between;
    }
    assert text[from..] == before + text[i..];
    assert text[i..] == d + text[i + |d|..];
  }

  /** When `s.find(d, from)` finds nothing, `d` is not in `s[from:]`. */
  lemma {:induction false} NothingFound(s: string, d: string, from: nat)
    requires from <= |s| && Find(s, d, from).None?
    ensures !Contains(s[from..], d)
  {
    FindIsFirst(s, d, from);
    forall k | 0 <= k <= |s| - from && k + |d| <= |s| - from
      ensures !OccursAt(s[from..], d, k)
    {
      assert !OccursAt(s, d, from + k);
      assert s[from..][k..k + |d|] == s[from + k..from + k + |d|];
    }
  }

  /** `s.split(sep, 1)`: `[s]` when `sep` does not occur, otherwise the text
      before its first occurrence and the text after it. */
  function SplitOnce(s: string, sep: string): (r: seq<string>)
    requires sep != []
    ensures |r| == 1 <==> !Contains(s, sep)
    ensures |r| == 1 ==> r[0] == s
    ensures 1 <= |r| <= 2
  {
    IndexOfIsFirst(s, sep);
    match IndexOf(s, sep)
    case None => [s]
    case Some(i) => [s[..i], s[i + |sep|..]]
  }

  /** When `sep` occurs, the two pieces of `s.split(sep, 1)` are the text
      before its first occurrence, which holds no `sep`, and the text after
      it: joined back with `sep` they give `s`. */
  lemma SplitOnceCut(s: string, sep: string)
    requires sep != [] && Contains(s, sep)
    ensures SplitOnce(s, sep)[0] + sep + SplitOnce(s, sep)[1] == s
    ensures !Contains(SplitOnce(s, sep)[0], sep)
  {
    IndexOfIsFirst(s, sep);
    var i := IndexOf(s, sep).value;
    CutAtFirst(s, sep, i);
  }

  /** `s.split(sep)` for a one-character separator: the maximal pieces of `s`
      between occurrences of `sep`; always at least one piece. */
  function Split(s: string, sep: char): (r: seq<string>)
    ensures |r| >= 1
    ensures forall i :: 0 <= i < |r| ==> sep !in r[i]
    decreases |s|
  {
    if s == [] then [""]
    else
      var rest := Split(s[1..], sep);
      if s[0] == sep then [""] + rest else [[s[0]] + rest[0]] + rest[1..]
  }

  /** `sep.join(parts)` for a one-character separator. */
  function Join(parts: seq<string>, sep: char): string
  {
    if parts == [] then ""
    else if |parts| == 1 then parts[0]
    else parts[0] + [sep] + Join(parts[1..], sep)
  }

  /** A join is blank only when every piece is. */
  lemma {:induction false} JoinBlank(parts: seq<string>, sep: char)
    requires IsBlank(Join(parts, sep))
    ensures forall k :: 0 <= k < |parts| ==> IsBlank(parts[k])
    decreases |parts|
  {
    if |parts| >= 2 {
      var j := Join(parts, sep);
      var p := parts[0];
      var rest := Join(parts[1..], sep);
      assert j == p + [sep] + rest;
      assert IsBlank(p) by {
        forall i | 0 <= i < |p| ensures IsWhitespace(p[i]) {
          assert p[i] == j[i];
        }
      }
      assert IsBlank(rest) by {
        forall i | 0 <= i < |rest| ensures IsWhitespace(rest[i]) {
          assert rest[i] == j[|p| + 1 + i];
        }
      }
      JoinBlank(parts[1..], sep);
      forall k | 1 <= k < |parts| ensures IsBlank(parts[k]) {
        assert parts[k] == parts[1..][k - 1];
      }
    }
  }

  /** A piece starting with character `c` joins to `c` followed by the join
      of the piece without it. */
  lemma JoinConsFirst(c: char, rest: seq<string>, sep: char)
    requires |rest| >= 1
    ensures Join([[c] + rest[0]] + rest[1..], sep) == [c] + Join(rest, sep)
  {
    var r := [[c] + rest[0]] + rest[1..];
    if |rest| > 1 {
      assert r[1..] == rest[1..];
    }
  }

  /** An empty first piece joins to the separator followed by the join of
      the other pieces. */
  lemma JoinConsEmpty(rest: seq<string>, sep: char)
    requires |rest| >= 1
    ensures Join([""] + rest, sep) == [sep] + Join(rest, sep)
  {
    assert ([""] + rest)[1..] == rest;
  }

  /** Joining a list with one more piece at the end adds the separator and that piece. */
  lemma {:induction false} JoinSnoc(parts: seq<string>, last: string, sep: char)
    requires |parts| >= 1
    ensures Join(parts + [last], sep) == Join(parts, sep) + [sep] + last
    decreases |parts|
  {
    if |parts| == 1 {
      assert (parts + [last])[1..] == [last];
    } else {
      JoinSnoc(parts[1..], last, sep);
      assert (parts + [last])[1..] == parts[1..] + [last];
    }
  }

  /** Pieces between a first and a last piece join to the first piece, a
      separator, the middle pieces each followed by a separator, and the last piece. */
  lemma JoinBetween(first: string, middle: seq<string>, last: string, sep: char)
    ensures Join([first] + middle + [last], sep) ==
      first + [sep] + (if middle == [] then [] else Join(middle, sep) + [sep]) + last
  {
    var parts := [first] + middle + [last];
    assert parts[1..] == middle + [last];
    if middle != [] {
      JoinSnoc(middle, last, sep);
    } else {
      assert middle + [last] == [last];
    }
  }

  /** Joining the pieces of a split restores the string. */
  lemma {:induction false} JoinSplit(s: string, sep: char)
    ensures Join(Split(s, sep), sep) == s
    decreases |s|
  {
    if s != [] {
      JoinSplit(s[1..], sep);
      if s[0] == sep {
        JoinConsEmpty(Split(s[1..], sep), sep);
      } else {
        JoinConsFirst(s[0], Split(s[1..], sep), sep);
      }
      assert s == [s[0]] + s[1..];
    }
  }

  /** Splitting a join of separator-free pieces gives the pieces back. */
  lemma {:induction false} SplitJoin(parts: seq<string>, sep: char)
    requires |parts| >= 1
    requires forall i :: 0 <= i < |parts| ==> sep !in parts[i]
    ensures Split(Join(parts, sep), sep) == parts
    decreases |parts|, |parts[0]|
  {
    var p := parts[0];
    if p == [] {
      if |parts| > 1 {
        var tail := Join(parts[1..], sep);
        assert Join(parts, sep) == [sep] + tail;
        assert ([sep] + tail)[1..] == tail;
        SplitJoin(parts[1..], sep);
        assert parts == [""] + parts[1..];
      }
    } else {
      var shorter := [p[1..]] + parts[1..];
      assert shorter[1..] == parts[1..];
      SplitJoin(shorter, sep);
      var j := Join(parts, sep);
      assert j == [p[0]] + Join(shorter, sep);
      assert j[1..] == Join(shorter, sep);
      assert p[0] != sep by { assert p[0] in p; }
      assert Split(j, sep) == [[p[0]] + p[1..]] + parts[1..];
      assert [p[0]] + p[1..] == p;
    }
  }

  /** No whitespace but single spaces: every whitespace character is a
      space and no two whitespace characters are adjacent. */
  predicate Collapsed(r: string) {
    (forall i :: 0 <= i < |r| && IsWhitespace(r[i]) ==> r[i] == ' ') &&
    (forall i :: 0 <= i < |r| - 1 ==> !(IsWhitespace(r[i]) && IsWhitespace(r[i + 1])))
  }

  lemma CollapsedCons(c: char, t: string)
    requires Collapsed(t)
    requires IsWhitespace(c) ==> c == ' ' && (t == [] || !IsWhitespace(t[0]))
    ensures Collapsed([c] + t)
  {
    var r := [c] + t;
    forall i | 0 <= i < |r| && IsWhitespace(r[i]) ensures r[i] == ' ' {
      if i > 0 { assert r[i] == t[i - 1]; }
    }
    forall i | 0 <= i < |r| - 1 ensures !(IsWhitespace(r[i]) && IsWhitespace(r[i + 1])) {
      if i > 0 { assert r[i] == t[i - 1] && r[i + 1] == t[i]; }
    }
  }

  /** `re.sub(r'\s+', ' ', s)`: every maximal run of whitespace becomes one space. */
  function CollapseWhitespace(s: string): (r: string)
    ensures Collapsed(r)
    ensures r == [] <==> s == []
    ensures s != [] && !IsWhitespace(s[0]) ==> r[0] == s[0]
    ensures s != [] && IsWhitespace(s[0]) ==> r[0] == ' '
    decreases |s|
  {
    if s == [] then []
    else if IsWhitespace(s[0]) then
      var rest := LStrip(s[1..]);
      var t := CollapseWhitespace(rest);
      CollapsedCons(' ', t);
      [' '] + t
    else
      var t := CollapseWhitespace(s[1..]);
      CollapsedCons(s[0], t);
      [s[0]] + t
  }

  /** Collapsing whitespace keeps a visible last character last. */
  lemma {:induction false} CollapseKeepsLast(s: string)
    requires s != [] && !IsWhitespace(s[|s| - 1])
    ensures CollapseWhitespace(s) != [] && !IsWhitespace(CollapseWhitespace(s)[|CollapseWhitespace(s)| - 1])
    decreases |s|
  {
    if IsWhitespace(s[0]) {
      var rest := LStrip(s[1..]);
      LStripDrops(s[1..]);
      assert rest != [] && rest[|rest| - 1] == s[|s| - 1];
      CollapseKeepsLast(rest);
    } else if |s| > 1 {
      CollapseKeepsLast(s[1..]);
    }
  }

  /** `lstrip` of leading whitespace followed by a visible character leaves
      exactly what follows the whitespace. */
  lemma {:induction false} LStripBlankPrefix(w: string, b: string)
    requires IsBlank(w) && (b == [] || !IsWhitespace(b[0]))
    ensures LStrip(w + b) == b
    decreases |w|
  {
    if w == [] {
      assert w + b == b;
    } else {
      assert (w + b)[1..] == w[1..] + b;
      LStripBlankPrefix(w[1..], b);
    }
  }

  /** `lstrip` of a string that is not blank does not reach what follows it. */
  lemma {:induction false} LStripAppend(x: string, y: string)
    requires !IsBlank(x)
    ensures LStrip(x + y) == LStrip(x) + y
    decreases |x|
  {
    if IsWhitespace(x[0]) {
      var i :| 0 <= i < |x| && !IsWhitespace(x[i]);
      assert x[1..][i - 1] == x[i];
      assert (x + y)[1..] == x[1..] + y;
      LStripAppend(x[1..], y);
    }
  }

  /** `lstrip` keeps a visible last character last. */
  lemma {:induction false} LStripKeepsLast(t: string)
    requires t != [] && !IsWhitespace(t[|t| - 1])
    ensures LStrip(t) != [] && LStrip(t)[|LStrip(t)| - 1] == t[|t| - 1]
    decreases |t|
  {
    if IsWhitespace(t[0]) {
      assert t[1..][|t| - 2] == t[|t| - 1];
      LStripKeepsLast(t[1..]);
    }
  }

  /** A whitespace run at the start becomes one space. */
  lemma {:induction false} CollapseRunFirst(w: string, b: string)
    requires w != [] && IsBlank(w)
    requires b != [] && !IsWhitespace(b[0])
    ensures CollapseWhitespace(w + b) == " " + CollapseWhitespace(b)
  {
    assert (w + b)[1..] == w[1..] + b;
    LStripBlankPrefix(w[1..], b);
  }

  /** The step of `CollapseRun` past a leading visible character. */
  lemma {:induction false} CollapseRunVisible(a: string, w: string, b: string)
    requires a != [] && !IsWhitespace(a[0])
    requires CollapseWhitespace(a[1..] + w + b) == CollapseWhitespace(a[1..]) + " " + CollapseWhitespace(b)
    ensures CollapseWhitespace(a + w + b) == CollapseWhitespace(a) + " " + CollapseWhitespace(b)
  {
    var s := a + w + b;
    assert CollapseWhitespace(s) == [a[0]] + CollapseWhitespace(a[1..] + w + b) by {
      assert s[0] == a[0] && s[1..] == a[1..] + w + b;
      CollapseVisibleFirst(s);
    }
    CollapseVisibleFirst(a);
    Regroup4([a[0]], CollapseWhitespace(a[1..]), " ", CollapseWhitespace(b));
  }

  /** The step of `CollapseRun` past a leading whitespace run of `a`. */
  lemma {:induction false} CollapseRunSpace(a: string, w: string, b: string, rest: string)
    requires a != [] && IsWhitespace(a[0]) && !IsBlank(a[1..])
    requires rest == LStrip(a[1..])
    requires CollapseWhitespace(rest + w + b) == CollapseWhitespace(rest) + " " + CollapseWhitespace(b)
    ensures CollapseWhitespace(a + w + b) == CollapseWhitespace(a) + " " + CollapseWhitespace(b)
  {
    var s := a + w + b;
    assert LStrip(s[1..]) == rest + w + b by {
      assert s[1..] == a[1..] + (w + b);
      LStripAppend(a[1..], w + b);
    }
    assert CollapseWhitespace(s) == " " + CollapseWhitespace(rest + w + b) by {
      assert s[0] == a[0];
      CollapseSpaceFirst(s);
    }
    assert CollapseWhitespace(a) == " " + CollapseWhitespace(rest) by {
      CollapseSpaceFirst(a);
    }
    SpaceGlue(CollapseWhitespace(s), CollapseWhitespace(rest + w + b), CollapseWhitespace(a),
              CollapseWhitespace(rest), CollapseWhitespace(b));
  }

  /** A string that starts with whitespace collapses to one space and the
      collapsed rest after that whitespace. */
  lemma CollapseSpaceFirst(s: string)
    requires s != [] && IsWhitespace(s[0])
    ensures CollapseWhitespace(s) == " " + CollapseWhitespace(LStrip(s[1..]))
  {
  }

  /** A string that starts with a visible character collapses to it and the
      collapsed rest. */
  lemma CollapseVisibleFirst(s: string)
    requires s != [] && !IsWhitespace(s[0])
    ensures CollapseWhitespace(s) == [s[0]] + CollapseWhitespace(s[1..])
  {
  }

  lemma SpaceGlue(whole: string, inner: string, first: string, x: string, y: string)
    requires whole == " " + inner && inner == x + " " + y && first == " " + x
    ensures whole == first + " " + y
  {
  }

  lemma Regroup4(p: string, q: string, r: string, t: string)
    ensures p + (q + r + t) == (p + q) + r + t
  {
  }

  /** A whitespace run between two visible characters becomes exactly one
      space, and the text on either side collapses on its own. */
  lemma {:induction false} CollapseRun(a: string, w: string, b: string)
    requires w != [] && IsBlank(w)
    requires a == [] || !IsWhitespace(a[|a| - 1])
    requires b != [] && !IsWhitespace(b[0])
    ensures CollapseWhitespace(a + w + b) == CollapseWhitespace(a) + " " + CollapseWhitespace(b)
    decreases |a|
  {
    if a == [] {
      assert a + w + b == w + b;
      CollapseRunFirst(w, b);
    } else if IsWhitespace(a[0]) {
      var tail := a[1..];
      assert tail[|tail| - 1] == a[|a| - 1];
      var rest := LStrip(tail);
      LStripKeepsLast(tail);
      CollapseRun(rest, w, b);
      CollapseRunSpace(a, w, b, rest);
    } else {
      if |a| > 1 {
        assert a[1..][|a| - 2] == a[|a| - 1];
      }
      CollapseRun(a[1..], w, b);
      CollapseRunVisible(a, w, b);
    }
  }

  /** Text without whitespace collapses to itself. */
  lemma {:induction false} CollapseNoWhitespace(s: string)
    requires forall i :: 0 <= i < |s| ==> !IsWhitespace(s[i])
    ensures CollapseWhitespace(s) == s
    decreases |s|
  {
    if s != [] {
      CollapseNoWhitespace(s[1..]);
    }
  }

  /** A space after a string makes no difference once it is stripped. */
  lemma {:induction false} StripSpaceAfter(x: string)
    ensures Strip(x + " ") == Strip(x)
  {
    if IsBlank(x) {
      assert IsBlank(x + " ") by {
        forall i | 0 <= i < |x + " "| ensures IsWhitespace((x + " ")[i]) {
          if i < |x| { assert (x + " ")[i] == x[i]; }
        }
      }
    } else {
      LStripAppend(x, " ");
      var l := LStrip(x);
      assert (l + " ")[..|l + " "| - 1] == l;
    }
  }

  /** A join of pieces whose first and last are not empty starts with the
      first piece's first character and ends with the last piece's last. */
  lemma {:induction false} JoinEnds(parts: seq<string>, sep: char)
    requires parts != [] && parts[0] != [] && parts[|parts| - 1] != []
    ensures var j, last := Join(parts, sep), parts[|parts| - 1];
      j != [] && j[0] == parts[0][0] && j[|j| - 1] == last[|last| - 1]
  {
    if |parts| > 1 {
      var init := parts[..|parts| - 1];
      assert parts == init + [parts[|parts| - 1]];
      JoinSnoc(init, parts[|parts| - 1], sep);
    }
  }

  /** The non-whitespace characters of `s`, in order. */
  function Visible(s: string): string {
    if s == [] then []
    else (if IsWhitespace(s[0]) then [] else [s[0]]) + Visible(s[1..])
  }

  /** Collapsing whitespace keeps every visible character, in order. */
  lemma {:induction false} CollapseKeepsVisible(s: string)
    ensures Visible(CollapseWhitespace(s)) == Visible(s)
    decreases |s|
  {
    if s != [] {
      if IsWhitespace(s[0]) {
        var rest := LStrip(s[1..]);
        LStripDrops(s[1..]);
        CollapseKeepsVisible(rest);
        BlankPrefixInvisible(s[1..], |s| - 1 - |rest|);
        var c := CollapseWhitespace(s);
        assert c[1..] == CollapseWhitespace(rest);
      } else {
        CollapseKeepsVisible(s[1..]);
        assert CollapseWhitespace(s)[1..] == CollapseWhitespace(s[1..]);
      }
    }
  }

  /** Dropping a whitespace-only prefix does not change the visible characters. */
  lemma {:induction false} BlankPrefixInvisible(s: string, k: nat)
    requires k <= |s| && forall i :: 0 <= i < k ==> IsWhitespace(s[i])
    ensures Visible(s[k..]) == Visible(s)
    decreases k
  {
    if k > 0 {
      BlankPrefixInvisible(s[1..], k - 1);
      assert s[1..][k - 1..] == s[k..];
    }
  }

  lemma {:induction false} VisibleAppend(a: string, b: string)
    ensures Visible(a + b) == Visible(a) + Visible(b)
    decreases |a|
  {
    if a != [] {
      VisibleAppend(a[1..], b);
      assert (a + b)[1..] == a[1..] + b;
    } else {
      assert a + b == b;
    }
  }

  /** A blank string has no visible characters. */
  lemma {:induction false} VisibleBlank(s: string)
    requires IsBlank(s)
    ensures Visible(s) == []
    decreases |s|
  {
    if s != [] {
      VisibleBlank(s[1..]);
    }
  }

  /** Stripping keeps every visible character, in order. */
  lemma VisibleStrip(s: string)
    ensures Visible(Strip(s)) == Visible(s)
  {
    VisibleLStrip(s);
    VisibleRStrip(LStrip(s));
  }

  /** `lstrip` keeps every visible character. */
  lemma {:induction false} VisibleLStrip(s: string)
    ensures Visible(LStrip(s)) == Visible(s)
    decreases |s|
  {
    if s != [] && IsWhitespace(s[0]) {
      VisibleLStrip(s[1..]);
    }
  }

  /** `rstrip` keeps every visible character. */
  lemma {:induction false} VisibleRStrip(s: string)
    ensures Visible(RStrip(s)) == Visible(s)
    decreases |s|
  {
    if s != [] && IsWhitespace(s[|s| - 1]) {
      var init := s[..|s| - 1];
      VisibleRStrip(init);
      assert s == init + [s[|s| - 1]];
      VisibleAppend(init, [s[|s| - 1]]);
    }
  }

  predicate IsDigit(c: char) {
    '0' <= c <= '9'
  }

  function DigitValue(c: char): nat
    requires IsDigit(c)
  {
    c as int - '0' as int
  }

  function DigitChar(d: nat): (c: char)
    requires d < 10
    ensures IsDigit(c) && DigitValue(c) == d
  {
    (d + '0' as int) as char
  }

  /** `f"{n}"`: the decimal numeral of `n`, without leading zeros. */
  function NatToString(n: nat): (r: string)
    ensures 1 <= |r|
    ensures forall i :: 0 <= i < |r| ==> IsDigit(r[i])
    ensures n < 10 <==> |r| == 1
    ensures |r| > 1 ==> r[0] != '0'
  {
    if n < 10 then [DigitChar(n)] else NatToString(n / 10) + [DigitChar(n % 10)]
  }

  /** A number below ten is written as one digit. */
  lemma SingleDigit(n: nat)
    requires n < 10
    ensures NatToString(n) == [DigitChar(n)]
  {
  }

  /** The value of a string of decimal digits. */
  function ParseNat(s: string): nat
    requires forall i :: 0 <= i < |s| ==> IsDigit(s[i])
  {
    if s == [] then 0 else 10 * ParseNat(s[..|s| - 1]) + DigitValue(s[|s| - 1])
  }

  /** Formatting a number in decimal and reading it back gives the number. */
  lemma {:induction false} ParseNatToString(n: nat)
    ensures ParseNat(NatToString(n)) == n
  {
    var r := NatToString(n);
    if n >= 10 {
      ParseNatToString(n / 10);
      assert r[..|r| - 1] == NatToString(n / 10);
    }
  }
}
