/**
 The position-aware markdown chunker: sections at headings that stand outside fences and pre blocks,
 with the titles above them, then cutting whatever is longer than the limit.
 */
module MarkdownChunker {
  import opened Wrappers

  // ---------------------------------------------------------------- what a line is

  /** Python's whitespace. */
  predicate IsSpace(c: char) {
    || '\t' <= c <= '\r' || '\U{1C}' <= c <= '\U{20}' || c == '\U{85}' || c == '\U{A0}' || c == '\U{1680}'
    || '\U{2000}' <= c <= '\U{200A}' || c == '\U{2028}' || c == '\U{2029}' || c == '\U{202F}' || c == '\U{205F}'
    || c == '\U{3000}'
  }

  function DropSpaces(s: string): (r: string)
    ensures |r| <= |s|
  {
    if s != "" && IsSpace(s[0]) then DropSpaces(s[1..]) else s
  }

  function TrimSpaces(s: string): string {
    if s != "" && IsSpace(s[|s| - 1]) then TrimSpaces(s[..|s| - 1]) else s
  }

  function LeadingHashes(line: string): (n: nat)
    ensures n <= |line| && (n > 0 ==> line[0] == '#')
  {
    if line != "" && line[0] == '#' then 1 + LeadingHashes(line[1..]) else 0
  }

  datatype Heading = Heading(level: nat, title: string)

  /** One to six hashes, whitespace, a title. */
  function HeadingOf(line: string): (h: Option<Heading>)
    ensures h.Some? ==> line != "" && line[0] == '#'
  {
    var n := LeadingHashes(line);
    if 1 <= n <= 6 && n < |line| && IsSpace(line[n])
    then Some(Heading(n, TrimSpaces(DropSpaces(line[n..]))))
    else None
  }

  predicate IsFence(line: string) {
    |line| >= 3 && line[..3] == "```"
  }

  function Opens(line: string): nat {
    if line == "" then 0
    else
      (if |line| >= 5 && line[..4] == "<pre" && (line[4] == '>' || IsSpace(line[4])) then 1 else 0) + Opens(line[1..])
  }

  function Closes(line: string): nat {
    if line == "" then 0
    else
      var here := |line| >= 5 && line[..5] == "</pre" && DropSpaces(line[5..]) != "" && DropSpaces(line[5..])[0] == '>';
      (if here then 1 else 0) + Closes(line[1..])
  }

  lemma {:induction false} SpacesDropped(s: string) returns (i: nat)
    ensures i <= |s| && DropSpaces(s) == s[i..] && forall k | 0 <= k < i :: IsSpace(s[k])
    ensures i < |s| ==> !IsSpace(s[i])
  {
    hide IsSpace;
    if s != "" && IsSpace(s[0]) {
      i := SpacesDropped(s[1..]);
      i := i + 1;
    } else {
      i := 0;
    }
  }

  lemma {:induction false} SpacesTrimmed(s: string) returns (i: nat)
    ensures i <= |s| && TrimSpaces(s) == s[..i] && forall k | i <= k < |s| :: IsSpace(s[k])
    ensures i > 0 ==> !IsSpace(s[i - 1])
  {
    hide IsSpace;
    if s != "" && IsSpace(s[|s| - 1]) {
      i := SpacesTrimmed(s[..|s| - 1]);
    } else {
      i := |s|;
    }
  }

  lemma {:induction false} HashesLead(line: string)
    ensures forall k | 0 <= k < LeadingHashes(line) :: line[k] == '#'
    ensures LeadingHashes(line) < |line| ==> line[LeadingHashes(line)] != '#'
  {
    if line != "" && line[0] == '#' {
      HashesLead(line[1..]);
    }
  }

  /** Where the title lies in the line: behind level hashes and whitespace, with nothing but whitespace after it. */
  ghost predicate TitleAt(line: string, h: Heading, i: nat, j: nat) {
    && 1 <= h.level <= 6 && h.level < i <= j <= |line|
    && (forall k | 0 <= k < h.level :: line[k] == '#')
    && (forall k | h.level <= k < i || j <= k < |line| :: IsSpace(line[k]))
    && h.title == line[i..j] && (i < j ==> !IsSpace(line[i]) && !IsSpace(line[j - 1]))
  }

  /** Exactly the lines of that shape are headings, with that level and that title. */
  lemma HeadingShape(line: string, h: Heading)
    ensures HeadingOf(line) == Some(h) <==> exists i, j :: TitleAt(line, h, i, j)
  {
    HashesLead(line);
    if HeadingOf(line).Some? {
      var i, j := TitleOfLine(line);
      assert TitleAt(line, HeadingOf(line).value, i, j);
    }
    forall i, j | TitleAt(line, h, i, j) ensures HeadingOf(line) == Some(h) {
      TitleIsRead(line, h, i, j);
    }
  }

  lemma TitleOfLine(line: string) returns (i: nat, j: nat)
    requires HeadingOf(line).Some?
    ensures TitleAt(line, HeadingOf(line).value, i, j)
  {
    hide IsSpace, DropSpaces, TrimSpaces, LeadingHashes;
    var n := LeadingHashes(line);
    HashesLead(line);
    var a := SpacesDropped(line[n..]);
    var rest := DropSpaces(line[n..]);
    var b := SpacesTrimmed(rest);
    i, j := n + a, n + a + b;
    forall k | n <= k < i ensures IsSpace(line[k]) {
      assert line[n..][k - n] == line[k];
    }
    assert rest == line[i..];
    forall k | j <= k < |line| ensures IsSpace(line[k]) {
      assert rest[k - i] == line[k];
    }
  }

  /** Both ends of a stripped text are determined, so a title is read where it lies. */
  lemma TitleIsRead(line: string, h: Heading, i: nat, j: nat)
    requires TitleAt(line, h, i, j)
    ensures HeadingOf(line) == Some(h)
  {
    hide IsSpace, DropSpaces, TrimSpaces, LeadingHashes;
    HashesLead(line);
    SpaceIsNoHash();
    var n := LeadingHashes(line);
    assert n >= h.level by { HashesCounted(line, h.level); }
    assert line[h.level] != '#';
    assert n == h.level;
    var a := SpacesDropped(line[n..]);
    var rest := DropSpaces(line[n..]);
    var b := SpacesTrimmed(rest);
    assert rest == line[n + a..];
    assert rest[..b] == line[n + a..n + a + b];
  }

  lemma SpaceIsNoHash()
    ensures !IsSpace('#')
  {
  }

  lemma {:induction false} HashesCounted(line: string, n: nat)
    requires n <= |line| && forall k | 0 <= k < n :: line[k] == '#'
    ensures LeadingHashes(line) >= n
  {
    if n > 0 {
      HashesCounted(line[1..], n - 1);
    }
  }

  function HashMarks(n: nat): (s: string)
    ensures |s| == n
  {
    if n == 0 then "" else "#" + HashMarks(n - 1)
  }

  /** A written heading is read back, unless it is deeper than six levels. */
  lemma HeadingReadsBack(n: nat, title: string)
    requires title != "" ==> !IsSpace(title[0]) && !IsSpace(title[|title| - 1])
    ensures HeadingOf(HashMarks(n) + " " + title) == if 1 <= n <= 6 then Some(Heading(n, title)) else None
  {
    HashesReadBack(n, " " + title);
    var line := HashMarks(n) + " " + title;
    assert line == HashMarks(n) + (" " + title);
    assert line[n..] == " " + title;
    assert (" " + title)[1..] == title && IsSpace(' ');
    assert DropSpaces(" " + title) == DropSpaces(title) == title;
    assert TrimSpaces(title) == title;
  }

  lemma {:induction false} HashesReadBack(n: nat, rest: string)
    requires rest != "" && rest[0] != '#'
    ensures LeadingHashes(HashMarks(n) + rest) == n
  {
    if n > 0 {
      HashesReadBack(n - 1, rest);
      assert (HashMarks(n) + rest)[1..] == HashMarks(n - 1) + rest;
    } else {
      assert HashMarks(0) + rest == rest;
    }
  }

  // ---------------------------------------------------------------- fences and pre blocks

  datatype Scan = Scan(inFence: bool, preDepth: nat)

  function AfterLine(scan: Scan, line: string): Scan {
    if IsFence(line) then scan.(inFence := !scan.inFence)
    else
      var depth := scan.preDepth + Opens(line) - Closes(line);
      scan.(preDepth := if depth > 0 then depth else 0)
  }

  function StateBefore(lines: seq<string>, i: nat): Scan
    requires i <= |lines|
  {
    if i == 0 then Scan(false, 0) else AfterLine(StateBefore(lines, i - 1), lines[i - 1])
  }

  function HeadingUnder(scan: Scan, line: string): Option<Heading> {
    if IsFence(line) || scan.inFence || scan.preDepth > 0 then None else HeadingOf(line)
  }

  /** The heading that line i is recognised as. */
  function HeadingAt(lines: seq<string>, i: nat): Option<Heading>
    requires i < |lines|
  {
    HeadingUnder(StateBefore(lines, i), lines[i])
  }

  function FenceLines(lines: seq<string>, i: nat): nat
    requires i <= |lines|
  {
    if i == 0 then 0 else FenceLines(lines, i - 1) + if IsFence(lines[i - 1]) then 1 else 0
  }

  /** By how much pre tags opened on lines i to j outnumber those closed there. */
  function Unclosed(lines: seq<string>, i: nat, j: nat): int
    requires i <= j <= |lines|
  {
    if i == j then 0
    else Unclosed(lines, i, j - 1) + if IsFence(lines[j - 1]) then 0 else Opens(lines[j - 1]) - Closes(lines[j - 1])
  }

  lemma {:induction false} DepthIsLargestSurplus(lines: seq<string>, i: nat) returns (at: nat)
    requires i <= |lines|
    ensures at <= i && Unclosed(lines, at, i) == StateBefore(lines, i).preDepth
    ensures forall j | 0 <= j <= i :: Unclosed(lines, j, i) <= StateBefore(lines, i).preDepth
  {
    if i == 0 {
      at := 0;
    } else {
      at := DepthIsLargestSurplus(lines, i - 1);
      if Unclosed(lines, at, i) < 0 {
        at := i;
      }
    }
  }

  /**
   A heading counts when an even number of fence lines precedes it and no earlier line has since then
   opened more pre tags than were closed.
   */
  lemma {:induction false} HeadingsOutsideBlocks(lines: seq<string>, i: nat)
    requires i < |lines|
    ensures StateBefore(lines, i).inFence <==> FenceLines(lines, i) % 2 == 1
    ensures HeadingAt(lines, i).Some? <==>
      && HeadingOf(lines[i]).Some? && FenceLines(lines, i) % 2 == 0
      && forall j | 0 <= j <= i :: Unclosed(lines, j, i) <= 0
  {
    if i > 0 {
      HeadingsOutsideBlocks(lines, i - 1);
    }
    var at := DepthIsLargestSurplus(lines, i);
  }

  /** Spelled out: the lines before line i that open with three backticks. */
  ghost function BacktickLines(lines: seq<string>, i: nat): set<nat>
    requires i <= |lines|
  {
    set j: nat | j < i && |lines[j]| >= 3 && lines[j][0] == '`' && lines[j][1] == '`' && lines[j][2] == '`'
  }

  lemma FenceIff(line: string)
    ensures IsFence(line) <==> |line| >= 3 && line[0] == '`' && line[1] == '`' && line[2] == '`'
  {
    assert |line| >= 3 ==> line[..3] == [line[0], line[1], line[2]];
    if IsFence(line) {
      assert line[0] == line[..3][0] && line[1] == line[..3][1] && line[2] == line[..3][2];
    }
  }

  lemma {:induction false} FenceParity(lines: seq<string>, i: nat)
    requires i <= |lines|
    ensures StateBefore(lines, i).inFence <==> |BacktickLines(lines, i)| % 2 == 1
  {
    if i == 0 {
      assert BacktickLines(lines, 0) == {};
    } else {
      FenceParity(lines, i - 1);
      hide IsFence, BacktickLines;
      OneMoreBacktickLine(lines, i - 1);
    }
  }

  lemma OneMoreBacktickLine(lines: seq<string>, i: nat)
    requires i < |lines|
    ensures |BacktickLines(lines, i + 1)| == |BacktickLines(lines, i)| + if IsFence(lines[i]) then 1 else 0
  {
    FenceIff(lines[i]);
    hide IsFence;
    var more := BacktickLines(lines, i + 1);
    if IsFence(lines[i]) {
      assert more == BacktickLines(lines, i) + {i};
    } else {
      assert more == BacktickLines(lines, i);
    }
  }

  ghost predicate PreAt(line: string, i: nat) {
    i + 4 <= |line| && line[i..i + 4] == "<pre"
  }

  ghost predicate HasPre(line: string) {
    exists i: nat :: PreAt(line, i)
  }

  lemma {:induction false} NoPreNoTag(line: string)
    requires !HasPre(line)
    ensures Opens(line) == 0
  {
    if line != "" {
      forall i: nat | PreAt(line[1..], i) ensures PreAt(line, i + 1) {
        assert line[1..][i..i + 4] == line[i + 1..i + 1 + 4];
      }
      NoPreNoTag(line[1..]);
      assert !PreAt(line, 0);
      assert |line| >= 4 ==> line[..4] == line[0..0 + 4];
    }
  }

  lemma {:induction false} NoPreNoDepth(lines: seq<string>, i: nat)
    requires i <= |lines| && forall j | 0 <= j < i :: !HasPre(lines[j])
    ensures StateBefore(lines, i).preDepth == 0
  {
    if i > 0 {
      NoPreNoDepth(lines, i - 1);
      NoPreNoTag(lines[i - 1]);
      hide Opens, Closes, HasPre;
    }
  }

  /**
   Lines that open with three backticks switch headings off and on again: behind an odd number of them no
   line is a heading, nor is such a line itself. Where no pre tag has come before, every other line behind
   an even number of them is the heading it looks like.
   */
  lemma HeadingsBetweenFences(lines: seq<string>, k: nat)
    requires k < |lines|
    ensures |BacktickLines(lines, k)| % 2 == 1 ==> HeadingAt(lines, k).None?
    ensures k in BacktickLines(lines, k + 1) ==> HeadingAt(lines, k).None?
    ensures |BacktickLines(lines, k)| % 2 == 0 && k !in BacktickLines(lines, k + 1) && (forall j | 0 <= j < k :: !HasPre(lines[j])) ==>
      HeadingAt(lines, k) == HeadingOf(lines[k])
  {
    FenceParity(lines, k);
    FenceIff(lines[k]);
    if forall j | 0 <= j < k :: !HasPre(lines[j]) {
      NoPreNoDepth(lines, k);
    }
    hide HeadingOf, HasPre;
  }

  ghost predicate OpensAt(line: string, i: nat) {
    i + 5 <= |line| && line[i..i + 4] == "<pre" && (line[i + 4] == '>' || IsSpace(line[i + 4]))
  }

  /** Behind the name only whitespace precedes the bracket. */
  ghost predicate ClosesAt(line: string, i: nat) {
    i + 5 <= |line| && line[i..i + 5] == "</pre"
    && exists j :: i + 5 <= j < |line| && line[j] == '>' && forall k | i + 5 <= k < j :: IsSpace(line[k])
  }

  ghost function OpenTags(line: string): set<nat> {
    set i: nat | i < |line| && OpensAt(line, i)
  }

  ghost function CloseTags(line: string): set<nat> {
    set i: nat | i < |line| && ClosesAt(line, i)
  }

  /** How many pre tags a line opens and closes, counted by where they stand. */
  lemma {:induction false} TagsCounted(line: string)
    ensures Opens(line) == |OpenTags(line)| && Closes(line) == |CloseTags(line)|
  {
    if line == "" {
      assert OpenTags(line) == {} && CloseTags(line) == {};
    } else {
      TagsCounted(line[1..]);
      hide IsSpace, DropSpaces;
      OpenTagsShift(line);
      CloseTagsShift(line);
    }
  }

  lemma {:induction false} Shifted(s: set<nat>, t: set<nat>, first: bool)
    requires forall i: nat :: i in s <==> if i == 0 then first else i - 1 in t
    ensures |s| == |t| + if first then 1 else 0
    decreases t
  {
    if t == {} {
      assert s == if first then {0} else {};
    } else {
      var x :| x in t;
      Shifted(s - {x + 1}, t - {x}, first);
      assert x + 1 in s;
    }
  }

  lemma OpenTagsShift(line: string)
    requires line != ""
    ensures |OpenTags(line)| == |OpenTags(line[1..])|
      + if |line| >= 5 && line[..4] == "<pre" && (line[4] == '>' || IsSpace(line[4])) then 1 else 0
  {
    hide IsSpace;
    assert |line| >= 5 ==> line[0..0 + 4] == line[..4];
    forall i: nat | i > 0 ensures OpensAt(line, i) <==> OpensAt(line[1..], i - 1) {
      assert i + 5 <= |line| ==> line[1..][i - 1..i - 1 + 4] == line[i..i + 4];
    }
    Shifted(OpenTags(line), OpenTags(line[1..]), OpensAt(line, 0));
  }

  lemma CloseTagsShift(line: string)
    requires line != ""
    ensures |CloseTags(line)| == |CloseTags(line[1..])|
      + if |line| >= 5 && line[..5] == "</pre" && DropSpaces(line[5..]) != "" && DropSpaces(line[5..])[0] == '>' then 1 else 0
  {
    ClosesAtStart(line);
    forall i: nat | i > 0 ensures ClosesAt(line, i) <==> ClosesAt(line[1..], i - 1) {
      ClosesAtNext(line, i);
    }
    hide ClosesAt, IsSpace, DropSpaces;
    Shifted(CloseTags(line), CloseTags(line[1..]), ClosesAt(line, 0));
  }

  lemma {:induction false} ClosesAtStart(line: string)
    ensures ClosesAt(line, 0) <==>
      |line| >= 5 && line[..5] == "</pre" && DropSpaces(line[5..]) != "" && DropSpaces(line[5..])[0] == '>'
  {
    BracketIsNoSpace();
    hide IsSpace, DropSpaces;
    if |line| >= 5 {
      assert line[0..0 + 5] == line[..5];
      var rest := line[5..];
      var i := SpacesDropped(rest);
      assert forall k | 0 <= k < |rest| :: rest[k] == line[k + 5];
      if i < |rest| && rest[i] == '>' {
        assert line[i + 5] == '>' && forall k | 5 <= k < i + 5 :: line[k] == rest[k - 5];
      }
      if j :| 5 <= j < |line| && line[j] == '>' && forall k | 5 <= k < j :: IsSpace(line[k]) {
        assert rest[j - 5] == '>' && forall k | 0 <= k < j - 5 :: IsSpace(rest[k]);
        assert i == j - 5;
      }
    }
  }

  lemma BracketIsNoSpace()
    ensures !IsSpace('>')
  {
  }

  lemma {:induction false} ClosesAtNext(line: string, i: nat)
    requires line != "" && i > 0
    ensures ClosesAt(line, i) <==> ClosesAt(line[1..], i - 1)
  {
    hide IsSpace;
    var rest := line[1..];
    assert forall k | 0 <= k < |rest| :: rest[k] == line[k + 1];
    if i + 5 <= |line| {
      assert rest[i - 1..i - 1 + 5] == line[i..i + 5];
    }
    if ClosesAt(line, i) {
      var j :| i + 5 <= j < |line| && line[j] == '>' && forall k | i + 5 <= k < j :: IsSpace(line[k]);
      assert rest[j - 1] == '>';
    }
    if ClosesAt(rest, i - 1) {
      var j :| i - 1 + 5 <= j < |rest| && rest[j] == '>' && forall k | i - 1 + 5 <= k < j :: IsSpace(rest[k]);
      assert line[j + 1] == '>';
      forall k | i + 5 <= k < j + 1 ensures IsSpace(line[k]) {
        assert IsSpace(rest[k - 1]);
      }
    }
  }

  // ---------------------------------------------------------------- the titles above a line

  /** No later heading up to line n is on the same or a higher level. */
  ghost predicate Visible(lines: seq<string>, j: nat, n: nat)
    requires j < n <= |lines|
  {
    && HeadingAt(lines, j).Some?
    && forall k | j < k < n && HeadingAt(lines, k).Some? :: HeadingAt(lines, j).value.level < HeadingAt(lines, k).value.level
  }

  /** The headings among the first j lines that are visible from the last of the first n lines. */
  ghost function VisibleHeadings(lines: seq<string>, j: nat, n: nat): seq<Heading>
    requires j <= n <= |lines|
  {
    if j == 0 then []
    else VisibleHeadings(lines, j - 1, n) + if Visible(lines, j - 1, n) then [HeadingAt(lines, j - 1).value] else []
  }

  function Titles(headings: seq<Heading>): seq<string> {
    seq(|headings|, i requires 0 <= i < |headings| => headings[i].title)
  }

  ghost function PathTo(lines: seq<string>, i: nat): seq<string>
    requires i < |lines|
  {
    Titles(VisibleHeadings(lines, i + 1, i + 1))
  }

  function Below(stack: seq<Heading>, level: nat): seq<Heading> {
    if stack == [] then []
    else Below(stack[..|stack| - 1], level) + if stack[|stack| - 1].level < level then [stack[|stack| - 1]] else []
  }

  predicate Increasing(stack: seq<Heading>) {
    forall i, j | 0 <= i < j < |stack| :: stack[i].level < stack[j].level
  }

  lemma {:induction false} AllBelow(stack: seq<Heading>, level: nat)
    requires forall h | h in stack :: h.level < level
    ensures Below(stack, level) == stack
  {
    hide *;
    if stack == [] {
      NothingBelow(level);
    } else {
      var front, last := stack[..|stack| - 1], stack[|stack| - 1];
      assert stack == front + [last];
      AllBelow(front, level);
      BelowStep(front, last, level);
    }
  }

  lemma PushIncreases(stack: seq<Heading>, h: Heading)
    requires Increasing(stack) && forall k | k in stack :: k.level < h.level
    ensures Increasing(stack + [h])
  {
  }

  lemma {:induction false} BelowIsBelow(stack: seq<Heading>, level: nat)
    requires Increasing(stack)
    ensures forall h | h in Below(stack, level) :: h.level < level && h in stack
    ensures Increasing(Below(stack, level))
  {
    hide *;
    if stack == [] {
      NothingBelow(level);
    } else {
      var front, last := stack[..|stack| - 1], stack[|stack| - 1];
      assert stack == front + [last];
      LastIsHighest(front, last);
      BelowIsBelow(front, level);
      BelowStep(front, last, level);
      if last.level < level {
        PushIncreases(Below(front, level), last);
      } else {
        assert Below(front, level) + [] == Below(front, level);
      }
    }
  }

  lemma NothingBelow(level: nat)
    ensures Below([], level) == [] && Increasing([])
  {
  }

  lemma LastIsHighest(front: seq<Heading>, last: Heading)
    requires Increasing(front + [last])
    ensures Increasing(front) && forall h | h in front :: h.level < last.level
  {
    var stack := front + [last];
    forall i, j | 0 <= i < j < |front| ensures front[i].level < front[j].level {
      assert stack[i].level < stack[j].level;
    }
    forall i | 0 <= i < |front| ensures front[i].level < last.level {
      assert stack[i].level < stack[|front|].level;
    }
  }

  lemma BelowStep(stack: seq<Heading>, h: Heading, level: nat)
    ensures Below(stack + [h], level) == Below(stack, level) + if h.level < level then [h] else []
  {
    assert (stack + [h])[..|stack|] == stack;
  }

  lemma VisibleStep(lines: seq<string>, j: nat, n: nat)
    requires 0 < j <= n <= |lines|
    ensures VisibleHeadings(lines, j, n) == VisibleHeadings(lines, j - 1, n)
      + (if Visible(lines, j - 1, n) then [HeadingAt(lines, j - 1).value] else [])
    ensures !Visible(lines, j - 1, n) ==> VisibleHeadings(lines, j, n) == VisibleHeadings(lines, j - 1, n)
  {
  }

  lemma HiddenByHeading(lines: seq<string>, j: nat, n: nat)
    requires j < n < |lines| && HeadingAt(lines, n).Some?
    ensures Visible(lines, j, n) ==> HeadingAt(lines, j).Some?
    ensures Visible(lines, j, n + 1) <==>
      Visible(lines, j, n) && HeadingAt(lines, j).value.level < HeadingAt(lines, n).value.level
  {
    hide HeadingAt;
  }

  lemma NothingVisible(lines: seq<string>, n: nat)
    requires n < |lines|
    ensures VisibleHeadings(lines, 0, n) == [] && VisibleHeadings(lines, 0, n + 1) == []
  {
  }

  /** A line that is no heading hides nothing. */
  lemma {:induction false} OrdinaryLine(lines: seq<string>, j: nat, n: nat)
    requires j <= n < |lines| && HeadingAt(lines, n).None?
    ensures VisibleHeadings(lines, j, n + 1) == VisibleHeadings(lines, j, n)
  {
    if j > 0 {
      OrdinaryLine(lines, j - 1, n);
      assert Visible(lines, j - 1, n + 1) <==> Visible(lines, j - 1, n);
    }
  }

  /** A heading hides exactly the headings that are not below it. */
  lemma {:induction false} HeadingHides(lines: seq<string>, j: nat, n: nat)
    requires j <= n < |lines| && HeadingAt(lines, n).Some?
    ensures VisibleHeadings(lines, j, n + 1) == Below(VisibleHeadings(lines, j, n), HeadingAt(lines, n).value.level)
  {
    hide *;
    if j == 0 {
      NothingVisible(lines, n);
      NothingBelow(HeadingAt(lines, n).value.level);
    } else {
      HeadingHides(lines, j - 1, n);
      var level := HeadingAt(lines, n).value.level;
      VisibleStep(lines, j, n);
      VisibleStep(lines, j, n + 1);
      HiddenByHeading(lines, j - 1, n);
      if Visible(lines, j - 1, n) {
        BelowStep(VisibleHeadings(lines, j - 1, n), HeadingAt(lines, j - 1).value, level);
      }
    }
  }

  lemma {:induction false} VisibleIncrease(lines: seq<string>, n: nat)
    requires n <= |lines|
    ensures Increasing(VisibleHeadings(lines, n, n))
  {
    if n > 0 {
      VisibleIncrease(lines, n - 1);
      OneMoreLine(lines, n - 1);
      hide *;
      if HeadingAt(lines, n - 1).Some? {
        var level := HeadingAt(lines, n - 1).value.level;
        BelowIsBelow(VisibleHeadings(lines, n - 1, n - 1), level);
        PushIncreases(Below(VisibleHeadings(lines, n - 1, n - 1), level), HeadingAt(lines, n - 1).value);
      }
    }
  }

  /** How the visible headings change with one more line. */
  lemma OneMoreLine(lines: seq<string>, n: nat)
    requires n < |lines|
    ensures HeadingAt(lines, n).None? ==> VisibleHeadings(lines, n + 1, n + 1) == VisibleHeadings(lines, n, n)
    ensures HeadingAt(lines, n).Some? ==>
      VisibleHeadings(lines, n + 1, n + 1) ==
      Below(VisibleHeadings(lines, n, n), HeadingAt(lines, n).value.level) + [HeadingAt(lines, n).value]
  {
    VisibleStep(lines, n + 1, n + 1);
    hide HeadingAt, Below, VisibleHeadings;
    if HeadingAt(lines, n).None? {
      OrdinaryLine(lines, n, n);
    } else {
      HeadingHides(lines, n, n);
    }
  }

  /** Pops the deeper and equal levels. */
  method PopAndPush(stack0: seq<Heading>, h: Heading) returns (stack: seq<Heading>)
    requires Increasing(stack0)
    ensures stack == Below(stack0, h.level) + [h]
  {
    stack := stack0;
    while stack != [] && stack[|stack| - 1].level >= h.level
      invariant Increasing(stack) && Below(stack, h.level) == Below(stack0, h.level)
    {
      stack := stack[..|stack| - 1];
    }
    AllBelow(stack, h.level);
    stack := stack + [h];
  }
}
