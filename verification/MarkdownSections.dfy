/** Sections between headings, and the chunker as a whole. */
module MarkdownSections {
  import opened Wrappers
  import opened MarkdownText
  import opened MarkdownSplit
  import opened MarkdownChunker

  predicate StartsSection(lines: seq<string>, a: nat)
    requires a < |lines|
  {
    a == 0 || HeadingAt(lines, a).Some?
  }

  function NextHeading(lines: seq<string>, a: nat): (b: nat)
    requires a < |lines|
    ensures a < b <= |lines|
    decreases |lines| - a
  {
    if a + 1 == |lines| || HeadingAt(lines, a + 1).Some? then a + 1 else NextHeading(lines, a + 1)
  }

  ghost predicate NoHeadingBetween(lines: seq<string>, a: nat, b: nat)
    requires b <= |lines|
  {
    forall k | a < k < b :: HeadingAt(lines, k).None?
  }

  lemma {:induction false} NextHeadingIsNext(lines: seq<string>, a: nat)
    requires a < |lines|
    ensures NoHeadingBetween(lines, a, NextHeading(lines, a))
    ensures NextHeading(lines, a) < |lines| ==> HeadingAt(lines, NextHeading(lines, a)).Some?
    decreases |lines| - a
  {
    hide HeadingAt;
    if !(a + 1 == |lines| || HeadingAt(lines, a + 1).Some?) {
      NextHeadingIsNext(lines, a + 1);
    }
  }

  lemma {:induction false} NextHeadingFound(lines: seq<string>, a: nat, b: nat)
    requires a < b <= |lines| && NoHeadingBetween(lines, a, b)
    requires b < |lines| ==> HeadingAt(lines, b).Some?
    ensures NextHeading(lines, a) == b
    decreases b - a
  {
    hide HeadingAt;
    if a + 1 < b {
      NextHeadingFound(lines, a + 1, b);
    }
  }

  function SectionText(lines: seq<string>, a: nat): string
    requires a < |lines|
  {
    Strip(Join(lines[a..NextHeading(lines, a)], "\n"))
  }

  /** What the section that starts with line a must be. */
  ghost function SectionFrom(lines: seq<string>, a: nat): Chunk
    requires a < |lines|
  {
    var b := NextHeading(lines, a);
    Chunk(SectionText(lines, a), LineStart(lines, a), LineStart(lines, b) - 1, a + 1, b, PathTo(lines, a))
  }

  ghost function SectionsFrom(lines: seq<string>, a: nat): seq<Chunk>
    requires a <= |lines|
    decreases |lines| - a
  {
    if a == |lines| then []
    else (if SectionText(lines, a) != "" then [SectionFrom(lines, a)] else []) + SectionsFrom(lines, NextHeading(lines, a))
  }

  // ---------------------------------------------------------------- the loop over the lines

  method Flush(sections: seq<Chunk>, current: seq<string>, startChar: int, endChar: int, startLine: int,
               endLine: int, path: seq<string>)
    returns (more: seq<Chunk>)
    ensures current == [] ==> more == sections
    ensures current != [] ==>
      var text := Strip(Join(current, "\n"));
      more == sections + if text != "" then [Chunk(text, startChar, endChar, startLine, endLine, path)] else []
  {
    more := sections;
    if current == [] {
      return;
    }
    var text := Strip(Join(current, "\n"));
    if text == "" {
      return;
    }
    more := sections + [Chunk(text, startChar, endChar, startLine, endLine, path)];
  }

  /** The lines from a on are open. */
  ghost predicate Open(lines: seq<string>, idx: nat, a: nat, current: seq<string>, path: seq<string>)
    requires idx <= |lines|
  {
    && a <= idx && (idx > 0 ==> a < idx) && a < |lines|
    && current == lines[a..idx]
    && StartsSection(lines, a) && NoHeadingBetween(lines, a, idx)
    && path == (if idx == 0 then [] else PathTo(lines, a))
  }

  /** The sections before line a are closed. */
  ghost predicate Closed(lines: seq<string>, a: nat, sections: seq<Chunk>) {
    a <= |lines| && sections + SectionsFrom(lines, a) == SectionsFrom(lines, 0)
  }

  lemma PathOfFirstLine(lines: seq<string>)
    requires lines != [] && HeadingAt(lines, 0).None?
    ensures PathTo(lines, 0) == []
  {
    OneMoreLine(lines, 0);
  }

  lemma OpenMore(lines: seq<string>, idx: nat, a: nat, current: seq<string>, path: seq<string>)
    requires idx < |lines| && Open(lines, idx, a, current, path)
    requires HeadingAt(lines, idx).None?
    ensures Open(lines, idx + 1, a, current + [lines[idx]], path)
  {
    hide HeadingAt, PathTo;
    assert lines[a..idx] + [lines[idx]] == lines[a..idx + 1];
    if idx == 0 {
      PathOfFirstLine(lines);
    }
  }

  /** The section that the open lines make. */
  ghost function ClosedSection(lines: seq<string>, a: nat, b: nat): seq<Chunk>
    requires a < b <= |lines|
  {
    var text := Strip(Join(lines[a..b], "\n"));
    if text != "" then [Chunk(text, LineStart(lines, a), LineStart(lines, b) - 1, a + 1, b, PathTo(lines, a))] else []
  }

  lemma CloseSection(lines: seq<string>, a: nat, b: nat)
    requires a < b <= |lines| && NoHeadingBetween(lines, a, b)
    requires b < |lines| ==> HeadingAt(lines, b).Some?
    ensures SectionsFrom(lines, a) == ClosedSection(lines, a, b) + SectionsFrom(lines, b)
  {
    hide *;
    NextHeadingFound(lines, a, b);
    SectionsStep(lines, a);
    FlushedSection(lines, a, b);
  }

  lemma SectionsStep(lines: seq<string>, a: nat)
    requires a < |lines|
    ensures SectionsFrom(lines, a) ==
      var b := NextHeading(lines, a);
      var text := Strip(Join(lines[a..b], "\n"));
      (if text != "" then [Chunk(text, LineStart(lines, a), LineStart(lines, b) - 1, a + 1, b, PathTo(lines, a))] else [])
      + SectionsFrom(lines, b)
  {
    hide NextHeading, LineStart, Strip, Join, PathTo, HeadingAt;
  }

  lemma OpenAtHeading(lines: seq<string>, idx: nat, a: nat, current: seq<string>, path: seq<string>,
                      sections: seq<Chunk>)
    requires idx < |lines| && Open(lines, idx, a, current, path) && Closed(lines, a, sections)
    requires HeadingAt(lines, idx).Some?
    ensures Open(lines, idx + 1, idx, [lines[idx]], PathTo(lines, idx))
    ensures Closed(lines, idx, if current == [] then sections else sections + ClosedSection(lines, a, idx))
  {
    hide HeadingAt, PathTo, SectionsFrom, ClosedSection;
    assert lines[idx..idx + 1] == [lines[idx]];
    if current != [] {
      CloseSection(lines, a, idx);
      assert sections + ClosedSection(lines, a, idx) + SectionsFrom(lines, idx)
          == sections + (ClosedSection(lines, a, idx) + SectionsFrom(lines, idx));
    }
  }

  lemma OpenAtStart(lines: seq<string>)
    requires lines != []
    ensures Open(lines, 0, 0, [], []) && Closed(lines, 0, []) && LineStart(lines, 0) == 0
    ensures StateBefore(lines, 0) == Scan(false, 0) && VisibleHeadings(lines, 0, 0) == []
  {
    assert [] + SectionsFrom(lines, 0) == SectionsFrom(lines, 0);
  }

  lemma NextLine(lines: seq<string>, idx: nat)
    requires idx < |lines|
    ensures LineStart(lines, idx + 1) == LineStart(lines, idx) + |lines[idx]| + 1
    ensures StateBefore(lines, idx + 1) == AfterLine(StateBefore(lines, idx), lines[idx])
  {
  }

  lemma NoMoreSections(lines: seq<string>)
    ensures SectionsFrom(lines, |lines|) == []
  {
  }

  lemma OpenToClosed(lines: seq<string>, text: string, a: nat, current: seq<string>, path: seq<string>,
                     sections: seq<Chunk>)
    requires lines != [] && text == Join(lines, "\n")
    requires Open(lines, |lines|, a, current, path) && Closed(lines, a, sections)
    ensures a < |lines| && current == lines[a..|lines|] != [] && path == PathTo(lines, a)
    ensures |text| == LineStart(lines, |lines|) - 1
    ensures sections + ClosedSection(lines, a, |lines|) == SectionsFrom(lines, 0)
  {
    NoMoreSections(lines);
    hide HeadingAt, PathTo, SectionsFrom, ClosedSection, LineStart, Join;
    CloseSection(lines, a, |lines|);
    LinesAreSlice(lines, text, 0, |lines|);
    assert ClosedSection(lines, a, |lines|) + [] == ClosedSection(lines, a, |lines|);
  }

  lemma FenceStep(lines: seq<string>, idx: nat, inFence: bool, preDepth: nat)
    requires idx < |lines| && IsFence(lines[idx]) && StateBefore(lines, idx) == Scan(inFence, preDepth)
    ensures HeadingAt(lines, idx).None? && AfterLine(StateBefore(lines, idx), lines[idx]) == Scan(!inFence, preDepth)
  {
  }

  lemma TextStep(lines: seq<string>, idx: nat, inFence: bool, preDepth: nat, depth: int)
    requires idx < |lines| && !IsFence(lines[idx]) && StateBefore(lines, idx) == Scan(inFence, preDepth)
    requires depth == preDepth + Opens(lines[idx]) - Closes(lines[idx])
    ensures HeadingAt(lines, idx) == if !inFence && !(preDepth > 0) then HeadingOf(lines[idx]) else None
    ensures AfterLine(StateBefore(lines, idx), lines[idx]) == Scan(inFence, if depth > 0 then depth else 0)
  {
  }

  lemma CurrentLines(lines: seq<string>, idx: nat, a: nat, current: seq<string>, path: seq<string>)
    requires idx <= |lines| && Open(lines, idx, a, current, path)
    ensures current != [] ==> a < idx && current == lines[a..idx] && path == PathTo(lines, a)
  {
  }

  lemma FlushedSection(lines: seq<string>, a: nat, b: nat)
    requires a < b <= |lines|
    ensures ClosedSection(lines, a, b) ==
      var text := Strip(Join(lines[a..b], "\n"));
      if text != "" then [Chunk(text, LineStart(lines, a), LineStart(lines, b) - 1, a + 1, b, PathTo(lines, a))] else []
  {
    hide LineStart, PathTo, Strip, Join;
  }

  lemma PathFromStack(lines: seq<string>, idx: nat, stack: seq<Heading>)
    requires idx < |lines| && stack == VisibleHeadings(lines, idx + 1, idx + 1)
    ensures Titles(stack) == PathTo(lines, idx)
  {
  }

  /** The loop that closes a section at every heading outside fences and pre blocks. */
  method CutAtHeadings(text: string) returns (sections: seq<Chunk>)
    ensures sections == SectionsFrom(SplitLines(text), 0)
  {
    hide *;
    var lines := SplitLines(text);
    JoinOfSplitLines(text);
    sections := [];
    var stack: seq<Heading> := [];
    var current: seq<string> := [];
    var path: seq<string> := [];
    var startLine, startChar, cursor := 1, 0, 0;
    var inFence: bool, preDepth: nat := false, 0;
    OpenAtStart(lines);
    for idx := 0 to |lines|
      invariant startLine >= 1 && Open(lines, idx, startLine - 1, current, path) && Closed(lines, startLine - 1, sections)
      invariant startLine - 1 < |lines| && startChar == LineStart(lines, startLine - 1)
      invariant cursor == LineStart(lines, idx)
      invariant StateBefore(lines, idx) == Scan(inFence, preDepth)
      invariant stack == VisibleHeadings(lines, idx, idx)
    {
      var line := lines[idx];
      ghost var a := startLine - 1;
      NextLine(lines, idx);
      OneMoreLine(lines, idx);
      if IsFence(line) {
        FenceStep(lines, idx, inFence, preDepth);
        OpenMore(lines, idx, a, current, path);
        inFence := !inFence;
        current := current + [line];
        cursor := cursor + |line| + 1;
      } else {
        var wasInPre := preDepth > 0;
        var depth := preDepth + Opens(line) - Closes(line);
        TextStep(lines, idx, inFence, preDepth, depth);
        preDepth := if depth > 0 then depth else 0;
        var heading := if !inFence && !wasInPre then HeadingOf(line) else None;
        if heading.Some? {
          OpenAtHeading(lines, idx, a, current, path, sections);
          CurrentLines(lines, idx, a, current, path);
          if current != [] {
            sections := Flush(sections, current, startChar, cursor - 1, startLine, idx, path);
            FlushedSection(lines, a, idx);
          }
          VisibleIncrease(lines, idx);
          stack := PopAndPush(stack, heading.value);
          path := Titles(stack);
          PathFromStack(lines, idx, stack);
          current := [line];
          startLine := idx + 1;
          startChar := cursor;
        } else {
          OpenMore(lines, idx, a, current, path);
          current := current + [line];
        }
        cursor := cursor + |line| + 1;
      }
    }
    ghost var a := startLine - 1;
    OpenToClosed(lines, text, a, current, path, sections);
    FlushedSection(lines, a, |lines|);
    sections := Flush(sections, current, startChar, |text|, startLine, |lines|, path);
  }

  // ---------------------------------------------------------------- where sections lie

  /** The piece is found at its offset, only newlines follow up to its end, and its lines are counted right. */
  ghost predicate Located(text: string, c: Chunk) {
    && 0 <= c.startChar && c.startChar + |c.text| <= c.endChar <= |text|
    && text[c.startChar..c.startChar + |c.text|] == c.text
    && (forall k | c.startChar + |c.text| <= k < c.endChar :: text[k] == NEWLINE)
    && c.startLine == 1 + Newlines(text[..c.startChar])
    && c.endLine == c.startLine + Newlines(text[c.startChar..c.endChar])
  }

  lemma LinesOfSpan(text: string, lines: seq<string>, a: nat, b: nat)
    requires lines == SplitLines(text) && a < b <= |lines|
    ensures 0 <= LineStart(lines, a) <= LineStart(lines, b) - 1 <= |text|
    ensures text[LineStart(lines, a)..LineStart(lines, b) - 1] == Join(lines[a..b], "\n")
    ensures b < |lines| ==> LineStart(lines, b) - 1 < |text| && text[LineStart(lines, b) - 1] == NEWLINE
    ensures b == |lines| ==> LineStart(lines, b) - 1 == |text|
    ensures Newlines(text[..LineStart(lines, a)]) == a && Newlines(Join(lines[a..b], "\n")) == b - a - 1
  {
    hide *;
    JoinOfSplitLines(text);
    LinesHoldNoNewline(text);
    LinesAreSlice(lines, text, a, b);
    LineStartIsLength(lines[a..b], b - a);
    assert lines[a..b][..b - a] == lines[a..b];
    LinesBefore(text, lines, a);
  }

  lemma LinesBefore(text: string, lines: seq<string>, a: nat)
    requires lines == SplitLines(text) && a < |lines| && text == Join(lines, "\n")
    requires forall i | 0 <= i < |lines| :: NEWLINE !in lines[i]
    requires LineStart(lines, a) <= |text|
    ensures Newlines(text[..LineStart(lines, a)]) == a
  {
    var n := LineStart(lines, a);
    if a > 0 {
      hide Join, SplitLines, Newlines;
      LineStartIsLength(lines, a);
      LinesAreSlice(lines, text, 0, a);
      assert lines[0..a] == lines[..a];
      assert LineStart(lines, 0) == 0;
      OneMoreNewline(text, n);
    } else {
      assert n == 0 && text[..n] == "";
    }
  }

  lemma OneMoreNewline(text: string, n: nat)
    requires 0 < n <= |text| && text[n - 1] == NEWLINE
    ensures Newlines(text[..n]) == Newlines(text[0..n - 1]) + 1
  {
    assert text[..n][..n - 1] == text[0..n - 1];
  }

  /** A section is found where it says exactly when its first line is not empty. */
  lemma SectionIsLocated(text: string, lines: seq<string>, a: nat)
    requires lines == SplitLines(text) && a < |lines|
    ensures lines[a] != "" ==> SectionText(lines, a) != ""
    ensures SectionText(lines, a) != "" ==> (Located(text, SectionFrom(lines, a)) <==> lines[a] != "")
  {
    hide *;
    var b := NextHeading(lines, a);
    LinesOfSpan(text, lines, a, b);
    SectionTextIs(lines, a);
    var span := Join(lines[a..b], "\n");
    SpanStartsWithLine(text, lines, a, b);
    StripFacts(span);
    if lines[a] != "" {
      LocatedByLines(text, lines, a);
    } else if SectionText(lines, a) != "" {
      NotLocated(text, lines, a);
    }
  }

  lemma SpanStartsWithLine(text: string, lines: seq<string>, a: nat, b: nat)
    requires lines == SplitLines(text) && a < b <= |lines|
    ensures var span := Join(lines[a..b], "\n");
      if lines[a] != "" then span != "" && span[0] != NEWLINE else span != "" ==> span[0] == NEWLINE
    ensures StripEnd("") == "" && StripStart("") == "" && Strip("") == ""
  {
    LinesHoldNoNewline(text);
    JoinStarts(lines[a..b], "\n");
    hide Join, SplitLines;
    assert lines[a..b][0] == lines[a];
    assert lines[a] != "" ==> lines[a][0] in lines[a];
  }

  lemma LocatedByLines(text: string, lines: seq<string>, a: nat)
    requires a < |lines|
    requires 0 <= LineStart(lines, a) <= LineStart(lines, NextHeading(lines, a)) - 1 <= |text|
    requires var start, end, s := LineStart(lines, a), LineStart(lines, NextHeading(lines, a)) - 1, SectionText(lines, a);
      && start + |s| <= end && text[start..start + |s|] == s
      && (forall k | start + |s| <= k < end :: text[k] == NEWLINE)
      && Newlines(text[..start]) == a && Newlines(text[start..end]) == NextHeading(lines, a) - a - 1
    ensures Located(text, SectionFrom(lines, a))
  {
    hide LineStart, NextHeading, SectionText, PathTo, Newlines;
  }

  lemma NotLocated(text: string, lines: seq<string>, a: nat)
    requires a < |lines| && SectionText(lines, a) != "" && SectionText(lines, a)[0] != NEWLINE
    requires 0 <= LineStart(lines, a) < LineStart(lines, NextHeading(lines, a)) - 1 <= |text|
    requires text[LineStart(lines, a)..LineStart(lines, NextHeading(lines, a)) - 1][0] == NEWLINE
    ensures !Located(text, SectionFrom(lines, a))
  {
    hide LineStart, NextHeading, SectionText, PathTo, Newlines;
    var start, s := LineStart(lines, a), SectionText(lines, a);
    assert text[start] == NEWLINE;
    assert start + |s| <= |text| ==> text[start..start + |s|][0] == text[start];
  }

  lemma HeadingHasText(lines: seq<string>, a: nat)
    requires a < |lines| && HeadingAt(lines, a).Some?
    ensures lines[a] != ""
  {
  }

  // ---------------------------------------------------------------- all sections

  /** One newline lies between neighbours. */
  ghost predicate Abut(text: string, c: Chunk, next: Chunk) {
    && 0 <= c.endChar < |text| && text[c.endChar] == NEWLINE
    && next.startChar == c.endChar + 1 && next.startLine == c.endLine + 1
  }

  ghost predicate Tile(text: string, sections: seq<Chunk>) {
    && (forall c | c in sections :: Located(text, c))
    && (forall i | 0 <= i < |sections| - 1 :: Abut(text, sections[i], sections[i + 1]))
    && (sections != [] ==> sections[|sections| - 1].endChar == |text|)
  }

  lemma TileInFront(text: string, c: Chunk, rest: seq<Chunk>)
    requires Located(text, c) && Tile(text, rest)
    requires if rest == [] then c.endChar == |text| else Abut(text, c, rest[0])
    ensures Tile(text, [c] + rest)
  {
    hide Located, Abut;
  }

  lemma {:induction false} SectionsTileFrom(text: string, lines: seq<string>, a: nat)
    requires lines == SplitLines(text) && a <= |lines|
    requires a < |lines| ==> lines[a] != ""
    ensures Tile(text, SectionsFrom(lines, a))
    ensures a < |lines| ==> SectionsFrom(lines, a) != [] && SectionsFrom(lines, a)[0] == SectionFrom(lines, a)
    decreases |lines| - a
  {
    hide *;
    if a < |lines| {
      var b := NextHeading(lines, a);
      NextHeadingIsNext(lines, a);
      if b < |lines| { HeadingHasText(lines, b); }
      SectionsTileFrom(text, lines, b);
      SectionIsLocated(text, lines, a);
      LinesOfSpan(text, lines, a, b);
      SectionInFront(lines, a);
      NeighboursAbut(text, lines, a);
      TileInFront(text, SectionFrom(lines, a), SectionsFrom(lines, b));
    }
    NothingToTile(text, lines);
  }

  lemma NothingToTile(text: string, lines: seq<string>)
    ensures SectionsFrom(lines, |lines|) == [] && Tile(text, [])
  {
  }

  lemma SectionInFront(lines: seq<string>, a: nat)
    requires a < |lines| && SectionText(lines, a) != ""
    ensures SectionsFrom(lines, a) == [SectionFrom(lines, a)] + SectionsFrom(lines, NextHeading(lines, a))
    ensures NextHeading(lines, a) == |lines| ==> SectionsFrom(lines, NextHeading(lines, a)) == []
  {
    hide NextHeading, SectionText, SectionFrom;
  }

  lemma NeighboursAbut(text: string, lines: seq<string>, a: nat)
    requires a < |lines|
    requires var b := NextHeading(lines, a);
      && 0 <= LineStart(lines, b) - 1
      && (b < |lines| ==> LineStart(lines, b) - 1 < |text| && text[LineStart(lines, b) - 1] == NEWLINE)
      && (b == |lines| ==> LineStart(lines, b) - 1 == |text|)
    ensures var b, c := NextHeading(lines, a), SectionFrom(lines, a);
      if b < |lines| then Abut(text, c, SectionFrom(lines, b)) else c.endChar == |text|
  {
    hide NextHeading, SectionText, PathTo, LineStart;
  }

  /** The sections of a text are those of its first line and of its headings, and nothing else. */
  lemma {:induction false} SectionsAreThoseOfHeadings(text: string, lines: seq<string>, a: nat)
    requires lines == SplitLines(text) && a < |lines| && StartsSection(lines, a)
    ensures forall k | a <= k < |lines| && HeadingAt(lines, k).Some? :: SectionFrom(lines, k) in SectionsFrom(lines, a)
    ensures forall c | c in SectionsFrom(lines, a) :: exists k ::
      a <= k < |lines| && StartsSection(lines, k) && c == SectionFrom(lines, k)
    decreases |lines| - a
  {
    hide NextHeading, PathTo, HeadingAt, Strip, Join, SplitLines, Newlines, LineStart, SectionText, SectionFrom;
    var b := NextHeading(lines, a);
    NextHeadingIsNext(lines, a);
    SectionIsLocated(text, lines, a);
    if HeadingAt(lines, a).Some? { HeadingHasText(lines, a); }
    if b < |lines| {
      SectionsAreThoseOfHeadings(text, lines, b);
    }
    var rest := SectionsFrom(lines, b);
    assert SectionsFrom(lines, a) == (if SectionText(lines, a) != "" then [SectionFrom(lines, a)] else []) + rest;
    forall k | a <= k < |lines| && HeadingAt(lines, k).Some? ensures SectionFrom(lines, k) in SectionsFrom(lines, a) {
      assert k == a || k >= b;
    }
  }

  lemma {:induction false} TextsOfConcat(a: seq<Chunk>, b: seq<Chunk>)
    ensures Texts(a + b) == Texts(a) + Texts(b)
  {
    if b == [] {
      assert a + b == a;
    } else {
      var n := |b| - 1;
      TextsOfConcat(a, b[..n]);
      assert a + b == (a + b[..n]) + [b[n]] && b == b[..n] + [b[n]];
      TextsStep(a + b[..n], b[n]);
      TextsStep(b[..n], b[n]);
    }
  }

  lemma TextOfSections(lines: seq<string>, a: nat)
    requires a < |lines|
    ensures Texts(SectionsFrom(lines, a)) == SectionText(lines, a) + Texts(SectionsFrom(lines, NextHeading(lines, a)))
  {
    hide Strip, Join, NextHeading, SectionText, Texts;
    var rest := SectionsFrom(lines, NextHeading(lines, a));
    var head := if SectionText(lines, a) != "" then [SectionFrom(lines, a)] else [];
    assert SectionsFrom(lines, a) == head + rest;
    TextsOfConcat(head, rest);
    TextsOfOne(SectionFrom(lines, a));
  }

  lemma TextsOfOne(c: Chunk)
    ensures Texts([c]) == c.text && Texts([]) == ""
  {
    TextsStep([], c);
    assert [] + [c] == [c];
  }

  lemma {:induction false} InkOfSections(lines: seq<string>, a: nat)
    requires a < |lines|
    ensures Ink(Texts(SectionsFrom(lines, a))) == Ink(Join(lines[a..], "\n"))
    decreases |lines| - a
  {
    hide *;
    var b := NextHeading(lines, a);
    SectionTextIs(lines, a);
    TextOfSections(lines, a);
    StripFacts(Join(lines[a..b], "\n"));
    InkOfConcat(SectionText(lines, a), Texts(SectionsFrom(lines, b)));
    if b < |lines| {
      InkOfSections(lines, b);
      assert lines[a..] == lines[a..b] + lines[b..];
      JoinOfConcat(lines[a..b], lines[b..], "\n");
      InkOfConcat(Join(lines[a..b], "\n") + "\n", Join(lines[b..], "\n"));
      InkOfConcat(Join(lines[a..b], "\n"), "\n");
      BlankLineHasNoInk();
    } else {
      assert lines[a..b] == lines[a..];
      NoMoreSections(lines);
      NothingHasNoInk();
    }
  }

  lemma SectionTextIs(lines: seq<string>, a: nat)
    requires a < |lines|
    ensures SectionText(lines, a) == Strip(Join(lines[a..NextHeading(lines, a)], "\n"))
  {
  }

  lemma NothingHasNoInk()
    ensures Ink(Texts([])) == ""
  {
  }

  /** Between two headings the visible titles do not change. */
  lemma {:induction false} PathWithinSection(lines: seq<string>, a: nat, k: nat)
    requires a <= k < |lines| && NoHeadingBetween(lines, a, k + 1)
    ensures PathTo(lines, k) == PathTo(lines, a)
    decreases k - a
  {
    hide HeadingAt, VisibleHeadings;
    if a < k {
      PathWithinSection(lines, a, k - 1);
      OneMoreLine(lines, k);
    }
  }

  // ---------------------------------------------------------------- pieces of sections

  /** The titles recorded are those visible from the line where the piece starts. */
  ghost predicate HasItsPath(lines: seq<string>, c: Chunk) {
    1 <= c.startLine <= |lines| && c.headingPath == PathTo(lines, c.startLine - 1)
  }

  ghost predicate Within(text: string, lines: seq<string>, pieces: seq<Chunk>, lo: int, hi: int) {
    && (forall c | c in pieces :: Located(text, c) && HasItsPath(lines, c) && lo <= c.startChar && c.endChar <= hi)
    && (forall i | 0 <= i < |pieces| - 1 :: pieces[i].endChar <= pieces[i + 1].startChar)
  }

  lemma PieceIsLocated(text: string, sec: Chunk, piece: Chunk)
    requires Located(text, sec) && LiesAt(piece, sec.text, sec.startChar, sec.startLine)
    ensures Located(text, piece) && sec.startChar <= piece.startChar && piece.endChar <= sec.endChar
    ensures sec.startLine <= piece.startLine <= sec.endLine
  {
    hide Newlines;
    var offset, start, end := piece.startChar - sec.startChar, sec.startChar, sec.endChar;
    var span := text[start..end];
    SliceOfSlice(text, start, start + |sec.text|, 0, offset);
    SliceOfSlice(text, start, start + |sec.text|, offset, offset + |piece.text|);
    SliceOfSlice(text, start, end, 0, offset);
    NewlinesOfSlice(text, start, piece.startChar);
    NewlinesOfSlice(span, 0, offset);
  }

  lemma SliceOfSlice(s: string, i: nat, j: nat, k: nat, l: nat)
    requires i <= j <= |s| && k <= l <= j - i
    ensures s[i..j][k..l] == s[i + k..i + l] && s[i..j][..l] == s[i..j][0..l]
  {
    var t := s[i..j];
    assert |t[k..l]| == |s[i + k..i + l]|;
    assert forall x | 0 <= x < l - k :: t[k..l][x] == t[k + x] == s[i + k + x] == s[i + k..i + l][x];
    assert t[k..l] == s[i + k..i + l];
  }

  lemma PieceHasPath(text: string, lines: seq<string>, a: nat, piece: Chunk)
    requires lines == SplitLines(text) && a < |lines|
    requires a + 1 <= piece.startLine <= NextHeading(lines, a) && piece.headingPath == PathTo(lines, a)
    ensures HasItsPath(lines, piece)
  {
    hide HeadingAt, PathTo, NextHeading;
    NextHeadingIsNext(lines, a);
    PathWithinSection(lines, a, piece.startLine - 1);
  }

  lemma SectionIsWithin(text: string, lines: seq<string>, a: nat)
    requires lines == SplitLines(text) && a < |lines| && Located(text, SectionFrom(lines, a))
    ensures var sec := SectionFrom(lines, a); Within(text, lines, [sec], sec.startChar, sec.endChar)
  {
    hide Located, PathTo, LineStart, SectionText;
  }

  lemma PiecesAreWithin(text: string, lines: seq<string>, a: nat, pieces: seq<Chunk>)
    requires lines == SplitLines(text) && a < |lines| && Located(text, SectionFrom(lines, a))
    requires Exact(SectionFrom(lines, a), pieces)
    requires forall i | 0 <= i < |pieces| :: pieces[i].headingPath == PathTo(lines, a)
    requires forall i | 0 <= i < |pieces| - 1 :: pieces[i].endChar <= pieces[i + 1].startChar
    ensures var sec := SectionFrom(lines, a); Within(text, lines, pieces, sec.startChar, sec.endChar)
  {
    hide Located, LiesAt, PathTo, LineStart, SectionText, SplitLines, NextHeading, HasItsPath;
    var sec := SectionFrom(lines, a);
    forall i | 0 <= i < |pieces|
      ensures Located(text, pieces[i]) && HasItsPath(lines, pieces[i])
      ensures sec.startChar <= pieces[i].startChar && pieces[i].endChar <= sec.endChar
    {
      PieceIsLocated(text, sec, pieces[i]);
      PieceHasPath(text, lines, a, pieces[i]);
    }
  }

  lemma WithinOfConcat(text: string, lines: seq<string>, a: seq<Chunk>, b: seq<Chunk>, mid: int, next: int, hi: int)
    requires Within(text, lines, a, 0, mid) && Within(text, lines, b, next, hi) && 0 <= mid <= next <= hi
    ensures Within(text, lines, a + b, 0, hi)
  {
    hide Located, HasItsPath;
    if a != [] && b != [] {
      assert a[|a| - 1] in a && b[0] in b;
    }
  }

  // ---------------------------------------------------------------- the chunker

  /** Every section: tiles of the text, one for the first line and one for each heading. */
  lemma SectionsTileText(text: string)
    requires text != "" && text[0] != NEWLINE
    ensures var lines := SplitLines(text);
      && Tile(text, SectionsFrom(lines, 0)) && SectionsFrom(lines, 0) != []
      && SectionsFrom(lines, 0)[0].startChar == 0
  {
    var lines := SplitLines(text);
    SectionsTileFrom(text, lines, 0);
    hide Tile, SectionsFrom, NextHeading, PathTo, SectionText, SplitLines;
  }

  lemma InkOfText(text: string)
    ensures Ink(Texts(SectionsFrom(SplitLines(text), 0))) == Ink(text)
  {
    hide *;
    var lines := SplitLines(text);
    InkOfSections(lines, 0);
    assert lines[0..] == lines;
    JoinOfSplitLines(text);
  }

  /** The text does not start with a newline, and no section that must be cut loses a separator. */
  ghost predicate KeepsPositions(text: string, maxChars: nat) {
    var lines := SplitLines(text);
    && text != "" && text[0] != NEWLINE
    && forall a | 0 <= a < |lines| && StartsSection(lines, a) && |SectionText(lines, a)| > maxChars ::
         LostParagraphs(SplitParagraphs(SectionText(lines, a)), maxChars, 0) == 0
  }

  /** The pieces of the first sections, if positions are kept. */
  ghost predicate PlacedUpTo(text: string, sections: seq<Chunk>, i: nat, out: seq<Chunk>)
    requires i <= |sections|
  {
    Within(text, SplitLines(text), out, 0, if i == 0 then 0 else sections[i - 1].endChar)
  }

  lemma StartOfSection(text: string, sections: seq<Chunk>, i: nat) returns (a: nat)
    requires sections == SectionsFrom(SplitLines(text), 0) && i < |sections|
    ensures a < |SplitLines(text)| && StartsSection(SplitLines(text), a) && sections[i] == SectionFrom(SplitLines(text), a)
    ensures SectionText(SplitLines(text), a) == sections[i].text && PathTo(SplitLines(text), a) == sections[i].headingPath
  {
    hide HeadingAt, Strip, Join, SplitLines, Newlines, LineStart, SectionText, NextHeading, PathTo, SectionsFrom;
    SectionsAreThoseOfHeadings(text, SplitLines(text), 0);
    assert sections[i] in sections;
    a :| 0 <= a < |SplitLines(text)| && StartsSection(SplitLines(text), a) && sections[i] == SectionFrom(SplitLines(text), a);
  }

  lemma SectionHasPlace(text: string, sections: seq<Chunk>, i: nat)
    requires sections == SectionsFrom(SplitLines(text), 0) && i < |sections| && text != "" && text[0] != NEWLINE
    ensures Located(text, sections[i]) && (i > 0 ==> sections[i].startChar == sections[i - 1].endChar + 1)
    ensures i > 0 ==> sections[i - 1].endChar >= 0
  {
    SectionsTileText(text);
    hide SectionsFrom, SplitLines, Located, Newlines;
    assert sections[i] in sections;
    assert i > 0 ==> Abut(text, sections[i - 1], sections[i - 1 + 1]);
  }

  /** One section, whole or cut, is added to the pieces. */
  lemma PlaceSection(text: string, maxChars: nat, sections: seq<Chunk>, i: nat, out: seq<Chunk>, pieces: seq<Chunk>)
    requires sections == SectionsFrom(SplitLines(text), 0) && i < |sections| && KeepsPositions(text, maxChars)
    requires PlacedUpTo(text, sections, i, out)
    requires forall c | c in pieces :: c.headingPath == sections[i].headingPath
    requires forall k | 0 <= k < |pieces| - 1 :: pieces[k].endChar <= pieces[k + 1].startChar
    requires if |sections[i].text| <= maxChars then pieces == [sections[i]]
             else Exact(sections[i], pieces) <==> LostParagraphs(SplitParagraphs(sections[i].text), maxChars, 0) == 0
    ensures PlacedUpTo(text, sections, i + 1, out + pieces)
  {
    hide SectionsFrom, SplitLines, Located, Newlines, SectionText, PathTo, StartsSection, LineStart, NextHeading, Within,
      LostParagraphs, SplitParagraphs, Exact, SectionFrom;
    var lines := SplitLines(text);
    var a := StartOfSection(text, sections, i);
    SectionHasPlace(text, sections, i);
    if |sections[i].text| <= maxChars {
      SectionIsWithin(text, lines, a);
    } else {
      PiecesAreWithin(text, lines, a, pieces);
    }
    LocatedHasOrder(text, sections[i]);
    var end := if i == 0 then 0 else sections[i - 1].endChar;
    WithinOfConcat(text, lines, out, pieces, end, sections[i].startChar, sections[i].endChar);
  }

  lemma LocatedHasOrder(text: string, c: Chunk)
    requires Located(text, c)
    ensures 0 <= c.startChar <= c.endChar <= |text|
  {
  }

  ghost predicate FitAndInk(pieces: seq<Chunk>, sections: seq<Chunk>, maxChars: nat) {
    && (forall c | c in pieces :: 0 < |c.text| <= maxChars)
    && Ink(Texts(pieces)) == Ink(Texts(sections))
  }

  lemma FitMore(out: seq<Chunk>, pieces: seq<Chunk>, sections: seq<Chunk>, i: nat, maxChars: nat)
    requires i < |sections| && FitAndInk(out, sections[..i], maxChars)
    requires forall c | c in pieces :: 0 < |c.text| <= maxChars
    requires Ink(Texts(pieces)) == Ink(sections[i].text)
    ensures FitAndInk(out + pieces, sections[..i + 1], maxChars)
  {
    hide Ink, Texts;
    assert sections[..i + 1] == sections[..i] + [sections[i]];
    TextsStep(sections[..i], sections[i]);
    TextsOfConcat(out, pieces);
    InkOfConcat(Texts(out), Texts(pieces));
    InkOfConcat(Texts(sections[..i]), sections[i].text);
  }

  lemma NothingChunked(text: string, sections: seq<Chunk>, maxChars: nat)
    ensures FitAndInk([], sections[..0], maxChars) && PlacedUpTo(text, sections, 0, []) && Chunked(sections[..0], maxChars, [])
    ensures Ink(Texts([])) == Ink("")
  {
    assert sections[..0] == [] && CutsOf([], maxChars, []);
  }

  lemma AllChunked(text: string, sections: seq<Chunk>, out: seq<Chunk>, maxChars: nat)
    requires sections == SectionsFrom(SplitLines(text), 0)
    requires FitAndInk(out, sections[..|sections|], maxChars)
    ensures forall c | c in out :: 0 < |c.text| <= maxChars
    ensures Ink(Texts(out)) == Ink(text)
    ensures text != "" && text[0] != NEWLINE ==> sections != [] && sections[|sections| - 1].endChar == |text|
  {
    assert sections[..|sections|] == sections;
    InkOfText(text);
    hide SectionsFrom, SplitLines, Ink, Texts;
    if text != "" && text[0] != NEWLINE {
      SectionsTileText(text);
    }
  }

  /** Every section stands for itself when it fits. */
  lemma SectionAlone(sections: seq<Chunk>, i: nat, text: string)
    requires sections == SectionsFrom(SplitLines(text), 0) && i < |sections|
    ensures sections[i].text != ""
    ensures Ink(Texts([sections[i]])) == Ink(sections[i].text)
  {
    hide Ink, Texts;
    TextsOfOne(sections[i]);
    SectionsHaveText(SplitLines(text), 0, i);
  }

  lemma {:induction false} SectionsHaveText(lines: seq<string>, a: nat, i: nat)
    requires a <= |lines| && i < |SectionsFrom(lines, a)|
    ensures SectionsFrom(lines, a)[i].text != ""
    decreases |lines| - a
  {
    hide NextHeading, Strip, Join, PathTo, LineStart, SectionText;
    var skipped := if SectionText(lines, a) != "" then 1 else 0;
    if i >= skipped {
      SectionsHaveText(lines, NextHeading(lines, a), i - skipped);
    }
  }

  // ---------------------------------------------------------------- sections, whole or cut

  /** A section that fits is one piece; a longer one is cut by size. */
  ghost predicate IsCut(section: Chunk, maxChars: nat, pieces: seq<Chunk>) {
    if |section.text| <= maxChars then pieces == [section] else CutBySize(section, maxChars, pieces)
  }

  function Flattened(cuts: seq<seq<Chunk>>): seq<Chunk> {
    if cuts == [] then [] else Flattened(cuts[..|cuts| - 1]) + cuts[|cuts| - 1]
  }

  /** The pieces of the sections, one section after the other. */
  ghost predicate Chunked(sections: seq<Chunk>, maxChars: nat, out: seq<Chunk>) {
    exists cuts :: CutsOf(sections, maxChars, cuts) && out == Flattened(cuts)
  }

  ghost predicate CutsOf(sections: seq<Chunk>, maxChars: nat, cuts: seq<seq<Chunk>>) {
    |cuts| == |sections| && forall i | 0 <= i < |sections| :: IsCut(sections[i], maxChars, cuts[i])
  }

  lemma {:induction false} ChunkedMore(sections: seq<Chunk>, i: nat, maxChars: nat, out: seq<Chunk>, pieces: seq<Chunk>)
    requires i < |sections| && Chunked(sections[..i], maxChars, out) && IsCut(sections[i], maxChars, pieces)
    ensures Chunked(sections[..i + 1], maxChars, out + pieces)
  {
    hide IsCut;
    var cuts :| CutsOf(sections[..i], maxChars, cuts) && out == Flattened(cuts);
    var more := cuts + [pieces];
    assert more[..|more| - 1] == cuts && CutsOf(sections[..i + 1], maxChars, more);
  }

  lemma {:induction false} FlattenedHolds(cuts: seq<seq<Chunk>>, piece: Chunk)
    ensures piece in Flattened(cuts) <==> exists i :: 0 <= i < |cuts| && piece in cuts[i]
  {
    if cuts != [] {
      var front := cuts[..|cuts| - 1];
      FlattenedHolds(front, piece);
      assert forall i | 0 <= i < |front| :: front[i] == cuts[i];
    }
  }

  /** A section's text has no more lines than the section. */
  lemma SectionHasLines(text: string, lines: seq<string>, a: nat)
    requires lines == SplitLines(text) && a < |lines|
    ensures Newlines(SectionText(lines, a)) <= NextHeading(lines, a) - a - 1
  {
    hide *;
    var b := NextHeading(lines, a);
    LinesOfSpan(text, lines, a, b);
    SectionTextIs(lines, a);
    var span := Join(lines[a..b], "\n");
    var i, j := StripSpan(span);
    NewlinesOfSlice(span, i, j);
  }

  /** The lines of a piece belong to its section: the first may hold a heading, the others do not. */
  ghost predicate InOneSection(lines: seq<string>, piece: Chunk) {
    && 1 <= piece.startLine <= piece.endLine <= |lines| && HasItsPath(lines, piece)
    && NoHeadingBetween(lines, piece.startLine - 1, piece.endLine)
  }

  lemma PieceOfSection(text: string, lines: seq<string>, a: nat, maxChars: nat, pieces: seq<Chunk>, piece: Chunk)
    requires lines == SplitLines(text) && a < |lines| && IsCut(SectionFrom(lines, a), maxChars, pieces) && piece in pieces
    ensures InOneSection(lines, piece)
  {
    hide *;
    var section, b := SectionFrom(lines, a), NextHeading(lines, a);
    SectionHasLines(text, lines, a);
    NextHeadingIsNext(lines, a);
    PieceHasLines(section, maxChars, pieces, piece);
    FieldsOfSection(lines, a);
    LinesOfPiece(lines, a, b, piece);
  }

  lemma FieldsOfSection(lines: seq<string>, a: nat)
    requires a < |lines|
    ensures var c := SectionFrom(lines, a);
      c.text == SectionText(lines, a) && c.startLine == a + 1 && c.endLine == NextHeading(lines, a) && c.headingPath == PathTo(lines, a)
  {
  }

  lemma LinesOfPiece(lines: seq<string>, a: nat, b: nat, piece: Chunk)
    requires a < b <= |lines| && NoHeadingBetween(lines, a, b)
    requires a + 1 <= piece.startLine <= piece.endLine <= b && piece.headingPath == PathTo(lines, a)
    ensures InOneSection(lines, piece)
  {
    hide HeadingAt, PathTo;
    PathWithinSection(lines, a, piece.startLine - 1);
  }

  lemma PieceHasLines(section: Chunk, maxChars: nat, pieces: seq<Chunk>, piece: Chunk)
    requires IsCut(section, maxChars, pieces) && piece in pieces
    ensures piece == section
      || (section.startLine <= piece.startLine <= piece.endLine <= section.startLine + Newlines(section.text))
    ensures piece.headingPath == section.headingPath
  {
    hide Newlines, Ink, Texts, LostParagraphs, SplitParagraphs;
    if |section.text| > maxChars {
      var i :| 0 <= i < |pieces| && pieces[i] == piece;
      assert LinesInside(section, pieces[i]);
    }
  }

  /** A section that does not start with a newline has a first piece, which starts with it. */
  lemma FirstPieceOfSection(section: Chunk, maxChars: nat, pieces: seq<Chunk>)
    requires IsCut(section, maxChars, pieces) && section.text != "" && section.text[0] != NEWLINE
    ensures pieces != [] && pieces[0].startLine == section.startLine && pieces[0].headingPath == section.headingPath
  {
    hide LostParagraphs, SplitParagraphs, Newlines;
    if |section.text| > maxChars {
      var rest := section.text[1..];
      assert section.text == [section.text[0]] + rest;
      InkOfConcat([section.text[0]], rest);
      assert [section.text[0]][..0] == "";
      assert Ink([section.text[0]]) == [section.text[0]];
    }
  }

  /** No section is passed over: its first line is the first line of a piece. */
  lemma HeadingStartsPiece(text: string, lines: seq<string>, sections: seq<Chunk>, maxChars: nat, cuts: seq<seq<Chunk>>, k: nat)
    requires lines == SplitLines(text) && sections == SectionsFrom(lines, 0) && CutsOf(sections, maxChars, cuts)
    requires k < |lines| && HeadingAt(lines, k).Some?
    ensures exists piece :: piece in Flattened(cuts) && piece.startLine == k + 1 && piece.headingPath == PathTo(lines, k)
  {
    hide SectionsFrom, SplitLines, HeadingAt, IsCut, SectionText, NextHeading, PathTo, LineStart, Flattened;
    SectionsAreThoseOfHeadings(text, lines, 0);
    HeadingHasText(lines, k);
    SectionIsLocated(text, lines, k);
    var i :| 0 <= i < |sections| && sections[i] == SectionFrom(lines, k);
    SectionStartsWithInk(lines, k);
    FirstPieceOfSection(sections[i], maxChars, cuts[i]);
    FlattenedHolds(cuts, cuts[i][0]);
  }

  lemma SectionStartsWithInk(lines: seq<string>, a: nat)
    requires a < |lines|
    ensures SectionText(lines, a) != "" ==> SectionText(lines, a)[0] != NEWLINE
  {
    SectionTextIs(lines, a);
    hide SectionText, Strip, Join;
    StripFacts(Join(lines[a..NextHeading(lines, a)], "\n"));
  }

  lemma {:induction false} HeadingsAndPieces(text: string, lines: seq<string>, sections: seq<Chunk>, maxChars: nat, out: seq<Chunk>)
    requires lines == SplitLines(text) && sections == SectionsFrom(lines, 0) && Chunked(sections, maxChars, out)
    ensures forall k | 0 <= k < |lines| && HeadingAt(lines, k).Some? ::
      exists piece :: piece in out && piece.startLine == k + 1 && piece.headingPath == PathTo(lines, k)
    ensures forall piece | piece in out :: InOneSection(lines, piece)
  {
    hide *;
    var cuts := CutsExist(sections, maxChars, out);
    forall k | 0 <= k < |lines| && HeadingAt(lines, k).Some?
      ensures exists piece :: piece in out && piece.startLine == k + 1 && piece.headingPath == PathTo(lines, k)
    {
      HeadingStartsPiece(text, lines, sections, maxChars, cuts, k);
    }
    forall piece | piece in out ensures InOneSection(lines, piece) {
      FlattenedHolds(cuts, piece);
      var i :| 0 <= i < |cuts| && piece in cuts[i];
      CutIs(sections, maxChars, cuts, i);
      var a := StartOfSection(text, sections, i);
      PieceOfSection(text, lines, a, maxChars, cuts[i], piece);
    }
  }

  lemma CutsExist(sections: seq<Chunk>, maxChars: nat, out: seq<Chunk>) returns (cuts: seq<seq<Chunk>>)
    requires Chunked(sections, maxChars, out)
    ensures CutsOf(sections, maxChars, cuts) && out == Flattened(cuts) && |cuts| == |sections|
  {
    cuts :| CutsOf(sections, maxChars, cuts) && out == Flattened(cuts);
  }

  lemma CutIs(sections: seq<Chunk>, maxChars: nat, cuts: seq<seq<Chunk>>, i: nat)
    requires CutsOf(sections, maxChars, cuts) && i < |sections|
    ensures IsCut(sections[i], maxChars, cuts[i])
  {
  }

  /**
   The chunker. The pieces are the sections, each whole if it fits and cut by size otherwise: every
   heading starts a piece, no piece holds a heading behind its first line, and every piece carries the
   titles visible from its first line. Every piece fits, and the text without its newlines is what the
   pieces without theirs make up. Unless a separator is lost, every piece is found at its offset, in the
   order of the text, with its lines counted right.
   */
  method ChunkMarkdown(text: string, maxChars: nat) returns (out: seq<Chunk>)
    requires maxChars > 0
    ensures Chunked(SectionsFrom(SplitLines(text), 0), maxChars, out)
    ensures forall k | 0 <= k < |SplitLines(text)| && HeadingAt(SplitLines(text), k).Some? ::
      exists piece :: piece in out && piece.startLine == k + 1 && piece.headingPath == PathTo(SplitLines(text), k)
    ensures forall piece | piece in out ::
      && 1 <= piece.startLine <= piece.endLine <= |SplitLines(text)|
      && piece.headingPath == PathTo(SplitLines(text), piece.startLine - 1)
      && forall k | piece.startLine - 1 < k < piece.endLine :: HeadingAt(SplitLines(text), k).None?
    ensures forall c | c in out :: 0 < |c.text| <= maxChars
    ensures Ink(Texts(out)) == Ink(text)
    ensures KeepsPositions(text, maxChars) ==> Within(text, SplitLines(text), out, 0, |text|)
  {
    hide *;
    out := [];
    NothingChunked(text, [], maxChars);
    if text == "" {
      NoSections(maxChars);
      PiecesAsPromised(text, SplitLines(text), SectionsFrom(SplitLines(text), 0), maxChars, out);
      return;
    }
    var sections := CutAtHeadings(text);
    NothingChunked(text, sections, maxChars);
    for i := 0 to |sections|
      invariant Chunked(sections[..i], maxChars, out)
      invariant FitAndInk(out, sections[..i], maxChars)
      invariant KeepsPositions(text, maxChars) ==> PlacedUpTo(text, sections, i, out)
    {
      var pieces: seq<Chunk>;
      SectionAlone(sections, i, text);
      if |sections[i].text| <= maxChars {
        pieces := [sections[i]];
      } else {
        pieces := SplitChunkBySize(sections[i], maxChars);
      }
      CutParts(sections[i], maxChars, pieces);
      ChunkedMore(sections, i, maxChars, out, pieces);
      FitMore(out, pieces, sections, i, maxChars);
      if KeepsPositions(text, maxChars) {
        PlaceSection(text, maxChars, sections, i, out, pieces);
      }
      out := out + pieces;
    }
    assert sections[..|sections|] == sections;
    PiecesAsPromised(text, SplitLines(text), sections, maxChars, out);
    AllChunked(text, sections, out, maxChars);
    if KeepsPositions(text, maxChars) {
      PlacedToEnd(text, maxChars, sections, out);
    }
  }

  lemma NoSections(maxChars: nat)
    ensures Chunked(SectionsFrom(SplitLines(""), 0), maxChars, [])
  {
    var lines := SplitLines("");
    assert lines == [""] && lines[0..1] == lines;
    assert Strip(Join([""], "\n")) == "" && NextHeading(lines, 0) == 1;
    NoMoreSections(lines);
    assert SectionsFrom(lines, 0) == [];
    assert CutsOf([], maxChars, []);
  }

  /** What one section contributes. */
  lemma CutParts(section: Chunk, maxChars: nat, pieces: seq<Chunk>)
    requires if |section.text| <= maxChars then pieces == [section] else CutBySize(section, maxChars, pieces)
    requires section.text != "" && Ink(Texts([section])) == Ink(section.text)
    ensures IsCut(section, maxChars, pieces)
    ensures forall c | c in pieces :: 0 < |c.text| <= maxChars && c.headingPath == section.headingPath
    ensures Ink(Texts(pieces)) == Ink(section.text)
    ensures forall k | 0 <= k < |pieces| - 1 :: pieces[k].endChar <= pieces[k + 1].startChar
    ensures |section.text| > maxChars ==>
      (Exact(section, pieces) <==> LostParagraphs(SplitParagraphs(section.text), maxChars, 0) == 0)
  {
    hide Ink, Texts, Exact, LostParagraphs, SplitParagraphs, LinesInside, AllFit, CutAtBlankLine;
  }

  lemma PiecesAsPromised(text: string, lines: seq<string>, sections: seq<Chunk>, maxChars: nat, out: seq<Chunk>)
    requires lines == SplitLines(text) && sections == SectionsFrom(lines, 0) && Chunked(sections, maxChars, out)
    ensures forall k | 0 <= k < |lines| && HeadingAt(lines, k).Some? ::
      exists piece :: piece in out && piece.startLine == k + 1 && piece.headingPath == PathTo(lines, k)
    ensures forall piece | piece in out ::
      && 1 <= piece.startLine <= piece.endLine <= |lines| && piece.headingPath == PathTo(lines, piece.startLine - 1)
      && forall k | piece.startLine - 1 < k < piece.endLine :: HeadingAt(lines, k).None?
  {
    HeadingsAndPieces(text, lines, sections, maxChars, out);
    hide SplitLines, HeadingAt, PathTo, Chunked, SectionsFrom;
  }

  lemma PlacedToEnd(text: string, maxChars: nat, sections: seq<Chunk>, out: seq<Chunk>)
    requires KeepsPositions(text, maxChars) && PlacedUpTo(text, sections, |sections|, out)
    requires text != "" && text[0] != NEWLINE ==> sections != [] && sections[|sections| - 1].endChar == |text|
    ensures Within(text, SplitLines(text), out, 0, |text|)
  {
    hide Within, SplitLines, SectionText;
  }

  // ---------------------------------------------------------------- texts that keep all positions

  /** No two blank lines in a row. */
  ghost predicate Spaced(s: string) {
    forall i | 0 <= i < |s| - 3 :: !FourNewlines(s, i)
  }

  predicate FourNewlines(s: string, i: nat)
    requires i + 4 <= |s|
  {
    s[i] == NEWLINE && s[i + 1] == NEWLINE && s[i + 2] == NEWLINE && s[i + 3] == NEWLINE
  }

  lemma SpacedSlice(s: string, i: nat, j: nat)
    requires i <= j <= |s| && Spaced(s)
    ensures Spaced(s[i..j])
  {
    var t := s[i..j];
    forall k | 0 <= k < |t| - 3 ensures !FourNewlines(t, k) {
      assert !FourNewlines(s, i + k);
    }
  }

  lemma {:induction false} SpacedParagraphs(s: string)
    requires Spaced(s) && s != "" && s[|s| - 1] != NEWLINE
    ensures forall i | 1 <= i < |SplitParagraphs(s)| :: SplitParagraphs(s)[i] != ""
    ensures SplitParagraphs(s)[0] == "" ==> s[0] == NEWLINE && |s| >= 2 && s[1] == NEWLINE
  {
    if |s| >= 2 {
      var n := if s[..2] == BLANK_LINE then 2 else 1;
      SpacedSlice(s, n, |s|);
      assert s[n..|s|] == s[n..];
      if n < |s| {
        SpacedParagraphs(s[n..]);
      }
      if n == 2 {
        assert s[0] == s[..2][0] && s[1] == s[..2][1];
        assert |s| >= 4 ==> !FourNewlines(s, 0);
      }
    }
  }

  /** Without two blank lines in a row, positions are kept whatever the limit. */
  lemma SpacedTextKeepsPositions(text: string, maxChars: nat)
    requires Spaced(text) && text != "" && text[0] != NEWLINE
    ensures KeepsPositions(text, maxChars)
  {
    var lines := SplitLines(text);
    hide SplitLines, SectionText, SplitParagraphs, LostParagraphs, StartsSection;
    forall a | 0 <= a < |lines| && StartsSection(lines, a) && |SectionText(lines, a)| > maxChars
      ensures LostParagraphs(SplitParagraphs(SectionText(lines, a)), maxChars, 0) == 0
    {
      SpacedSection(text, lines, a);
      NoEmptyParagraphNoLoss(SplitParagraphs(SectionText(lines, a)), maxChars, 0);
    }
  }

  lemma SpacedSection(text: string, lines: seq<string>, a: nat)
    requires lines == SplitLines(text) && Spaced(text) && a < |lines| && SectionText(lines, a) != ""
    ensures forall i | 0 <= i < |SplitParagraphs(SectionText(lines, a))| :: SplitParagraphs(SectionText(lines, a))[i] != ""
  {
    hide *;
    var b := NextHeading(lines, a);
    LinesOfSpan(text, lines, a, b);
    SectionTextIs(lines, a);
    var span := Join(lines[a..b], "\n");
    SpacedSlice(text, LineStart(lines, a), LineStart(lines, b) - 1);
    var i, j := StripSpan(span);
    SpacedSlice(span, i, j);
    SpacedParagraphs(SectionText(lines, a));
  }
}
