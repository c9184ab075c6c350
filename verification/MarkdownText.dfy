/** Texts as the chunker sees them: lines, paragraphs, and what newlines do to offsets. */
module MarkdownText {

  const NEWLINE := '\n'
  const BLANK_LINE := "\n\n"

  function Newlines(s: string): nat {
    if s == "" then 0 else Newlines(s[..|s| - 1]) + if s[|s| - 1] == NEWLINE then 1 else 0
  }

  /** The characters of s without its newlines, in order. */
  function Ink(s: string): string {
    if s == "" then "" else Ink(s[..|s| - 1]) + if s[|s| - 1] == NEWLINE then "" else [s[|s| - 1]]
  }

  lemma {:induction false} NewlinesOfConcat(a: string, b: string)
    ensures Newlines(a + b) == Newlines(a) + Newlines(b)
  {
    if b == "" {
      assert a + b == a;
    } else {
      NewlinesOfConcat(a, b[..|b| - 1]);
      assert (a + b)[..|a + b| - 1] == a + b[..|b| - 1];
    }
  }

  lemma {:induction false} InkOfConcat(a: string, b: string)
    ensures Ink(a + b) == Ink(a) + Ink(b)
  {
    if b == "" {
      assert a + b == a;
    } else {
      InkOfConcat(a, b[..|b| - 1]);
      assert (a + b)[..|a + b| - 1] == a + b[..|b| - 1];
    }
  }

  lemma BlankLineHasNoInk()
    ensures Ink("\n") == "" && Ink(BLANK_LINE) == "" && Newlines("\n") == 1 && Newlines(BLANK_LINE) == 2
  {
    assert "\n"[..0] == "" && BLANK_LINE[..1] == "\n";
  }

  // ---------------------------------------------------------------- splitting and joining

  function Join(parts: seq<string>, separator: string): string {
    if parts == [] then ""
    else if |parts| == 1 then parts[0]
    else Join(parts[..|parts| - 1], separator) + separator + parts[|parts| - 1]
  }

  lemma JoinStep(parts: seq<string>, part: string, separator: string)
    ensures Join(parts + [part], separator) == if parts == [] then part else Join(parts, separator) + separator + part
  {
    assert (parts + [part])[..|parts|] == parts;
  }

  lemma {:induction false} JoinOfConcat(a: seq<string>, b: seq<string>, separator: string)
    requires a != [] && b != []
    ensures Join(a + b, separator) == Join(a, separator) + separator + Join(b, separator)
  {
    hide Join;
    var front, last := b[..|b| - 1], b[|b| - 1];
    assert b == front + [last];
    JoinStep(front, last, separator);
    JoinStep(a + front, last, separator);
    assert a + b == (a + front) + [last];
    if front == [] {
      assert a + front == a;
    } else {
      JoinOfConcat(a, front, separator);
    }
  }

  /** A part in front of the others, and a text in front of the first part. */
  lemma JoinInFront(front: string, parts: seq<string>, separator: string)
    requires parts != []
    ensures Join([front] + parts, separator) == front + separator + Join(parts, separator)
    ensures Join([front + parts[0]] + parts[1..], separator) == front + Join(parts, separator)
  {
    hide Join;
    JoinOfOne(front, separator);
    JoinOfConcat([front], parts, separator);
    TextInFront(front, parts[0], parts[1..], separator);
    assert parts == [parts[0]] + parts[1..];
  }

  lemma TextInFront(front: string, part: string, rest: seq<string>, separator: string)
    ensures Join([front + part] + rest, separator) == front + Join([part] + rest, separator)
  {
    hide Join;
    JoinOfOne(part, separator);
    JoinOfOne(front + part, separator);
    if rest == [] {
      assert [part] + rest == [part] && [front + part] + rest == [front + part];
    } else {
      JoinOfConcat([part], rest, separator);
      JoinOfConcat([front + part], rest, separator);
      var tail := separator + Join(rest, separator);
      assert part + separator + Join(rest, separator) == part + tail;
      assert front + part + separator + Join(rest, separator) == front + (part + tail);
    }
  }

  lemma JoinOfOne(part: string, separator: string)
    ensures Join([part], separator) == part
  {
  }

  function SplitLines(s: string): (lines: seq<string>)
    ensures lines != []
  {
    if s == "" then [""]
    else
      var rest := SplitLines(s[1..]);
      if s[0] == NEWLINE then [""] + rest else [s[..1] + rest[0]] + rest[1..]
  }

  lemma {:induction false} JoinOfSplitLines(s: string)
    ensures Join(SplitLines(s), "\n") == s
  {
    if s != "" {
      var rest := SplitLines(s[1..]);
      JoinOfSplitLines(s[1..]);
      JoinInFront("", rest, "\n");
      JoinInFront(s[..1], rest, "\n");
      hide Join;
      assert s == s[..1] + s[1..];
      assert s[0] == NEWLINE ==> "" + "\n" + s[1..] == s;
    }
  }

  lemma {:induction false} LinesHoldNoNewline(s: string)
    ensures forall i | 0 <= i < |SplitLines(s)| :: NEWLINE !in SplitLines(s)[i]
  {
    if s != "" {
      LinesHoldNoNewline(s[1..]);
    }
  }

  /** Python's split on a blank line: from the left, without overlaps. */
  function SplitParagraphs(s: string): (parts: seq<string>)
    ensures parts != []
  {
    if |s| < 2 then [s]
    else if s[..2] == BLANK_LINE then [""] + SplitParagraphs(s[2..])
    else
      var rest := SplitParagraphs(s[1..]);
      [s[..1] + rest[0]] + rest[1..]
  }

  lemma {:induction false} JoinOfSplitParagraphs(s: string)
    ensures Join(SplitParagraphs(s), BLANK_LINE) == s
  {
    if |s| >= 2 {
      if s[..2] == BLANK_LINE {
        JoinOfSplitParagraphs(s[2..]);
        JoinInFront("", SplitParagraphs(s[2..]), BLANK_LINE);
        hide Join;
        assert s == s[..2] + s[2..];
      } else {
        JoinOfSplitParagraphs(s[1..]);
        JoinInFront(s[..1], SplitParagraphs(s[1..]), BLANK_LINE);
        hide Join;
        assert s == s[..1] + s[1..];
      }
    }
  }

  // ---------------------------------------------------------------- lines

  /** Where a line starts in the joined text, and for the number of lines one past the text's end. */
  function LineStart(lines: seq<string>, i: nat): nat
    requires i <= |lines|
  {
    if i == 0 then 0 else LineStart(lines, i - 1) + |lines[i - 1]| + 1
  }

  lemma {:induction false} LineStartIsLength(lines: seq<string>, i: nat)
    requires i <= |lines|
    ensures i > 0 ==> LineStart(lines, i) == |Join(lines[..i], "\n")| + 1
    ensures i > 0 ==> (forall k | 0 <= k < |lines| :: NEWLINE !in lines[k]) ==> Newlines(Join(lines[..i], "\n")) == i - 1
  {
    if i > 0 {
      LineStartIsLength(lines, i - 1);
      if i > 1 {
        assert lines[..i][..i - 1] == lines[..i - 1];
        BlankLineHasNoInk();
        NewlinesOfConcat(Join(lines[..i - 1], "\n") + "\n", lines[i - 1]);
        NewlinesOfConcat(Join(lines[..i - 1], "\n"), "\n");
      }
      if NEWLINE !in lines[i - 1] { NoNewlines(lines[i - 1]); }
    }
  }

  lemma {:induction false} NoNewlines(s: string)
    requires NEWLINE !in s
    ensures Newlines(s) == 0
  {
    if s != "" {
      NoNewlines(s[..|s| - 1]);
    }
  }

  /** The lines from a to b are the text between their starts, without the newline before b. */
  lemma LinesAreSlice(lines: seq<string>, text: string, a: nat, b: nat)
    requires a < b <= |lines| && text == Join(lines, "\n")
    ensures 0 <= LineStart(lines, a) <= LineStart(lines, b) - 1 <= |text|
    ensures text[LineStart(lines, a)..LineStart(lines, b) - 1] == Join(lines[a..b], "\n")
    ensures b < |lines| ==> LineStart(lines, b) - 1 < |text| && text[LineStart(lines, b) - 1] == NEWLINE
    ensures b == |lines| ==> LineStart(lines, b) - 1 == |text|
  {
    LineStartIsLength(lines, a);
    LineStartIsLength(lines, b);
    assert lines[..b] == lines[..a] + lines[a..b];
    var head := Join(lines[..b], "\n");
    if a > 0 {
      JoinOfConcat(lines[..a], lines[a..b], "\n");
    } else {
      assert lines[..b] == lines[a..b];
    }
    assert head[LineStart(lines, a)..] == Join(lines[a..b], "\n");
    if b < |lines| {
      assert lines == lines[..b] + lines[b..];
      JoinOfConcat(lines[..b], lines[b..], "\n");
    } else {
      assert lines[..b] == lines;
    }
    assert head == text[..|head|];
  }

  // ---------------------------------------------------------------- newlines at the ends

  function StripEnd(s: string): (r: string)
    ensures |r| <= |s| && r == s[..|r|]
    ensures forall i | |r| <= i < |s| :: s[i] == NEWLINE
    ensures r != "" ==> r[|r| - 1] != NEWLINE
  {
    if s != "" && s[|s| - 1] == NEWLINE then StripEnd(s[..|s| - 1]) else s
  }

  function StripStart(s: string): string {
    if s != "" && s[0] == NEWLINE then StripStart(s[1..]) else s
  }

  function Strip(s: string): string {
    StripStart(StripEnd(s))
  }

  lemma {:induction false} InkOfStripEnd(s: string)
    ensures Ink(StripEnd(s)) == Ink(s)
  {
    if s != "" && s[|s| - 1] == NEWLINE {
      InkOfStripEnd(s[..|s| - 1]);
    }
  }

  /** Only newlines go; the text between the first and the last other character stays. */
  lemma {:induction false} StripStartFacts(s: string)
    ensures Ink(StripStart(s)) == Ink(s)
    ensures StripStart(s) != "" ==> StripStart(s)[0] != NEWLINE
    ensures s != "" && s[0] != NEWLINE ==> StripStart(s) == s
  {
    if s != "" && s[0] == NEWLINE {
      StripStartFacts(s[1..]);
      assert s == "\n" + s[1..];
      InkOfConcat("\n", s[1..]);
      BlankLineHasNoInk();
    }
  }

  lemma StripFacts(s: string)
    ensures Ink(Strip(s)) == Ink(s)
    ensures Strip(s) != "" ==> Strip(s)[0] != NEWLINE
    ensures s != "" && s[0] != NEWLINE ==> Strip(s) == StripEnd(s) != ""
  {
    InkOfStripEnd(s);
    StripStartFacts(StripEnd(s));
  }

  /** Where in the text the stripped text lies. */
  lemma {:induction false} StripStartSpan(s: string) returns (i: nat)
    ensures i <= |s| && StripStart(s) == s[i..]
  {
    if s != "" && s[0] == NEWLINE {
      i := StripStartSpan(s[1..]);
      i := i + 1;
    } else {
      i := 0;
    }
  }

  lemma StripSpan(s: string) returns (i: nat, j: nat)
    ensures i <= j <= |s| && Strip(s) == s[i..j]
    ensures Strip(s) != "" ==> Strip(s)[0] != NEWLINE && Strip(s)[|Strip(s)| - 1] != NEWLINE
  {
    hide StripEnd, StripStart;
    var t := StripEnd(s);
    j := |t|;
    i := StripStartSpan(t);
    StripStartFacts(t);
    TailOfHead(s, i, j);
  }

  lemma TailOfHead(s: string, i: nat, j: nat)
    requires i <= j <= |s|
    ensures s[..j][i..] == s[i..j]
    ensures i < j ==> s[i..j][j - i - 1] == s[..j][j - 1]
  {
  }

  /** A joined text starts with its first part. */
  lemma JoinStarts(parts: seq<string>, separator: string)
    requires parts != []
    ensures |parts| == 1 ==> Join(parts, separator) == parts[0]
    ensures |parts| > 1 ==> Join(parts, separator) == parts[0] + separator + Join(parts[1..], separator)
  {
    if |parts| > 1 {
      assert parts == [parts[0]] + parts[1..];
      JoinOfConcat([parts[0]], parts[1..], separator);
    }
  }
}
