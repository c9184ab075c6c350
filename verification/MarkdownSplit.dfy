/**
 Cutting an oversized chunk at its blank lines, and a paragraph that is still too long at the size
 limit, while keeping track of where each piece lies in the artifact.
 */
module MarkdownSplit {
  import opened Sequences
  import opened MarkdownText

  /** A piece of the artifact with its span of characters and its 1-based lines. */
  datatype Chunk = Chunk(text: string, startChar: int, endChar: int, startLine: int, endLine: int, headingPath: seq<string>)

  /** A piece and whether a blank line is taken to precede it; otherwise it continues the last one. */
  datatype Entry = Entry(text: string, apart: bool)

  function Gap(apart: bool): string {
    if apart then BLANK_LINE else ""
  }

  /** The text that the recorded separators describe. */
  function Rendered(entries: seq<Entry>): string {
    if entries == [] then ""
    else
      var last := entries[|entries| - 1];
      Rendered(entries[..|entries| - 1]) + Gap(last.apart) + last.text
  }

  /** The entries together with the paragraphs still in the buffer. */
  function WithBuffer(entries: seq<Entry>, buf: string): seq<Entry> {
    if buf == "" then entries else entries + [Entry(buf, entries != [])]
  }

  /** What the buffer is after an ordinary paragraph; an empty buffer does not remember anything. */
  function NextBuffer(bufLength: nat, p: string, maxChars: nat): nat {
    var gap := if bufLength > 0 then 2 else 0;
    if bufLength + |p| + gap <= maxChars then bufLength + gap + |p| else |p|
  }

  /**
   How many paragraphs leave no trace: those without text that become the whole buffer. The blank
   line beside each of them is lost.
   */
  function LostParagraphs(parts: seq<string>, maxChars: nat, bufLength: nat): nat {
    if parts == [] then 0
    else if |parts[0]| > maxChars then LostParagraphs(parts[1..], maxChars, 0)
    else
      var next := NextBuffer(bufLength, parts[0], maxChars);
      (if next == 0 then 1 else 0) + LostParagraphs(parts[1..], maxChars, next)
  }

  /** Nothing is lost from a chunk without empty paragraphs. */
  lemma {:induction false} NoEmptyParagraphNoLoss(parts: seq<string>, maxChars: nat, bufLength: nat)
    requires forall i | 0 <= i < |parts| :: parts[i] != ""
    ensures LostParagraphs(parts, maxChars, bufLength) == 0
  {
    if parts != [] {
      NoEmptyParagraphNoLoss(parts[1..], maxChars, if |parts[0]| > maxChars then 0 else NextBuffer(bufLength, parts[0], maxChars));
    }
  }

  // ---------------------------------------------------------------- the entries

  ghost predicate EntriesFit(entries: seq<Entry>, maxChars: nat) {
    && (forall e | e in entries :: 0 < |e.text| <= maxChars)
    && (entries != [] ==> !entries[0].apart)
  }

  /** rendered stands for the paragraphs seen so far, of which lost left no trace. */
  ghost predicate Tells(rendered: string, seen: seq<string>, lost: nat) {
    && Ink(rendered) == Ink(Join(seen, BLANK_LINE))
    && (lost == 0 ==> rendered == Join(seen, BLANK_LINE))
    && (lost == 0 && seen != [] ==> rendered != "")
    && (rendered == "" ==> lost == |seen| && |Join(seen, BLANK_LINE)| == if seen == [] then 0 else 2 * |seen| - 2)
    && (rendered != "" ==> |rendered| + 2 * lost == |Join(seen, BLANK_LINE)|)
  }

  lemma {:induction false} RenderedIsEmpty(entries: seq<Entry>, maxChars: nat)
    requires EntriesFit(entries, maxChars)
    ensures Rendered(entries) == "" <==> entries == []
  {
    if entries != [] {
      assert entries[|entries| - 1] in entries;
    }
  }

  lemma RenderedStep(entries: seq<Entry>, e: Entry)
    ensures Rendered(entries + [e]) == Rendered(entries) + Gap(e.apart) + e.text
  {
    assert (entries + [e])[..|entries + [e]| - 1] == entries;
  }

  /** A paragraph set apart from what was rendered before. */
  lemma TellsMore(rendered: string, seen: seq<string>, lost: nat, p: string)
    requires Tells(rendered, seen, lost)
    requires p != "" || rendered != ""
    ensures Tells(rendered + Gap(rendered != "") + p, seen + [p], lost)
  {
    var all := seen + [p];
    assert all[..|all| - 1] == seen;
    BlankLineHasNoInk();
    InkOfConcat(rendered + Gap(rendered != ""), p);
    InkOfConcat(rendered, Gap(rendered != ""));
    InkOfConcat(Join(seen, BLANK_LINE) + BLANK_LINE, p);
    InkOfConcat(Join(seen, BLANK_LINE), BLANK_LINE);
    if seen == [] {
      assert rendered + Gap(rendered != "") + p == p;
    }
  }

  /** A paragraph without text that nothing remembers. */
  lemma TellsLess(rendered: string, seen: seq<string>, lost: nat)
    requires Tells(rendered, seen, lost)
    ensures Tells(rendered, seen + [""], lost + 1)
  {
    var all := seen + [""];
    assert all[..|all| - 1] == seen;
    BlankLineHasNoInk();
    InkOfConcat(Join(seen, BLANK_LINE) + BLANK_LINE, "");
    InkOfConcat(Join(seen, BLANK_LINE), BLANK_LINE);
  }

  /** The loop's state after some paragraphs. */
  ghost predicate SplitInv(entries: seq<Entry>, buf: string, seen: seq<string>, lost: nat, maxChars: nat) {
    && EntriesFit(entries, maxChars) && |buf| <= maxChars
    && Tells(Rendered(WithBuffer(entries, buf)), seen, lost)
  }

  lemma FlushedFits(entries: seq<Entry>, buf: string, maxChars: nat)
    requires EntriesFit(entries, maxChars) && |buf| <= maxChars
    ensures EntriesFit(WithBuffer(entries, buf), maxChars)
    ensures Rendered(WithBuffer(entries, buf)) == "" <==> WithBuffer(entries, buf) == []
  {
    RenderedIsEmpty(WithBuffer(entries, buf), maxChars);
  }

  lemma GrowBuffer(entries: seq<Entry>, buf: string, seen: seq<string>, lost: nat, maxChars: nat, p: string)
    requires SplitInv(entries, buf, seen, lost, maxChars) && buf != "" && |buf| + 2 + |p| <= maxChars
    ensures SplitInv(entries, buf + BLANK_LINE + p, seen + [p], lost, maxChars)
  {
    hide Tells, Rendered, EntriesFit, Newlines, Ink, Join;
    RenderedStep(entries, Entry(buf, entries != []));
    RenderedStep(entries, Entry(buf + BLANK_LINE + p, entries != []));
    FlushedFits(entries, buf, maxChars);
    TellsMore(Rendered(WithBuffer(entries, buf)), seen, lost, p);
    Regroup(Rendered(entries) + Gap(entries != []), buf, BLANK_LINE, p);
  }

  lemma Regroup(a: string, b: string, c: string, d: string)
    ensures a + b + c + d == a + (b + c + d)
  {
  }

  /** The buffer, possibly empty, becomes an entry, and the paragraph becomes the buffer. */
  lemma StartBuffer(entries: seq<Entry>, buf: string, seen: seq<string>, lost: nat, maxChars: nat, p: string)
    requires SplitInv(entries, buf, seen, lost, maxChars) && |p| <= maxChars
    ensures SplitInv(WithBuffer(entries, buf), p, seen + [p], lost + (if p == "" then 1 else 0), maxChars)
  {
    var flushed := WithBuffer(entries, buf);
    FlushedFits(entries, buf, maxChars);
    if p == "" {
      TellsLess(Rendered(flushed), seen, lost);
    } else {
      RenderedStep(flushed, Entry(p, flushed != []));
      TellsMore(Rendered(flushed), seen, lost, p);
    }
  }

  /** The entries hold the first i characters of the paragraph, set apart from the earlier entries. */
  ghost predicate CutUpTo(entries0: seq<Entry>, entries: seq<Entry>, p: string, i: nat, maxChars: nat)
    requires i <= |p|
  {
    && EntriesFit(entries, maxChars)
    && (i == 0 ==> entries == entries0)
    && (i > 0 ==> entries != [] && Rendered(entries) == Rendered(entries0) + Gap(entries0 != []) + p[..i])
  }

  lemma AddPiece(entries0: seq<Entry>, entries: seq<Entry>, p: string, i: nat, end: nat, maxChars: nat)
    requires i < end <= |p| && end - i <= maxChars
    requires CutUpTo(entries0, entries, p, i, maxChars)
    ensures CutUpTo(entries0, entries + [Entry(p[i..end], i == 0 && entries != [])], p, end, maxChars)
  {
    hide Rendered, Newlines, Ink, Join;
    var e := Entry(p[i..end], i == 0 && entries != []);
    RenderedStep(entries, e);
    if i > 0 {
      assert p[..end] == p[..i] + p[i..end];
      Regroup(Rendered(entries0) + Gap(entries0 != []), p[..i], "", p[i..end]);
    } else {
      assert p[..end] == p[i..end];
    }
  }

  /** Pieces of one paragraph at the size limit, the first set apart from earlier entries. */
  method HardSplit(entries0: seq<Entry>, p: string, maxChars: nat) returns (entries: seq<Entry>)
    requires 0 < maxChars < |p| && EntriesFit(entries0, maxChars)
    ensures CutUpTo(entries0, entries, p, |p|, maxChars)
  {
    entries := entries0;
    var i := 0;
    while i < |p|
      invariant 0 <= i
      invariant CutUpTo(entries0, entries, p, if i <= |p| then i else |p|, maxChars)
      decreases |p| - i
    {
      hide CutUpTo;
      var end := if i + maxChars <= |p| then i + maxChars else |p|;
      AddPiece(entries0, entries, p, i, end, maxChars);
      entries := entries + [Entry(p[i..end], i == 0 && entries != [])];
      i := i + maxChars;
    }
  }

  lemma SplitLongParagraph(entries: seq<Entry>, buf: string, seen: seq<string>, lost: nat, maxChars: nat, p: string,
                           after: seq<Entry>)
    requires SplitInv(entries, buf, seen, lost, maxChars) && |p| > maxChars
    requires CutUpTo(WithBuffer(entries, buf), after, p, |p|, maxChars)
    ensures SplitInv(after, "", seen + [p], lost, maxChars)
  {
    FlushedFits(entries, buf, maxChars);
    TellsMore(Rendered(WithBuffer(entries, buf)), seen, lost, p);
    assert p[..|p|] == p;
  }

  /** Neighbours are set apart and would not have fitted together, the buffer being the last one. */
  ghost predicate Packed(entries: seq<Entry>, bufLength: nat, maxChars: nat) {
    && (forall i | 0 <= i < |entries| - 1 :: TooMuch(entries[i], entries[i + 1], maxChars))
    && (entries != [] ==> |entries[|entries| - 1].text| + 2 + bufLength > maxChars)
  }

  ghost predicate TooMuch(e: Entry, next: Entry, maxChars: nat) {
    next.apart && |e.text| + 2 + |next.text| > maxChars
  }

  ghost predicate AllFit(parts: seq<string>, maxChars: nat) {
    forall p | p in parts :: |p| <= maxChars
  }

  /** A paragraph too many makes the buffer an entry and starts the next buffer. */
  lemma PackBuffer(entries: seq<Entry>, buf: string, maxChars: nat, next: nat)
    requires Packed(entries, |buf|, maxChars) && buf != ""
    requires |buf| + 2 + next > maxChars
    ensures Packed(WithBuffer(entries, buf), next, maxChars)
  {
  }

  lemma GrowPacked(entries: seq<Entry>, bufLength: nat, next: nat, maxChars: nat)
    requires Packed(entries, bufLength, maxChars) && bufLength <= next
    ensures Packed(entries, next, maxChars)
  {
  }

  lemma PackedAtLast(entries: seq<Entry>, buf: string, maxChars: nat)
    requires Packed(entries, |buf|, maxChars)
    ensures Packed(WithBuffer(entries, buf), maxChars, maxChars)
  {
  }

  lemma NothingPacked(parts: seq<string>, maxChars: nat)
    ensures Packed([], 0, maxChars)
    ensures AllFit(parts, maxChars) ==> forall j | 0 <= j < |parts| :: |parts[j]| <= maxChars
  {
  }

  /** The loop over the paragraphs. */
  method CutIntoEntries(parts: seq<string>, maxChars: nat) returns (entries: seq<Entry>)
    requires maxChars > 0
    ensures EntriesFit(entries, maxChars)
    ensures Tells(Rendered(entries), parts, LostParagraphs(parts, maxChars, 0))
    ensures AllFit(parts, maxChars) ==> Packed(entries, maxChars, maxChars)
  {
    hide *;
    entries := [];
    var buf := "";
    ghost var lost := 0;
    NothingCut(parts, maxChars);
    NothingPacked(parts, maxChars);
    for j := 0 to |parts|
      invariant SplitInv(entries, buf, parts[..j], lost, maxChars)
      invariant AllFit(parts, maxChars) ==> Packed(entries, |buf|, maxChars)
      invariant LostParagraphs(parts, maxChars, 0) == lost + LostParagraphs(parts[j..], maxChars, |buf|)
    {
      var p := parts[j];
      assert parts[..j + 1] == parts[..j] + [p];
      OneParagraph(parts, j, maxChars, |buf|);
      if |p| > maxChars {
        BufferedEntries(entries, buf, parts[..j], lost, maxChars);
        var flushed := WithBuffer(entries, buf);
        var after := HardSplit(flushed, p, maxChars);
        SplitLongParagraph(entries, buf, parts[..j], lost, maxChars, p, after);
        entries, buf := after, "";
      } else if |buf| + |p| + (if buf != "" then 2 else 0) <= maxChars {
        if buf != "" {
          GrowBuffer(entries, buf, parts[..j], lost, maxChars, p);
          if AllFit(parts, maxChars) { GrowPacked(entries, |buf|, |buf + BLANK_LINE + p|, maxChars); }
          buf := buf + BLANK_LINE + p;
        } else {
          StartBuffer(entries, buf, parts[..j], lost, maxChars, p);
          EmptyBuffer(entries);
          if AllFit(parts, maxChars) { GrowPacked(entries, 0, |p|, maxChars); }
          lost := lost + if p == "" then 1 else 0;
          buf := p;
        }
      } else {
        StartBuffer(entries, buf, parts[..j], lost, maxChars, p);
        if AllFit(parts, maxChars) { PackBuffer(entries, buf, maxChars, |p|); }
        entries := WithBuffer(entries, buf);
        lost := lost + if p == "" then 1 else 0;
        buf := p;
      }
    }
    assert parts[..|parts|] == parts;
    AllCut(entries, buf, parts, lost, maxChars);
    if AllFit(parts, maxChars) { PackedAtLast(entries, buf, maxChars); }
    entries := WithBuffer(entries, buf);
  }

  lemma NothingCut(parts: seq<string>, maxChars: nat)
    ensures SplitInv([], "", parts[..0], 0, maxChars)
    ensures LostParagraphs(parts[0..], maxChars, 0) == LostParagraphs(parts, maxChars, 0)
  {
    assert parts[0..] == parts;
  }

  lemma OneParagraph(parts: seq<string>, j: nat, maxChars: nat, bufLength: nat)
    requires j < |parts|
    ensures LostParagraphs(parts[j..], maxChars, bufLength) ==
      var p := parts[j];
      if |p| > maxChars then LostParagraphs(parts[j + 1..], maxChars, 0)
      else if bufLength + |p| + (if bufLength > 0 then 2 else 0) <= maxChars then
        var next := bufLength + (if bufLength > 0 then 2 else 0) + |p|;
        (if next == 0 then 1 else 0) + LostParagraphs(parts[j + 1..], maxChars, next)
      else (if |p| == 0 then 1 else 0) + LostParagraphs(parts[j + 1..], maxChars, |p|)
    ensures |BLANK_LINE| == 2
  {
    assert parts[j..][1..] == parts[j + 1..];
  }

  lemma BufferedEntries(entries: seq<Entry>, buf: string, seen: seq<string>, lost: nat, maxChars: nat)
    requires SplitInv(entries, buf, seen, lost, maxChars)
    ensures EntriesFit(WithBuffer(entries, buf), maxChars)
  {
    FlushedFits(entries, buf, maxChars);
  }

  lemma EmptyBuffer(entries: seq<Entry>)
    ensures WithBuffer(entries, "") == entries
  {
  }

  lemma AllCut(entries: seq<Entry>, buf: string, parts: seq<string>, lost: nat, maxChars: nat)
    requires SplitInv(entries, buf, parts, lost, maxChars)
    ensures EntriesFit(WithBuffer(entries, buf), maxChars)
    ensures Tells(Rendered(WithBuffer(entries, buf)), parts, lost)
    ensures LostParagraphs(parts[|parts|..], maxChars, |buf|) == 0
  {
    FlushedFits(entries, buf, maxChars);
  }

  // ---------------------------------------------------------------- offsets

  /** The piece is the artifact's text at its span, and its lines count the newlines before and inside. */
  ghost predicate LiesAt(piece: Chunk, whole: string, startChar: int, startLine: int) {
    var offset := piece.startChar - startChar;
    && 0 <= offset && offset + |piece.text| <= |whole|
    && whole[offset..offset + |piece.text|] == piece.text
    && piece.endChar == piece.startChar + |piece.text|
    && piece.startLine == startLine + Newlines(whole[..offset])
    && piece.endLine == piece.startLine + Newlines(piece.text)
  }

  function Texts(pieces: seq<Chunk>): string {
    if pieces == [] then "" else Texts(pieces[..|pieces| - 1]) + pieces[|pieces| - 1].text
  }

  lemma LiesInLongerText(piece: Chunk, whole: string, more: string, evenMore: string, startChar: int, startLine: int)
    requires LiesAt(piece, whole, startChar, startLine)
    ensures LiesAt(piece, whole + more + evenMore, startChar, startLine)
  {
    var offset := piece.startChar - startChar;
    assert (whole + more + evenMore)[..offset] == whole[..offset];
    assert (whole + more + evenMore)[offset..offset + |piece.text|] == whole[offset..offset + |piece.text|];
  }

  lemma {:induction false} InkOfTexts(entries: seq<Entry>, pieces: seq<Chunk>)
    requires |pieces| == |entries| && forall i | 0 <= i < |pieces| :: pieces[i].text == entries[i].text
    ensures Ink(Texts(pieces)) == Ink(Rendered(entries))
  {
    hide *;
    if entries != [] {
      var n := |entries| - 1;
      InkOfTexts(entries[..n], pieces[..n]);
      OneMoreTaken(entries, n);
      OneMoreTaken(pieces, n);
      AllTaken(entries);
      AllTaken(pieces);
      RenderedStep(entries[..n], entries[n]);
      TextsStep(pieces[..n], pieces[n]);
      InkOfConcat(Texts(pieces[..n]), entries[n].text);
      InkOfGap(Rendered(entries[..n]), entries[n]);
    } else {
      NothingTold();
    }
  }

  lemma NothingTold()
    ensures Texts([]) == "" == Rendered([])
  {
  }

  lemma TextsStep(pieces: seq<Chunk>, c: Chunk)
    ensures Texts(pieces + [c]) == Texts(pieces) + c.text
  {
    assert (pieces + [c])[..|pieces|] == pieces;
  }

  lemma InkOfGap(before: string, e: Entry)
    ensures Ink(before + Gap(e.apart) + e.text) == Ink(before) + Ink(e.text)
  {
    InkOfConcat(before + Gap(e.apart), e.text);
    InkOfConcat(before, Gap(e.apart));
    BlankLineHasNoInk();
  }

  /** Walks over the entries and advances both cursors past each separator and each text. */
  method PlaceEntries(chunk: Chunk, entries: seq<Entry>) returns (out: seq<Chunk>)
    ensures |out| == |entries|
    ensures forall i | 0 <= i < |out| :: out[i].text == entries[i].text && out[i].headingPath == chunk.headingPath
    ensures forall i | 0 <= i < |out| :: LiesAt(out[i], Rendered(entries), chunk.startChar, chunk.startLine)
    ensures forall i | 0 <= i < |out| - 1 :: out[i + 1].startChar == out[i].endChar + if entries[i + 1].apart then 2 else 0
    ensures out != [] ==> out[|out| - 1].endChar == chunk.startChar + |Rendered(entries)|
    ensures out != [] ==> out[0].startChar == chunk.startChar + if entries[0].apart then 2 else 0
  {
    hide *;
    out := [];
    var cursorChar, cursorLine := chunk.startChar, chunk.startLine;
    NothingPlaced(chunk, entries);
    for k := 0 to |entries|
      invariant |out| == k && PlacedSoFar(chunk, entries, out, cursorChar, cursorLine)
    {
      var e := entries[k];
      PlaceOneMore(chunk, entries, out, cursorChar, cursorLine);
      var sep := if e.apart then 2 else 0;
      cursorChar := cursorChar + sep;
      cursorLine := cursorLine + sep;
      out := out + [Chunk(e.text, cursorChar, cursorChar + |e.text|, cursorLine, cursorLine + Newlines(e.text), chunk.headingPath)];
      cursorChar := cursorChar + |e.text|;
      cursorLine := cursorLine + Newlines(e.text);
    }
    AllPlaced(chunk, entries, out, cursorChar, cursorLine);
  }

  /** The first entries are placed, and both cursors stand behind them. */
  ghost predicate PlacedSoFar(chunk: Chunk, entries: seq<Entry>, out: seq<Chunk>, cursorChar: int, cursorLine: int) {
    && |out| <= |entries|
    && (forall i | 0 <= i < |out| :: out[i].text == entries[i].text && out[i].headingPath == chunk.headingPath)
    && (forall i | 0 <= i < |out| :: LiesAt(out[i], Rendered(entries[..|out|]), chunk.startChar, chunk.startLine))
    && (forall i | 0 <= i < |out| - 1 :: out[i + 1].startChar == out[i].endChar + if entries[i + 1].apart then 2 else 0)
    && cursorChar == chunk.startChar + |Rendered(entries[..|out|])|
    && cursorLine == chunk.startLine + Newlines(Rendered(entries[..|out|]))
    && (out != [] ==> out[|out| - 1].endChar == cursorChar)
    && (out != [] ==> out[0].startChar == chunk.startChar + if entries[0].apart then 2 else 0)
  }

  lemma NothingPlaced(chunk: Chunk, entries: seq<Entry>)
    ensures PlacedSoFar(chunk, entries, [], chunk.startChar, chunk.startLine)
  {
  }

  lemma PlaceOneMore(chunk: Chunk, entries: seq<Entry>, out: seq<Chunk>, cursorChar: int, cursorLine: int)
    requires PlacedSoFar(chunk, entries, out, cursorChar, cursorLine) && |out| < |entries|
    ensures
      var e := entries[|out|];
      var sep := if e.apart then 2 else 0;
      var start, line := cursorChar + sep, cursorLine + sep;
      var piece := Chunk(e.text, start, start + |e.text|, line, line + Newlines(e.text), chunk.headingPath);
      PlacedSoFar(chunk, entries, out + [piece], start + |e.text|, line + Newlines(e.text))
  {
    hide LiesAt, Rendered, Newlines, Gap;
    assert |out| == 0 ==> entries[..0] == [];
    NothingTold();
    var k, e := |out|, entries[|out|];
    var before, sep := Rendered(entries[..k]), if e.apart then 2 else 0;
    var start, line := cursorChar + sep, cursorLine + sep;
    var piece := Chunk(e.text, start, start + |e.text|, line, line + Newlines(e.text), chunk.headingPath);
    OneMoreTaken(entries, k);
    RenderedStep(entries[..k], e);
    PlacedPiece(before, e, piece, chunk.startChar, chunk.startLine);
    forall i | 0 <= i < k ensures LiesAt(out[i], Rendered(entries[..k + 1]), chunk.startChar, chunk.startLine) {
      LiesInLongerText(out[i], before, Gap(e.apart), e.text, chunk.startChar, chunk.startLine);
    }
  }

  lemma AllPlaced(chunk: Chunk, entries: seq<Entry>, out: seq<Chunk>, cursorChar: int, cursorLine: int)
    requires PlacedSoFar(chunk, entries, out, cursorChar, cursorLine) && |out| == |entries|
    ensures forall i | 0 <= i < |out| :: out[i].text == entries[i].text && out[i].headingPath == chunk.headingPath
    ensures forall i | 0 <= i < |out| :: LiesAt(out[i], Rendered(entries), chunk.startChar, chunk.startLine)
    ensures forall i | 0 <= i < |out| - 1 :: out[i + 1].startChar == out[i].endChar + if entries[i + 1].apart then 2 else 0
    ensures out != [] ==> out[|out| - 1].endChar == chunk.startChar + |Rendered(entries)|
    ensures out != [] ==> out[0].startChar == chunk.startChar + if entries[0].apart then 2 else 0
  {
    hide LiesAt, Rendered, Newlines;
    AllTaken(entries);
  }

  lemma PlacedPiece(before: string, e: Entry, piece: Chunk, startChar: int, startLine: int)
    requires piece.text == e.text && piece.startChar == startChar + |before| + (if e.apart then 2 else 0)
    requires piece.endChar == piece.startChar + |e.text|
    requires piece.startLine == startLine + Newlines(before) + (if e.apart then 2 else 0)
    requires piece.endLine == piece.startLine + Newlines(e.text)
    ensures LiesAt(piece, before + Gap(e.apart) + e.text, startChar, startLine)
    ensures |before + Gap(e.apart) + e.text| == |before| + (if e.apart then 2 else 0) + |e.text|
    ensures Newlines(before + Gap(e.apart) + e.text) == Newlines(before) + (if e.apart then 2 else 0) + Newlines(e.text)
  {
    hide Newlines;
    NewlinesOfConcat(before + Gap(e.apart), e.text);
    NewlinesOfConcat(before, Gap(e.apart));
    GapNewlines(e.apart);
  }

  lemma GapNewlines(apart: bool)
    ensures |Gap(apart)| == Newlines(Gap(apart)) == if apart then 2 else 0
  {
    BlankLineHasNoInk();
  }

  lemma ParagraphsAfterBlankLine(s: string)
    ensures SplitParagraphs(BLANK_LINE + s) == [""] + SplitParagraphs(s)
    ensures SplitParagraphs("c") == ["c"]
  {
    assert (BLANK_LINE + s)[..2] == BLANK_LINE && (BLANK_LINE + s)[2..] == s;
  }

  lemma ParagraphsAfterLetter(c: char, s: string)
    requires c != NEWLINE && s != ""
    ensures SplitParagraphs([c] + s) == var rest := SplitParagraphs(s); [[c] + rest[0]] + rest[1..]
  {
    assert ([c] + s)[..1] == [c] && ([c] + s)[1..] == s;
    assert ([c] + s)[..2][0] == c;
  }

  lemma SplitAtTwoBlankLines()
    ensures SplitParagraphs("a\n\n\n\nc") == ["a", "", "c"]
  {
    ParagraphsAfterBlankLine("c");
    ParagraphsAfterBlankLine("\n\nc");
    ParagraphsAfterLetter('a', "\n\n\n\nc");
    hide *;
    var rest := SplitParagraphs("\n\n\n\nc");
    assert rest == ["", "", "c"];
    assert ['a'] + rest[0] == "a" && [['a'] + rest[0]] + rest[1..] == ["a", "", "c"];
    assert ['a'] + "\n\n\n\nc" == "a\n\n\n\nc";
  }

  /** Two blank lines in a row, just where a piece is full, cost a separator. */
  lemma SeparatorCanBeLost()
    ensures LostParagraphs(SplitParagraphs("a\n\n\n\nc"), 2, 0) == 1
  {
    SplitAtTwoBlankLines();
    hide SplitParagraphs;
    assert ["", "c"][1..] == ["c"] && ["a", "", "c"][1..] == ["", "c"];
    assert LostParagraphs(["", "c"], 2, 1) == 1;
  }

  /** Every piece lies where it says, and the last one ends where the chunk's text ends. */
  ghost predicate Exact(chunk: Chunk, out: seq<Chunk>) {
    && out != []
    && (forall i | 0 <= i < |out| :: LiesAt(out[i], chunk.text, chunk.startChar, chunk.startLine))
    && out[|out| - 1].endChar == chunk.startChar + |chunk.text|
  }

  /** A blank line between neighbours, which would be too long as one piece. */
  ghost predicate CutAtBlankLine(piece: Chunk, next: Chunk, maxChars: nat) {
    next.startChar == piece.endChar + 2 && |piece.text| + 2 + |next.text| > maxChars
  }

  /** The piece's lines lie among those that the chunk's text has from its first line on. */
  ghost predicate LinesInside(chunk: Chunk, piece: Chunk) {
    chunk.startLine <= piece.startLine <= piece.endLine <= chunk.startLine + Newlines(chunk.text)
  }

  /**
   What splitting by size makes of a chunk. All pieces fit and carry its path; apart from newlines
   nothing is lost, repeated or reordered. The first piece starts where the chunk does, and no piece
   leaves its lines. The recorded positions are exact precisely when no paragraph without text became the
   whole buffer. When no paragraph is too long by itself, cuts are made only at blank lines and only where
   they must be.
   */
  ghost predicate CutBySize(chunk: Chunk, maxChars: nat, out: seq<Chunk>) {
    && (forall i | 0 <= i < |out| :: 0 < |out[i].text| <= maxChars && out[i].headingPath == chunk.headingPath)
    && Ink(Texts(out)) == Ink(chunk.text)
    && (out != [] ==> out[0].startChar == chunk.startChar && out[0].startLine == chunk.startLine)
    && (forall i | 0 <= i < |out| :: LinesInside(chunk, out[i]))
    && (chunk.text != "" ==>
          (Exact(chunk, out) <==> LostParagraphs(SplitParagraphs(chunk.text), maxChars, 0) == 0))
    && (forall i | 0 <= i < |out| - 1 :: out[i].endChar <= out[i + 1].startChar)
    && (AllFit(SplitParagraphs(chunk.text), maxChars) ==>
          forall i | 0 <= i < |out| - 1 :: CutAtBlankLine(out[i], out[i + 1], maxChars))
  }

  method SplitChunkBySize(chunk: Chunk, maxChars: nat) returns (out: seq<Chunk>)
    requires maxChars > 0
    ensures CutBySize(chunk, maxChars, out)
  {
    hide *;
    var parts := SplitParagraphs(chunk.text);
    JoinOfSplitParagraphs(chunk.text);
    var entries := CutIntoEntries(parts, maxChars);
    out := PlaceEntries(chunk, entries);
    InkOfTexts(entries, out);
    TextToldExactly(chunk, entries, out, parts, maxChars);
    PackedPieces(entries, out, maxChars);
    PiecesInside(chunk, entries, out, parts, maxChars);
    AllAsPromised(chunk, maxChars, out);
  }

  lemma AllAsPromised(chunk: Chunk, maxChars: nat, out: seq<Chunk>)
    requires forall i | 0 <= i < |out| :: 0 < |out[i].text| <= maxChars && out[i].headingPath == chunk.headingPath
    requires Ink(Texts(out)) == Ink(chunk.text)
    requires out != [] ==> out[0].startChar == chunk.startChar && out[0].startLine == chunk.startLine
    requires forall i | 0 <= i < |out| :: LinesInside(chunk, out[i])
    requires chunk.text != "" ==>
      (Exact(chunk, out) <==> LostParagraphs(SplitParagraphs(chunk.text), maxChars, 0) == 0)
    requires forall i | 0 <= i < |out| - 1 :: out[i].endChar <= out[i + 1].startChar
    requires AllFit(SplitParagraphs(chunk.text), maxChars) ==>
      forall i | 0 <= i < |out| - 1 :: CutAtBlankLine(out[i], out[i + 1], maxChars)
    ensures CutBySize(chunk, maxChars, out)
  {
    hide Ink, Texts, LinesInside, Exact, LostParagraphs, SplitParagraphs, AllFit, CutAtBlankLine;
  }

  lemma {:induction false} InkAndNewlines(s: string)
    ensures |s| == |Ink(s)| + Newlines(s)
  {
    if s != "" {
      InkAndNewlines(s[..|s| - 1]);
    }
  }

  lemma NewlinesOfSlice(s: string, i: nat, j: nat)
    requires i <= j <= |s|
    ensures Newlines(s[..j]) == Newlines(s[..i]) + Newlines(s[i..j])
    ensures Newlines(s[..j]) <= Newlines(s) && Newlines(s[i..j]) <= Newlines(s)
  {
    assert s[..j] == s[..i] + s[i..j] && s == s[..j] + s[j..];
    NewlinesOfConcat(s[..i], s[i..j]);
    NewlinesOfConcat(s[..j], s[j..]);
  }

  lemma {:induction false} PiecesInside(chunk: Chunk, entries: seq<Entry>, out: seq<Chunk>, parts: seq<string>, maxChars: nat)
    requires EntriesFit(entries, maxChars) && |out| == |entries| && Join(parts, BLANK_LINE) == chunk.text
    requires Tells(Rendered(entries), parts, LostParagraphs(parts, maxChars, 0))
    requires forall i | 0 <= i < |out| :: LiesAt(out[i], Rendered(entries), chunk.startChar, chunk.startLine)
    requires out != [] ==> out[0].startChar == chunk.startChar + if entries[0].apart then 2 else 0
    ensures out != [] ==> out[0].startChar == chunk.startChar && out[0].startLine == chunk.startLine
    ensures forall i | 0 <= i < |out| :: LinesInside(chunk, out[i])
  {
    var whole := Rendered(entries);
    RenderedIsEmpty(entries, maxChars);
    NewlinesTold(whole, parts, LostParagraphs(parts, maxChars, 0));
    hide Rendered, LostParagraphs, Tells, LiesAt, Join, Newlines, LinesInside;
    forall i | 0 <= i < |out| ensures LinesInside(chunk, out[i]) {
      PieceInside(chunk, out[i], whole);
    }
    if out != [] {
      FirstPiece(chunk, out[0], whole);
    }
  }

  lemma PieceInside(chunk: Chunk, piece: Chunk, whole: string)
    requires LiesAt(piece, whole, chunk.startChar, chunk.startLine) && Newlines(whole) <= Newlines(chunk.text)
    ensures LinesInside(chunk, piece)
  {
    var offset := piece.startChar - chunk.startChar;
    NewlinesOfSlice(whole, offset, offset + |piece.text|);
    hide Newlines;
  }

  lemma FirstPiece(chunk: Chunk, piece: Chunk, whole: string)
    requires LiesAt(piece, whole, chunk.startChar, chunk.startLine) && piece.startChar == chunk.startChar
    ensures piece.startLine == chunk.startLine
  {
    assert whole[..0] == "";
  }

  lemma NewlinesTold(rendered: string, seen: seq<string>, lost: nat)
    requires Tells(rendered, seen, lost)
    ensures rendered != "" ==> Newlines(rendered) <= Newlines(Join(seen, BLANK_LINE))
  {
    InkAndNewlines(rendered);
    InkAndNewlines(Join(seen, BLANK_LINE));
    hide Ink, Join, Newlines;
  }

  lemma TextToldExactly(chunk: Chunk, entries: seq<Entry>, out: seq<Chunk>, parts: seq<string>, maxChars: nat)
    requires EntriesFit(entries, maxChars) && |out| == |entries|
    requires forall i | 0 <= i < |out| :: out[i].text == entries[i].text
    requires Join(parts, BLANK_LINE) == chunk.text && parts != []
    requires Tells(Rendered(entries), parts, LostParagraphs(parts, maxChars, 0))
    requires forall i | 0 <= i < |out| :: LiesAt(out[i], Rendered(entries), chunk.startChar, chunk.startLine)
    requires out != [] ==> out[|out| - 1].endChar == chunk.startChar + |Rendered(entries)|
    ensures Ink(Rendered(entries)) == Ink(chunk.text)
    ensures forall i | 0 <= i < |out| :: 0 < |out[i].text| <= maxChars
    ensures chunk.text != "" ==> (Exact(chunk, out) <==> LostParagraphs(parts, maxChars, 0) == 0)
  {
    RenderedIsEmpty(entries, maxChars);
    hide Rendered, LostParagraphs, LiesAt, Ink, Join, Newlines;
    forall i | 0 <= i < |out| ensures 0 < |out[i].text| <= maxChars {
      assert entries[i] in entries;
    }
  }

  lemma PackedPieces(entries: seq<Entry>, out: seq<Chunk>, maxChars: nat)
    requires |out| == |entries| && forall i | 0 <= i < |out| :: out[i].text == entries[i].text
    requires forall i | 0 <= i < |out| - 1 :: out[i + 1].startChar == out[i].endChar + if entries[i + 1].apart then 2 else 0
    ensures Packed(entries, maxChars, maxChars) ==> forall i | 0 <= i < |out| - 1 :: CutAtBlankLine(out[i], out[i + 1], maxChars)
  {
  }
}
