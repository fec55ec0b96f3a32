/** The text normalizer of servers/myserver/src/myserver.py: `clean_text`, which normalises
    spaces and line endings, and `reflow_paragraphs`, which repairs hard-wrapped lines and
    wrongly split paragraphs. */
module Normalizer {
  import opened Strings

  // ---------------------------------------------------------------------------
  // clean_text

  /** `text.replace("\r\n", "\n").replace("\r", "\n")`: every line ending becomes "\n". */
  function NormalizeNewlines(s: string): (r: string)
    ensures '\r' !in r
    ensures forall c :: c in r ==> c in s || c == '\n'
  {
    ReplaceChar(ReplaceCrLf(s), '\r', '\n')
  }

  /** `clean_text`: ideographic spaces become spaces, line endings become "\n", runs of
      three or more newlines become exactly two, and the result is stripped. */
  function CleanText(text: string): string {
    if text == [] then []
    else Strip(Squeeze(NormalizeNewlines(ReplaceChar(text, '\U{3000}', ' ')), IsNewline, 3, "\n\n"))
  }

  /** What `clean_text` promises: the empty text stays empty, and any result holds no
      ideographic space, no carriage return, no run of three newlines, and no leading or
      trailing whitespace. */
  lemma CleanTextProps(text: string)
    ensures text == [] ==> CleanText(text) == []
    ensures var r := CleanText(text);
      '\U{3000}' !in r && '\r' !in r && !Contains(r, "\n\n\n") && IsStripped(r)
  {
    if text != [] {
      CleanTextShape(NormalizeNewlines(ReplaceChar(text, '\U{3000}', ' ')));
    }
  }

  lemma CleanTextShape(t: string)
    requires '\U{3000}' !in t && '\r' !in t
    ensures var r := Strip(Squeeze(t, IsNewline, 3, "\n\n"));
      '\U{3000}' !in r && '\r' !in r && !Contains(r, "\n\n\n")
  {
    var u := Squeeze(t, IsNewline, 3, "\n\n");
    SqueezeAvoids(t, IsNewline, 3, "\n\n", '\U{3000}');
    SqueezeAvoids(t, IsNewline, 3, "\n\n", '\r');
    assert !HasRun(u, IsNewline, 3) by { SqueezeNoRun(t, IsNewline, 3, "\n\n"); }
    StripNoRun(u, IsNewline, 3);
    NoRunNoTriple(Strip(u));
    StripAvoids(u, '\U{3000}');
    StripAvoids(u, '\r');
  }

  // ---------------------------------------------------------------------------
  // The two character classes of reflow_paragraphs.

  /** The sentence-terminal marks of `end_punct_re`. */
  predicate IsTerminal(c: char) {
    c in "。！？!?；;…"
  }

  /** The closing quotes and brackets `end_punct_re` allows after a terminal mark. */
  predicate IsCloser(c: char) {
    c in "”’」』》）】"
  }

  /** The first-character class of `next_start_re`: CJK ideographs, ASCII digits and
      letters, and opening quotes and brackets. */
  predicate IsContinuationStart(c: char) {
    ('\U{4E00}' <= c <= '\U{9FFF}') || ('0' <= c <= '9') || ('a' <= c <= 'z')
    || ('A' <= c <= 'Z') || c in "“\"‘’《（(【[「『<"
  }

  /** `next_start_re.match(p)`. */
  predicate StartsContinuation(p: string) {
    p != [] && IsContinuationStart(p[0])
  }

  /** `s` with its trailing closers removed. */
  function TrimClosers(s: string): string {
    if s != [] && IsCloser(Last(s)) then TrimClosers(s[..|s| - 1]) else s
  }

  /** `TrimClosers` removes exactly the longest suffix of closers. */
  lemma {:induction false} TrimClosersShape(s: string)
    ensures |TrimClosers(s)| <= |s| && TrimClosers(s) == s[..|TrimClosers(s)|]
    ensures forall i :: |TrimClosers(s)| <= i < |s| ==> IsCloser(s[i])
    ensures TrimClosers(s) == [] || !IsCloser(Last(TrimClosers(s)))
  {
    if s != [] && IsCloser(Last(s)) {
      TrimClosersShape(s[..|s| - 1]);
    }
  }

  /** `end_punct_re.search(s)`, computed from the right: strip whitespace, closers and
      whitespace again, and look at the last character. */
  predicate EndsWithTerminal(s: string) {
    var t := RStrip(TrimClosers(RStrip(s)));
    t != [] && IsTerminal(Last(t))
  }

  /** `t` matches `\s*[”’」』》）】]*\s*$`, split at `i` and `j`. */
  ghost predicate TailSplit(t: string, i: int, j: int) {
    0 <= i <= j <= |t|
    && (forall m :: 0 <= m < i ==> IsSpace(t[m]))
    && (forall m :: i <= m < j ==> IsCloser(t[m]))
    && (forall m :: j <= m < |t| ==> IsSpace(t[m]))
  }

  ghost predicate TailMatches(t: string) {
    exists i, j :: TailSplit(t, i, j)
  }

  /** The regex `[。！？!?；;…]\s*[”’」』》）】]*\s*$` matches `s` starting at `k`. */
  ghost predicate EndPunctMatchAt(s: string, k: int) {
    0 <= k < |s| && IsTerminal(s[k]) && TailMatches(s[k + 1..])
  }

  // ---------------------------------------------------------------------------
  // Lines within a paragraph (merge_lines_within_paragraph).

  /** How a line continues the segment before it: a trailing hyphen of a segment longer
      than one character is dropped and the line glued on; otherwise one space joins them. */
  function JoinLine(prev: string, ln: string): string {
    if EndsWith(prev, '-') && |prev| > 1 then prev[..|prev| - 1] + ln else prev + " " + ln
  }

  /** One step of the loop over the lines of a paragraph. */
  function AddLine(segs: seq<string>, line: string): seq<string> {
    var ln := Strip(line);
    if ln == [] then segs
    else if segs == [] then [ln]
    else if !EndsWithTerminal(Last(segs)) then segs[|segs| - 1 := JoinLine(Last(segs), ln)]
    else segs + [ln]
  }

  /** The segments built from `lines`, in order. */
  function Segments(lines: seq<string>): seq<string> {
    if lines == [] then [] else AddLine(Segments(lines[..|lines| - 1]), Last(lines))
  }

  /** The value of `merge_lines_within_paragraph(para)`. */
  function ParagraphText(para: string): string {
    Strip(Squeeze(JoinWith(Segments(Split(para, '\n')), " "), IsSpace, 2, " "))
  }

  /** One iteration of the loop of `merge_lines_within_paragraph`: a blank line is skipped,
      a line after a segment that does not end a sentence continues it, any other line
      starts a new segment. */
  method MergeLine(segs: seq<string>, line: string) returns (r: seq<string>)
    ensures r == AddLine(segs, line)
  {
    var ln := Strip(line);
    if ln == [] {
      return segs;
    }
    if segs == [] {
      r := [ln];
    } else {
      var prev := segs[|segs| - 1];
      if !EndsWithTerminal(prev) {
        if EndsWith(prev, '-') && |prev| > 1 {
          r := segs[|segs| - 1 := prev[..|prev| - 1] + ln];
        } else {
          r := segs[|segs| - 1 := prev + " " + ln];
        }
      } else {
        r := segs + [ln];
      }
    }
  }

  /** `merge_lines_within_paragraph`. */
  method MergeLinesWithinParagraph(para: string) returns (r: string)
    ensures r == ParagraphText(para)
  {
    var lines := Split(para, '\n');
    var segs: seq<string> := [];
    var i := 0;
    while i < |lines|
      invariant 0 <= i <= |lines|
      invariant segs == Segments(lines[..i])
    {
      PrefixStep(lines, i);
      segs := MergeLine(segs, lines[i]);
      i := i + 1;
    }
    assert lines[..|lines|] == lines;
    var joined := JoinWith(segs, " ");
    r := Strip(Squeeze(joined, IsSpace, 2, " "));
  }

  /** A paragraph as the first pass leaves it: non-empty, stripped, on one line, and
      without two whitespace characters in a row. */
  ghost predicate WellFormedParagraph(p: string) {
    p != [] && IsStripped(p) && '\n' !in p && !HasRun(p, IsSpace, 2)
  }

  // ---------------------------------------------------------------------------
  // Paragraphs (reflow_paragraphs).

  /** The merge test of the second pass. */
  predicate ShouldMergeParagraphs(prev: string, p: string) {
    prev != [] && !EndsWithTerminal(prev) && StartsContinuation(p)
  }

  /** The paragraph that results from merging `p` into `prev`. */
  function MergeParagraph(prev: string, p: string): string {
    var connector := if EndsWith(prev, '-') then "" else " ";
    Squeeze(Strip(RStripChar(prev, '-') + connector + p), IsSpace, 2, " ")
  }

  /** One step of the second pass. */
  function AddParagraph(merged: seq<string>, p: string): seq<string> {
    if merged == [] then [p]
    else if ShouldMergeParagraphs(Last(merged), p) then
      merged[|merged| - 1 := MergeParagraph(Last(merged), p)]
    else merged + [p]
  }

  /** The second pass over the paragraphs, in order. */
  function MergeParagraphs(paras: seq<string>): seq<string> {
    if paras == [] then [] else AddParagraph(MergeParagraphs(paras[..|paras| - 1]), Last(paras))
  }

  /** The first pass: `[merge_lines_within_paragraph(p) for p in raw_paras if p.strip()]`. */
  function FirstPass(raw: seq<string>): seq<string> {
    if raw == [] then []
    else FirstPass(raw[..|raw| - 1]) + (if Strip(Last(raw)) != [] then [ParagraphText(Last(raw))] else [])
  }

  /** The paragraphs `reflow_paragraphs` joins with blank lines. */
  function ReflowedParagraphs(text: string): seq<string> {
    MergeParagraphs(FirstPass(SplitRuns(NormalizeNewlines(text), IsNewline, 2)))
  }

  /** The value of `reflow_paragraphs(text)`. */
  function Reflow(text: string): string {
    if text == [] then [] else Strip(JoinWith(ReflowedParagraphs(text), "\n\n"))
  }

  /** One iteration of the second loop of `reflow_paragraphs`: a paragraph that continues
      an unfinished one is merged into it, any other paragraph is kept. */
  method MergeStep(merged: seq<string>, p: string) returns (r: seq<string>)
    ensures r == AddParagraph(merged, p)
  {
    if merged == [] {
      return [p];
    }
    var prev := merged[|merged| - 1];
    if prev != [] && !EndsWithTerminal(prev) && StartsContinuation(p) {
      var connector := if EndsWith(prev, '-') then "" else " ";
      r := merged[|merged| - 1 := Squeeze(Strip(RStripChar(prev, '-') + connector + p), IsSpace, 2, " ")];
    } else {
      r := merged + [p];
    }
  }

  /** The first loop of `reflow_paragraphs`: blank paragraphs are dropped and the lines of
      the others are merged. */
  method FirstPassLoop(rawParas: seq<string>) returns (paras: seq<string>)
    ensures paras == FirstPass(rawParas)
  {
    paras := [];
    var i := 0;
    while i < |rawParas|
      invariant 0 <= i <= |rawParas|
      invariant paras == FirstPass(rawParas[..i])
    {
      PrefixStep(rawParas, i);
      if Strip(rawParas[i]) != [] {
        var p := MergeLinesWithinParagraph(rawParas[i]);
        paras := paras + [p];
      }
      i := i + 1;
    }
    assert rawParas[..|rawParas|] == rawParas;
  }

  /** The second loop of `reflow_paragraphs`: paragraphs that continue an unfinished one
      are merged into it. */
  method SecondPassLoop(paras: seq<string>) returns (merged: seq<string>)
    ensures merged == MergeParagraphs(paras)
  {
    merged := [];
    var j := 0;
    while j < |paras|
      invariant 0 <= j <= |paras|
      invariant merged == MergeParagraphs(paras[..j])
    {
      PrefixStep(paras, j);
      merged := MergeStep(merged, paras[j]);
      j := j + 1;
    }
    assert paras[..|paras|] == paras;
  }

  /** `reflow_paragraphs`. */
  method ReflowParagraphs(text: string) returns (r: string)
    ensures r == Reflow(text)
  {
    if text == [] {
      return [];
    }
    var t := NormalizeNewlines(text);
    var rawParas := SplitRuns(t, IsNewline, 2);
    var paras := FirstPassLoop(rawParas);
    var merged := SecondPassLoop(paras);
    r := Strip(JoinWith(merged, "\n\n"));
  }

  // ---------------------------------------------------------------------------
  // Lemmas.

  /** How a line joins a segment keeps the segment's first character and adds only a
      space. */
  lemma JoinLineShape(prev: string, ln: string, x: char)
    requires prev != [] && x != ' ' && x !in prev && x !in ln
    ensures JoinLine(prev, ln) != [] && JoinLine(prev, ln)[0] == prev[0]
    ensures x !in JoinLine(prev, ln)
  {
    assert x !in prev[..|prev| - 1];
  }

  /** Every segment is non-empty and starts with a non-space character, and a character
      other than the space that no line holds is in no segment. */
  lemma {:induction false} SegmentsShape(lines: seq<string>, x: char)
    requires x != ' ' && forall q :: q in lines ==> x !in q
    ensures forall g :: g in Segments(lines) ==> SegmentShape(g, x)
  {
    if lines != [] {
      var init := lines[..|lines| - 1];
      assert forall q :: q in init ==> q in lines;
      SegmentsShape(init, x);
      AddLineShape(Segments(init), Last(lines), x);
    }
  }

  ghost predicate SegmentShape(g: string, x: char) {
    g != [] && !IsSpace(g[0]) && x !in g
  }

  lemma AddLineShape(segs: seq<string>, line: string, x: char)
    requires x != ' ' && x !in line && forall g :: g in segs ==> SegmentShape(g, x)
    ensures forall g :: g in AddLine(segs, line) ==> SegmentShape(g, x)
  {
    var ln := Strip(line);
    StripAvoids(line, x);
    if ln != [] && segs != [] && !EndsWithTerminal(Last(segs)) {
      var n := |segs| - 1;
      assert segs[n] in segs;
      JoinLineShape(segs[n], ln, x);
      var next := segs[n := JoinLine(segs[n], ln)];
      assert forall h :: h in next ==> h == next[n] || h in segs;
    }
  }

  /** A paragraph with a non-blank line has at least one segment. */
  lemma {:induction false} SegmentsNonEmpty(lines: seq<string>, k: int)
    requires 0 <= k < |lines| && Strip(lines[k]) != []
    ensures Segments(lines) != []
  {
    var init := lines[..|lines| - 1];
    if k < |lines| - 1 {
      SegmentsNonEmpty(init, k);
    }
    AddLineNonEmpty(Segments(init), Last(lines));
  }

  lemma AddLineNonEmpty(segs: seq<string>, line: string)
    requires segs != [] || Strip(line) != []
    ensures AddLine(segs, line) != []
  {
  }

  /** Segments are cut only after a sentence end: every segment but the last ends with
      terminal punctuation. */
  lemma {:induction false} SegmentsBoundaries(lines: seq<string>)
    ensures forall i :: 0 <= i < |Segments(lines)| - 1 ==> EndsWithTerminal(Segments(lines)[i])
  {
    if lines != [] {
      SegmentsBoundaries(lines[..|lines| - 1]);
      AddLineBoundaries(Segments(lines[..|lines| - 1]), Last(lines));
    }
  }

  lemma AddLineBoundaries(segs: seq<string>, line: string)
    requires forall i :: 0 <= i < |segs| - 1 ==> EndsWithTerminal(segs[i])
    ensures forall i :: 0 <= i < |AddLine(segs, line)| - 1 ==> EndsWithTerminal(AddLine(segs, line)[i])
  {
    var ln := Strip(line);
    if ln != [] && segs != [] {
      var n := |segs| - 1;
      if !EndsWithTerminal(segs[n]) {
        var next := segs[n := JoinLine(segs[n], ln)];
        assert forall i :: 0 <= i < n ==> next[i] == segs[i];
      } else {
        var next := segs + [ln];
        assert forall i :: 0 <= i <= n ==> next[i] == segs[i];
      }
    }
  }

  /** What one more line does to the segments. A blank line changes nothing. A non-blank
      line opens a new segment exactly when there is none yet or the last one ends a
      sentence; otherwise it continues the last segment, which then reads as the old segment
      followed by the stripped line, joined either by one space or by dropping the old
      segment's trailing hyphen (done exactly when it ends with '-' and is longer than one
      character). Earlier segments never change. */
  lemma AddLineEffect(segs: seq<string>, line: string)
    ensures Strip(line) == [] ==> AddLine(segs, line) == segs
    ensures |segs| <= |AddLine(segs, line)| <= |segs| + 1
    ensures segs != [] ==> AddLine(segs, line)[..|segs| - 1] == segs[..|segs| - 1]
    ensures Strip(line) != [] ==>
      (|AddLine(segs, line)| == |segs| + 1 <==> segs == [] || EndsWithTerminal(Last(segs)))
    ensures Strip(line) != [] && (segs == [] || EndsWithTerminal(Last(segs))) ==>
      AddLine(segs, line) == segs + [Strip(line)]
    ensures Strip(line) != [] && segs != [] && !EndsWithTerminal(Last(segs)) ==>
      var ln, prev, g := Strip(line), Last(segs), Last(AddLine(segs, line));
      && |ln| <= |g| && g[|g| - |ln|..] == ln
      && (g[..|g| - |ln|] == prev + " " || g[..|g| - |ln|] + "-" == prev)
      && (g[..|g| - |ln|] + "-" == prev <==> EndsWith(prev, '-') && |prev| > 1)
  {
    var ln := Strip(line);
    if ln != [] && segs != [] && !EndsWithTerminal(Last(segs)) {
      var prev := Last(segs);
      var g := JoinLine(prev, ln);
      if EndsWith(prev, '-') && |prev| > 1 {
        assert g[..|g| - |ln|] == prev[..|prev| - 1];
        assert prev[..|prev| - 1] + "-" == prev;
      } else {
        assert g[..|g| - |ln|] == prev + " ";
        assert |prev + " " + "-"| == |prev| + 2;
      }
      assert g[|g| - |ln|..] == ln;
    }
  }

  /** A paragraph with some non-blank line has a segment, and its segments start with a
      non-space character and hold no newline. */
  lemma ParagraphSegments(para: string)
    requires Strip(para) != []
    ensures var segs := Segments(Split(para, '\n'));
      segs != [] && forall g :: g in segs ==> g != [] && !IsSpace(g[0]) && '\n' !in g
  {
    var lines := Split(para, '\n');
    var i := StripWitness(para);
    var k := SplitCovers(para, '\n', i);
    var j :| 0 <= j < |lines[k]| && lines[k][j] == para[i];
    NonSpaceStrip(lines[k], j);
    SegmentsNonEmpty(lines, k);
    SegmentsShape(lines, '\n');
  }

  /** Squeezing the whitespace of a one-line text that starts with a non-space character,
      then stripping it, gives a well-formed paragraph. */
  lemma SqueezeStripShape(t: string)
    requires t != [] && !IsSpace(t[0]) && '\n' !in t
    ensures WellFormedParagraph(Strip(Squeeze(t, IsSpace, 2, " ")))
  {
    var u := Squeeze(t, IsSpace, 2, " ");
    SqueezeEnds(t, IsSpace, 2, " ");
    SqueezeAvoids(t, IsSpace, 2, " ", '\n');
    SqueezeNoRun(t, IsSpace, 2, " ");
    StripHead(u);
    StripAvoids(u, '\n');
    StripNoRun(u, IsSpace, 2);
  }

  /** `merge_lines_within_paragraph` of a paragraph with some non-blank line is a
      well-formed paragraph. */
  lemma ParagraphTextShape(para: string)
    ensures Strip(para) != [] ==> WellFormedParagraph(ParagraphText(para))
  {
    if Strip(para) != [] {
      ParagraphSegments(para);
      var segs := Segments(Split(para, '\n'));
      assert segs[0] in segs;
      JoinWithHead(segs, " ");
      JoinWithAvoids(segs, " ", '\n');
      SqueezeStripShape(JoinWith(segs, " "));
    }
  }

  /** A character other than the space that a paragraph does not hold is not in the
      paragraph `merge_lines_within_paragraph` makes of it. */
  lemma ParagraphTextAvoids(para: string, x: char)
    requires x != ' ' && x !in para
    ensures x !in ParagraphText(para)
  {
    var lines := Split(para, '\n');
    SplitAvoids(para, '\n', x);
    SegmentsShape(lines, x);
    var joined := JoinWith(Segments(lines), " ");
    JoinWithAvoids(Segments(lines), " ", x);
    SqueezeAvoids(joined, IsSpace, 2, " ", x);
    StripAvoids(Squeeze(joined, IsSpace, 2, " "), x);
  }

  /** The first pass yields only well-formed paragraphs, and adds no character other than
      the space. */
  lemma {:induction false} FirstPassShape(raw: seq<string>, x: char)
    requires x != ' ' && forall q :: q in raw ==> x !in q
    ensures forall p :: p in FirstPass(raw) ==> WellFormedParagraph(p) && x !in p
  {
    if raw != [] {
      var init := raw[..|raw| - 1];
      assert forall q :: q in init ==> q in raw;
      FirstPassShape(init, x);
      ParagraphTextShape(Last(raw));
      ParagraphTextAvoids(Last(raw), x);
    }
  }

  /** Merging adds no character other than the space. */
  lemma MergeParagraphAvoids(prev: string, p: string, x: char)
    requires x != ' ' && x !in prev && x !in p
    ensures x !in MergeParagraph(prev, p)
  {
    var head := RStripChar(prev, '-');
    var connector := if EndsWith(prev, '-') then "" else " ";
    var t := head + connector + p;
    RStripCharShape(prev, '-');
    assert x !in head;
    StripAvoids(t, x);
    SqueezeAvoids(Strip(t), IsSpace, 2, " ", x);
  }

  /** Squeezing the whitespace of a stripped one-line text gives a well-formed paragraph. */
  lemma SqueezeStrippedShape(u: string)
    requires u != [] && IsStripped(u) && '\n' !in u
    ensures WellFormedParagraph(Squeeze(u, IsSpace, 2, " "))
  {
    SqueezeEnds(u, IsSpace, 2, " ");
    SqueezeAvoids(u, IsSpace, 2, " ", '\n');
    SqueezeNoRun(u, IsSpace, 2, " ");
  }

  /** Merging a well-formed paragraph into another gives a well-formed paragraph. */
  lemma MergeParagraphShape(prev: string, p: string)
    requires WellFormedParagraph(prev) && WellFormedParagraph(p)
    ensures WellFormedParagraph(MergeParagraph(prev, p))
  {
    var head := RStripChar(prev, '-');
    var connector := if EndsWith(prev, '-') then "" else " ";
    var t := head + connector + p;
    RStripCharShape(prev, '-');
    assert '\n' !in head;
    assert t[|head| + |connector|] == p[0];
    NonSpaceStrip(t, |head| + |connector|);
    StripAvoids(t, '\n');
    SqueezeStrippedShape(Strip(t));
  }

  /** One step of the second pass keeps paragraphs well-formed and adds no character
      other than the space. */
  lemma AddParagraphShape(merged: seq<string>, p: string, x: char)
    requires x != ' ' && WellFormedParagraph(p) && x !in p
    requires forall m :: m in merged ==> WellFormedParagraph(m) && x !in m
    ensures forall m :: m in AddParagraph(merged, p) ==> WellFormedParagraph(m) && x !in m
  {
    if merged != [] && ShouldMergeParagraphs(Last(merged), p) {
      var n := |merged| - 1;
      assert merged[n] in merged;
      MergeParagraphShape(merged[n], p);
      MergeParagraphAvoids(merged[n], p, x);
      var next := merged[n := MergeParagraph(merged[n], p)];
      assert forall h :: h in next ==> h == next[n] || h in merged;
    }
  }

  /** The second pass keeps paragraphs well-formed and adds no character other than the
      space. */
  lemma {:induction false} MergeParagraphsShape(paras: seq<string>, x: char)
    requires x != ' ' && forall p :: p in paras ==> WellFormedParagraph(p) && x !in p
    ensures forall p :: p in MergeParagraphs(paras) ==> WellFormedParagraph(p) && x !in p
  {
    if paras != [] {
      var init := paras[..|paras| - 1];
      assert forall q :: q in init ==> q in paras;
      MergeParagraphsShape(init, x);
      AddParagraphShape(MergeParagraphs(init), Last(paras), x);
    }
  }

  /** Non-empty parts without newlines, joined by blank lines, hold no run of three
      newlines. */
  lemma {:induction false} JoinParagraphsNoRun(parts: seq<string>)
    requires forall q :: q in parts ==> q != [] && '\n' !in q
    ensures !HasRun(JoinWith(parts, "\n\n"), IsNewline, 3)
  {
    if |parts| == 1 {
      assert parts[0] in parts;
      NoRunWithout(parts[0], IsNewline, 3);
    } else if |parts| > 1 {
      var rest := parts[1..];
      assert forall q :: q in rest ==> q in parts;
      assert parts[0] in parts && rest[0] in parts;
      JoinParagraphsNoRun(rest);
      var tail := JoinWith(rest, "\n\n");
      JoinWithHead(rest, "\n\n");
      NoRunAcross("\n\n", tail, IsNewline, 3);
      NoRunPrefix(parts[0], "\n\n" + tail, IsNewline, 3);
      assert parts[0] + "\n\n" + tail == parts[0] + ("\n\n" + tail);
    } else {
      NoRunWithout([], IsNewline, 3);
    }
  }

  /** The paragraphs `reflow_paragraphs` produces are well-formed, and joined by blank
      lines they give a stripped text without "\r" and without three newlines in a row. */
  lemma ReflowShape(text: string)
    ensures forall p :: p in ReflowedParagraphs(text) ==> WellFormedParagraph(p)
    ensures text != [] ==> Reflow(text) == JoinWith(ReflowedParagraphs(text), "\n\n")
    ensures '\r' !in Reflow(text)
    ensures !Contains(Reflow(text), "\n\n\n")
  {
    var t := NormalizeNewlines(text);
    var raw := SplitRuns(t, IsNewline, 2);
    SplitRunsAvoids(t, IsNewline, 2, '\r');
    FirstPassShape(raw, '\r');
    MergeParagraphsShape(FirstPass(raw), '\r');
    var paras := ReflowedParagraphs(text);
    var joined := JoinWith(paras, "\n\n");
    JoinWithAvoids(paras, "\n\n", '\r');
    if paras != [] {
      assert paras[0] in paras && Last(paras) in paras;
      JoinWithHead(paras, "\n\n");
      JoinWithLast(paras, "\n\n");
      StripStripped(joined);
    }
    JoinParagraphsNoRun(paras);
    NoRunNoTriple(joined);
  }

  // ---------------------------------------------------------------------------
  // `EndsWithTerminal` is the regex search of `end_punct_re`.

  lemma RStripAppend(x: string, y: string)
    requires forall m :: 0 <= m < |y| ==> IsSpace(y[m])
    ensures RStrip(x + y) == RStrip(x)
    decreases |y|
  {
    if y == [] {
      assert x + y == x;
    } else {
      assert (x + y)[..|x + y| - 1] == x + y[..|y| - 1];
      RStripAppend(x, y[..|y| - 1]);
    }
  }

  lemma RStripFixed(x: string)
    requires x == [] || !IsSpace(Last(x))
    ensures RStrip(x) == x
  {
  }

  lemma TrimClosersAppend(x: string, y: string)
    requires forall m :: 0 <= m < |y| ==> IsCloser(y[m])
    ensures TrimClosers(x + y) == TrimClosers(x)
    decreases |y|
  {
    if y == [] {
      assert x + y == x;
    } else {
      assert (x + y)[..|x + y| - 1] == x + y[..|y| - 1];
      TrimClosersAppend(x, y[..|y| - 1]);
    }
  }

  lemma TrimClosersFixed(x: string)
    requires x == [] || !IsCloser(Last(x))
    ensures TrimClosers(x) == x
  {
  }

  /** The three classes of `end_punct_re` do not overlap. */
  lemma ClassesDisjoint(c: char)
    ensures IsTerminal(c) ==> !IsSpace(c) && !IsCloser(c)
    ensures IsCloser(c) ==> !IsSpace(c)
  {
  }

  /** A text ending with a terminal mark, followed by whitespace, closers and whitespace,
      trims back to the text. */
  lemma TrimParts(s: string, p: string, a: string, b: string, c: string)
    requires s == p + a + b + c
    requires p != [] && IsTerminal(Last(p))
    requires forall m :: 0 <= m < |a| ==> IsSpace(a[m])
    requires forall m :: 0 <= m < |b| ==> IsCloser(b[m])
    requires forall m :: 0 <= m < |c| ==> IsSpace(c[m])
    ensures RStrip(TrimClosers(RStrip(s))) == p
  {
    var pa := p + a;
    var pab := pa + b;
    ClassesDisjoint(Last(p));
    assert RStrip(p) == p by { RStripFixed(p); }
    assert TrimClosers(p) == p by { TrimClosersFixed(p); }
    assert RStrip(s) == RStrip(pab) by { RStripAppend(pab, c); }
    if b == [] {
      assert pab == pa;
      assert RStrip(pa) == RStrip(p) by { RStripAppend(p, a); }
    } else {
      assert RStrip(pab) == pab by {
        assert Last(pab) == Last(b);
        ClassesDisjoint(Last(b));
        RStripFixed(pab);
      }
      assert TrimClosers(pab) == TrimClosers(pa) by { TrimClosersAppend(pa, b); }
      if a == [] {
        assert pa == p;
      } else {
        assert TrimClosers(pa) == pa by {
          assert Last(pa) == Last(a);
          ClassesDisjoint(Last(a));
          TrimClosersFixed(pa);
        }
        assert RStrip(pa) == RStrip(p) by { RStripAppend(p, a); }
      }
    }
  }

  /** A match of the regex at `k` leaves exactly `s[..k + 1]` after the right-to-left
      trimming of `EndsWithTerminal`. */
  lemma MatchTrims(s: string, k: int, i: int, j: int)
    requires 0 <= k < |s| && IsTerminal(s[k]) && TailSplit(s[k + 1..], i, j)
    ensures RStrip(TrimClosers(RStrip(s))) == s[..k + 1]
  {
    assert s == s[..k + 1] + s[k + 1..];
    TailTrims(s[..k + 1], s[k + 1..], i, j);
  }

  lemma TailTrims(p: string, t: string, i: int, j: int)
    requires p != [] && IsTerminal(Last(p)) && TailSplit(t, i, j)
    ensures RStrip(TrimClosers(RStrip(p + t))) == p
  {
    var a, b, c := t[..i], t[i..j], t[j..];
    assert t == a + b + c;
    assert forall m :: 0 <= m < |a| ==> a[m] == t[m];
    assert forall m :: 0 <= m < |b| ==> b[m] == t[i + m];
    assert forall m :: 0 <= m < |c| ==> c[m] == t[j + m];
    Associative(p, a, b, c);
    TrimParts(p + t, p, a, b, c);
  }

  /** The trimming of `EndsWithTerminal`, read from the left, is a match of the regex. */
  lemma TrimsMatch(s: string)
    requires EndsWithTerminal(s)
    ensures EndPunctMatchAt(s, |RStrip(TrimClosers(RStrip(s)))| - 1)
  {
    var t1 := RStrip(s);
    var t2 := TrimClosers(t1);
    var t3 := RStrip(t2);
    RStripShape(s);
    TrimClosersShape(t1);
    RStripShape(t2);
    PrefixOfPrefix(s, t1, t2);
    assert forall m :: |t3| <= m < |t2| ==> IsSpace(s[m]);
    assert forall m :: |t2| <= m < |t1| ==> IsCloser(s[m]);
    assert s[|t3| - 1] == t3[|t3| - 1];
    TailSplitAt(s, |t3| - 1, |t2| - |t3|, |t1| - |t3|);
  }

  /** The regex tail read off positions of `s` after `k`. */
  lemma TailSplitAt(s: string, k: int, i: int, j: int)
    requires 0 <= k && 0 <= i <= j && k + 1 + j <= |s|
    requires forall m :: k + 1 <= m < k + 1 + i ==> IsSpace(s[m])
    requires forall m :: k + 1 + i <= m < k + 1 + j ==> IsCloser(s[m])
    requires forall m :: k + 1 + j <= m < |s| ==> IsSpace(s[m])
    ensures TailSplit(s[k + 1..], i, j)
  {
    var t := s[k + 1..];
    assert forall m :: 0 <= m < |t| ==> t[m] == s[k + 1 + m];
  }

  /** `EndsWithTerminal(s)` holds exactly when `end_punct_re.search(s)` finds a match. */
  lemma EndsWithTerminalIsSearch(s: string)
    ensures EndsWithTerminal(s) <==> exists k :: EndPunctMatchAt(s, k)
  {
    if EndsWithTerminal(s) {
      TrimsMatch(s);
    }
    if k :| EndPunctMatchAt(s, k) {
      var i, j :| TailSplit(s[k + 1..], i, j);
      MatchTrims(s, k, i, j);
    }
  }

  // ---------------------------------------------------------------------------
  // What the second pass leaves behind.

  /** No two neighbouring paragraphs pass the merge test. */
  ghost predicate Settled(merged: seq<string>) {
    forall i :: 0 <= i < |merged| - 1 ==> !ShouldMergeParagraphs(merged[i], merged[i + 1])
  }

  /** A paragraph that can open a merge: non-empty, starting with a character that is
      neither whitespace nor a hyphen. */
  predicate OpensCleanly(p: string) {
    p != [] && !IsSpace(p[0]) && p[0] != '-'
  }

  lemma SqueezeHead(s: string, p: char -> bool, k: nat, rep: string)
    requires s != [] && !p(s[0])
    ensures Squeeze(s, p, k, rep) != [] && Squeeze(s, p, k, rep)[0] == s[0]
  {
  }

  /** What one more paragraph does in the second pass. The first paragraph is kept. After
      that, the paragraph is merged into the last one exactly when the merge test passes,
      and is appended as it is otherwise; the list grows by one exactly when it is not
      merged, and paragraphs before the last never change. */
  lemma AddParagraphEffect(merged: seq<string>, p: string)
    ensures merged == [] ==> AddParagraph(merged, p) == [p]
    ensures merged != [] ==>
      |AddParagraph(merged, p)| == |merged| + (if ShouldMergeParagraphs(Last(merged), p) then 0 else 1)
    ensures merged != [] ==> AddParagraph(merged, p)[..|merged| - 1] == merged[..|merged| - 1]
    ensures merged != [] && !ShouldMergeParagraphs(Last(merged), p) ==>
      AddParagraph(merged, p) == merged + [p]
    ensures merged != [] && ShouldMergeParagraphs(Last(merged), p) ==>
      Last(AddParagraph(merged, p)) == MergeParagraph(Last(merged), p)
  {
  }

  /** Merging into a paragraph that opens cleanly keeps its first character. */
  lemma MergeParagraphHead(prev: string, p: string)
    requires OpensCleanly(prev)
    ensures MergeParagraph(prev, p) != [] && MergeParagraph(prev, p)[0] == prev[0]
  {
    var head := RStripChar(prev, '-');
    var connector := if EndsWith(prev, '-') then "" else " ";
    var t := head + connector + p;
    RStripCharShape(prev, '-');
    assert head != [] && head[0] == prev[0];
    assert t[0] == prev[0];
    StripHead(t);
    SqueezeHead(Strip(t), IsSpace, 2, " ");
  }

  /** When every paragraph opens cleanly, the second pass leaves no neighbouring pair it
      would merge, and every paragraph it leaves opens cleanly. */
  lemma {:induction false} MergeParagraphsSettled(paras: seq<string>)
    requires forall p :: p in paras ==> OpensCleanly(p)
    ensures Settled(MergeParagraphs(paras))
    ensures forall m :: m in MergeParagraphs(paras) ==> OpensCleanly(m)
  {
    if paras != [] {
      var init := paras[..|paras| - 1];
      assert forall q :: q in init ==> q in paras;
      MergeParagraphsSettled(init);
      AddParagraphSettled(MergeParagraphs(init), Last(paras));
    }
  }

  /** One step of the second pass keeps the paragraphs settled. */
  lemma AddParagraphSettled(merged: seq<string>, p: string)
    requires Settled(merged) && OpensCleanly(p)
    requires forall m :: m in merged ==> OpensCleanly(m)
    ensures Settled(AddParagraph(merged, p))
    ensures forall m :: m in AddParagraph(merged, p) ==> OpensCleanly(m)
  {
    if merged != [] && ShouldMergeParagraphs(Last(merged), p) {
      var n := |merged| - 1;
      assert merged[n] in merged;
      MergeParagraphHead(merged[n], p);
      ReplaceLastSettled(merged, MergeParagraph(merged[n], p));
    }
  }

  /** Replacing the last paragraph by one with the same first character keeps the
      paragraphs settled. */
  lemma ReplaceLastSettled(merged: seq<string>, q: string)
    requires Settled(merged) && merged != [] && OpensCleanly(q)
    requires forall m :: m in merged ==> OpensCleanly(m)
    requires Last(merged) != [] && q[0] == Last(merged)[0]
    ensures Settled(merged[|merged| - 1 := q])
    ensures forall m :: m in merged[|merged| - 1 := q] ==> OpensCleanly(m)
  {
    var n := |merged| - 1;
    var next := merged[n := q];
    assert next[n] == q && merged[n] == Last(merged);
    forall i | 0 <= i < |next| - 1
      ensures !ShouldMergeParagraphs(next[i], next[i + 1])
    {
      if i + 1 == n {
        assert StartsContinuation(next[i + 1]) == StartsContinuation(merged[i + 1]);
      }
    }
    assert forall h :: h in next ==> h == q || h in merged;
  }

  /** When no paragraph of the first pass starts with a hyphen, no two neighbouring
      paragraphs of the result of `reflow_paragraphs` pass the merge test. */
  lemma ReflowSettled(text: string)
    requires forall p :: p in FirstPass(SplitRuns(NormalizeNewlines(text), IsNewline, 2)) ==> p != [] && p[0] != '-'
    ensures Settled(ReflowedParagraphs(text))
  {
    var raw := SplitRuns(NormalizeNewlines(text), IsNewline, 2);
    var paras := FirstPass(raw);
    assert forall p :: p in paras ==> WellFormedParagraph(p) by {
      SplitRunsAvoids(NormalizeNewlines(text), IsNewline, 2, '\r');
      FirstPassShape(raw, '\r');
    }
    assert forall p :: p in paras ==> OpensCleanly(p);
    MergeParagraphsSettled(paras);
  }
}
