/** The renderer the web handler calls (`generateASCIIArt` in main.go): the
    input is split on newlines, empty lines are skipped, and every other line
    becomes eight rows, row `j` being the `j`-th glyph row of each printable
    character of the line, side by side, followed by a newline. */
module Render {
  import opened Text
  import opened Glyphs
  import opened Validate

  /** Every line of the banner is newline-free; always true of a banner
      obtained by splitting a file's text on newlines. */
  predicate NewlineFree(banner: seq<string>)
  {
    forall k :: 0 <= k < |banner| ==> NL !in banner[k]
  }

  /** The printable characters of `line`, in order: the characters that pass
      the renderer's range check. */
  function Keep(line: string): (kept: string)
    ensures forall i :: 0 <= i < |kept| ==> Printable(kept[i])
  {
    if |line| == 0 then ""
    else (if Printable(line[0]) then [line[0]] else "") + Keep(line[1..])
  }

  /** `Keep` retains every printable character as often as it occurs, and
      nothing else. */
  lemma {:induction false} KeepCounts(line: string)
    ensures forall c :: multiset(Keep(line))[c] == if Printable(c) then multiset(line)[c] else 0
  {
    if |line| > 0 {
      KeepCounts(line[1..]);
      assert line == [line[0]] + line[1..];
      assert multiset(line) == multiset([line[0]]) + multiset(line[1..]);
    }
  }

  /** Row `j` of the rendering of `line`: the banner's line for row `j` of
      each printable character, left to right; other characters add nothing.
      The Go code indexes the banner without a check, so every index read
      must be in range. */
  function Row(banner: seq<string>, line: string, j: int): (row: string)
    requires IsRow(j) && Fits(banner, line)
  {
    if |line| == 0 then ""
    else
      assert forall c :: c in line[1..] ==> c in line;
      (if Printable(line[0]) then banner[SlotIndex(line[0], j)] else "")
      + Row(banner, line[1..], j)
  }

  /** Rows 1 to 8 of the rendering of `line`. */
  function Rows(banner: seq<string>, line: string): (rows: seq<string>)
    requires Fits(banner, line)
  {
    seq(GlyphRows, i requires 0 <= i < GlyphRows => Row(banner, line, i + 1))
  }

  /** The block written for one input line: each of its eight rows followed
      by a newline. */
  function Block(banner: seq<string>, line: string): (text: string)
    requires Fits(banner, line)
  {
    Terminated(Rows(banner, line))
  }

  predicate AllFit(banner: seq<string>, lines: seq<string>)
  {
    forall k :: 0 <= k < |lines| ==> Fits(banner, lines[k])
  }

  /** The output for a sequence of input lines: the blocks of the non-empty
      lines, in order. */
  function RenderLines(banner: seq<string>, lines: seq<string>): (text: string)
    requires AllFit(banner, lines)
  {
    if |lines| == 0 then ""
    else (if lines[0] == "" then "" else Block(banner, lines[0])) + RenderLines(banner, lines[1..])
  }

  /** The pieces of an input inherit its fit to the banner. */
  lemma PiecesFit(banner: seq<string>, s: string)
    requires Fits(banner, s)
    ensures AllFit(banner, Split(s))
  {
    forall k, c | 0 <= k < |Split(s)| && c in Split(s)[k] ensures c in s {
      PieceCharsFrom(s, k, c);
    }
  }

  /** `generateASCIIArt` over an already split banner. */
  function GenerateFromLines(banner: seq<string>, input: string): (art: string)
    requires Fits(banner, input)
  {
    PiecesFit(banner, input);
    RenderLines(banner, Split(input))
  }

  /** `generateASCIIArt` itself: the banner file's text is split on newlines
      and indexed by line number. */
  function GenerateAsciiArt(input: string, bannerText: string): (art: string)
    requires Fits(Split(bannerText), input)
  {
    GenerateFromLines(Split(bannerText), input)
  }

  /** Reading a banner back: a banner file written as newline-separated lines
      renders exactly as the line sequence it was written from. */
  lemma BannerTextRoundTrip(banner: seq<string>, input: string)
    requires |banner| >= 1 && NewlineFree(banner) && Fits(banner, input)
    ensures Fits(Split(Join(banner)), input)
    ensures GenerateAsciiArt(input, Join(banner)) == GenerateFromLines(banner, input)
  {
    SplitJoin(banner);
  }

  // ---------------------------------------------------------------------
  // Character filtering and slot addressing within one row

  /** Row `j` of each glyph of an all-printable string, one piece per
      character, in order: an index-wise reference for `Row`. */
  function Pieces(banner: seq<string>, k: string, j: int): (ps: seq<string>)
    requires IsRow(j) && forall i :: 0 <= i < |k| ==> Printable(k[i]) && SlotIndex(k[i], j) < |banner|
  {
    seq(|k|, i requires 0 <= i < |k| => banner[SlotIndex(k[i], j)])
  }

  /** `Keep` leaves a line unchanged exactly when every character is printable. */
  lemma {:induction false} KeepIdentity(line: string)
    ensures Keep(line) == line <==> forall i :: 0 <= i < |line| ==> Printable(line[i])
  {
    if |line| > 0 {
      KeepIdentity(line[1..]);
      if !Printable(line[0]) {
        assert |Keep(line)| < |line| by { KeepShorter(line[1..]); }
      }
    }
  }

  lemma {:induction false} KeepShorter(line: string)
    ensures |Keep(line)| <= |line|
  {
    if |line| > 0 {
      KeepShorter(line[1..]);
    }
  }

  /** Row `j` is the in-order concatenation of the banner lines at
      `(c - 32) * 9 + j`, one for each printable character `c` of the line. */
  lemma {:induction false} RowIsPieces(banner: seq<string>, line: string, j: int)
    requires IsRow(j) && Fits(banner, line)
    ensures forall i :: 0 <= i < |Keep(line)| ==> Keep(line)[i] in line
    ensures Row(banner, line, j) == Flatten(Pieces(banner, Keep(line), j))
  {
    KeepChars(line);
    if |line| > 0 {
      var rest := line[1..];
      assert forall c :: c in rest ==> c in line;
      RowIsPieces(banner, rest, j);
      if Printable(line[0]) {
        assert line[0] in line;
        assert Keep(line) == [line[0]] + Keep(rest);
        PiecesCons(banner, line[0], Keep(rest), j);
        var ps := Pieces(banner, Keep(rest), j);
        assert ([banner[SlotIndex(line[0], j)]] + ps)[1..] == ps;
      } else {
        assert Keep(line) == Keep(rest);
      }
    }
  }

  /** One more printable character adds its piece in front. */
  lemma PiecesCons(banner: seq<string>, c: char, k: string, j: int)
    requires IsRow(j) && Printable(c) && SlotIndex(c, j) < |banner|
    requires forall i :: 0 <= i < |k| ==> Printable(k[i]) && SlotIndex(k[i], j) < |banner|
    ensures Pieces(banner, [c] + k, j) == [banner[SlotIndex(c, j)]] + Pieces(banner, k, j)
  {
    assert forall i :: 0 < i <= |k| ==> ([c] + k)[i] == k[i - 1];
  }

  /** The characters `Keep` returns come from the line. */
  lemma {:induction false} KeepChars(line: string)
    ensures forall i :: 0 <= i < |Keep(line)| ==> Keep(line)[i] in line
  {
    if |line| > 0 {
      KeepChars(line[1..]);
      assert forall c :: c in line[1..] ==> c in line;
    }
  }

  /** Characters outside 32..126 contribute no column: dropping them leaves
      every row of the line unchanged. */
  lemma {:induction false} RowIgnoresUnprintable(banner: seq<string>, line: string, j: int)
    requires IsRow(j) && Fits(banner, line)
    ensures Fits(banner, Keep(line))
    ensures Row(banner, Keep(line), j) == Row(banner, line, j)
  {
    KeepChars(line);
    KeepIdentity(Keep(line));
    RowIsPieces(banner, line, j);
    RowIsPieces(banner, Keep(line), j);
  }

  /** With a valid input nothing is dropped: row `j` of every line of the
      input has exactly one banner piece per character of that line. */
  lemma ValidKeepsEveryCharacter(banner: seq<string>, input: string, k: int, j: int)
    requires Valid(input) && Fits(banner, input) && IsRow(j) && 0 <= k < |Split(input)|
    ensures Fits(banner, Split(input)[k])
    ensures Keep(Split(input)[k]) == Split(input)[k]
    ensures |Pieces(banner, Split(input)[k], j)| == |Split(input)[k]|
    ensures Row(banner, Split(input)[k], j) == Flatten(Pieces(banner, Split(input)[k], j))
  {
    PiecesFit(banner, input);
    ValidPieces(input);
    var line := Split(input)[k];
    KeepIdentity(line);
    RowIsPieces(banner, line, j);
  }

  /** Printing one character gives its eight glyph rows, each on its own line. */
  lemma SingleCharacter(banner: seq<string>, c: char)
    requires Printable(c) && Fits(banner, [c])
    ensures GenerateFromLines(banner, [c])
         == Terminated(seq(GlyphRows, i requires 0 <= i < GlyphRows => banner[SlotIndex(c, i + 1)]))
  {
    assert c in [c];
    assert Split([c]) == [[c]] by { SplitNoNewline([c]); }
    assert RenderLines(banner, [[c]]) == Block(banner, [c]) + RenderLines(banner, []);
    forall i | 0 <= i < GlyphRows ensures Rows(banner, [c])[i] == banner[SlotIndex(c, i + 1)] {
      assert [c][1..] == "";
      assert Row(banner, [c], i + 1) == banner[SlotIndex(c, i + 1)] + Row(banner, [c][1..], i + 1);
    }
    assert Rows(banner, [c]) == seq(GlyphRows, i requires 0 <= i < GlyphRows => banner[SlotIndex(c, i + 1)]);
  }

  // ---------------------------------------------------------------------
  // Composition over input lines and the effect of empty lines

  /** Rendering a sequence of lines renders each part in turn. */
  lemma {:induction false} RenderLinesAppend(banner: seq<string>, a: seq<string>, b: seq<string>)
    requires AllFit(banner, a) && AllFit(banner, b)
    ensures AllFit(banner, a + b)
    ensures RenderLines(banner, a + b) == RenderLines(banner, a) + RenderLines(banner, b)
  {
    if |a| > 0 {
      assert (a + b)[1..] == a[1..] + b;
      assert (a + b)[0] == a[0];
      RenderLinesAppend(banner, a[1..], b);
    } else {
      assert a + b == b;
    }
  }

  /** The renderer composes over lines: rendering `a + "\n" + b` is
      rendering `a` followed by rendering `b`. */
  lemma Compose(banner: seq<string>, a: string, b: string)
    requires Fits(banner, a) && Fits(banner, b)
    ensures Fits(banner, a + [NL] + b)
    ensures GenerateFromLines(banner, a + [NL] + b)
         == GenerateFromLines(banner, a) + GenerateFromLines(banner, b)
  {
    SplitAppend(a, b);
    PiecesFit(banner, a);
    PiecesFit(banner, b);
    RenderLinesAppend(banner, Split(a), Split(b));
  }

  /** The empty input renders to nothing. */
  lemma EmptyInputRendersNothing(banner: seq<string>)
    ensures Fits(banner, "") && GenerateFromLines(banner, "") == ""
  {
    assert Split("") == [""];
    assert RenderLines(banner, [""]) == "" + RenderLines(banner, [""][1..]);
  }

  /** A leading newline adds nothing to the output. */
  lemma LeadingNewlineVanishes(banner: seq<string>, b: string)
    requires Fits(banner, b)
    ensures Fits(banner, [NL] + b) && GenerateFromLines(banner, [NL] + b) == GenerateFromLines(banner, b)
  {
    EmptyInputRendersNothing(banner);
    assert "" + [NL] + b == [NL] + b;
    Compose(banner, "", b);
  }

  /** A trailing newline adds nothing to the output. */
  lemma TrailingNewlineVanishes(banner: seq<string>, a: string)
    requires Fits(banner, a)
    ensures Fits(banner, a + [NL]) && GenerateFromLines(banner, a + [NL]) == GenerateFromLines(banner, a)
  {
    EmptyInputRendersNothing(banner);
    assert a + [NL] + "" == a + [NL];
    Compose(banner, a, "");
  }

  /** A blank line between two lines adds nothing to the output. */
  lemma DoubledNewlineVanishes(banner: seq<string>, a: string, b: string)
    requires Fits(banner, a) && Fits(banner, b)
    ensures Fits(banner, a + [NL, NL] + b)
    ensures GenerateFromLines(banner, a + [NL, NL] + b) == GenerateFromLines(banner, a + [NL] + b)
  {
    var s := a + [NL, NL] + b;
    assert s == (a + [NL]) + [NL] + b;
    TrailingNewlineVanishes(banner, a);
    Compose(banner, a + [NL], b);
    Compose(banner, a, b);
  }

  // ---------------------------------------------------------------------
  // Row structure of the output

  /** Number of non-empty lines. */
  function NonEmptyCount(lines: seq<string>): (n: nat)
  {
    if |lines| == 0 then 0 else (if lines[0] == "" then 0 else 1) + NonEmptyCount(lines[1..])
  }

  /** Every row of the output, in order: the eight rows of each non-empty line. */
  function OutputRows(banner: seq<string>, lines: seq<string>): (rows: seq<string>)
    requires AllFit(banner, lines)
  {
    if |lines| == 0 then []
    else (if lines[0] == "" then [] else Rows(banner, lines[0])) + OutputRows(banner, lines[1..])
  }

  /** Rows drawn from a newline-free banner are newline-free. */
  lemma {:induction false} RowNewlineFree(banner: seq<string>, line: string, j: int)
    requires NewlineFree(banner) && IsRow(j) && Fits(banner, line)
    ensures NL !in Row(banner, line, j)
  {
    if |line| > 0 {
      assert forall c :: c in line[1..] ==> c in line;
      RowNewlineFree(banner, line[1..], j);
    }
  }

  /** The output is its rows, each followed by a newline. */
  lemma {:induction false} RenderLinesTerminated(banner: seq<string>, lines: seq<string>)
    requires AllFit(banner, lines)
    ensures RenderLines(banner, lines) == Terminated(OutputRows(banner, lines))
  {
    if |lines| > 0 {
      RenderLinesTerminated(banner, lines[1..]);
      var head := if lines[0] == "" then [] else Rows(banner, lines[0]);
      TerminatedAppend(head, OutputRows(banner, lines[1..]));
    }
  }

  /** There are eight rows per non-empty input line. */
  lemma {:induction false} OutputRowsCount(banner: seq<string>, lines: seq<string>)
    requires AllFit(banner, lines)
    ensures |OutputRows(banner, lines)| == GlyphRows * NonEmptyCount(lines)
  {
    if |lines| > 0 {
      OutputRowsCount(banner, lines[1..]);
    }
  }

  /** Rows drawn from a newline-free banner hold no newline. */
  lemma {:induction false} OutputRowsNewlineFree(banner: seq<string>, lines: seq<string>)
    requires NewlineFree(banner) && AllFit(banner, lines)
    ensures forall r :: 0 <= r < |OutputRows(banner, lines)| ==> NL !in OutputRows(banner, lines)[r]
  {
    if |lines| > 0 {
      OutputRowsNewlineFree(banner, lines[1..]);
      var head := if lines[0] == "" then [] else Rows(banner, lines[0]);
      var tail := OutputRows(banner, lines[1..]);
      if lines[0] != "" {
        forall r | 0 <= r < GlyphRows ensures NL !in head[r] {
          RowNewlineFree(banner, lines[0], r + 1);
        }
      }
      assert OutputRows(banner, lines) == head + tail;
      forall r | 0 <= r < |head + tail| ensures NL !in (head + tail)[r] {
        if r >= |head| {
          assert (head + tail)[r] == tail[r - |head|];
        }
      }
    }
  }

  /** The whole output, read back line by line, is the rows of the non-empty
      input lines in order, followed by nothing after the final newline; so
      it holds exactly 8 newlines per non-empty input line. */
  lemma OutputStructure(banner: seq<string>, input: string)
    requires NewlineFree(banner) && Fits(banner, input)
    ensures AllFit(banner, Split(input))
    ensures Split(GenerateFromLines(banner, input)) == OutputRows(banner, Split(input)) + [""]
    ensures Count(GenerateFromLines(banner, input), NL) == GlyphRows * NonEmptyCount(Split(input))
  {
    PiecesFit(banner, input);
    RenderLinesTerminated(banner, Split(input));
    OutputRowsCount(banner, Split(input));
    OutputRowsNewlineFree(banner, Split(input));
    TerminatedSplit(OutputRows(banner, Split(input)));
  }

  /** Splitting a block back gives the line's eight rows. */
  lemma BlockStructure(banner: seq<string>, line: string)
    requires NewlineFree(banner) && Fits(banner, line)
    ensures Split(Block(banner, line)) == Rows(banner, line) + [""]
    ensures Count(Block(banner, line), NL) == GlyphRows
  {
    forall r | 0 <= r < GlyphRows ensures NL !in Rows(banner, line)[r] {
      RowNewlineFree(banner, line, r + 1);
    }
    TerminatedSplit(Rows(banner, line));
  }

  // ---------------------------------------------------------------------
  // Deleting unprintable characters from the whole input

  /** The input with every character other than a newline or a printable
      character deleted. */
  function Strip(s: string): (t: string)
  {
    if |s| == 0 then ""
    else (if s[0] == NL || Printable(s[0]) then [s[0]] else "") + Strip(s[1..])
  }

  function KeepEach(lines: seq<string>): (kept: seq<string>)
    ensures |kept| == |lines|
  {
    seq(|lines|, k requires 0 <= k < |lines| => Keep(lines[k]))
  }

  /** Stripping the input strips each of its lines. */
  lemma {:induction false} SplitStrip(s: string)
    ensures Split(Strip(s)) == KeepEach(Split(s))
  {
    if |s| > 0 {
      SplitStrip(s[1..]);
      assert s == [s[0]] + s[1..];
      SplitStripStep(s[0], s[1..]);
    }
  }

  /** The inductive step of `SplitStrip`: one more leading character. */
  lemma SplitStripStep(x: char, t: string)
    requires Split(Strip(t)) == KeepEach(Split(t))
    ensures Split(Strip([x] + t)) == KeepEach(Split([x] + t))
  {
    assert ([x] + t)[1..] == t;
    SplitCons(x, t);
    KeepEachStep(x, Split(t));
    if x == NL || Printable(x) {
      assert Strip([x] + t) == [x] + Strip(t);
      SplitCons(x, Strip(t));
    } else {
      assert Strip([x] + t) == Strip(t);
    }
  }

  /** Keeping printable characters commutes with one splitting step; an
      unprintable leading character disappears. */
  lemma KeepEachStep(x: char, p: seq<string>)
    requires |p| >= 1
    ensures KeepEach(Step(x, p)) == if x == NL || Printable(x) then Step(x, KeepEach(p)) else KeepEach(p)
  {
    if x != NL {
      var q := [[x] + p[0]] + p[1..];
      assert ([x] + p[0])[1..] == p[0];
      assert KeepEach(q)[1..] == KeepEach(p)[1..];
      if Printable(x) {
        assert Keep([x] + p[0]) == [x] + Keep(p[0]);
      } else {
        assert Keep([x] + p[0]) == Keep(p[0]);
      }
    }
  }

  /** Stripping keeps the input's fit to the banner. */
  lemma StripFits(banner: seq<string>, s: string)
    requires Fits(banner, s)
    ensures Fits(banner, Strip(s))
  {
    StripChars(s);
  }

  lemma {:induction false} StripChars(s: string)
    ensures forall c :: c in Strip(s) ==> c in s
  {
    if |s| > 0 {
      StripChars(s[1..]);
    }
  }

  /** No line becomes empty when its unprintable characters are deleted. */
  predicate NoLineVanishes(lines: seq<string>)
  {
    forall k :: 0 <= k < |lines| && lines[k] != "" ==> Keep(lines[k]) != ""
  }

  /** Keeping only printable characters never makes more lines non-empty,
      and keeps their number exactly when no line vanishes. */
  lemma {:induction false} KeepEachNonEmpty(lines: seq<string>)
    ensures NonEmptyCount(KeepEach(lines)) <= NonEmptyCount(lines)
    ensures NonEmptyCount(KeepEach(lines)) == NonEmptyCount(lines) <==> NoLineVanishes(lines)
  {
    if |lines| > 0 {
      KeepEachNonEmpty(lines[1..]);
      assert KeepEach(lines)[1..] == KeepEach(lines[1..]);
      if lines[0] == "" {
        assert Keep(lines[0]) == "";
      }
      if NoLineVanishes(lines[1..]) && (lines[0] != "" ==> Keep(lines[0]) != "") {
        forall k | 0 <= k < |lines| && lines[k] != "" ensures Keep(lines[k]) != "" {
          if k > 0 {
            assert lines[k] == lines[1..][k - 1];
          }
        }
      }
      if NoLineVanishes(lines) {
        forall k | 0 <= k < |lines[1..]| && lines[1..][k] != "" ensures Keep(lines[1..][k]) != "" {
          assert lines[1..][k] == lines[k + 1];
        }
      }
    }
  }

  /** Stripping a line that does not vanish leaves its block unchanged. */
  lemma BlockIgnoresUnprintable(banner: seq<string>, l: string)
    requires Fits(banner, l)
    ensures Fits(banner, Keep(l))
    ensures Rows(banner, Keep(l)) == Rows(banner, l)
  {
    RowIgnoresUnprintable(banner, l, 1);
    forall i | 0 <= i < GlyphRows ensures Rows(banner, Keep(l))[i] == Rows(banner, l)[i] {
      RowIgnoresUnprintable(banner, l, i + 1);
    }
  }

  lemma NoLineVanishesTail(lines: seq<string>)
    requires |lines| > 0 && NoLineVanishes(lines)
    ensures NoLineVanishes(lines[1..])
  {
    forall k | 0 <= k < |lines[1..]| && lines[1..][k] != "" ensures Keep(lines[1..][k]) != "" {
      assert lines[1..][k] == lines[k + 1];
    }
  }

  /** Line by line, stripping renders the same blocks as long as no line
      vanishes. */
  lemma {:induction false} RenderKeepEach(banner: seq<string>, lines: seq<string>)
    requires AllFit(banner, lines) && NoLineVanishes(lines)
    ensures AllFit(banner, KeepEach(lines))
    ensures RenderLines(banner, KeepEach(lines)) == RenderLines(banner, lines)
  {
    forall k | 0 <= k < |lines| ensures Fits(banner, KeepEach(lines)[k]) {
      RowIgnoresUnprintable(banner, lines[k], 1);
    }
    if |lines| > 0 {
      var l := lines[0];
      var kept := KeepEach(lines);
      assert kept[1..] == KeepEach(lines[1..]);
      NoLineVanishesTail(lines);
      RenderKeepEach(banner, lines[1..]);
      if l == "" {
        assert kept[0] == "";
      } else {
        assert kept[0] == Keep(l) != "";
        BlockIgnoresUnprintable(banner, l);
      }
    }
  }

  /** Deleting the characters outside 32..126 (other than newlines) from the
      input leaves the output unchanged exactly when no input line consists
      solely of such characters: such a line still renders as eight empty
      rows, while after deletion it is empty and renders as nothing. */
  lemma StripPreservesOutput(banner: seq<string>, input: string)
    requires NewlineFree(banner) && Fits(banner, input)
    ensures Fits(banner, Strip(input))
    ensures GenerateFromLines(banner, Strip(input)) == GenerateFromLines(banner, input)
        <==> NoLineVanishes(Split(input))
  {
    StripFits(banner, input);
    SplitStrip(input);
    PiecesFit(banner, input);
    var ls := Split(input);
    if NoLineVanishes(ls) {
      RenderKeepEach(banner, ls);
    } else {
      OutputStructure(banner, input);
      OutputStructure(banner, Strip(input));
      KeepEachNonEmpty(ls);
    }
  }

  /** Eight empty rows are eight newlines. */
  lemma EightEmptyRows()
    ensures Terminated(["", "", "", "", "", "", "", ""]) == "\n\n\n\n\n\n\n\n"
  {
    var e: seq<string> := ["", "", "", "", "", "", "", ""];
    assert Terminated(e[8..]) == "";
    assert Terminated(e[7..]) == "\n";
    assert Terminated(e[6..]) == "\n\n";
    assert Terminated(e[5..]) == "\n\n\n";
    assert Terminated(e[4..]) == "\n\n\n\n";
    assert Terminated(e[3..]) == "\n\n\n\n\n";
    assert Terminated(e[2..]) == "\n\n\n\n\n\n";
    assert Terminated(e[1..]) == "\n\n\n\n\n\n\n";
  }

  /** Every row of a one-tab line is empty. */
  lemma TabRowsEmpty(banner: seq<string>)
    ensures Fits(banner, "\t") && Rows(banner, "\t") == ["", "", "", "", "", "", "", ""]
  {
    forall i | 0 <= i < GlyphRows ensures Rows(banner, "\t")[i] == "" {
      assert "\t"[1..] == "";
      assert Row(banner, "\t", i + 1) == "" + Row(banner, "\t"[1..], i + 1);
    }
  }

  /** A line of one tab renders as eight empty rows; with the tab deleted it
      renders as nothing. */
  lemma TabOnlyLine(banner: seq<string>)
    ensures Fits(banner, "\t")
    ensures GenerateFromLines(banner, "\t") == "\n\n\n\n\n\n\n\n"
    ensures Strip("\t") == "" && GenerateFromLines(banner, "") == ""
  {
    SplitNoNewline("\t");
    TabRowsEmpty(banner);
    EightEmptyRows();
    assert RenderLines(banner, ["\t"]) == Block(banner, "\t") + RenderLines(banner, ["\t"][1..]);
    EmptyInputRendersNothing(banner);
  }
}
