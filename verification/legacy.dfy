/** The older renderer of src/asciiart (`AsciiArt`), which fetches every
    glyph row with `GetAsciiLine`. It starts its result with a newline,
    renders every newline-separated piece of the input (empty ones too),
    looks up every character without a range check, and reads an empty
    string wherever the line number falls outside the banner. */
module Legacy {
  import opened Text
  import opened Glyphs

  /** Line `num` of the banner, counting from 0, or the empty string when
      the banner has no such line. */
  function LineAt(lines: seq<string>, num: int): (line: string)
  {
    if 0 <= num < |lines| then lines[num] else ""
  }

  /** `GetAsciiLine`: scan the banner's lines in order, counting them, and
      remember the one whose number is `num`. A negative or too large `num`
      matches no line and leaves the result empty. */
  method GetAsciiLine(lines: seq<string>, num: int) returns (line: string)
    ensures 0 <= num < |lines| ==> line == lines[num]
    ensures num < 0 || num >= |lines| ==> line == ""
  {
    var lineNum := 0;
    line := "";
    for k := 0 to |lines|
      invariant lineNum == k
      invariant line == if 0 <= num < k then lines[num] else ""
    {
      if lineNum == num {
        line := lines[k];
      }
      lineNum := lineNum + 1;
    }
  }

  /** The pure lookup agrees with the scanning method. */
  method LookupMatchesScan(lines: seq<string>, num: int) returns (line: string)
    ensures line == LineAt(lines, num)
  {
    line := GetAsciiLine(lines, num);
  }

  /** The line number `AsciiArt` asks for: `1 + (c - ' ') * 9 + i` for row
      `i` in 0..7. It is the main renderer's slot index for row `i + 1`, and
      it is negative for every character below the space. */
  function LegacySlot(c: char, i: int): (num: int)
    ensures num == SlotIndex(c, i + 1)
    ensures c as int < FirstPrintable && 0 <= i < GlyphRows ==> num < 0
  {
    1 + (c as int - ' ' as int) * SlotHeight + i
  }

  /** Row `i` (0..7) of a piece: the looked-up banner line of every
      character, left to right, with no filtering. */
  function LegacyRow(lines: seq<string>, word: string, i: int): (row: string)
  {
    if |word| == 0 then ""
    else LineAt(lines, LegacySlot(word[0], i)) + LegacyRow(lines, word[1..], i)
  }

  /** The eight rows of a piece. */
  function LegacyRows(lines: seq<string>, word: string): (rows: seq<string>)
  {
    seq(GlyphRows, i requires 0 <= i < GlyphRows => LegacyRow(lines, word, i))
  }

  /** The rows of every piece, in order. */
  function LegacyOutputRows(lines: seq<string>, words: seq<string>): (rows: seq<string>)
  {
    if |words| == 0 then [] else LegacyRows(lines, words[0]) + LegacyOutputRows(lines, words[1..])
  }

  /** The text written for the pieces: each row followed by a newline. */
  function LegacyWords(lines: seq<string>, words: seq<string>): (text: string)
  {
    if |words| == 0 then ""
    else Terminated(LegacyRows(lines, words[0])) + LegacyWords(lines, words[1..])
  }

  /** `AsciiArt`, with the banner file given as its sequence of lines. */
  function AsciiArt(input: string, lines: seq<string>): (art: string)
  {
    [NL] + LegacyWords(lines, Split(input))
  }

  /** Row `i` of a piece is the in-order concatenation of the lookups at
      `1 + (c - 32) * 9 + i`, one per character of the piece. */
  lemma {:induction false} LegacyRowIsLookups(lines: seq<string>, word: string, i: int)
    ensures LegacyRow(lines, word, i)
         == Flatten(seq(|word|, k requires 0 <= k < |word| => LineAt(lines, SlotIndex(word[k], i + 1))))
  {
    if |word| > 0 {
      LegacyRowIsLookups(lines, word[1..], i);
      var p := seq(|word|, k requires 0 <= k < |word| => LineAt(lines, SlotIndex(word[k], i + 1)));
      assert p[1..] == seq(|word[1..]|, k requires 0 <= k < |word[1..]| => LineAt(lines, SlotIndex(word[1..][k], i + 1)));
    }
  }

  /** A character whose line number is outside the banner contributes the
      empty string: always for characters below the space, and, with a
      banner of at most 856 lines, for every character outside 32..126
      (the lowest line a character above 126 asks for is 856). */
  lemma UnprintableContributesNothing(lines: seq<string>, c: char, i: int)
    requires 0 <= i < GlyphRows
    requires c as int < FirstPrintable || (!Printable(c) && |lines| <= FullBannerLines + 1)
    ensures LineAt(lines, LegacySlot(c, i)) == ""
  {
  }

  /** Writing the pieces back to back writes each group of rows in turn. */
  lemma {:induction false} LegacyWordsRows(lines: seq<string>, words: seq<string>)
    ensures LegacyWords(lines, words) == Terminated(LegacyOutputRows(lines, words))
    ensures |LegacyOutputRows(lines, words)| == GlyphRows * |words|
  {
    if |words| > 0 {
      LegacyWordsRows(lines, words[1..]);
      TerminatedAppend(LegacyRows(lines, words[0]), LegacyOutputRows(lines, words[1..]));
    }
  }

  /** Rows looked up in a newline-free banner are newline-free. */
  lemma {:induction false} LegacyRowNewlineFree(lines: seq<string>, word: string, i: int)
    requires forall k :: 0 <= k < |lines| ==> NL !in lines[k]
    ensures NL !in LegacyRow(lines, word, i)
  {
    if |word| > 0 {
      LegacyRowNewlineFree(lines, word[1..], i);
    }
  }

  /** Whatever the input and the banner, the result begins with a newline. */
  lemma AsciiArtStartsWithNewline(input: string, lines: seq<string>)
    ensures |AsciiArt(input, lines)| >= 1 && AsciiArt(input, lines)[0] == NL
  {
  }

  /** The result read back line by line: one empty line first, then eight
      rows for every newline-separated piece of the input, including empty
      pieces, and nothing after the final newline. So it holds
      1 + 8 * (pieces) newlines. */
  lemma AsciiArtStructure(input: string, lines: seq<string>)
    requires forall k :: 0 <= k < |lines| ==> NL !in lines[k]
    ensures AsciiArt(input, lines)[0] == NL
    ensures Split(AsciiArt(input, lines)) == [""] + LegacyOutputRows(lines, Split(input)) + [""]
    ensures Count(AsciiArt(input, lines), NL) == 1 + GlyphRows * (Count(input, NL) + 1)
  {
    var words := Split(input);
    var rows := LegacyOutputRows(lines, words);
    LegacyWordsRows(lines, words);
    LegacyOutputRowsNewlineFree(lines, words);
    TerminatedSplit(rows);
    assert AsciiArt(input, lines) == [NL] + Terminated(rows);
    SplitCons(NL, Terminated(rows));
    CountAppend([NL], Terminated(rows), NL);
    SplitPieces(input);
  }

  lemma {:induction false} LegacyOutputRowsNewlineFree(lines: seq<string>, words: seq<string>)
    requires forall k :: 0 <= k < |lines| ==> NL !in lines[k]
    ensures forall r :: 0 <= r < |LegacyOutputRows(lines, words)| ==> NL !in LegacyOutputRows(lines, words)[r]
  {
    if |words| > 0 {
      LegacyOutputRowsNewlineFree(lines, words[1..]);
      var head := LegacyRows(lines, words[0]);
      forall r | 0 <= r < GlyphRows ensures NL !in head[r] {
        LegacyRowNewlineFree(lines, words[0], r);
      }
    }
  }
}
