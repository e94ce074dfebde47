/** Where `AsciiArt` and `generateASCIIArt` agree and where they differ,
    given the same banner line sequence. */
module Agreement {
  import opened Text
  import opened Glyphs
  import opened Validate
  import opened Render
  import opened Legacy

  /** No newline-separated piece of the input is empty: no leading,
      trailing or doubled newline, and the input itself is not empty. */
  predicate NoEmptyPieces(words: seq<string>)
  {
    forall k :: 0 <= k < |words| ==> words[k] != ""
  }

  /** The unchecked lookup of the older renderer and the range-checked
      lookup of the newer one read the same thing for a character when the
      character is printable and its slot is in the banner, or when the
      banner has at most one line past the last slot (an 855-line file
      ending in a newline splits into 856 pieces; the first line an
      unprintable character above 126 could read is 856). */
  predicate AgreeOn(lines: seq<string>, word: string)
  {
    |lines| <= FullBannerLines + 1 || forall k :: 0 <= k < |word| ==> Printable(word[k])
  }

  /** Row `i` of the older renderer is row `i + 1` of the newer one. */
  lemma {:induction false} RowsAgree(lines: seq<string>, word: string, i: int)
    requires 0 <= i < GlyphRows && Fits(lines, word) && AgreeOn(lines, word)
    ensures LegacyRow(lines, word, i) == Row(lines, word, i + 1)
  {
    if |word| > 0 {
      var c := word[0];
      assert c in word;
      assert forall d :: d in word[1..] ==> d in word;
      assert AgreeOn(lines, word[1..]) by {
        if |lines| > FullBannerLines + 1 {
          forall k | 0 <= k < |word[1..]| ensures Printable(word[1..][k]) {
            assert word[1..][k] == word[k + 1];
          }
        }
      }
      RowsAgree(lines, word[1..], i);
      if !Printable(c) {
        assert |lines| <= FullBannerLines + 1;
        UnprintableContributesNothing(lines, c, i);
      }
    }
  }

  /** For non-empty pieces the two renderers write the same text. */
  lemma {:induction false} WordsAgree(lines: seq<string>, words: seq<string>)
    requires AllFit(lines, words) && NoEmptyPieces(words)
    requires forall k :: 0 <= k < |words| ==> AgreeOn(lines, words[k])
    ensures LegacyWords(lines, words) == RenderLines(lines, words)
  {
    if |words| > 0 {
      var w := words[0];
      WordsAgree(lines, words[1..]);
      forall i | 0 <= i < GlyphRows ensures LegacyRows(lines, w)[i] == Rows(lines, w)[i] {
        RowsAgree(lines, w, i);
      }
      assert LegacyRows(lines, w) == Rows(lines, w);
    }
  }

  /** Agreement: on an input with no empty pieces whose characters are all
      drawn (a valid input) or whose banner has at most one line past the
      last slot, the older renderer's result is a newline followed by the newer
      renderer's result. */
  lemma Agree(input: string, lines: seq<string>)
    requires Fits(lines, input) && NoEmptyPieces(Split(input))
    requires Valid(input) || |lines| <= FullBannerLines + 1
    ensures AsciiArt(input, lines) == [NL] + GenerateFromLines(lines, input)
  {
    PiecesFit(lines, input);
    var words := Split(input);
    if Valid(input) {
      ValidPieces(input);
    }
    assert forall k :: 0 <= k < |words| ==> AgreeOn(lines, words[k]);
    WordsAgree(lines, words);
  }

  /** All lines are non-empty exactly when every line is counted. */
  lemma {:induction false} NonEmptyCountFull(words: seq<string>)
    ensures NonEmptyCount(words) <= |words|
    ensures NonEmptyCount(words) == |words| <==> NoEmptyPieces(words)
  {
    if |words| > 0 {
      NonEmptyCountFull(words[1..]);
      if NoEmptyPieces(words) {
        assert NoEmptyPieces(words[1..]) by {
          forall k | 0 <= k < |words[1..]| ensures words[1..][k] != "" {
            assert words[1..][k] == words[k + 1];
          }
        }
      }
      if NoEmptyPieces(words[1..]) && words[0] != "" {
        forall k | 0 <= k < |words| ensures words[k] != "" {
          if k > 0 {
            assert words[k] == words[1..][k - 1];
          }
        }
      }
    }
  }

  /** For a valid input and a newline-free banner that fits it, the older
      result is a newline followed by the newer one exactly when the input
      has no empty pieces: each empty piece costs the older renderer eight
      empty rows and the newer one nothing. */
  lemma AgreeExactly(input: string, lines: seq<string>)
    requires Valid(input) && Fits(lines, input) && NewlineFree(lines)
    ensures AsciiArt(input, lines) == [NL] + GenerateFromLines(lines, input)
        <==> NoEmptyPieces(Split(input))
  {
    var words := Split(input);
    if NoEmptyPieces(words) {
      Agree(input, lines);
    } else if AsciiArt(input, lines) == [NL] + GenerateFromLines(lines, input) {
      AsciiArtStructure(input, lines);
      OutputStructure(lines, input);
      CountAppend([NL], GenerateFromLines(lines, input), NL);
      NonEmptyCountFull(words);
      SplitPieces(input);
      assert false;
    }
  }

  /** The empty input: the older renderer writes nine newlines (its leading
      one, then eight empty rows for the one empty piece), the newer one
      writes nothing. */
  lemma EmptyInputDiffers(lines: seq<string>)
    ensures AsciiArt("", lines) == "\n\n\n\n\n\n\n\n\n"
    ensures Fits(lines, "") && GenerateFromLines(lines, "") == ""
  {
    assert Split("") == [""];
    forall i | 0 <= i < GlyphRows ensures LegacyRows(lines, "")[i] == "" {
    }
    assert LegacyRows(lines, "") == ["", "", "", "", "", "", "", ""];
    EightEmptyRows();
    assert LegacyWords(lines, [""]) == Terminated(LegacyRows(lines, "")) + LegacyWords(lines, [""][1..]);
    assert RenderLines(lines, [""]) == "" + RenderLines(lines, [""][1..]);
  }
}
