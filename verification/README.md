# Banner ASCII-art renderer — Dafny model

This project models the rendering core of the Ascii-Art-Web service. That core turns input text into large block letters, drawing the glyphs from a banner file. A banner is a sequence of text lines. Each printable 7-bit character (codes 32 to 126) owns a slot of nine consecutive lines that starts at `(code - 32) * 9`. The renderers draw rows 1 to 8 of each slot and never read row 0.

The model covers three pieces of Go code:

- `generateASCIIArt` in main.go is the renderer the web handler calls. It splits the input on newlines and skips empty lines. Every other line becomes eight rows. Row `j` is the banner line `(c - 32) * 9 + j` for each character `c` of the line in 32..126, placed side by side and followed by a newline. Other characters are skipped.
- `validateInput` in main.go is the check the handler runs first. It accepts a string exactly when every character is a newline or in 32..126.
- `AsciiArt` with `GetAsciiLine` in src/asciiart/asciiart.go is an older renderer. It starts its result with a newline and renders every piece of the input, empty ones included. It looks up `1 + (c - ' ') * 9 + i` for every character without a range check. A line number outside the banner reads as the empty string.

Modules:

- `Text` models Go's `strings.Split(s, "\n")` as `Text.Split`, together with its inverse `Text.Join`, newline counting, and the "row, then newline" writing pattern `Text.Terminated`.
- `Glyphs` holds the slot layout and the predicate `Fits`, which says the banner has every line the renderer reads for the input.
- `Validate` models `validateInput` as `Validate.ValidateInput`.
- `Render` models `generateASCIIArt`. `Render.GenerateAsciiArt` takes the banner file's text and splits it into lines. `Render.GenerateFromLines` does the rendering on a given line sequence.
- `Legacy` models `AsciiArt` as `Legacy.AsciiArt`. `Legacy.GetAsciiLine` is the line-scanning lookup. `Legacy.LineAt` is the pure lookup the renderer uses, and it returns the same line as the scan.
- `Agreement` says where the two renderers agree and where they differ.

Modelling choices:

- A banner is a `seq<string>` of lines.
- The input is a `seq<char>` of code points.
- `generateASCIIArt` indexes its banner slice without a check, so a Go slice panic becomes the precondition `Fits(banner, input)`. `FullBannerFits` shows that every banner of at least 855 lines meets it. It also shows that a banner meets it for `'~'` exactly when it has 855 lines or more.
- Go's integer arithmetic cannot overflow here. Code points stop at 0x10FFFF, so `(c - 32) * 9 + j` stays far inside both `int` and `rune`. The model therefore uses unbounded integers.

Two behaviours of the Go code are easy to miss:

- Characters outside 32..126 add no column to any row (`Render.RowIgnoresUnprintable`). Deleting them from the whole input can still change the output. A line made only of such characters renders as eight empty rows, and once they are deleted it renders as nothing (`Render.StripPreservesOutput`, `Render.TabOnlyLine`).
- Only `AsciiArt` writes a leading newline. `generateASCIIArt` starts with the first row (`Agreement.EmptyInputDiffers`, `Agreement.Agree`).

## Model

| member | source | states |
|---|---|---|
| Text.SplitPieces | main.go:39 | The input splits into one more piece than it has newlines, and no piece contains a newline. |
| Text.JoinSplit | main.go:39 | Joining the pieces back with newlines reproduces the input exactly. |
| Text.SplitJoin | main.go:42 | A banner written as newline-free lines splits back into exactly those lines. |
| Text.SplitAppend | main.go:39 | The pieces of `a + "\n" + b` are the pieces of `a` followed by the pieces of `b`. |
| Text.TerminatedSplit | main.go:60-61 | Rows written each followed by a newline read back as the same rows plus one trailing empty piece, so the text holds exactly one newline per row. |
| Glyphs.SlotIndex | main.go:56-57 | For a character in 32..126 and a row in 1..8, the banner index read lies in 1..854 and is never row 0 of a slot. |
| Glyphs.SlotInjective | main.go:56-57 | Distinct (character, row) pairs read distinct banner lines. |
| Glyphs.SlotSurjective | main.go:51-57 | Every banner line in 1..854 other than a slot's row 0 is read for some printable character and row. |
| Glyphs.FitsIndex | main.go:56-57 | When the banner fits the input, every index read for the input's printable characters is in range. |
| Glyphs.FullBannerFits | main.go:56-57 | A banner of at least 855 lines fits every input, and it fits `'~'` exactly when it has 855 lines or more. |
| Validate.ValidateInput | main.go:85-93 | The check returns true exactly when every character is a newline or in 32..126. |
| Validate.ValidAppend | main.go:85-93 | The empty string is valid, and `a + b` is valid exactly when both `a` and `b` are. |
| Validate.ValidPieces | main.go:39 | Every newline-separated piece of a valid input is made only of characters in 32..126. |
| Render.Keep | main.go:55 | The characters that pass the range check are all in 32..126. |
| Render.KeepCounts | main.go:55 | The range check keeps every character in 32..126 as often as it occurs, and drops every other character. |
| Render.KeepIdentity | main.go:55 | The range check leaves a line unchanged exactly when all its characters are in 32..126. |
| Render.RowIsPieces | main.go:51-58 | Row `j` of a line is the in-order concatenation of banner lines `(c - 32) * 9 + j`, one per character in 32..126. |
| Render.RowIgnoresUnprintable | main.go:55 | Characters outside 32..126 contribute no column: deleting them from a line leaves every row unchanged. |
| Render.ValidKeepsEveryCharacter | main.go:53-58 | For a valid input, the range check drops nothing, and each row of each line has exactly one banner piece per character. |
| Render.SingleCharacter | main.go:44-63 | A single printable character renders as its eight glyph rows, each followed by a newline. |
| Render.BannerTextRoundTrip | main.go:42 | Rendering with a banner file's text gives the same output as rendering with the line sequence the file was written from. |
| Render.Compose | main.go:44-63 | Rendering `a + "\n" + b` gives the rendering of `a` followed by the rendering of `b`. |
| Render.EmptyInputRendersNothing | main.go:44-47 | The empty input renders to nothing. |
| Render.LeadingNewlineVanishes | main.go:44-47 | A leading newline does not change the output. |
| Render.TrailingNewlineVanishes | main.go:44-47 | A trailing newline does not change the output. |
| Render.DoubledNewlineVanishes | main.go:44-47 | A blank line between two lines does not change the output. |
| Render.RenderLinesAppend | main.go:44-63 | Rendering a sequence of lines renders each part in turn. |
| Render.RowNewlineFree | main.go:53-58 | A row drawn from a newline-free banner contains no newline. |
| Render.RenderLinesTerminated | main.go:44-63 | The output is its rows, each followed by a newline. |
| Render.OutputRowsCount | main.go:44-51 | There are eight rows per non-empty input line. |
| Render.OutputStructure | main.go:44-63 | Read back line by line, the output is the eight rows of each non-empty input line in order, so it holds 8 × (non-empty lines) newlines. |
| Render.BlockStructure | main.go:51-62 | The block for one line reads back as its eight rows, with exactly eight newlines. |
| Render.SplitStrip | main.go:39 | Deleting characters outside 32..126 (keeping newlines) from the input deletes them from each of its lines. |
| Render.KeepEachNonEmpty | main.go:44-47 | Applying the range check never increases the number of non-empty lines, and keeps it the same exactly when no line vanishes. |
| Render.StripPreservesOutput | main.go:44-58 | Deleting characters outside 32..126 from the input leaves the output unchanged exactly when no line consists only of such characters. |
| Render.TabOnlyLine | main.go:44-62 | A line holding one tab renders as eight empty rows. Deleting the tab leaves an empty input, which renders as nothing. |
| Legacy.GetAsciiLine | src/asciiart/asciiart.go:17-25 | The scan returns the `num`-th line (counting from 0) when `0 <= num < line count`, and the empty string otherwise, including for negative `num`. |
| Legacy.LookupMatchesScan | src/asciiart/asciiart.go:10-26 | The pure lookup used by the renderer returns what the scanning lookup returns. |
| Legacy.LegacySlot | src/asciiart/asciiart.go:38 | `1 + (c - ' ') * 9 + i` is the slot index of row `i + 1`, and it is negative for every character below the space. |
| Legacy.LegacyRowIsLookups | src/asciiart/asciiart.go:36-39 | Row `i` of a piece is the in-order concatenation of the lookups at `1 + (c - 32) * 9 + i` over all of its characters, with no filtering. |
| Legacy.UnprintableContributesNothing | src/asciiart/asciiart.go:20-21 | A character below the space always contributes the empty string. With a banner of at most 856 lines, so does every character outside 32..126. An 855-line file that ends in a newline splits into 856 lines, and the lowest line a character above 126 reads is 856. |
| Legacy.LegacyWordsRows | src/asciiart/asciiart.go:34-43 | Every piece, empty or not, writes exactly eight newline-terminated rows. |
| Legacy.AsciiArtStartsWithNewline | src/asciiart/asciiart.go:32 | Whatever the input and the banner, the result is non-empty and its first character is a newline. |
| Legacy.AsciiArtStructure | src/asciiart/asciiart.go:28-46 | The result begins with a newline and reads back as one empty line, then eight rows per piece, so it holds 1 + 8 × (newlines in input + 1) newlines. |
| Agreement.RowsAgree | src/asciiart/asciiart.go:36-39 | On a line the banner fits, if the characters are printable or the banner has at most 856 lines, row `i` of the older renderer equals row `i + 1` of the newer one. |
| Agreement.WordsAgree | src/asciiart/asciiart.go:35-43 | On non-empty pieces the two renderers write the same text. |
| Agreement.Agree | src/asciiart/asciiart.go:32-43 | For an input with no empty pieces that is valid (or whose banner has at most 856 lines), the older result is a newline followed by the newer result. |
| Agreement.AgreeExactly | src/asciiart/asciiart.go:32-43 | For a valid input and a newline-free banner, that agreement holds exactly when the input has no empty pieces. |
| Agreement.EmptyInputDiffers | src/asciiart/asciiart.go:32-43 | For the empty input the older renderer writes nine newlines and the newer one writes nothing. |
| Agreement.NonEmptyCountFull | main.go:44-47 | The number of non-empty lines equals the number of lines exactly when no line is empty. |

## Left out

- The HTTP handlers, template parsing and execution, route registration, the server goroutine and the signal-based shutdown (main.go:69-82, 96-162) are network I/O, concurrency and library plumbing.
- `loadBanner` (main.go:26-32) reads a file. The model takes the banner's text or its lines as a parameter. The "banner not found" error belongs to the handler and is not modelled.
- `GetAsciiLine` opens a file and exits the process when it is missing (src/asciiart/asciiart.go:11-16). The model scans a given line sequence instead. The banner path built in `AsciiArt` (src/asciiart/asciiart.go:30) is not modelled either.
- The model does not distinguish `bufio.Scanner` from `strings.Split`. The scanner strips `\r`, drops a final empty line and limits token size.
- UTF-8 decoding in `strings.Split(line, "")` and `[]rune` (main.go:50, 54) is not modelled. The input is a sequence of code points, so invalid UTF-8 is not represented.
- The handler turns `"\r\n"` into `"\n"` (main.go:105). That step is outside the renderer.
- A banner too short for the input makes Go panic (main.go:57). The model states this as the precondition `Fits` of `Render.GenerateFromLines` rather than as a failure result.

