/** Banner layout: a banner is the sequence of lines of a banner file. Each
    printable 7-bit character (codes 32 to 126) owns a slot of nine
    consecutive lines starting at `(code - 32) * 9`; the renderers draw rows
    1 to 8 of the slot and never read row 0. */
module Glyphs {

  const FirstPrintable: int := 32
  const LastPrintable: int := 126
  /** Lines per slot, including the unused row 0. */
  const SlotHeight: int := 9
  /** Rows drawn per glyph. */
  const GlyphRows: int := 8
  const GlyphCount: int := LastPrintable - FirstPrintable + 1
  /** Lines a banner needs to hold every slot: 95 slots of nine lines. */
  const FullBannerLines: int := GlyphCount * SlotHeight

  /** Characters the renderer draws: codes 32 (space) to 126 (tilde). */
  predicate Printable(c: char)
  {
    FirstPrintable <= c as int <= LastPrintable
  }

  /** A drawn row number within a slot. */
  predicate IsRow(j: int)
  {
    1 <= j <= GlyphRows
  }

  /** The banner line holding row `j` of the glyph for `c`. For a printable
      character and a drawn row it lies in 1..854, is never a slot's row 0,
      and is inside every banner of 855 lines. */
  function SlotIndex(c: char, j: int): (idx: int)
    ensures Printable(c) && IsRow(j) ==> 1 <= idx < FullBannerLines
    ensures Printable(c) && IsRow(j) ==> idx % SlotHeight != 0
  {
    (c as int - FirstPrintable) * SlotHeight + j
  }

  /** Decoding a banner line number back to its character and row. */
  lemma SlotDecode(c: char, j: int)
    requires Printable(c) && IsRow(j)
    ensures SlotIndex(c, j) / SlotHeight == c as int - FirstPrintable
    ensures SlotIndex(c, j) % SlotHeight == j
  {
  }

  /** Distinct (character, row) pairs read distinct banner lines. */
  lemma SlotInjective(c: char, j: int, d: char, k: int)
    requires Printable(c) && IsRow(j) && Printable(d) && IsRow(k)
    requires SlotIndex(c, j) == SlotIndex(d, k)
    ensures c == d && j == k
  {
    SlotDecode(c, j);
    SlotDecode(d, k);
  }

  /** Every banner line in 1..854 other than a slot's row 0 is read for
      exactly one printable character and drawn row. */
  lemma SlotSurjective(idx: int)
    requires 1 <= idx < FullBannerLines && idx % SlotHeight != 0
    ensures exists c: char, j :: Printable(c) && IsRow(j) && SlotIndex(c, j) == idx
  {
    var code := idx / SlotHeight + FirstPrintable;
    var c := code as char;
    var j := idx % SlotHeight;
    assert SlotIndex(c, j) == idx;
  }

  /** The banner has every line the renderer reads for the printable
      characters of `s` (the highest being row 8 of each slot). */
  predicate Fits(banner: seq<string>, s: string)
  {
    forall c :: c in s && Printable(c) ==> SlotIndex(c, GlyphRows) < |banner|
  }

  /** Under `Fits`, every drawn row of every printable character of `s` is a
      valid banner index. */
  lemma FitsIndex(banner: seq<string>, s: string, c: char, j: int)
    requires Fits(banner, s) && c in s && Printable(c) && IsRow(j)
    ensures 0 <= SlotIndex(c, j) < |banner|
  {
  }

  /** A banner of at least 855 lines fits every input; and a banner fits the
      highest character '~' exactly when it has 855 lines or more. */
  lemma FullBannerFits(banner: seq<string>, s: string)
    ensures |banner| >= FullBannerLines ==> Fits(banner, s)
    ensures Fits(banner, "~") <==> |banner| >= FullBannerLines
  {
    assert '~' in "~";
  }
}
