/** The input check the web handler runs before rendering: only newlines and
    printable 7-bit characters are accepted. */
module Validate {
  import opened Text
  import opened Glyphs

  /** A character the check lets through. */
  predicate Allowed(c: char)
  {
    c == NL || Printable(c)
  }

  /** Every character of `s` is allowed. */
  predicate Valid(s: string)
  {
    forall i :: 0 <= i < |s| ==> Allowed(s[i])
  }

  /** The check itself: scans left to right and rejects at the first
      character that is neither a newline nor in 32..126. */
  method ValidateInput(input: string) returns (ok: bool)
    ensures ok <==> Valid(input)
  {
    var i := 0;
    while i < |input|
      invariant 0 <= i <= |input|
      invariant forall k :: 0 <= k < i ==> Allowed(input[k])
    {
      var c := input[i];
      if c != NL && (c as int < 32 || c as int > 126) {
        return false;
      }
      i := i + 1;
    }
    return true;
  }

  /** The empty input is valid, and validity of a concatenation is validity
      of both halves. */
  lemma {:induction false} ValidAppend(a: string, b: string)
    ensures Valid("")
    ensures Valid(a + b) <==> Valid(a) && Valid(b)
  {
    if Valid(a + b) {
      forall i | 0 <= i < |a| ensures Allowed(a[i]) {
        assert a[i] == (a + b)[i];
      }
      forall i | 0 <= i < |b| ensures Allowed(b[i]) {
        assert b[i] == (a + b)[|a| + i];
      }
    }
  }

  /** In a valid input, every newline-separated piece consists of printable
      characters only. */
  lemma ValidPieces(s: string)
    requires Valid(s)
    ensures forall k, i :: 0 <= k < |Split(s)| && 0 <= i < |Split(s)[k]| ==> Printable(Split(s)[k][i])
  {
    var ps := Split(s);
    SplitPieces(s);
    forall k, i | 0 <= k < |ps| && 0 <= i < |ps[k]| ensures Printable(ps[k][i]) {
      var c := ps[k][i];
      assert c in ps[k];
      PieceCharsFrom(s, k, c);
      assert c != NL;
    }
  }
}
