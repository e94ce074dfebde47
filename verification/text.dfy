/** Plain-text helpers shared by both renderers: splitting on the newline
    character (Go's `strings.Split(s, "\n")`), its inverse, newline counting,
    and the row-writing pattern "each row followed by one newline". */
module Text {

  const NL: char := '\n'

  /** Number of occurrences of `c` in `s`. */
  function Count(s: string, c: char): (n: nat)
  {
    if |s| == 0 then 0 else (if s[0] == c then 1 else 0) + Count(s[1..], c)
  }

  /** Counting agrees with the multiset of characters, and so cannot exceed the length. */
  lemma {:induction false} CountIsMultiplicity(s: string, c: char)
    ensures Count(s, c) == multiset(s)[c]
    ensures Count(s, c) <= |s|
  {
    if |s| > 0 {
      CountIsMultiplicity(s[1..], c);
      assert s == [s[0]] + s[1..];
      assert multiset(s) == multiset([s[0]]) + multiset(s[1..]);
    }
  }

  /** Counting is additive over concatenation. */
  lemma {:induction false} CountAppend(a: string, b: string, c: char)
    ensures Count(a + b, c) == Count(a, c) + Count(b, c)
  {
    if |a| == 0 {
      assert a + b == b;
    } else {
      assert (a + b)[1..] == a[1..] + b;
      CountAppend(a[1..], b, c);
    }
  }

  /** A string without `c` has count zero, and conversely. */
  lemma {:induction false} CountZero(s: string, c: char)
    ensures Count(s, c) == 0 <==> c !in s
  {
    if |s| > 0 {
      CountZero(s[1..], c);
      assert s == [s[0]] + s[1..];
    }
  }

  /** The pieces joined back together with one newline between neighbours
      (Go's `strings.Join(pieces, "\n")`). */
  function Join(pieces: seq<string>): (s: string)
  {
    if |pieces| == 0 then ""
    else if |pieces| == 1 then pieces[0]
    else pieces[0] + [NL] + Join(pieces[1..])
  }

  /** Prefixing the first piece prefixes the joined string. */
  lemma {:induction false} JoinPrefixFirst(a: string, pieces: seq<string>)
    requires |pieces| >= 1
    ensures Join([a + pieces[0]] + pieces[1..]) == a + Join(pieces)
  {
    var ps := [a + pieces[0]] + pieces[1..];
    assert ps[1..] == pieces[1..];
    if |pieces| > 1 {
      assert Join(ps) == (a + pieces[0]) + [NL] + Join(pieces[1..]);
    }
  }

  /** The pieces of `s` between newlines, in order. There is always at least
      one piece: the empty string splits into one empty piece, and a leading,
      trailing or doubled newline yields an empty piece. */
  function Split(s: string): (pieces: seq<string>)
    ensures |pieces| >= 1
  {
    if |s| == 0 then [""] else Step(s[0], Split(s[1..]))
  }

  /** The pieces of `[x] + t` from those of `t`: a newline starts a new
      empty first piece, any other character extends the first piece. */
  function Step(x: char, rest: seq<string>): (pieces: seq<string>)
    requires |rest| >= 1
    ensures |pieces| >= 1
  {
    if x == NL then [""] + rest else [[x] + rest[0]] + rest[1..]
  }

  /** A step only touches the first piece. */
  lemma StepAppend(x: char, p: seq<string>, q: seq<string>)
    requires |p| >= 1
    ensures Step(x, p + q) == Step(x, p) + q
  {
    if x != NL {
      assert (p + q)[0] == p[0];
      assert (p + q)[1..] == p[1..] + q;
    }
  }

  /** There is one more piece than there are newlines, and no piece holds a
      newline. */
  lemma {:induction false} SplitPieces(s: string)
    ensures |Split(s)| == Count(s, NL) + 1
    ensures forall k :: 0 <= k < |Split(s)| ==> NL !in Split(s)[k]
  {
    if |s| > 0 {
      SplitPieces(s[1..]);
      var rest := Split(s[1..]);
      if s[0] != NL {
        assert forall k :: 1 <= k < |Split(s)| ==> Split(s)[k] == rest[k];
      }
    }
  }

  /** Round trip: joining the pieces gives back the split string. */
  lemma {:induction false} JoinSplit(s: string)
    ensures Join(Split(s)) == s
  {
    if |s| > 0 {
      JoinSplit(s[1..]);
      var rest := Split(s[1..]);
      assert s == [s[0]] + s[1..];
      if s[0] == NL {
        assert ([""] + rest)[1..] == rest;
      } else {
        JoinPrefixFirst([s[0]], rest);
      }
    }
  }

  /** A newline-free string is a single piece. */
  lemma {:induction false} SplitNoNewline(s: string)
    requires NL !in s
    ensures Split(s) == [s]
  {
    if |s| > 0 {
      assert NL !in s[1..];
      SplitNoNewline(s[1..]);
      assert s == [s[0]] + s[1..];
    }
  }

  /** One step of splitting: a leading newline starts a new empty piece,
      any other character extends the first piece. */
  lemma SplitCons(x: char, t: string)
    ensures Split([x] + t) == Step(x, Split(t))
  {
    assert ([x] + t)[1..] == t;
  }

  /** Splitting distributes over a separating newline: the pieces of
      `a + "\n" + b` are those of `a` followed by those of `b`. */
  lemma {:induction false} SplitAppend(a: string, b: string)
    ensures Split(a + [NL] + b) == Split(a) + Split(b)
  {
    if |a| == 0 {
      assert a + [NL] + b == [NL] + b;
      SplitCons(NL, b);
    } else {
      SplitAppend(a[1..], b);
      SplitAppendStep(a[0], a[1..], b);
      assert [a[0]] + a[1..] == a;
      assert [a[0]] + (a[1..] + [NL] + b) == a + [NL] + b;
    }
  }

  /** The inductive step of `SplitAppend`, on its own to keep it small. */
  lemma SplitAppendStep(x: char, t: string, b: string)
    requires Split(t + [NL] + b) == Split(t) + Split(b)
    ensures Split([x] + (t + [NL] + b)) == Split([x] + t) + Split(b)
  {
    SplitCons(x, t + [NL] + b);
    SplitCons(x, t);
    StepAppend(x, Split(t), Split(b));
  }

  /** Round trip: newline-free pieces survive joining and splitting. */
  lemma {:induction false} SplitJoin(pieces: seq<string>)
    requires |pieces| >= 1
    requires forall k :: 0 <= k < |pieces| ==> NL !in pieces[k]
    ensures Split(Join(pieces)) == pieces
  {
    if |pieces| == 1 {
      SplitNoNewline(pieces[0]);
    } else {
      SplitJoin(pieces[1..]);
      SplitAppend(pieces[0], Join(pieces[1..]));
      SplitNoNewline(pieces[0]);
      assert pieces == [pieces[0]] + pieces[1..];
    }
  }

  /** Every character of a piece occurs in the split string. */
  lemma PieceCharsFrom(s: string, k: int, c: char)
    requires 0 <= k < |Split(s)| && c in Split(s)[k]
    ensures c in s
  {
    JoinSplit(s);
    JoinedChars(Split(s), k, c);
  }

  /** Every character of a piece occurs in the joined string. */
  lemma {:induction false} JoinedChars(pieces: seq<string>, k: int, c: char)
    requires 0 <= k < |pieces| && c in pieces[k]
    ensures c in Join(pieces)
  {
    if |pieces| > 1 && k > 0 {
      JoinedChars(pieces[1..], k - 1, c);
    }
  }

  /** Concatenation of a sequence of strings, in order. */
  function Flatten(ss: seq<string>): (s: string)
  {
    if |ss| == 0 then "" else ss[0] + Flatten(ss[1..])
  }

  lemma {:induction false} FlattenAppend(a: seq<string>, b: seq<string>)
    ensures Flatten(a + b) == Flatten(a) + Flatten(b)
  {
    if |a| == 0 {
      assert a + b == b;
    } else {
      assert (a + b)[1..] == a[1..] + b;
      FlattenAppend(a[1..], b);
    }
  }

  /** Each row written out followed by one newline (the `WriteString` then
      `WriteByte('\n')` pattern of the renderer). */
  function Terminated(rows: seq<string>): (text: string)
  {
    if |rows| == 0 then "" else rows[0] + [NL] + Terminated(rows[1..])
  }

  /** Writing rows back to back writes each group in turn. */
  lemma {:induction false} TerminatedAppend(a: seq<string>, b: seq<string>)
    ensures Terminated(a + b) == Terminated(a) + Terminated(b)
  {
    if |a| == 0 {
      assert a + b == b;
    } else {
      assert (a + b)[1..] == a[1..] + b;
      TerminatedAppend(a[1..], b);
    }
  }

  /** Newline-terminated rows are the rows joined with a final empty piece. */
  lemma {:induction false} TerminatedIsJoin(rows: seq<string>)
    ensures Terminated(rows) == Join(rows + [""])
  {
    if |rows| > 0 {
      TerminatedIsJoin(rows[1..]);
      assert (rows + [""])[1..] == rows[1..] + [""];
    }
  }

  /** Reading newline-terminated rows back: splitting recovers every row, in
      order, followed by one empty piece after the final newline; so the text
      holds exactly one newline per row. */
  lemma TerminatedSplit(rows: seq<string>)
    requires forall k :: 0 <= k < |rows| ==> NL !in rows[k]
    ensures Split(Terminated(rows)) == rows + [""]
    ensures Count(Terminated(rows), NL) == |rows|
  {
    TerminatedIsJoin(rows);
    var ps := rows + [""];
    assert forall k :: 0 <= k < |ps| ==> NL !in ps[k];
    SplitJoin(ps);
    SplitPieces(Terminated(rows));
  }
}
