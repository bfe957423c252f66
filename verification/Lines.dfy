/**
  What a line reader with a bounded buffer returns: the pieces of a text, each up to a newline or
  as long as the buffer allows.
  */
module Lines {
  const NUL: char := '\0'
  const NEWLINE: char := '\n'

  /** `s` up to its first NUL, as the C library sees it. */
  function CString(s: string): (t: string)
    ensures t <= s && NUL !in t
    ensures t == s || s[|t|] == NUL
  {
    if s == [] || s[0] == NUL then [] else [s[0]] + CString(s[1..])
  }

  predicate EndsLine(p: string) {
    p != [] && p[|p| - 1] == NEWLINE && NUL !in p
  }

  /**
    `p` is what one call with a buffer of `size` characters may take from `rest`: no newline
    but the last character, unless hidden behind a NUL, and cut short only by a newline, the
    buffer or the end of the file.
    */
  predicate IsPiece(rest: string, size: nat, p: string) {
    && p <= rest && |p| < size
    && (forall i :: 0 <= i < |p| - 1 && p[i] == NEWLINE ==> NUL in p[..i])
    && (EndsLine(p) || |p| == size - 1 || p == rest)
  }

  lemma PieceIsUnique(rest: string, size: nat, p: string, q: string)
    requires IsPiece(rest, size, p) && IsPiece(rest, size, q)
    ensures p == q
  {
    if |p| < |q| {
      ShorterPieceLeavesNothing(rest, size, p, q);
    } else if |q| < |p| {
      ShorterPieceLeavesNothing(rest, size, q, p);
    }
  }

  lemma ShorterPieceLeavesNothing(rest: string, size: nat, p: string, q: string)
    requires IsPiece(rest, size, p) && IsPiece(rest, size, q)
    ensures |p| >= |q|
  {
    assert forall i :: 0 <= i < |p| && i < |q| ==> p[i] == rest[i] == q[i];
  }

  /** Cutting `rest` into such pieces, up to what is `left`. */
  predicate IsCut(rest: string, size: nat, pieces: seq<string>, left: string) {
    if pieces == [] then rest == left
    else
      && pieces[0] != [] && IsPiece(rest, size, pieces[0])
      && IsCut(rest[|pieces[0]|..], size, pieces[1..], left)
  }

  lemma {:induction false} CutFurther(rest: string, size: nat, pieces: seq<string>, left: string, p: string)
    requires IsCut(rest, size, pieces, left) && p != [] && IsPiece(left, size, p)
    ensures IsCut(rest, size, pieces + [p], left[|p|..])
  {
    if pieces == [] {
      assert (pieces + [p])[1..] == [];
    } else {
      CutFurther(rest[|pieces[0]|..], size, pieces[1..], left, p);
      assert (pieces + [p])[1..] == pieces[1..] + [p];
    }
  }

  function Concat(pieces: seq<string>): string {
    if pieces == [] then [] else pieces[0] + Concat(pieces[1..])
  }

  /** Nothing is lost, repeated or reordered. */
  lemma {:induction false} CutConcatenates(rest: string, size: nat, pieces: seq<string>)
    requires IsCut(rest, size, pieces, [])
    ensures Concat(pieces) == rest
  {
    if pieces != [] {
      CutConcatenates(rest[|pieces[0]|..], size, pieces[1..]);
    }
  }

  lemma {:induction false} CutIsUnique(rest: string, size: nat, ps: seq<string>, qs: seq<string>)
    requires IsCut(rest, size, ps, []) && IsCut(rest, size, qs, [])
    ensures ps == qs
  {
    if ps != [] && qs != [] {
      PieceIsUnique(rest, size, ps[0], qs[0]);
      CutIsUnique(rest[|ps[0]|..], size, ps[1..], qs[1..]);
    }
  }

  /** In a NUL-free file every piece is its own C string, and a newline can only be its end. */
  lemma {:induction false} PiecesOfText(rest: string, size: nat, pieces: seq<string>, k: nat)
    requires IsCut(rest, size, pieces, []) && NUL !in rest && k < |pieces|
    ensures pieces[k] != [] && CString(pieces[k]) == pieces[k]
    ensures NEWLINE !in pieces[k][..|pieces[k]| - 1]
    ensures k + 1 < |pieces| && |pieces[k]| < size - 1 ==> pieces[k][|pieces[k]| - 1] == NEWLINE
  {
    var p := pieces[0];
    if k > 0 {
      PiecesOfText(rest[|p|..], size, pieces[1..], k - 1);
    } else {
      assert forall i :: 0 <= i < |p| ==> p[i] == rest[i];
      assert k + 1 < |pieces| ==> rest[|p|..] != [];
    }
  }

  /** A line as the compiler writes them: it ends in its only newline and fits the buffer. */
  predicate IsLine(l: string, size: nat) {
    EndsLine(l) && |l| < size && NEWLINE !in l[..|l| - 1]
  }

  /** Lines that were written one after the other are read back as they were. */
  lemma {:induction false} WrittenLinesAreRead(lines: seq<string>, size: nat, pieces: seq<string>)
    requires forall k :: 0 <= k < |lines| ==> IsLine(lines[k], size)
    requires IsCut(Concat(lines), size, pieces, [])
    ensures pieces == lines
  {
    LinesAreACut(lines, size);
    CutIsUnique(Concat(lines), size, pieces, lines);
  }

  lemma {:induction false} LinesAreACut(lines: seq<string>, size: nat)
    requires forall k :: 0 <= k < |lines| ==> IsLine(lines[k], size)
    ensures IsCut(Concat(lines), size, lines, [])
  {
    if lines != [] {
      LinesAreACut(lines[1..], size);
      var l := lines[0];
      assert IsLine(l, size);
      assert Concat(lines)[|l|..] == Concat(lines[1..]);
      forall i | 0 <= i < |l| - 1
        ensures l[i] != NEWLINE
      {
        assert l[i] in l[..|l| - 1];
      }
    }
  }
}
