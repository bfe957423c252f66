/**
  The compiler's memory file: a growable buffer with a position, and the line reader on top
  of it, which reads a full buffer ahead and then seeks back to the end of the line.
  */
module MemFile {
  import opened Lines

  datatype Whence = Start | Current | End

  // ----- The file -----

  /** `s` with `text` laid over it from `at` on; at the end that is an append. */
  function Overwritten(s: string, at: nat, text: string): string
    requires at <= |s|
  {
    s[..at] + text + (if at + |text| < |s| then s[at + |text|..] else [])
  }

  /**
    What is left in the buffer once the text read is terminated: `s` starts with the first `m`
    characters of `rest` and a NUL, `pos` is the first newline or NUL in it.
    */
  lemma TerminatedRead(rest: string, size: nat, s: string, m: nat, pos: nat)
    requires m <= |rest| && m < size && m < |s| && pos <= m
    requires m == size - 1 || m == |rest|
    requires s[..m] == rest[..m] && s[m] == NUL
    requires s[pos] == NEWLINE || s[pos] == NUL
    requires forall i :: 0 <= i < pos ==> s[i] != NEWLINE && s[i] != NUL
    ensures s[pos] == NUL ==> IsPiece(rest, size, rest[..m])
    ensures s[pos] == NUL ==> s[..m + 1] == rest[..m] + [NUL]
    ensures s[pos] == NEWLINE ==> pos < m && IsPiece(rest, size, rest[..pos + 1])
    ensures s[pos] == NEWLINE ==> s[pos + 1 := NUL][..pos + 2] == rest[..pos + 1] + [NUL]
  {
    assert forall i :: 0 <= i < m ==> s[i] == s[..m][i] == rest[..m][i] == rest[i];
    var p := rest[..m];
    assert rest[..|rest|] == rest;
    forall i | 0 <= i < m - 1 && p[i] == NEWLINE && s[pos] == NUL
      ensures NUL in p[..i]
    {
      assert p[..i][pos] == NUL;
    }
  }

  /** `strchr` on the terminated string in `s`. */
  method FindChar(s: array<char>, c: char) returns (pos: nat, found: bool)
    requires c != NUL && NUL in s[..]
    ensures pos < s.Length && s[pos] == if found then c else NUL
    ensures forall i :: 0 <= i < pos ==> s[i] != NUL && s[i] != c
  {
    pos := 0;
    while s[pos] != NUL && s[pos] != c
      invariant pos < s.Length
      invariant forall i :: 0 <= i < pos ==> s[i] != NUL && s[i] != c
      decreases s.Length - pos
    {
      ghost var k :| 0 <= k < s.Length && s[..][k] == NUL;
      pos := pos + 1;
    }
    found := s[pos] == c;
  }

  /**
    The second half of `mfgets`: terminates what was read and cuts it behind its first newline.
    `seek` is what has to be given back.
    */
  method Terminate(s: array<char>, size: nat, read: nat, ghost rest: string)
    returns (seek: int, ghost piece: string)
    requires 0 < read <= size <= s.Length && read <= |rest|
    requires read == size || read == |rest|
    requires s[..read] == rest[..read]
    modifies s
    ensures IsPiece(rest, size, piece) && seek == |piece| - read
    ensures 0 <= read + seek && seek <= 0
    ensures size >= 2 ==> piece != []
    ensures s[..|piece| + 1] == piece + [NUL]
    ensures s[size..] == old(s[size..])
  {
    hide IsPiece;
    seek := 0;
    if read < size {
      s[read] := NUL;
    } else {
      s[size - 1] := NUL;
      seek := -1;
    }
    ghost var m := read + seek;
    assert s[..m] == rest[..m] by {
      assert forall i :: 0 <= i < m ==> s[i] == old(s[..read][i]);
    }
    var pos, found := FindChar(s, NEWLINE);
    TerminatedRead(rest, size, s[..], m, pos);
    piece := if found then rest[..pos + 1] else rest[..m];
    if found {
      ghost var before := s[..];
      s[pos + 1] := NUL;
      assert s[..] == before[pos + 1 := NUL];
      seek := pos + 1 - read;
    }
    assert s[..|piece| + 1] == s[..][..|piece| + 1];
  }

  /** `strlen` */
  method Length(s: array<char>) returns (n: nat)
    requires NUL in s[..]
    ensures n <= s.Length && CString(s[..]) == s[..n]
  {
    n := 0;
    while s[n] != NUL
      invariant n < s.Length
      invariant forall i :: 0 <= i < n ==> s[i] != NUL
      decreases s.Length - n
    {
      ghost var k :| 0 <= k < s.Length && s[..][k] == NUL;
      n := n + 1;
    }
    assert NUL !in s[..n] && s[..][n] == NUL;
  }

  class File {
    var base: array<char>
    var offs: nat
    var usedoffs: nat

    ghost predicate Valid()
      reads this
    {
      offs <= usedoffs <= base.Length
    }

    ghost function Contents(): string
      requires Valid()
      reads this, base
    {
      base[..usedoffs]
    }

    constructor (init: nat)
      ensures Valid() && fresh(base) && base.Length == init
      ensures Contents() == [] && offs == 0
    {
      base := new char[init];
      offs, usedoffs := 0, 0;
    }

    /** `memfile_read` */
    method Read(buffer: array<char>, maxsize: nat) returns (n: nat)
      requires Valid() && maxsize <= buffer.Length && buffer != base
      modifies this`offs, buffer
      ensures Valid() && Contents() == old(Contents())
      ensures n == if maxsize < usedoffs - old(offs) then maxsize else usedoffs - old(offs)
      ensures offs == old(offs) + n
      ensures buffer[..n] == Contents()[old(offs)..offs]
      ensures buffer[n..] == old(buffer[n..])
    {
      if maxsize == 0 || offs >= usedoffs {
        assert buffer[..0] == Contents()[offs..offs];
        return 0;
      }
      n := maxsize;
      if usedoffs - offs < n {
        n := usedoffs - offs;
      }
      forall i | 0 <= i < n {
        buffer[i] := base[offs + i];
      }
      assert Contents() == old(Contents());
      forall i | 0 <= i < n
        ensures buffer[..n][i] == Contents()[offs..offs + n][i]
      {}
      assert buffer[..n] == Contents()[offs..offs + n];
      offs := offs + n;
    }

    /**
      `memfile_write` and `mfwrite`. `memory` tells whether the allocator can give the larger
      buffer; without it nothing happens.
      */
    method Write(text: string, memory: bool) returns (ok: bool)
      requires Valid()
      modifies this, base
      ensures Valid() && (base == old(base) || fresh(base))
      ensures ok <==> memory || old(offs) + |text| <= old(base.Length)
      ensures !ok ==> Contents() == old(Contents()) && offs == old(offs)
      ensures ok ==> offs == old(offs) + |text|
      ensures ok ==> Contents() == Overwritten(old(Contents()), old(offs), text)
    {
      if offs + |text| > base.Length {
        if !memory {
          return false;
        }
        Grow((base.Length + |text|) * 2);
      }
      forall i | 0 <= i < |text| {
        base[offs + i] := text[i];
      }
      offs := offs + |text|;
      if offs > usedoffs {
        usedoffs := offs;
      }
      ok := true;
    }

    /** `realloc` to a larger size. */
    method Grow(newsize: nat)
      requires Valid() && base.Length <= newsize
      modifies this`base
      ensures Valid() && fresh(base) && base.Length == newsize
      ensures Contents() == old(Contents())
    {
      var newbase := new char[newsize];
      forall i | 0 <= i < base.Length {
        newbase[i] := base[i];
      }
      base := newbase;
    }

    /** `mfseek`; the assertion on the end of the file is a demand on the caller. */
    method Seek(offset: int, whence: Whence) returns (pos: nat)
      requires Valid() && (whence == End ==> offset <= 0)
      modifies this`offs
      ensures Valid() && pos == offs
      ensures
        var wanted := match whence
          case Start => offset
          case Current => old(offs) + offset
          case End => usedoffs + offset;
        && (0 <= wanted <= usedoffs ==> pos == wanted)
        && (wanted < 0 ==> pos == 0)
        && (wanted > usedoffs ==> pos == usedoffs)
    {
      if usedoffs == 0 {
        return 0;
      }
      var target := offset;
      match whence {
        case Start =>
        case Current => target := target + offs;
        case End => target := target + usedoffs;
      }
      if target < 0 {
        target := 0;
      } else if target > usedoffs {
        target := usedoffs;
      }
      offs := target;
      pos := target;
    }

    /**
      `mfgets`: NULL (here `!some`) only at the end of the file or without a buffer; otherwise
      the buffer holds the next piece and a NUL, and the position is right behind the piece.
      */
    method Gets(s: array<char>, size: nat) returns (some: bool, ghost piece: string)
      requires Valid() && size <= s.Length && s != base
      modifies this`offs, s
      ensures Valid() && Contents() == old(Contents())
      ensures some <==> old(offs) < usedoffs && size > 0
      ensures !some ==> offs == old(offs) && s[..] == old(s[..])
      ensures some ==> IsPiece(Contents()[old(offs)..], size, piece)
      ensures some ==> offs == old(offs) + |piece|
      ensures some ==> s[..|piece| + 1] == piece + [NUL]
      ensures s[size..] == old(s[size..])
      ensures some && size >= 2 ==> piece != []
    {
      hide IsPiece;
      var read := Read(s, size);
      piece := [];
      if read == 0 {
        return false, [];
      }
      ghost var rest := Contents()[old(offs)..];
      var seek;
      seek, piece := Terminate(s, size, read, rest);
      if seek != 0 {
        var _ := Seek(seek, Current);
      }
      some := true;
    }

    /** `mfputs`: writes the string up to its NUL. */
    method Puts(s: array<char>, memory: bool) returns (ok: bool)
      requires Valid() && s != base && NUL in s[..]
      modifies this, base
      ensures Valid() && (base == old(base) || fresh(base))
      ensures ok <==> memory || old(offs) + |CString(s[..])| <= old(base.Length)
      ensures !ok ==> Contents() == old(Contents()) && offs == old(offs)
      ensures ok ==> offs == old(offs) + |CString(s[..])|
      ensures ok ==> Contents() == Overwritten(old(Contents()), old(offs), CString(s[..]))
    {
      var length := Length(s);
      ok := Write(s[..length], memory);
    }

    /**
      The assembler's pass over the file: back to the start, then line by line until there are
      no more. With a buffer of at least two characters it ends, and the pieces are the whole
      file, cut one way only.
      */
    method ReadAll(line: array<char>, size: nat) returns (ghost pieces: seq<string>)
      requires Valid() && 2 <= size <= line.Length && line != base
      modifies this`offs, line
      ensures Valid() && Contents() == old(Contents()) && offs == usedoffs
      ensures IsCut(Contents(), size, pieces, [])
    {
      pieces := [];
      var _ := Seek(0, Start);
      var some := true;
      while some
        invariant Valid() && Contents() == old(Contents())
        invariant !some ==> offs == usedoffs
        invariant IsCut(Contents(), size, pieces, Contents()[offs..])
        decreases usedoffs - offs, some
      {
        ghost var rest := Contents()[offs..];
        ghost var piece;
        some, piece := Gets(line, size);
        if some {
          CutFurther(Contents(), size, pieces, rest, piece);
          assert rest[|piece|..] == Contents()[offs..];
          pieces := pieces + [piece];
        }
      }
      assert Contents()[offs..] == [];
    }
  }
}
