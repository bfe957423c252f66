/**
  The cache of the INI writer. It holds no text, only a place in the old file (`mark`) and a
  length; when the lines that it stands for have to go out, they are read a second time.
  */
module IniCache {
  import opened IniBuffer
  import opened IniFile
  import opened IniText
  import opened Lines

  /** The first `n` characters of `rest` are whole reads. */
  predicate IsTiled(rest: string, n: nat)
    decreases n
  {
    || n == 0
    || (rest != [] && |Piece(rest)| <= n && IsTiled(rest[|Piece(rest)|..], n - |Piece(rest)|))
  }

  lemma NothingTiled(rest: string)
    ensures IsTiled(rest, 0)
  {}

  lemma HoldsNothing(cells: seq<char>)
    requires cells != [] && cells[0] == NUL
    ensures HoldsAt(cells, 0, [])
  {}

  lemma {:induction false} TiledFurther(content: string, mark: nat, n: nat)
    requires mark + n < |content| && IsTiled(content[mark..], n)
    ensures
      var p := Piece(content[mark + n..]);
      mark + n + |p| <= |content| && IsTiled(content[mark..], n + |p|)
    decreases n
  {
    hide FirstPiece;
    var rest := content[mark..];
    if n == 0 {
      assert IsTiled(rest[|Piece(rest)|..], 0);
    } else {
      var q := Piece(rest);
      assert rest[|q|..] == content[mark + |q|..];
      TiledFurther(content, mark + |q|, n - |q|);
    }
  }

  lemma NextTile(content: string, mark: nat, n: nat)
    requires mark + n <= |content| && IsTiled(content[mark..], n) && n > 0
    ensures
      var p := Piece(content[mark..]);
      && 0 < |p| <= n && IsTiled(content[mark + |p|..], n - |p|)
      && content[mark..mark + |p|] == p
  {
    hide FirstPiece;
    var p := Piece(content[mark..]);
    assert content[mark..][|p|..] == content[mark + |p|..];
    assert content[mark..][..|p|] == p;
  }

  /** The end of the string in the buffer, counting on from `pos`, but not beyond `size`. */
  method CountOn(buffer: array<char>, pos: nat, size: nat, ghost text: string) returns (next: nat)
    requires HoldsAt(buffer[..], 0, text) && NUL !in text && pos <= |text| <= size
    ensures next == |text|
  {
    hide HoldsAt;
    next := pos;
    HeldChar(buffer[..], 0, text, next);
    HeldChar(buffer[..], 0, text, |text|);
    while next < size && buffer[next] != NUL
      invariant pos <= next <= |text| < buffer.Length && buffer[next] == if next < |text| then text[next] else NUL
    {
      HeldChar(buffer[..], 0, text, next + 1);
      next := next + 1;
    }
    HeldChar(buffer[..], 0, text, next);
  }

  /** What is in the cache behind another line: the line joins what is there, or is alone if that is too much. */
  function WithLine(size: nat, line: string): nat {
    if size + |line| < BUFFERSIZE then size + |line| else |line|
  }

  /** What is in the cache when `rest` has been copied to its end. */
  function Cached(size: nat, rest: string): nat
    decreases |rest|
  {
    if rest == [] then size else Cached(WithLine(size, Piece(rest)), rest[|Piece(rest)|..])
  }

  lemma CachedNext(content: string, pos: nat, size: nat, line: string)
    requires pos <= |content| && (pos < |content| ==> line == Piece(content[pos..]))
    ensures pos == |content| ==> Cached(size, content[pos..]) == size
    ensures pos < |content| ==>
      && pos + |line| <= |content|
      && Cached(size, content[pos..]) == Cached(WithLine(size, line), content[pos + |line|..])
  {
    hide Piece, FirstPiece, WithLine;
    if pos < |content| {
      assert content[pos..][|line|..] == content[pos + |line|..];
    }
  }

  lemma {:induction false} CachedFits(size: nat, rest: string)
    ensures Cached(size, rest) <= size + |rest|
    decreases |rest|
  {
    hide FirstPiece;
    if rest != [] {
      CachedFits(WithLine(size, Piece(rest)), rest[|Piece(rest)|..]);
    }
  }

  class Rewrite {
    const rfp: File
    const wfp: File
    const buffer: array<char>
    var size: nat
    var mark: nat

    ghost predicate Valid()
      reads this, rfp, wfp
    {
      && rfp.Valid() && wfp.Valid() && rfp != wfp && buffer.Length == BUFFERSIZE
      && wfp.pos == |wfp.content|
      && size < BUFFERSIZE && mark + size <= |rfp.content| && IsTiled(rfp.content[mark..], size)
    }

    /** What has been written, and what the cache stands for. */
    ghost function Copied(): string
      requires Valid()
      reads this, rfp, wfp
    {
      wfp.content + rfp.content[mark..mark + size]
    }

    /** The cache reaches up to the next character to be read. */
    ghost predicate IsCaughtUp()
      reads this, rfp
    {
      rfp.pos == mark + size
    }

    constructor (from: File, to: File, cells: array<char>)
      requires from.Valid() && to.Valid() && from != to && to.content == [] && to.pos == 0 && cells.Length == BUFFERSIZE
      ensures Valid() && rfp == from && wfp == to && buffer == cells && size == 0 && mark == rfp.pos
    {
      rfp, wfp, buffer := from, to, cells;
      size, mark := 0, from.pos;
    }

    /** One read of the flushing loop: the next of the pending lines, behind the others. */
    method ReadBack(pos: nat) returns (next: nat)
      requires Valid() && pos < size && rfp.pos == mark + pos && IsTiled(rfp.content[mark + pos..], size - pos)
      requires HoldsAt(buffer[..], 0, rfp.content[mark..mark + pos])
      modifies rfp`pos, buffer
      ensures Valid() && pos < next <= size && rfp.pos == mark + next
      ensures IsTiled(rfp.content[mark + next..], size - next)
      ensures HoldsAt(buffer[..], 0, rfp.content[mark..mark + next])
    {
      hide HoldsAt, SameOutside, IsTiled, FirstPiece;
      NextTile(rfp.content, mark + pos, size - pos);
      SmallerBuffer(rfp.content[mark + pos..], BUFFERSIZE, BUFFERSIZE - pos);
      ghost var before := buffer[..];
      ghost var head := rfp.content[mark..mark + pos];
      assert rfp.Rest() == rfp.content[mark + pos..];
      var some, line := rfp.Read(buffer, pos, BUFFERSIZE - pos);
      assert line == rfp.content[mark + pos..mark + pos + |line|];
      Joined(before, buffer[..], head, pos, line, BUFFERSIZE);
      assert head + line == rfp.content[mark..mark + pos + |line|];
      assert NUL !in head + line;
      next := CountOn(buffer, pos, size, head + line);
    }

    /** `cache_flush`; the result tells whether a line ends here that is not alone and empty. */
    method Flush() returns (ended: bool)
      requires Valid()
      modifies this`size, this`mark, rfp`pos, wfp, buffer
      ensures Valid() && size == 0 && IsCaughtUp() && mark == old(mark + size)
      ensures wfp.content == old(Copied())
      ensures ended <==> old(size) > 1 && rfp.content[mark - 1] == NEWLINE
    {
      hide HoldsAt, IsTiled, FirstPiece;
      rfp.pos := mark;
      buffer[0] := NUL;
      var pos := 0;
      ghost var text := rfp.content[mark..mark + size];
      HoldsNothing(buffer[..]);
      assert rfp.content[mark..mark] == [];
      while pos < size
        invariant mark == old(mark) && size == old(size) && wfp.content == old(wfp.content)
        invariant Valid() && pos <= size && rfp.pos == mark + pos
        invariant IsTiled(rfp.content[mark + pos..], size - pos)
        invariant HoldsAt(buffer[..], 0, rfp.content[mark..mark + pos])
      {
        pos := ReadBack(pos);
      }
      HeldText(buffer[..], 0, text);
      HeldChar(buffer[..], 0, text, 0);
      ended := pos > 1 && buffer[pos - 1] == NEWLINE;
      if pos > 1 {
        HeldChar(buffer[..], 0, text, pos - 1);
      }
      if buffer[0] != NUL {
        wfp.Write(buffer[0..pos]);
      }
      mark, size := rfp.pos, 0;
      NothingTiled(rfp.content[mark..]);
    }

    /** `cache_accum` */
    method Accum(line: string) returns (ok: bool)
      modifies this`size
      ensures ok <==> old(size) + |line| < BUFFERSIZE
      ensures size == old(size) + if ok then |line| else 0
    {
      if size + |line| >= BUFFERSIZE {
        return false;
      }
      size := size + |line|;
      ok := true;
    }

    /** The cache is full: it is flushed and the line that did not fit is read again. */
    method FlushAndAccum(ghost line: string)
      requires Valid() && mark + size < |rfp.content| && line == Piece(rfp.content[mark + size..])
      modifies this`size, this`mark, rfp`pos, wfp, buffer
      ensures Valid() && IsCaughtUp() && mark == old(mark + size) && size == |line|
      ensures wfp.content == old(Copied())
    {
      hide IsTiled, FirstPiece, HoldsAt, SameOutside;
      var _ := Flush();
      TiledFurther(rfp.content, mark, 0);
      assert rfp.Rest() == rfp.content[mark..];
      var _, again := rfp.Read(buffer, 0, BUFFERSIZE);
      var _ := Accum(again);
    }

    /** Copies the line that was just read; a full cache is flushed and the line read again. */
    method CopyLine(line: string)
      requires Valid() && mark + size < |rfp.content| && line == Piece(rfp.content[mark + size..])
      requires rfp.pos == mark + size + |line|
      modifies this`size, this`mark, rfp`pos, wfp, buffer
      ensures Valid() && IsCaughtUp() && rfp.pos == old(rfp.pos)
      ensures Copied() == old(Copied()) + line
      ensures size == WithLine(old(size), line)
    {
      hide IsTiled, FirstPiece, HoldsAt, SameOutside;
      ghost var at := mark + size;
      TiledFurther(rfp.content, mark, size);
      LineIsNext(rfp.content, mark, at, line);
      var ok := Accum(line);
      if ok {
        ghost var content := rfp.content;
        assert wfp.content + content[mark..at] + line == wfp.content + (content[mark..at] + line);
      } else {
        FlushAndAccum(line);
      }
    }
  }

  lemma LineIsNext(content: string, mark: nat, at: nat, line: string)
    requires mark <= at && at + |line| <= |content| && line <= content[at..]
    ensures content[at..at + |line|] == line
    ensures content[mark..at + |line|] == content[mark..at] + line
  {
    assert content[at..][..|line|] == line;
  }
}
