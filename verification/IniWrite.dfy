/**
  INI files as they are written: the file is copied line by line through a cache that is the
  line buffer itself, re-read from a mark whenever it is full.
  */
module IniWrite {
  import opened IniBuffer
  import opened IniCache
  import opened IniFile
  import opened IniText
  import opened Lines
  import opened Wrappers

  // ----- The lines that are written -----

  function KeyText(key: string): (k: string)
    ensures |k| <= BUFFERSIZE - 4
  {
    Take(key, BUFFERSIZE - 4)
  }

  /** The room for the value behind the key and the separator. */
  function ValueRoom(key: string): (n: nat)
    ensures n > 0
  {
    BUFFERSIZE - (|KeyText(key)| + 1) - 2
  }

  function KeyLine(key: string, value: string): string {
    KeyText(key) + ['='] + WrittenValue(value, ValueRoom(key)) + [NEWLINE]
  }

  function SectionLine(section: string): string {
    ['['] + Take(section, BUFFERSIZE - 5) + [']', NEWLINE]
  }

  /** `check_enquote` */
  method CheckEnquote(value: string) returns (option: QuoteOption)
    ensures option == if NeedsQuotes(value) then Enquote else NoQuotes
  {
    var p := 0;
    while p < |value| && value[p] != '"' && value[p] != ';' && value[p] != '#'
      invariant p <= |value| && forall i :: 0 <= i < p ==> !IsSpecial(value[i])
    {
      p := p + 1;
    }
    option := if p < |value| || (p > 0 && value[p - 1] == ' ') then Enquote else NoQuotes;
  }

  lemma {:induction false} WrittenFits(source: string, maxlen: nat, option: QuoteOption)
    requires maxlen > 0 && option != Dequote && NUL !in source
    ensures |Copied(source, maxlen, option)| < maxlen && NUL !in Copied(source, maxlen, option)
  {
    if option == Enquote && maxlen >= 3 {
      FittingIsLongest(source, maxlen - 3);
      EscapedIsText(source[..IniText.Fitting(source, maxlen - 3)]);
    }
  }

  lemma {:induction false} EscapedIsText(v: string)
    requires NUL !in v
    ensures NUL !in Escaped(v)
  {
    if v != [] {
      EscapedIsText(v[1..]);
    }
  }

  /** One more character at the end of the terminated string `s`. */
  method Append(buffer: array<char>, end: nat, c: char, ghost s: string)
    requires end == |s| && end + 1 < buffer.Length && HoldsAt(buffer[..], 0, s)
    modifies buffer
    ensures HoldsAt(buffer[..], 0, s + [c])
  {
    assert buffer[..][0..|s|] == s;
    buffer[end] := c;
    buffer[end + 1] := NUL;
    assert buffer[..][0..|s|] == s;
  }

  lemma CopiedPlain(s: string, n: int)
    ensures Copied(s, n, NoQuotes) == Take(s, n - 1)
  {}

  /** One character, and behind it a place that was written to afterwards. */
  lemma HeldBefore(start: seq<char>, cells: seq<char>, c: char, end: nat)
    requires |start| > 1 && start[0] == c && end > 1 && SameOutside(start, cells, 1, end)
    ensures HoldsAt(start[1 := NUL], 0, [c]) && SameOutside(start[1 := NUL], cells, 1, end)
  {}

  /** `writekey` without a file: the line of a setting, in the buffer. */
  method WriteKey(buffer: array<char>, key: string, value: string) returns (line: string)
    requires buffer.Length == BUFFERSIZE && NUL !in key && NUL !in value
    modifies buffer
    ensures line == KeyLine(key, value) && HoldsAt(buffer[..], 0, line)
    ensures NUL !in line && |line| < BUFFERSIZE - 1
  {
    hide HoldsAt, SameOutside, NeedsQuotes, Copied;
    var option := CheckEnquote(value);
    SaveStrncpy(buffer, 0, key, BUFFERSIZE - 3, NoQuotes);
    ghost var k := KeyText(key);
    CopiedPlain(key, BUFFERSIZE - 3);
    WrittenFits(key, BUFFERSIZE - 3, NoQuotes);
    var p := LengthAt(buffer, 0, k);
    Append(buffer, p, '=', k);
    p := p + 1;
    ghost var before := buffer[..];
    SaveStrncpy(buffer, p, value, BUFFERSIZE - p - 2, option);
    ghost var v := WrittenValue(value, ValueRoom(key));
    WrittenFits(value, BUFFERSIZE - p - 2, option);
    Joined(before, buffer[..], k + ['='], p, v, p + (BUFFERSIZE - p - 2));
    p := LengthAt(buffer, 0, k + ['='] + v);
    Append(buffer, p, NEWLINE, k + ['='] + v);
    HeldText(buffer[..], 0, KeyLine(key, value));
    line := buffer[0..p + 1];
  }

  /** `writesection` without a file. */
  method WriteSection(buffer: array<char>, section: string) returns (line: string)
    requires buffer.Length == BUFFERSIZE && NUL !in section
    modifies buffer
    ensures line == SectionLine(section) && NUL !in line && |line| < BUFFERSIZE - 1
  {
    hide HoldsAt, SameOutside, Copied;
    buffer[0] := '[';
    ghost var start := buffer[..];
    ghost var before := start[1 := NUL];
    SaveStrncpy(buffer, 1, section, BUFFERSIZE - 4, NoQuotes);
    ghost var s := Take(section, BUFFERSIZE - 5);
    CopiedPlain(section, BUFFERSIZE - 4);
    WrittenFits(section, BUFFERSIZE - 4, NoQuotes);
    HeldBefore(start, buffer[..], '[', BUFFERSIZE - 3);
    Joined(before, buffer[..], ['['], 1, s, BUFFERSIZE - 3);
    var p := LengthAt(buffer, 0, ['['] + s);
    Append(buffer, p, ']', ['['] + s);
    Append(buffer, p + 1, NEWLINE, ['['] + s + [']']);
    assert ['['] + s + [']'] + [NEWLINE] == SectionLine(section);
    HeldText(buffer[..], 0, SectionLine(section));
    line := buffer[0..p + 2];
  }

  // ----- The edit -----

  /** A line that is put behind the text: on a line of its own, maybe after an empty one. */
  predicate IsSeparator(sep: string, content: string) {
    sep == [NEWLINE] || (sep == [] && |content| > 1 && content[|content| - 1] == NEWLINE)
  }

  /** With `pending` characters in the cache at the end of the text, what is put between it and the new lines. */
  function SeparatorAfter(pending: nat, content: string): string {
    if pending > 1 && content != [] && content[|content| - 1] == NEWLINE then [] else [NEWLINE]
  }

  /** The separator is decided by what was copied since the header of the section, or the start. */
  function SeparatorFor(content: string, section: string): string {
    var start := KeysStart(content, section);
    SeparatorAfter(Cached(0, if start.Some? then content[start.value..] else content), content)
  }

  /** What is put there lets the new lines start a line of their own. */
  lemma SeparatorSeparates(content: string, section: string)
    ensures IsSeparator(SeparatorFor(content, section), content)
  {
    hide KeysStart, Cached;
    var start := KeysStart(content, section);
    CachedFits(0, if start.Some? then content[start.value..] else content);
  }

  /** The line of the setting, or nothing to delete it. */
  function NewLine(key: string, value: Option<string>): string {
    if value.Some? then KeyLine(key, value.value) else []
  }

  /**
    The plain edit: in the section the line of the key is replaced or, before the next header or
    at the end, inserted; a missing section is added. All other text stays as it is.
    */
  function Edited(content: string, section: string, key: string, value: Option<string>, sep: string): string {
    var at := Place(content, section, key, false);
    if at.None? then content + if value.Some? then sep + SectionLine(section) + NewLine(key, value) else []
    else if at.value == |content| then content + if value.Some? then sep + NewLine(key, value) else []
    else
      var p := Piece(content[at.value..]);
      if IsHeader(p) then content[..at.value] + NewLine(key, value) + content[at.value..]
      else content[..at.value] + NewLine(key, value) + content[at.value + |p|..]
  }

  // ----- Its parts, through the cache -----

  /** Copies one more line of a stretch that is copied as it is. */
  method CopyOn(c: Rewrite, line: string, ghost base: string, ghost from: nat)
    requires c.Valid() && c.mark + c.size < |c.rfp.content| && line == Piece(c.rfp.content[c.mark + c.size..])
    requires c.rfp.pos == c.mark + c.size + |line|
    requires from <= c.mark + c.size && c.Copied() == base + c.rfp.content[from..c.mark + c.size]
    modifies c, c.rfp`pos, c.wfp, c.buffer
    ensures c.Valid() && c.IsCaughtUp() && c.rfp.pos == old(c.rfp.pos)
    ensures c.Copied() == base + c.rfp.content[from..c.rfp.pos]
    ensures c.size == WithLine(old(c.size), line)
  {
    hide WithLine, Piece, FirstPiece, IsTiled, HoldsAt, SameOutside;
    ghost var content, at := c.rfp.content, c.mark + c.size;
    LineIsNext(content, from, at, line);
    c.CopyLine(line);
    assert base + content[from..at] + line == base + (content[from..at] + line);
  }

  /** Copies everything up to and including the header of the section. */
  method CopyToSection(c: Rewrite, section: string) returns (found: bool)
    requires c.Valid() && c.IsCaughtUp() && c.rfp.pos == 0 && c.Copied() == []
    modifies c, c.rfp`pos, c.wfp, c.buffer
    ensures c.Valid() && c.IsCaughtUp() && c.Copied() == c.rfp.content[..c.rfp.pos]
    ensures
      var r := SectionEnd(c.rfp.content, section);
      && (found <==> r.Some?) && (found ==> c.rfp.pos == r.value) && (!found ==> c.rfp.pos == |c.rfp.content|)
    ensures !found ==> c.size == Cached(0, c.rfp.content)
  {
    hide WithLine, Cached, SectionEnd, FirstPiece, IsSection, HoldsAt, SameOutside, IsTiled;
    found := false;
    ghost var content := c.rfp.content;
    assert content[0..] == content;
    while !found
      invariant c.Valid() && c.IsCaughtUp() && c.Copied() == content[..c.rfp.pos] && c.rfp.content == content
      invariant Cached(0, content) == Cached(c.size, content[c.rfp.pos..])
      invariant
        var all := SectionEnd(content, section);
        if found then all == Some(c.rfp.pos)
        else
          var r := SectionEnd(content[c.rfp.pos..], section);
          all == if r.Some? then Some(c.rfp.pos + r.value) else None
      decreases |content| - c.rfp.pos, !found
    {
      ghost var pos := c.rfp.pos;
      NextSection(content, pos, section);
      var some, line := c.rfp.Read(c.buffer, 0, BUFFERSIZE);
      CachedNext(content, pos, c.size, line);
      if !some {
        return false;
      }
      found := IsSection(line, section);
      CopyOn(c, line, [], 0);
    }
  }

  /** Copies everything up to the key or what ends the search for it; that line is read, not copied. */
  method CopyToKey(c: Rewrite, key: string) returns (eof: bool, header: bool)
    requires c.Valid() && c.IsCaughtUp() && c.Copied() == c.rfp.content[..c.rfp.pos]
    modifies c, c.rfp`pos, c.wfp, c.buffer
    ensures c.Valid()
    ensures
      var content := c.rfp.content;
      var at := old(c.rfp.pos) + KeyAt(old(c.rfp.Rest()), key, false);
      && at <= |content| && c.Copied() == content[..at] && c.mark + c.size == at
      && (eof <==> at == |content|)
      && (!eof ==> (header <==> IsHeader(Piece(content[at..]))))
    ensures eof ==> c.size == Cached(old(c.size), old(c.rfp.Rest()))
  {
    hide WithLine, Cached, KeyAt, FirstPiece, IsHeader, IsKey, HoldsAt, SameOutside, IsTiled;
    ghost var content := c.rfp.content;
    ghost var at := c.rfp.pos + KeyAt(c.rfp.Rest(), key, false);
    ghost var pending := Cached(c.size, c.rfp.Rest());
    var stop := false;
    eof, header := false, false;
    while !stop
      invariant c.Valid() && c.rfp.content == content && c.Copied() == content[..c.mark + c.size]
      invariant !stop ==> c.IsCaughtUp() && at == c.rfp.pos + KeyAt(content[c.rfp.pos..], key, false)
      invariant !stop ==> pending == Cached(c.size, content[c.rfp.pos..])
      invariant stop ==> c.mark + c.size == at < |content| && !eof && header == IsHeader(Piece(content[at..]))
      decreases |content| - c.rfp.pos, !stop
    {
      ghost var pos := c.rfp.pos;
      NextKey(content, pos, key, false);
      var some, line := c.rfp.Read(c.buffer, 0, BUFFERSIZE);
      CachedNext(content, pos, c.size, line);
      if !some {
        return true, false;
      }
      header := IsHeader(line);
      stop := header || IsKey(line, key);
      if !stop {
        CopyOn(c, line, [], 0);
      }
    }
  }

  /** Copies what is left of the file. */
  method CopyRest(c: Rewrite)
    requires c.Valid() && c.IsCaughtUp()
    modifies c, c.rfp`pos, c.wfp, c.buffer
    ensures c.Valid() && c.Copied() == old(c.Copied()) + c.rfp.content[old(c.rfp.pos)..]
  {
    hide FirstPiece, HoldsAt, SameOutside, IsTiled;
    ghost var content, from, start := c.rfp.content, c.rfp.pos, c.Copied();
    var more := true;
    while more
      invariant c.Valid() && c.rfp.content == content && c.IsCaughtUp() && from <= c.rfp.pos
      invariant c.Copied() == start + content[from..c.rfp.pos]
      invariant !more ==> c.rfp.pos == |content|
      decreases |content| - c.rfp.pos, more
    {
      ghost var pos := c.rfp.pos;
      assert content[pos..] != [] <==> pos < |content|;
      var line;
      more, line := c.rfp.Read(c.buffer, 0, BUFFERSIZE);
      if more {
        CopyOn(c, line, start, from);
      }
    }
    assert content[from..|content|] == content[from..];
  }

  /** Writes a line to the new file, behind everything copied so far. */
  method WriteLine(c: Rewrite, line: string)
    requires c.Valid() && c.size == 0 && NUL !in line
    modifies c.wfp
    ensures c.Valid() && c.wfp.content == old(c.wfp.content) + line && c.Copied() == c.wfp.content
  {
    hide IsTiled;
    c.wfp.Write(line);
  }

  /** At the end of the file: maybe a new line first, then the section and the key. */
  method AddAtEnd(c: Rewrite, section: string, key: string, value: string)
    requires c.Valid() && NUL !in section && NUL !in key && NUL !in value
    requires c.Copied() == c.rfp.content && c.mark + c.size == |c.rfp.content|
    modifies c, c.rfp`pos, c.wfp, c.buffer
    ensures c.wfp.content ==
      c.rfp.content + SeparatorAfter(old(c.size), c.rfp.content)
      + (if section == [] then [] else SectionLine(section)) + KeyLine(key, value)
  {
    hide HoldsAt, SameOutside, IsTiled, Piece, FirstPiece, KeyLine, SectionLine;
    var flag := c.Flush();
    assert SeparatorAfter(old(c.size), c.rfp.content) == if flag then [] else [NEWLINE];
    if !flag {
      WriteLine(c, [NEWLINE]);
    }
    if section != [] {
      var head := WriteSection(c.buffer, section);
      WriteLine(c, head);
    }
    var line := WriteKey(c.buffer, key, value);
    WriteLine(c, line);
  }

  /** In the middle of the file: the key is written, and its old line is dropped. */
  method PutHere(c: Rewrite, header: bool, key: string, value: Option<string>)
    requires c.Valid() && NUL !in key && (value.Some? ==> NUL !in value.value)
    requires c.mark + c.size < |c.rfp.content| && c.Copied() == c.rfp.content[..c.mark + c.size]
    modifies c, c.rfp`pos, c.wfp, c.buffer
    ensures
      var content, at := c.rfp.content, old(c.mark + c.size);
      var p := Piece(content[at..]);
      c.wfp.content == content[..at] + NewLine(key, value) + content[if header then at else at + |p|..]
  {
    hide HoldsAt, SameOutside, IsTiled, FirstPiece, KeyLine;
    ghost var content, at := c.rfp.content, c.mark + c.size;
    var _ := c.Flush();
    if value.Some? {
      var line := WriteKey(c.buffer, key, value.value);
      WriteLine(c, line);
    }
    assert c.wfp.content == content[..at] + NewLine(key, value);
    CopyFrom(c, header);
  }

  /** The rest of the file, with or without the line at the mark. */
  method CopyFrom(c: Rewrite, keep: bool)
    requires c.Valid() && c.size == 0 && c.IsCaughtUp() && c.mark < |c.rfp.content|
    modifies c, c.rfp`pos, c.wfp, c.buffer
    ensures
      var content, at := c.rfp.content, old(c.mark);
      var p := Piece(content[at..]);
      c.wfp.content == old(c.wfp.content) + content[if keep then at else at + |p|..]
  {
    hide HoldsAt, SameOutside, IsTiled, FirstPiece;
    ghost var content, at := c.rfp.content, c.mark;
    ReadPast(c, keep);
    ghost var mid := c.rfp.pos;
    assert at <= mid <= |content|;
    assert content[at..mid] + content[mid..] == content[at..];
    CopyRest(c);
    var _ := c.Flush();
  }

  /** Reads the line at the mark again, and leaves it in the cache or forgets it. */
  method ReadPast(c: Rewrite, keep: bool)
    requires c.Valid() && c.size == 0 && c.IsCaughtUp() && c.mark < |c.rfp.content|
    modifies c, c.rfp`pos, c.buffer
    ensures c.Valid() && c.IsCaughtUp() && c.wfp.content == old(c.wfp.content)
    ensures c.rfp.pos == old(c.rfp.pos) + |Piece(c.rfp.content[old(c.rfp.pos)..])|
    ensures c.Copied() == c.wfp.content + if keep then c.rfp.content[old(c.rfp.pos)..c.rfp.pos] else []
  {
    hide HoldsAt, SameOutside, IsTiled, FirstPiece;
    TiledFurther(c.rfp.content, c.mark, 0);
    assert c.rfp.Rest() == c.rfp.content[c.mark..];
    var _, line := c.rfp.Read(c.buffer, 0, BUFFERSIZE);
    if keep {
      var _ := c.Accum(line);
    } else {
      c.mark := c.rfp.pos;
      NothingTiled(c.rfp.content[c.mark..]);
    }
  }
}
