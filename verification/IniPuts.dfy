/** `ini_puts`: the rewrite of a whole file and its two short cuts. */
module IniPuts {
  import opened IniBuffer
  import opened IniCache
  import opened IniFile
  import opened IniText
  import opened IniWrite
  import opened Lines
  import opened Wrappers

  lemma EditedFrom(content: string, section: string, key: string, value: Option<string>, sep: string, start: nat)
    requires KeysStart(content, section) == Some(start)
    ensures
      var at := start + KeyAt(content[start..], key, false);
      && at <= |content|
      && Edited(content, section, key, value, sep) ==
        if at == |content| then content + if value.Some? then sep + NewLine(key, value) else []
        else
          var p := Piece(content[at..]);
          content[..at] + NewLine(key, value) + content[if IsHeader(p) then at else at + |p|..]
  {
    hide KeysStart, KeyAt, FirstPiece, IsHeader, NewLine;
  }

  lemma EditedWithoutSection(content: string, section: string, key: string, value: Option<string>, sep: string)
    requires KeysStart(content, section) == None
    ensures section != []
    ensures Edited(content, section, key, value, sep)
      == content + if value.Some? then sep + SectionLine(section) + NewLine(key, value) else []
  {
    hide SectionEnd, KeyAt, FirstPiece, NewLine, SectionLine;
  }

  /** Copies the file to a new one, with the edit. */
  method RewriteFile(c: Rewrite, section: string, key: string, value: Option<string>)
    requires c.Valid() && c.IsCaughtUp() && c.rfp.pos == 0 && c.Copied() == []
    requires NUL !in section && NUL !in key && (value.Some? ==> NUL !in value.value)
    modifies c, c.rfp`pos, c.wfp, c.buffer
    ensures c.wfp.content == Edited(c.rfp.content, section, key, value, SeparatorFor(c.rfp.content, section))
  {
    hide Edited, KeysStart, SectionEnd, KeyAt, FirstPiece, IsHeader, IsTiled, KeyLine, SectionLine;
    hide SeparatorAfter, SeparatorFor, Cached;
    ghost var content := c.rfp.content;
    SeparatorIs(content, section);
    assert content[..0] == [];
    KeysStartIs(content, section);
    if section != [] {
      var found := CopyToSection(c, section);
      if !found {
        assert content[..|content|] == content;
        if value.Some? {
          AddAtEnd(c, section, key, value.value);
        } else {
          var _ := c.Flush();
        }
        EditedWithoutSection(content, section, key, value, SeparatorFor(content, section));
        return;
      }
    }
    RewriteKeys(c, section, key, value);
  }

  lemma SeparatorIs(content: string, section: string)
    ensures
      var start := KeysStart(content, section);
      SeparatorFor(content, section) ==
        SeparatorAfter(Cached(0, if start.Some? then content[start.value..] else content), content)
  {
    hide KeysStart, Cached, SeparatorAfter;
  }

  /** The section ends the file: the key goes to the end. */
  method KeyAtEnd(c: Rewrite, key: string, value: Option<string>)
    requires c.Valid() && c.Copied() == c.rfp.content[..c.mark + c.size] && c.mark + c.size == |c.rfp.content|
    requires NUL !in key && (value.Some? ==> NUL !in value.value)
    modifies c, c.rfp`pos, c.wfp, c.buffer
    ensures c.wfp.content == c.rfp.content
      + if value.Some? then SeparatorAfter(old(c.size), c.rfp.content) + NewLine(key, value) else []
  {
    hide FirstPiece, IsTiled, KeyLine, SectionLine, SeparatorAfter;
    ghost var content := c.rfp.content;
    assert content[..|content|] == content;
    if value.Some? {
      AddAtEnd(c, [], key, value.value);
    } else {
      var _ := c.Flush();
    }
  }

  /** The same from the first line of the section on. */
  method RewriteKeys(c: Rewrite, section: string, key: string, value: Option<string>)
    requires c.Valid() && c.IsCaughtUp() && c.Copied() == c.rfp.content[..c.rfp.pos]
    requires KeysStart(c.rfp.content, section) == Some(c.rfp.pos)
    requires NUL !in section && NUL !in key && (value.Some? ==> NUL !in value.value)
    modifies c, c.rfp`pos, c.wfp, c.buffer
    ensures c.wfp.content == Edited(c.rfp.content, section, key, value, SeparatorFor(c.rfp.content, section))
  {
    hide Edited, KeysStart, SectionEnd, KeyAt, Piece, FirstPiece, IsHeader;
    hide IsTiled, NewLine, HoldsAt, SameOutside, SeparatorAfter, SeparatorFor, Cached;
    ghost var content, start := c.rfp.content, c.rfp.pos;
    FlushKeepsText(c);
    var eof, header := CopyToKey(c, key);
    PutKey(c, eof, header, key, value);
    SeparatorIs(content, section);
    EditedFrom(content, section, key, value, SeparatorFor(content, section), start);
  }

  method FlushKeepsText(c: Rewrite)
    requires c.Valid() && c.IsCaughtUp()
    modifies c, c.rfp`pos, c.wfp, c.buffer
    ensures c.Valid() && c.IsCaughtUp() && c.size == 0
    ensures c.rfp.pos == old(c.rfp.pos) && c.Copied() == old(c.Copied())
  {
    hide Piece, FirstPiece, IsTiled, HoldsAt, SameOutside;
    var _ := c.Flush();
  }

  /** What happens where the search for the key has stopped. */
  method PutKey(c: Rewrite, eof: bool, header: bool, key: string, value: Option<string>)
    requires c.Valid() && NUL !in key && (value.Some? ==> NUL !in value.value)
    requires c.Copied() == c.rfp.content[..c.mark + c.size] && (eof <==> c.mark + c.size == |c.rfp.content|)
    modifies c, c.rfp`pos, c.wfp, c.buffer
    ensures
      var content, at := c.rfp.content, old(c.mark + c.size);
      var sep := SeparatorAfter(old(c.size), content);
      c.wfp.content == if eof then content + if value.Some? then sep + NewLine(key, value) else []
        else content[..at] + NewLine(key, value) + content[if header then at else at + |Piece(content[at..])|..]
  {
    hide Piece, FirstPiece, IsTiled, NewLine, HoldsAt, SameOutside, SeparatorAfter;
    if eof {
      KeyAtEnd(c, key, value);
    } else {
      PutHere(c, header, key, value);
    }
  }

  /** The file on disk, if there is one. */
  class Disk {
    var file: Option<string>

    constructor (text: Option<string>)
      ensures file == text
    {
      file := text;
    }
  }

  /** What a new file holds. */
  function NewFile(section: string, key: string, value: string): string {
    (if section == [] then [] else SectionLine(section)) + KeyLine(key, value)
  }

  method CreateFile(disk: Disk, section: string, key: string, value: string)
    requires NUL !in section && NUL !in key && NUL !in value
    modifies disk
    ensures disk.file == Some(NewFile(section, key, value))
  {
    hide KeyLine, SectionLine, HoldsAt;
    var buffer := new char[BUFFERSIZE];
    var text := [];
    if section != [] {
      text := WriteSection(buffer, section);
    }
    var line := WriteKey(buffer, key, value);
    disk.file := Some(text + line);
  }

  /** What it means that a setting is found. */
  lemma LookupMeans(content: string, section: string, key: string, size: int)
    requires Lookup(content, section, key, size).Some?
    ensures
      var at := Place(content, section, key, true);
      && at.Some? && at.value < |content| && !IsHeader(Piece(content[at.value..]))
      && Lookup(content, section, key, size).value == ValueOf(Piece(content[at.value..]), size)
  {
    hide Place, FirstPiece, IsHeader, ValueOf;
  }

  /** A key that a reader finds is found at the same place by the writer. */
  lemma FoundInPlace(content: string, section: string, key: string, size: int)
    requires Lookup(content, section, key, size).Some?
    ensures key != [] && key[0] != ';' && key[0] != '#'
    ensures Place(content, section, key, true) == Place(content, section, key, false)
  {
    hide KeysStart, FirstPiece, Lookup, IsHeader, KeyAt, ValueOf;
    LookupMeans(content, section, key, size);
    var s := KeysStart(content, section).value;
    assert content[s..][KeyAt(content[s..], key, true)..] == content[s + KeyAt(content[s..], key, true)..];
    KeyFound(content[s..], key);
    SamePlace(content[s..], key);
  }

  lemma {:induction false} KeyFound(rest: string, key: string)
    requires KeyAt(rest, key, true) < |rest| && !IsHeader(Piece(rest[KeyAt(rest, key, true)..]))
    ensures key != [] && key[0] != ';' && key[0] != '#'
    decreases |rest|
  {
    hide IsHeader, IsKey, IsComment, FirstPiece;
    var p := Piece(rest);
    if IsHeader(p) || (IsKey(p, key) && !IsComment(p)) {
      assert rest[0..] == rest;
      KeyIsPlain(p, key);
    } else {
      assert rest[|p|..][KeyAt(rest[|p|..], key, true)..] == rest[KeyAt(rest, key, true)..];
      KeyFound(rest[|p|..], key);
    }
  }

  lemma KeyIsPlain(line: string, key: string)
    requires IsKey(line, key) && !IsComment(line)
    ensures key != [] && key[0] != ';' && key[0] != '#'
  {
    hide StripTrailing, SkipLeading;
    var sp := SkipLeading(line);
    var name := StripTrailing(sp[..SeparatorAt(sp)]);
    assert name[0] == sp[0] && Fold(name[0]) == Fold(key[0]);
  }

  /** Overwriting the line of the key with one of the same length is the plain edit. */
  lemma SameLengthEdit(content: string, section: string, key: string, value: string, sep: string, size: int, head: nat)
    requires Lookup(content, section, key, size).Some? && Place(content, section, key, true) == Some(head)
    requires head < |content| && |KeyLine(key, value)| == |Piece(content[head..])|
    ensures head + |KeyLine(key, value)| <= |content|
    ensures Edited(content, section, key, Some(value), sep)
      == content[..head] + KeyLine(key, value) + content[head + |KeyLine(key, value)|..]
  {
    hide Place, FirstPiece, KeyLine, IsHeader, ValueOf, Lookup;
    FoundInPlace(content, section, key, size);
    LookupMeans(content, section, key, size);
  }

  lemma {:induction false} UnescapedIsText(s: string)
    requires NUL !in s
    ensures NUL !in Unescaped(s)
  {
    if s != [] {
      if (s[0] == '"' || s[0] == '\\') && |s| > 1 && s[1] == '"' {
        UnescapedIsText(s[2..]);
      } else {
        UnescapedIsText(s[1..]);
      }
    }
  }

  /** A value that is found is a C string. */
  lemma LookupIsText(content: string, section: string, key: string, size: int)
    requires NUL !in content && Lookup(content, section, key, size).Some?
    ensures NUL !in Lookup(content, section, key, size).value
  {
    hide Place, IsHeader, FirstPiece, Lookup, ValueOf;
    LookupMeans(content, section, key, size);
    var line := Piece(content[Place(content, section, key, true).value..]);
    assert forall c :: c in line ==> c in content;
    ValueIsText(line, size);
  }

  lemma ValueIsText(line: string, size: int)
    requires NUL !in line
    ensures NUL !in ValueOf(line, size)
  {
    hide ValueOf, ValueText, Cleaned, Unescaped;
    var s := ValueText(line);
    ValueTextIsSuffix(line);
    assert forall c :: c in s ==> c in line;
    CleanedIsText(s);
    UnescapedIsText(Cleaned(s).0);
    CleanedKind(s);
    ValueIsCleanedText(line, size);
  }

  lemma CleanedKind(s: string)
    ensures Cleaned(s).1 != Enquote
  {
    hide StripTrailing, CommentAt;
  }

  /**
    `ini_puts`, for a given section and key. The result is what a plain edit gives; only if a
    reader would find just this value the file is left as it is.
    */
  method Puts(disk: Disk, section: string, key: string, value: Option<string>)
    requires NUL !in section && NUL !in key && (value.Some? ==> NUL !in value.value)
    requires disk.file.Some? ==> NUL !in disk.file.value
    modifies disk
    ensures
      if old(disk.file).None? then disk.file == if value.Some? then Some(NewFile(section, key, value.value)) else None
      else
        var content := old(disk.file).value;
        if value.Some? && Lookup(content, section, key, BUFFERSIZE) == value then disk.file == old(disk.file)
        else disk.file == Some(Edited(content, section, key, value, SeparatorFor(content, section)))
  {
    hide Edited, Lookup, Place, KeyLine, SeparatorFor, FirstPiece, HoldsAt, IsTiled, NewFile;
    if disk.file.None? {
      if value.Some? {
        CreateFile(disk, section, key, value.value);
      }
      return;
    }
    var content := disk.file.value;
    if value.Some? {
      var done := ShortCut(disk, content, section, key, value.value);
      if done {
        return;
      }
    }
    var rfp := new File(content);
    var wfp := new File([]);
    var buffer := new char[BUFFERSIZE];
    var c := new Rewrite(rfp, wfp, buffer);
    assert content[0..0] == [];
    RewriteFile(c, section, key, value);
    disk.file := Some(wfp.content);
  }

  /** The short cuts of `ini_puts` for a setting that exists. */
  method ShortCut(disk: Disk, content: string, section: string, key: string, value: string)
    returns (done: bool)
    requires disk.file == Some(content) && NUL !in content && NUL !in section && NUL !in key && NUL !in value
    modifies disk
    ensures !done ==> disk.file == old(disk.file) && Lookup(content, section, key, BUFFERSIZE) != Some(value)
    ensures done && Lookup(content, section, key, BUFFERSIZE) == Some(value) ==> disk.file == old(disk.file)
    ensures done && Lookup(content, section, key, BUFFERSIZE) != Some(value) ==>
      disk.file == Some(Edited(content, section, key, Some(value), SeparatorFor(content, section)))
  {
    hide Edited, Lookup, Place, KeyLine, FirstPiece, HoldsAt, SeparatorFor;
    var rfp := new File(content);
    var buffer := new char[BUFFERSIZE];
    var match_, head := GetKeyString(rfp, section, key, buffer, BUFFERSIZE);
    if !match_ {
      return false;
    }
    ghost var current := Lookup(content, section, key, BUFFERSIZE).value;
    LookupIsText(content, section, key, BUFFERSIZE);
    var same := Equals(buffer, current, value);
    if same {
      return true;
    }
    var tail := rfp.pos;
    var line := WriteKey(buffer, key, value);
    if |line| != tail - head {
      return false;
    }
    SameLengthEdit(content, section, key, value, SeparatorFor(content, section), BUFFERSIZE, head);
    var wfp := new File(content);
    wfp.pos := head;
    wfp.Write(line);
    disk.file := Some(wfp.content);
    done := true;
  }

  /** `strcmp` of the buffer with a string. */
  method Equals(buffer: array<char>, ghost s: string, t: string) returns (same: bool)
    requires HoldsAt(buffer[..], 0, s) && NUL !in s && NUL !in t
    ensures same <==> s == t
  {
    same := |t| < buffer.Length && buffer[|t|] == NUL && buffer[0..|t|] == t;
    assert buffer[..][0..|s|] == buffer[0..|s|];
    HeldEquals(buffer[..], s, t);
    assert |t| < buffer.Length ==> buffer[..][0..|t|] == buffer[0..|t|];
  }

  lemma HeldEquals(cells: seq<char>, s: string, t: string)
    requires HoldsAt(cells, 0, s) && NUL !in s && NUL !in t
    ensures |t| < |cells| && cells[|t|] == NUL && cells[0..|t|] == t <==> s == t
  {
    if |t| <= |s| {
      HeldChar(cells, 0, s, |t|);
    }
    assert |s| < |t| < |cells| ==> cells[0..|t|][|s|] == NUL;
  }
}
