/** INI files as they are read: line by line through a buffer of fixed size. */
module IniFile {
  import opened IniBuffer
  import opened IniText
  import opened Lines
  import opened Wrappers

  // ----- What one read gives -----

  /** Up to a newline, or as much as a buffer of `size` characters holds. */
  function FirstPiece(rest: string, size: nat): (p: string)
    ensures p <= rest && |p| <= size && (size > 0 ==> |p| < size)
    ensures rest != [] && size > 1 ==> p != []
  {
    if rest == [] || size <= 1 then []
    else if rest[0] == NEWLINE then [NEWLINE]
    else [rest[0]] + FirstPiece(rest[1..], size - 1)
  }

  function Piece(rest: string): (p: string)
    ensures p <= rest && |p| < BUFFERSIZE
    ensures rest != [] ==> p != []
  {
    FirstPiece(rest, BUFFERSIZE)
  }

  /** The read ends at a newline, a full buffer or the end of the file, whichever comes first. */
  lemma {:induction false} FirstPieceIsPiece(rest: string, size: nat)
    requires NUL !in rest && size > 0
    ensures IsPiece(rest, size, FirstPiece(rest, size))
  {
    if rest != [] && size > 1 && rest[0] != NEWLINE {
      FirstPieceIsPiece(rest[1..], size - 1);
      var q := FirstPiece(rest[1..], size - 1);
      assert FirstPiece(rest, size)[1..] == q;
    }
  }

  lemma NoPiece(size: nat)
    ensures FirstPiece([], size) == []
  {}

  /** A smaller buffer reads the same if it is large enough. */
  lemma {:induction false} SmallerBuffer(rest: string, size: nat, n: nat)
    requires |FirstPiece(rest, size)| < n <= size
    ensures FirstPiece(rest, n) == FirstPiece(rest, size)
  {
    if rest != [] && size > 1 && rest[0] != NEWLINE {
      SmallerBuffer(rest[1..], size - 1, n - 1);
    }
  }

  /** How to recognise the piece: no newline before its end, and a reason to end there. */
  lemma {:induction false} IsFirstPiece(rest: string, size: nat, n: nat)
    requires n <= |rest| && n < size
    requires forall i :: 0 <= i < n - 1 ==> rest[i] != NEWLINE
    requires n == size - 1 || n == |rest| || (n > 0 && rest[n - 1] == NEWLINE)
    ensures FirstPiece(rest, size) == rest[..n]
  {
    if n == 0 {
      assert rest[..0] == [];
    } else if rest[0] == NEWLINE {
      assert n == 1 && rest[..1] == [NEWLINE];
    } else {
      IsFirstPiece(rest[1..], size - 1, n - 1);
      assert rest[..n] == [rest[0]] + rest[1..][..n - 1];
    }
  }

  // ----- What a line is -----

  function Fold(c: char): char {
    if 'a' <= c <= 'z' then (c as int - 32) as char else c
  }

  /** `strnicmp` on two strings of the same length. */
  predicate SameText(a: string, b: string) {
    |a| == |b| && forall i :: 0 <= i < |a| ==> Fold(a[i]) == Fold(b[i])
  }

  function FirstIndex(s: string, c: char): (k: nat)
    ensures k <= |s| && c !in s[..k]
    ensures k < |s| ==> s[k] == c
  {
    if s == [] || s[0] == c then 0 else 1 + FirstIndex(s[1..], c)
  }

  function LastIndex(s: string, c: char): (k: int)
    ensures -1 <= k < |s|
    ensures c !in s[k + 1..]
    ensures k >= 0 ==> s[k] == c
  {
    if s == [] then -1 else if s[|s| - 1] == c then |s| - 1 else LastIndex(s[..|s| - 1], c)
  }

  /** The equal sign of a setting, or its colon if there is none. */
  function SeparatorAt(sp: string): (k: nat)
    ensures k <= |sp|
    ensures k < |sp| ==> sp[k] == '=' || sp[k] == ':'
  {
    if FirstIndex(sp, '=') < |sp| then FirstIndex(sp, '=') else FirstIndex(sp, ':')
  }

  predicate IsHeader(line: string) {
    var sp := SkipLeading(line);
    sp != [] && sp[0] == '['
  }

  predicate IsComment(line: string) {
    var sp := SkipLeading(line);
    sp != [] && (sp[0] == ';' || sp[0] == '#')
  }

  predicate IsSection(line: string, section: string) {
    var sp := SkipLeading(line);
    var e := LastIndex(sp, ']');
    IsHeader(line) && e - 1 == |section| && SameText(sp[1..e], section)
  }

  predicate IsKey(line: string, key: string) {
    var sp := SkipLeading(line);
    var e := SeparatorAt(sp);
    e < |sp| && key != [] && SameText(StripTrailing(sp[..e]), key)
  }

  function ValueOf(line: string, size: int): string {
    var sp := SkipLeading(line);
    var e := SeparatorAt(sp);
    ReadValue(if e < |sp| then sp[e + 1..] else [], size)
  }

  // ----- Finding a setting -----

  /** How far into `rest` the header of the section ends. */
  function SectionEnd(rest: string, section: string): (r: Option<nat>)
    ensures r.Some? ==> r.value <= |rest|
    decreases |rest|
  {
    if rest == [] then None
    else
      var p := Piece(rest);
      if IsSection(p, section) then Some(|p|)
      else
        var r := SectionEnd(rest[|p|..], section);
        if r.Some? then Some(|p| + r.value) else None
  }

  /** Where to look for keys: behind the header, or from the start without a section. */
  function KeysStart(content: string, section: string): (r: Option<nat>)
    ensures r.Some? ==> r.value <= |content|
  {
    if section == [] then Some(0) else SectionEnd(content, section)
  }

  /** How far into `rest` the key, the next header or the end is; a reader skips comments. */
  function KeyAt(rest: string, key: string, reading: bool): (k: nat)
    ensures k <= |rest|
    decreases |rest|
  {
    if rest == [] then 0
    else
      var p := Piece(rest);
      if IsHeader(p) || (IsKey(p, key) && !(reading && IsComment(p))) then 0
      else |p| + KeyAt(rest[|p|..], key, reading)
  }

  /** The place of the key in the file, or of what ends the search for it. */
  function Place(content: string, section: string, key: string, reading: bool): (r: Option<nat>)
    ensures r.Some? ==> r.value <= |content|
  {
    var s := KeysStart(content, section);
    if s.None? then None else Some(s.value + KeyAt(content[s.value..], key, reading))
  }

  /** The value of a setting. */
  function Lookup(content: string, section: string, key: string, size: int): Option<string> {
    var at := Place(content, section, key, true);
    if at.None? || at.value == |content| || IsHeader(Piece(content[at.value..])) then None
    else Some(ValueOf(Piece(content[at.value..]), size))
  }

  /** A key that does not begin like a comment is found by reader and writer alike. */
  lemma {:induction false} SamePlace(rest: string, key: string)
    requires key == [] || (key[0] != ';' && key[0] != '#')
    ensures KeyAt(rest, key, true) == KeyAt(rest, key, false)
    decreases |rest|
  {
    hide StripTrailing, SkipLeading, FirstPiece;
    if rest != [] {
      var p := Piece(rest);
      KeyIsNoComment(p, key);
      SamePlace(rest[|p|..], key);
    }
  }

  lemma KeyIsNoComment(line: string, key: string)
    requires key == [] || (key[0] != ';' && key[0] != '#')
    ensures !(IsKey(line, key) && IsComment(line))
  {
    hide StripTrailing, SkipLeading;
    if IsKey(line, key) {
      var sp := SkipLeading(line);
      var name := StripTrailing(sp[..SeparatorAt(sp)]);
      assert name[0] == sp[0] && Fold(name[0]) == Fold(key[0]);
    }
  }

  // ----- Files -----

  class File {
    var content: string
    var pos: nat

    constructor (text: string)
      ensures content == text && pos == 0
    {
      content, pos := text, 0;
    }

    ghost predicate Valid()
      reads this
    {
      pos <= |content| && NUL !in content
    }

    /** What is still to be read. */
    function Rest(): string
      requires pos <= |content|
      reads this
    {
      content[pos..]
    }

    /** The loop of `fgets`: characters go to the buffer until there is a reason to stop. */
    method Fill(buffer: array<char>, at: nat, size: nat) returns (n: nat)
      requires Valid() && pos < |content| && 1 < size && at + size <= buffer.Length
      modifies this`pos, buffer
      ensures Valid() && n < size && pos == old(pos) + n
      ensures forall i :: old(pos) <= i < pos - 1 ==> content[i] != NEWLINE
      ensures n == size - 1 || pos == |content| || (n > 0 && content[pos - 1] == NEWLINE)
      ensures HoldsAt(buffer[..], at, content[old(pos)..pos])
      ensures SameOutside(old(buffer[..]), buffer[..], at, at + size)
    {
      hide HoldsAt, SameOutside;
      n := 0;
      ghost var start, line := buffer[..], [];
      SameAsItself(start, at, at + size);
      while n < size - 1 && pos < |content| && !(n > 0 && content[pos - 1] == NEWLINE)
        invariant old(pos) <= pos <= |content| && n == pos - old(pos) <= size - 1
        invariant forall i :: old(pos) <= i < pos - 1 ==> content[i] != NEWLINE
        invariant line == content[old(pos)..pos] && buffer[at..at + n] == line
        invariant SameOutside(start, buffer[..], at, at + size)
        decreases |content| - pos
      {
        line := PutChar(buffer, at, n, content[pos], line, start, at + size);
        n, pos := n + 1, pos + 1;
      }
      PutEnd(buffer, at, n, line, start, at + size);
    }

    /** `fgets` into the `size` characters at `at`; `line` is the string that it leaves there. */
    method Read(buffer: array<char>, at: nat, size: nat) returns (some: bool, line: string)
      requires Valid() && 1 < size && at + size <= buffer.Length
      modifies this`pos, buffer
      ensures Valid() && (some <==> old(pos) < |content|)
      ensures line == FirstPiece(old(Rest()), size) && pos == old(pos) + |line| && NUL !in line
      ensures some ==> HoldsAt(buffer[..], at, line)
      ensures !some ==> buffer[..] == old(buffer[..])
      ensures SameOutside(old(buffer[..]), buffer[..], at, at + size)
    {
      hide HoldsAt, FirstPiece;
      if pos == |content| {
        NoPiece(size);
        return false, [];
      }
      var from := pos;
      hide SameOutside;
      var n := Fill(buffer, at, size);
      IsFirstPiece(content[from..], size, n);
      line := content[from..pos];
      assert line == content[from..][..n];
      some := true;
    }

    /** `fputs` at the current position. */
    method Write(s: string)
      requires Valid() && NUL !in s
      modifies this
      ensures Valid() && pos == old(pos) + |s|
      ensures content == old(content)[..old(pos)] + s + if pos < |old(content)| then old(content)[pos..] else []
    {
      content := content[..pos] + s + if pos + |s| < |content| then content[pos + |s|..] else [];
      pos := pos + |s|;
    }
  }

  // ----- getkeystring -----

  lemma NextSection(content: string, pos: nat, section: string)
    requires pos <= |content|
    ensures pos == |content| ==> SectionEnd(content[pos..], section) == None
    ensures pos < |content| ==>
      var p := Piece(content[pos..]);
      && pos + |p| <= |content|
      && SectionEnd(content[pos..], section) ==
        if IsSection(p, section) then Some(|p|)
        else
          var r := SectionEnd(content[pos + |p|..], section);
          if r.Some? then Some(|p| + r.value) else None
  {
    hide IsSection, FirstPiece;
    if pos < |content| {
      var p := Piece(content[pos..]);
      assert content[pos..][|p|..] == content[pos + |p|..];
    }
  }

  /** Reads on until behind the header of the section. */
  method FindSection(file: File, buffer: array<char>, section: string) returns (found: bool)
    requires file.Valid() && buffer.Length == BUFFERSIZE
    modifies file`pos, buffer
    ensures file.Valid()
    ensures
      var r := SectionEnd(old(file.Rest()), section);
      (found <==> r.Some?) && (found ==> file.pos == old(file.pos) + r.value)
  {
    hide SectionEnd, FirstPiece, IsSection, HoldsAt, SameOutside;
    found := false;
    while !found
      invariant old(file.pos) <= file.pos && file.Valid()
      invariant
        var all := SectionEnd(old(file.Rest()), section);
        if found then all == Some(file.pos - old(file.pos))
        else
          var r := SectionEnd(file.content[file.pos..], section);
          all == if r.Some? then Some(file.pos - old(file.pos) + r.value) else None
      decreases |file.content| - file.pos, !found
    {
      NextSection(file.content, file.pos, section);
      var some, line := file.Read(buffer, 0, BUFFERSIZE);
      if !some {
        return false;
      }
      found := IsSection(line, section);
    }
  }

  lemma NextKey(content: string, pos: nat, key: string, reading: bool)
    requires pos <= |content|
    ensures pos == |content| ==> KeyAt(content[pos..], key, reading) == 0
    ensures pos < |content| ==>
      var p := Piece(content[pos..]);
      && pos + |p| <= |content|
      && KeyAt(content[pos..], key, reading) ==
        if IsHeader(p) || (IsKey(p, key) && !(reading && IsComment(p))) then 0
        else |p| + KeyAt(content[pos + |p|..], key, reading)
  {
    hide IsHeader, IsKey, IsComment, FirstPiece;
    if pos < |content| {
      var p := Piece(content[pos..]);
      assert content[pos..][|p|..] == content[pos + |p|..];
    }
  }

  /** Reads on to the line of the key; `head` is where that line starts. */
  method FindKey(file: File, buffer: array<char>, key: string) returns (found: bool, head: nat, line: string)
    requires file.Valid() && buffer.Length == BUFFERSIZE
    modifies file`pos, buffer
    ensures file.Valid()
    ensures
      var at := old(file.pos) + KeyAt(old(file.Rest()), key, true);
      && (found <==> at < |file.content| && !IsHeader(Piece(file.content[at..])))
      && (found ==>
            && head == at && line == Piece(file.content[at..]) && IsKey(line, key) && NUL !in line
            && HoldsAt(buffer[..], 0, line) && file.pos == at + |line|)
  {
    hide KeyAt, FirstPiece, IsHeader, IsKey, IsComment, HoldsAt, SameOutside;
    ghost var at := file.pos + KeyAt(file.Rest(), key, true);
    found, head, line := false, 0, [];
    while !found
      invariant old(file.pos) <= file.pos && file.Valid()
      invariant !found ==> at == file.pos + KeyAt(file.content[file.pos..], key, true)
      invariant found ==>
        && head == at < |file.content| && line == Piece(file.content[at..]) && !IsHeader(line)
        && IsKey(line, key) && NUL !in line && HoldsAt(buffer[..], 0, line) && file.pos == at + |line|
      decreases |file.content| - file.pos, !found
    {
      NextKey(file.content, file.pos, key, true);
      head := file.pos;
      var some;
      some, line := file.Read(buffer, 0, BUFFERSIZE);
      if !some || IsHeader(line) {
        return false, head, line;
      }
      found := IsKey(line, key) && !IsComment(line);
    }
  }

  lemma KeyHasSeparator(line: string, key: string)
    requires IsKey(line, key)
    ensures SeparatorAt(SkipLeading(line)) < |SkipLeading(line)|
  {}

  predicate IsSuffix(s: string, line: string) {
    |s| <= |line| && s == line[|line| - |s|..]
  }

  lemma SuffixOfSuffix(s: string, t: string, line: string)
    requires IsSuffix(s, t) && IsSuffix(t, line)
    ensures IsSuffix(s, line)
  {}

  /** What stands behind the separator. */
  function ValueText(line: string): string {
    var sp := SkipLeading(line);
    var e := SeparatorAt(sp);
    SkipLeading(if e < |sp| then sp[e + 1..] else [])
  }

  lemma ValueTextIsSuffix(line: string)
    ensures IsSuffix(ValueText(line), line)
  {
    hide SkipLeading, SeparatorAt;
    var sp := SkipLeading(line);
    var e := SeparatorAt(sp);
    if e < |sp| {
      SuffixOfSuffix(sp[e + 1..], sp, line);
      SuffixOfSuffix(SkipLeading(sp[e + 1..]), sp[e + 1..], line);
    } else {
      assert SkipLeading([]) == [] && line[|line|..] == [];
    }
  }

  lemma ValueIsCleanedText(line: string, size: int)
    ensures ValueOf(line, size) == Copied(Cleaned(ValueText(line)).0, size, Cleaned(ValueText(line)).1)
  {
    hide SkipLeading, SeparatorAt, Cleaned, Copied;
  }

  /** The terminated text `s` at `at`, cleaned and copied to `target`. */
  method CopyCleaned(buffer: array<char>, at: nat, ghost s: string, target: array<char>, size: nat)
    requires HoldsAt(buffer[..], at, s) && NUL !in s && 0 < size <= target.Length && buffer != target
    modifies buffer, target
    ensures HoldsAt(target[..], 0, Copied(Cleaned(s).0, size, Cleaned(s).1))
  {
    hide HoldsAt, SameOutside, Cleaned, Copied;
    var start, quotes := CleanString(buffer, at, s);
    ghost var text := Cleaned(s).0;
    CleanedIsText(s);
    var end := LengthAt(buffer, start, text);
    HeldText(buffer[..], start, text);
    var source := buffer[start..end];
    assert source == text;
    SaveStrncpy(target, 0, source, size, quotes);
  }

  /** The value of the setting on `line`, copied to `target`. */
  method CopyValue(line: string, buffer: array<char>, target: array<char>, size: nat)
    requires HoldsAt(buffer[..], 0, line) && NUL !in line && 0 < size <= target.Length && buffer != target
    requires SeparatorAt(SkipLeading(line)) < |SkipLeading(line)|
    modifies buffer, target
    ensures HoldsAt(target[..], 0, ValueOf(line, size))
  {
    hide HoldsAt, Cleaned, Copied, SkipLeading, SeparatorAt, ValueOf, ValueText, IsSuffix, SameOutside;
    ValueIsCleanedText(line, size);
    ValueTextIsSuffix(line);
    var s := ValueText(line);
    SuffixHolds(buffer[..], line, s);
    CopyCleaned(buffer, |line| - |s|, s, target, size);
  }

  lemma HeldText(cells: seq<char>, at: nat, s: string)
    requires HoldsAt(cells, at, s)
    ensures at + |s| < |cells| && cells[at..at + |s|] == s
  {}

  /** Cleaning only takes characters away. */
  lemma CleanedIsText(s: string)
    requires NUL !in s
    ensures NUL !in Cleaned(s).0
  {
    hide CommentAt, StripTrailing;
    var t := StripTrailing(s[..CommentAt(s, false)]);
    assert forall i :: 0 <= i < |t| ==> t[i] == s[i];
    assert forall c :: c in Inside(t) ==> c in t;
  }

  lemma SuffixHolds(cells: seq<char>, line: string, s: string)
    requires HoldsAt(cells, 0, line) && IsSuffix(s, line) && NUL !in line
    ensures |s| <= |line| && HoldsAt(cells, |line| - |s|, s) && NUL !in s
  {
    var at := |line| - |s|;
    assert cells[at..at + |s|] == cells[0..|line|][at..];
    assert forall c :: c in s ==> c in line;
  }

  lemma LookupWithoutSection(content: string, section: string, key: string, size: int)
    requires KeysStart(content, section) == None
    ensures Lookup(content, section, key, size) == None
  {
    hide KeysStart, KeyAt;
  }

  lemma LookupFrom(content: string, section: string, key: string, size: int, start: nat)
    requires KeysStart(content, section) == Some(start)
    ensures
      var at := start + KeyAt(content[start..], key, true);
      && Place(content, section, key, true) == Some(at) && at <= |content|
      && Lookup(content, section, key, size) ==
        if at == |content| || IsHeader(Piece(content[at..])) then None else Some(ValueOf(Piece(content[at..]), size))
  {
    hide KeysStart, KeyAt, FirstPiece, IsHeader, ValueOf;
  }

  lemma KeysStartIs(content: string, section: string)
    ensures KeysStart(content, section) == if section == [] then Some(0) else SectionEnd(content, section)
  {
    hide SectionEnd;
  }

  /** `getkeystring`, for a given section and key. */
  method GetKeyString(file: File, section: string, key: string, target: array<char>, size: nat)
    returns (ok: bool, head: nat)
    requires file.Valid() && file.pos == 0 && 0 < size <= target.Length
    modifies file`pos, target
    ensures file.Valid()
    ensures
      var r := Lookup(file.content, section, key, size);
      && (ok <==> r.Some?)
      && (ok ==> HoldsAt(target[..], 0, r.value))
      && (ok ==>
            && Place(file.content, section, key, true) == Some(head) && head < |file.content|
            && file.pos == head + |Piece(file.content[head..])|)
  {
    hide HoldsAt, SectionEnd, KeysStart, KeyAt, Piece, FirstPiece, IsHeader, ValueOf, Lookup, Place, IsKey;
    hide SeparatorAt, SkipLeading;
    KeysStartIs(file.content, section);
    var buffer := new char[BUFFERSIZE];
    assert file.content[0..] == file.content;
    head := 0;
    if section != [] {
      ok := FindSection(file, buffer, section);
      if !ok {
        LookupWithoutSection(file.content, section, key, size);
        return;
      }
    }
    LookupFrom(file.content, section, key, size, file.pos);
    var line;
    ok, head, line := FindKey(file, buffer, key);
    if ok {
      KeyHasSeparator(line, key);
      CopyValue(line, buffer, target, size);
    }
  }
}
