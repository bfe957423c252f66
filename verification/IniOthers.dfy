/**
  Writing a setting leaves every other setting as it is. The lookup and the edit are taken apart
  piece by piece here, so that they can be compared on each piece of the file.
  */
module IniOthers {
  import opened IniFile
  import opened IniPuts
  import opened IniRoundTrip
  import opened IniText
  import opened IniWrite
  import opened Lines
  import opened Wrappers

  // ----- The lookup, piece by piece -----

  /** The value that the lines from here on have for the key, up to the next header. */
  function KeyValue(rest: string, key: string, size: int): Option<string>
    decreases |rest|
  {
    if rest == [] then None
    else
      var p := Piece(rest);
      if IsHeader(p) then None
      else if IsKey(p, key) && !IsComment(p) then Some(ValueOf(p, size))
      else KeyValue(rest[|p|..], key, size)
  }

  function SectionValue(rest: string, section: string, key: string, size: int): Option<string>
    decreases |rest|
  {
    if rest == [] then None
    else
      var p := Piece(rest);
      if IsSection(p, section) then KeyValue(rest[|p|..], key, size)
      else SectionValue(rest[|p|..], section, key, size)
  }

  lemma {:induction false} KeyValueIs(rest: string, key: string, size: int)
    ensures
      var k := KeyAt(rest, key, true);
      KeyValue(rest, key, size) ==
        if k == |rest| || IsHeader(Piece(rest[k..])) then None else Some(ValueOf(Piece(rest[k..]), size))
    decreases |rest|
  {
    hide FirstPiece, IsHeader, IsKey, IsComment, ValueOf;
    if rest != [] {
      var p := Piece(rest);
      var tail := rest[|p|..];
      assert rest[0..] == rest;
      if !IsHeader(p) && !(IsKey(p, key) && !IsComment(p)) {
        KeyValueIs(tail, key, size);
        var k := KeyAt(tail, key, true);
        assert tail[k..] == rest[|p| + k..];
      }
    }
  }

  lemma {:induction false} SectionValueIs(rest: string, section: string, key: string, size: int)
    ensures
      var r := SectionEnd(rest, section);
      SectionValue(rest, section, key, size) == if r.None? then None else KeyValue(rest[r.value..], key, size)
    decreases |rest|
  {
    hide FirstPiece, IsSection, KeyValue;
    if rest != [] {
      var p := Piece(rest);
      var tail := rest[|p|..];
      if !IsSection(p, section) {
        SectionValueIs(tail, section, key, size);
        var r := SectionEnd(tail, section);
        assert r.Some? ==> tail[r.value..] == rest[|p| + r.value..];
      }
    }
  }

  lemma LookupIs(content: string, section: string, key: string, size: int)
    ensures Lookup(content, section, key, size) ==
      if section == [] then KeyValue(content, key, size) else SectionValue(content, section, key, size)
  {
    hide KeyValue, SectionValue, SectionEnd, KeyAt, Piece, FirstPiece, IsHeader, ValueOf, Lookup, Place, KeysStart;
    KeysStartIs(content, section);
    if section == [] {
      assert content[0..] == content;
      KeyValueIs(content, key, size);
      LookupFrom(content, section, key, size, 0);
    } else {
      SectionValueIs(content, section, key, size);
      var r := SectionEnd(content, section);
      if r.Some? {
        KeyValueIs(content[r.value..], key, size);
        LookupFrom(content, section, key, size, r.value);
        var k := KeyAt(content[r.value..], key, true);
        assert content[r.value..][k..] == content[r.value + k..];
      } else {
        LookupWithoutSection(content, section, key, size);
      }
    }
  }

  // ----- The edit, piece by piece -----

  function EditedKeys(rest: string, key: string, value: Option<string>, sep: string): string
    decreases |rest|
  {
    if rest == [] then (if value.Some? then sep + NewLine(key, value) else [])
    else
      var p := Piece(rest);
      if IsHeader(p) then NewLine(key, value) + rest
      else if IsKey(p, key) then NewLine(key, value) + rest[|p|..]
      else p + EditedKeys(rest[|p|..], key, value, sep)
  }

  function EditedSection(rest: string, section: string, key: string, value: Option<string>, sep: string): string
    decreases |rest|
  {
    if rest == [] then (if value.Some? then sep + (SectionLine(section) + NewLine(key, value)) else [])
    else
      var p := Piece(rest);
      if IsSection(p, section) then p + EditedKeys(rest[|p|..], key, value, sep)
      else p + EditedSection(rest[|p|..], section, key, value, sep)
  }

  /** The edit at place `k` of the text, which is where the search for the key stops. */
  function EditedAt(rest: string, k: nat, key: string, value: Option<string>, sep: string): string
    requires k <= |rest|
  {
    if k == |rest| then rest + if value.Some? then sep + NewLine(key, value) else []
    else
      var p := Piece(rest[k..]);
      rest[..k] + NewLine(key, value) + rest[if IsHeader(p) then k else k + |p|..]
  }

  lemma EditedAtStart(rest: string, key: string, value: Option<string>, sep: string)
    ensures EditedAt(rest, 0, key, value, sep) ==
      if rest == [] then (if value.Some? then sep + NewLine(key, value) else [])
      else NewLine(key, value) + if IsHeader(Piece(rest)) then rest else rest[|Piece(rest)|..]
  {
    hide FirstPiece, IsHeader, NewLine;
    assert rest[..0] == [] && rest[0..] == rest;
  }

  lemma EditedBehind(p: string, tail: string, k: nat, key: string, value: Option<string>, sep: string)
    requires k <= |tail|
    ensures EditedAt(p + tail, |p| + k, key, value, sep) == p + EditedAt(tail, k, key, value, sep)
  {
    hide EditedAt;
    if k == |tail| {
      EditedAtEnd(tail, key, value, sep);
      EditedAtEnd(p + tail, key, value, sep);
      var end := if value.Some? then sep + NewLine(key, value) else [];
      assert p + tail + end == p + (tail + end);
    } else {
      EditedBefore(p, tail, k, key, value, sep);
    }
  }

  lemma EditedAtEnd(s: string, key: string, value: Option<string>, sep: string)
    ensures EditedAt(s, |s|, key, value, sep) == s + if value.Some? then sep + NewLine(key, value) else []
  {
    hide NewLine;
  }

  lemma EditedBefore(p: string, tail: string, k: nat, key: string, value: Option<string>, sep: string)
    requires k < |tail|
    ensures EditedAt(p + tail, |p| + k, key, value, sep) == p + EditedAt(tail, k, key, value, sep)
  {
    hide Piece, FirstPiece, IsHeader, NewLine;
    assert (p + tail)[|p| + k..] == tail[k..];
    var q := Piece(tail[k..]);
    InFront(p, tail, k, if IsHeader(q) then k else k + |q|, NewLine(key, value));
  }

  lemma InFront(p: string, tail: string, k: nat, j: nat, line: string)
    requires k <= |tail| && j <= |tail|
    ensures (p + tail)[..|p| + k] + line + (p + tail)[|p| + j..] == p + (tail[..k] + line + tail[j..])
  {
    assert (p + tail)[..|p| + k] == p + tail[..k] && (p + tail)[|p| + j..] == tail[j..];
  }

  lemma {:induction false} EditedKeysIs(rest: string, key: string, value: Option<string>, sep: string)
    ensures EditedKeys(rest, key, value, sep) == EditedAt(rest, KeyAt(rest, key, false), key, value, sep)
    decreases |rest|
  {
    hide FirstPiece, IsHeader, IsKey, NewLine, EditedAt;
    EditedAtStart(rest, key, value, sep);
    if rest != [] {
      var p := Piece(rest);
      var tail := rest[|p|..];
      if !IsHeader(p) && !IsKey(p, key) {
        EditedKeysIs(tail, key, value, sep);
        EditedBehind(p, tail, KeyAt(tail, key, false), key, value, sep);
        assert p + tail == rest;
      }
    }
  }

  /** The edit behind the header that ends at `r`, or at the end if there is none. */
  function EditedFor(rest: string, r: Option<nat>, section: string, key: string,
      value: Option<string>, sep: string): string
    requires r.Some? ==> r.value <= |rest|
  {
    if r.None? then rest + if value.Some? then sep + (SectionLine(section) + NewLine(key, value)) else []
    else rest[..r.value] + EditedKeys(rest[r.value..], key, value, sep)
  }

  lemma HeaderBehind(p: string, tail: string, r: Option<nat>, section: string, key: string, value: Option<string>,
      sep: string)
    requires r.Some? ==> r.value <= |tail|
    ensures EditedFor(p + tail, if r.Some? then Some(|p| + r.value) else None, section, key, value, sep)
      == p + EditedFor(tail, r, section, key, value, sep)
  {
    hide EditedKeys, NewLine, SectionLine;
    var rest := p + tail;
    if r.None? {
      var end := if value.Some? then sep + (SectionLine(section) + NewLine(key, value)) else [];
      assert rest + end == p + (tail + end);
    } else {
      var v := r.value;
      var keys := EditedKeys(tail[v..], key, value, sep);
      assert rest[|p| + v..] == tail[v..] && rest[..|p| + v] == p + tail[..v];
      assert p + tail[..v] + keys == p + (tail[..v] + keys);
    }
  }

  lemma HeaderHere(p: string, tail: string, section: string, key: string, value: Option<string>, sep: string)
    ensures EditedFor(p + tail, Some(|p|), section, key, value, sep) == p + EditedKeys(tail, key, value, sep)
  {
    hide EditedKeys;
    assert (p + tail)[..|p|] == p && (p + tail)[|p|..] == tail;
  }

  lemma {:induction false} EditedSectionIs(rest: string, section: string, key: string,
      value: Option<string>, sep: string)
    ensures EditedSection(rest, section, key, value, sep) ==
      EditedFor(rest, SectionEnd(rest, section), section, key, value, sep)
    decreases |rest|
  {
    hide FirstPiece, IsSection, EditedKeys, NewLine, SectionLine, EditedFor;
    if rest == [] {
      HeaderNowhere(section, key, value, sep);
    } else {
      var p := Piece(rest);
      var tail := rest[|p|..];
      assert p + tail == rest;
      if IsSection(p, section) {
        HeaderHere(p, tail, section, key, value, sep);
      } else {
        EditedSectionIs(tail, section, key, value, sep);
        HeaderBehind(p, tail, SectionEnd(tail, section), section, key, value, sep);
      }
    }
  }

  lemma HeaderNowhere(section: string, key: string, value: Option<string>, sep: string)
    ensures EditedFor([], None, section, key, value, sep) ==
      if value.Some? then sep + (SectionLine(section) + NewLine(key, value)) else []
  {}

  lemma EditedIs(content: string, section: string, key: string, value: Option<string>, sep: string)
    ensures Edited(content, section, key, value, sep) ==
      if section == [] then EditedKeys(content, key, value, sep) else EditedSection(content, section, key, value, sep)
  {
    hide EditedKeys, EditedSection, EditedAt, SectionEnd, KeyAt, Piece, FirstPiece, IsHeader, NewLine, SectionLine;
    hide Edited, KeysStart;
    KeysStartIs(content, section);
    if section == [] {
      assert content[0..] == content;
      EditedKeysIs(content, key, value, sep);
      EditedFromStart(content, section, key, value, sep, 0);
    } else {
      EditedSectionIs(content, section, key, value, sep);
      var r := SectionEnd(content, section);
      if r.None? {
        EditedWithoutSection(content, section, key, value, sep);
        assert content + (sep + SectionLine(section) + NewLine(key, value))
            == content + (sep + (SectionLine(section) + NewLine(key, value)));
      } else {
        var v := r.value;
        EditedFromStart(content, section, key, value, sep, v);
        EditedKeysIs(content[v..], key, value, sep);
        assert content[..v] + content[v..] == content;
        EditedBehind(content[..v], content[v..], KeyAt(content[v..], key, false), key, value, sep);
      }
    }
  }

  lemma EditedFromStart(content: string, section: string, key: string, value: Option<string>, sep: string, start: nat)
    requires KeysStart(content, section) == Some(start)
    ensures
      var at := start + KeyAt(content[start..], key, false);
      at <= |content| && Edited(content, section, key, value, sep) == EditedAt(content, at, key, value, sep)
  {
    hide KeyAt, Piece, FirstPiece, IsHeader, NewLine, Edited, KeysStart;
    EditedFrom(content, section, key, value, sep, start);
  }

  // ----- Names -----

  lemma OneSection(p: string, a: string, b: string)
    requires IsSection(p, a)
    ensures IsSection(p, b) <==> SameText(a, b)
    ensures IsHeader(p)
  {
    hide SkipLeading, LastIndex;
  }

  lemma OneKey(p: string, a: string, b: string)
    requires IsKey(p, a) && IsKey(p, b)
    ensures SameText(a, b)
  {
    hide SkipLeading, SeparatorAt, StripTrailing;
  }

  lemma SectionIsHeader(p: string, section: string)
    requires IsSection(p, section)
    ensures IsHeader(p)
  {
    hide IsHeader, SkipLeading, LastIndex, SameText;
  }

  // ----- One piece in front -----

  /** A piece that ends properly, with anything behind it. */
  lemma EndedPiece(rest: string, y: string)
    requires NUL !in rest && rest != [] && EndsPiece(Piece(rest))
    ensures Piece(Piece(rest) + y) == Piece(rest) && (Piece(rest) + y)[|Piece(rest)|..] == y
  {
    hide Piece, FirstPiece;
    PieceStays(rest, y);
  }

  lemma KeyValueNext(all: string, p: string, y: string, key: string, size: int)
    requires all == p + y && p != [] && Piece(all) == p
    ensures KeyValue(all, key, size) ==
      if IsHeader(p) then None else if IsKey(p, key) && !IsComment(p) then Some(ValueOf(p, size))
      else KeyValue(y, key, size)
  {
    hide FirstPiece, IsHeader, IsKey, IsComment, ValueOf;
    assert all[|p|..] == y;
  }

  lemma SectionValueNext(all: string, p: string, y: string, section: string, key: string, size: int)
    requires all == p + y && p != [] && Piece(all) == p
    ensures SectionValue(all, section, key, size) ==
      if IsSection(p, section) then KeyValue(y, key, size) else SectionValue(y, section, key, size)
  {
    hide FirstPiece, IsSection, KeyValue;
    assert all[|p|..] == y;
  }

  lemma BlankFirst(y: string, section: string, key: string, size: int)
    ensures KeyValue([NEWLINE] + y, key, size) == KeyValue(y, key, size)
    ensures SectionValue([NEWLINE] + y, section, key, size) == SectionValue(y, section, key, size)
  {
    hide KeyValue, SectionValue, FirstPiece, Piece, IsHeader, IsKey, IsSection;
    BlankPiece(y);
    BlankLineIsNothing(section, key);
    KeyValueNext([NEWLINE] + y, [NEWLINE], y, key, size);
    SectionValueNext([NEWLINE] + y, [NEWLINE], y, section, key, size);
  }

  lemma BlankPiece(y: string)
    ensures Piece([NEWLINE] + y) == [NEWLINE]
  {
    hide FirstPiece;
    ReadAsOne([NEWLINE], y, BUFFERSIZE);
  }

  /** The line that is written is nothing to a reader of another key or of a section. */
  lemma NewLineFirst(key: string, value: Option<string>, y: string, section: string, other: string, size: int)
    requires IsValidKey(key) && (value.Some? ==> NUL !in value.value && NEWLINE !in value.value)
    ensures !SameText(key, other) ==> KeyValue(NewLine(key, value) + y, other, size) == KeyValue(y, other, size)
    ensures SectionValue(NewLine(key, value) + y, section, other, size) == SectionValue(y, section, other, size)
  {
    hide KeyValue, SectionValue, FirstPiece, Piece, IsHeader, IsKey, IsSection, KeyLine, IsValidKey, SameText;
    if value.Some? {
      var p := KeyLine(key, value.value);
      KeyLineIsPiece(key, value.value, y);
      KeyLineIsKey(key, value.value, size);
      KeyLineIsThere(key, value.value);
      KeyValueNext(p + y, p, y, other, size);
      SectionValueNext(p + y, p, y, section, other, size);
      if IsKey(p, other) {
        OneKey(p, key, other);
      }
      if IsSection(p, section) {
        SectionIsHeader(p, section);
      }
    } else {
      assert NewLine(key, value) + y == y;
    }
  }

  lemma SectionLineIsNamed(section: string)
    requires IsValidSection(section) && section != []
    ensures IsSection(SectionLine(section), section)
  {
    hide LastIndex, FirstPiece, SkipLeading, SectionLine;
    var p := SectionLine(section);
    SectionLineIsPiece(section, []);
    LastIndexOf(['['] + section, ']');
    assert ['['] + section + [']', NEWLINE] == p;
    assert SkipLeading(p) == p && p[1..|section| + 1] == section;
  }

  // ----- The last piece, without a newline -----

  lemma {:induction false} CommentOfLonger(s: string, inString: bool)
    ensures CommentAt(s + [NEWLINE], inString) ==
      if CommentAt(s, inString) < |s| then CommentAt(s, inString) else |s| + 1
    decreases |s|
  {
    var t := s + [NEWLINE];
    if s == [] {
      assert t[1..] == [];
    } else if (s[0] == '"' || s[0] == '\\') && |s| > 1 && s[1] == '"' {
      assert t[2..] == s[2..] + [NEWLINE];
      CommentOfLonger(s[2..], inString);
    } else if !((s[0] == ';' || s[0] == '#') && !inString) {
      assert t[1..] == s[1..] + [NEWLINE] && (|s| > 1 ==> t[1] == s[1]);
      CommentOfLonger(s[1..], if s[0] == '"' then !inString else inString);
    }
  }

  lemma CleanedOfLonger(s: string)
    ensures Cleaned(s + [NEWLINE]) == Cleaned(s)
  {
    hide CommentAt, StripTrailing;
    CommentOfLonger(s, false);
    StripsOneNewline(s);
    var k := CommentAt(s, false);
    if k < |s| {
      assert (s + [NEWLINE])[..k] == s[..k];
    } else {
      assert (s + [NEWLINE])[..|s| + 1] == s + [NEWLINE] && s[..k] == s;
    }
  }

  lemma ReadOfLonger(s: string, size: int)
    ensures ReadValue(s + [NEWLINE], size) == ReadValue(s, size)
  {
    hide SkipLeading, Cleaned, Copied;
    SkipLonger(s);
    CleanedOfLonger(SkipLeading(s));
  }

  lemma ValueOfLonger(p: string, size: int)
    ensures ValueOf(p + [NEWLINE], size) == ValueOf(p, size)
    ensures IsComment(p + [NEWLINE]) == IsComment(p)
  {
    hide SkipLeading, SeparatorAt, ReadValue;
    SkipLonger(p);
    var sp := SkipLeading(p);
    var e := SeparatorAt(sp);
    if sp != [] {
      SeparatorOfLonger(sp);
      if e < |sp| {
        assert (sp + [NEWLINE])[e + 1..] == sp[e + 1..] + [NEWLINE];
        ReadOfLonger(sp[e + 1..], size);
      }
    }
  }

  /** The last piece has got a newline and more lines behind it. */
  lemma UnendedFirst(p: string, y: string, section: string, key: string, size: int)
    requires NUL !in p && p != [] && Piece(p) == p && !EndsPiece(p)
    ensures
      var all := p + ([NEWLINE] + y);
      && KeyValue(all, key, size) ==
        (if IsHeader(p) || KeyValue(p, key, size).Some? then KeyValue(p, key, size) else KeyValue(y, key, size))
      && SectionValue(all, section, key, size) ==
        (if IsSection(p, section) then KeyValue(y, key, size) else SectionValue(y, section, key, size))
      && SectionValue(p, section, key, size) == None
  {
    hide KeyValue, SectionValue, FirstPiece, Piece, IsHeader, IsKey, IsSection, IsComment, ValueOf, EndsPiece;
    var all, q := p + ([NEWLINE] + y), p + [NEWLINE];
    UnendedPieces(p, y);
    assert all == q + y && p == p + [];
    KeyValueNext(all, q, y, key, size);
    SectionValueNext(all, q, y, section, key, size);
    KeyValueNext(p, p, [], key, size);
    SectionValueNext(p, p, [], section, key, size);
    NothingFound(section, key, size);
    NewlineChangesNothing(p, section, key);
    ValueOfLonger(p, size);
  }

  lemma UnendedPieces(p: string, y: string)
    requires NUL !in p && p != [] && Piece(p) == p && !EndsPiece(p)
    ensures Piece(p + ([NEWLINE] + y)) == p + [NEWLINE]
  {
    hide Piece, FirstPiece, EndsPiece;
    PieceWithSeparator(p, [NEWLINE], y);
    assert p + [NEWLINE] + y == p + ([NEWLINE] + y);
  }

  lemma NothingFound(section: string, key: string, size: int)
    ensures KeyValue([], key, size) == None && SectionValue([], section, key, size) == None
  {}

  // ----- The tail of a text -----

  lemma TailSeparates(rest: string, sep: string)
    requires NUL !in rest && rest != [] && Separates(sep, rest)
    ensures NUL !in rest[|Piece(rest)|..] && Separates(sep, rest[|Piece(rest)|..])
      && Piece(rest) + rest[|Piece(rest)|..] == rest
    ensures !EndsPiece(Piece(rest)) ==> Piece(rest) == rest && rest[|Piece(rest)|..] == [] && sep == [NEWLINE]
  {
    hide FirstPiece;
    if !EndsPiece(Piece(rest)) {
      UnendedPiece(rest);
    }
  }

  // ----- Other settings -----

  /** What may be written. */
  predicate IsWritable(key: string, value: Option<string>) {
    IsValidKey(key) && (value.Some? ==> NUL !in value.value && NEWLINE !in value.value)
  }

  /** Another key of the same section. */
  lemma {:induction false} OtherKeyStays(rest: string, key: string, value: Option<string>, sep: string, other: string,
      size: int)
    requires NUL !in rest && Separates(sep, rest) && IsWritable(key, value) && !SameText(key, other)
    ensures KeyValue(EditedKeys(rest, key, value, sep), other, size) == KeyValue(rest, other, size)
    decreases |rest|
  {
    hide KeyValue, Piece, FirstPiece, IsHeader, IsKey, IsComment, ValueOf, NewLine, EndsPiece, IsValidKey, SameText;
    NothingFound([], other, size);
    if rest == [] {
      LineAtEnd(key, value, sep, [], other, size);
    } else {
      var p := Piece(rest);
      var tail := rest[|p|..];
      TailSeparates(rest, sep);
      KeyValueNext(rest, p, tail, other, size);
      if IsHeader(p) {
        NewLineFirst(key, value, rest, [], other, size);
      } else if IsKey(p, key) {
        NewLineFirst(key, value, tail, [], other, size);
        if IsKey(p, other) {
          OneKey(p, key, other);
        }
      } else {
        var y := EditedKeys(tail, key, value, sep);
        if EndsPiece(p) {
          EndedPiece(rest, y);
          KeyValueNext(p + y, p, y, other, size);
          OtherKeyStays(tail, key, value, sep, other, size);
        } else if value.Some? {
          NewLineFirst(key, value, [], [], other, size);
          assert NewLine(key, value) + [] == NewLine(key, value);
          UnendedFirst(p, NewLine(key, value), [], other, size);
        } else {
          assert p + y == rest;
        }
      }
    }
  }

  /** What is put at the end. */
  lemma LineAtEnd(key: string, value: Option<string>, sep: string, section: string, other: string, size: int)
    requires IsWritable(key, value) && Separates(sep, [])
    ensures !SameText(key, other) ==> KeyValue(EditedKeys([], key, value, sep), other, size) == None
    ensures SectionValue(EditedKeys([], key, value, sep), section, other, size) == None
  {
    hide KeyValue, SectionValue, NewLine, IsValidKey, SameText;
    NothingFound(section, other, size);
    if value.Some? {
      var line := NewLine(key, value);
      NewLineFirst(key, value, [], section, other, size);
      assert line + [] == line && [] + line == line;
      BlankFirst(line, section, other, size);
    }
  }

  lemma HeaderAtEnd(section: string, key: string, value: Option<string>, sep: string, other: string, name: string,
      size: int)
    requires IsWritable(key, value) && Separates(sep, []) && IsValidSection(section) && section != []
    ensures
      var y := EditedSection([], section, key, value, sep);
      && KeyValue(y, name, size) == None
      && (!(SameText(section, other) && SameText(key, name)) ==> SectionValue(y, other, name, size) == None)
  {
    hide KeyValue, SectionValue, NewLine, SectionLine, IsValidKey, IsValidSection, SameText;
    NothingFound(other, name, size);
    if value.Some? {
      var line := NewLine(key, value);
      var y := SectionLine(section) + line;
      HeaderFirst(section, line, other, name, size);
      NewLineFirst(key, value, [], other, name, size);
      assert line + [] == line && [] + y == y;
      BlankFirst(y, other, name, size);
    }
  }

  lemma HeaderFirst(section: string, y: string, other: string, key: string, size: int)
    requires IsValidSection(section) && section != []
    ensures KeyValue(SectionLine(section) + y, key, size) == None
    ensures SectionValue(SectionLine(section) + y, other, key, size) ==
      if SameText(section, other) then KeyValue(y, key, size) else SectionValue(y, other, key, size)
  {
    hide KeyValue, SectionValue, FirstPiece, Piece, IsHeader, IsKey, IsSection, SectionLine, IsValidSection, SameText;
    var p := SectionLine(section);
    SectionLineIsPiece(section, y);
    KeyValueNext(p + y, p, y, key, size);
    SectionValueNext(p + y, p, y, other, key, size);
    SectionLineIsNamed(section);
    OneSection(p, section, other);
  }

  /** A section behind the edited one. */
  lemma {:induction false} LaterSectionStays(rest: string, key: string, value: Option<string>, sep: string,
      section: string, other: string, size: int)
    requires NUL !in rest && Separates(sep, rest) && IsWritable(key, value)
    ensures SectionValue(EditedKeys(rest, key, value, sep), section, other, size) ==
      SectionValue(rest, section, other, size)
    decreases |rest|
  {
    hide KeyValue, SectionValue, Piece, FirstPiece, IsHeader, IsKey;
    hide IsSection, NewLine, EndsPiece, IsValidKey, SameText;
    NothingFound(section, other, size);
    if rest == [] {
      LineAtEnd(key, value, sep, section, other, size);
    } else {
      var p := Piece(rest);
      var tail := rest[|p|..];
      TailSeparates(rest, sep);
      SectionValueNext(rest, p, tail, section, other, size);
      if IsSection(p, section) {
        SectionIsHeader(p, section);
      }
      if IsHeader(p) {
        NewLineFirst(key, value, rest, section, other, size);
      } else if IsKey(p, key) {
        NewLineFirst(key, value, tail, section, other, size);
      } else {
        var y := EditedKeys(tail, key, value, sep);
        if EndsPiece(p) {
          EndedPiece(rest, y);
          SectionValueNext(p + y, p, y, section, other, size);
          LaterSectionStays(tail, key, value, sep, section, other, size);
        } else if value.Some? {
          NewLineFirst(key, value, [], section, other, size);
          assert NewLine(key, value) + [] == NewLine(key, value);
          UnendedFirst(p, NewLine(key, value), section, other, size);
        } else {
          assert p + y == rest;
        }
      }
    }
  }

  /** The settings in front of the first header. */
  lemma {:induction false} FirstKeysStay(rest: string, section: string, key: string, value: Option<string>, sep: string,
      other: string, size: int)
    requires NUL !in rest && Separates(sep, rest) && IsWritable(key, value) && IsValidSection(section) && section != []
    ensures KeyValue(EditedSection(rest, section, key, value, sep), other, size) == KeyValue(rest, other, size)
    decreases |rest|
  {
    hide KeyValue, EditedKeys, Piece, FirstPiece, IsHeader, IsKey, IsSection, IsComment, ValueOf, NewLine, SectionLine;
    hide EndsPiece, IsValidKey, IsValidSection, SameText;
    NothingFound([], other, size);
    if rest == [] {
      HeaderAtEnd(section, key, value, sep, [], other, size);
    } else {
      var p := Piece(rest);
      var tail := rest[|p|..];
      TailSeparates(rest, sep);
      KeyValueNext(rest, p, tail, other, size);
      if IsSection(p, section) {
        SectionIsHeader(p, section);
      }
      var y := if IsSection(p, section) then EditedKeys(tail, key, value, sep)
        else EditedSection(tail, section, key, value, sep);
      if EndsPiece(p) {
        EndedPiece(rest, y);
        KeyValueNext(p + y, p, y, other, size);
        if !IsSection(p, section) {
          FirstKeysStay(tail, section, key, value, sep, other, size);
        }
      } else if value.Some? {
        var z := if IsSection(p, section) then NewLine(key, value) else SectionLine(section) + NewLine(key, value);
        EditedNothing(section, key, value, sep);
        HeaderFirst(section, NewLine(key, value), [], other, size);
        UnendedFirst(p, z, [], other, size);
      } else {
        EditedNothing(section, key, value, sep);
        assert p + y == rest;
      }
    }
  }

  lemma EditedNothing(section: string, key: string, value: Option<string>, sep: string)
    ensures EditedKeys([], key, value, sep) == if value.Some? then sep + NewLine(key, value) else []
    ensures EditedSection([], section, key, value, sep) ==
      if value.Some? then sep + (SectionLine(section) + NewLine(key, value)) else []
  {
    hide NewLine, SectionLine;
  }

  /** Any setting of a section. */
  lemma {:induction false} OtherSectionStays(rest: string, section: string, key: string,
      value: Option<string>, sep: string, name: string, other: string, size: int)
    requires NUL !in rest && Separates(sep, rest) && IsWritable(key, value) && IsValidSection(section) && section != []
    requires !(SameText(section, name) && SameText(key, other))
    ensures SectionValue(EditedSection(rest, section, key, value, sep), name, other, size) ==
      SectionValue(rest, name, other, size)
    decreases |rest|
  {
    hide KeyValue, SectionValue, EditedKeys, Piece, FirstPiece, IsHeader, IsKey, IsSection, NewLine, SectionLine;
    hide EndsPiece, IsValidKey, IsValidSection, SameText;
    NothingFound(name, other, size);
    if rest == [] {
      HeaderAtEnd(section, key, value, sep, name, other, size);
    } else {
      var p := Piece(rest);
      var tail := rest[|p|..];
      TailSeparates(rest, sep);
      SectionValueNext(rest, p, tail, name, other, size);
      if IsSection(p, section) {
        OneSection(p, section, name);
      }
      var y := if IsSection(p, section) then EditedKeys(tail, key, value, sep)
        else EditedSection(tail, section, key, value, sep);
      if EndsPiece(p) {
        EndedPiece(rest, y);
        SectionValueNext(p + y, p, y, name, other, size);
        if IsSection(p, section) {
          if SameText(section, name) {
            OtherKeyStays(tail, key, value, sep, other, size);
          } else {
            LaterSectionStays(tail, key, value, sep, name, other, size);
          }
        } else {
          FirstKeysStay(tail, section, key, value, sep, other, size);
          OtherSectionStays(tail, section, key, value, sep, name, other, size);
        }
      } else {
        EditedNothing(section, key, value, sep);
        if value.Some? {
          var line := NewLine(key, value);
          var z := if IsSection(p, section) then line else SectionLine(section) + line;
          NewLineFirst(key, value, [], name, other, size);
          assert line + [] == line;
          HeaderFirst(section, line, name, other, size);
          UnendedFirst(p, z, name, other, size);
        } else {
          assert p + y == rest;
        }
      }
    }
  }

  /**
    After a setting was written or deleted, every other setting is what it was: whatever has
    another key or is in another section, names compared as the reader does.
    */
  lemma OtherSettingsStay(content: string, section: string, key: string, value: Option<string>, sep: string,
      name: string, other: string, size: int)
    requires NUL !in content && IsSeparator(sep, content) && IsWritable(key, value) && IsValidSection(section)
    requires !(SameText(section, name) && SameText(key, other))
    ensures Lookup(Edited(content, section, key, value, sep), name, other, size) == Lookup(content, name, other, size)
  {
    hide Lookup, Edited, KeyValue, SectionValue, EditedKeys, EditedSection;
    hide IsSeparator, Separates, IsWritable, IsValidSection;
    var text := Edited(content, section, key, value, sep);
    LookupIs(content, name, other, size);
    LookupIs(text, name, other, size);
    EditedIs(content, section, key, value, sep);
    SeparatesTail(content, sep, 0);
    assert content[0..] == content;
    if section == [] {
      if name == [] {
        OtherKeyStays(content, key, value, sep, other, size);
      } else {
        LaterSectionStays(content, key, value, sep, name, other, size);
      }
    } else if name == [] {
      FirstKeysStay(content, section, key, value, sep, other, size);
    } else {
      OtherSectionStays(content, section, key, value, sep, name, other, size);
    }
  }

  // ----- The setting itself, after a deletion -----

  /** One of the lines up to the next header has the key. */
  predicate HasKey(rest: string, key: string)
    decreases |rest|
  {
    rest != [] && !IsHeader(Piece(rest)) && (IsKey(Piece(rest), key) || HasKey(rest[|Piece(rest)|..], key))
  }

  lemma {:induction false} HasKeyIs(rest: string, key: string, size: int)
    requires key != [] ==> key[0] != ';' && key[0] != '#'
    ensures HasKey(rest, key) <==> KeyValue(rest, key, size).Some?
    decreases |rest|
  {
    hide FirstPiece, IsHeader, IsKey, IsComment, ValueOf;
    if rest != [] {
      KeyIsNoComment(Piece(rest), key);
      HasKeyIs(rest[|Piece(rest)|..], key, size);
    }
  }

  /** What stands behind the first line of the key, or where the search for it ends. */
  function BehindKey(rest: string, key: string): string
    decreases |rest|
  {
    if rest == [] || IsHeader(Piece(rest)) then rest
    else if IsKey(Piece(rest), key) then rest[|Piece(rest)|..]
    else BehindKey(rest[|Piece(rest)|..], key)
  }

  function BehindSetting(content: string, section: string, key: string): string {
    var start := KeysStart(content, section);
    if start.None? then [] else BehindKey(content[start.value..], key)
  }

  lemma {:induction false} DeletedKey(rest: string, key: string, sep: string, size: int)
    requires NUL !in rest && (key != [] ==> key[0] != ';' && key[0] != '#')
    ensures KeyValue(EditedKeys(rest, key, None, sep), key, size) == KeyValue(BehindKey(rest, key), key, size)
    decreases |rest|
  {
    hide KeyValue, Piece, FirstPiece, IsHeader, IsKey, IsComment, ValueOf, EndsPiece;
    NothingFound([], key, size);
    if rest != [] {
      var p := Piece(rest);
      var tail := rest[|p|..];
      assert [] + rest == rest && [] + tail == tail && p + tail == rest;
      if !IsHeader(p) && !IsKey(p, key) {
        var y := EditedKeys(tail, key, None, sep);
        DeletedKey(tail, key, sep, size);
        if EndsPiece(p) {
          EndedPiece(rest, y);
          KeyValueNext(p + y, p, y, key, size);
        } else {
          UnendedPiece(rest);
          KeyValueNext(rest, p, [], key, size);
          assert p + [] == rest;
        }
      }
    }
  }

  lemma {:induction false} DeletedInSection(rest: string, section: string, key: string, sep: string, size: int)
    requires NUL !in rest && (key != [] ==> key[0] != ';' && key[0] != '#')
    ensures
      var r := SectionEnd(rest, section);
      SectionValue(EditedSection(rest, section, key, None, sep), section, key, size) ==
        if r.None? then None else KeyValue(BehindKey(rest[r.value..], key), key, size)
    decreases |rest|
  {
    hide KeyValue, SectionValue, EditedKeys, BehindKey, Piece, FirstPiece, IsSection, EndsPiece;
    NothingFound(section, key, size);
    if rest != [] {
      var p := Piece(rest);
      var tail := rest[|p|..];
      if !EndsPiece(p) {
        UnendedPiece(rest);
        NothingEdited(section, key, sep);
      }
      if IsSection(p, section) {
        DeletedKey(tail, key, sep, size);
        PieceKept(rest, EditedKeys(tail, key, None, sep), section, key, size);
      } else {
        DeletedInSection(tail, section, key, sep, size);
        PieceKept(rest, EditedSection(tail, section, key, None, sep), section, key, size);
        var r := SectionEnd(tail, section);
        assert r.Some? ==> tail[r.value..] == rest[|p| + r.value..];
      }
    }
  }

  /** The first piece of a text, with something else behind it, or as the last one. */
  lemma PieceKept(rest: string, y: string, section: string, key: string, size: int)
    requires NUL !in rest && rest != [] && (EndsPiece(Piece(rest)) || (y == [] && Piece(rest) == rest))
    ensures SectionValue(Piece(rest) + y, section, key, size) ==
      if IsSection(Piece(rest), section) then KeyValue(y, key, size) else SectionValue(y, section, key, size)
  {
    hide KeyValue, SectionValue, FirstPiece, IsSection, EndsPiece;
    var p := Piece(rest);
    if EndsPiece(p) {
      EndedPiece(rest, y);
    } else {
      assert p + [] == rest;
    }
    SectionValueNext(p + y, p, y, section, key, size);
  }

  lemma NothingEdited(section: string, key: string, sep: string)
    ensures EditedKeys([], key, None, sep) == [] && EditedSection([], section, key, None, sep) == []
  {}

  /**
    After a deletion a get finds what the next line of the key says, if the section has another one;
    so the setting is gone exactly if the key was there once.
    */
  lemma DeleteThenGet(content: string, section: string, key: string, sep: string, size: int)
    requires NUL !in content && (key != [] ==> key[0] != ';' && key[0] != '#')
    ensures
      var behind := BehindSetting(content, section, key);
      var found := Lookup(Edited(content, section, key, None, sep), section, key, size);
      found == KeyValue(behind, key, size) && (found == None <==> !HasKey(behind, key))
  {
    hide KeyValue, SectionValue, EditedKeys, EditedSection, BehindKey, Piece, Lookup, Edited, KeysStart, HasKey;
    EditedIs(content, section, key, None, sep);
    LookupIs(Edited(content, section, key, None, sep), section, key, size);
    KeysStartIs(content, section);
    HasKeyIs(BehindSetting(content, section, key), key, size);
    NothingFound(section, key, size);
    if section == [] {
      assert content[0..] == content;
      DeletedKey(content, key, sep, size);
    } else {
      DeletedInSection(content, section, key, sep, size);
    }
  }
}
