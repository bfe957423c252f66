/** A setting that was written is found again, with its value. */
module IniRoundTrip {
  import opened IniFile
  import opened IniPuts
  import opened IniText
  import opened IniWrite
  import opened Lines
  import opened Wrappers

  /** A key that a reader can tell apart from everything else on a line. */
  predicate IsValidKey(key: string) {
    && key != [] && |key| <= BUFFERSIZE - 4 && '=' !in key && NUL !in key && NEWLINE !in key
    && !HasOuterBlank(key) && key[0] != '[' && key[0] != ';' && key[0] != '#'
  }

  predicate IsValidSection(section: string) {
    |section| <= BUFFERSIZE - 5 && NUL !in section && NEWLINE !in section
  }

  // ----- The new lines are read as one piece each -----

  predicate EndsPiece(p: string) {
    p != [] && (p[|p| - 1] == NEWLINE || |p| == BUFFERSIZE - 1)
  }

  lemma {:induction false} ReadAsOne(p: string, z: string, size: nat)
    requires p != [] && |p| < size && (p[|p| - 1] == NEWLINE || |p| == size - 1)
    requires NEWLINE !in p[..|p| - 1]
    ensures FirstPiece(p + z, size) == p
  {
    assert forall i :: 0 <= i < |p| - 1 ==> p[..|p| - 1][i] == p[i];
    assert forall i :: 0 <= i < |p| - 1 ==> (p + z)[i] != NEWLINE;
    IsFirstPiece(p + z, size, |p|);
    assert (p + z)[..|p|] == p;
  }

  /** A piece that ends properly is read the same whatever follows. */
  lemma PieceStays(rest: string, z: string)
    requires NUL !in rest && rest != [] && EndsPiece(Piece(rest))
    ensures Piece(Piece(rest) + z) == Piece(rest)
  {
    FirstPieceIsPiece(rest, BUFFERSIZE);
    var p := Piece(rest);
    assert NUL !in p by {
      assert forall c :: c in p ==> c in rest;
    }
    assert forall i :: 0 <= i < |p| - 1 ==> p[i] != NEWLINE;
    ReadAsOne(p, z, BUFFERSIZE);
  }

  /** What is not the end of the file ends properly. */
  lemma InnerPieceEnds(rest: string)
    requires NUL !in rest && rest != []
    ensures EndsPiece(Piece(rest)) || Piece(rest) == rest
  {
    FirstPieceIsPiece(rest, BUFFERSIZE);
  }

  // ----- Scanning text with something behind it -----

  lemma {:induction false} KeyThrough(rest: string, key: string, y: string)
    requires NUL !in rest && KeyAt(rest, key, false) < |rest|
    ensures
      var k := KeyAt(rest, key, false);
      KeyAt(rest[..k] + y, key, false) == k + KeyAt(y, key, false)
    decreases |rest|
  {
    hide FirstPiece, IsHeader, IsKey, EndsPiece;
    var p := Piece(rest);
    var k := KeyAt(rest, key, false);
    if k == 0 {
      assert rest[..0] + y == y;
    } else {
      var tail := rest[|p|..];
      InnerPieceEnds(rest);
      assert tail != [];
      KeyThrough(tail, key, y);
      var z := tail[..k - |p|] + y;
      assert rest[..k] + y == p + z;
      PieceStays(rest, z);
      assert (p + z)[|p|..] == z;
    }
  }

  lemma {:induction false} SectionThrough(rest: string, section: string, y: string)
    requires NUL !in rest && SectionEnd(rest, section).Some? && SectionEnd(rest, section).value < |rest|
    ensures SectionEnd(rest[..SectionEnd(rest, section).value] + y, section) == SectionEnd(rest, section)
    decreases |rest|
  {
    hide FirstPiece, IsSection, EndsPiece;
    var p := Piece(rest);
    var v := SectionEnd(rest, section).value;
    var tail := rest[|p|..];
    InnerPieceEnds(rest);
    assert tail != [];
    if IsSection(p, section) {
      assert rest[..v] + y == p + y;
      PieceStays(rest, y);
    } else {
      SectionThrough(tail, section, y);
      var z := tail[..v - |p|] + y;
      assert rest[..v] + y == p + z;
      PieceStays(rest, z);
      assert (p + z)[|p|..] == z;
    }
  }

  // ----- A new line at the end -----

  /** `sep` makes sure that what follows `rest` starts a line. */
  predicate Separates(sep: string, rest: string) {
    sep == [NEWLINE] || (sep == [] && (rest == [] || rest[|rest| - 1] == NEWLINE))
  }

  lemma {:induction false} LastOfLonger(s: string, c: char)
    requires c != NEWLINE
    ensures LastIndex(s + [NEWLINE], c) == LastIndex(s, c)
  {
    assert (s + [NEWLINE])[..|s|] == s;
  }

  lemma {:induction false} FirstOfLonger(s: string, c: char)
    requires c != NEWLINE
    ensures FirstIndex(s + [NEWLINE], c) == if FirstIndex(s, c) < |s| then FirstIndex(s, c) else |s| + 1
  {
    if s == [] {
      assert (s + [NEWLINE])[1..] == [];
    } else if s[0] != c {
      assert (s + [NEWLINE])[1..] == s[1..] + [NEWLINE];
      FirstOfLonger(s[1..], c);
    }
  }

  lemma {:induction false} SkipLonger(s: string)
    ensures SkipLeading(s + [NEWLINE]) == if SkipLeading(s) == [] then [] else SkipLeading(s) + [NEWLINE]
  {
    if s == [] {
      assert (s + [NEWLINE])[1..] == [];
    } else if IsBlank(s[0]) {
      assert (s + [NEWLINE])[1..] == s[1..] + [NEWLINE];
      SkipLonger(s[1..]);
    }
  }

  lemma HeaderOfLonger(p: string)
    ensures IsHeader(p + [NEWLINE]) == IsHeader(p)
  {
    hide SkipLeading;
    SkipLonger(p);
  }

  lemma HeaderHasText(p: string)
    requires IsHeader(p)
    ensures SkipLeading(p) != []
  {}

  lemma SliceOfLonger(s: string, e: nat)
    requires 1 <= e <= |s|
    ensures (s + [NEWLINE])[1..e] == s[1..e]
  {}

  lemma SectionOfLonger(p: string, section: string)
    ensures IsSection(p + [NEWLINE], section) == IsSection(p, section)
  {
    hide SkipLeading, LastIndex, SameText, IsHeader;
    HeaderOfLonger(p);
    if IsHeader(p) {
      SkipLonger(p);
      HeaderHasText(p);
      var sp := SkipLeading(p);
      LastOfLonger(sp, ']');
      var e := LastIndex(sp, ']');
      if e >= 1 {
        SliceOfLonger(sp, e);
      }
    }
  }

  lemma SeparatorOfLonger(sp: string)
    ensures
      var e := SeparatorAt(sp);
      SeparatorAt(sp + [NEWLINE]) == if e < |sp| then e else |sp| + 1
  {
    hide FirstIndex;
    FirstOfLonger(sp, '=');
    FirstOfLonger(sp, ':');
  }

  lemma KeyOfLonger(p: string, key: string)
    ensures IsKey(p + [NEWLINE], key) == IsKey(p, key)
  {
    hide SkipLeading, SeparatorAt, StripTrailing, SameText;
    SkipLonger(p);
    var sp := SkipLeading(p);
    var e := SeparatorAt(sp);
    SeparatorOfLonger(sp);
    if e < |sp| {
      assert (sp + [NEWLINE])[..e] == sp[..e];
    }
  }

  /** A newline behind it does not change what a line is. */
  lemma NewlineChangesNothing(p: string, section: string, key: string)
    ensures IsHeader(p + [NEWLINE]) == IsHeader(p)
    ensures IsSection(p + [NEWLINE], section) == IsSection(p, section)
    ensures IsKey(p + [NEWLINE], key) == IsKey(p, key)
  {
    hide IsHeader, IsSection, IsKey;
    HeaderOfLonger(p);
    SectionOfLonger(p, section);
    KeyOfLonger(p, key);
  }

  lemma BlankLineIsNothing(section: string, key: string)
    ensures !IsHeader([NEWLINE]) && !IsSection([NEWLINE], section) && !IsKey([NEWLINE], key)
  {
    hide LastIndex, SameText, SeparatorAt, StripTrailing;
    assert [NEWLINE][1..] == [] && SkipLeading([NEWLINE]) == [];
  }

  /** The first piece of a text with a separator behind it. */
  lemma PieceWithSeparator(rest: string, sep: string, y: string)
    requires NUL !in rest && Separates(sep, rest) && (rest != [] || sep != [])
    ensures rest == [] ==> Piece(rest + sep + y) == [NEWLINE]
    ensures rest != [] && EndsPiece(Piece(rest)) ==>
      Piece(rest + sep + y) == Piece(rest) && (rest + sep + y)[|Piece(rest)|..] == rest[|Piece(rest)|..] + sep + y
    ensures rest != [] && !EndsPiece(Piece(rest)) ==>
      Piece(rest) == rest && sep == [NEWLINE] && Piece(rest + sep + y) == rest + [NEWLINE]
  {
    if rest == [] {
      ReadAsOne([NEWLINE], y, BUFFERSIZE);
      assert rest + sep + y == [NEWLINE] + y;
    } else {
      var p := Piece(rest);
      InnerPieceEnds(rest);
      if EndsPiece(p) {
        var z := rest[|p|..] + sep + y;
        PieceStays(rest, z);
        assert rest + sep + y == p + z;
      } else {
        UnendedPiece(rest);
        ReadAsOne(rest + [NEWLINE], y, BUFFERSIZE);
      }
    }
  }

  lemma UnendedPiece(rest: string)
    requires NUL !in rest && rest != [] && !EndsPiece(Piece(rest))
    ensures rest == Piece(rest) && |rest| < BUFFERSIZE - 1 && NEWLINE !in rest
  {
    InnerPieceEnds(rest);
    FirstPieceIsPiece(rest, BUFFERSIZE);
    assert forall i :: 0 <= i < |rest| ==> NUL !in rest[..i];
  }

  lemma KeyAtNothing(key: string)
    ensures KeyAt([], key, false) == 0
  {}

  lemma KeyAtPiece(all: string, p: string, key: string)
    requires all != [] && Piece(all) == p
    ensures KeyAt(all, key, false) ==
      if IsHeader(p) || IsKey(p, key) then 0 else |p| + KeyAt(all[|p|..], key, false)
  {
    hide FirstPiece, IsHeader, IsKey;
  }

  /** A search that ran to the end goes on behind the separator. */
  lemma {:induction false} KeyToEnd(rest: string, key: string, sep: string, y: string)
    requires NUL !in rest && KeyAt(rest, key, false) == |rest| && Separates(sep, rest)
    ensures KeyAt(rest + sep + y, key, false) == |rest + sep| + KeyAt(y, key, false)
    decreases |rest|
  {
    hide FirstPiece, IsHeader, IsKey, EndsPiece, IsSection, KeyAt;
    var all := rest + sep + y;
    if rest == [] && sep == [] {
      assert all == y;
    } else {
      PieceWithSeparator(rest, sep, y);
      BlankLineIsNothing([], key);
      KeyAtPiece(all, Piece(all), key);
      if rest == [] {
        assert all[1..] == y;
      } else {
        var p := Piece(rest);
        KeyAtPiece(rest, p, key);
        if EndsPiece(p) {
          KeyToEnd(rest[|p|..], key, sep, y);
        } else {
          NewlineChangesNothing(rest, [], key);
          assert all[|rest + [NEWLINE]|..] == y;
        }
      }
    }
  }

  lemma {:induction false} NoSectionToEnd(rest: string, section: string, sep: string, y: string)
    requires NUL !in rest && SectionEnd(rest, section).None? && Separates(sep, rest) && SectionEnd(y, section).Some?
    ensures SectionEnd(rest + sep + y, section) == Some(|rest + sep| + SectionEnd(y, section).value)
    decreases |rest|
  {
    hide FirstPiece, IsSection, EndsPiece, IsHeader, IsKey;
    var all := rest + sep + y;
    if rest == [] && sep == [] {
      assert all == y;
    } else {
      PieceWithSeparator(rest, sep, y);
      var p := Piece(rest);
      BlankLineIsNothing(section, []);
      if rest == [] {
        assert all[1..] == y;
      } else if EndsPiece(p) {
        NoSectionToEnd(rest[|p|..], section, sep, y);
      } else {
        NewlineChangesNothing(rest, section, []);
        assert all[|rest + [NEWLINE]|..] == y;
      }
    }
  }

  /** The header is the last line: the keys start behind it, at or behind the separator. */
  lemma {:induction false} SectionAtEnd(rest: string, section: string, key: string, sep: string, y: string)
    requires NUL !in rest && SectionEnd(rest, section) == Some(|rest|) && rest != [] && Separates(sep, rest)
    ensures
      var r := SectionEnd(rest + sep + y, section);
      && r.Some? && r.value <= |rest + sep + y|
      && r.value + KeyAt((rest + sep + y)[r.value..], key, false) == |rest + sep| + KeyAt(y, key, false)
    decreases |rest|
  {
    hide FirstPiece, IsSection, EndsPiece, IsHeader, IsKey, KeyAt;
    var all := rest + sep + y;
    PieceWithSeparator(rest, sep, y);
    var p := Piece(rest);
    if !EndsPiece(p) {
      NewlineChangesNothing(rest, section, key);
      assert all[|rest + [NEWLINE]|..] == y;
    } else if IsSection(p, section) {
      KeyAtNothing(key);
      assert all[|rest|..] == [] + sep + y;
      KeyToEnd([], key, sep, y);
    } else {
      var tail := rest[|p|..];
      assert tail != [];
      SectionAtEnd(tail, section, key, sep, y);
      var v := SectionEnd(tail + sep + y, section).value;
      assert all[|p|..] == tail + sep + y && all[|p| + v..] == (tail + sep + y)[v..];
    }
  }

  // ----- The new lines are what they should be -----

  lemma {:induction false} FirstIndexOf(a: string, c: char, b: string)
    requires c !in a
    ensures FirstIndex(a + [c] + b, c) == |a|
  {
    if a == [] {
      assert a + [c] + b == [c] + b;
    } else {
      assert (a + [c] + b)[1..] == a[1..] + [c] + b;
      FirstIndexOf(a[1..], c, b);
    }
  }

  lemma KeyLineIsThere(key: string, value: string)
    ensures KeyLine(key, value) != []
  {}

  lemma KeyLineParts(key: string, value: string)
    requires IsValidKey(key)
    ensures
      var w := WrittenValue(value, ValueRoom(key)) + [NEWLINE];
      KeyLine(key, value) == key + ['='] + w
  {
    hide WrittenValue;
    assert KeyText(key) == key;
  }

  /** The line of a setting is read as that setting. */
  lemma KeyLineIsKey(key: string, value: string, size: int)
    requires IsValidKey(key)
    ensures
      var p := KeyLine(key, value);
      && !IsHeader(p) && !IsComment(p) && IsKey(p, key)
      && ValueOf(p, size) == ReadValue(WrittenValue(value, ValueRoom(key)) + [NEWLINE], size)
  {
    hide KeyLine, WrittenValue, FirstIndex, StripTrailing, SkipLeading, ReadValue;
    var p := KeyLine(key, value);
    var w := WrittenValue(value, ValueRoom(key)) + [NEWLINE];
    KeyLineParts(key, value);
    FirstIndexOf(key, '=', w);
    assert p[0] == key[0] && SkipLeading(p) == p;
    assert p[..|key|] == key && p[|key| + 1..] == w;
    assert StripTrailing(key) == key;
  }

  lemma WrittenIsOneLine(value: string, n: nat)
    requires NUL !in value && NEWLINE !in value && n > 0
    ensures |WrittenValue(value, n)| < n && NEWLINE !in WrittenValue(value, n)
  {
    var option := if NeedsQuotes(value) then Enquote else NoQuotes;
    WrittenFits(value, n, option);
    if option == Enquote && n >= 3 {
      EscapedIsOneLine(value[..IniText.Fitting(value, n - 3)]);
    }
  }

  lemma {:induction false} EscapedIsOneLine(v: string)
    requires NEWLINE !in v
    ensures NEWLINE !in Escaped(v)
  {
    if v != [] {
      EscapedIsOneLine(v[1..]);
    }
  }

  /** The line of a setting is read as one piece. */
  lemma KeyLineIsPiece(key: string, value: string, z: string)
    requires IsValidKey(key) && NUL !in value && NEWLINE !in value
    ensures Piece(KeyLine(key, value) + z) == KeyLine(key, value)
    ensures KeyAt(KeyLine(key, value) + z, key, false) == 0
  {
    hide KeyLine, WrittenValue, IsHeader, IsKey, IsComment, FirstPiece;
    KeyLineParts(key, value);
    WrittenIsOneLine(value, ValueRoom(key));
    var p := KeyLine(key, value);
    var v := WrittenValue(value, ValueRoom(key));
    assert KeyText(key) == key;
    assert p[..|p| - 1] == key + ['='] + v;
    ReadAsOne(p, z, BUFFERSIZE);
    KeyLineIsKey(key, value, 1);
  }

  lemma {:induction false} LastIndexOf(a: string, c: char)
    requires c != NEWLINE
    ensures LastIndex(a + [c, NEWLINE], c) == |a|
  {
    var s := a + [c, NEWLINE];
    assert s[..|s| - 1] == a + [c];
    assert LastIndex(a + [c], c) == |a|;
  }

  lemma SectionLineIsPiece(section: string, z: string)
    requires IsValidSection(section)
    ensures Piece(SectionLine(section) + z) == SectionLine(section) == ['['] + section + [']', NEWLINE]
  {
    hide FirstPiece;
    var p := SectionLine(section);
    assert Take(section, BUFFERSIZE - 5) == section;
    assert p == ['['] + section + [']', NEWLINE] && p[..|p| - 1] == ['['] + section + [']'];
    ReadAsOne(p, z, BUFFERSIZE);
  }

  /** The line of a section is read as its header. */
  lemma SectionLineIsSection(section: string, z: string)
    requires IsValidSection(section) && section != []
    ensures SectionEnd(SectionLine(section) + z, section) == Some(|SectionLine(section)|)
  {
    hide LastIndex, FirstPiece, SkipLeading, SectionLine;
    var p := SectionLine(section);
    SectionLineIsPiece(section, z);
    LastIndexOf(['['] + section, ']');
    assert ['['] + section + [']', NEWLINE] == p;
    assert SkipLeading(p) == p && p[1..|section| + 1] == section;
  }

  // ----- Where the new line is found -----

  lemma CutInside(content: string, v: nat, k: nat, y: string)
    requires v + k <= |content|
    ensures content[..v] + (content[v..][..k] + y) == content[..v + k] + y
    ensures (content[..v + k] + y)[v..] == content[v..][..k] + y
  {}

  /** In the middle of the file. */
  lemma FoundInside(content: string, section: string, key: string, y: string, v: nat)
    requires NUL !in content && KeysStart(content, section) == Some(v)
    requires v + KeyAt(content[v..], key, false) < |content|
    ensures
      var at := v + KeyAt(content[v..], key, false);
      Place(content[..at] + y, section, key, false) == Some(at + KeyAt(y, key, false))
  {
    hide SectionEnd, KeyAt;
    var rest := content[v..];
    var k := KeyAt(rest, key, false);
    KeyThrough(rest, key, y);
    CutInside(content, v, k, y);
    if section != [] {
      SectionThrough(content, section, rest[..k] + y);
    }
  }

  lemma SeparatesTail(content: string, sep: string, v: nat)
    requires IsSeparator(sep, content) && v <= |content|
    ensures Separates(sep, content[v..])
  {
    if v < |content| {
      assert content[v..][|content| - v - 1] == content[|content| - 1];
    }
  }

  lemma FoundBehindHeader(content: string, section: string, key: string, sep: string, y: string, v: nat)
    requires NUL !in content && section != [] && SectionEnd(content, section) == Some(v) && v < |content|
    requires IsSeparator(sep, content) && v + KeyAt(content[v..], key, false) == |content|
    ensures Place(content + sep + y, section, key, false) == Some(|content + sep| + KeyAt(y, key, false))
  {
    hide SectionEnd, KeyAt, IsSeparator, Separates;
    var rest := content[v..];
    var text := content + sep + y;
    SeparatesTail(content, sep, v);
    SectionThrough(content, section, rest + sep + y);
    assert content[..v] + (rest + sep + y) == text && text[v..] == rest + sep + y;
    KeyToEnd(rest, key, sep, y);
  }

  lemma FoundWithoutHeader(content: string, key: string, sep: string, y: string)
    requires NUL !in content && IsSeparator(sep, content) && KeyAt(content[0..], key, false) == |content|
    ensures Place(content + sep + y, [], key, false) == Some(|content + sep| + KeyAt(y, key, false))
  {
    hide KeyAt, IsSeparator, Separates, Place;
    SeparatesTail(content, sep, 0);
    assert content[0..] == content;
    PlaceWithoutSection(content + sep + y, key);
    KeyToEnd(content, key, sep, y);
  }

  lemma PlaceWithoutSection(content: string, key: string)
    ensures Place(content, [], key, false) == Some(KeyAt(content, key, false))
  {
    hide KeyAt;
    assert content[0..] == content;
  }

  lemma NoHeaderInNothing(section: string)
    ensures SectionEnd([], section) == None
  {}

  lemma FoundBehindLastHeader(content: string, section: string, key: string, sep: string, y: string)
    requires NUL !in content && section != [] && SectionEnd(content, section) == Some(|content|)
    requires IsSeparator(sep, content)
    ensures Place(content + sep + y, section, key, false) == Some(|content + sep| + KeyAt(y, key, false))
  {
    hide SectionEnd, KeyAt, IsSeparator, Separates;
    NoHeaderInNothing(section);
    SeparatesTail(content, sep, 0);
    assert content[0..] == content;
    SectionAtEnd(content, section, key, sep, y);
  }

  /** At the end of the section that ends the file. */
  lemma FoundAtEnd(content: string, section: string, key: string, sep: string, y: string, v: nat)
    requires NUL !in content && KeysStart(content, section) == Some(v) && IsSeparator(sep, content)
    requires v + KeyAt(content[v..], key, false) == |content|
    ensures Place(content + sep + y, section, key, false) == Some(|content + sep| + KeyAt(y, key, false))
  {
    hide SectionEnd, KeyAt, IsSeparator, Separates, Place;
    if section == [] {
      FoundWithoutHeader(content, key, sep, y);
    } else if v < |content| {
      FoundBehindHeader(content, section, key, sep, y, v);
    } else {
      FoundBehindLastHeader(content, section, key, sep, y);
    }
  }

  /** The new line is where the search for its key ends. */
  lemma NewLineIsFound(content: string, section: string, key: string, value: string, sep: string)
    returns (at: nat, z: string)
    requires NUL !in content && IsValidSection(section) && IsValidKey(key) && NUL !in value && NEWLINE !in value
    requires IsSeparator(sep, content)
    ensures
      var text := Edited(content, section, key, Some(value), sep);
      && Place(text, section, key, false) == Some(at) && at <= |text| && text[at..] == KeyLine(key, value) + z
  {
    hide SectionEnd, KeyAt, FirstPiece, IsHeader, KeyLine, SectionLine, KeysStart, Edited, Place, IsSeparator;
    var line := KeyLine(key, value);
    var s := KeysStart(content, section);
    KeyLineIsPiece(key, value, []);
    assert line + [] == line;
    if s.None? {
      EditedWithoutSection(content, section, key, Some(value), sep);
      NoSection(content, section, key, sep, line);
      at, z := |content + sep| + |SectionLine(section)|, [];
      BehindFour(content, sep, SectionLine(section), line);
    } else {
      EditedFrom(content, section, key, Some(value), sep, s.value);
      var k := s.value + KeyAt(content[s.value..], key, false);
      if k < |content| {
        z := content[if IsHeader(Piece(content[k..])) then k else k + |Piece(content[k..])|..];
        KeyLineIsPiece(key, value, z);
        FoundInside(content, section, key, line + z, s.value);
        at := k;
        BehindTwo(content[..k], line, z);
      } else {
        FoundAtEnd(content, section, key, sep, line, s.value);
        at, z := |content + sep|, [];
        BehindTwo(content + sep, line, []);
        BehindTwo(content, sep, line);
      }
    }
  }

  lemma BehindFour(a: string, b: string, c: string, d: string)
    ensures a + b + (c + d) == a + (b + c + d) == a + b + c + d
    ensures (a + b + c + d)[|a + b| + |c|..] == d
  {}

  lemma BehindTwo(a: string, c: string, d: string)
    ensures a + c + d == a + (c + d) && (a + c + d)[|a|..] == c + d
  {}

  lemma NoSection(content: string, section: string, key: string, sep: string, line: string)
    requires NUL !in content && IsValidSection(section) && KeysStart(content, section) == None
    requires IsSeparator(sep, content) && KeyAt(line, key, false) == 0
    ensures Place(content + sep + (SectionLine(section) + line), section, key, false)
      == Some(|content + sep| + |SectionLine(section)|)
  {
    hide SectionEnd, KeyAt, SectionLine;
    var y := SectionLine(section) + line;
    SectionLineIsSection(section, line);
    NoSectionToEnd(content, section, sep, y);
    assert (content + sep + y)[|content + sep| + |SectionLine(section)|..] == line;
  }

  /**
    After a setting was written, a reader finds its value: exactly if the value was quoted or has
    no outer blanks, when nothing had to be cut off; otherwise, in those two cases, a prefix.
    */
  lemma PutThenGet(content: string, section: string, key: string, value: string, sep: string, size: int)
    requires NUL !in content && IsValidSection(section) && IsValidKey(key) && NUL !in value && NEWLINE !in value
    requires IsSeparator(sep, content) && size >= 1
    ensures
      var r := Lookup(Edited(content, section, key, Some(value), sep), section, key, size);
      && r.Some?
      && (NeedsQuotes(value) || !HasOuterBlank(value) ==> r.value <= value)
      && (IsWhole(value, ValueRoom(key)) && |value| < size ==>
           (r.value == value <==> NeedsQuotes(value) || !HasOuterBlank(value)))
  {
    hide Edited, Place, KeyLine, FirstPiece, IsHeader, ValueOf, ReadValue, WrittenValue, NeedsQuotes, IsWhole;
    var text := Edited(content, section, key, Some(value), sep);
    var at, z := NewLineIsFound(content, section, key, value, sep);
    KeyLineIsPiece(key, value, z);
    KeyLineIsKey(key, value, size);
    PlacesAgree(text, section, key);
    KeyLineIsThere(key, value);
    ValueRoundTrip(value, ValueRoom(key), size);
  }

  lemma PlacesAgree(content: string, section: string, key: string)
    requires IsValidKey(key)
    ensures Place(content, section, key, true) == Place(content, section, key, false)
  {
    hide KeyAt, KeysStart;
    var s := KeysStart(content, section);
    if s.Some? {
      SamePlace(content[s.value..], key);
    }
  }

  lemma CreatedIsFound(section: string, key: string, value: string)
    requires IsValidSection(section) && IsValidKey(key) && NUL !in value && NEWLINE !in value
    ensures
      var text := NewFile(section, key, value);
      var at := if section == [] then 0 else |SectionLine(section)|;
      && Place(text, section, key, false) == Some(at) && at <= |text|
      && text[at..] == KeyLine(key, value) + []
  {
    hide KeyAt, SectionEnd, KeyLine, SectionLine, FirstPiece, IsHeader;
    var line := KeyLine(key, value);
    var text := NewFile(section, key, value);
    KeyLineIsPiece(key, value, []);
    assert line + [] == line;
    if section != [] {
      SectionLineIsSection(section, line);
      assert text[|SectionLine(section)|..] == line;
    } else {
      assert text == line && text[0..] == line;
    }
  }

  /** The same for a file that was created for the setting. */
  lemma CreateThenGet(section: string, key: string, value: string, size: int)
    requires IsValidSection(section) && IsValidKey(key) && NUL !in value && NEWLINE !in value && size >= 1
    ensures
      var r := Lookup(NewFile(section, key, value), section, key, size);
      && r.Some?
      && (NeedsQuotes(value) || !HasOuterBlank(value) ==> r.value <= value)
      && (IsWhole(value, ValueRoom(key)) && |value| < size ==>
           (r.value == value <==> NeedsQuotes(value) || !HasOuterBlank(value)))
  {
    hide Place, KeyLine, SectionLine, Piece, FirstPiece, IsHeader, IsKey;
    hide ValueOf, ReadValue, WrittenValue, NeedsQuotes, IsWhole;
    hide NewFile, IsValidSection, IsValidKey, HasOuterBlank, KeyText, ValueRoom;
    CreatedIsFound(section, key, value);
    KeyLineIsPiece(key, value, []);
    KeyLineIsKey(key, value, size);
    PlacesAgree(NewFile(section, key, value), section, key);
    KeyLineIsThere(key, value);
    ValueRoundTrip(value, ValueRoom(key), size);
  }
}
