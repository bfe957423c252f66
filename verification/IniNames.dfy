/**
  Which lines a name finds, stated on the characters of the line: the name stands between blanks and
  its separator or brackets, and letters count alike in both cases.
  */
module IniNames {
  import opened IniFile
  import opened IniText
  import opened IniWrite
  import opened Wrappers

  // ----- Letter case -----

  /** A capital letter and its small one. */
  predicate IsCasePair(c: char, d: char) {
    'A' <= c <= 'Z' && d as int == c as int + 32
  }

  /** Two names that differ only in the case of ASCII letters. */
  predicate IsCaseVariant(a: string, b: string) {
    |a| == |b| && forall i :: 0 <= i < |a| ==> a[i] == b[i] || IsCasePair(a[i], b[i]) || IsCasePair(b[i], a[i])
  }

  lemma FoldedAlike(c: char, d: char)
    ensures Fold(c) == Fold(d) <==> c == d || IsCasePair(c, d) || IsCasePair(d, c)
  {}

  lemma SameTextIsVariant(a: string, b: string)
    ensures SameText(a, b) <==> IsCaseVariant(a, b)
  {
    hide Fold, IsCasePair;
    if |a| == |b| {
      forall i | 0 <= i < |a|
        ensures Fold(a[i]) == Fold(b[i]) <==> a[i] == b[i] || IsCasePair(a[i], b[i]) || IsCasePair(b[i], a[i])
      {
        FoldedAlike(a[i], b[i]);
      }
    }
  }

  lemma SameTextJoins(a: string, b: string, c: string)
    requires SameText(b, c)
    ensures SameText(a, b) <==> SameText(a, c)
    ensures SameText(b, a) <==> SameText(c, a)
  {
    hide Fold;
  }

  /** Names in different case are the same name on every line. */
  lemma VariantsFindSameLines(line: string, name: string, other: string)
    requires IsCaseVariant(name, other)
    ensures IsKey(line, name) <==> IsKey(line, other)
    ensures IsSection(line, name) <==> IsSection(line, other)
  {
    hide SkipLeading, SeparatorAt, StripTrailing, LastIndex, SameText;
    SameTextIsVariant(name, other);
    NameIsNotEmpty(name, other);
    var sp := SkipLeading(line);
    var e, f := SeparatorAt(sp), LastIndex(sp, ']');
    SameTextJoins(StripTrailing(sp[..e]), name, other);
    if f >= 1 {
      SameTextJoins(sp[1..f], name, other);
    }
  }

  /** No line has two names that differ in anything else. */
  lemma OneNamePerLine(line: string, name: string, other: string)
    requires (IsKey(line, name) && IsKey(line, other)) || (IsSection(line, name) && IsSection(line, other))
    ensures IsCaseVariant(name, other)
  {
    hide SkipLeading, SeparatorAt, StripTrailing, LastIndex, SameText, IsCaseVariant;
    SameTextIsVariant(name, other);
    var sp := SkipLeading(line);
    if IsKey(line, name) && IsKey(line, other) {
      SameTextJoins(other, StripTrailing(sp[..SeparatorAt(sp)]), name);
      SameTextTurned(StripTrailing(sp[..SeparatorAt(sp)]), other);
    } else {
      SameTextJoins(other, sp[1..LastIndex(sp, ']')], name);
      SameTextTurned(sp[1..LastIndex(sp, ']')], other);
    }
    SameTextTurned(name, other);
  }

  lemma SameTextTurned(a: string, b: string)
    ensures SameText(a, b) <==> SameText(b, a)
  {
    hide Fold;
  }

  lemma {:induction false} SectionInAnyCase(rest: string, name: string, other: string)
    requires IsCaseVariant(name, other)
    ensures SectionEnd(rest, name) == SectionEnd(rest, other)
    decreases |rest|
  {
    hide FirstPiece, IsSection, IsCaseVariant;
    if rest != [] {
      VariantsFindSameLines(Piece(rest), name, other);
      SectionInAnyCase(rest[|Piece(rest)|..], name, other);
    }
  }

  lemma {:induction false} KeyInAnyCase(rest: string, name: string, other: string, reading: bool)
    requires IsCaseVariant(name, other)
    ensures KeyAt(rest, name, reading) == KeyAt(rest, other, reading)
    decreases |rest|
  {
    hide FirstPiece, IsKey, IsHeader, IsComment, IsCaseVariant;
    if rest != [] {
      VariantsFindSameLines(Piece(rest), name, other);
      KeyInAnyCase(rest[|Piece(rest)|..], name, other, reading);
    }
  }

  /** A setting is found, and replaced or deleted, whatever the case of its section and its key. */
  lemma CaseDoesNotMatter(content: string, section: string, key: string, section': string, key': string)
    requires IsCaseVariant(section, section') && IsCaseVariant(key, key')
    ensures forall size :: Lookup(content, section, key, size) == Lookup(content, section', key', size)
    ensures forall reading :: Place(content, section, key, reading) == Place(content, section', key', reading)
    ensures forall sep :: Edited(content, section, key, None, sep) == Edited(content, section', key', None, sep)
  {
    hide SectionEnd, KeyAt, Piece, IsHeader, ValueOf;
    SectionInAnyCase(content, section, section');
    forall reading
      ensures Place(content, section, key, reading) == Place(content, section', key', reading)
    {
      var s := KeysStart(content, section);
      if s.Some? {
        KeyInAnyCase(content[s.value..], key, key', reading);
      }
    }
  }

  // ----- The shape of a line -----

  predicate IsWhite(c: char) { '\0' < c <= ' ' }

  predicate AreWhite(s: string) {
    forall i :: 0 <= i < |s| ==> IsWhite(s[i])
  }

  /** From `a` on, the separator is the first equal sign, or the first colon if there is none. */
  predicate IsSeparatorOf(line: string, a: nat, e: nat)
    requires a <= e < |line|
  {
    || (line[e] == '=' && '=' !in line[a..e])
    || (line[e] == ':' && '=' !in line[a..] && ':' !in line[a..e])
  }

  predicate IsNameOf(line: string, a: nat, b: nat, e: nat)
    requires a < b <= e < |line|
  {
    && AreWhite(line[..a]) && AreWhite(line[b..e]) && !IsWhite(line[a]) && !IsWhite(line[b - 1])
    && IsSeparatorOf(line, a, e)
  }

  /** The line has the key between blanks in front of its separator. */
  ghost predicate IsKeyLine(line: string, key: string) {
    exists a, b, e :: 0 <= a < b <= e < |line| && IsNameOf(line, a, b, e) && IsCaseVariant(line[a..b], key)
  }

  predicate IsBracketed(line: string, a: nat, e: nat)
    requires a < e < |line|
  {
    AreWhite(line[..a]) && line[a] == '[' && line[e] == ']' && ']' !in line[e + 1..]
  }

  /** The line has the section between its first character and its last closing bracket. */
  ghost predicate IsSectionLine(line: string, section: string) {
    exists a, e :: 0 <= a < e < |line| && IsBracketed(line, a, e) && IsCaseVariant(line[a + 1..e], section)
  }

  lemma {:induction false} SkippedAre(s: string)
    ensures AreWhite(s[..|s| - |SkipLeading(s)|])
    decreases |s|
  {
    if s != [] && IsBlank(s[0]) {
      SkippedAre(s[1..]);
      var n := |s| - |SkipLeading(s)|;
      assert s[..n] == [s[0]] + s[1..][..n - 1];
    }
  }

  lemma {:induction false} SkipIs(s: string, a: nat)
    requires a <= |s| && AreWhite(s[..a]) && (a < |s| ==> !IsWhite(s[a]))
    ensures SkipLeading(s) == s[a..]
    decreases a
  {
    if a > 0 {
      assert s[..a][0] == s[0] && s[1..][..a - 1] == s[..a][1..];
      SkipIs(s[1..], a - 1);
      assert s[1..][a - 1..] == s[a..];
    } else {
      assert s[0..] == s;
    }
  }

  lemma {:induction false} StrippedAre(s: string)
    ensures AreWhite(s[|StripTrailing(s)|..])
    decreases |s|
  {
    if s != [] && IsBlank(s[|s| - 1]) {
      StrippedAre(s[..|s| - 1]);
      var n := |StripTrailing(s)|;
      assert s[n..] == s[..|s| - 1][n..] + [s[|s| - 1]];
    }
  }

  lemma {:induction false} StripIs(s: string, b: nat)
    requires b <= |s| && AreWhite(s[b..]) && (b > 0 ==> !IsWhite(s[b - 1]))
    ensures StripTrailing(s) == s[..b]
    decreases |s|
  {
    if b < |s| {
      assert s[b..][|s| - 1 - b] == s[|s| - 1] && s[..|s| - 1][b..] == s[b..][..|s| - 1 - b];
      StripIs(s[..|s| - 1], b);
      assert s[..|s| - 1][..b] == s[..b];
    } else {
      assert s[..b] == s;
    }
  }

  lemma FirstIs(s: string, c: char, k: nat)
    requires k <= |s| && c !in s[..k] && (k < |s| ==> s[k] == c)
    ensures FirstIndex(s, c) == k
  {
    hide FirstIndex;
    var f := FirstIndex(s, c);
    assert forall i :: 0 <= i < k ==> s[i] == s[..k][i];
    assert forall i :: 0 <= i < f ==> s[i] == s[..f][i];
  }

  lemma SeparatorIs(line: string, a: nat, e: nat)
    requires a <= e < |line|
    ensures SeparatorAt(line[a..]) == e - a <==> IsSeparatorOf(line, a, e)
  {
    hide FirstIndex;
    var sp, k := line[a..], e - a;
    assert sp[..k] == line[a..e] && sp[k] == line[e];
    if line[e] == '=' && '=' !in line[a..e] {
      FirstIs(sp, '=', k);
    } else if line[e] == ':' && '=' !in line[a..] && ':' !in line[a..e] {
      FirstIs(sp, '=', |sp|);
      FirstIs(sp, ':', k);
    }
    if SeparatorAt(sp) == k && FirstIndex(sp, '=') == |sp| {
      assert sp[..|sp|] == sp;
    }
  }

  lemma Slices(line: string, a: nat, b: nat, e: nat)
    requires a <= b <= e <= |line|
    ensures line[a..][..e - a] == line[a..e]
    ensures line[a..e][..b - a] == line[a..b] && line[a..e][b - a..] == line[b..e]
  {}

  /** A header or a comment is told by the first sign that is not white. */
  ghost predicate StartsWith(line: string, signs: string) {
    exists a :: 0 <= a < |line| && AreWhite(line[..a]) && line[a] in signs
  }

  lemma FirstSignDecides(line: string)
    ensures IsHeader(line) <==> StartsWith(line, "[")
    ensures IsComment(line) <==> StartsWith(line, ";#")
  {
    hide SkipLeading, AreWhite;
    var sp := SkipLeading(line);
    var a := |line| - |sp|;
    SkippedAre(line);
    if sp != [] {
      assert sp[0] == line[a];
    }
    forall b | 0 <= b < |line| && AreWhite(line[..b]) && line[b] in "[;#"
      ensures a == b
    {
      SkipIs(line, b);
    }
    if StartsWith(line, "[") {
      var b :| 0 <= b < |line| && AreWhite(line[..b]) && line[b] in "[";
    }
    if StartsWith(line, ";#") {
      var b :| 0 <= b < |line| && AreWhite(line[..b]) && line[b] in ";#";
    }
  }

  /** The parts of a line with a key are where the code finds them. */
  lemma KeyParts(line: string, key: string) returns (a: nat, b: nat, e: nat)
    requires IsKey(line, key)
    ensures a < b <= e < |line| && IsNameOf(line, a, b, e) && IsCaseVariant(line[a..b], key)
  {
    hide SkipLeading, StripTrailing, SeparatorAt, FirstIndex, IsSeparatorOf, SameText, IsCaseVariant, AreWhite;
    var sp := SkipLeading(line);
    a := |line| - |sp|;
    e := a + SeparatorAt(sp);
    var name := StripTrailing(sp[..e - a]);
    b := a + |name|;
    assert sp == line[a..];
    Slices(line, a, b, e);
    assert name == line[a..e][..b - a];
    SkippedAre(line);
    StrippedAre(line[a..e]);
    SeparatorIs(line, a, e);
    SameTextIsVariant(name, key);
    NameIsNotEmpty(name, key);
    assert name[0] == sp[0] == line[a] && name[|name| - 1] == line[b - 1];
  }

  lemma PartsAreKey(line: string, key: string, a: nat, b: nat, e: nat)
    requires a < b <= e < |line| && IsNameOf(line, a, b, e) && IsCaseVariant(line[a..b], key)
    ensures IsKey(line, key)
  {
    hide SkipLeading, StripTrailing, SeparatorAt, FirstIndex, IsSeparatorOf, SameText, IsCaseVariant, AreWhite;
    SkipIs(line, a);
    SeparatorIs(line, a, e);
    var t := line[a..e];
    Slices(line, a, b, e);
    assert t[b - a - 1] == line[b - 1];
    StripIs(t, b - a);
    SameTextIsVariant(line[a..b], key);
    NameIsNotEmpty(line[a..b], key);
  }

  lemma KeyShape(line: string, key: string)
    ensures IsKey(line, key) <==> IsKeyLine(line, key)
  {
    hide IsKey, IsNameOf, IsCaseVariant;
    if IsKey(line, key) {
      var a, b, e := KeyParts(line, key);
    }
    if IsKeyLine(line, key) {
      var a, b, e :| 0 <= a < b <= e < |line| && IsNameOf(line, a, b, e) && IsCaseVariant(line[a..b], key);
      PartsAreKey(line, key, a, b, e);
    }
  }

  lemma NameIsNotEmpty(name: string, key: string)
    requires IsCaseVariant(name, key)
    ensures name == [] <==> key == []
  {}

  lemma LastIs(s: string, c: char, k: nat)
    requires k < |s| && s[k] == c && c !in s[k + 1..]
    ensures LastIndex(s, c) == k
  {
    hide LastIndex;
    var f := LastIndex(s, c);
    assert forall i :: k < i < |s| ==> s[i] == s[k + 1..][i - k - 1];
    assert forall i :: f < i < |s| ==> s[i] == s[f + 1..][i - f - 1];
  }

  lemma SectionParts(line: string, section: string) returns (a: nat, e: nat)
    requires IsSection(line, section)
    ensures a < e < |line| && IsBracketed(line, a, e) && IsCaseVariant(line[a + 1..e], section)
  {
    hide SkipLeading, LastIndex, AreWhite, SameText, IsCaseVariant;
    var sp := SkipLeading(line);
    a := |line| - |sp|;
    e := a + LastIndex(sp, ']');
    SkippedAre(line);
    assert sp[1..e - a] == line[a + 1..e] && sp[e - a + 1..] == line[e + 1..];
    assert sp[0] == line[a] && sp[e - a] == line[e];
    SameTextIsVariant(line[a + 1..e], section);
  }

  lemma PartsAreSection(line: string, section: string, a: nat, e: nat)
    requires a < e < |line| && IsBracketed(line, a, e) && IsCaseVariant(line[a + 1..e], section)
    ensures IsSection(line, section)
  {
    hide SkipLeading, LastIndex, AreWhite, SameText, IsCaseVariant;
    SkipIs(line, a);
    var sp := line[a..];
    assert sp[e - a + 1..] == line[e + 1..] && sp[1..e - a] == line[a + 1..e] && sp[e - a] == line[e];
    LastIs(sp, ']', e - a);
    SameTextIsVariant(line[a + 1..e], section);
    SameLengthOf(line[a + 1..e], section);
  }

  lemma SectionShape(line: string, section: string)
    ensures IsSection(line, section) <==> IsSectionLine(line, section)
  {
    hide IsSection, IsBracketed, IsCaseVariant;
    if IsSection(line, section) {
      var a, e := SectionParts(line, section);
    }
    if IsSectionLine(line, section) {
      var a, e :| 0 <= a < e < |line| && IsBracketed(line, a, e) && IsCaseVariant(line[a + 1..e], section);
      PartsAreSection(line, section, a, e);
    }
  }

  lemma SameLengthOf(a: string, b: string)
    requires IsCaseVariant(a, b)
    ensures |a| == |b|
  {}
}
