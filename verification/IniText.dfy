/** Values in an INI file: how they are quoted when written and cleaned when read. */
module IniText {
  import opened Lines

  const BUFFERSIZE := 512

  datatype QuoteOption = NoQuotes | Enquote | Dequote

  // ----- White space -----

  predicate IsBlank(c: char) {
    NUL < c <= ' '
  }

  function SkipLeading(s: string): (t: string)
    ensures t == [] || !IsBlank(t[0])
    ensures s == [] || !IsBlank(s[0]) ==> t == s
    ensures |t| <= |s| && t == s[|s| - |t|..]
  {
    if s != [] && IsBlank(s[0]) then SkipLeading(s[1..]) else s
  }

  function StripTrailing(s: string): (t: string)
    ensures t <= s
    ensures t == [] || !IsBlank(t[|t| - 1])
    ensures s == [] || !IsBlank(s[|s| - 1]) ==> t == s
  {
    if s != [] && IsBlank(s[|s| - 1]) then StripTrailing(s[..|s| - 1]) else s
  }

  predicate HasOuterBlank(s: string) {
    s != [] && (IsBlank(s[0]) || IsBlank(s[|s| - 1]))
  }

  // ----- Quoting -----

  predicate IsSpecial(c: char) {
    c == '"' || c == ';' || c == '#'
  }

  /** `check_enquote` */
  predicate NeedsQuotes(v: string) {
    (exists i :: 0 <= i < |v| && IsSpecial(v[i])) || (v != [] && v[|v| - 1] == ' ')
  }

  /** Every quote gets a backslash. */
  function Escaped(v: string): (e: string)
    ensures e == [] <==> v == []
    ensures e != [] ==> e[0] != '"'
  {
    if v == [] then []
    else (if v[0] == '"' then ['\\', '"'] else [v[0]]) + Escaped(v[1..])
  }

  /** The number of characters of `v` whose escaped form fits in `room`. */
  function Fitting(v: string, room: int): (k: nat)
    ensures k <= |v|
  {
    if v == [] || |Escaped(v[..1])| > room then 0 else 1 + Fitting(v[1..], room - |Escaped(v[..1])|)
  }

  /** A quote or backslash before a quote is dropped. */
  function Unescaped(s: string): string {
    if s == [] then []
    else if (s[0] == '"' || s[0] == '\\') && |s| > 1 && s[1] == '"' then ['"'] + Unescaped(s[2..])
    else [s[0]] + Unescaped(s[1..])
  }

  function Take(s: string, n: int): (t: string)
    ensures t <= s
  {
    if n < 0 then [] else if n < |s| then s[..n] else s
  }

  /** What `save_strncpy` leaves in a destination of `maxlen` characters. */
  function Copied(source: string, maxlen: int, option: QuoteOption): string {
    match option
    case NoQuotes => Take(source, maxlen - 1)
    case Dequote => Take(Unescaped(source), maxlen - 1)
    case Enquote =>
      if maxlen < 3 then Take(source, maxlen - 1)
      else ['"'] + Escaped(source[..Fitting(source, maxlen - 3)]) + ['"']
  }

  lemma {:induction false} EscapedOfTwo(a: string, b: string)
    ensures Escaped(a + b) == Escaped(a) + Escaped(b)
  {
    if a == [] {
      assert a + b == b;
    } else {
      assert (a + b)[1..] == a[1..] + b;
      EscapedOfTwo(a[1..], b);
    }
  }

  lemma EscapedFront(v: string, j: nat)
    requires 0 < j <= |v|
    ensures |Escaped(v[..j])| == |Escaped(v[..1])| + |Escaped(v[1..][..j - 1])|
  {
    assert v[..j] == v[..1] + v[1..][..j - 1];
    EscapedOfTwo(v[..1], v[1..][..j - 1]);
  }

  /** As much is copied as fits: all of it, or one more character would be too long. */
  lemma {:induction false} FittingIsLongest(v: string, room: int)
    ensures room >= 0 ==> |Escaped(v[..Fitting(v, room)])| <= room
    ensures Fitting(v, room) < |v| ==> |Escaped(v[..Fitting(v, room) + 1])| > room
    ensures Fitting(v, room) == |v| <==> v == [] || |Escaped(v)| <= room
  {
    hide Escaped;
    var k := Fitting(v, room);
    if v == [] {
    } else if |Escaped(v[..1])| <= room {
      var rest := v[1..];
      assert v[..|v|] == v && rest[..|rest|] == rest;
      FittingIsLongest(rest, room - |Escaped(v[..1])|);
      EscapedFront(v, |v|);
      EscapedFront(v, k);
      if k < |v| {
        EscapedFront(v, k + 1);
      }
      assert rest == [] ==> Escaped(rest) == [];
    } else {
      assert v[..|v|] == v;
      EscapedFront(v, |v|);
    }
  }

  lemma {:induction false} UnescapedEscaped(v: string)
    ensures Unescaped(Escaped(v)) == v
  {
    if v != [] {
      UnescapedEscaped(v[1..]);
      var e := Escaped(v[1..]);
      if v[0] == '"' {
        assert (['\\', '"'] + e)[2..] == e;
      } else {
        assert ([v[0]] + e)[1..] == e;
        assert e != [] ==> ([v[0]] + e)[1] == e[0];
      }
    }
  }

  // ----- Reading a value -----

  /** Where `cleanstring` stops scanning: at a comment outside quotes, or the end. */
  function CommentAt(s: string, inString: bool): (k: nat)
    ensures k <= |s|
  {
    if s == [] || ((s[0] == ';' || s[0] == '#') && !inString) then 0
    else if (s[0] == '"' || s[0] == '\\') && |s| > 1 && s[1] == '"' then 2 + CommentAt(s[2..], inString)
    else if s[0] == '"' then 1 + CommentAt(s[1..], !inString)
    else 1 + CommentAt(s[1..], inString)
  }

  predicate IsQuoted(t: string) {
    t != [] && t[0] == '"' && t[|t| - 1] == '"'
  }

  /** What is between the quotes; a single quote counts as both. */
  function Inside(t: string): string {
    if |t| < 2 then [] else t[1..|t| - 1]
  }

  /** `cleanstring`: the text that it leaves, and how it is to be copied. */
  function Cleaned(s: string): (string, QuoteOption) {
    var t := StripTrailing(s[..CommentAt(s, false)]);
    if IsQuoted(t) then (Inside(t), Dequote) else (t, NoQuotes)
  }

  /** The value behind the separator, copied to a buffer of `size` characters. */
  function ReadValue(s: string, size: int): string {
    var (t, option) := Cleaned(SkipLeading(s));
    Copied(t, size, option)
  }

  function WrittenValue(v: string, maxlen: int): string {
    Copied(v, maxlen, if NeedsQuotes(v) then Enquote else NoQuotes)
  }

  /** The value is not cut off when it is written to `maxlen` characters. */
  predicate IsWhole(v: string, maxlen: int) {
    if NeedsQuotes(v) then |Escaped(v)| <= maxlen - 3 else |v| <= maxlen - 1
  }

  /** Otherwise something else is written. */
  lemma WholeIsNotCut(v: string, maxlen: int)
    requires maxlen >= 3
    ensures IsWhole(v, maxlen) <==>
      WrittenValue(v, maxlen) == if NeedsQuotes(v) then ['"'] + Escaped(v) + ['"'] else v
  {
    hide NeedsQuotes, Escaped, Fitting;
    FittingIsLongest(v, maxlen - 3);
    var k := Fitting(v, maxlen - 3);
    assert v[..|v|] == v && v == v[..k] + v[k..];
    EscapedOfTwo(v[..k], v[k..]);
  }

  // ----- The round trip -----

  lemma {:induction false} NoComment(s: string, inString: bool)
    requires IsPlain(s)
    ensures CommentAt(s, inString) == |s|
  {
    if s != [] {
      assert |s| > 1 ==> !IsSpecial(s[1]);
      NoComment(s[1..], inString);
    }
  }

  /** Inside quotes the scan runs over the whole escaped text and its closing quote. */
  lemma {:induction false} NoCommentInside(p: string)
    ensures CommentAt(Escaped(p) + ['"', NEWLINE], true) == |Escaped(p)| + 2
  {
    var s := Escaped(p) + ['"', NEWLINE];
    if p == [] {
      assert s[1..] == [NEWLINE] && [NEWLINE][1..] == [];
    } else {
      var rest := Escaped(p[1..]) + ['"', NEWLINE];
      NoCommentInside(p[1..]);
      if p[0] == '"' {
        assert s == ['\\', '"'] + rest && s[2..] == rest;
      } else {
        assert s == [p[0]] + rest && s[1..] == rest;
        if p == ['\\'] {
          assert s[2..] == [NEWLINE] && [NEWLINE][1..] == [];
        }
      }
    }
  }

  lemma QuotedHasNoComment(p: string)
    ensures
      var s := ['"'] + Escaped(p) + ['"'] + [NEWLINE];
      CommentAt(s, false) == |s|
  {
    var e := Escaped(p);
    var s := ['"'] + e + ['"'] + [NEWLINE];
    NoCommentInside(p);
    if p == [] {
      assert s[2..] == [NEWLINE] && [NEWLINE][1..] == [];
    } else {
      assert s[1..] == e + ['"', NEWLINE];
    }
  }

  lemma QuotedIsCleaned(p: string)
    ensures
      var q := ['"'] + Escaped(p) + ['"'];
      Cleaned(q + [NEWLINE]) == (Escaped(p), Dequote)
  {
    QuotedHasNoComment(p);
    hide CommentAt, Escaped;
    var q := ['"'] + Escaped(p) + ['"'];
    var s := q + [NEWLINE];
    assert s[..|s|] == s && s[..|s| - 1] == q;
    assert StripTrailing(s) == StripTrailing(q) == q;
    assert Inside(q) == Escaped(p);
  }

  /** A quoted value is read as the part of it that was written. */
  lemma QuotedRoundTrip(v: string, maxlen: int, size: int)
    requires NeedsQuotes(v) && maxlen >= 3
    ensures ReadValue(WrittenValue(v, maxlen) + [NEWLINE], size) == Take(v[..Fitting(v, maxlen - 3)], size - 1)
  {
    var p := v[..Fitting(v, maxlen - 3)];
    QuotedIsCleaned(p);
    UnescapedEscaped(p);
    assert WrittenValue(v, maxlen) == ['"'] + Escaped(p) + ['"'];
    var s := WrittenValue(v, maxlen) + [NEWLINE];
    assert SkipLeading(s) == s;
  }

  lemma StripsOneNewline(s: string)
    ensures StripTrailing(s + [NEWLINE]) == StripTrailing(s)
  {
    assert (s + [NEWLINE])[..|s|] == s;
  }

  lemma {:induction false} StripsNewline(s: string)
    ensures StripTrailing(SkipLeading(s + [NEWLINE])) == StripTrailing(SkipLeading(s))
  {
    hide StripTrailing;
    var all := s + [NEWLINE];
    if s == [] {
      assert SkipLeading(all) == all[1..] by { assert all[1..] == []; }
    } else if IsBlank(s[0]) {
      assert all[1..] == s[1..] + [NEWLINE];
      StripsNewline(s[1..]);
    } else {
      StripsOneNewline(s);
    }
  }

  predicate IsPlain(s: string) {
    forall i :: 0 <= i < |s| ==> !IsSpecial(s[i])
  }

  lemma RestIsPlain(w: string)
    requires IsPlain(w)
    ensures IsPlain(SkipLeading(w + [NEWLINE]))
  {
    hide SkipLeading;
    var all := w + [NEWLINE];
    var s := SkipLeading(all);
    forall i | 0 <= i < |s|
      ensures !IsSpecial(s[i])
    {
      assert s[i] == all[|all| - |s| + i];
    }
  }

  lemma PlainIsUnquoted(s: string, t: string)
    requires IsPlain(s) && t <= s
    ensures !IsQuoted(t)
  {
    assert t != [] ==> t[0] == s[0];
  }

  /** A plain text is read without its outer blanks. */
  lemma PlainIsStripped(w: string, size: int)
    requires IsPlain(w)
    ensures ReadValue(w + [NEWLINE], size) == Take(StripTrailing(SkipLeading(w)), size - 1)
  {
    hide CommentAt, StripTrailing, SkipLeading, Unescaped, Take, IsPlain, Cleaned, IsQuoted;
    var s := SkipLeading(w + [NEWLINE]);
    RestIsPlain(w);
    NoComment(s, false);
    StripsNewline(w);
    PlainIsUnquoted(s, StripTrailing(s));
    UncommentedIsCleaned(s);
  }

  lemma UncommentedIsCleaned(s: string)
    requires CommentAt(s, false) == |s| && !IsQuoted(StripTrailing(s))
    ensures Cleaned(s) == (StripTrailing(s), NoQuotes)
  {
    assert s[..|s|] == s;
  }

  lemma LoneSpecialIsDropped(c: char)
    requires IsSpecial(c)
    ensures Cleaned([c, NEWLINE]).0 == [] && Cleaned([c, NEWLINE]).1 != Enquote
  {
    var s := [c, NEWLINE];
    assert s[1..] == [NEWLINE] && [NEWLINE][1..] == [];
    if c == '"' {
      assert CommentAt([NEWLINE], true) == 1 && CommentAt(s, false) == 2;
      assert s[..2] == s && s[..1] == [c];
      assert StripTrailing(s) == StripTrailing([c]) == [c];
    } else {
      assert CommentAt(s, false) == 0 && s[..0] == [];
    }
  }

  /** At most one character of a value that is to be quoted is written if quotes do not fit. */
  lemma TinyIsPrefix(v: string, maxlen: int, size: int)
    requires NeedsQuotes(v) && 1 <= maxlen < 3 && size >= 1
    ensures ReadValue(WrittenValue(v, maxlen) + [NEWLINE], size) <= v
  {
    var w := Take(v, maxlen - 1);
    assert WrittenValue(v, maxlen) == w && |w| <= 1;
    if IsPlain(w) {
      hide ReadValue, WrittenValue, NeedsQuotes, IsPlain;
      PlainIsStripped(w, size);
      LoneIsKeptOrDropped(w);
    } else {
      assert w + [NEWLINE] == [v[0], NEWLINE];
      hide WrittenValue, NeedsQuotes, IsPlain;
      LoneSpecialIsRead(v[0], size);
    }
  }

  lemma LoneIsKeptOrDropped(w: string)
    requires |w| <= 1
    ensures StripTrailing(SkipLeading(w)) == w || StripTrailing(SkipLeading(w)) == []
  {
    hide SkipLeading, StripTrailing;
    var s := SkipLeading(w);
    var t := StripTrailing(s);
    if t != [] {
      assert |t| == |s| == |w| == 1 && t[0] == s[0] == w[0];
    }
  }

  lemma LoneSpecialIsRead(c: char, size: int)
    requires IsSpecial(c)
    ensures ReadValue([c, NEWLINE], size) == []
  {
    LoneSpecialIsDropped(c);
    hide Cleaned, SkipLeading;
    assert Unescaped([]) == [];
  }

  /**
    What is read back of a written value: the value itself exactly if it was quoted or has no
    outer blanks, provided that nothing was cut off; and a prefix of it in any case of those two.
    */
  lemma ValueRoundTrip(v: string, maxlen: int, size: int)
    requires 1 <= maxlen && 1 <= size
    ensures NeedsQuotes(v) || !HasOuterBlank(v) ==> ReadValue(WrittenValue(v, maxlen) + [NEWLINE], size) <= v
    ensures IsWhole(v, maxlen) && |v| < size ==>
      (ReadValue(WrittenValue(v, maxlen) + [NEWLINE], size) == v <==> NeedsQuotes(v) || !HasOuterBlank(v))
  {
    hide ReadValue, WrittenValue, NeedsQuotes;
    if NeedsQuotes(v) {
      if maxlen < 3 {
        TinyIsPrefix(v, maxlen, size);
      } else {
        QuotedRoundTrip(v, maxlen, size);
        FittingIsLongest(v, maxlen - 3);
        assert v[..|v|] == v;
      }
    } else {
      PlainRoundTrip(v, maxlen, size);
    }
  }

  lemma PlainRoundTrip(v: string, maxlen: int, size: int)
    requires 1 <= maxlen && 1 <= size && !NeedsQuotes(v)
    ensures !HasOuterBlank(v) ==> ReadValue(WrittenValue(v, maxlen) + [NEWLINE], size) <= v
    ensures |v| < maxlen && |v| < size ==>
      (ReadValue(WrittenValue(v, maxlen) + [NEWLINE], size) == v <==> !HasOuterBlank(v))
  {
    var w := Take(v, maxlen - 1);
    assert WrittenValue(v, maxlen) == w;
    assert IsPlain(w);
    hide ReadValue, WrittenValue, NeedsQuotes, StripTrailing, SkipLeading, IsPlain;
    PlainIsStripped(w, size);
    StrippedPrefix(v, w);
  }

  lemma StrippedPrefix(v: string, w: string)
    requires w <= v
    ensures !HasOuterBlank(v) ==> StripTrailing(SkipLeading(w)) <= v
    ensures w == v ==> (StripTrailing(SkipLeading(w)) == v <==> !HasOuterBlank(v))
  {
    hide SkipLeading, StripTrailing;
    var s := SkipLeading(w);
    var t := StripTrailing(s);
    assert !HasOuterBlank(v) ==> s == w;
    assert t != [] ==> t[0] == s[0];
  }
}
