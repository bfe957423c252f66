/** The C strings of the INI library: copied, quoted and cleaned inside fixed buffers. */
module IniBuffer {
  import opened IniText
  import opened Lines

  /** At `at` stands the terminated string `s`. */
  predicate HoldsAt(cells: seq<char>, at: nat, s: string) {
    at + |s| < |cells| && cells[at..at + |s|] == s && cells[at + |s|] == NUL
  }

  /** Outside `from` to `to` nothing has changed. */
  predicate SameOutside(before: seq<char>, after: seq<char>, from: nat, to: nat) {
    |after| == |before| && forall i :: 0 <= i < |after| && !(from <= i < to) ==> after[i] == before[i]
  }

  lemma SameAsItself(cells: seq<char>, from: nat, to: nat)
    ensures SameOutside(cells, cells, from, to)
  {}

  lemma NothingToUnescape()
    ensures Unescaped([]) == []
  {}

  lemma TakenSoFar(t: string, rest: string, n: nat)
    requires |t| <= n && (rest == [] || |t| == n)
    ensures Take(t + rest, n) == t
  {}

  /** One more character behind the `d` characters `t` at `at`. */
  method PutChar(dest: array<char>, at: nat, d: nat, c: char, ghost t: string, ghost start: seq<char>, ghost end: nat)
    returns (ghost u: string)
    requires d == |t| && at + d < end <= dest.Length
    requires dest[at..at + d] == t && SameOutside(start, dest[..], at, end)
    modifies dest
    ensures u == t + [c] && dest[at..at + d + 1] == u && SameOutside(start, dest[..], at, end)
  {
    dest[at + d] := c;
    u := t + [c];
  }

  /** The terminating zero. */
  method PutEnd(dest: array<char>, at: nat, d: nat, ghost t: string, ghost start: seq<char>, ghost end: nat)
    requires d == |t| && at + d < end <= dest.Length
    requires dest[at..at + d] == t && SameOutside(start, dest[..], at, end)
    modifies dest
    ensures HoldsAt(dest[..], at, t) && SameOutside(start, dest[..], at, end)
  {
    dest[at + d] := NUL;
  }

  method CopyPlain(dest: array<char>, at: nat, source: string, maxlen: nat)
    requires 0 < maxlen && at + maxlen <= dest.Length
    modifies dest
    ensures HoldsAt(dest[..], at, Take(source, maxlen - 1))
    ensures SameOutside(old(dest[..]), dest[..], at, at + maxlen)
  {
    var d := 0;
    ghost var t := [];
    ghost var start := dest[..];
    while d < maxlen - 1 && d < |source|
      invariant d <= maxlen - 1 && d <= |source|
      invariant t == source[..d] && dest[at..at + d] == t
      invariant SameOutside(start, dest[..], at, at + maxlen)
    {
      t := PutChar(dest, at, d, source[d], t, start, at + maxlen);
      d := d + 1;
    }
    PutEnd(dest, at, d, t, start, at + maxlen);
    assert Take(source, maxlen - 1) == t;
  }

  /** One round of the quoting loop: the next character, escaped. */
  lemma NextEscaped(source: string, s: nat, room: int)
    requires s < |source|
    ensures Escaped(source[..s + 1]) == Escaped(source[..s]) + if source[s] == '"' then ['\\', '"'] else [source[s]]
    ensures
      var cost := if source[s] == '"' then 2 else 1;
      Fitting(source[s..], room) == if cost > room then 0 else 1 + Fitting(source[s + 1..], room - cost)
  {
    assert source[..s + 1] == source[..s] + [source[s]];
    EscapedOfTwo(source[..s], [source[s]]);
    assert [source[s]][1..] == [] && Escaped([]) == [];
    assert source[s..][..1] == [source[s]] && source[s..][1..] == source[s + 1..];
  }

  lemma NoRoom(v: string)
    ensures Fitting(v, 0) == 0 && Fitting([], 0) == 0
  {}

  lemma NothingLeft(room: int)
    ensures Fitting([], room) == 0 && Escaped([]) == []
  {}

  method CopyEnquoted(dest: array<char>, at: nat, source: string, maxlen: nat)
    requires 3 <= maxlen && at + maxlen <= dest.Length
    modifies dest
    ensures HoldsAt(dest[..], at, ['"'] + Escaped(source[..Fitting(source, maxlen - 3)]) + ['"'])
    ensures SameOutside(old(dest[..]), dest[..], at, at + maxlen)
  {
    hide Escaped, Fitting, SameOutside, HoldsAt;
    ghost var start, end := dest[..], at + maxlen;
    SameAsItself(start, at, end);
    ghost var t := PutChar(dest, at, 0, '"', [], start, end);
    var d, s := 1, 0;
    NothingLeft(0);
    assert source[..0] == [] && source[0..] == source;
    while s < |source| && d < maxlen - 2
      invariant s <= |source| && 1 <= d <= maxlen - 2
      invariant t == ['"'] + Escaped(source[..s]) && |t| == d && dest[at..at + d] == t
      invariant Fitting(source, maxlen - 3) == s + Fitting(source[s..], maxlen - 2 - d)
      invariant SameOutside(start, dest[..], at, end)
      decreases |source| - s
    {
      NextEscaped(source, s, maxlen - 2 - d);
      if source[s] == '"' {
        if d >= maxlen - 3 {
          assert Fitting(source[s..], maxlen - 2 - d) == 0;
          break;
        }
        t := PutChar(dest, at, d, '\\', t, start, end);
        d := d + 1;
      }
      t := PutChar(dest, at, d, source[s], t, start, end);
      assert t == ['"'] + Escaped(source[..s + 1]);
      s, d := s + 1, d + 1;
    }
    NoRoom(source[s..]);
    NothingLeft(maxlen - 2 - d);
    assert s == |source| ==> source[s..] == [];
    t := PutChar(dest, at, d, '"', t, start, end);
    PutEnd(dest, at, d + 1, t, start, end);
  }

  method CopyDequoted(dest: array<char>, at: nat, source: string, maxlen: nat)
    requires 0 < maxlen && at + maxlen <= dest.Length
    modifies dest
    ensures HoldsAt(dest[..], at, Take(Unescaped(source), maxlen - 1))
    ensures SameOutside(old(dest[..]), dest[..], at, at + maxlen)
  {
    hide Unescaped, SameOutside, HoldsAt, Take;
    ghost var start, end := dest[..], at + maxlen;
    SameAsItself(start, at, end);
    ghost var t := [];
    var d, s := 0, 0;
    assert source[0..] == source;
    while s < |source| && d < maxlen - 1
      invariant s <= |source| && d <= maxlen - 1
      invariant Unescaped(source) == t + Unescaped(source[s..]) && |t| == d && dest[at..at + d] == t
      invariant SameOutside(start, dest[..], at, end)
      decreases |source| - s
    {
      NextUnescaped(source, s);
      if (source[s] == '"' || source[s] == '\\') && s + 1 < |source| && source[s + 1] == '"' {
        s := s + 1;
      }
      MoveOne(t, source[s], Unescaped(source[s + 1..]));
      t := PutChar(dest, at, d, source[s], t, start, end);
      s, d := s + 1, d + 1;
    }
    PutEnd(dest, at, d, t, start, end);
    NothingToUnescape();
    assert s == |source| ==> source[s..] == [];
    TakenSoFar(t, Unescaped(source[s..]), maxlen - 1);
  }

  lemma MoveOne(a: string, c: char, b: string)
    ensures a + ([c] + b) == (a + [c]) + b
  {}

  lemma NextUnescaped(source: string, s: nat)
    requires s < |source|
    ensures
      if (source[s] == '"' || source[s] == '\\') && s + 1 < |source| && source[s + 1] == '"'
      then Unescaped(source[s..]) == [source[s + 1]] + Unescaped(source[s + 2..])
      else Unescaped(source[s..]) == [source[s]] + Unescaped(source[s + 1..])
  {
    var t := source[s..];
    assert t[1..] == source[s + 1..];
    if s + 1 < |source| {
      assert t[2..] == source[s + 2..];
    }
  }

  /** `save_strncpy` */
  method SaveStrncpy(dest: array<char>, at: nat, source: string, maxlen: nat, option: QuoteOption)
    requires 0 < maxlen && at + maxlen <= dest.Length
    modifies dest
    ensures HoldsAt(dest[..], at, Copied(source, maxlen, option))
    ensures SameOutside(old(dest[..]), dest[..], at, at + maxlen)
  {
    hide HoldsAt, SameOutside, Take, Unescaped, Escaped, Fitting;
    match option {
      case NoQuotes =>
        CopyPlain(dest, at, source, maxlen);
      case Enquote =>
        if maxlen < 3 {
          CopyPlain(dest, at, source, maxlen);
        } else {
          CopyEnquoted(dest, at, source, maxlen);
        }
      case Dequote =>
        CopyDequoted(dest, at, source, maxlen);
    }
  }

  /** A string and the one right behind it. */
  lemma Joined(before: seq<char>, cells: seq<char>, s: string, at: nat, t: string, end: nat)
    requires HoldsAt(before, 0, s) && at == |s| && SameOutside(before, cells, at, end) && HoldsAt(cells, at, t)
    ensures HoldsAt(cells, 0, s + t)
  {
    assert cells[0..at] == before[0..|s|];
    assert cells[0..at + |t|] == cells[0..at] + cells[at..at + |t|];
  }

  // ----- Cleaning in place -----

  lemma NextScanned(s: string, i: nat, inString: bool)
    requires i < |s|
    ensures
      var pair := (s[i] == '"' || s[i] == '\\') && i + 1 < |s| && s[i + 1] == '"';
      if (s[i] == ';' || s[i] == '#') && !inString then CommentAt(s[i..], inString) == 0
      else if pair then CommentAt(s[i..], inString) == 2 + CommentAt(s[i + 2..], inString)
      else CommentAt(s[i..], inString) == 1 + CommentAt(s[i + 1..], if s[i] == '"' then !inString else inString)
  {
    var t := s[i..];
    assert t[1..] == s[i + 1..];
    if i + 1 < |s| {
      assert t[2..] == s[i + 2..];
    }
  }

  lemma NothingToScan(inString: bool)
    ensures CommentAt([], inString) == 0
  {}

  lemma HeldChar(cells: seq<char>, at: nat, s: string, i: nat)
    requires HoldsAt(cells, at, s) && i <= |s|
    ensures at + i < |cells| && cells[at + i] == if i < |s| then s[i] else NUL
    ensures i < |s| && NUL !in s ==> cells[at + i] != NUL
  {
    assert i < |s| ==> cells[at..at + |s|][i] == cells[at + i];
  }

  /** The scan for a comment. */
  method FindComment(text: array<char>, at: nat, ghost s: string) returns (ep: nat)
    requires HoldsAt(text[..], at, s) && NUL !in s
    ensures ep == at + CommentAt(s, false)
  {
    hide HoldsAt, CommentAt;
    var isString := false;
    ep := at;
    ghost var i := 0;
    assert s[0..] == s;
    HeldChar(text[..], at, s, 0);
    while text[ep] != NUL && ((text[ep] != ';' && text[ep] != '#') || isString)
      invariant i <= |s| && ep == at + i < text.Length && text[ep] == if i < |s| then s[i] else NUL
      invariant CommentAt(s, false) == i + CommentAt(s[i..], isString)
      decreases |s| - i
    {
      NextScanned(s, i, isString);
      HeldChar(text[..], at, s, i + 1);
      if text[ep] == '"' {
        if text[ep + 1] == '"' {
          ep, i := ep + 1, i + 1;
        } else {
          isString := !isString;
        }
      } else if text[ep] == '\\' && text[ep + 1] == '"' {
        ep, i := ep + 1, i + 1;
      }
      ep, i := ep + 1, i + 1;
      HeldChar(text[..], at, s, i);
    }
    if i == |s| {
      assert s[i..] == [];
      NothingToScan(isString);
    } else {
      NextScanned(s, i, isString);
    }
  }

  /** `striptrailing` */
  method StripTrailingAt(text: array<char>, at: nat, end: nat, ghost s: string)
    requires end == at + |s| < text.Length && HoldsAt(text[..], at, s) && NUL !in s
    modifies text
    ensures HoldsAt(text[..], at, StripTrailing(s))
    ensures SameOutside(old(text[..]), text[..], at, at + |s| + 1)
  {
    hide HoldsAt, StripTrailing;
    ghost var cells := text[..];
    var ptr := end;
    ghost var t := s;
    assert s[..|s|] == s;
    while ptr > at && '\0' < text[ptr - 1] <= ' '
      invariant |t| <= |s| && t == s[..|t|] && ptr == at + |t| <= end < text.Length && text[..] == cells
      invariant StripTrailing(s) == StripTrailing(t)
      decreases |t|
    {
      HeldChar(cells, at, s, |t| - 1);
      StripsBlank(t);
      ptr, t := ptr - 1, t[..|t| - 1];
    }
    if t != [] {
      HeldChar(cells, at, s, |t| - 1);
    }
    CutShorter(cells, at, s, |t|);
    text[ptr] := NUL;
    assert text[..] == cells[ptr := NUL];
  }

  lemma StripsBlank(t: string)
    requires t != [] && IsBlank(t[|t| - 1])
    ensures StripTrailing(t) == StripTrailing(t[..|t| - 1])
  {}

  /** A zero in the middle of a string shortens it. */
  lemma CutShorter(cells: seq<char>, at: nat, s: string, k: nat)
    requires HoldsAt(cells, at, s) && k <= |s|
    ensures HoldsAt(cells[at + k := NUL], at, s[..k])
    ensures SameOutside(cells, cells[at + k := NUL], at, at + |s| + 1)
  {
    var c := cells[at + k := NUL];
    assert c[at..at + k] == cells[at..at + |s|][..k];
  }

  /**
    `cleanstring`: cuts the terminated string at its comment, strips it and takes the quotes off;
    the result starts at `start`.
    */
  method CleanString(text: array<char>, at: nat, ghost s: string) returns (start: nat, quotes: QuoteOption)
    requires HoldsAt(text[..], at, s) && NUL !in s
    modifies text
    ensures HoldsAt(text[..], start, Cleaned(s).0) && quotes == Cleaned(s).1
    ensures at <= start <= at + 1
  {
    hide CommentAt, StripTrailing, HoldsAt, SameOutside;
    HeldChar(text[..], at, s, |s|);
    var ep := FindComment(text, at, s);
    ghost var cut := s[..CommentAt(s, false)];
    CutShorter(text[..], at, s, |cut|);
    ghost var cells := text[..];
    text[ep] := NUL;
    assert text[..] == cells[ep := NUL];
    StripTrailingAt(text, at, ep, cut);
    ghost var t := StripTrailing(cut);
    start, quotes := at, NoQuotes;
    HeldChar(text[..], at, t, 0);
    if text[at] == '"' {
      var end := LengthAt(text, at, t);
      HeldChar(text[..], at, t, |t| - 1);
      if text[end - 1] == '"' {
        start := at + 1;
        ghost var before := text[..];
        text[end - 1] := NUL;
        quotes := Dequote;
        Unquoted(before, at, t);
        assert text[..] == before[at + |t| - 1 := NUL];
      }
    }
  }

  lemma Unquoted(cells: seq<char>, at: nat, t: string)
    requires HoldsAt(cells, at, t) && IsQuoted(t)
    ensures HoldsAt(cells[at + |t| - 1 := NUL], at + 1, Inside(t))
  {
    var c := cells[at + |t| - 1 := NUL];
    if |t| >= 2 {
      assert forall i :: 0 <= i < |t| ==> t[i] == cells[at + i];
      assert c[at + 1..at + |t| - 1] == t[1..|t| - 1];
    } else {
      assert c[at + 1..at + 1] == [];
    }
  }

  /** The place of the terminating zero. */
  method LengthAt(text: array<char>, at: nat, ghost s: string) returns (end: nat)
    requires HoldsAt(text[..], at, s) && NUL !in s
    ensures end == at + |s|
  {
    hide HoldsAt;
    end := at;
    ghost var i := 0;
    HeldChar(text[..], at, s, 0);
    while text[end] != NUL
      invariant i <= |s| && end == at + i < text.Length && text[end] == if i < |s| then s[i] else NUL
      decreases |s| - i
    {
      HeldChar(text[..], at, s, i + 1);
      end, i := end + 1, i + 1;
    }
    HeldChar(text[..], at, s, i);
  }
}
