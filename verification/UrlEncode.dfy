/**
  The percent-encoding native: a string is encoded inside its own buffer, from its last
  character to its first, after the longest prefix that fits has been measured.
  */
module UrlEncode {
  import opened Words

  const PERCENT: Byte := 0x25

  /** `INVALIDURI` for a signed character: bytes from 0x80 up are negative. */
  predicate Invalid(b: Byte) {
    var c := if b < 0x80 then b else b - 0x100;
    c < 0x2c || 0x39 < c < 0x41 || 0x5a < c < 0x5f || 0x5f < c < 0x61 || 0x7a < c
  }

  /** `TOHEX`. */
  function ToHex(n: nat): Byte
    requires n < 16
  {
    if n < 10 then 0x30 + n else 0x41 - 10 + n
  }

  function EncodeByte(b: Byte): (s: seq<Byte>)
    ensures 1 <= |s| <= 3
  {
    if Invalid(b) then [PERCENT, ToHex(b / 16), ToHex(b % 16)] else [b]
  }

  /** What stays as it is: letters, digits and four signs. The code looks at signed characters. */
  predicate IsPlain(c: char) {
    'a' <= c <= 'z' || 'A' <= c <= 'Z' || '0' <= c <= '9' || c in ",-./_"
  }

  /** Every other byte becomes a percent sign and two digits, with capital letters. */
  lemma PlainBytesStay(b: Byte)
    ensures EncodeByte(b) == [b] <==> b < 0x80 && IsPlain(b as char)
    ensures EncodeByte(b) != [b] ==>
      var e := EncodeByte(b);
      && |e| == 3 && e[0] == '%' as int
      && forall i :: 1 <= i < 3 ==> '0' as int <= e[i] <= '9' as int || 'A' as int <= e[i] <= 'F' as int
  {}

  function Encode(s: seq<Byte>): (e: seq<Byte>)
    ensures |e| >= |s|
  {
    if s == [] then [] else Encode(s[..|s| - 1]) + EncodeByte(s[|s| - 1])
  }

  // ----- What an encoded string means -----

  predicate IsHex(b: Byte) { 0x30 <= b <= 0x39 || 0x41 <= b <= 0x46 || 0x61 <= b <= 0x66 }

  function HexValue(b: Byte): nat
    requires IsHex(b)
  {
    if b <= 0x39 then b - 0x30 else if b <= 0x46 then b - 0x41 + 10 else b - 0x61 + 10
  }

  /** The decoding of section 2.1 of RFC 3986: a percent sign with two hexadecimal digits
      stands for a byte, everything else for itself. */
  function Decode(s: seq<Byte>): seq<Byte> {
    if s == [] then []
    else if s[0] == PERCENT && |s| >= 3 && IsHex(s[1]) && IsHex(s[2]) then
      [(HexValue(s[1]) * 16 + HexValue(s[2])) as Byte] + Decode(s[3..])
    else [s[0]] + Decode(s[1..])
  }

  lemma {:induction false} EncodePrepend(b: Byte, s: seq<Byte>)
    ensures Encode([b] + s) == EncodeByte(b) + Encode(s)
    decreases |s|
  {
    hide EncodeByte;
    if s == [] {
      assert ([b] + s)[..0] == [] && Encode([b] + s) == Encode([]) + EncodeByte(b);
    } else {
      var init := s[..|s| - 1];
      assert ([b] + s)[..|s|] == [b] + init;
      EncodePrepend(b, init);
    }
  }

  /** Decoding inverts encoding, because the percent sign itself is always encoded. */
  lemma {:induction false} DecodeEncode(s: seq<Byte>)
    ensures Decode(Encode(s)) == s
    decreases |s|
  {
    if s != [] {
      var b, rest := s[0], s[1..];
      assert s == [b] + rest;
      EncodePrepend(b, rest);
      DecodeEncode(rest);
      DecodeFirst(b, Encode(rest));
    }
  }

  lemma DecodeFirst(b: Byte, e: seq<Byte>)
    ensures Decode(EncodeByte(b) + e) == [b] + Decode(e)
  {
    var s := EncodeByte(b) + e;
    if Invalid(b) {
      assert s[3..] == e;
    } else {
      assert s[1..] == e;
    }
  }

  // ----- The native -----

  /** The length of the string in a buffer. */
  ghost predicate IsString(buffer: seq<Byte>, n: nat) {
    n < |buffer| && buffer[n] == 0 && forall i :: 0 <= i < n ==> buffer[i] != 0
  }

  /** How many characters of `s` still fit, encoded, in a buffer of `length` bytes. */
  ghost predicate IsLongestFit(s: seq<Byte>, length: nat, k: nat) {
    && k <= |s|
    && |Encode(s[..k])| + 1 <= length
    && (k == |s| || |Encode(s[..k + 1])| + 1 > length)
  }

  lemma EncodeNext(s: seq<Byte>, k: nat)
    requires k < |s|
    ensures Encode(s[..k + 1]) == Encode(s[..k]) + EncodeByte(s[k])
  {
    assert s[..k + 1][..k] == s[..k];
  }

  lemma EncodeNothing(s: seq<Byte>)
    ensures s[..0] == [] && Encode(s[..0]) == [] && s[..|s|] == s
  {
  }

  /** First loop of the native: the number of characters that fit, and their encoded length. */
  method Measure(str: array<Byte>, ghost n: nat) returns (count: nat, destlen: nat)
    requires IsString(str[..], n)
    ensures IsLongestFit(str[..n], str.Length, count)
    ensures destlen == |Encode(str[..count])| + 1
  {
    hide EncodeByte, Encode;
    ghost var s := str[..n];
    EncodeNothing(s);
    var length := str.Length;
    var lastwidth: nat := 0;
    count, destlen := 0, 1;
    while str[count] != 0 && destlen < length
      invariant count <= n && lastwidth <= 3
      invariant destlen == |Encode(s[..count])| + 1
      invariant count == 0 ==> lastwidth == 0
      invariant count > 0 ==> destlen - lastwidth == |Encode(s[..count - 1])| + 1 < length
      decreases n - count
    {
      EncodeNext(s, count);
      EncodedWidth(str[count]);
      lastwidth := if Invalid(str[count]) then 3 else 1;
      destlen := destlen + lastwidth;
      count := count + 1;
    }
    if destlen > length {
      assert s[..count - 1 + 1] == s[..count];
      destlen := destlen - lastwidth;
      count := count - 1;
    } else if count < n {
      EncodeNext(s, count);
      EncodedWidth(s[count]);
    }
    assert str[..count] == s[..count];
  }

  lemma EncodedWidth(b: Byte)
    ensures |EncodeByte(b)| == if Invalid(b) then 3 else 1
  {
  }

  /** The body of the conversion loop: character `count` goes before position `destlen`. Both
      of its digits are read before its own place can be overwritten. */
  method WriteBackward(str: array<Byte>, count: nat, destlen: nat) returns (newlen: nat)
    requires count < str.Length && destlen <= str.Length
    requires destlen >= count + |EncodeByte(str[count])|
    modifies str
    ensures newlen == destlen - old(|EncodeByte(str[count])|)
    ensures str[newlen..destlen] == old(EncodeByte(str[count]))
    ensures forall i :: 0 <= i < str.Length && !(newlen <= i < destlen) ==> str[i] == old(str[i])
  {
    newlen := destlen;
    if Invalid(str[count]) {
      newlen := newlen - 1;
      str[newlen] := ToHex(str[count] % 16);
      newlen := newlen - 1;
      str[newlen] := ToHex(str[count] / 16);
      newlen := newlen - 1;
      str[newlen] := PERCENT;
    } else {
      newlen := newlen - 1;
      str[newlen] := str[count];
    }
  }

  /** The conversion loop. The room that is left always ends behind the next character to
      convert, as the assertion in the source says, and is used up exactly. */
  method Convert(str: array<Byte>, k: nat, encoded: nat)
    requires k <= encoded < str.Length && encoded == |Encode(str[..k])|
    modifies str
    ensures str[0..encoded] == old(Encode(str[..k]))
    ensures str[encoded..] == old(str[encoded..])
  {
    hide EncodeByte, Encode;
    ghost var s, end := str[..k], str[encoded..];
    var count, destlen := k, encoded;
    EncodeNothing(s);
    while count > 0
      invariant 0 <= count <= k && count <= destlen <= encoded
      invariant destlen == |Encode(s[..count])|
      invariant forall i :: 0 <= i < count ==> str[i] == s[i]
      invariant Encode(s[..count]) + str[destlen..encoded] == Encode(s)
      invariant str[encoded..] == end
    {
      count := count - 1;
      assert destlen > count;
      EncodeNext(s, count);
      ghost var tail, from := str[destlen..encoded], destlen;
      destlen := WriteBackward(str, count, destlen);
      assert str[destlen..encoded] == str[destlen..from] + tail;
    }
  }

  /** The native up to the point where the buffer holds the result. */
  method UrlEncodeInPlace(str: array<Byte>, ghost n: nat) returns (encoded: nat, ghost k: nat)
    requires IsString(str[..], n)
    modifies str
    ensures IsLongestFit(old(str[..n]), str.Length, k)
    ensures encoded < str.Length && str[..encoded] == Encode(old(str[..n])[..k]) && str[encoded] == 0
  {
    hide Encode;
    var count, destlen := Measure(str, n);
    k := count;
    assert str[..n][..k] == str[..k];
    destlen := destlen - 1;
    ghost var s := str[..k];
    str[destlen] := 0;
    assert str[..k] == s;
    encoded := destlen;
    Convert(str, count, destlen);
    assert str[encoded] == str[encoded..][0];
    assert str[..encoded] == str[0..encoded];
  }

  /** What the caller gets back decodes to the prefix that was kept, and to the whole string
      if and only if its encoding and the terminator fit. */
  lemma KeptPrefixDecodes(s: seq<Byte>, length: nat, k: nat)
    requires IsLongestFit(s, length, k)
    ensures Decode(Encode(s[..k])) == s[..k]
    ensures k == |s| <==> |Encode(s)| + 1 <= length
  {
    DecodeEncode(s[..k]);
    assert s[..|s|] == s;
    if k < |s| {
      EncodedPrefix(s, k + 1);
    }
  }

  lemma {:induction false} EncodedPrefix(s: seq<Byte>, k: nat)
    requires k <= |s|
    ensures |Encode(s[..k])| <= |Encode(s)|
    decreases |s|
  {
    if k < |s| {
      EncodedPrefix(s[..|s| - 1], k);
      assert s[..|s| - 1][..k] == s[..k];
    } else {
      assert s[..k] == s;
    }
  }
}
