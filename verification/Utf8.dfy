/**
  The UTF-8 codec of the abstract machine: characters of up to 31 bits in up to six bytes
  (section 2 of RFC 2279), shortest form only, without surrogates and U+FFFE and U+FFFF.
  */
module Utf8 {
  import opened Arith
  import opened Words

  predicate IsReserved(v: int) { 0xd800 <= v <= 0xdfff || v == 0xfffe || v == 0xffff }

  predicate Encodable(v: int) { 0 <= v < 0x8000_0000 && !IsReserved(v) }

  // ----- The reference encoding -----

  /** The number of bytes that follow the first one in the shortest form. */
  function FollowerCount(v: nat): (n: nat)
    ensures n <= 5
  {
    if v < 0x80 then 0 else if v < 0x800 then 1 else if v < 0x1_0000 then 2
    else if v < 0x20_0000 then 3 else if v < 0x400_0000 then 4 else 5
  }

  /** The first byte with an empty payload: as many leading ones as there are bytes. */
  function LeadMark(n: nat): nat
    requires n <= 5
  {
    if n == 0 then 0 else if n == 1 then 0xc0 else if n == 2 then 0xe0
    else if n == 3 then 0xf0 else if n == 4 then 0xf8 else 0xfc
  }

  /** The `n` low groups of six bits, each in a byte of its own, and what remains above them. */
  function Followers(v: nat, n: nat): (s: seq<Byte>)
    ensures |s| == n
  {
    if n == 0 then [] else Followers(v / 0x40, n - 1) + [0x80 + v % 0x40]
  }

  function Top(v: nat, n: nat): nat {
    if n == 0 then v else Top(v / 0x40, n - 1)
  }

  function Encoding(v: nat): (s: seq<Byte>)
    requires v < 0x8000_0000
    ensures |s| == 1 + FollowerCount(v)
  {
    TopBound(v);
    [LeadMark(FollowerCount(v)) + Top(v, FollowerCount(v))] + Followers(v, FollowerCount(v))
  }

  /** The payload that the first byte can hold. */
  function TopLimit(n: nat): nat
    requires n <= 5
  {
    if n == 0 then 0x80 else if n == 1 then 0x20 else if n == 2 then 0x10
    else if n == 3 then 8 else if n == 4 then 4 else 2
  }

  function Pow64(n: nat): (p: nat)
    ensures p > 0
  {
    if n == 0 then 1 else 0x40 * Pow64(n - 1)
  }

  lemma Limits()
    ensures Pow64(0) == 1 && Pow64(1) == 0x40 && Pow64(2) == 0x1000 && Pow64(3) == 0x4_0000
    ensures Pow64(4) == 0x100_0000 && Pow64(5) == 0x4000_0000
  {
  }

  lemma {:induction false} TopIsQuotient(v: nat, n: nat)
    ensures Top(v, n) * Pow64(n) <= v < (Top(v, n) + 1) * Pow64(n)
  {
    if n > 0 {
      TopIsQuotient(v / 0x40, n - 1);
      ScaleUp(v, Top(v / 0x40, n - 1), Pow64(n - 1));
    }
  }

  lemma ScaleUp(v: nat, t: nat, p: nat)
    requires t * p <= v / 0x40 < (t + 1) * p
    ensures t * (0x40 * p) <= v < (t + 1) * (0x40 * p)
  {
    assert t * (0x40 * p) == 0x40 * (t * p);
    assert (t + 1) * (0x40 * p) == 0x40 * ((t + 1) * p);
  }

  lemma TopBound(v: nat)
    requires v < 0x8000_0000
    ensures Top(v, FollowerCount(v)) < TopLimit(FollowerCount(v))
    ensures LeadMark(FollowerCount(v)) + Top(v, FollowerCount(v)) < 0x100
  {
    var n := FollowerCount(v);
    TopIsQuotient(v, n);
    Limits();
    MulLtCancel(Top(v, n), TopLimit(n), Pow64(n));
  }

  // ----- The decoder -----

  datatype Parsed = Rejected | Accepted(value: nat, length: nat)

  predicate IsFollower(b: Byte) { 0x80 <= b < 0xc0 }

  /** `utf8_count[(c >> 2) & 0x0f]`: the number of follow-up bytes, minus one. */
  function FollowUp(c: Byte): (n: nat)
    requires 0xc0 <= c < 0xfe
    ensures n <= 4
  {
    [0, 0, 0, 0, 0, 0, 0, 0, 1, 1, 1, 1, 2, 2, 3, 4][c / 4 % 0x10]
  }

  /** `utf8_lowmark`. */
  function LowMark(n: nat): nat
    requires n <= 4
  {
    [0x80, 0x800, 0x1_0000, 0x20_0000, 0x400_0000][n]
  }

  /** `0x1f >> followup`, plus one: the payload of a first byte is taken modulo this. */
  function LeadRange(n: nat): (r: nat)
    requires n <= 4
    ensures r > 0
  {
    [0x20, 0x10, 8, 4, 2][n]
  }

  /** Collecting the follow-up bytes behind the payload of the first. */
  function Collect(acc: nat, s: seq<Byte>): nat {
    if s == [] then acc else Collect(acc, s[..|s| - 1]) * 0x40 + s[|s| - 1] % 0x40
  }

  /** The first character of a byte string, as `amx_UTF8Get` finds it. */
  function First(s: seq<Byte>): Parsed {
    if s == [] then Rejected
    else if s[0] < 0x80 then Accepted(s[0], 1)
    else if s[0] < 0xc0 || s[0] >= 0xfe then Rejected
    else
      var n := FollowUp(s[0]);
      if |s| < n + 2 || (exists i :: 1 <= i < n + 2 && !IsFollower(s[i])) then Rejected
      else
        var v := Collect(s[0] % LeadRange(n), s[1..n + 2]);
        if v < LowMark(n) || IsReserved(v) then Rejected else Accepted(v, n + 2)
  }

  lemma {:induction false} CollectFollowers(v: nat, n: nat)
    ensures Collect(Top(v, n), Followers(v, n)) == v
    ensures forall i :: 0 <= i < n ==> IsFollower(Followers(v, n)[i])
  {
    if n > 0 {
      hide Collect, Followers;
      CollectFollowers(v / 0x40, n - 1);
      LastFollower(v, n);
      var init, b := Followers(v / 0x40, n - 1), 0x80 + v % 0x40;
      CollectNext(Top(v, n), init, b);
      LowBits(v);
    } else {
      assert Followers(v, 0) == [] && Collect(Top(v, 0), []) == v;
    }
  }

  lemma LastFollower(v: nat, n: nat)
    requires n > 0
    ensures Followers(v, n) == Followers(v / 0x40, n - 1) + [0x80 + v % 0x40]
  {}

  lemma CollectNext(acc: nat, init: seq<Byte>, b: Byte)
    ensures Collect(acc, init + [b]) == Collect(acc, init) * 0x40 + b % 0x40
  {
    assert (init + [b])[..|init|] == init;
  }

  lemma LowBits(v: nat)
    ensures v / 0x40 * 0x40 + (0x80 + v % 0x40) % 0x40 == v
  {}

  lemma {:induction false} FollowersOfCollect(acc: nat, s: seq<Byte>)
    requires forall i :: 0 <= i < |s| ==> IsFollower(s[i])
    ensures Followers(Collect(acc, s), |s|) == s && Top(Collect(acc, s), |s|) == acc
  {
    if s != [] {
      var init, b := s[..|s| - 1], s[|s| - 1];
      FollowersOfCollect(acc, init);
      DivUnique(Collect(acc, s), 0x40, Collect(acc, init), b % 0x40);
      assert s == init + [b];
    }
  }

  /** A first byte tells how many bytes follow it, and carries what was left above them. */
  lemma LeadByte(n: nat, top: nat)
    requires n <= 4 && top < TopLimit(n + 1)
    ensures 0xc0 <= LeadMark(n + 1) + top < 0xfe
    ensures FollowUp(LeadMark(n + 1) + top) == n
    ensures (LeadMark(n + 1) + top) % LeadRange(n) == top
  {
  }

  lemma LeadByteParts(c: Byte)
    requires 0xc0 <= c < 0xfe
    ensures var n := FollowUp(c); c == LeadMark(n + 1) + c % LeadRange(n) && c % LeadRange(n) < TopLimit(n + 1)
  {
  }

  /** The decoder takes back every encodable character, whatever follows it. */
  lemma FirstOfEncoding(v: nat, rest: seq<Byte>)
    requires Encodable(v)
    ensures First(Encoding(v) + rest) == Accepted(v, |Encoding(v)|)
  {
    var n, s := FollowerCount(v), Encoding(v) + rest;
    TopBound(v);
    if n > 0 {
      LeadByte(n - 1, Top(v, n));
      CollectFollowers(v, n);
      assert s[1..n + 1] == Followers(v, n);
      assert forall i :: 1 <= i < n + 1 ==> s[i] == Followers(v, n)[i - 1];
    }
  }

  /** The payload of the first byte bounds the character from above, the low mark from below. */
  lemma ShortestForm(v: nat, n: nat)
    requires n <= 4 && LowMark(n) <= v && Top(v, n + 1) < TopLimit(n + 1)
    ensures v < 0x8000_0000 && FollowerCount(v) == n + 1
  {
    TopIsQuotient(v, n + 1);
    Limits();
    MulLe(Top(v, n + 1) + 1, TopLimit(n + 1), Pow64(n + 1));
  }

  /** The decoder accepts nothing but encodings: shortest forms of encodable characters. */
  lemma AcceptedIsEncoding(s: seq<Byte>)
    requires First(s).Accepted?
    ensures First(s).length <= |s|
    ensures Encodable(First(s).value) && s[..First(s).length] == Encoding(First(s).value)
  {
    hide Collect, LeadRange, FollowUp, LowMark;
    var v := First(s).value;
    if s[0] >= 0x80 {
      var n := FollowUp(s[0]);
      var tail := s[1..n + 2];
      LeadByteParts(s[0]);
      FollowersOfCollect(s[0] % LeadRange(n), tail);
      ShortestForm(v, n);
      assert s[..n + 2] == [s[0]] + tail;
    }
  }

  /** Decoding is exactly the inverse of encoding. */
  lemma FirstInvertsEncoding(s: seq<Byte>, v: nat, n: nat)
    ensures First(s) == Accepted(v, n) <==> Encodable(v) && n == |Encoding(v)| && Encoding(v) <= s
  {
    if Encodable(v) && Encoding(v) <= s {
      assert s == Encoding(v) + s[|Encoding(v)|..];
      FirstOfEncoding(v, s[|Encoding(v)|..]);
    }
    if First(s) == Accepted(v, n) {
      AcceptedIsEncoding(s);
    }
  }

  // ----- The accepted bytes -----

  /** The bytes of one character: no form that is too long, no surrogate, neither U+FFFE nor U+FFFF. */
  predicate IsCharacter(s: seq<Byte>) {
    && 1 <= |s| <= 6
    && (forall i :: 1 <= i < |s| ==> 0x80 <= s[i] <= 0xbf)
    && match |s|
       case 1 => s[0] <= 0x7f
       case 2 => 0xc2 <= s[0] <= 0xdf
       case 3 =>
         && 0xe0 <= s[0] <= 0xef && !(s[0] == 0xe0 && s[1] <= 0x9f) && !(s[0] == 0xed && s[1] >= 0xa0)
         && !(s[0] == 0xef && s[1] == 0xbf && s[2] >= 0xbe)
       case 4 => 0xf0 <= s[0] <= 0xf7 && !(s[0] == 0xf0 && s[1] <= 0x8f)
       case 5 => 0xf8 <= s[0] <= 0xfb && !(s[0] == 0xf8 && s[1] <= 0x87)
       case _ => 0xfc <= s[0] <= 0xfd && !(s[0] == 0xfc && s[1] <= 0x83)
  }

  /** The six bits of a follow-up byte. */
  function Bits(b: Byte): int { b as int - 0x80 }

  /** The character that these bytes stand for. */
  function CharacterOf(s: seq<Byte>): int {
    match |s|
    case 1 => s[0]
    case 2 => (s[0] as int - 0xc0) * 0x40 + Bits(s[1])
    case 3 => (s[0] as int - 0xe0) * 0x1000 + Bits(s[1]) * 0x40 + Bits(s[2])
    case 4 => (s[0] as int - 0xf0) * 0x4_0000 + Bits(s[1]) * 0x1000 + Bits(s[2]) * 0x40 + Bits(s[3])
    case 5 =>
      (s[0] as int - 0xf8) * 0x100_0000 + Bits(s[1]) * 0x4_0000 + Bits(s[2]) * 0x1000 + Bits(s[3]) * 0x40 + Bits(s[4])
    case 6 =>
      (s[0] as int - 0xfc) * 0x4000_0000 + Bits(s[1]) * 0x100_0000 + Bits(s[2]) * 0x4_0000 + Bits(s[3]) * 0x1000
      + Bits(s[4]) * 0x40 + Bits(s[5])
    case _ => 0
  }

  lemma FollowerBits(b: Byte)
    requires IsFollower(b)
    ensures b % 0x40 == b - 0x80 && 0x80 <= b <= 0xbf
  {}

  lemma CollectOne(acc: nat, a: Byte)
    requires IsFollower(a)
    ensures Collect(acc, [a]) == acc * 0x40 + (a - 0x80)
  {
    FollowerBits(a);
    assert [a][..0] == [];
  }

  lemma CollectMore(acc: nat, s: seq<Byte>, b: Byte, t: seq<Byte>)
    requires t == s + [b] && IsFollower(b)
    ensures Collect(acc, t) == Collect(acc, s) * 0x40 + (b - 0x80)
  {
    hide Collect;
    FollowerBits(b);
    CollectNext(acc, s, b);
  }

  /** A first byte of `n` bytes, and the payload that it carries. */
  lemma LeadTable(c: Byte, n: nat)
    requires 0xc0 <= c < 0xfe && 2 <= n <= 6
    ensures FollowUp(c) == n - 2 <==> LeadMark(n - 1) <= c < LeadMark(n - 1) + TopLimit(n - 1)
    ensures FollowUp(c) == n - 2 ==> c % LeadRange(n - 2) == c - LeadMark(n - 1)
  {
    LeadByteParts(c);
  }

  lemma Collected(acc: nat, s: seq<Byte>)
    requires 2 <= |s| <= 6 && acc == s[0] - LeadMark(|s| - 1)
    requires forall i :: 1 <= i < |s| ==> IsFollower(s[i])
    ensures Collect(acc, s[1..]) == CharacterOf(s)
  {
    hide Collect, IsFollower;
    var n := |s|;
    assert s[1..2] == [s[1]] && s[1..n] == s[1..];
    CollectOne(acc, s[1]);
    if n >= 3 { CollectMore(acc, s[1..2], s[2], s[1..3]); }
    if n >= 4 { CollectMore(acc, s[1..3], s[3], s[1..4]); }
    if n >= 5 { CollectMore(acc, s[1..4], s[4], s[1..5]); }
    if n >= 6 { CollectMore(acc, s[1..5], s[5], s[1..6]); }
  }

  /** Among the bytes that look like a character the marks and the reserved values decide. */
  lemma JudgedByBytes(s: seq<Byte>)
    requires 2 <= |s| <= 6 && LeadMark(|s| - 1) <= s[0] < LeadMark(|s| - 1) + TopLimit(|s| - 1)
    requires forall i :: 1 <= i < |s| ==> IsFollower(s[i])
    ensures IsCharacter(s) <==> LowMark(|s| - 2) <= CharacterOf(s) && !IsReserved(CharacterOf(s))
  {}

  lemma AcceptedShape(s: seq<Byte>, n: nat)
    requires 2 <= n <= |s|
    ensures
      var shaped := n <= 6 && 0xc0 <= s[0] < 0xfe && FollowUp(s[0]) == n - 2
        && forall i :: 1 <= i < n ==> IsFollower(s[i]);
      && (First(s).Accepted? && First(s).length == n ==> shaped)
      && (shaped ==>
           var v := Collect(s[0] % LeadRange(n - 2), s[1..n]);
           First(s) == if v < LowMark(n - 2) || IsReserved(v) then Rejected else Accepted(v, n))
  {
    hide Collect, LeadRange, FollowUp, LowMark, IsReserved, IsFollower;
  }

  /** A sequence starts with a character of `n` bytes exactly if its first `n` bytes are one. */
  lemma AcceptedBytes(s: seq<Byte>, n: nat)
    requires n <= |s|
    ensures First(s).Accepted? && First(s).length == n <==> IsCharacter(s[..n])
    ensures IsCharacter(s[..n]) ==> First(s).Accepted? && First(s).value == CharacterOf(s[..n])
  {
    var t := s[..n];
    if n >= 2 {
      AcceptedShape(s, n);
      hide First, Collect, LowMark, IsReserved, FollowUp, LeadRange;
      if n <= 6 && 0xc0 <= s[0] < 0xfe {
        LeadTable(s[0], n);
        if FollowUp(s[0]) == n - 2 && forall i :: 1 <= i < n ==> IsFollower(s[i]) {
          assert s[1..n] == t[1..];
          Collected(s[0] - LeadMark(n - 1), t);
          JudgedByBytes(t);
        }
      }
    }
  }

  lemma FirstByBytes(s: seq<Byte>, at: nat)
    requires at <= |s|
    ensures
      var p := First(s[at..]);
      if p.Accepted? then
        at + p.length <= |s| && IsCharacter(s[at..at + p.length]) && p.value == CharacterOf(s[at..at + p.length])
      else forall n :: at <= n <= |s| ==> !IsCharacter(s[at..n])
  {
    hide First, IsCharacter, CharacterOf, Encoding;
    var t := s[at..];
    if First(t).Accepted? {
      var n := First(t).length;
      AcceptedIsEncoding(t);
      AcceptedBytes(t, n);
      assert t[..n] == s[at..at + n];
    } else {
      forall n | at <= n <= |s|
        ensures !IsCharacter(s[at..n])
      {
        AcceptedBytes(t, n - at);
        assert t[..n - at] == s[at..n];
      }
    }
  }

  // ----- The functions of the machine -----

  /** A C string: the bytes from `at` up to the first zero. */
  predicate IsString(s: seq<Byte>, at: nat) { at < |s| && 0 in s[at..] }

  /** The drop-through switch of `amx_UTF8Get`: `count` follow-up bytes from `p` on. */
  method CollectFollowUps(s: seq<Byte>, at: nat, lead: nat, count: nat) returns (ok: bool, result: nat)
    requires at < |s| && 0 in s[at + 1..]
    ensures ok <==> at + count < |s| && forall j :: at < j <= at + count ==> IsFollower(s[j])
    ensures ok ==> result == Collect(lead, s[at + 1..at + count + 1])
  {
    result := lead;
    assert s[at + 1..at + 1] == [];
    for i := 0 to count
      invariant at + i + 1 < |s| && 0 in s[at + i + 1..]
      invariant forall j :: at < j <= at + i ==> IsFollower(s[j])
      invariant result == Collect(lead, s[at + 1..at + i + 1])
    {
      var c := s[at + i + 1];
      if !IsFollower(c) {
        return false, 0;
      }
      assert s[at + i + 1..][1..] == s[at + i + 2..];
      assert s[at + 1..at + i + 2][..i] == s[at + 1..at + i + 1];
      result := result * 0x40 + c % 0x40;
    }
    return true, result;
  }

  /** `amx_UTF8Get`: the first character at `at` and the position behind it. Reading stops at
      the terminator, because that is no follow-up byte. */
  method Get(s: seq<Byte>, at: nat) returns (ok: bool, endp: nat, value: nat)
    requires IsString(s, at)
    ensures at <= endp <= |s|
    ensures ok <==> First(s[at..]).Accepted?
    ensures ok ==> First(s[at..]) == Accepted(value, endp - at)
    ensures !ok ==> value == 0 && endp == at
    ensures ok ==> IsCharacter(s[at..endp]) && value == CharacterOf(s[at..endp])
    ensures !ok ==> forall n :: at <= n <= |s| ==> !IsCharacter(s[at..n])
  {
    hide Collect, IsReserved, IsFollower, FollowUp, LeadRange, LowMark, IsCharacter, CharacterOf;
    FirstByBytes(s, at);
    ghost var t := s[at..];
    var c := s[at];
    if c < 0x80 {
      return true, at + 1, c;
    }
    if c < 0xc0 || c >= 0xfe {
      return false, at, 0;
    }
    assert t == [c] + s[at + 1..];
    var followup := FollowUp(c);
    var result;
    ok, result := CollectFollowUps(s, at, c % LeadRange(followup), followup + 1);
    assert |t| >= followup + 2 ==> t[1..followup + 2] == s[at + 1..at + followup + 2];
    assert forall j :: 1 <= j < |t| ==> t[j] == s[at + j];
    if !ok {
      if at + followup + 1 < |s| {
        var j :| at < j <= at + followup + 1 && !IsFollower(s[j]);
        assert !IsFollower(t[j - at]);
      }
      return false, at, 0;
    }
    if result < LowMark(followup) || IsReserved(result) {
      return false, at, 0;
    }
    return true, at + followup + 2, result;
  }

  /** `((value >> 6*k) & 0x3f) | 0x80`. */
  function Six(value: nat, k: nat): Byte { value / Pow64(k) % 0x40 + 0x80 }

  /** The first byte of a longer form, such as `((value >> 18) & 0x07) | 0xf0` for three followers. */
  function Lead(value: nat, n: nat): Byte
    requires 1 <= n <= 5
  {
    value / Pow64(n) % TopLimit(n) + LeadMark(n)
  }

  /** The bytes that `amx_UTF8Put` computes, branch by branch. */
  function Bytes(value: Cell): seq<Byte> {
    if value < 0x80 then [value % 0x100]
    else if value < 0x800 then [Lead(value, 1), Six(value, 0)]
    else if value < 0x1_0000 then [Lead(value, 2), Six(value, 1), Six(value, 0)]
    else if value < 0x20_0000 then [Lead(value, 3), Six(value, 2), Six(value, 1), Six(value, 0)]
    else if value < 0x400_0000 then
      [Lead(value, 4), Six(value, 3), Six(value, 2), Six(value, 1), Six(value, 0)]
    else
      [Lead(value, 5), Six(value, 4), Six(value, 3), Six(value, 2), Six(value, 1), Six(value, 0)]
  }

  lemma DivDiv(v: nat, p: nat)
    requires p > 0
    ensures v / 0x40 / p == v / (0x40 * p)
  {
    var q, r := v / 0x40 / p, v / 0x40 % p;
    Distribute(q, p, 0, 0x40);
    DivUnique(v, 0x40 * p, q, r * 0x40 + v % 0x40);
  }

  /** Each group of six bits is a right shift away. */
  lemma {:induction false} FollowerAt(v: nat, n: nat, i: nat)
    requires i <= n
    ensures i < n ==> Followers(v, n)[n - 1 - i] == Six(v, i)
    ensures Top(v, n) == v / Pow64(n)
  {
    if n > 0 {
      FollowerAt(v / 0x40, n - 1, if i > 0 then i - 1 else 0);
      DivDiv(v, Pow64(n - 1));
      if i > 0 {
        DivDiv(v, Pow64(i - 1));
      }
    }
  }

  lemma BytesAreEncoding(value: Cell)
    requires value >= 0
    ensures Bytes(value) == Encoding(value)
  {
    hide Bytes, Followers, Sixes, Top, Lead, LeadMark, TopLimit;
    TopBound(value);
    var n := FollowerCount(value);
    TopUnmasked(value, n);
    FollowersAreSixes(value, n);
    BytesAreSixes(value);
  }

  /** The bytes behind the first, as `amx_UTF8Put` computes them. */
  function Sixes(v: nat, n: nat): seq<Byte> {
    if n == 0 then [] else if n == 1 then [Six(v, 0)] else if n == 2 then [Six(v, 1), Six(v, 0)]
    else if n == 3 then [Six(v, 2), Six(v, 1), Six(v, 0)]
    else if n == 4 then [Six(v, 3), Six(v, 2), Six(v, 1), Six(v, 0)]
    else [Six(v, 4), Six(v, 3), Six(v, 2), Six(v, 1), Six(v, 0)]
  }

  lemma BytesAreSixes(value: Cell)
    requires value >= 0
    ensures
      var n := FollowerCount(value);
      Bytes(value) == if n == 0 then [value] else [Lead(value, n)] + Sixes(value, n)
  {
    hide Six, Lead;
  }

  lemma FollowersAreSixes(v: nat, n: nat)
    requires n <= 5
    ensures Followers(v, n) == Sixes(v, n)
  {
    hide Followers, Top, Six, Pow64;
    if n > 0 { FollowerAt(v, n, 0); }
    if n > 1 { FollowerAt(v, n, 1); }
    if n > 2 { FollowerAt(v, n, 2); }
    if n > 3 { FollowerAt(v, n, 3); }
    if n > 4 { FollowerAt(v, n, 4); }
  }

  lemma TopUnmasked(v: nat, n: nat)
    requires n <= 5 && Top(v, n) < TopLimit(n)
    ensures if n == 0 then LeadMark(0) + Top(v, 0) == v else LeadMark(n) + Top(v, n) == Lead(v, n)
  {
    FollowerAt(v, n, 0);
    DivUnique(v / Pow64(n), TopLimit(n), 0, v / Pow64(n));
  }

  /** The bytes that a character takes. */
  function Room(value: int): nat {
    if value <= 0x7f then 1 else if value <= 0x7ff then 2 else if value <= 0xffff then 3
    else if value <= 0x1f_ffff then 4 else if value <= 0x3ff_ffff then 5 else 6
  }

  /** Consecutive `*string++ = ...` statements. */
  method StoreBytes(buffer: array<Byte>, at: nat, bytes: seq<Byte>) returns (endp: nat)
    requires at + |bytes| <= buffer.Length
    modifies buffer
    ensures endp == at + |bytes| && buffer[at..endp] == bytes
    ensures forall i :: 0 <= i < buffer.Length && !(at <= i < endp) ==> buffer[i] == old(buffer[i])
  {
    endp := at;
    while endp < at + |bytes|
      invariant at <= endp <= at + |bytes|
      invariant buffer[at..endp] == bytes[..endp - at]
      invariant forall i :: 0 <= i < buffer.Length && !(at <= i < endp) ==> buffer[i] == old(buffer[i])
    {
      buffer[endp] := bytes[endp - at];
      endp := endp + 1;
    }
  }

  /** `amx_UTF8Put`: stores one character if it fits in `maxchars` bytes, else nothing. */
  method Put(buffer: array<Byte>, at: nat, maxchars: int, value: Cell) returns (ok: bool, endp: nat)
    requires maxchars > 0 ==> at + maxchars <= buffer.Length
    modifies buffer
    ensures ok <==> Room(value) <= maxchars && !(0xd800 <= value <= 0xdfff) && value != 0xfffe && value != 0xffff
    ensures at <= endp && (ok ==> endp <= buffer.Length)
    ensures ok ==> buffer[at..endp] == if value < 0 then [value % 0x100] else Encoding(value)
    ensures !ok ==> endp == at
    ensures forall i :: 0 <= i < buffer.Length && !(at <= i < endp) ==> buffer[i] == old(buffer[i])
  {
    if value >= 0 {
      BytesAreEncoding(value);
    }
    hide Encoding, FollowerCount, Six, Lead;
    ok, endp := true, at;
    if value < 0x80 {
      if maxchars < 1 { return false, at; }
      endp := StoreBytes(buffer, at, [value % 0x100]);
    } else if value < 0x800 {
      if maxchars < 2 { return false, at; }
      endp := StoreBytes(buffer, at, [Lead(value, 1), Six(value, 0)]);
    } else if value < 0x1_0000 {
      if maxchars < 3 || IsReserved(value) { return false, at; }
      endp := StoreBytes(buffer, at, [Lead(value, 2), Six(value, 1), Six(value, 0)]);
    } else if value < 0x20_0000 {
      if maxchars < 4 { return false, at; }
      endp := StoreBytes(buffer, at, [Lead(value, 3), Six(value, 2), Six(value, 1), Six(value, 0)]);
    } else if value < 0x400_0000 {
      if maxchars < 5 { return false, at; }
      endp := StoreBytes(buffer, at,
        [Lead(value, 4), Six(value, 3), Six(value, 2), Six(value, 1), Six(value, 0)]);
    } else {
      if maxchars < 6 { return false, at; }
      endp := StoreBytes(buffer, at,
        [Lead(value, 5), Six(value, 4), Six(value, 3), Six(value, 2), Six(value, 1), Six(value, 0)]);
    }
    assert buffer[at..endp] == Bytes(value);
  }

  /** Reading back what was put yields the character if and only if it is not negative: a
      negative cell takes the one-byte branch and leaves its low byte. */
  lemma PutThenGet(value: Cell, rest: seq<Byte>)
    requires !IsReserved(value)
    ensures (First(Bytes(value) + rest).Accepted? && First(Bytes(value) + rest).value == value) <==> value >= 0
  {
    if value >= 0 {
      BytesAreEncoding(value);
      FirstOfEncoding(value, rest);
    }
  }

  // ----- Whole strings -----

  ghost predicate AreCharacters(vs: seq<nat>) {
    forall i :: 0 <= i < |vs| ==> Encodable(vs[i]) && vs[i] != 0
  }

  ghost function EncodeAll(vs: seq<nat>): seq<Byte>
    requires AreCharacters(vs)
  {
    if vs == [] then [] else Encoding(vs[0]) + EncodeAll(vs[1..])
  }

  /** Whether the string at the start of `s` is valid, and the number of characters tried. */
  ghost function Scan(s: seq<Byte>): (bool, nat)
    requires IsString(s, 0)
    decreases |s|
  {
    if s[0] == 0 then (true, 0)
    else if First(s).Rejected? then (false, 1)
    else
      StringGoesOn(s);
      var (ok, len) := Scan(s[First(s).length..]);
      (ok, len + 1)
  }

  /** No character but the terminator contains a zero byte. */
  lemma StringGoesOn(s: seq<Byte>)
    requires IsString(s, 0) && s[0] != 0 && First(s).Accepted?
    ensures 0 < First(s).length <= |s| && IsString(s[First(s).length..], 0)
    ensures First(s).value != 0
  {
    hide First, Encoding, IsString;
    AcceptedIsEncoding(s);
    FirstIsPositive(s);
    EncodingHasNoZero(First(s).value);
    ZeroBehind(s, First(s).length);
  }

  lemma ZeroBehind(s: seq<Byte>, n: nat)
    requires n <= |s| && 0 !in s[..n] && IsString(s, 0)
    ensures IsString(s[n..], 0)
  {
    var rest := s[n..];
    assert s[0..] == s == s[..n] + rest;
    assert 0 in rest;
    assert rest[0..] == rest;
  }

  lemma FirstIsPositive(s: seq<Byte>)
    requires IsString(s, 0) && s[0] != 0 && First(s).Accepted?
    ensures s != [] && First(s).length > 0 && First(s).value > 0
  {}

  lemma EncodingHasNoZero(v: nat)
    requires 0 < v < 0x8000_0000
    ensures 0 !in Encoding(v) && Encoding(v)[0] != 0
  {
    var n := FollowerCount(v);
    CollectFollowers(v, n);
    hide Followers;
    assert n > 0 ==> LeadMark(n) >= 0xc0;
    forall b | b in Encoding(v)
      ensures b != 0
    {
      assert b in Followers(v, n) ==> b >= 0x80;
    }
  }

  /** `amx_UTF8Check`. */
  method Check(s: seq<Byte>, at: nat) returns (ok: bool, length: nat)
    requires IsString(s, at)
    ensures (ok, length) == Scan(s[at..])
  {
    hide First;
    ok, length := true, 0;
    var p := at;
    assert s[at..][0..] == s[at..];
    while ok && s[p] != 0
      invariant IsString(s, p) && IsString(s[p..], 0) && IsString(s[at..], 0) && at <= p
      invariant Scan(s[at..]) == (if ok then (Scan(s[p..]).0, length + Scan(s[p..]).1) else (false, length))
      decreases ok, |s| - p
    {
      var value;
      ghost var before := p;
      ok, p, value := Get(s, p);
      if ok {
        StringGoesOn(s[before..]);
        assert s[before..][p - before..] == s[p..];
        assert s[p..][0..] == s[p..];
      }
      length := length + 1;
    }
  }

  /** Every concatenation of encodings is accepted, with its number of characters. */
  lemma {:induction false} EncodedIsValid(vs: seq<nat>, rest: seq<Byte>)
    requires AreCharacters(vs)
    ensures IsString(EncodeAll(vs) + [0] + rest, 0)
    ensures Scan(EncodeAll(vs) + [0] + rest) == (true, |vs|)
  {
    hide Encoding, First;
    var s := EncodeAll(vs) + [0] + rest;
    assert s[|EncodeAll(vs)|] == 0 && s[0..] == s;
    if vs != [] {
      var tail := EncodeAll(vs[1..]) + [0] + rest;
      EncodedIsValid(vs[1..], rest);
      assert s == Encoding(vs[0]) + tail;
      FirstOfEncoding(vs[0], tail);
      EncodingHasNoZero(vs[0]);
      assert s[|Encoding(vs[0])|..] == tail;
    }
  }

  /** And every accepted string is one. */
  lemma {:induction false} ValidIsEncoded(s: seq<Byte>) returns (vs: seq<nat>)
    requires IsString(s, 0) && Scan(s).0
    ensures AreCharacters(vs) && |vs| == Scan(s).1
    ensures EncodeAll(vs) + [0] <= s
    decreases |s|
  {
    hide First, Encoding, FollowerCount;
    if s[0] == 0 {
      vs := [];
    } else {
      StringGoesOn(s);
      AcceptedIsEncoding(s);
      var n, v := First(s).length, First(s).value;
      var tail := ValidIsEncoded(s[n..]);
      vs := [v] + tail;
      assert vs[1..] == tail;
      assert s == Encoding(v) + s[n..];
    }
  }

  /** `amx_UTF8Check` accepts exactly the strings that encode characters. */
  lemma ValidIffEncoded(s: seq<Byte>)
    requires IsString(s, 0)
    ensures Scan(s).0 <==> exists vs :: AreCharacters(vs) && EncodeAll(vs) + [0] <= s
    ensures forall vs :: AreCharacters(vs) && EncodeAll(vs) + [0] <= s ==> Scan(s).1 == |vs|
  {
    if Scan(s).0 {
      var vs := ValidIsEncoded(s);
    }
    forall vs | AreCharacters(vs) && EncodeAll(vs) + [0] <= s
      ensures Scan(s) == (true, |vs|)
    {
      var n := |EncodeAll(vs) + [0]|;
      assert s == EncodeAll(vs) + [0] + s[n..];
      EncodedIsValid(vs, s[n..]);
    }
  }
}
