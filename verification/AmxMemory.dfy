/** The data block of an abstract machine: bytes, read and written as little-endian cells. */
module AmxMemory {
  import opened Words

  predicate IsCell(v: int) {
    -0x8000_0000 <= v < 0x8000_0000
  }

  /** The cell that an unlimited value is cut down to. */
  function Wrap(v: int): (r: int)
    ensures IsCell(r)
    ensures IsCell(v) ==> r == v
  {
    (v + 0x8000_0000) % CELL - 0x8000_0000
  }

  /** The value of a cell that is read as unsigned. */
  function Unsigned(v: int): nat {
    v % CELL
  }

  function BytesOf(v: int): (s: seq<Byte>)
    ensures |s| == 4
  {
    [v % 0x100, v / 0x100 % 0x100, v / 0x100 / 0x100 % 0x100, v / 0x100 / 0x100 / 0x100 % 0x100]
  }

  /** A whole cell lies at `a`. */
  predicate InData(data: seq<Byte>, a: int) {
    0 <= a && a + 4 <= |data|
  }

  function Load(data: seq<Byte>, a: int): (v: int)
    requires InData(data, a)
    ensures IsCell(v)
  {
    Wrap(data[a] as int + 0x100 * data[a + 1] as int + 0x1_0000 * data[a + 2] as int
      + 0x100_0000 * data[a + 3] as int)
  }

  function Overwrite(data: seq<Byte>, at: nat, bytes: seq<Byte>): (r: seq<Byte>)
    requires at + |bytes| <= |data|
    ensures |r| == |data|
  {
    data[..at] + bytes + data[at + |bytes|..]
  }

  function Store(data: seq<Byte>, a: int, v: int): (r: seq<Byte>)
    requires InData(data, a)
    ensures |r| == |data|
  {
    Overwrite(data, a, BytesOf(v))
  }

  lemma BytesRebuild(v: int)
    ensures
      var s := BytesOf(v);
      Wrap(s[0] as int + 0x100 * s[1] as int + 0x1_0000 * s[2] as int + 0x100_0000 * s[3] as int) == Wrap(v)
  {
    var v1 := v / 0x100;
    var v2 := v1 / 0x100;
    var v3 := v2 / 0x100;
    var v4 := v3 / 0x100;
    WrapIsPeriodic(v - CELL * v4, v4);
  }

  lemma WrapIsPeriodic(v: int, k: int)
    ensures Wrap(v + CELL * k) == Wrap(v)
  {}

  lemma LoadStored(data: seq<Byte>, a: int, v: int)
    requires InData(data, a)
    ensures Load(Store(data, a, v), a) == Wrap(v)
  {
    hide Wrap, BytesOf;
    BytesRebuild(v);
    var s := BytesOf(v);
    var d := Store(data, a, v);
    assert d[a] == s[0] && d[a + 1] == s[1] && d[a + 2] == s[2] && d[a + 3] == s[3];
  }

  lemma LoadBeside(data: seq<Byte>, at: int, v: int, a: int)
    requires InData(data, at) && InData(data, a) && (at + 4 <= a || a + 4 <= at)
    ensures Load(Store(data, at, v), a) == Load(data, a)
  {
    LoadElsewhere(data, at, BytesOf(v), a);
  }

  /** A write elsewhere leaves a cell alone. */
  lemma LoadElsewhere(data: seq<Byte>, at: nat, bytes: seq<Byte>, a: int)
    requires InData(data, a) && at + |bytes| <= |data|
    requires at + |bytes| <= a || a + 4 <= at
    ensures Load(Overwrite(data, at, bytes), a) == Load(data, a)
  {
    hide Wrap;
    var d := Overwrite(data, at, bytes);
    assert d[a] == data[a] && d[a + 1] == data[a + 1] && d[a + 2] == data[a + 2] && d[a + 3] == data[a + 3];
  }
}
