/**
  The native compact set: a script array that holds its count in slot 0 and its distinct
  non-negative values, strictly ascending, in the slots behind it.
  */
module CompactSet {
  import opened Words

  /** The invariants I1 to I3 of the layout, in an array that a cell can count. */
  predicate IsSet(s: seq<Cell>) {
    && 0 < |s| <= CELLMAX && 0 <= s[0] < |s|
    && (forall i :: 1 <= i <= s[0] ==> s[i] >= 0)
    && (forall i, j :: 1 <= i < j <= s[0] ==> s[i] < s[j])
  }

  /** The mathematical set that the array stands for. */
  ghost function Members(s: seq<Cell>): (m: set<int>)
    requires IsSet(s)
    ensures forall v :: v in m <==> exists i :: 1 <= i <= s[0] && s[i] == v
  {
    set i | 1 <= i <= s[0] :: s[i]
  }

  /** The least member above `v`, and the greatest below. */
  ghost predicate IsNext(m: set<int>, v: int, w: int) {
    w in m && v < w && forall x :: x in m && x > v ==> w <= x
  }

  ghost predicate IsPrev(m: set<int>, v: int, w: int) {
    w in m && w < v && forall x :: x in m && x < v ==> x <= w
  }

  /** The least natural number that is not a member. */
  ghost predicate IsLeastMissing(m: set<int>, v: int) {
    0 <= v && v !in m && forall x :: 0 <= x < v ==> x in m
  }

  // ----- The array determines the set, and the set the array -----

  /** The values in the first `k` slots. */
  ghost function Lowest(s: seq<Cell>, k: nat): (m: set<int>)
    requires k < |s|
    ensures forall v :: v in m <==> exists i :: 1 <= i <= k && s[i] == v
  {
    if k == 0 then {} else Lowest(s, k - 1) + {s[k]}
  }

  ghost function Below(m: set<int>, v: int): set<int> {
    set x | x in m && x < v
  }

  lemma NextIsNew(s: seq<Cell>, k: nat)
    requires IsSet(s) && 0 < k <= s[0]
    ensures Lowest(s, k) == Lowest(s, k - 1) + {s[k]} && s[k] !in Lowest(s, k - 1)
  {}

  lemma NoneLowest(s: seq<Cell>)
    requires 0 < |s|
    ensures Lowest(s, 0) == {}
  {}

  lemma OneMore(m: set<int>, v: int)
    requires v !in m
    ensures |m + {v}| == |m| + 1
  {}

  lemma {:induction false} LowestCount(s: seq<Cell>, k: nat)
    requires IsSet(s) && k <= s[0]
    ensures |Lowest(s, k)| == k
  {
    hide Lowest;
    if k == 0 {
      NoneLowest(s);
    } else {
      LowestCount(s, k - 1);
      NextIsNew(s, k);
      OneMore(Lowest(s, k - 1), s[k]);
    }
  }

  /** Slot `k + 1` holds the member with `k` members below it. */
  lemma OrdinalOf(s: seq<Cell>, k: nat)
    requires IsSet(s) && k < s[0]
    ensures Below(Members(s), s[k + 1]) == Lowest(s, k)
  {
    hide Lowest;
    forall x | x in Below(Members(s), s[k + 1])
      ensures x in Lowest(s, k)
    {
      var i :| 1 <= i <= s[0] && s[i] == x;
    }
  }

  /** `setlen` counts the members. */
  lemma CountIsCardinality(s: seq<Cell>)
    requires IsSet(s)
    ensures |Members(s)| == s[0]
  {
    LowestCount(s, s[0]);
    assert Lowest(s, s[0]) == Members(s);
  }

  /** Two arrays for the same set agree on every slot in use. */
  lemma {:induction false} RunIsDetermined(s: seq<Cell>, t: seq<Cell>, k: nat)
    requires IsSet(s) && IsSet(t) && Members(s) == Members(t)
    requires k <= s[0]
    ensures s[0] == t[0] && s[..k + 1] == t[..k + 1]
  {
    CountIsCardinality(s);
    CountIsCardinality(t);
    if k > 0 {
      RunIsDetermined(s, t, k - 1);
      assert forall i :: 1 <= i < k ==> s[i] == s[..k][i] == t[..k][i] == t[i];
      assert s[k] in Members(t) && t[k] in Members(s);
    }
  }

  // ----- The natives -----

  /** `compact_search`: the first slot with a value not below `value`. */
  method Search(arr: array<Cell>, value: Cell) returns (pos: nat)
    requires IsSet(arr[..])
    ensures 1 <= pos <= arr[0] + 1
    ensures forall i :: 1 <= i < pos ==> arr[i] < value
    ensures forall i :: pos <= i <= arr[0] ==> value <= arr[i]
  {
    var count: int := arr[0];
    var lo: int, hi: int := 1, count;
    while lo <= hi
      invariant 1 <= lo <= hi + 1 <= count + 1
      invariant forall i :: 1 <= i < lo ==> arr[i] < value
      invariant forall i :: hi < i <= count ==> value < arr[i]
    {
      var mid := (lo + hi) / 2;
      if arr[mid] < value {
        lo := mid + 1;
      } else if arr[mid] > value {
        hi := mid - 1;
      } else {
        return mid;
      }
    }
    return lo;
  }

  /** A position found by the search tells everything about membership. */
  lemma SearchDecides(s: seq<Cell>, value: int, pos: int)
    requires IsSet(s) && 1 <= pos <= s[0] + 1
    requires forall i :: 1 <= i < pos ==> s[i] < value
    requires forall i :: pos <= i <= s[0] ==> value <= s[i]
    ensures value in Members(s) <==> pos <= s[0] && s[pos] == value
  {
  }

  /** `setinit`. */
  method Init(arr: array<Cell>)
    requires 0 < arr.Length <= CELLMAX
    modifies arr
    ensures IsSet(arr[..]) && Members(arr[..]) == {}
    ensures arr[..] == old(arr[..])[0 := 0]
  {
    arr[0] := 0;
  }

  /** The insertion of a value at its sorted position. */
  ghost function Inserted(s: seq<Cell>, pos: int, value: Cell): seq<Cell>
    requires 0 < |s| <= CELLMAX && 1 <= pos <= s[0] + 1 < |s|
  {
    [s[0] + 1] + s[1..pos] + [value] + s[pos..s[0] + 1] + s[s[0] + 2..]
  }

  /** The shift loop that `setadd` and `setalloc` share. */
  method InsertAt(arr: array<Cell>, pos: nat, value: Cell)
    requires 0 < arr.Length <= CELLMAX && 1 <= pos <= arr[0] + 1 < arr.Length
    modifies arr
    ensures arr[..] == Inserted(old(arr[..]), pos, value)
  {
    hide Inserted;
    var count: int := arr[0];
    ghost var s := arr[..];
    InsertedAt(s, pos, value, 0);
    var i := count;
    while i >= pos
      invariant pos - 1 <= i <= count
      invariant forall k :: 0 <= k <= i ==> arr[k] == s[k]
      invariant forall k :: i + 1 < k <= count + 1 ==> arr[k] == s[k - 1]
      invariant forall k :: count + 1 < k < arr.Length ==> arr[k] == s[k]
    {
      arr[i + 1] := arr[i];
      i := i - 1;
    }
    arr[pos] := value;
    arr[0] := count + 1;
    forall k | 0 <= k < arr.Length
      ensures arr[k] == Inserted(s, pos, value)[k]
    {
      InsertedAt(s, pos, value, k);
    }
  }

  lemma InsertedAt(s: seq<Cell>, pos: int, value: Cell, i: int)
    requires 0 < |s| <= CELLMAX && 1 <= pos <= s[0] + 1 < |s| && 0 <= i < |s|
    ensures |Inserted(s, pos, value)| == |s|
    ensures Inserted(s, pos, value)[i] ==
              if i == 0 then s[0] + 1 else if i < pos then s[i] else if i == pos then value
                else if i <= s[0] + 1 then s[i - 1] else s[i]
  {
  }

  lemma InsertedRuns(s: seq<Cell>, pos: int, value: Cell)
    requires 0 < |s| <= CELLMAX && 1 <= pos <= s[0] + 1 < |s|
    ensures var t := Inserted(s, pos, value);
      && |t| == |s| && t[0] == s[0] + 1 && t[pos] == value
      && (forall i :: 1 <= i < pos ==> t[i] == s[i])
      && (forall i :: pos < i <= s[0] + 1 ==> t[i] == s[i - 1])
      && t[s[0] + 2..] == s[s[0] + 2..]
  {
  }

  lemma InsertedIsSet(s: seq<Cell>, pos: int, value: Cell)
    requires IsSet(s) && 1 <= pos <= s[0] + 1 < |s| && value >= 0
    requires forall i :: 1 <= i < pos ==> s[i] < value
    requires forall i :: pos <= i <= s[0] ==> value < s[i]
    ensures IsSet(Inserted(s, pos, value)) && Inserted(s, pos, value)[0] == s[0] + 1
    ensures Members(Inserted(s, pos, value)) == Members(s) + {value}
    ensures Inserted(s, pos, value)[s[0] + 2..] == s[s[0] + 2..]
  {
    hide Inserted, Members;
    InsertedRuns(s, pos, value);
    InsertedMembers(s, pos, value, Inserted(s, pos, value));
  }

  lemma InsertedMembers(s: seq<Cell>, pos: int, value: Cell, t: seq<Cell>)
    requires IsSet(s) && IsSet(t) && t[0] == s[0] + 1 && 1 <= pos <= t[0]
    requires t[pos] == value
    requires forall i :: 1 <= i < pos ==> t[i] == s[i]
    requires forall i :: pos < i <= t[0] ==> t[i] == s[i - 1]
    ensures Members(t) == Members(s) + {value}
  {
    forall x | x in Members(s)
      ensures x in Members(t)
    {
      var i :| 1 <= i <= s[0] && s[i] == x;
      assert if i < pos then t[i] == x else t[i + 1] == x;
    }
  }

  /** What `setadd` and `setalloc` may make of the array. */
  ghost predicate IsInsertion(s: seq<Cell>, t: seq<Cell>)
    requires IsSet(s)
  {
    t == s || exists pos: int, value: Cell :: 1 <= pos <= s[0] + 1 < |s| && t == Inserted(s, pos, value)
  }

  /** `setadd`. Whether a new value still fits is up to the caller. */
  method Add(arr: array<Cell>, value: Cell) returns (added: bool)
    requires IsSet(arr[..])
    requires value >= 0 && value !in Members(arr[..]) ==> arr[0] + 1 < arr.Length
    modifies arr
    ensures IsSet(arr[..])
    ensures added <==> value >= 0 && value !in old(Members(arr[..]))
    ensures Members(arr[..]) == old(Members(arr[..])) + if value >= 0 then {value} else {}
    ensures !added ==> arr[..] == old(arr[..])
    ensures arr[arr[0] + 1..] == old(arr[..])[arr[0] + 1..]
    ensures IsInsertion(old(arr[..]), arr[..])
  {
    hide Inserted, Members;
    if value < 0 {
      return false;
    }
    var count: int := arr[0];
    var pos := Search(arr, value);
    SearchDecides(arr[..], value, pos);
    if pos <= count && arr[pos] == value {
      return false;
    }
    InsertedIsSet(arr[..], pos, value);
    InsertAt(arr, pos, value);
    return true;
  }

  /** The removal of a slot. The slot that was the last one in use keeps its value. */
  ghost function Deleted(s: seq<Cell>, pos: int): seq<Cell>
    requires 0 < |s| <= CELLMAX && 1 <= pos <= s[0] < |s|
  {
    [s[0] - 1] + s[1..pos] + s[pos + 1..s[0] + 1] + s[s[0]..]
  }

  lemma DeletedAt(s: seq<Cell>, pos: int, i: int)
    requires 0 < |s| <= CELLMAX && 1 <= pos <= s[0] < |s| && 0 <= i < |s|
    ensures |Deleted(s, pos)| == |s|
    ensures Deleted(s, pos)[i] ==
      if i == 0 then s[0] - 1 else if i < pos then s[i] else if i < s[0] then s[i + 1] else s[i]
  {
  }

  lemma RemovedIsDeleted(s: seq<Cell>, pos: int, t: seq<Cell>)
    requires 0 < |s| <= CELLMAX && 1 <= pos <= s[0] < |s| && |t| == |s| && t[0] == s[0] - 1
    requires forall k :: 1 <= k < pos ==> t[k] == s[k]
    requires forall k :: pos <= k < s[0] ==> t[k] == s[k + 1]
    requires forall k :: s[0] <= k < |s| ==> t[k] == s[k]
    ensures t == Deleted(s, pos)
  {
    hide Deleted;
    DeletedAt(s, pos, 0);
    forall i | 0 <= i < |s|
      ensures t[i] == Deleted(s, pos)[i]
    {
      DeletedAt(s, pos, i);
    }
  }

  /** What `setremove` and `setinit` may make of the array. */
  ghost predicate IsRemoval(s: seq<Cell>, t: seq<Cell>)
    requires IsSet(s)
  {
    t == s || t == s[0 := 0] || exists pos: int :: 1 <= pos <= s[0] && t == Deleted(s, pos)
  }

  /** `setremove`. */
  method Remove(arr: array<Cell>, value: Cell) returns (removed: bool)
    requires IsSet(arr[..])
    modifies arr
    ensures IsSet(arr[..])
    ensures removed <==> value in old(Members(arr[..]))
    ensures Members(arr[..]) == old(Members(arr[..])) - {value}
    ensures !removed ==> arr[..] == old(arr[..])
    ensures removed ==> arr[old(arr[0])..] == old(arr[arr[0]..])
    ensures IsRemoval(old(arr[..]), arr[..])
  {
    hide Members, Deleted;
    ghost var s := arr[..];
    var count: int := arr[0];
    var pos: int := Search(arr, value);
    SearchDecides(s, value, pos);
    if pos > count || arr[pos] != value {
      return false;
    }
    ghost var hole := pos;
    while pos < count
      invariant hole <= pos <= count
      invariant forall k :: 0 <= k < hole ==> arr[k] == s[k]
      invariant forall k :: hole <= k < pos ==> arr[k] == s[k + 1]
      invariant forall k :: pos <= k < arr.Length ==> arr[k] == s[k]
    {
      arr[pos] := arr[pos + 1];
      pos := pos + 1;
    }
    arr[0] := count - 1;
    RemovedIsSet(s, hole, arr[..]);
    RemovedIsDeleted(s, hole, arr[..]);
    return true;
  }

  lemma RemovedIsSet(s: seq<Cell>, pos: int, t: seq<Cell>)
    requires IsSet(s) && 1 <= pos <= s[0] && |t| == |s| && t[0] == s[0] - 1
    requires forall k :: 1 <= k < pos ==> t[k] == s[k]
    requires forall k :: pos <= k < s[0] ==> t[k] == s[k + 1]
    ensures IsSet(t) && Members(t) == Members(s) - {s[pos]}
  {
    forall x | x in Members(s) - {s[pos]}
      ensures x in Members(t)
    {
      var i :| 1 <= i <= s[0] && s[i] == x;
      assert if i < pos then t[i] == x else t[i - 1] == x;
    }
  }

  /** `sethas`. */
  method Has(arr: array<Cell>, value: Cell) returns (has: bool)
    requires IsSet(arr[..])
    ensures has <==> value in Members(arr[..])
  {
    var pos := Search(arr, value);
    SearchDecides(arr[..], value, pos);
    has := pos <= arr[0] && arr[pos] == value;
  }

  /** `setlen`. */
  method Count(arr: array<Cell>) returns (count: Cell)
    requires IsSet(arr[..])
    ensures count == |Members(arr[..])|
  {
    CountIsCardinality(arr[..]);
    count := arr[0];
  }

  /** The gap scan that `setfree` and `setalloc` share: slot `k` differs from its index. */
  method FirstGap(arr: array<Cell>) returns (k: nat, id: Cell)
    requires IsSet(arr[..])
    ensures 1 <= k <= arr[0] + 1 && id == k - 1
    ensures forall i :: 1 <= i < k ==> arr[i] == i - 1
    ensures k <= arr[0] ==> arr[k] > id
  {
    k, id := 1, 0;
    while k <= arr[0] && arr[k] == id
      invariant 1 <= k <= arr[0] + 1 && id == k - 1
      invariant forall i :: 1 <= i < k ==> arr[i] == i - 1
    {
      id := id + 1;
      k := k + 1;
    }
    assert 1 < k <= arr[0] ==> arr[k - 1] < arr[k];
  }

  lemma GapIsLeastMissing(s: seq<Cell>, k: int)
    requires IsSet(s) && 1 <= k <= s[0] + 1
    requires forall i :: 1 <= i < k ==> s[i] == i - 1
    requires k <= s[0] ==> s[k] > k - 1
    ensures IsLeastMissing(Members(s), k - 1)
  {
    forall x | 0 <= x < k - 1
      ensures x in Members(s)
    {
      assert s[x + 1] == x;
    }
  }

  /** `setfree`. */
  method Free(arr: array<Cell>) returns (id: Cell)
    requires IsSet(arr[..])
    ensures IsLeastMissing(Members(arr[..]), id)
  {
    var k;
    k, id := FirstGap(arr);
    GapIsLeastMissing(arr[..], k);
  }

  /** `setget`: the member with `index` members below it, or -1. */
  method Get(arr: array<Cell>, index: Cell) returns (v: Cell)
    requires IsSet(arr[..])
    ensures 0 <= index < |Members(arr[..])| ==>
              v in Members(arr[..]) && |Below(Members(arr[..]), v)| == index
    ensures !(0 <= index < |Members(arr[..])|) ==> v == -1
  {
    CountIsCardinality(arr[..]);
    if index < 0 || index >= arr[0] {
      return -1;
    }
    OrdinalOf(arr[..], index);
    LowestCount(arr[..], index);
    v := arr[1 + index];
  }

  /** `setalloc`: the effect of `setfree` and then `setadd`. */
  method Alloc(arr: array<Cell>) returns (id: Cell)
    requires IsSet(arr[..]) && arr[0] + 1 < arr.Length
    modifies arr
    ensures IsSet(arr[..])
    ensures IsLeastMissing(old(Members(arr[..])), id)
    ensures Members(arr[..]) == old(Members(arr[..])) + {id}
    ensures arr[arr[0] + 1..] == old(arr[..])[arr[0] + 1..]
    ensures IsInsertion(old(arr[..]), arr[..])
  {
    var k;
    k, id := FirstGap(arr);
    GapIsLeastMissing(arr[..], k);
    InsertedIsSet(arr[..], k, id);
    InsertAt(arr, k, id);
  }

  /** `setnext`. */
  method Next(arr: array<Cell>, afterValue: Cell) returns (v: Cell)
    requires IsSet(arr[..])
    ensures v != CELLMIN ==> IsNext(Members(arr[..]), afterValue, v)
    ensures v == CELLMIN <==> forall x :: x in Members(arr[..]) ==> x <= afterValue
  {
    var pos := Search(arr, afterValue);
    if pos <= arr[0] && arr[pos] == afterValue {
      pos := pos + 1;
    }
    if pos <= arr[0] {
      assert arr[pos] in Members(arr[..]);
      return arr[pos];
    }
    return CELLMIN;
  }

  /** `setprev`. */
  method Prev(arr: array<Cell>, beforeValue: Cell) returns (v: Cell)
    requires IsSet(arr[..])
    ensures v != CELLMIN ==> IsPrev(Members(arr[..]), beforeValue, v)
    ensures v == CELLMIN <==> forall x :: x in Members(arr[..]) ==> x >= beforeValue
  {
    var pos: int := Search(arr, beforeValue);
    pos := pos - 1;
    if 1 <= pos <= arr[0] {
      assert arr[pos] in Members(arr[..]);
      return arr[pos];
    }
    return CELLMIN;
  }
}
