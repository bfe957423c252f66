/**
  The `foreach` statement over a compact set whose body may change the set, upwards or downwards.
  It is driven by value: the next member is looked up from the value just visited. The compiled loop
  takes a short cut as long as the slot of that value still holds it.
  */
module CompactWalk {
  import opened CompactSet
  import opened Words
  import opened Wrappers

  // ----- Walks -----

  /** The member that comes after `v` in the direction of the walk. */
  ghost predicate IsStep(m: set<int>, v: int, w: int, down: bool) {
    if down then IsPrev(m, v, w) else IsNext(m, v, w)
  }

  predicate IsAhead(v: int, x: int, down: bool) {
    if down then x < v else v < x
  }

  /** No member comes after `v`. */
  ghost predicate IsOver(m: set<int>, v: int, down: bool) {
    forall x :: x in m ==> !IsAhead(v, x, down)
  }

  /** A finished loop: step `i` of the walk looked at `sets[i]`, which the body of the
      previous step may have changed in any way, and `ys` are the values it yielded. */
  ghost predicate IsWalk(sets: seq<set<int>>, ys: seq<int>, down: bool) {
    && |sets| == |ys| + 1
    && AreSteps(sets, ys, down)
    && IsOver(sets[|ys|], Before(ys, |ys|, down), down)
  }

  ghost predicate AreSteps(sets: seq<set<int>>, ys: seq<int>, down: bool)
    requires |sets| >= |ys|
  {
    forall i :: 0 <= i < |ys| ==> IsStep(sets[i], Before(ys, i, down), ys[i], down)
  }

  /** The value that step `i` continues from. */
  ghost function Before(ys: seq<int>, i: nat, down: bool): int
    requires i <= |ys|
  {
    if i > 0 then ys[i - 1] else if down then CELLMAX + 1 else -1
  }

  /** The step at which the turn of a value comes: all earlier values are in front of it. */
  ghost function Turn(ys: seq<int>, v: int, down: bool): (i: nat)
    ensures i <= |ys|
    ensures forall j :: 0 <= j < i ==> IsAhead(ys[j], v, down)
    ensures i < |ys| ==> !IsAhead(ys[i], v, down)
  {
    if ys == [] || !IsAhead(ys[0], v, down) then 0 else 1 + Turn(ys[1..], v, down)
  }

  lemma {:induction false} WalkIsOrdered(sets: seq<set<int>>, ys: seq<int>, down: bool, i: nat, j: nat)
    requires IsWalk(sets, ys, down) && i < j < |ys|
    ensures IsAhead(ys[i], ys[j], down)
    decreases j
  {
    assert IsStep(sets[j], Before(ys, j, down), ys[j], down);
    if i < j - 1 {
      WalkIsOrdered(sets, ys, down, i, j - 1);
    }
  }

  /** A value is yielded if and only if it is in the set when its turn comes, and then once. */
  lemma YieldedIffPresentAtTurn(sets: seq<set<int>>, ys: seq<int>, down: bool, v: int)
    requires IsWalk(sets, ys, down) && 0 <= v <= CELLMAX
    ensures v in ys <==> v in sets[Turn(ys, v, down)]
    ensures forall i, j :: 0 <= i < |ys| && 0 <= j < |ys| && ys[i] == v == ys[j] ==> i == j
  {
    hide Turn, IsWalk, AreSteps, IsOver, IsStep, Before;
    AtTurn(sets, ys, down, v);
    var t := Turn(ys, v, down);
    if v in ys {
      var i :| 0 <= i < |ys| && ys[i] == v;
      if t < i {
        WalkIsOrdered(sets, ys, down, t, i);
      }
    }
    forall i, j | 0 <= i < j < |ys|
      ensures IsAhead(ys[i], ys[j], down)
    {
      WalkIsOrdered(sets, ys, down, i, j);
    }
  }

  lemma AtTurn(sets: seq<set<int>>, ys: seq<int>, down: bool, v: int)
    requires IsWalk(sets, ys, down) && 0 <= v <= CELLMAX
    ensures
      var t := Turn(ys, v, down);
      v in sets[t] <==> t < |ys| && ys[t] == v
  {
    hide Turn;
    var t := Turn(ys, v, down);
    assert IsAhead(Before(ys, t, down), v, down);
    if t < |ys| {
      assert IsStep(sets[t], Before(ys, t, down), ys[t], down);
    }
  }

  /** The loop ends: there are only so many cells to yield in one direction. */
  lemma {:induction false} WalkIsFinite(sets: seq<set<int>>, ys: seq<int>, down: bool, i: nat)
    requires IsWalk(sets, ys, down) && i < |ys|
    ensures if down then ys[i] <= CELLMAX - i else i <= ys[i]
  {
    assert IsStep(sets[i], Before(ys, i, down), ys[i], down);
    if i > 0 {
      WalkIsFinite(sets, ys, down, i - 1);
    }
  }

  // ----- A walk under way -----

  lemma MembersAreCells(s: seq<Cell>, v: int)
    requires IsSet(s) && v in Members(s)
    ensures 0 <= v <= CELLMAX
  {}

  /** The body of the loop: any edit that leaves a set in the array. It may break out of the loop. */
  method Body(arr: array<Cell>) returns (breaks: bool)
    requires IsSet(arr[..])
    modifies arr
    ensures IsSet(arr[..])
  {
    breaks := *;
    var image: seq<Cell> := *;
    if |image| == arr.Length && IsSet(image) {
      forall i | 0 <= i < arr.Length {
        arr[i] := image[i];
      }
      assert arr[..] == image;
    }
  }

  /** What the walk continues with: the next member `v`, or nothing if there is no `more`. */
  ghost predicate Continues(m: set<int>, after: int, more: bool, v: int, down: bool) {
    if more then IsStep(m, after, v, down) else IsOver(m, after, down)
  }

  /** The walk so far was right, and it continues rightly. */
  ghost predicate IsUnderWay(sets: seq<set<int>>, ys: seq<int>, more: bool, v: int, down: bool) {
    && |sets| == |ys| + 1 && AreSteps(sets, ys, down)
    && Continues(sets[|ys|], Before(ys, |ys|, down), more, v, down)
  }

  /** How a loop was left: at its end, or with the body breaking out at the value that came next. */
  ghost predicate IsWalkTo(sets: seq<set<int>>, ys: seq<int>, left: Option<int>, down: bool) {
    match left
    case None => IsWalk(sets, ys, down)
    case Some(v) => IsUnderWay(sets, ys, true, v, down)
  }

  lemma OneMoreStep(sets: seq<set<int>>, ys: seq<int>, v: int, m: set<int>, more: bool, w: int, down: bool)
    requires |sets| == |ys| + 1
    ensures IsUnderWay(sets + [m], ys + [v], more, w, down) <==>
      IsUnderWay(sets, ys, true, v, down) && Continues(m, v, more, w, down)
  {
    hide IsStep, IsOver;
    var all, zs := sets + [m], ys + [v];
    assert forall i :: 0 <= i < |ys| ==>
      all[i] == sets[i] && zs[i] == ys[i] && Before(zs, i, down) == Before(ys, i, down);
    assert Before(zs, |ys|, down) == Before(ys, |ys|, down) && zs[|ys|] == v && all[|ys|] == sets[|ys|];
    if AreSteps(all, zs, down) {
      assert IsStep(all[|ys|], Before(zs, |ys|, down), zs[|ys|], down);
      forall i | 0 <= i < |ys|
        ensures IsStep(sets[i], Before(ys, i, down), ys[i], down)
      {
        assert IsStep(all[i], Before(zs, i, down), zs[i], down);
      }
    }
  }

  lemma NothingYielded(m: set<int>, more: bool, v: int, down: bool)
    requires Continues(m, if down then CELLMAX + 1 else -1, more, v, down)
    ensures IsUnderWay([m], [], more, v, down)
  {}

  lemma EndsWalk(sets: seq<set<int>>, ys: seq<int>, v: int, down: bool)
    requires |sets| == |ys| + 1
    ensures IsUnderWay(sets, ys, false, v, down) <==> IsWalk(sets, ys, down)
  {}

  /** The first and the last slot in use hold the first members of the two walks. */
  lemma FirstIsStep(s: seq<Cell>, down: bool)
    requires IsSet(s) && s[0] > 0
    ensures IsStep(Members(s), if down then CELLMAX + 1 else -1, if down then s[s[0]] else s[1], down)
  {}

  /** Where the walk starts: at the first member or the last, or nowhere. */
  method Start(arr: array<Cell>, down: bool) returns (v: Cell)
    requires IsSet(arr[..])
    ensures v == -1 <==> arr[0] == 0
    ensures v != -1 ==> v == arr[if down then arr[0] else 1] && 0 <= v
    ensures Continues(Members(arr[..]), if down then CELLMAX + 1 else -1, v != -1, v, down)
  {
    hide Members, IsStep;
    var n := Count(arr);
    CountIsCardinality(arr[..]);
    v := Get(arr, if down then n - 1 else 0);
    if n > 0 {
      FirstIsStep(arr[..], down);
      SlotOf(arr[..], if down then n else 1, v);
    } else {
      assert Members(arr[..]) == {};
    }
  }

  /** The member with `k - 1` members below it is in slot `k`. */
  lemma SlotOf(s: seq<Cell>, k: nat, v: int)
    requires IsSet(s) && 1 <= k <= s[0] && v in Members(s) && |Below(Members(s), v)| == k - 1
    ensures s[k] == v
  {
    hide Members, Below, Lowest;
    var j :| 1 <= j <= s[0] && s[j] == v;
    OrdinalOf(s, j - 1);
    LowestCount(s, j - 1);
  }

  /** `setnext`, or `setprev`. */
  method Step(arr: array<Cell>, after: Cell, down: bool) returns (v: Cell)
    requires IsSet(arr[..])
    ensures Continues(Members(arr[..]), after, v != CELLMIN, v, down)
    ensures v == CELLMIN || (IsAhead(after, v, down) && 0 <= v)
  {
    if down {
      v := Prev(arr, after);
    } else {
      v := Next(arr, after);
    }
    if v != CELLMIN {
      MembersAreCells(arr[..], v);
    }
  }

  /** The loop inside a generator: every step is a `setnext` or a `setprev`. */
  method WalkByValue(arr: array<Cell>, down: bool)
    returns (ghost sets: seq<set<int>>, ghost ys: seq<int>, left: Option<int>)
    requires IsSet(arr[..])
    modifies arr
    ensures IsSet(arr[..]) && |sets| == |ys| + 1 && IsWalkTo(sets, ys, left, down)
    ensures sets[0] == old(Members(arr[..])) && (left.None? ==> sets[|ys|] == Members(arr[..]))
  {
    hide IsStep, IsOver, AreSteps, Members, IsSet;
    sets, ys, left := [Members(arr[..])], [], None;
    var cur: Cell := Start(arr, down);
    NothingYielded(Members(arr[..]), cur != -1, cur, down);
    while cur != -1 && cur != CELLMIN
      invariant IsSet(arr[..])
      invariant |sets| == |ys| + 1 && sets[|ys|] == Members(arr[..]) && sets[0] == old(Members(arr[..]))
      invariant IsUnderWay(sets, ys, cur != -1 && cur != CELLMIN, cur, down)
      invariant cur == -1 || cur == CELLMIN || 0 <= cur
      decreases if cur < 0 then 0 else if down then cur + 1 else CELLMAX + 1 - cur
    {
      var breaks := Body(arr);
      if breaks {
        return sets, ys, Some(cur);
      }
      ghost var m := Members(arr[..]);
      var next := Step(arr, cur, down);
      OneMoreStep(sets, ys, cur, m, next != CELLMIN, next, down);
      sets, ys := sets + [m], ys + [cur];
      cur := next;
    }
  }

  // ----- The short cut -----

  /**
    With `v` still in slot `p` the compiled loop goes on to the neighbouring slot. For the walk
    upwards that is right exactly if slot `p` is in use, or the last slot in use holds nothing
    larger; for the walk downwards, if slot `p` is in use or the first of all, or what the
    neighbour holds is also in the last slot in use that holds less than `v`.
    */
  predicate IsSafeAt(s: seq<Cell>, p: nat, v: int, down: bool)
    requires IsSet(s) && 1 <= p < |s|
  {
    || p <= s[0]
    || (if !down then s[0] == 0 || s[s[0]] <= v
        else p == 1 || exists k :: 1 <= k <= s[0] && s[k] == s[p - 1] < v && (k == s[0] || v <= s[k + 1]))
  }

  /** Whether the short cut ends the loop, and the value it goes on with. */
  predicate GoesOn(s: seq<Cell>, p: nat, down: bool)
    requires IsSet(s)
  {
    if down then p > 1 else p + 1 <= s[0]
  }

  lemma ShortCut(s: seq<Cell>, p: nat, v: int, down: bool)
    requires IsSet(s) && 1 <= p < |s| && s[p] == v
    ensures
      var more := GoesOn(s, p, down);
      Continues(Members(s), v, more, if !more then 0 else if down then s[p - 1] else s[p + 1], down) <==>
        IsSafeAt(s, p, v, down)
  {
    if down {
      if p > 1 && p > s[0] {
        PrevIsSlot(s, v, s[p - 1]);
      }
    } else if p + 1 <= s[0] {
      assert s[p + 1] in Members(s);
    } else if s[0] > 0 {
      assert s[s[0]] in Members(s);
    }
  }

  lemma PrevIsSlot(s: seq<Cell>, v: int, w: int)
    requires IsSet(s)
    ensures IsPrev(Members(s), v, w) <==> exists k :: 1 <= k <= s[0] && s[k] == w < v && (k == s[0] || v <= s[k + 1])
  {
    if IsPrev(Members(s), v, w) {
      var k :| 1 <= k <= s[0] && s[k] == w;
      if k < s[0] {
        assert s[k + 1] in Members(s);
      }
    }
  }

  /** Two removals and an insertion in the body: a larger member is not seen on the way up. */
  method Misled() returns (arr: array<Cell>)
    ensures IsSet(arr[..]) && arr.Length > 2
    ensures arr[2] == 5 && arr[0] == 1 && Members(arr[..]) == {9}
    ensures !IsSafeAt(arr[..], 2, 5, false) && IsNext(Members(arr[..]), 5, 9)
  {
    hide Members, IsSet, IsNext, IsRemoval, IsInsertion;
    arr := new Cell[3][2, 3, 5];
    assert arr[..] == [2, 3, 5];
    ThreeAndFive();
    var _ := Remove(arr, 3);
    CountIsCardinality(arr[..]);
    assert Members(arr[..]) == {5};
    assert arr[2] == arr[2..][0] == 5;
    var _ := Remove(arr, 5);
    CountIsCardinality(arr[..]);
    assert Members(arr[..]) == {};
    assert arr[2] == arr[1..][1] == 5;
    var _ := Add(arr, 9);
    CountIsCardinality(arr[..]);
    assert Members(arr[..]) == {9};
    assert arr[2] == arr[2..][0] == 5;
    OnlyNine(arr[..]);
  }

  lemma ThreeAndFive()
    ensures IsSet([2, 3, 5]) && Members([2, 3, 5]) == {3, 5}
  {
    assert [2, 3, 5][1] == 3 && [2, 3, 5][2] == 5;
  }

  lemma OnlyNine(s: seq<Cell>)
    requires IsSet(s) && Members(s) == {9} && s[0] == 1
    ensures IsNext(Members(s), 5, 9) && s[1] == 9
  {
    assert s[1] in Members(s);
  }

  /** One removal in the body: on the way down a value is yielded again. */
  method Repeated() returns (arr: array<Cell>)
    ensures IsSet(arr[..]) && arr.Length > 3
    ensures arr[3] == 9 && arr[2] == 9 && arr[0] == 2 && Members(arr[..]) == {5, 9}
    ensures !IsSafeAt(arr[..], 3, 9, true) && IsPrev(Members(arr[..]), 9, 5)
  {
    hide Members, IsSet, IsPrev, IsRemoval, IsInsertion;
    arr := new Cell[4][3, 3, 5, 9];
    assert arr[..] == [3, 3, 5, 9];
    ThreeFiveNine();
    var _ := Remove(arr, 3);
    CountIsCardinality(arr[..]);
    assert Members(arr[..]) == {5, 9};
    assert arr[3] == arr[3..][0] == 9;
    FiveAndNine(arr[..]);
  }

  lemma ThreeFiveNine()
    ensures IsSet([3, 3, 5, 9]) && Members([3, 3, 5, 9]) == {3, 5, 9}
  {
    var s := [3, 3, 5, 9];
    assert s[1] == 3 && s[2] == 5 && s[3] == 9;
  }

  lemma FiveAndNine(s: seq<Cell>)
    requires IsSet(s) && Members(s) == {5, 9} && s[0] == 2
    ensures s[1] == 5 && s[2] == 9 && IsPrev(Members(s), 9, 5)
  {
    assert s[1] in Members(s) && s[2] in Members(s);
  }

  // ----- Bodies that do not mislead -----

  /** What the natives called by a run of the body may do; the last takes out only from `least` up. */
  datatype Edits = Adds | Removes | RemovesFrom(least: int)

  ghost predicate IsEdit(s: seq<Cell>, t: seq<Cell>, e: Edits)
    requires IsSet(s)
  {
    match e
    case Adds => IsInsertion(s, t)
    case Removes => IsRemoval(s, t)
    case RemovesFrom(least) => t == s || exists pos: int :: 1 <= pos <= s[0] && s[pos] >= least && t == Deleted(s, pos)
  }

  /** One edit after the other leads from `s` to `t`. */
  ghost predicate Leads(chain: seq<seq<Cell>>, s: seq<Cell>, t: seq<Cell>, e: Edits) {
    && |chain| > 0 && chain[0] == s && chain[|chain| - 1] == t
    && (forall i :: 0 <= i < |chain| ==> IsSet(chain[i]))
    && (forall i :: 0 < i < |chain| ==> IsEdit(chain[i - 1], chain[i], e))
  }

  ghost predicate CanBecome(s: seq<Cell>, t: seq<Cell>, e: Edits) {
    exists chain :: Leads(chain, s, t, e)
  }

  /** The natives tell by their contracts which edit they make, and a run of the body strings them together. */
  lemma OneMoreEdit(s: seq<Cell>, t: seq<Cell>, u: seq<Cell>, e: Edits)
    requires CanBecome(s, t, e) && IsSet(t) && IsSet(u) && IsEdit(t, u, e)
    ensures CanBecome(s, s, e) && CanBecome(s, u, e)
  {
    hide IsEdit, IsSet;
    var chain :| Leads(chain, s, t, e);
    assert Leads([s], s, s, e);
    assert Leads(chain + [u], s, u, e);
  }

  /** A run of the body that only adds, or only removes: on the way down, nothing below the visited value. */
  ghost predicate IsPlain(s: seq<Cell>, t: seq<Cell>, v: int, down: bool) {
    CanBecome(s, t, Adds) || CanBecome(s, t, if down then RemovesFrom(v) else Removes)
  }

  /** What such edits leave true of the array `s` that the body found, with its visited slot `p`. */
  ghost predicate IsTamed(s: seq<Cell>, t: seq<Cell>, p: nat, e: Edits)
    requires IsSet(s) && 1 <= p <= s[0]
  {
    && IsSet(t) && |t| == |s|
    && match e
       case Adds => p <= t[0]
       case Removes => t[0] <= s[0] && forall j :: 0 < t[0] < j <= s[0] ==> t[t[0]] <= t[j]
       case RemovesFrom(_) => p - 1 <= t[0] && forall j :: 1 <= j < p ==> t[j] == s[j]
  }

  lemma EditIsTamed(s: seq<Cell>, t: seq<Cell>, u: seq<Cell>, p: nat, e: Edits)
    requires IsSet(s) && 1 <= p <= s[0] && IsTamed(s, t, p, e) && IsSet(u) && IsEdit(t, u, e)
    requires e.RemovesFrom? ==> e.least == s[p]
    ensures IsTamed(s, u, p, e)
  {
    if e.Adds? {
      InsertionGrows(t, u);
    } else if u != t && u != t[0 := 0] {
      var pos: int :| 1 <= pos <= t[0] && u == Deleted(t, pos) && (e.RemovesFrom? ==> t[pos] >= e.least);
      DeletionKeeps(t, pos);
      if e.Removes? {
        DeletionLeaves(t, pos, s[0]);
      }
    }
  }

  lemma InsertionGrows(s: seq<Cell>, t: seq<Cell>)
    requires IsSet(s) && IsInsertion(s, t)
    ensures |t| == |s| && t[0] >= s[0]
  {}

  lemma DeletionKeeps(s: seq<Cell>, pos: int)
    requires IsSet(s) && 1 <= pos <= s[0]
    ensures
      var t := Deleted(s, pos);
      |t| == |s| && t[0] == s[0] - 1 && forall j :: 1 <= j < pos ==> t[j] == s[j]
  {}

  /** The slots behind those in use hold nothing smaller than a member. */
  lemma DeletionLeaves(s: seq<Cell>, pos: int, c: int)
    requires IsSet(s) && 1 <= pos <= s[0] <= c < |s|
    requires forall j :: 0 < s[0] < j <= c ==> s[s[0]] <= s[j]
    ensures
      var t := Deleted(s, pos);
      |t| == |s| && t[0] == s[0] - 1 && forall j :: 0 < t[0] < j <= c ==> t[t[0]] <= t[j]
  {}

  lemma {:induction false} ChainIsTamed(chain: seq<seq<Cell>>, s: seq<Cell>, t: seq<Cell>, p: nat, e: Edits)
    requires IsSet(s) && 1 <= p <= s[0] && Leads(chain, s, t, e) && (e.RemovesFrom? ==> e.least == s[p])
    ensures IsTamed(s, t, p, e)
    decreases |chain|
  {
    hide IsEdit, IsSet;
    if |chain| > 1 {
      var n := |chain| - 1;
      var rest := chain[..n];
      assert Leads(rest, s, rest[n - 1], e);
      ChainIsTamed(rest, s, rest[n - 1], p, e);
      EditIsTamed(s, chain[n - 1], t, p, e);
    }
  }

  /** After a plain run of the body the short cut is safe. */
  lemma PlainIsSafe(s: seq<Cell>, t: seq<Cell>, p: nat, down: bool)
    requires IsSet(s) && 1 <= p <= s[0] && IsPlain(s, t, s[p], down)
    ensures IsSet(t) && |t| == |s|
    ensures t[p] == s[p] ==> IsSafeAt(t, p, s[p], down)
    ensures down ==> p - 1 <= t[0]
  {
    hide IsSet, Leads, IsEdit;
    SetHasCount(s);
    var e := if CanBecome(s, t, Adds) then Adds else if down then RemovesFrom(s[p]) else Removes;
    var chain :| Leads(chain, s, t, e);
    ChainIsTamed(chain, s, t, p, e);
    TamedIsSafe(s, t, p, e, down);
  }

  lemma TamedIsSafe(s: seq<Cell>, t: seq<Cell>, p: nat, e: Edits, down: bool)
    requires IsSet(s) && 1 <= p <= s[0] && IsTamed(s, t, p, e)
    requires e.Adds? || (if down then e.RemovesFrom? else e.Removes?)
    ensures IsSet(t) && |t| == |s|
    ensures t[p] == s[p] ==> IsSafeAt(t, p, s[p], down)
    ensures down ==> p - 1 <= t[0]
  {
    if e.RemovesFrom? && t[0] == p - 1 > 0 {
      assert t[p - 1] == s[p - 1] < s[p];
    }
  }

  // ----- The compiled loop -----

  /** The slot that step `i` is in as long as the short cut is taken. */
  function Place(images: seq<seq<Cell>>, i: nat, down: bool): int
    requires images != [] && images[0] != []
  {
    if down then images[0][0] - i else i + 1
  }

  /** The first `k` steps all found their value in its slot: the short cut was never given up. */
  ghost predicate StaysFast(images: seq<seq<Cell>>, ys: seq<int>, k: nat, down: bool)
    requires k <= |ys| < |images| && images[0] != []
  {
    k == 0 || (
      var p := Place(images, k - 1, down);
      StaysFast(images, ys, k - 1, down) && 1 <= p < |images[k]| && images[k][p] == ys[k - 1])
  }

  lemma {:induction false} StaysFastLonger(images: seq<seq<Cell>>, ys: seq<int>, v: int, s: seq<Cell>, k: nat,
      down: bool)
    requires k <= |ys| < |images| && images[0] != []
    ensures StaysFast(images + [s], ys + [v], k, down) <==> StaysFast(images, ys, k, down)
  {
    if k > 0 {
      StaysFastLonger(images, ys, v, s, k - 1, down);
    }
  }

  /** Step `i` takes the short cut only if that is right. */
  ghost predicate IsSafe(images: seq<seq<Cell>>, ys: seq<int>, i: nat, down: bool)
    requires i < |ys| < |images| && images[0] != []
  {
    StaysFast(images, ys, i + 1, down) && IsSet(images[i + 1]) ==>
      IsSafeAt(images[i + 1], Place(images, i, down), ys[i], down)
  }

  ghost predicate AreSafe(images: seq<seq<Cell>>, ys: seq<int>, down: bool)
    requires images != [] && images[0] != []
  {
    |images| == |ys| + 1 && forall i :: 0 <= i < |ys| ==> IsSafe(images, ys, i, down)
  }

  lemma OneMoreImage(images: seq<seq<Cell>>, ys: seq<int>, v: int, s: seq<Cell>, down: bool)
    requires |images| == |ys| + 1 && images[0] != [] && IsSet(s)
    ensures
      var n := |ys|;
      var p := Place(images, n, down);
      var fast := StaysFast(images, ys, n, down) && 1 <= p < |s| && s[p] == v;
      && (StaysFast(images + [s], ys + [v], n + 1, down) <==> fast)
      && (AreSafe(images + [s], ys + [v], down) <==> AreSafe(images, ys, down) && (fast ==> IsSafeAt(s, p, v, down)))
  {
    hide IsSafeAt, IsSet;
    var all, zs, n := images + [s], ys + [v], |ys|;
    assert all[n + 1] == s && zs[n] == v && all[0] == images[0];
    StaysFastLonger(images, ys, v, s, n, down);
    forall i | 0 <= i < n
      ensures IsSafe(all, zs, i, down) <==> IsSafe(images, ys, i, down)
    {
      StaysFastLonger(images, ys, v, s, i + 1, down);
      assert all[i + 1] == images[i + 1] && zs[i] == ys[i];
    }
    if AreSafe(all, zs, down) {
      assert IsSafe(all, zs, n, down);
      assert forall i :: 0 <= i < n ==> IsSafe(all, zs, i, down);
    }
  }

  /** Each run of the body was plain. */
  ghost predicate ArePlain(images: seq<seq<Cell>>, ys: seq<int>, down: bool) {
    |images| == |ys| + 1 && forall i :: 0 <= i < |ys| ==> IsPlain(images[i], images[i + 1], ys[i], down)
  }

  lemma OneMorePlain(images: seq<seq<Cell>>, ys: seq<int>, v: int, s: seq<Cell>, down: bool)
    requires |images| == |ys| + 1 && ArePlain(images + [s], ys + [v], down)
    ensures ArePlain(images, ys, down) && IsPlain(images[|ys|], s, v, down)
  {
    hide IsPlain;
    var all, zs, n := images + [s], ys + [v], |ys|;
    assert all[n] == images[n] && all[n + 1] == s && zs[n] == v;
    forall i | 0 <= i < n
      ensures IsPlain(images[i], images[i + 1], ys[i], down)
    {
      assert all[i] == images[i] && all[i + 1] == images[i + 1] && zs[i] == ys[i];
      assert IsPlain(all[i], all[i + 1], zs[i], down);
    }
    assert IsPlain(all[n], all[n + 1], zs[n], down);
  }

  lemma SetHasCount(s: seq<Cell>)
    requires IsSet(s)
    ensures 0 <= s[0] < |s| <= CELLMAX
  {}

  lemma StartsSafe(images: seq<seq<Cell>>, down: bool)
    requires |images| == 1 && images[0] != []
    ensures AreSafe(images, [], down) && StaysFast(images, [], 0, down)
  {}

  /**
    The compiled loop. `images` is the array as the loop found it and as each full run of the body
    left it, `ys` are the values bound to the loop variable in those runs, `left` the one at which the
    body broke out. The loop always ends; it is a walk by value exactly if every short cut it takes
    is safe, and so it is whenever each run of the body is plain.
    */
  method ForEach(arr: array<Cell>, down: bool)
    returns (ghost images: seq<seq<Cell>>, ghost sets: seq<set<int>>, ghost ys: seq<int>, left: Option<int>)
    requires IsSet(arr[..])
    modifies arr
    ensures |images| == |sets| == |ys| + 1 && images[0] == old(arr[..])
    ensures IsSet(arr[..]) && (left.None? ==> images[|ys|] == arr[..])
    ensures forall i :: 0 <= i < |images| ==> IsSet(images[i]) && sets[i] == Members(images[i])
    ensures IsWalkTo(sets, ys, left, down) <==> AreSafe(images, ys, down)
    ensures ArePlain(images, ys, down) ==> IsWalkTo(sets, ys, left, down)
  {
    hide IsStep, IsOver, AreSteps, Members, IsSet, StaysFast, AreSafe, IsSafeAt, IsUnderWay;
    hide ArePlain, IsPlain;
    SetHasCount(arr[..]);
    images, sets, ys, left := [arr[..]], [Members(arr[..])], [], None;
    var v: Cell := Start(arr, down);
    var p: nat, fast, more := if down then arr[0] else 1, true, v != -1;
    NothingYielded(sets[0], more, v, down);
    StartsSafe(images, down);
    while more
      invariant IsSet(arr[..]) && 0 <= arr[0] < arr.Length
      invariant |images| == |sets| == |ys| + 1 && images[0] == old(arr[..]) && images[|ys|] == arr[..]
      invariant forall i :: 0 <= i < |images| ==> IsSet(images[i]) && sets[i] == Members(images[i])
      invariant fast <==> StaysFast(images, ys, |ys|, down)
      invariant fast ==> p == Place(images, |ys|, down) && p <= arr.Length
      invariant fast && more ==> 1 <= p < arr.Length && arr[p] == v
      invariant more && !fast ==> 0 <= v
      invariant ArePlain(images, ys, down) ==> AreSafe(images, ys, down) && (fast && more ==> p <= arr[0])
      invariant IsUnderWay(sets, ys, more, v, down) <==> AreSafe(images, ys, down)
      decreases fast, if fast then (if down then p else arr.Length - p) else if !more then 0
        else if down then v + 1 else CELLMAX + 1 - v
    {
      ghost var found, was := arr[..], v;
      var breaks := Body(arr);
      if breaks {
        return images, sets, ys, Some(v);
      }
      SetHasCount(arr[..]);
      ghost var s := arr[..];
      OneMoreImage(images, ys, v, s, down);
      if ArePlain(images + [s], ys + [v], down) {
        OneMorePlain(images, ys, v, s, down);
        if fast {
          PlainIsSafe(found, s, p, down);
        }
      }
      if fast && arr[p] == v {
        ShortCut(s, p, v, down);
        p := if down then p - 1 else p + 1;
        more := if down then p >= 1 else p <= arr[0];
        if more {
          v := arr[p];
        }
      } else {
        fast := false;
        v := Step(arr, v, down);
        more := v != CELLMIN;
      }
      OneMoreStep(sets, ys, was, Members(s), more, v, down);
      images, sets, ys := images + [s], sets + [Members(s)], ys + [was];
    }
    EndsWalk(sets, ys, v, down);
  }
}
