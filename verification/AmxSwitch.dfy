/** OP_SWITCH: a binary search in the case table, by signed comparison. */
module AmxSwitch {
  import opened AmxCode

  /** A whole case table at cell `t`: the opcode, the number of records, the default, the records. */
  predicate IsTable(code: seq<int>, t: int) {
    && 0 <= t && t + 1 < |code| && code[t] == CASETBL && code[t + 1] >= 0
    && t + 3 + 2 * code[t + 1] <= |code|
  }

  function Label(code: seq<int>, t: int, r: int): int
    requires IsTable(code, t) && 0 <= r < code[t + 1]
  {
    code[t + 3 + 2 * r]
  }

  /** The cell that holds the address of record `r`; record -1 is the default. */
  function AddressCell(t: int, r: int): int {
    t + 4 + 2 * r
  }

  ghost predicate IsSorted(code: seq<int>, t: int)
    requires IsTable(code, t)
  {
    forall q, r :: 0 <= q < r < code[t + 1] ==> Label(code, t, q) < Label(code, t, r)
  }

  /** The search between the records `i` and `num`; -1 if it finds nothing. */
  function Search(code: seq<int>, t: int, i: int, num: int, pri: int): (r: int)
    requires IsTable(code, t) && 0 <= i && num < code[t + 1]
    ensures r == -1 || (i <= r <= num && Label(code, t, r) == pri)
    decreases num - i + 1
  {
    if i > num then -1
    else
      var offs := (i + num) / 2;
      if Label(code, t, offs) < pri then Search(code, t, offs + 1, num, pri)
      else if Label(code, t, offs) > pri then Search(code, t, i, offs - 1, pri)
      else offs
  }

  /** The code cell that `SWITCH` takes its target from. */
  function Selected(code: seq<int>, t: int, pri: int): (c: int)
    requires IsTable(code, t)
    ensures t < c < |code|
  {
    AddressCell(t, Search(code, t, 0, code[t + 1] - 1, pri))
  }

  lemma {:induction false} SearchMisses(code: seq<int>, t: int, i: int, num: int, pri: int)
    requires IsTable(code, t) && 0 <= i && num < code[t + 1] && IsSorted(code, t)
    requires Search(code, t, i, num, pri) == -1
    ensures forall r :: i <= r <= num ==> Label(code, t, r) != pri
    decreases num - i + 1
  {
    if i <= num {
      var offs := (i + num) / 2;
      if Label(code, t, offs) < pri {
        SearchMisses(code, t, offs + 1, num, pri);
      } else {
        SearchMisses(code, t, i, offs - 1, pri);
      }
    }
  }

  lemma LabelHasOneRecord(code: seq<int>, t: int, q: int, r: int)
    requires IsTable(code, t) && IsSorted(code, t)
    requires 0 <= q < code[t + 1] && 0 <= r < code[t + 1] && Label(code, t, q) == Label(code, t, r)
    ensures q == r
  {}

  /**
    In a sorted table the switch goes to the address paired with PRI if PRI is a label, and to
    the default otherwise.
    */
  lemma SelectedIsPaired(code: seq<int>, t: int, pri: int, r: int)
    requires IsTable(code, t) && IsSorted(code, t)
    ensures 0 <= r < code[t + 1] && Label(code, t, r) == pri ==> Selected(code, t, pri) == AddressCell(t, r)
    ensures (forall q :: 0 <= q < code[t + 1] ==> Label(code, t, q) != pri) <==> Selected(code, t, pri) == t + 2
  {
    var found := Search(code, t, 0, code[t + 1] - 1, pri);
    if found == -1 {
      SearchMisses(code, t, 0, code[t + 1] - 1, pri);
    } else if 0 <= r < code[t + 1] && Label(code, t, r) == pri {
      LabelHasOneRecord(code, t, r, found);
    }
  }

  /** Every address that a switch can take is one that the loader relocates. */
  lemma SelectedIsAddress(code: seq<int>, t: int, pri: int)
    requires IsTable(code, t) && IsBoundary(Loader, code, t)
    ensures IsAddress(code, Selected(code, t, pri))
  {
    var c := Selected(code, t, pri);
    assert (c - t) % 2 == 0;
    assert IsAddressOf(code, t, c);
  }

  /** The loop of the interpreter, on relocated code: the target, as a place in the code. */
  method Switch(image: seq<int>, t: int, pri: int, base: int) returns (target: int)
    requires IsTable(image, t)
    ensures target == Plus(image[Selected(image, t, pri)], -base)
  {
    var cptr := t + 1;
    target := Plus(image[cptr + 1], -base);
    var num := image[cptr] - 1;
    var i := 0;
    while i <= num
      invariant 0 <= i <= num + 1 && num < image[t + 1]
      invariant target == Plus(image[t + 2], -base)
      invariant Search(image, t, i, num, pri) == Search(image, t, 0, image[t + 1] - 1, pri)
      decreases num - i + 1
    {
      var offs := (i + num) / 2;
      var val := image[cptr + offs * 2 + 2];
      assert val == Label(image, t, offs);
      if val < pri {
        i := offs + 1;
      } else if val > pri {
        num := offs - 1;
      } else {
        target := Plus(image[cptr + offs * 2 + 3], -base);
        break;
      }
    }
  }

  /** The switch on relocated code takes the target that the file has. */
  lemma SwitchAfterRelocation(code: seq<int>, base: int, image: seq<int>, t: int, pri: int)
    requires Accepts(Loader, code) && IsRelocated(code, base, image)
    requires IsTable(code, t) && IsBoundary(Loader, code, t)
    requires forall i :: 0 <= i < |code| ==> -0x8000_0000 <= code[i] < 0x8000_0000
    ensures IsTable(image, t)
    ensures Selected(image, t, pri) == Selected(code, t, pri)
    ensures Plus(image[Selected(image, t, pri)], -base) == code[Selected(code, t, pri)]
  {
    TableAfterRelocation(code, base, image, t);
    SameSearch(code, image, t, 0, code[t + 1] - 1, pri);
    SelectedIsAddress(code, t, pri);
    RelocationIsUndone(code[Selected(code, t, pri)], base);
  }

  /** Relocation keeps the opcode, the count and the labels of a table. */
  lemma TableAfterRelocation(code: seq<int>, base: int, image: seq<int>, t: int)
    requires Accepts(Loader, code) && IsRelocated(code, base, image)
    requires IsTable(code, t) && IsBoundary(Loader, code, t)
    ensures IsTable(image, t) && image[t + 1] == code[t + 1]
    ensures forall r :: 0 <= r < code[t + 1] ==> Label(image, t, r) == Label(code, t, r)
  {
    var n := Length(Loader, code, t).value;
    assert n == 3 + 2 * code[t + 1];
    forall i | t <= i < t + n && !IsAddressOf(code, t, i)
      ensures image[i] == code[i]
    {
      AddressIsOwn(code, t, i);
    }
    assert !IsAddressOf(code, t, t) && !IsAddressOf(code, t, t + 1);
    forall r | 0 <= r < code[t + 1]
      ensures image[t + 3 + 2 * r] == code[t + 3 + 2 * r]
    {
      assert !IsAddressOf(code, t, t + 3 + 2 * r);
    }
  }

  lemma {:induction false} SameSearch(code: seq<int>, image: seq<int>, t: int, i: int, num: int, pri: int)
    requires IsTable(code, t) && IsTable(image, t) && image[t + 1] == code[t + 1]
    requires forall r :: 0 <= r < code[t + 1] ==> Label(image, t, r) == Label(code, t, r)
    requires 0 <= i && num < code[t + 1]
    ensures Search(image, t, i, num, pri) == Search(code, t, i, num, pri)
    decreases num - i + 1
  {
    hide Label, IsTable;
    if i <= num {
      var offs := (i + num) / 2;
      SameSearch(code, image, t, offs + 1, num, pri);
      SameSearch(code, image, t, i, offs - 1, pri);
    }
  }
}
