/**
  The companion plugin: chains of handlers that are kept at run time, and the hook around
  `amx_Exec` that runs a chain before the public function it is named after.
  */
module DynHook {
  import opened AmxArguments
  import opened AmxConstants
  import opened AmxHost
  import opened AmxMemory
  import opened Words
  import opened Wrappers

  const HOOK_STOP := -1
  const HOOK_STOP_1 := -2

  // ----- Chains -----

  /** `amx_FindPublic`: the index of a public function of the script. */
  function Find(publics: seq<string>, name: string): (r: Option<nat>)
    ensures r.Some? ==> r.value < |publics| && publics[r.value] == name
    ensures r.None? <==> name !in publics
  {
    if publics == [] then None
    else if publics[0] == name then Some(0)
    else
      var r := Find(publics[1..], name);
      if r.Some? then Some(r.value + 1) else None
  }

  /** The handlers of a chain that the script has, in order. */
  function Existing(chain: seq<string>, publics: seq<string>): seq<nat> {
    if chain == [] then []
    else
      var i := Find(publics, chain[0]);
      (if i.Some? then [i.value] else []) + Existing(chain[1..], publics)
  }

  function FirstAt(chain: seq<string>, name: string): (k: nat)
    ensures k <= |chain| && name !in chain[..k]
    ensures k < |chain| ==> chain[k] == name
  {
    if chain == [] || chain[0] == name then 0 else 1 + FirstAt(chain[1..], name)
  }

  lemma FoundFirst(chain: seq<string>, name: string, k: nat)
    requires k <= |chain| && name !in chain[..k] && (k < |chain| ==> chain[k] == name)
    ensures FirstAt(chain, name) == k
  {
    hide FirstAt;
    var f := FirstAt(chain, name);
    assert forall i :: 0 <= i < k ==> chain[i] == chain[..k][i];
    assert forall i :: 0 <= i < f ==> chain[i] == chain[..f][i];
  }

  /** The chain without the first handler of that name. */
  function Without(chain: seq<string>, name: string): seq<string> {
    var k := FirstAt(chain, name);
    if k == |chain| then chain else chain[..k] + chain[k + 1..]
  }

  /** Registering a handler and removing it again gives the chain back, if it was not in it. */
  lemma {:induction false} AddThenRemove(chain: seq<string>, name: string)
    ensures Without(chain + [name], name) == chain <==> name !in chain || IsRepeated(chain, name)
  {
    var k := FirstAt(chain, name);
    FirstInLonger(chain, name);
    if k < |chain| {
      var w := Without(chain + [name], name);
      assert w == chain[..k] + chain[k + 1..] + [name];
      if w == chain {
        forall i | k <= i < |chain|
          ensures chain[i] == name
        {
          ShiftedIsConstant(chain, name, k, i);
        }
      }
      assert IsRepeated(chain, name) ==> forall i :: k <= i < |chain| ==> w[i] == name;
    } else {
      assert chain[..k] + (chain + [name])[k + 1..] == chain;
    }
  }

  /** From its first place on, the chain is nothing but that handler. */
  predicate IsRepeated(chain: seq<string>, name: string) {
    forall i :: FirstAt(chain, name) <= i < |chain| ==> chain[i] == name
  }

  lemma {:induction false} ShiftedIsConstant(chain: seq<string>, name: string, k: nat, i: nat)
    requires k <= i < |chain| && chain[..k] + chain[k + 1..] + [name] == chain
    ensures chain[i] == name
    decreases |chain| - i
  {
    assert (chain[..k] + chain[k + 1..] + [name])[i] == chain[i];
    if i + 1 < |chain| {
      ShiftedIsConstant(chain, name, k, i + 1);
    }
  }

  lemma {:induction false} FirstInLonger(chain: seq<string>, name: string)
    ensures FirstAt(chain + [name], name) == FirstAt(chain, name)
  {
    if chain != [] && chain[0] != name {
      assert (chain + [name])[1..] == chain[1..] + [name];
      FirstInLonger(chain[1..], name);
    }
  }

  // ----- What a dispatch does -----

  predicate Stops(r: int) {
    r == HOOK_STOP || r == HOOK_STOP_1
  }

  /** `results` are what the handlers returned that were called: all up to the first that stops. */
  predicate CalledUntilStop(handlers: seq<nat>, results: seq<int>) {
    && |results| <= |handlers|
    && (forall i :: 0 <= i < |results| - 1 ==> !Stops(results[i]))
    && (|results| < |handlers| ==> results != [] && Stops(results[|results| - 1]))
  }

  /** What the hook takes for the result of a handler: 0 if it stored none. */
  predicate AreResults(results: seq<int>, events: seq<Event>) {
    && |results| == |events|
    && forall i :: 0 <= i < |results| ==> results[i] == if events[i].ret.Some? then events[i].ret.value else 0
  }

  predicate IsStopped(results: seq<int>) {
    results != [] && Stops(results[|results| - 1])
  }

  /** The value of the callback when a handler stops the dispatch. */
  function StopValue(results: seq<int>): int {
    if IsStopped(results) && results[|results| - 1] == HOOK_STOP_1 then 1 else 0
  }

  /** A call of function `index` with these arguments. */
  predicate IsCallOf(e: Event, index: int, args: seq<int>) {
    e.index == index && e.args == args
  }

  /** The functions that were called are the first of `handlers`, each with the arguments `args`. */
  predicate CalledWith(events: seq<Event>, handlers: seq<nat>, args: seq<int>) {
    && |events| <= |handlers|
    && forall i :: 0 <= i < |events| ==> IsCallOf(events[i], handlers[i], args)
  }

  predicate CalledInOrder(events: seq<Event>, handlers: seq<nat>) {
    && |events| <= |handlers|
    && forall i :: 0 <= i < |events| ==> events[i].index == handlers[i]
  }

  /** Every call came to a halt or an abort. */
  predicate AllEnded(events: seq<Event>) {
    forall i :: 0 <= i < |events| ==> events[i].fate.Ended?
  }

  lemma EndedMore(events: seq<Event>, e: Event)
    ensures AllEnded(events + [e]) <==> AllEnded(events) && e.fate.Ended?
    ensures AllEnded([])
  {
    if AllEnded(events + [e]) {
      assert forall i :: 0 <= i < |events| ==> (events + [e])[i] == events[i];
      assert (events + [e])[|events|] == e;
    }
  }

  lemma NoneExists(publics: seq<string>)
    ensures Existing([], publics) == []
  {}

  lemma NextHandler(chain: seq<string>, publics: seq<string>, h: nat)
    requires h < |chain|
    ensures
      var i := Find(publics, chain[h]);
      && (i.Some? ==> Existing(chain[h..], publics) == [i.value] + Existing(chain[h + 1..], publics))
      && (i.None? ==> Existing(chain[h..], publics) == Existing(chain[h + 1..], publics))
  {
    assert chain[h..][1..] == chain[h + 1..];
  }

  /** In the middle of a dispatch: what was called is the front of `all`, and `rest` is to come. */
  predicate IsRecorded(all: seq<nat>, rest: seq<nat>, results: seq<int>, events: seq<Event>) {
    && AreResults(results, events) && |events| <= |all| && all[|results|..] == rest
    && CalledUntilStop(all[..|results|], results) && CalledInOrder(events, all)
  }

  lemma NothingRecorded(all: seq<nat>, args: seq<int>)
    ensures IsRecorded(all, all, [], []) && !IsStopped([]) && StopValue([]) == 0 && CalledWith([], all, args)
  {
    assert all[..0] == [] && all[0..] == all;
  }

  /** What calling the next handler adds to the record of a dispatch. */
  lemma OneMoreRecorded(all: seq<nat>, rest: seq<nat>, hi: nat, results: seq<int>, r: int, events: seq<Event>, e: Event)
    requires IsRecorded(all, [hi] + rest, results, events) && !IsStopped(results) && e.index == hi
    requires r == if e.ret.Some? then e.ret.value else 0
    ensures IsRecorded(all, rest, results + [r], events + [e])
    ensures IsStopped(results + [r]) <==> r == HOOK_STOP || r == HOOK_STOP_1
    ensures StopValue(results) == 0
    ensures StopValue(results + [r]) == if r == HOOK_STOP_1 then 1 else 0
    ensures CalledWith(events, all, e.args) ==> CalledWith(events + [e], all, e.args)
  {
    assert all[|results|] == hi && all[|results| + 1..] == all[|results|..][1..];
  }

  lemma AllRecorded(all: seq<nat>, rest: seq<nat>, results: seq<int>, events: seq<Event>)
    requires IsRecorded(all, rest, results, events) && (IsStopped(results) || rest == [])
    ensures CalledUntilStop(all, results) && AreResults(results, events) && CalledInOrder(events, all)
  {}

  /** The `n` bytes at `at` are the same. */
  predicate IsKept(before: seq<Byte>, after: seq<Byte>, at: int, n: nat) {
    && |after| == |before|
    && (n > 0 ==> 0 <= at && at + n <= |before| && after[at..at + n] == before[at..at + n])
  }

  lemma KeptItself(data: seq<Byte>, at: int, n: nat)
    requires n > 0 ==> 0 <= at && at + n <= |data|
    ensures IsKept(data, data, at, n)
  {}

  lemma KeptBoth(a: seq<Byte>, b: seq<Byte>, c: seq<Byte>, at: int, n: nat)
    requires IsKept(a, b, at, n) && IsKept(b, c, at, n)
    ensures IsKept(a, c, at, n)
  {}

  lemma KeptAbove(a: seq<Byte>, b: seq<Byte>, from: int, at: int, n: nat)
    requires SameFrom(from, a, b) && from <= at && (n > 0 ==> 0 <= at && at + n <= |a|)
    ensures IsKept(a, b, at, n)
  {}

  /** What a caller of a public function keeps of the contract. */
  lemma ObeyedCall(index: nat, publics: nat, before: Structure, after: Structure, err: int, fate: Fate)
    requires Obeys(index, publics, before, after, err, fate)
    ensures |after.data| == |before.data|
    ensures fate.Ended? ==> after.stk == before.stk + 4 * before.paramcount && after.hea == before.hea
  {}

  class Plugin {
    var chains: map<string, seq<string>>
    var intercept: set<string>
    var pubNames: map<Script, seq<string>>
    var inDispatch: nat

    /** The handlers registered for an event. */
    function Chain(ev: string): seq<string>
      reads this
    {
      if ev in chains then chains[ev] else []
    }

    /** A plugin that was just loaded. */
    constructor ()
      ensures chains == map[] && intercept == {} && pubNames == map[] && inDispatch == 0
    {
      chains, intercept, pubNames, inDispatch := map[], {}, map[], 0;
    }

    /** `AmxLoad`: the names of the public functions, if there are any. */
    method LoadScript(script: Script)
      modifies this`pubNames
      ensures forall s :: s != script ==> (s in pubNames <==> s in old(pubNames))
      ensures forall s :: s != script && s in pubNames ==> pubNames[s] == old(pubNames)[s]
      ensures script.publics != [] ==> script in pubNames && pubNames[script] == script.publics
      ensures script.publics == [] ==> pubNames == old(pubNames)
    {
      if script.publics != [] {
        pubNames := pubNames[script := script.publics];
      }
    }

    /** `AmxUnload` */
    method UnloadScript(script: Script)
      modifies this`pubNames
      ensures pubNames == old(pubNames) - {script}
    {
      pubNames := pubNames - {script};
    }

    /** `dynhook_intercept` marks a callback. */
    method Intercept(callback: string) returns (r: int)
      modifies this`intercept
      ensures r == 1 && intercept == old(intercept) + {callback}
    {
      intercept := intercept + {callback};
      r := 1;
    }

    // ----- The registry -----

    method Add(ev: string, pub: string) returns (count: nat)
      modifies this`chains
      ensures Chain(ev) == old(Chain(ev)) + [pub] && count == |Chain(ev)|
      ensures forall e :: e != ev ==> Chain(e) == old(Chain(e))
    {
      chains := chains[ev := Chain(ev) + [pub]];
      count := |chains[ev]|;
    }

    method Remove(ev: string, pub: string) returns (r: int)
      modifies this`chains
      ensures r == if pub in old(Chain(ev)) then 1 else 0
      ensures Chain(ev) == Without(old(Chain(ev)), pub)
      ensures forall e :: e != ev ==> Chain(e) == old(Chain(e))
    {
      hide FirstAt;
      chains := chains[ev := Chain(ev)];
      var v := chains[ev];
      var i := 0;
      while i < |v|
        invariant i <= |v| && pub !in v[..i]
        invariant chains == old(chains)[ev := v] && v == old(Chain(ev))
      {
        if v[i] == pub {
          FoundFirst(v, pub, i);
          chains := chains[ev := v[..i] + v[i + 1..]];
          return 1;
        }
        i := i + 1;
      }
      FoundFirst(v, pub, i);
      assert v[..i] == v;
      r := 0;
    }

    method Replace(ev: string, oldp: string, newp: string) returns (r: int)
      modifies this`chains
      ensures r == if oldp in old(Chain(ev)) then 1 else 0
      ensures
        var k := FirstAt(old(Chain(ev)), oldp);
        Chain(ev) == if k < |old(Chain(ev))| then old(Chain(ev))[k := newp] else old(Chain(ev))
      ensures forall e :: e != ev ==> Chain(e) == old(Chain(e))
    {
      hide FirstAt;
      chains := chains[ev := Chain(ev)];
      var v := chains[ev];
      var i := 0;
      while i < |v|
        invariant i <= |v| && oldp !in v[..i]
        invariant chains == old(chains)[ev := v] && v == old(Chain(ev))
      {
        if v[i] == oldp {
          FoundFirst(v, oldp, i);
          chains := chains[ev := v[i := newp]];
          return 1;
        }
        i := i + 1;
      }
      FoundFirst(v, oldp, i);
      assert v[..i] == v;
      r := 0;
    }

    method Clear(ev: string) returns (n: nat)
      modifies this`chains
      ensures n == |old(Chain(ev))| && Chain(ev) == []
      ensures forall e :: e != ev ==> Chain(e) == old(Chain(e))
    {
      if ev !in chains {
        return 0;
      }
      n := |chains[ev]|;
      chains := chains - {ev};
    }

    method Count(ev: string) returns (n: nat)
      ensures n == |Chain(ev)|
    {
      n := if ev !in chains then 0 else |chains[ev]|;
    }

    // ----- The interpreter, seen from outside -----

    /**
      The trampoline to the real `amx_Exec`. The interpreter obeys its contract; the function that
      runs may edit the chains and write to memory, but not to the `keep` bytes at `keepAt`, above
      its own parameters, and it does not leave the stack above them. Only a halt stores a result.
      */
    method Exec(script: Script, index: int, keepAt: int, keep: nat)
      returns (err: int, ret: Option<int>, ghost e: Event)
      requires script.Valid() && script.HasPending()
      requires
        var top := script.stk + 4 * script.paramcount;
        keep > 0 ==> index != EXEC_CONT && 0 <= keepAt && top <= keepAt && keepAt + keep <= |script.data|
      modifies script, this`chains, this`intercept
      ensures script.Valid()
      ensures Obeys(index, |script.publics|, old(script.Image()), script.Image(), err, e.fate)
      ensures script.trace == old(script.trace) + [e] && e.index == index && e.memory == old(script.data)
      ensures e.args == Cells(old(script.data), old(script.stk), old(script.paramcount))
      ensures e.ret == ret && (ret.Some? ==> e.fate.Ended? || e.fate.Slept?)
      ensures IsKept(old(script.data), script.data, keepAt, keep)
      ensures index != EXEC_CONT ==> script.stk <= old(script.stk) + 4 * old(script.paramcount)
    {
      hide SameBut;
      chains, intercept := *, *;
      var image: Structure := *;
      var fate: Fate := *;
      err, ret := *, *;
      var top := script.stk + 4 * script.paramcount;
      if
        || !Obeys(index, |script.publics|, script.Image(), image, err, fate)
        || (ret.Some? && !fate.Ended? && !fate.Slept?)
        || !IsKept(script.data, image.data, keepAt, keep)
        || (index != EXEC_CONT && image.stk > top)
        || image.hea < 0 || image.resetHea < 0 || image.paramcount < 0
        || image.stk > |script.data| || image.resetStk > |script.data|
      {
        image, err, ret, fate := script.Image(), ERR_STACKLOW, None, Refused;
      }
      e := Called(index, Cells(script.data, script.stk, script.paramcount), script.data, fate, ret);
      script.trace := script.trace + [e];
      script.stk, script.hea := image.stk, image.hea;
      script.resetStk, script.resetHea := image.resetStk, image.resetHea;
      script.paramcount, script.data := image.paramcount, image.data;
    }

    // ----- The hook around amx_Exec -----

    /**
      One handler: fresh arguments, then the function; they leave the caller's arguments alone. The
      result is 0 if the handler does not store one.
      */
    method RunHandler(script: Script, index: nat, saved: seq<int>, entryStk: int) returns (r: int, ghost e: Event)
      requires script.Valid() && forall i :: 0 <= i < |saved| ==> IsCell(saved[i])
      requires script.stk <= entryStk && (saved != [] ==> 0 <= entryStk && entryStk + 4 * |saved| <= |script.data|)
      modifies script, this`chains, this`intercept
      ensures script.Valid() && |script.data| == |old(script.data)|
      ensures e.index == index
      ensures e.args == Arriving(saved, old(script.stk), old(script.hea))
      ensures script.trace == old(script.trace) + [e]
      ensures IsKept(old(script.data), script.data, entryStk, 4 * |saved|)
      ensures script.stk <= old(script.stk)
      ensures e.fate.Ended? ==> script.stk == old(script.stk) && script.hea == old(script.hea)
      ensures r == if e.ret.Some? then e.ret.value else 0
      ensures e.fate.Refused? || e.fate.Left? ==> r == 0
    {
      script.paramcount := 0;
      hide IsKept, SameFrom, Fitting, Arriving, IsCell, Cells, Obeys;
      ghost var before := script.data;
      script.PushArguments(saved);
      KeptAbove(before, script.data, old(script.stk), entryStk, 4 * |saved|);
      ghost var pushed, full := script.data, script.Image();
      var err, ret;
      err, ret, e := Exec(script, index, entryStk, 4 * |saved|);
      ObeyedCall(index, |script.publics|, full, script.Image(), err, e.fate);
      r := if ret.Some? then ret.value else 0;
      KeptBoth(before, pushed, script.data, entryStk, 4 * |saved|);
    }

    /**
      The dispatch loop on the snapshot `chain`. If every handler ended, each of them found the same
      arguments, all that fit above the margin.
      */
    method RunChain(script: Script, chain: seq<string>, saved: seq<int>, entryStk: int)
      returns (stopped: bool, stopret: int, ghost results: seq<int>, ghost events: seq<Event>)
      requires script.Valid() && forall i :: 0 <= i < |saved| ==> IsCell(saved[i])
      requires script.stk == entryStk && (saved != [] ==> 0 <= entryStk && entryStk + 4 * |saved| <= |script.data|)
      modifies script, this`chains, this`intercept
      ensures script.Valid() && |script.data| == |old(script.data)|
      ensures CalledUntilStop(Existing(chain, script.publics), results) && AreResults(results, events)
      ensures stopped <==> IsStopped(results)
      ensures stopret == StopValue(results)
      ensures script.trace == old(script.trace) + events && CalledInOrder(events, Existing(chain, script.publics))
      ensures AllEnded(events) ==>
        && CalledWith(events, Existing(chain, script.publics), Arriving(saved, entryStk, old(script.hea)))
        && script.stk == entryStk && script.hea == old(script.hea)
      ensures IsKept(old(script.data), script.data, entryStk, 4 * |saved|)
    {
      hide Existing, IsRecorded, CalledUntilStop, CalledInOrder, CalledWith, IsStopped, StopValue, AllEnded;
      hide Arriving, IsKept, IsCell, Find;
      stopped, stopret := false, 0;
      results, events := [], [];
      ghost var all := Existing(chain, script.publics);
      ghost var args := Arriving(saved, entryStk, script.hea);
      var h := 0;
      NothingRecorded(all, args);
      assert chain[0..] == chain;
      KeptItself(script.data, entryStk, 4 * |saved|);
      while h < |chain| && !stopped
        invariant h <= |chain|
        invariant script.Valid() && |script.data| == |old(script.data)| && script.stk <= entryStk
        invariant IsRecorded(all, Existing(chain[h..], script.publics), results, events)
        invariant stopped <==> IsStopped(results)
        invariant stopret == StopValue(results)
        invariant script.trace == old(script.trace) + events
        invariant AllEnded(events) ==>
          CalledWith(events, all, args) && script.stk == entryStk && script.hea == old(script.hea)
        invariant IsKept(old(script.data), script.data, entryStk, 4 * |saved|)
      {
        var hi := Find(script.publics, chain[h]);
        NextHandler(chain, script.publics, h);
        h := h + 1;
        if hi.Some? {
          ghost var before := script.data;
          var r;
          ghost var e;
          r, e := RunHandler(script, hi.value, saved, entryStk);
          KeptBoth(old(script.data), before, script.data, entryStk, 4 * |saved|);
          OneMoreRecorded(all, Existing(chain[h..], script.publics), hi.value, results, r, events, e);
          EndedMore(events, e);
          results, events := results + [r], events + [e];
          if r == HOOK_STOP {
            stopped, stopret := true, 0;
          } else if r == HOOK_STOP_1 {
            stopped, stopret := true, 1;
          }
        }
      }
      NoneExists(script.publics);
      assert chain[|chain|..] == [];
      AllRecorded(all, Existing(chain[h..], script.publics), results, events);
    }

    /** What the caller's heap and stack look like after a dispatch. */
    ghost predicate IsClean(script: Script, entryStk: int, entryHea: int, n: nat)
      reads script
    {
      script.stk == entryStk + 4 * n && script.hea == entryHea && script.paramcount == 0
    }

    /** The handlers that were called, and what they leave for the function itself, in `entry`. */
    ghost predicate IsDispatched(start: Structure, handlers: seq<nat>, results: seq<int>, events: seq<Event>,
        entry: Structure)
      requires start.paramcount >= 0 && |results| <= |events|
      requires start.paramcount == 0 || (0 <= start.stk && start.stk + 4 * start.paramcount <= |start.data|)
    {
      var args := Cells(start.data, start.stk, start.paramcount);
      var called := events[..|results|];
      && CalledUntilStop(handlers, results) && CalledInOrder(called, handlers) && AreResults(results, called)
      && entry.stk == start.stk && entry.paramcount == start.paramcount
      && IsKept(start.data, entry.data, start.stk, 4 * start.paramcount)
      && (AllEnded(called) ==>
           && CalledWith(called, handlers, Arriving(args, start.stk, start.hea))
           && entry.hea == start.hea)
    }

    /**
      The dispatch of an intercepted function, up to and including the function itself; `entry` is
      the structure that the function was called with, or would have been.
      */
    method Dispatch(script: Script, index: nat, name: string)
      returns (err: int, retval: Option<int>, ghost results: seq<int>, ghost events: seq<Event>, ghost entry: Structure)
      requires script.Valid() && script.HasPending()
      modifies script, this
      ensures inDispatch == old(inDispatch) && pubNames == old(pubNames)
      ensures script.trace == old(script.trace) + events && |results| <= |events|
      ensures IsDispatched(old(script.Image()), Existing(old(Chain(name)), script.publics), results, events, entry)
      ensures
        var args := Cells(old(script.data), old(script.stk), old(script.paramcount));
        if IsStopped(results) then
          && |events| == |results| && err == ERR_NONE && retval == Some(StopValue(results))
          && script.stk == old(script.stk) + 4 * |args| && script.paramcount == 0 && script.hea == entry.hea
        else
          && |events| == |results| + 1 && IsCallOf(events[|results|], index, args)
          && Obeys(index, |script.publics|, entry, script.Image(), err, events[|results|].fate)
          && retval == events[|results|].ret
    {
      hide Existing, CalledUntilStop, CalledInOrder, CalledWith, IsStopped, StopValue, AllEnded, Arriving, IsKept;
      hide IsCell, Cells, Find, Obeys;
      var n, entryStk := script.paramcount, script.stk;
      ghost var start := script.Image();
      var saved := script.Arguments();
      var chain := Chain(name);
      inDispatch := inDispatch + 1;
      var stopped, stopret;
      stopped, stopret, results, events := RunChain(script, chain, saved, entryStk);
      inDispatch := inDispatch - 1;
      assert events[..|results|] == events;
      entry := script.Image().(stk := entryStk, paramcount := n);
      if stopped {
        script.stk := entryStk + 4 * n;
        script.paramcount := 0;
        return ERR_NONE, Some(stopret), results, events, entry;
      }
      script.stk := entryStk;
      script.paramcount := n;
      SameArguments(start.data, script.data, entryStk, n);
      ghost var e;
      err, retval, e := Exec(script, index, 0, 0);
      assert (events + [e])[..|results|] == events;
      events := events + [e];
    }

    /**
      The host calls a function that has this name, none if it has none, while no dispatch is under
      way: it is marked, and handlers are registered for it.
      */
    ghost predicate IsHandled(name: string)
      reads this
    {
      inDispatch == 0 && name != "" && name in intercept && name in chains && chains[name] != []
    }

    /** The name of a public function of a script that is loaded. */
    function NameOf(script: Script, index: int): string
      reads this
    {
      if script in pubNames && 0 <= index < |pubNames[script]| then pubNames[script][index] else ""
    }

    /**
      `Exec_hook`: the host calls function `index`. If its name is marked and has handlers, those that
      exist are called first, in order, up to the first that stops, and the function itself exactly
      if none did, always with the arguments that the host had pushed. Any other call, also the one
      that continues after a sleep and one that the interpreter refuses, is passed on as it is.
      */
    method ExecHook(script: Script, index: int)
      returns (err: int, retval: Option<int>, ghost results: seq<int>, ghost events: seq<Event>, ghost entry: Structure)
      requires script.Valid() && script.HasPending()
      modifies script, this
      ensures inDispatch == old(inDispatch) && pubNames == old(pubNames)
      ensures script.trace == old(script.trace) + events && |results| <= |events|
      ensures
        var name := old(NameOf(script, index));
        if old(IsHandled(name)) then
          IsDispatched(old(script.Image()), Existing(old(chains)[name], script.publics), results, events, entry)
        else results == [] && entry == old(script.Image())
      ensures
        var args := Cells(old(script.data), old(script.stk), old(script.paramcount));
        if results != [] && results[|results| - 1] in {-1, -2} then
          && |events| == |results| && err == ERR_NONE
          && retval == Some(if results[|results| - 1] == -2 then 1 else 0)
          && script.stk == old(script.stk) + 4 * |args| && script.paramcount == 0 && script.hea == entry.hea
        else
          && |events| == |results| + 1 && IsCallOf(events[|results|], index, args)
          && Obeys(index, |script.publics|, entry, script.Image(), err, events[|results|].fate)
          && retval == events[|results|].ret
      ensures AllEnded(events) && index != EXEC_CONT ==>
        IsClean(script, old(script.stk), old(script.hea), old(script.paramcount))
    {
      hide Existing, CalledUntilStop, CalledInOrder, CalledWith, Arriving, IsKept;
      hide IsCell, Cells, Find, SameBut;
      if inDispatch > 0 || index < 0 || script !in pubNames || index >= |pubNames[script]| {
        err, retval, results, events, entry := PassOn(script, index);
        return;
      }
      var name := pubNames[script][index];
      if name == "" || name !in intercept || name !in chains || chains[name] == [] {
        err, retval, results, events, entry := PassOn(script, index);
        return;
      }
      err, retval, results, events, entry := Dispatch(script, index, name);
    }

    /** As long as nothing is marked, and while a dispatch is under way, every call is passed on. */
    lemma NothingIsHandled(name: string)
      requires intercept == {} || inDispatch > 0 || chains == map[]
      ensures !IsHandled(name)
    {}

    /** A script marks a callback and registers a handler: the next call by the host is a dispatch. */
    method MarkThenCall(script: Script, index: nat, pub: string)
      returns (err: int, retval: Option<int>, ghost results: seq<int>, ghost events: seq<Event>, ghost entry: Structure)
      requires script.Valid() && script.HasPending() && inDispatch == 0
      requires script in pubNames && index < |pubNames[script]| && pubNames[script][index] != ""
      modifies script, this
      ensures |results| <= |events| && IsDispatched(old(script.Image()),
        Existing(old(Chain(pubNames[script][index])) + [pub], script.publics), results, events, entry)
    {
      hide IsDispatched, Existing, Obeys, Cells;
      var name := pubNames[script][index];
      var _ := Intercept(name);
      var _ := Add(name, pub);
      err, retval, results, events, entry := ExecHook(script, index);
    }

    /** A call that no handler sees. */
    method PassOn(script: Script, index: int)
      returns (err: int, retval: Option<int>, ghost results: seq<int>, ghost events: seq<Event>, ghost entry: Structure)
      requires script.Valid() && script.HasPending()
      modifies script, this`chains, this`intercept
      ensures results == [] && |events| == 1 && entry == old(script.Image())
      ensures script.trace == old(script.trace) + events
      ensures IsCallOf(events[0], index, Cells(old(script.data), old(script.stk), old(script.paramcount)))
      ensures Obeys(index, |script.publics|, entry, script.Image(), err, events[0].fate) && retval == events[0].ret
    {
      hide Cells, Obeys, IsKept;
      entry := script.Image();
      ghost var e;
      err, retval, e := Exec(script, index, 0, 0);
      results, events := [], [e];
    }

    // ----- Running a chain from a script -----

    /**
      `dynhook_call`: a script runs the chain of an event. `fmt` says for each argument whether it
      is a cell or a string, `addrs` where it is. A string is put on the heap, and everything from
      the first of them on is released after the handler. `starts` is what each handler's arguments
      were put together from. `astray` is a string larger than the gap between heap and stack,
      which `amx_Allot` does not refuse.
      */
    method Call(script: Script, ev: string, fmt: string, addrs: seq<int>)
      returns (invoked: nat, astray: bool, ghost events: seq<Event>, ghost starts: seq<Structure>)
      requires script.Valid() && script.HasPending() && |addrs| == |fmt|
      modifies script, this`chains, this`intercept
      ensures script.Valid() && script.trace == old(script.trace) + events
      ensures !astray ==>
        var handlers := Existing(old(Chain(ev)), script.publics);
        invoked == |events| == |handlers| && CalledInOrder(events, handlers)
      ensures |starts| == |events| + if astray then 1 else 0
      ensures if starts == [] then script.Image() == old(script.Image()) else starts[0] == old(script.Image())
      ensures forall i :: 0 <= i < |events| ==> IsReceived(starts[i], script.stp, fmt, addrs, events[i])
      ensures astray ==> IsTooLarge(starts[|events|], script.stp, fmt, addrs)
      ensures AllEnded(events) ==> forall i :: 0 < i < |starts| ==>
        IsReset(starts[i], old(script.Image()))
      ensures !astray && AllEnded(events) && events != [] ==> IsReset(script.Image(), old(script.Image()))
    {
      hide Existing, IsCalled, CalledInOrder, IsReceived, IsTooLarge, Find, AllEnded;
      invoked, astray, events, starts := 0, false, [], [];
      var chain := Chain(ev);
      ghost var all := Existing(chain, script.publics);
      var h := 0;
      NoneCalled(all);
      assert chain[0..] == chain;
      while h < |chain|
        invariant h <= |chain| && script.Valid() && script.HasPending() && invoked == |events| == |starts|
        invariant IsCalled(all, Existing(chain[h..], script.publics), events)
        invariant script.trace == old(script.trace) + events
        invariant if starts == [] then script.Image() == old(script.Image()) else starts[0] == old(script.Image())
        invariant forall i :: 0 <= i < |events| ==> IsReceived(starts[i], script.stp, fmt, addrs, events[i])
        invariant AllEnded(events) && events != [] ==> IsReset(script.Image(), old(script.Image()))
        invariant AllEnded(events) ==> forall i :: 0 < i < |starts| ==> IsReset(starts[i], old(script.Image()))
      {
        var idx := Find(script.publics, chain[h]);
        NextHandler(chain, script.publics, h);
        h := h + 1;
        if idx.Some? {
          starts := starts + [script.Image()];
          ghost var e;
          astray, e := CallHandler(script, idx.value, fmt, addrs);
          if astray {
            return;
          }
          OneMoreCalled(all, Existing(chain[h..], script.publics), idx.value, events, e);
          EndedMore(events, e);
          events, invoked := events + [e], invoked + 1;
        }
      }
      NoneExists(script.publics);
      assert chain[|chain|..] == [];
      AllCalled(all, events);
    }

    /** One handler of `dynhook_call`. */
    method CallHandler(script: Script, index: nat, fmt: string, addrs: seq<int>)
      returns (astray: bool, ghost e: Event)
      requires script.Valid() && script.HasPending() && |addrs| == |fmt|
      modifies script, this`chains, this`intercept
      ensures script.Valid() && (!astray ==> script.HasPending())
      ensures astray ==> script.trace == old(script.trace)
      ensures !astray ==> script.trace == old(script.trace) + [e] && e.index == index
      ensures !astray && e.fate.Ended? ==> IsReset(script.Image(), old(script.Image()))
      ensures !astray && e.fate.Refused? ==>
        script.hea == old(script.hea) && script.stk == old(script.stk) - 4 * (|e.args| - old(script.paramcount))
      ensures
        var s := old(script.Image());
        if astray then IsTooLarge(s, script.stp, fmt, addrs) else IsReceived(s, script.stp, fmt, addrs, e)
    {
      hide HasPushed, IsPassed, IsReceived, IsTooLarge, Items, AreSettled, SameBut, Cells, Pending, AreHeld;
      astray := false;
      var firstStr := -1;
      var n := |fmt|;
      ghost var s, args, blocks := script.Image(), [], [];
      NothingPushed(script);
      NothingPassed(s, script.stp, fmt, addrs);
      while n > 0
        invariant 0 <= n <= |fmt|
        invariant script.trace == old(script.trace)
        invariant HasPushed(script, args, blocks, s)
        invariant IsPassed(s, script.stp, fmt, addrs, n, script.stk, script.hea, args, blocks)
        invariant firstStr == -1 ==> script.hea == s.hea
        invariant firstStr != -1 ==> firstStr == s.hea
      {
        n := n - 1;
        var address;
        astray, address, args, blocks := PushArgument(script, fmt, addrs, n, args, blocks, s);
        if astray {
          e := Called(index, [], [], Refused, None);
          return;
        }
        if fmt[n] == 's' && firstStr == -1 {
          firstStr := address;
        }
      }
      PushedArguments(script, args, blocks, s);
      ghost var full := script.Image();
      var err, ret;
      err, ret, e := Exec(script, index, 0, 0);
      EverythingPassed(s, script.stp, fmt, addrs, full.stk, full.hea, args, blocks, e);
      if firstStr != -1 {
        script.Release(firstStr);
      }
    }

    /** Argument `n` of `dynhook_call`: the cell at the address, or a copy of the string there. */
    method PushArgument(script: Script, fmt: string, addrs: seq<int>, n: nat, ghost args: seq<int>,
        ghost blocks: seq<Block>, ghost s: Structure)
      returns (astray: bool, address: int, ghost next: seq<int>, ghost nextBlocks: seq<Block>)
      requires |addrs| == |fmt| && n < |fmt| && HasPushed(script, args, blocks, s)
      requires IsPassed(s, script.stp, fmt, addrs, n + 1, script.stk, script.hea, args, blocks)
      modifies script`stk, script`hea, script`paramcount, script`data
      ensures astray ==> script.Valid() && IsTooLarge(s, script.stp, fmt, addrs)
      ensures !astray ==> HasPushed(script, next, nextBlocks, s)
      ensures !astray ==> IsPassed(s, script.stp, fmt, addrs, n, script.stk, script.hea, next, nextBlocks)
      ensures !astray && address == -1 ==> script.hea == old(script.hea)
      ensures !astray && address != -1 ==> fmt[n] == 's' && address == old(script.hea)
    {
      hide HasPushed, IsPassed, IsTooLarge, TextAt, UpToZero, Load;
      astray, address, next, nextBlocks := false, -1, args, blocks;
      PushedIsValid(script, args, blocks, s);
      ghost var stk, hea := script.stk, script.hea;
      if fmt[n] == 's' {
        var text := script.ReadString(addrs[n]);
        ReadIsText(script, args, blocks, s, addrs[n]);
        var chars := UpToZero(text);
        if 4 * (|chars| + 1) > script.stk - script.hea {
          PassTooLarge(s, script.stp, fmt, addrs, n, stk, hea, args, blocks, chars);
          return true, -1, args, blocks;
        }
        address, next, nextBlocks := PushText(script, chars, args, blocks, s);
        PassText(s, script.stp, fmt, addrs, n, stk, hea, args, blocks, chars);
      } else {
        var val := script.ReadCell(addrs[n]);
        ReadIsCell(script, args, blocks, s, fmt[n], addrs[n]);
        next := PushCell(script, val, args, blocks, s);
        PassCell(s, script.stp, fmt, addrs, n, stk, hea, args, blocks, val);
      }
    }
  }

  /** The stack is without the parameters that waited on it, and the heap as it was. */
  predicate IsReset(after: Structure, before: Structure) {
    after.stk == before.stk + 4 * before.paramcount && after.hea == before.hea && after.paramcount == 0
  }

  /** The parameters that wait on the stack, behind which new ones are pushed. */
  ghost function Pending(s: Structure): seq<int> {
    if s.paramcount > 0 && 0 <= s.stk && s.stk + 4 * s.paramcount <= |s.data| then Cells(s.data, s.stk, s.paramcount)
    else []
  }

  /**
    What a handler receives in front of what already waited: of cells alone as many as fit, and if
    nothing is read from the gap between heap and stack, exactly the arguments that `Passing` says,
    with the strings in memory.
    */
  ghost predicate IsReceived(s: Structure, stp: int, fmt: string, addrs: seq<int>, e: Event)
    requires |addrs| == |fmt|
  {
    && |e.args| <= |fmt| + |Pending(s)|
    && ('s' !in fmt ==> |e.args| == Fitting(s.stk, s.hea, |fmt|) + |Pending(s)|)
    && (AreSettled(s.data, s.stk, s.hea, stp, fmt, addrs) ==>
         var r := Passing(s.stk, s.hea, Items(s.data, stp, fmt, addrs));
         r.Passed? && e.args == r.args + Pending(s) && AreHeld(e.memory, r.blocks))
  }

  ghost predicate IsTooLarge(s: Structure, stp: int, fmt: string, addrs: seq<int>)
    requires |addrs| == |fmt|
  {
    && 's' in fmt
    && (AreSettled(s.data, s.stk, s.hea, stp, fmt, addrs) ==>
         Passing(s.stk, s.hea, Items(s.data, stp, fmt, addrs)) == TooLarge)
  }

  // ----- In the middle of passing arguments -----

  /** The arguments that stand on the stack, the last pushed first; only the gap was written to. */
  ghost predicate HasPushed(script: Script, args: seq<int>, blocks: seq<Block>, s: Structure)
    reads script
  {
    && script.Valid() && 0 <= s.hea <= script.hea && |s.data| == |script.data|
    && s.paramcount >= 0 && s.stk + 4 * s.paramcount <= |s.data| && (s.paramcount > 0 ==> 0 <= s.stk)
    && script.paramcount == |args| + s.paramcount && script.stk == s.stk - 4 * |args|
    && (script.paramcount > 0 ==> 0 <= script.stk)
    && script.resetStk == s.resetStk && script.resetHea == s.resetHea
    && SameBut(s.data, script.data, s.hea, s.stk) && Cells(script.data, script.stk, |args|) == args
    && AreBelow(script.data, blocks, script.hea)
  }

  /** The arguments from `n` on have led to `args` and `blocks`, with `stk` and `hea` for the rest. */
  ghost predicate IsPassed(s: Structure, stp: int, fmt: string, addrs: seq<int>, n: nat, stk: int, hea: int,
      args: seq<int>, blocks: seq<Block>)
    requires |addrs| == |fmt| && n <= |fmt|
  {
    && |args| <= |fmt| - n
    && ('s' !in fmt ==> hea == s.hea && Fitting(s.stk, s.hea, |fmt|) == |args| + Fitting(stk, hea, n))
    && (AreSettled(s.data, s.stk, s.hea, stp, fmt, addrs) ==>
         var items := Items(s.data, stp, fmt, addrs);
         Passing(s.stk, s.hea, items) == Behind(Passing(stk, hea, items[..n]), args, blocks))
  }

  lemma NothingPushed(script: Script)
    requires script.Valid() && script.HasPending()
    ensures HasPushed(script, [], [], script.Image())
  {}

  lemma NothingPassed(s: Structure, stp: int, fmt: string, addrs: seq<int>)
    requires |addrs| == |fmt|
    ensures IsPassed(s, stp, fmt, addrs, |fmt|, s.stk, s.hea, [], [])
  {
    hide Passing, Fitting, AreSettled;
    var items := Items(s.data, stp, fmt, addrs);
    assert items[..|fmt|] == items;
  }

  lemma PushedIsValid(script: Script, args: seq<int>, blocks: seq<Block>, s: Structure)
    requires HasPushed(script, args, blocks, s)
    ensures script.Valid()
  {}

  lemma PushedArguments(script: Script, args: seq<int>, blocks: seq<Block>, s: Structure)
    requires HasPushed(script, args, blocks, s)
    ensures script.Valid() && script.HasPending() && script.paramcount == |args| + |Pending(s)|
    ensures |Pending(s)| == s.paramcount && script.stk == s.stk - 4 * |args|
    ensures Cells(script.data, script.stk, script.paramcount) == args + Pending(s)
    ensures AreHeld(script.data, blocks) && 0 <= s.hea <= script.hea
  {
    hide SameBut, IsString, Load;
    CellsJoin(script.data, script.stk, |args|, s.paramcount);
    CellsAbove(s.data, script.data, s.hea, s.stk, s.stk, s.paramcount);
  }

  lemma {:induction false} CellsJoin(data: seq<Byte>, a: int, n: nat, m: nat)
    requires n + m == 0 || (0 <= a && a + 4 * (n + m) <= |data|)
    ensures Cells(data, a, n + m) == Cells(data, a, n) + Cells(data, a + 4 * n, m)
    decreases n
  {
    hide Load;
    if n > 0 {
      CellsJoin(data, a + 4, n - 1, m);
    }
  }

  lemma EverythingPassed(s: Structure, stp: int, fmt: string, addrs: seq<int>, stk: int, hea: int, args: seq<int>,
      blocks: seq<Block>, e: Event)
    requires |addrs| == |fmt| && IsPassed(s, stp, fmt, addrs, 0, stk, hea, args, blocks)
    requires e.args == args + Pending(s) && AreHeld(e.memory, blocks)
    ensures IsReceived(s, stp, fmt, addrs, e)
  {
    hide AreHeld, AreSettled, Items, IsString;
    PassingNothing(stk, hea);
    var items := Items(s.data, stp, fmt, addrs);
    assert items[..0] == [] && [] + args == args && [] + blocks == blocks;
  }

  lemma ReadIsText(script: Script, args: seq<int>, blocks: seq<Block>, s: Structure, a: int)
    requires HasPushed(script, args, blocks, s)
    ensures
      var text := if script.HasAddress(a) then TextAt(script.data, a) else [];
      IsSettled(s.data, s.stk, s.hea, script.stp, 's', a) ==> ItemAt(s.data, script.stp, 's', a) == Text(UpToZero(text))
  {
    hide TextAt, UpToZero, Load, AreBelow;
    if IsSettled(s.data, s.stk, s.hea, script.stp, 's', a) {
      ItemSame(s.data, script.data, s.hea, s.stk, script.stp, 's', a);
    }
  }

  lemma ReadIsCell(script: Script, args: seq<int>, blocks: seq<Block>, s: Structure, kind: char, a: int)
    requires HasPushed(script, args, blocks, s) && kind != 's'
    ensures
      var v := if script.HasAddress(a) then Load(script.data, a) else 0;
      IsSettled(s.data, s.stk, s.hea, script.stp, kind, a) ==> ItemAt(s.data, script.stp, kind, a) == Cell(v)
  {
    hide TextAt, UpToZero, Load, AreBelow;
    if IsSettled(s.data, s.stk, s.hea, script.stp, kind, a) {
      ItemSame(s.data, script.data, s.hea, s.stk, script.stp, kind, a);
    }
  }

  method PushText(script: Script, text: seq<Byte>, ghost args: seq<int>, ghost blocks: seq<Block>, ghost s: Structure)
    returns (address: int, ghost next: seq<int>, ghost nextBlocks: seq<Block>)
    requires HasPushed(script, args, blocks, s) && 4 * (|text| + 1) <= script.stk - script.hea
    modifies script`stk, script`hea, script`paramcount, script`data
    ensures HasPushed(script, next, nextBlocks, s)
    ensures
      var hea, z := old(script.hea), 4 * (|text| + 1);
      if old(script.stk) - hea - z < STKMARGIN then
        address == -1 && script.hea == hea && script.stk == old(script.stk) && next == args && nextBlocks == blocks
      else
        && address == hea && script.hea == hea + z && script.stk == old(script.stk) - 4
        && next == [address] + args && nextBlocks == [Block(address, text)] + blocks
  {
    hide Load, SameBut, Cells, IsString, Store, AreHeld;
    ghost var before, k, hea, top := script.data, |args|, script.hea, script.stk;
    next, nextBlocks := args, blocks;
    var err;
    err, address := script.PushString(text);
    if address != -1 {
      SameButBoth(s.data, before, script.data, s.hea, s.stk, hea, top);
      CellsAbove(before, script.data, hea, top, top, k);
      BlocksStay(before, script.data, blocks, hea, top);
      OneMoreBlock(script.data, blocks, hea, hea, text);
      next, nextBlocks := [address] + args, [Block(address, text)] + blocks;
      CellsFrom(script.data, script.stk, k);
    }
  }

  method PushCell(script: Script, val: int, ghost args: seq<int>, ghost blocks: seq<Block>, ghost s: Structure)
    returns (ghost next: seq<int>)
    requires HasPushed(script, args, blocks, s) && IsCell(val)
    modifies script`stk, script`paramcount, script`data
    ensures HasPushed(script, next, blocks, s)
    ensures
      if old(script.stk) - script.hea < STKMARGIN then script.stk == old(script.stk) && next == args
      else script.stk == old(script.stk) - 4 && next == [val] + args
  {
    hide Load, SameBut, Cells, IsString, Store, AreHeld, IsCell;
    ghost var before, k, top := script.data, |args|, script.stk;
    next := args;
    var err := script.Push(val);
    if err == ERR_NONE {
      SameButItself(before, script.hea, top);
      StoredBetween(before, before, script.hea, top, script.stk, val);
      BlocksStay(before, script.data, blocks, script.hea, top);
      StoredBetween(s.data, before, s.hea, s.stk, script.stk, val);
      PushedCells(before, script.stk, val, k);
      next := [val] + args;
    }
  }

  /** What argument `n` adds to the arguments behind it. */
  lemma PassOne(s: Structure, stp: int, fmt: string, addrs: seq<int>, n: nat, stk: int, hea: int, args: seq<int>,
      blocks: seq<Block>, item: Item)
    requires |addrs| == |fmt| && n < |fmt| && IsPassed(s, stp, fmt, addrs, n + 1, stk, hea, args, blocks)
    requires AreSettled(s.data, s.stk, s.hea, stp, fmt, addrs) && ItemAt(s.data, stp, fmt[n], addrs[n]) == item
    ensures
      var items := Items(s.data, stp, fmt, addrs);
      Passing(s.stk, s.hea, items) ==
        if item.Text? && Size(item) > stk - hea then TooLarge
        else if stk - hea - Size(item) < STKMARGIN then Behind(Passing(stk, hea, items[..n]), args, blocks)
        else Behind(Passing(stk - 4, hea + Size(item), items[..n]), [ArgumentFor(item, hea)] + args,
                    BlocksFor(item, hea) + blocks)
  {
    hide Passing, AreSettled, Size;
    var items := Items(s.data, stp, fmt, addrs);
    assert items[..n + 1] == items[..n] + [item];
    PassingNext(stk, hea, items[..n], item);
    BehindBoth(Passing(stk - 4, hea + Size(item), items[..n]), [ArgumentFor(item, hea)], BlocksFor(item, hea),
      args, blocks);
  }

  lemma PassTooLarge(s: Structure, stp: int, fmt: string, addrs: seq<int>, n: nat, stk: int, hea: int, args: seq<int>,
      blocks: seq<Block>, text: seq<Byte>)
    requires |addrs| == |fmt| && n < |fmt| && IsPassed(s, stp, fmt, addrs, n + 1, stk, hea, args, blocks)
    requires fmt[n] == 's' && 4 * (|text| + 1) > stk - hea
    requires IsSettled(s.data, s.stk, s.hea, stp, 's', addrs[n]) ==> ItemAt(s.data, stp, 's', addrs[n]) == Text(text)
    ensures IsTooLarge(s, stp, fmt, addrs)
  {
    hide IsPassed, IsSettled, ItemAt, Passing, Items;
    if AreSettled(s.data, s.stk, s.hea, stp, fmt, addrs) {
      PassOne(s, stp, fmt, addrs, n, stk, hea, args, blocks, Text(text));
    }
  }

  lemma PassText(s: Structure, stp: int, fmt: string, addrs: seq<int>, n: nat, stk: int, hea: int, args: seq<int>,
      blocks: seq<Block>, text: seq<Byte>)
    requires |addrs| == |fmt| && n < |fmt| && IsPassed(s, stp, fmt, addrs, n + 1, stk, hea, args, blocks)
    requires fmt[n] == 's' && 4 * (|text| + 1) <= stk - hea
    requires IsSettled(s.data, s.stk, s.hea, stp, 's', addrs[n]) ==> ItemAt(s.data, stp, 's', addrs[n]) == Text(text)
    ensures
      var z := 4 * (|text| + 1);
      if stk - hea - z < STKMARGIN then IsPassed(s, stp, fmt, addrs, n, stk, hea, args, blocks)
      else IsPassed(s, stp, fmt, addrs, n, stk - 4, hea + z, [hea] + args, [Block(hea, text)] + blocks)
  {
    hide IsSettled, ItemAt, Passing, Items, Behind, Fitting;
    if AreSettled(s.data, s.stk, s.hea, stp, fmt, addrs) {
      PassOne(s, stp, fmt, addrs, n, stk, hea, args, blocks, Text(text));
    }
  }

  lemma PassCell(s: Structure, stp: int, fmt: string, addrs: seq<int>, n: nat, stk: int, hea: int, args: seq<int>,
      blocks: seq<Block>, val: int)
    requires |addrs| == |fmt| && n < |fmt| && IsPassed(s, stp, fmt, addrs, n + 1, stk, hea, args, blocks)
    requires IsSettled(s.data, s.stk, s.hea, stp, fmt[n], addrs[n]) ==>
      ItemAt(s.data, stp, fmt[n], addrs[n]) == Cell(val)
    ensures
      if stk - hea < STKMARGIN then IsPassed(s, stp, fmt, addrs, n, stk, hea, args, blocks)
      else IsPassed(s, stp, fmt, addrs, n, stk - 4, hea, [val] + args, blocks)
  {
    hide IsSettled, ItemAt, Passing, Items, Behind, Fitting;
    if hea + STKMARGIN <= stk {
      OneMoreFits(stk, hea, n + 1);
    } else {
      NoMoreFit(stk, hea, n);
      NoMoreFit(stk, hea, n + 1);
    }
    if AreSettled(s.data, s.stk, s.hea, stp, fmt, addrs) {
      PassOne(s, stp, fmt, addrs, n, stk, hea, args, blocks, Cell(val));
      assert [] + blocks == blocks;
    }
  }

  /** In the middle of a run through a chain: `events` are the front of `all`, `rest` is to come. */
  predicate IsCalled(all: seq<nat>, rest: seq<nat>, events: seq<Event>) {
    |events| <= |all| && all[|events|..] == rest && CalledInOrder(events, all)
  }

  lemma NoneCalled(all: seq<nat>)
    ensures IsCalled(all, all, [])
  {
    assert all[0..] == all;
  }

  lemma OneMoreCalled(all: seq<nat>, rest: seq<nat>, hi: nat, events: seq<Event>, e: Event)
    requires IsCalled(all, [hi] + rest, events) && e.index == hi
    ensures IsCalled(all, rest, events + [e])
  {
    assert all[|events|] == hi && all[|events| + 1..] == all[|events|..][1..];
  }

  lemma AllCalled(all: seq<nat>, events: seq<Event>)
    requires IsCalled(all, [], events)
    ensures |events| == |all| && CalledInOrder(events, all)
  {}

  lemma SameArguments(data: seq<Byte>, other: seq<Byte>, at: int, n: nat)
    requires IsKept(data, other, at, 4 * n)
    ensures n == 0 || (0 <= at && at + 4 * n <= |data| == |other|)
    ensures Cells(other, at, n) == Cells(data, at, n)
  {
    if n > 0 {
      SameCells(data, other, at, n);
    }
  }
}
