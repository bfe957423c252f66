/** What the chain of frames means for whole runs: calls return to their callers. */
module AmxCalls {
  import opened AmxFrames
  import opened AmxMachine
  import opened AmxMemory
  import opened AmxRun
  import opened Words

  /** The states of a disciplined run, with the calls under way in each of them. */
  predicate IsRun(env: Env, ms: seq<Machine>, cs: seq<Calls>) {
    && |ms| == |cs| > 0
    && forall i :: 0 <= i < |ms| - 1 ==> IsLink(env, ms[i], cs[i], ms[i + 1], cs[i + 1])
  }

  predicate IsLink(env: Env, m: Machine, c: Calls, n: Machine, d: Calls) {
    Follows(env, m, n) && IsDisciplined(env, m, c, n) && d == Track(env, m, c)
  }

  /** Code that a 32-bit machine can address, with all its addresses at instructions. */
  ghost predicate IsProgram(env: Env) {
    WellTargeted(env.code) && 4 * |env.code| <= 0x7fff_ffff
  }

  /** The run is a prefix of the run of the interpreter without sleeps. */
  lemma {:induction false} RunIsAwake(env: Env, ms: seq<Machine>, cs: seq<Calls>, fuel: nat)
    requires IsRun(env, ms, cs)
    ensures RunAwake(env, ms[0], fuel + |ms| - 1) == RunAwake(env, ms[|ms| - 1], fuel)
    decreases |ms|
  {
    hide Step, IsDisciplined, Track;
    if |ms| > 1 {
      assert IsLink(env, ms[0], cs[0], ms[1], cs[1]);
      assert IsRun(env, ms[1..], cs[1..]) by {
        forall i | 0 <= i < |ms[1..]| - 1
          ensures IsLink(env, ms[1..][i], cs[1..][i], ms[1..][i + 1], cs[1..][i + 1])
        {
          assert IsLink(env, ms[i + 1], cs[i + 1], ms[i + 2], cs[i + 2]);
        }
      }
      RunIsAwake(env, ms[1..], cs[1..], fuel);
    }
  }

  /**
    In every state that a run reaches the chain of saved frames is intact, and the instruction
    pointer, however it got there, is at the start of an instruction or the end of the code.
    */
  lemma {:induction false} RunKeepsChain(env: Env, ms: seq<Machine>, cs: seq<Calls>, i: nat)
    requires IsProgram(env) && IsRun(env, ms, cs) && Linked(env, ms[0], cs[0]) && i < |ms|
    ensures Linked(env, ms[i], cs[i]) && IsTarget(env.code, ms[i].cip)
  {
    hide Follows, IsDisciplined, Track, WellTargeted, IsTarget, AreChained, InMemory;
    if i > 0 {
      RunKeepsChain(env, ms, cs, i - 1);
      assert IsLink(env, ms[i - 1], cs[i - 1], ms[i], cs[i]);
      StepKeepsChain(env, ms[i - 1], cs[i - 1], ms[i]);
    }
    assert IsTarget(env.code, ms[i].cip);
  }

  /** The outermost `d` calls under way. */
  function Outer(c: Calls, d: nat): seq<Frame>
    requires d <= |c.frames|
  {
    c.frames[|c.frames| - d..]
  }

  /** As long as no more than the calls inside them come and go, the outer calls stay. */
  lemma {:induction false} OuterCallsStay(env: Env, ms: seq<Machine>, cs: seq<Calls>, d: nat, from: nat, to: nat)
    requires IsRun(env, ms, cs) && from <= to < |ms|
    requires forall i :: from <= i <= to ==> d <= |cs[i].frames|
    ensures Outer(cs[to], d) == Outer(cs[from], d)
  {
    hide Follows, IsDisciplined, Track, Outer;
    if from < to {
      OuterCallsStay(env, ms, cs, d, from, to - 1);
      assert IsLink(env, ms[to - 1], cs[to - 1], ms[to], cs[to]);
      TrackKeepsOuter(env, ms[to - 1], cs[to - 1], d);
    }
  }

  lemma TrackKeepsOuter(env: Env, m: Machine, c: Calls, d: nat)
    requires d <= |c.frames| && d <= |Track(env, m, c).frames|
    ensures Outer(Track(env, m, c), d) == Outer(c, d)
  {
    hide OpAt, Load, Outer;
    var t := Track(env, m, c);
    if |t.frames| > |c.frames| {
      assert t.frames[1..] == c.frames;
      OuterOfMore(t, c, d);
    } else if |t.frames| < |c.frames| {
      OuterOfMore(c, t, d);
    } else {
      assert t.frames == c.frames;
      SameOuter(t, c, d);
    }
  }

  lemma OuterOfMore(more: Calls, less: Calls, d: nat)
    requires more.frames != [] && more.frames[1..] == less.frames && d <= |less.frames|
    ensures Outer(more, d) == Outer(less, d)
  {}

  lemma SameOuter(a: Calls, b: Calls, d: nat)
    requires a.frames == b.frames && d <= |a.frames|
    ensures Outer(a, d) == Outer(b, d)
  {}

  /**
    The return that matches a call gives the caller its frame, the address behind the call and,
    for RETN, the stack pointer from before the parameters were pushed.
    */
  lemma ReturnMatchesCall(env: Env, ms: seq<Machine>, cs: seq<Calls>)
    requires IsProgram(env) && IsRun(env, ms, cs) && Linked(env, ms[0], cs[0])
    requires |ms| > 2 && OpAt(env, ms[0]) == CALL
    requires forall i :: 0 < i < |cs| - 1 ==> |cs[i].frames| > |cs[0].frames|
    requires |cs[|cs| - 1].frames| == |cs[0].frames|
    ensures
      var m, n, ret := ms[0], ms[|ms| - 1], ms[|ms| - 2];
      && cs[|cs| - 1] == cs[0] && n.frm == m.frm && n.cip == m.cip + 8
      && InData(m.data, m.stk)
      && (OpAt(env, ret) == RET || OpAt(env, ret) == RETN)
      && (OpAt(env, ret) == RETN ==> n.stk == m.stk + 4 + Load(m.data, m.stk))
  {
    var last := |ms| - 1;
    var d := |cs[0].frames|;
    assert IsLink(env, ms[0], cs[0], ms[1], cs[1]);
    assert IsLink(env, ms[last - 1], cs[last - 1], ms[last], cs[last]);
    hide Step, Follows, Linked, WellTargeted, OpAt, Load;
    RunKeepsChain(env, ms, cs, last - 1);
    OuterCallsStay(env, ms, cs, d + 1, 1, last - 1);
    var c := cs[last - 1];
    assert |c.frames| == d + 1;
    assert Outer(c, d + 1) == c.frames && Outer(cs[1], d + 1) == cs[1].frames;
    ReturnStep(env, ms[last - 1], c, ms[last]);
    assert c.frames[1..] == cs[0].frames;
    assert !cs[0].pending;
  }

  // ----- From the host's call to the end -----

  /** The calls under way when the host has started a run with the stack at `stk`. */
  function Outermost(stk: int, paramcount: int): Calls {
    Calls([Frame(stk - 12, 0, 0, 4 * paramcount)], true)
  }

  lemma BeginLinks(env: Env, amx: Machine, address: int)
    requires Begin(env, amx, address).Goes?
    requires IsTarget(env.code, address) && |amx.data| <= 0x7fff_ffff && 0 <= amx.paramcount < 0x1000_0000
    ensures Linked(env, Begin(env, amx, address).next, Outermost(amx.stk, amx.paramcount))
  {
    var n := Begin(env, amx, address).next;
    var args := 4 * amx.paramcount;
    hide Load, Store, IsTarget;
    EntryCells(amx.data, amx.stk, args);
    assert n.data == Store(Store(amx.data, amx.stk - 4, args), amx.stk - 8, 0);
    StartIsTarget(env.code);
  }

  lemma EntryCells(data: seq<Byte>, stk: int, args: int)
    requires InData(data, stk - 4) && InData(data, stk - 8) && IsCell(args)
    ensures
      var d := Store(Store(data, stk - 4, args), stk - 8, 0);
      Load(d, stk - 4) == args && Load(d, stk - 8) == 0
  {
    hide Load;
    LoadStored(data, stk - 4, args);
    var one := Store(data, stk - 4, args);
    LoadStored(one, stk - 8, 0);
    LoadElsewhere(one, stk - 8, BytesOf(0), stk - 4);
  }

  /**
    When the function that the host called returns, the stack pointer is where ABORT would put
    it, the frame is zero and the run goes on at the start of the code.
    */
  lemma OutermostReturn(env: Env, amx: Machine, address: int, ms: seq<Machine>, cs: seq<Calls>)
    requires Begin(env, amx, address).Goes? && IsProgram(env)
    requires IsTarget(env.code, address) && |amx.data| <= 0x7fff_ffff && 0 <= amx.paramcount < 0x1000_0000
    requires IsRun(env, ms, cs) && |ms| > 1
    requires ms[0] == Begin(env, amx, address).next && cs[0] == Outermost(amx.stk, amx.paramcount)
    requires forall i :: 0 <= i < |cs| - 1 ==> cs[i].frames != []
    requires cs[|cs| - 1].frames == [] && OpAt(env, ms[|ms| - 2]) == RETN
    ensures
      var n := ms[|ms| - 1];
      && n.stk == amx.stk + 4 * amx.paramcount == ms[0].resetStk
      && n.frm == 0 && n.cip == 0
  {
    hide Step, Follows, Linked, WellTargeted, Load, Begin, IsTarget;
    hide OpAt, IsRun, IsLink, IsDisciplined, Track, IsProgram;
    BeginLinks(env, amx, address);
    BeginSetsResetAt(env, amx, address);
    var last := |ms| - 1;
    SameLength(env, ms, cs);
    LinkAt(env, ms, cs, last - 1);
    RunKeepsChain(env, ms, cs, last - 1);
    OuterCallsStay(env, ms, cs, 1, 0, last - 1);
    var c := cs[last - 1];
    ReturnStep(env, ms[last - 1], c, ms[last]);
    ReturnTakesOne(env, ms[last - 1], c);
    assert |c.frames| == 1 && Outer(c, 1) == c.frames && Outer(cs[0], 1) == cs[0].frames;
  }

  lemma SameLength(env: Env, ms: seq<Machine>, cs: seq<Calls>)
    requires IsRun(env, ms, cs)
    ensures |ms| == |cs|
  {}

  lemma LinkAt(env: Env, ms: seq<Machine>, cs: seq<Calls>, i: nat)
    requires IsRun(env, ms, cs) && i < |ms| - 1
    ensures |ms| == |cs|
    ensures Follows(env, ms[i], ms[i + 1]) && IsDisciplined(env, ms[i], cs[i], ms[i + 1])
    ensures cs[i + 1] == Track(env, ms[i], cs[i])
  {
    hide Follows, IsDisciplined, Track;
    assert IsLink(env, ms[i], cs[i], ms[i + 1], cs[i + 1]);
  }

  lemma ReturnTakesOne(env: Env, m: Machine, c: Calls)
    requires OpAt(env, m) == RETN && c.frames != []
    ensures Track(env, m, c).frames == c.frames[1..]
  {}

  lemma BeginSetsResetAt(env: Env, amx: Machine, address: int)
    requires Begin(env, amx, address).Goes?
    ensures Begin(env, amx, address).next.resetStk == amx.stk + 4 * amx.paramcount
  {
    hide Load, Store;
  }

  // ----- The chain that a debugger walks -----

  /** Up to `n` frames, found through the saved frame pointers in memory alone. */
  function Walk(data: seq<Byte>, frm: int, n: nat): seq<int>
    decreases n
  {
    if n == 0 || frm == 0 || !InData(data, frm) then [] else [frm] + Walk(data, Load(data, frm), n - 1)
  }

  function Bases(frames: seq<Frame>): (s: seq<int>)
    ensures |s| == |frames|
  {
    if frames == [] then [] else [frames[0].base] + Bases(frames[1..])
  }

  /** Walking the chain finds every call under way, and no more. */
  lemma {:induction false} WalkFindsFrames(env: Env, data: seq<Byte>, frm: int, frames: seq<Frame>, n: nat)
    requires AreChained(env, frames) && n >= |frames|
    requires forall i :: 0 <= i < |frames| ==> InMemory(data, frames[i], false) && frames[i].base > 0
    requires frm == if frames == [] then 0 else frames[0].base
    ensures Walk(data, frm, n) == Bases(frames)
    decreases |frames|
  {
    hide Load, IsTarget;
    if frames != [] {
      RestIsChained(env, frames);
      assert |frames| > 1 ==> IsAbove(frames[0], frames[1]);
      WalkFindsFrames(env, data, frames[0].callerFrm, frames[1..], n - 1);
    }
  }
}
