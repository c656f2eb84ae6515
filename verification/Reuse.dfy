/** One injector used more than once: its assembler is never reset. */
module Reuse {
  import opened JavaInts
  import opened Outcomes
  import opened Decoder
  import opened Encoder
  import opened Frames
  import opened AssemblerSpec
  import opened Machine
  import opened Execution
  import opened Programs
  import opened Injection

  /** Injections one after the other on one injector: what each of them hands over. */
  function InjectAll(st: Asm, addrs: seq<Int64>): (results: seq<Option<Finished>>)
    ensures |results| == |addrs|
    decreases |addrs|
  {
    if addrs == [] then []
    else
      var (t, r) := Inject(st, addrs[0]);
      [r] + InjectAll(t, addrs[1..])
  }

  /** An injection only appends; it hands over all the code there is; and it works exactly
      when the pool still has a register, of which it takes one. */
  lemma InjectStep(st: Asm, addr: Int64)
    ensures var (t, r) := Inject(st, addr);
      && st.code <= t.code
      && (r.Some? ==> r.value.code == t.code && r.value.sites == t.sites)
      && (r.Some? <==> InPool(st.next))
      && t.next == Wrap32(st.next + 1)
  {
    hide Bytes, OpItems, Inject;
    InjectUnfolds(st, addr);
    var p := Apply(st, EmitPrologue);
    var c := Apply(p, EmitCall(addr));
    var q := Apply(c, EmitIntRet(RAX));
    assert st.code <= p.code <= c.code <= q.code <= Apply(q, EmitEpilogue).code;
  }

  lemma {:induction false} LaterCodeExtends(st: Asm, addrs: seq<Int64>)
    ensures forall i :: 0 <= i < |addrs| && InjectAll(st, addrs)[i].Some? ==> st.code <= InjectAll(st, addrs)[i].value.code
    decreases |addrs|
  {
    hide Inject;
    if addrs != [] {
      InjectStep(st, addrs[0]);
      LaterCodeExtends(Inject(st, addrs[0]).0, addrs[1..]);
    }
  }

  /** The code of every injection has that of every earlier one as a prefix. */
  lemma {:induction false} InjectionsNest(st: Asm, addrs: seq<Int64>, i: nat, j: nat)
    requires i <= j < |addrs| && InjectAll(st, addrs)[i].Some? && InjectAll(st, addrs)[j].Some?
    ensures InjectAll(st, addrs)[i].value.code <= InjectAll(st, addrs)[j].value.code
    decreases |addrs|
  {
    hide Inject;
    var t := Inject(st, addrs[0]).0;
    if i > 0 {
      InjectionsNest(t, addrs[1..], i - 1, j - 1);
    } else if j > 0 {
      InjectStep(st, addrs[0]);
      LaterCodeExtends(t, addrs[1..]);
      assert InjectAll(st, addrs)[j] == InjectAll(t, addrs[1..])[j - 1];
    }
  }

  /** On a new injector the first six injections hand something over and the next ones
      throw, until Java's counter has wrapped around. */
  lemma {:induction false} SixInjections(st: Asm, n: nat, addrs: seq<Int64>, i: nat)
    requires st.next == Wrap32(n) && i < |addrs|
    ensures InjectAll(st, addrs)[i].Some? <==> (n + i) % TWO_32 < 6
    decreases |addrs|
  {
    hide Inject;
    InjectStep(st, addrs[0]);
    if i == 0 {
      PoolIndex(n);
    } else {
      WrapStep(n);
      SixInjections(Inject(st, addrs[0]).0, n + 1, addrs[1..], i - 1);
    }
  }

  lemma InjectKeepsSites(st: Asm, addr: Int64)
    requires SitesValid(st.code, st.sites)
    ensures var (t, r) := Inject(st, addr);
      && SitesValid(t.code, t.sites)
      && (r.Some? ==> SitesValid(r.value.code, r.value.sites))
  {
    hide SitesValid, Apply, Inject;
    InjectUnfolds(st, addr);
    var p := Apply(st, EmitPrologue);
    var c := Apply(p, EmitCall(addr));
    StepKeepsSites(st, EmitPrologue);
    StepKeepsSites(p, EmitCall(addr));
    StepKeepsSites(c, EmitIntRet(RAX));
    StepKeepsSites(Apply(c, EmitIntRet(RAX)), EmitEpilogue);
  }

  /** All the sites handed over with any injection are valid in its code, those of the
      earlier injections among them. */
  lemma {:induction false} EveryInjectionHasValidSites(st: Asm, addrs: seq<Int64>, i: nat)
    requires SitesValid(st.code, st.sites) && i < |addrs| && InjectAll(st, addrs)[i].Some?
    ensures var f := InjectAll(st, addrs)[i].value; SitesValid(f.code, f.sites)
    decreases |addrs|
  {
    hide Inject, SitesValid;
    InjectKeepsSites(st, addrs[0]);
    if i > 0 {
      EveryInjectionHasValidSites(Inject(st, addrs[0]).0, addrs[1..], i - 1);
    }
  }

  lemma FirstCodeIsPrefix(addrs: seq<Int64>, i: nat)
    requires i < |addrs| && InjectAll(Fresh(), addrs)[i].Some?
    ensures FreshCode(addrs[0]) <= InjectAll(Fresh(), addrs)[i].value.code
  {
    FreshInjection(addrs[0]);
    hide Inject;
    assert InjectAll(Fresh(), addrs)[0] == Inject(Fresh(), addrs[0]).1;
    hide FreshCode, InjectAll;
    InjectionsNest(Fresh(), addrs, 0, i);
  }

  // ----- the sites handed over -----

  /** The mark and the call of pair `j` are at the five bytes that end code of length `len`. */
  predicate PairEnds(sites: seq<Site>, j: nat, len: nat) {
    && 2 * j + 1 < |sites|
    && sites[2 * j].Mark? && sites[2 * j].pos + 5 == len
    && sites[2 * j + 1] == CallSite(sites[2 * j].pos, 5)
  }

  /** An injection that works adds one pair, at its last five bytes; one that throws none. */
  lemma InjectAddsPair(st: Asm, addr: Int64, k: nat)
    requires |st.sites| == 2 * k
    ensures var (t, r) := Inject(st, addr);
      && st.sites <= t.sites
      && (if r.Some? then |t.sites| == 2 * (k + 1) && PairEnds(t.sites, k, |r.value.code|) else t.sites == st.sites)
  {
    hide Bytes, Inject;
    InjectUnfolds(st, addr);
    BytesOfOne(DeoptCall);
    ItemLengthBound(DeoptCall);
  }

  lemma InjectAllUnfolds(st: Asm, addrs: seq<Int64>)
    requires addrs != []
    ensures InjectAll(st, addrs)[0] == Inject(st, addrs[0]).1
    ensures forall j :: 1 <= j < |addrs| ==> InjectAll(st, addrs)[j] == InjectAll(Inject(st, addrs[0]).0, addrs[1..])[j - 1]
  {
    hide Inject;
  }

  lemma {:induction false} PairsPileUp(st: Asm, addrs: seq<Int64>, k: nat, i: nat)
    requires |st.sites| == 2 * k && i < |addrs|
    requires forall j :: 0 <= j <= i ==> InjectAll(st, addrs)[j].Some?
    ensures var sites := InjectAll(st, addrs)[i].value.sites;
      && st.sites <= sites && |sites| == 2 * (k + i + 1)
      && forall j :: 0 <= j <= i ==> PairEnds(sites, k + j, |InjectAll(st, addrs)[j].value.code|)
    decreases i
  {
    hide Inject, InjectAll, PairEnds;
    var all, t := InjectAll(st, addrs), Inject(st, addrs[0]).0;
    InjectAllUnfolds(st, addrs);
    InjectAddsPair(st, addrs[0], k);
    InjectStep(st, addrs[0]);
    assert all[0].Some?;
    if i > 0 {
      var rest := InjectAll(t, addrs[1..]);
      forall j | 0 <= j < i
        ensures rest[j].Some?
      {
        assert all[j + 1] == rest[j];
      }
      PairsPileUp(t, addrs[1..], k + 1, i - 1);
      PairStays(t.sites, all[i].value.sites, k, |all[0].value.code|);
      forall j | 1 <= j <= i
        ensures PairEnds(all[i].value.sites, k + j, |all[j].value.code|)
      {
        assert PairEnds(rest[i - 1].value.sites, k + 1 + (j - 1), |rest[j - 1].value.code|);
      }
    }
  }

  lemma PairStays(sites: seq<Site>, more: seq<Site>, j: nat, len: nat)
    requires sites <= more && PairEnds(sites, j, len)
    ensures PairEnds(more, j, len)
  {
  }

  /** The sites of injection `i` are those of all injections up to it, two for each, where
      that injection's own code ends. */
  lemma SitesOfInjection(addrs: seq<Int64>, i: nat)
    requires i < |addrs| && InjectAll(Fresh(), addrs)[i].Some?
    requires |InjectAll(Fresh(), addrs)[i].value.code| < 0x8000_0000
    ensures i < 6
    ensures forall j :: 0 <= j <= i ==> InjectAll(Fresh(), addrs)[j].Some?
    ensures var sites := InjectAll(Fresh(), addrs)[i].value.sites;
      && |sites| == 2 * (i + 1)
      && forall j :: 0 <= j <= i ==> PairEnds(sites, j, |InjectAll(Fresh(), addrs)[j].value.code|)
  {
    hide InjectAll, PairEnds;
    CodePilesUp(Fresh(), addrs, i);
    SixInjections(Fresh(), 0, addrs, i);
    forall j | 0 <= j <= i
      ensures InjectAll(Fresh(), addrs)[j].Some?
    {
      SixInjections(Fresh(), 0, addrs, j);
    }
    PairsPileUp(Fresh(), addrs, 0, i);
  }

  // ----- the frame handed over -----

  /** Every injection grows the frame by its prologue's slot, even one that then throws. */
  lemma InjectGrowsFrame(st: Asm, addr: Int64)
    ensures var (t, r) := Inject(st, addr); var f := Grow(st.frame, QWORD, ALIGNMENT).0;
      && t.frame == f && |t.code| >= |st.code| + 9
      && (r.Some? ==> r.value.frameSize == f.size && r.value.deopt == Some(SlotOf(f, QWORD)))
  {
    hide Bytes, PrologueItems, Inject;
    InjectUnfolds(st, addr);
    PrologueLengthBound(st.frame);
  }

  lemma {:induction false} FramesPileUp(st: Asm, addrs: seq<Int64>, i: nat)
    requires Rounded(st.frame, ALIGNMENT) && i < |addrs| && InjectAll(st, addrs)[i].Some?
    requires RoundUp(st.frame.cur + 8 * (i + 1), ALIGNMENT) < 0x8000_0000
    ensures var f, cur := InjectAll(st, addrs)[i].value, st.frame.cur + 8 * (i + 1);
      f.frameSize == RoundUp(cur, ALIGNMENT) && f.deopt == Some(Slot(0 - cur, QWORD))
    decreases i
  {
    hide Inject, RoundUp;
    InjectGrowsFrame(st, addrs[0]);
    RoundUpMonotone(st.frame.cur + 8, st.frame.cur + 8 * (i + 1), ALIGNMENT);
    GrowKeepsRounded(st.frame, QWORD, ALIGNMENT);
    if i > 0 {
      hide Grow;
      FramesPileUp(Inject(st, addrs[0]).0, addrs[1..], i - 1);
    }
  }

  /** Nine bytes an injection at least: an array holds only so many. */
  lemma {:induction false} CodePilesUp(st: Asm, addrs: seq<Int64>, i: nat)
    requires i < |addrs| && InjectAll(st, addrs)[i].Some?
    ensures |InjectAll(st, addrs)[i].value.code| >= |st.code| + 9 * (i + 1)
    decreases i
  {
    hide Inject;
    InjectGrowsFrame(st, addrs[0]);
    InjectStep(st, addrs[0]);
    if i > 0 {
      CodePilesUp(Inject(st, addrs[0]).0, addrs[1..], i - 1);
    }
  }

  /** The frame size and the rescue slot handed over with every injection, as long as its
      code is a Java array: 8 bytes more each time, rounded up. */
  lemma FrameOfInjection(addrs: seq<Int64>, i: nat)
    requires i < |addrs| && InjectAll(Fresh(), addrs)[i].Some?
    requires |InjectAll(Fresh(), addrs)[i].value.code| < 0x8000_0000
    ensures var f := InjectAll(Fresh(), addrs)[i].value;
      f.frameSize == RoundUp(24 + 8 * i, 16) && f.deopt == Some(Slot(0 - (24 + 8 * i), 8))
  {
    hide InjectAll;
    CodePilesUp(Fresh(), addrs, i);
    RoundUpIsMultiple(24 + 8 * i, 16);
    assert RoundUp(16, 16) == 16;
    hide RoundUp;
    assert 16 + 8 * (i + 1) == 24 + 8 * i;
    FramesPileUp(Fresh(), addrs, i);
  }

  /** What is handed over about the frame is true when the stub makes its call: rsp is
      `frameSize` below the top of the frame, and the rescue slot lies above it. */
  ghost predicate FrameAgrees(f: Finished, entry: State, call: CallEvent) {
    && Sp(call.entry) + 8 == Sp(entry) + 8 - f.frameSize
    && f.deopt.Some? && Sp(call.entry) + 8 <= Sp(entry) + 8 + f.deopt.value.offset
  }

  lemma RoundedFrames(i: nat)
    ensures RoundUp(24 + 8 * i, 16) == 32 <==> i < 2
  {
    RoundUpIsMultiple(24 + 8 * i, 16);
  }

  /** The frame the first stub builds is the one handed over with the first two injections. */
  lemma FrameAgreesIff(env: Env, addrs: seq<Int64>, i: nat, entry: State)
    requires i < |addrs| && InjectAll(Fresh(), addrs)[i].Some? && 32 <= Sp(entry)
    requires |InjectAll(Fresh(), addrs)[i].value.code| < 0x8000_0000
    ensures FrameAgrees(InjectAll(Fresh(), addrs)[i].value, entry, StubCall(env, addrs[0], entry)) <==> i < 2
  {
    hide InjectAll, RoundUp, StubCall;
    StubCallStack(env, addrs[0], entry);
    FrameOfInjection(addrs, i);
    RoundedFrames(i);
  }

  // ----- running a later injection -----

  /** Whichever injection on one injector is run, from offset 0 as installed: it calls the
      first address, once; so it calls what its own caller asked for exactly when that was
      the first address. */
  lemma ReuseCallsTheFirst(env: Env, addrs: seq<Int64>, i: nat, entry: State)
    requires i < |addrs| && InjectAll(Fresh(), addrs)[i].Some?
    requires InjectAll(Fresh(), addrs)[i].value.code <= env.code && env.base + |env.code| <= TWO_64
    requires Room(entry, 32) && CallerOutside(env, entry) && KeepsAbi(env, StubCall(env, addrs[0], entry), Sp(entry) + 8)
    ensures var end := Steps(env, Running(0, entry, []), 9);
      && CalledOnce(env, addrs[0], entry, end)
      && (CalledOnce(env, addrs[i], entry, end) <==> addrs[i] == addrs[0])
  {
    hide Inject, InjectAll, FreshCode, KeepsAbi, Steps, StaysBelow, Restored, ReturnAddress, Room, AlignedAtEntry, CallerOutside;
    FirstCodeIsPrefix(addrs, i);
    InjectedStub(env, addrs[0], entry);
    SameWord(addrs[0], addrs[i]);
  }

  /** Both together: the right function is called, from the frame that was handed over,
      exactly for the first and second injection, and for the second only when it asks for
      the same address. */
  lemma ReuseWorksIff(env: Env, addrs: seq<Int64>, i: nat, entry: State)
    requires i < |addrs| && InjectAll(Fresh(), addrs)[i].Some?
    requires |InjectAll(Fresh(), addrs)[i].value.code| < 0x8000_0000
    requires InjectAll(Fresh(), addrs)[i].value.code <= env.code && env.base + |env.code| <= TWO_64
    requires Room(entry, 32) && CallerOutside(env, entry) && KeepsAbi(env, StubCall(env, addrs[0], entry), Sp(entry) + 8)
    ensures var end := Steps(env, Running(0, entry, []), 9); var f := InjectAll(Fresh(), addrs)[i].value;
      && end.Returned? && |end.calls| == 1
      && (FrameAgrees(f, entry, end.calls[0]) <==> i < 2)
      && (CalledOnce(env, addrs[i], entry, end) && FrameAgrees(f, entry, end.calls[0]) <==> addrs[i] == addrs[0] && i < 2)
  {
    hide InjectAll, FreshCode, KeepsAbi, Steps, StaysBelow, CallerOutside, CalledOnce, StubCall, AfterReturn, FrameAgrees, Read64;
    ReuseCallsTheFirst(env, addrs, i, entry);
    FirstCodeIsPrefix(addrs, i);
    StubRuns(env, addrs[0], entry);
    FrameAgreesIff(env, addrs, i, entry);
  }

  lemma SameWord(a: Int64, b: Int64)
    ensures a % TWO_64 == b % TWO_64 <==> a == b
  {
  }

  // ----- the malformed calls -----

  /** The state after an increment of the dword at `a`. */
  function Incremented(s: State, a: int): State {
    s.(mem := Write(s.mem, a, LowBytes(Read(s.mem, a, 4) + 1, 4)))
  }

  lemma IncrementedMemory(s: State, a: int)
    ensures Read(Incremented(s, a).mem, a, 4) == (Read(s.mem, a, 4) + 1) % TWO_32
    ensures forall x :: !(a <= x < a + 4) ==> Incremented(s, a).mem(x) == s.mem(x)
  {
    hide Read, LowBytes;
    var v := Read(s.mem, a, 4) + 1;
    ReadIsFromLow(Write(s.mem, a, LowBytes(v, 4)), a, LowBytes(v, 4));
    LowBytesOfInt(v);
  }

  /** Where the malformed call's bytes lead after the load. */
  function MalformedEnd(pc: int, a: int, s: State, calls: seq<CallEvent>): Conf {
    if a + 4 > TWO_64 then Fault else Running(pc, Incremented(s, a), calls)
  }

  lemma MalformedExec(env: Env, pc: int, r: Reg, addr: Int64, s: State, calls: seq<CallEvent>)
    requires r >= 8
    ensures var items := [LoadLong(r, addr), CallVia(r)]; var c := Running(pc, s, calls);
      && FallsThrough(env, c, items)
      && ExecItems(env, c, items) == MalformedEnd(pc + |Bytes(items)|, (s.regs[RCX] - 56 + r) % TWO_64,
           s.(regs := s.regs[r := addr % TWO_64]), calls)
  {
    hide ItemBytes, Read, LowBytes, Write;
    var i0, i1 := LoadLong(r, addr), CallVia(r);
    var c := Running(pc, s, calls);
    var c1 := ExecItem(env, c, i0);
    assert c1.s.regs[RCX] == s.regs[RCX];
    assert ItemMeaning(i1) == IncMem(false, RCX, r - 56);
    TwoItems(env, c, i0, i1);
  }

  /** `emitCall` through one of the last three registers, run: no call happens. The
      registers are as after the load, and the dword at rcx - 51 + next goes up by one, or
      the machine faults on it. */
  lemma MalformedCallCallsNothing(env: Env, st: Asm, addr: Int64, s: State, calls: seq<CallEvent>)
    requires 3 <= st.next < 6 && Apply(st, EmitCall(addr)).code <= env.code
    ensures var end := Steps(env, Running(|st.code|, s, calls), 2);
      var loaded := s.(regs := s.regs[POOL[st.next] := addr % TWO_64]);
      var a := (s.regs[RCX] - 51 + st.next) % TWO_64;
      && end == MalformedEnd(|Apply(st, EmitCall(addr)).code|, a, loaded, calls)
      && Read(Incremented(loaded, a).mem, a, 4) == (Read(s.mem, a, 4) + 1) % TWO_32
      && (forall x :: !(a <= x < a + 4) ==> Incremented(loaded, a).mem(x) == s.mem(x))
  {
    hide ItemBytes, Bytes, Incremented, MalformedEnd, Read, Steps, StaysBelow, ItemMeaning;
    var r := POOL[st.next];
    assert r == st.next + 5;
    var loaded := s.(regs := s.regs[r := addr % TWO_64]);
    var a := (s.regs[RCX] - 51 + st.next) % TWO_64;
    IncrementedMemory(loaded, a);
    MalformedBytesRun(env, st.code, r, addr, s, calls, MalformedEnd(|Apply(st, EmitCall(addr)).code|, a, loaded, calls));
  }

  lemma MalformedBytesRun(env: Env, before: seq<Byte>, r: Reg, addr: Int64, s: State, calls: seq<CallEvent>, end: Conf)
    requires r >= 8 && before + Bytes([LoadLong(r, addr), CallVia(r)]) <= env.code
    requires end == MalformedEnd(|before| + |Bytes([LoadLong(r, addr), CallVia(r)])|, (s.regs[RCX] - 56 + r) % TWO_64,
      s.(regs := s.regs[r := addr % TWO_64]), calls)
    ensures RunsTo(env, Running(|before|, s, calls), 2, |before| + |Bytes([LoadLong(r, addr), CallVia(r)])|, end)
  {
    hide Bytes, MalformedEnd, FallsThrough, ExecItems, RunsTo;
    MalformedExec(env, |before|, r, addr, s, calls);
    ItemsRun(env, before, [LoadLong(r, addr), CallVia(r)], s, calls, end);
  }
}
