/** Whole programs: what every boundary in a body keeps, and how programs return. */
module Stub {
  import opened JavaInts
  import opened Decoder
  import opened Encoder
  import opened Frames
  import opened AssemblerSpec
  import opened Machine
  import opened Execution
  import opened Programs

  // ----- whole programs -----

  /** The assembler after the prologue and a body. */
  function Body(body: seq<AsmOp>): Asm {
    Run(Entered(), body)
  }

  /** ... and after `emitIntRet(a)` as well. */
  function Program(body: seq<AsmOp>, a: Reg): Asm {
    Apply(Body(body), EmitIntRet(a))
  }

  /** Surroundings in which a body may run: its code starts the buffer and ends before the
      buffer does, the stack has room, and the functions called keep the convention at the
      calls the body makes. */
  ghost predicate Ready(env: Env, body: seq<AsmOp>, entry: State) {
    BodyOk(Entered(), body) && HostsBody(env, Entered(), body, entry, AfterPrologue(entry))
  }

  ghost function StateAfter(env: Env, body: seq<AsmOp>, entry: State): State
    requires BodyOk(Entered(), body)
  {
    AfterBody(env, Entered(), body, AfterPrologue(entry))
  }

  ghost function CallsDuring(env: Env, body: seq<AsmOp>, entry: State): seq<CallEvent>
    requires BodyOk(Entered(), body)
  {
    BodyCalls(env, Entered(), body, AfterPrologue(entry))
  }

  function StepsOfBody(body: seq<AsmOp>): nat {
    4 + |RunItems(Entered(), body)|
  }

  /** From offset 0 through the prologue and any body: the bytes do what the operations
      mean, control never leaves the body's own bytes except into the calls, and
      rsp == entry rsp + 8 - frameSize at the end. */
  lemma PrologueAndBodyRun(env: Env, body: seq<AsmOp>, entry: State)
    requires Ready(env, body, entry)
    ensures RunsTo(env, Running(0, entry, []), StepsOfBody(body), |Body(body).code|,
      Running(|Body(body).code|, StateAfter(env, body, entry), CallsDuring(env, body, entry)))
    ensures InFrame(Body(body).frame, entry, StateAfter(env, body, entry))
    ensures CallsGoTo(env, CallsDuring(env, body, entry), Targets(body))
  {
    var p := Entered();
    FirstPrologue();
    BodyGrows(p, body);
    PrologueRuns(env, entry);
    AfterPrologueInFrame(entry);
    hide Apply, RunsTo, InFrame, AfterPrologue, BodyOk, AfterBody, BodyCalls, HostsBody, RunItems, Run, CallsGoTo;
    BodyRuns(env, p, body, entry, AfterPrologue(entry), []);
    EmptyPrefix(BodyCalls(env, p, body, AfterPrologue(entry)));
    Compose(env, Running(0, entry, []), 4, |p.code|, Running(|p.code|, AfterPrologue(entry), []),
      |RunItems(p, body)|, |Body(body).code|,
      Running(|Body(body).code|, StateAfter(env, body, entry), CallsDuring(env, body, entry)));
  }

  lemma EmptyPrefix<T>(xs: seq<T>)
    ensures [] + xs == xs
  {
  }

  // ----- every boundary within a body -----

  /** A body is its first `k` operations and then the others: for the assembler, and for
      the machine. */
  lemma {:induction false} BodySplits(env: Env, st: Asm, body: seq<AsmOp>, k: nat, s: State)
    requires k <= |body| && BodyOk(st, body)
    ensures BodyOk(st, body[..k]) && BodyOk(Run(st, body[..k]), body[k..])
    ensures Run(st, body) == Run(Run(st, body[..k]), body[k..])
    ensures var t, mid := Run(st, body[..k]), AfterBody(env, st, body[..k], s);
      && AfterBody(env, st, body, s) == AfterBody(env, t, body[k..], mid)
      && BodyCalls(env, st, body, s) == BodyCalls(env, st, body[..k], s) + BodyCalls(env, t, body[k..], mid)
    decreases k
  {
    hide Apply, BodyOp, AfterOp, CallsOf;
    if k == 0 {
      assert body[k..] == body && body[..k] == [];
      EmptyPrefix(BodyCalls(env, st, body, s));
    } else {
      var op, rest := body[0], body[1..];
      var t, s' := Apply(st, op), AfterOp(env, st, op, s);
      BodySplits(env, t, rest, k - 1, s');
      assert body[..k][0] == op && body[..k][1..] == rest[..k - 1] && body[k..] == rest[k - 1..];
      BodyUnfolds(env, st, body, s);
      BodyUnfolds(env, st, body[..k], s);
      hide Run, AfterBody, BodyCalls, BodyOk, Targets, RunItems, OpItems;
      AppendAssociates(CallsOf(env, st, op, s), BodyCalls(env, t, rest[..k - 1], s'),
        BodyCalls(env, Run(t, rest[..k - 1]), rest[k - 1..], AfterBody(env, t, rest[..k - 1], s')));
    }
  }

  /** Surroundings for a body are surroundings for either part of it. */
  lemma PartsAreHosted(env: Env, st: Asm, body: seq<AsmOp>, k: nat, entry: State, s: State)
    requires k <= |body| && BodyOk(st, body) && Rounded(st.frame, ALIGNMENT) && HostsBody(env, st, body, entry, s)
    ensures BodyOk(st, body[..k]) && HostsBody(env, st, body[..k], entry, s)
    ensures var t, mid := Run(st, body[..k]), AfterBody(env, st, body[..k], s);
      BodyOk(t, body[k..]) && HostsBody(env, t, body[k..], entry, mid)
  {
    BodySplits(env, st, body, k, s);
    AllKeepAbiSplits(env, BodyCalls(env, st, body[..k], s),
      BodyCalls(env, Run(st, body[..k]), body[k..], AfterBody(env, st, body[..k], s)), Sp(entry) + 8);
    hide Apply, BodyOp, AllKeepAbi, Rounded;
    hide Run, BodyOk, AfterBody, BodyCalls;
    BodyGrows(st, body[..k]);
    BodyGrows(Run(st, body[..k]), body[k..]);
  }

  lemma PrefixIsReady(env: Env, body: seq<AsmOp>, k: nat, entry: State)
    requires k <= |body| && Ready(env, body, entry)
    ensures Ready(env, body[..k], entry)
  {
    FirstPrologue();
    hide HostsBody, BodyOk, AfterPrologue, Apply;
    PartsAreHosted(env, Entered(), body, k, entry, AfterPrologue(entry));
  }

  lemma AlignedInFrame(f: Frame, entry: State, s: State)
    requires InFrame(f, entry, s) && AlignedAtEntry(entry)
    ensures Sp(s) == Sp(entry) + 8 - f.size && Sp(s) % 16 == 0
  {
    hide Read64;
    RoundUpIsMultiple(f.cur, ALIGNMENT);
  }

  /** At the boundary after the first `k` operations of any body rsp is where the frame
      size of the assembler at that point says it is, and a multiple of 16. */
  lemma FrameTracksRsp(env: Env, body: seq<AsmOp>, k: nat, entry: State)
    requires k <= |body| && Ready(env, body, entry)
    ensures var mid := Steps(env, Running(0, entry, []), StepsOfBody(body[..k])); var at := Body(body[..k]);
      && mid.Running? && mid.pc == |at.code|
      && Sp(mid.s) == Sp(entry) + 8 - at.frame.size
      && Sp(mid.s) % 16 == 0
  {
    assert AlignedAtEntry(entry);
    hide Body, Steps, StaysBelow, CallsGoTo, StateAfter, CallsDuring, StepsOfBody, InFrame, Ready, BodyOk, AlignedAtEntry, Sp;
    PrefixIsReady(env, body, k, entry);
    PrologueAndBodyRun(env, body[..k], entry);
    AlignedInFrame(Body(body[..k]).frame, entry, StateAfter(env, body[..k], entry));
  }

  // ----- the slots -----

  lemma {:induction false} BodyFrameIsGrowAll(st: Asm, ops: seq<AsmOp>)
    requires BodyOk(st, ops) && Rounded(st.frame, ALIGNMENT)
    ensures Run(st, ops).frame == GrowAll(st.frame, Requests(ops), ALIGNMENT).frame
    ensures NonNegative(Requests(ops))
    ensures Run(st, ops).frame.cur == st.frame.cur + Total(Requests(ops))
    decreases |ops|
  {
    hide Bytes, OpItems, RoundUp;
    if ops != [] {
      var op, rest := ops[0], ops[1..];
      StepGrows(st, op);
      BodyFrameIsGrowAll(Apply(st, op), rest);
      if op.NewStackSlot? {
        GrowKeepsRounded(st.frame, op.bytes, ALIGNMENT);
        GrowAllOfOne(st.frame, op.bytes, Requests(rest));
        assert Requests(ops)[1..] == Requests(rest);
      } else {
        assert Requests(ops) == Requests(rest);
      }
    }
  }

  /** rsp after any body, from the slot sizes alone: below the entry rsp + 8 by 24 bytes
      (return address, rbp, deopt rescue slot) and all the slots, rounded up to 16. */
  lemma RspClosedForm(env: Env, body: seq<AsmOp>, entry: State)
    requires Ready(env, body, entry)
    ensures NonNegative(Requests(body))
    ensures var mid := Steps(env, Running(0, entry, []), StepsOfBody(body));
      && mid.Running? && mid.pc == |Body(body).code|
      && Sp(mid.s) == Sp(entry) + 8 - RoundUp(24 + Total(Requests(body)), 16)
  {
    FirstPrologue();
    BodyFrameIsGrowAll(Entered(), body);
    hide Apply, BodyOk, AfterBody, Run, StateAfter, Steps, StaysBelow, Ready, RoundUp, Read64;
    PrologueAndBodyRun(env, body, entry);
  }

  lemma OpKeepsFrameMemory(env: Env, st: Asm, op: AsmOp, entry: State, s: State)
    requires BodyOp(st, op) && InFrame(st.frame, entry, s) && Hosts(env, st, op, entry, s)
    ensures SameOn(s.mem, AfterOp(env, st, op, s).mem, Sp(s), Sp(entry) + 8)
    ensures Sp(AfterOp(env, st, op, s)) <= Sp(s)
  {
    hide Read, Write, LowBytes, Bytes, RunsTo;
    StepGrows(st, op);
    OpRuns(env, st, op, entry, s, []);
    if op.EmitCall? {
      CallReturns(env, st, op.addr, entry, s);
    }
  }

  /** What is in the frame stays in the frame: from any boundary on, whatever the body
      does, calls included, no byte from rsp up to the return address changes. So every
      slot keeps its bytes through all that comes after it. */
  lemma {:induction false} BodyKeepsFrameMemory(env: Env, st: Asm, ops: seq<AsmOp>, entry: State, s: State)
    requires BodyOk(st, ops) && InFrame(st.frame, entry, s) && HostsBody(env, st, ops, entry, s)
    ensures SameOn(s.mem, AfterBody(env, st, ops, s).mem, Sp(s), Sp(entry) + 8)
    decreases |ops|
  {
    assert Rounded(st.frame, ALIGNMENT);
    BodyUnfolds(env, st, ops, s);
    hide AfterOp, Apply, BodyOp, InFrame, HostsBody, Hosts, RunsTo, BodyOk, AfterBody;
    if ops != [] {
      FirstIsHosted(env, st, ops, entry, s);
      OpRuns(env, st, ops[0], entry, s, []);
      OpKeepsFrameMemory(env, st, ops[0], entry, s);
      BodyKeepsFrameMemory(env, Apply(st, ops[0]), ops[1..], entry, AfterOp(env, st, ops[0], s));
    }
  }

  /** The slot handed back for the request at index `i` of a body. */
  function SlotOfRequest(body: seq<AsmOp>, i: nat): Slot
    requires i < |body| && body[i].NewStackSlot?
  {
    SlotOf(Body(body[..i + 1]).frame, body[i].bytes)
  }

  /** A request takes the bytes it adds to the frame, below all that was there. */
  lemma {:induction false} RequestTakes(st: Asm, body: seq<AsmOp>, i: nat)
    requires i < |body| && body[i].NewStackSlot? && BodyOk(st, body) && Rounded(st.frame, ALIGNMENT)
    ensures var n, before, after := body[i].bytes, Run(st, body[..i]).frame, Run(st, body[..i + 1]).frame;
      && Rounded(after, ALIGNMENT) && n >= 0
      && st.frame.cur <= before.cur && after.cur == before.cur + n
      && SlotOf(after, n) == Slot(0 - after.cur, n)
    decreases i
  {
    hide Bytes, OpItems, RoundUp, Grow;
    var op := body[0];
    StepGrows(st, op);
    if i == 0 {
      assert body[..1][1..] == [];
      assert Run(st, body[..1]) == Run(Apply(st, op), []);
      GrowKeepsRounded(st.frame, op.bytes, ALIGNMENT);
    } else {
      hide Apply, BodyOp, Rounded;
      RequestTakes(Apply(st, op), body[1..], i - 1);
      assert body[1..][..i - 1] == body[..i][1..] && body[1..][..i] == body[..i + 1][1..];
    }
  }

  lemma {:induction false} BodyOkSplits(st: Asm, body: seq<AsmOp>, k: nat)
    requires k <= |body| && BodyOk(st, body)
    ensures BodyOk(st, body[..k]) && BodyOk(Run(st, body[..k]), body[k..])
    ensures Run(st, body) == Run(Run(st, body[..k]), body[k..])
    decreases k
  {
    hide Apply, BodyOp;
    if k == 0 {
      assert body[k..] == body && body[..k] == [];
    } else {
      BodyOkSplits(Apply(st, body[0]), body[1..], k - 1);
      assert body[..k][0] == body[0] && body[..k][1..] == body[1..][..k - 1] && body[k..] == body[1..][k - 1..];
    }
  }

  /** No two requests of a body get overlapping slots: each lies wholly below earlier ones. */
  lemma RequestsAreDisjoint(body: seq<AsmOp>, i: nat, j: nat)
    requires i < j < |body| && body[i].NewStackSlot? && body[j].NewStackSlot? && BodyOk(Entered(), body)
    ensures SlotOfRequest(body, j).offset + SlotOfRequest(body, j).size <= SlotOfRequest(body, i).offset
  {
    hide BodyOk, Rounded, Apply, Run, Bytes;
    FirstPrologue();
    FrameOfPrefix(body, i + 1, j);
    RequestTakes(Entered(), body, i);
    RequestTakes(Entered(), body, j);
  }

  lemma FrameOfPrefix(body: seq<AsmOp>, i: nat, k: nat)
    requires i <= k <= |body| && BodyOk(Entered(), body)
    ensures Body(body[..i]).frame.cur <= Body(body[..k]).frame.cur
    ensures Rounded(Body(body[..k]).frame, ALIGNMENT)
  {
    hide BodyOk, Rounded, Run, Apply;
    var p := Entered();
    FirstPrologue();
    BodyOkSplits(p, body, k);
    BodyOkSplits(p, body[..k], i);
    assert body[..k][..i] == body[..i];
    BodyGrows(p, body[..i]);
    BodyGrows(p, body[..k]);
    BodyGrows(Body(body[..i]), body[..k][i..]);
  }

  /** The machine at the boundary after the first `k` operations. */
  ghost function Boundary(env: Env, body: seq<AsmOp>, k: nat, entry: State): Conf
    requires k <= |body|
  {
    Steps(env, Running(0, entry, []), StepsOfBody(body[..k]))
  }

  /** From one boundary to a later one no byte of the earlier frame changes. */
  lemma BoundariesKeepFrameMemory(env: Env, body: seq<AsmOp>, i: nat, k: nat, entry: State)
    requires i <= k <= |body| && Ready(env, body, entry)
    ensures var early, late := Boundary(env, body, i, entry), Boundary(env, body, k, entry);
      && early.Running? && late.Running?
      && SameOn(early.s.mem, late.s.mem, Sp(early.s), Sp(entry) + 8)
  {
    var p, ops, s := Entered(), body[..k], AfterPrologue(entry);
    PrefixIsReady(env, body, k, entry);
    PrefixIsReady(env, ops, i, entry);
    assert ops[..i] == body[..i];
    FirstPrologue();
    hide Steps, StaysBelow, CallsGoTo, BodyOk, Apply, AfterPrologue, Read64, Run, AfterBody, BodyCalls, RunItems, SameOn, HostsBody;
    BodySplits(env, p, ops, i, s);
    PartsAreHosted(env, p, ops, i, entry, s);
    PrologueAndBodyRun(env, body[..i], entry);
    PrologueAndBodyRun(env, ops, entry);
    BodyKeepsFrameMemory(env, Body(body[..i]), ops[i..], entry, StateAfter(env, body[..i], entry));
  }

  /** Every slot of a body lies in stack memory between rsp and the deopt rescue slot, and
      at every boundary from its request on holds the bytes it held then: no operation of
      the body writes to it, and no function called does. */
  lemma SlotsKeepTheirBytes(env: Env, body: seq<AsmOp>, i: nat, k: nat, entry: State)
    requires i < k <= |body| && body[i].NewStackSlot? && Ready(env, body, entry)
    ensures var slot := SlotOfRequest(body, i); var low := Sp(entry) + 8 + slot.offset;
      var made, late := Boundary(env, body, i + 1, entry), Boundary(env, body, k, entry);
      && made.Running? && late.Running?
      && Sp(made.s) <= low && Sp(late.s) <= low && low + slot.size <= Sp(entry) - 16
      && SameOn(made.s.mem, late.s.mem, low, low + slot.size)
  {
    FirstPrologue();
    hide Steps, Run, BodyOk, RoundUp, HostsBody, Apply, StepsOfBody, Bytes;
    RequestTakes(Entered(), body, i);
    FrameOfPrefix(body, i + 1, k);
    FrameTracksRsp(env, body, i + 1, entry);
    FrameTracksRsp(env, body, k, entry);
    BoundariesKeepFrameMemory(env, body, i + 1, k, entry);
    RoundedCovers(Body(body[..i + 1]).frame);
    RoundedCovers(Body(body[..k]).frame);
  }

  lemma RoundedCovers(f: Frame)
    requires Rounded(f, ALIGNMENT)
    ensures f.cur <= f.size
  {
    RoundUpIsMultiple(f.cur, ALIGNMENT);
  }

  // ----- and back to the caller -----

  /** The function's outcome: control is back at the caller, whose stack pointer, frame
      pointer and callee-saved registers are restored, and eax is the low half of `a`. */
  ghost predicate ReturnsInt(entry: State, a: Reg, before: State, end: Conf) {
    && end.Returned? && end.to == ReturnAddress(entry)
    && Restored(entry, end.s)
    && end.s.regs[RAX] % TWO_32 == before.regs[a] % TWO_32
    && end.s.mem == before.mem
  }

  /** The program, bytes to final state. */
  lemma ProgramRuns(env: Env, body: seq<AsmOp>, a: Reg, entry: State)
    requires Ready(env, body, entry) && Program(body, a).code <= env.code && CallerOutside(env, entry)
    ensures RunsTo(env, Running(0, entry, []), StepsOfBody(body) + |IntRetItems(a)|, |Program(body, a).code|,
      Returned(ReturnAddress(entry), AfterReturn(a, StateAfter(env, body, entry)), CallsDuring(env, body, entry)))
  {
    var s, calls := StateAfter(env, body, entry), CallsDuring(env, body, entry);
    RoomForReturn(env, body, entry);
    hide RunsTo, CallsGoTo, Ready, StateAfter, CallsDuring, AfterReturn, Body, StepsOfBody, CallerOutside, Read64, InFrame;
    PrologueAndBodyRun(env, body, entry);
    ReturnRuns(env, Body(body), a, entry, s, calls);
    Compose(env, Running(0, entry, []), StepsOfBody(body), |Body(body).code|, Running(|Body(body).code|, s, calls),
      |IntRetItems(a)|, |Program(body, a).code|, Returned(ReturnAddress(entry), AfterReturn(a, s), calls));
  }

  /** Prologue, any body, `emitIntRet(a)`, and then any bytes whatever: running from offset
      0 calls the body's targets in order on an aligned stack, never leaves the program's
      own bytes otherwise, so never reaches what follows, and returns what register `a`
      holds when the body is done. */
  lemma ProgramReturns(env: Env, body: seq<AsmOp>, a: Reg, entry: State)
    requires Ready(env, body, entry) && Program(body, a).code <= env.code && CallerOutside(env, entry)
    ensures var start := Running(0, entry, []); var n := StepsOfBody(body) + |IntRetItems(a)|;
      var mid, end := Steps(env, start, StepsOfBody(body)), Steps(env, start, n);
      && mid.Running? && mid.pc == |Body(body).code|
      && ReturnsInt(entry, a, mid.s, end)
      && CallsGoTo(env, end.calls, Targets(body))
      && StaysBelow(env, start, n, |Program(body, a).code|)
  {
    var s := StateAfter(env, body, entry);
    hide Steps, StaysBelow, CallsGoTo, Ready, StateAfter, CallsDuring, AfterReturn, Body, StepsOfBody, CallerOutside, Read64, InFrame, Restored;
    RoomForReturn(env, body, entry);
    PrologueAndBodyRun(env, body, entry);
    ProgramRuns(env, body, a, entry);
    ReturnRestores(Body(body).frame, a, entry, s);
  }

  lemma RoomForReturn(env: Env, body: seq<AsmOp>, entry: State)
    requires Ready(env, body, entry)
    ensures 8 <= Sp(entry) && Sp(entry) + 8 < TWO_64
    ensures Body(body).code <= env.code
  {
    FirstPrologue();
    hide Apply, BodyOp, AllKeepAbi;
    BodyGrows(Entered(), body);
  }

  /** Entry patching needs a first instruction of five bytes: it is there in all code that
      starts with a prologue. */
  lemma FirstIsFatNop(code: seq<Byte>, body: seq<AsmOp>)
    requires Body(body).code <= code
    ensures Decode(code) == Decoded(Nop, 5)
  {
    hide Bytes, Decode, RunItems, Run, OpItems;
    var p := Entered();
    RunAppends(p, body);
    FirstPrologue();
    assert p.code <= code;
    var items := FIRST_PROLOGUE;
    BytesUnfold(items);
    ItemDecodes(FatNop, code[5..]);
    assert ItemBytes(FatNop) <= Bytes(items) <= code;
    assert code == ItemBytes(FatNop) + code[5..];
  }

  lemma BytesUnfold(items: seq<Item>)
    requires items != []
    ensures Bytes(items) == ItemBytes(items[0]) + Bytes(items[1..])
  {
  }
}
