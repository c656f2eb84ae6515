/** The injected stub: what `injectFuncAddr` produces on a new injector, how it behaves,
    and what the second and later calls on the same injector produce. */
module Injection {
  import opened JavaInts
  import opened Outcomes
  import opened Decoder
  import opened Encoder
  import opened Frames
  import opened AssemblerSpec
  import opened Machine
  import opened Programs
  import opened Stub

  /** System V AMD64 ABI, section 3.2.3: the integer argument registers, in order. */
  const SYSV_ARGS: seq<Reg> := [RDI, RSI, RDX, RCX, R8, R9]

  /** The code of the first injection on a new injector. */
  function FreshCode(addr: Int64): seq<Byte> {
    Bytes(FIRST_PROLOGUE + [LoadLong(RAX, addr), CallVia(RAX), Move(true, RSP, RBP), PopRbp, Return, DeoptCall])
  }

  lemma BodyOfOneCall(addr: Int64)
    ensures Body([EmitCall(addr)]) == Apply(Entered(), EmitCall(addr))
    ensures BodyOk(Entered(), [EmitCall(addr)])
    ensures RunItems(Entered(), [EmitCall(addr)]) == [LoadLong(RAX, addr), CallVia(RAX)]
    ensures Targets([EmitCall(addr)]) == [addr % TWO_64]
  {
    FirstPrologue();
    hide Apply;
    var ops := [EmitCall(addr)];
    var p := Entered();
    assert ops[1..] == [];
    assert Run(Apply(p, ops[0]), []) == Apply(p, ops[0]);
    assert RunItems(Apply(p, ops[0]), []) == [];
    assert BodyOk(Apply(p, ops[0]), []);
    assert OpItems(p, ops[0]) == [LoadLong(RAX, addr), CallVia(RAX)];
    assert Targets([]) == [];
  }

  lemma ItemLengths(addr: Int64)
    ensures |ItemBytes(FatNop)| == 5 && |ItemBytes(PushRbp)| == |ItemBytes(PopRbp)| == |ItemBytes(Return)| == 1
    ensures |ItemBytes(Move(true, RBP, RSP))| == 3 && |ItemBytes(Move(true, RSP, RBP))| == 3
    ensures |ItemBytes(GrowStack(16))| == 7 && |ItemBytes(DeoptCall)| == 5
    ensures |ItemBytes(LoadLong(RAX, addr))| == 10 && |ItemBytes(CallVia(RAX))| == 2
  {
    hide LowBytes;
  }

  lemma PrologueLength()
    ensures |Entered().code| == 16
  {
    hide ItemBytes;
    ItemLengths(0);
    FirstPrologue();
    var items := FIRST_PROLOGUE;
    BytesUnfold(items);
    assert items[1..] == [PushRbp, Move(true, RBP, RSP), GrowStack(16)];
    BytesOfThree(PushRbp, Move(true, RBP, RSP), GrowStack(16));
  }

  lemma ReturnLength()
    ensures IntRetItems(RAX) == [Move(true, RSP, RBP), PopRbp, Return] && |Bytes(IntRetItems(RAX))| == 5
  {
    hide ItemBytes;
    ItemLengths(0);
    BytesOfThree(Move(true, RSP, RBP), PopRbp, Return);
  }

  lemma FreshCodeSplits(addr: Int64)
    ensures FreshCode(addr) == Bytes(FIRST_PROLOGUE) + Bytes([LoadLong(RAX, addr), CallVia(RAX)])
      + Bytes([Move(true, RSP, RBP), PopRbp, Return]) + ItemBytes(DeoptCall)
  {
    hide Bytes, ItemBytes;
    var call, ret := [LoadLong(RAX, addr), CallVia(RAX)], [Move(true, RSP, RBP), PopRbp, Return];
    assert FIRST_PROLOGUE + [LoadLong(RAX, addr), CallVia(RAX), Move(true, RSP, RBP), PopRbp, Return, DeoptCall]
      == FIRST_PROLOGUE + call + ret + [DeoptCall];
    BytesAppend(FIRST_PROLOGUE, call);
    BytesAppend(FIRST_PROLOGUE + call, ret);
    BytesAppend(FIRST_PROLOGUE + call + ret, [DeoptCall]);
    BytesOfOne(DeoptCall);
  }

  lemma FreshLengths(addr: Int64)
    ensures |Body([EmitCall(addr)]).code| == 28
    ensures |Program([EmitCall(addr)], RAX).code| == 33
    ensures FreshCode(addr) == Program([EmitCall(addr)], RAX).code + ItemBytes(DeoptCall)
    ensures |FreshCode(addr)| == 38
  {
    hide ItemBytes;
    ItemLengths(addr);
    FirstPrologue();
    PrologueLength();
    BodyOfOneCall(addr);
    BytesOfTwo(LoadLong(RAX, addr), CallVia(RAX));
    ReturnLength();
    FreshCodeSplits(addr);
    hide Bytes, FreshCode;
  }

  /** The whole result of a first injection: 38 bytes, a 32-byte frame with the deopt
      rescue slot just below the saved rbp, and the deopt sites at offset 33. */
  lemma FreshInjection(addr: Int64)
    ensures Inject(Fresh(), addr).1
         == Some(Finished(FreshCode(addr), [Mark(33), CallSite(33, 5)], 32, Some(Slot(-24, 8))))
    ensures |FreshCode(addr)| == 38
  {
    FirstPrologue();
    FreshLengths(addr);
    BodyOfOneCall(addr);
    BytesOfOne(DeoptCall);
    InjectUnfolds(Fresh(), addr);
    hide Bytes, FreshCode, ItemBytes, Inject;
    assert Program([EmitCall(addr)], RAX) == Apply(Apply(Entered(), EmitCall(addr)), EmitIntRet(RAX));
    assert [] + [Mark(33), CallSite(33, 5)] == [Mark(33), CallSite(33, 5)];
  }

  // ----- running it -----

  /** What the stub is for. `end` is reached from `entry` with exactly one call made: of
      `addr`, on an aligned stack, all six argument registers as they were at entry; and
      the caller has control back with the callee's int, its memory, and its own registers. */
  ghost predicate CalledOnce(env: Env, addr: Int64, entry: State, end: Conf) {
    && end.Returned? && end.to == ReturnAddress(entry)
    && |end.calls| == 1
    && var call := end.calls[0];
      && call.target == addr % TWO_64
      && call.exit == env.callee(call.target, call.entry).0
      && AlignedAtEntry(call.entry)
      && (forall r :: r in SYSV_ARGS ==> call.entry.regs[r] == entry.regs[r])
      && end.s.regs[RAX] % TWO_32 == call.exit.regs[RAX] % TWO_32
      && end.s.mem == call.exit.mem
      && Restored(entry, end.s)
  }

  /** The call the stub makes. */
  ghost function StubCall(env: Env, addr: Int64, entry: State): CallEvent {
    CallOf(env, Entered(), addr, AfterPrologue(entry))
  }

  /** Surroundings of the stub: code that starts with it, a usable stack, a caller outside
      the code, and a function at `addr` that keeps the ABI when the stub calls it and of
      which nothing else is known. */
  ghost predicate Hosted(env: Env, addr: Int64, entry: State) {
    && FreshCode(addr) <= env.code && env.base + |env.code| <= TWO_64
    && Room(entry, 32) && CallerOutside(env, entry)
    && KeepsAbi(env, StubCall(env, addr, entry), Sp(entry) + 8)
  }

  ghost function StubEnd(env: Env, addr: Int64, entry: State): Conf {
    Returned(ReturnAddress(entry), AfterReturn(RAX, StubCall(env, addr, entry).exit), [StubCall(env, addr, entry)])
  }

  lemma StubIsReady(env: Env, addr: Int64, entry: State)
    requires Hosted(env, addr, entry)
    ensures Ready(env, [EmitCall(addr)], entry) && Program([EmitCall(addr)], RAX).code <= env.code
    ensures StateAfter(env, [EmitCall(addr)], entry) == StubCall(env, addr, entry).exit
    ensures CallsDuring(env, [EmitCall(addr)], entry) == [StubCall(env, addr, entry)]
    ensures StepsOfBody([EmitCall(addr)]) == 6
  {
    var p := Entered();
    FirstPrologue();
    FreshLengths(addr);
    BodyOfOneCall(addr);
    hide Bytes, CallOf, KeepsAbi, AfterPrologue, ItemBytes;
    var ops := [EmitCall(addr)];
    assert ops[1..] == [];
    var s := AfterPrologue(entry);
    BodyUnfolds(env, p, ops, s);
    BodyUnfolds(env, Apply(p, ops[0]), [], AfterOp(env, p, ops[0], s));
    assert Body(ops).frame == p.frame;
  }

  lemma StubRuns(env: Env, addr: Int64, entry: State)
    requires Hosted(env, addr, entry)
    ensures RunsTo(env, Running(0, entry, []), 9, 33, StubEnd(env, addr, entry))
    ensures CalledOnce(env, addr, entry, StubEnd(env, addr, entry))
  {
    var ops := [EmitCall(addr)];
    StubIsReady(env, addr, entry);
    FreshLengths(addr);
    ArgumentsReachCallee(env, addr, entry);
    assert Targets(ops)[0] == addr % TWO_64 by { BodyOfOneCall(addr); }
    assert |IntRetItems(RAX)| == 3;
    RoomForReturn(env, ops, entry);
    hide RunsTo, Ready, Program, Body, StateAfter, CallsDuring, StepsOfBody, StubCall, AfterReturn, Restored, Read64, IntRetItems, Targets, InFrame;
    ProgramRuns(env, ops, RAX, entry);
    PrologueAndBodyRun(env, ops, entry);
    ReturnRestores(Body(ops).frame, RAX, entry, StateAfter(env, ops, entry));
  }

  /** End to end: nine steps from offset 0, all below the deopt stub, call `addr` once with
      the caller's arguments and return its int. */
  lemma InjectedStub(env: Env, addr: Int64, entry: State)
    requires Hosted(env, addr, entry)
    ensures CalledOnce(env, addr, entry, Steps(env, Running(0, entry, []), 9))
    ensures StaysBelow(env, Running(0, entry, []), 9, 33)
  {
    hide Steps, StaysBelow, CalledOnce, Hosted, StubEnd;
    StubRuns(env, addr, entry);
  }

  /** The stub's frame at the call: 32 bytes, and the return address pushed below them. */
  lemma StubCallStack(env: Env, addr: Int64, entry: State)
    requires 32 <= Sp(entry)
    ensures Sp(StubCall(env, addr, entry).entry) == Sp(entry) - 32
  {
    hide Write, LowBytes, Bytes;
    FirstPrologue();
  }

  /** No instruction before the call writes an argument register, wherever the stub runs. */
  lemma ArgumentsReachCallee(env: Env, addr: Int64, entry: State)
    ensures var call := StubCall(env, addr, entry);
      call.target == addr % TWO_64 && call.exit == env.callee(call.target, call.entry).0
    ensures forall r :: r in SYSV_ARGS ==> StubCall(env, addr, entry).entry.regs[r] == entry.regs[r]
  {
    FirstPrologue();
    PrologueKeepsRegisters(entry);
    hide AfterPrologue, Write, LowBytes, Bytes;
  }
}
