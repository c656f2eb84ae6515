/** What each assembler operation does to the assembler's state, as a function on values,
    and what holds of every run of operations. */
module AssemblerSpec {
  import opened JavaInts
  import opened Outcomes
  import opened Decoder
  import opened Encoder
  import opened Frames

  datatype Site = Mark(pos: nat) | CallSite(pos: nat, size: nat)

  datatype Asm = Asm(code: seq<Byte>, sites: seq<Site>, frame: Frame, next: Int32, deopt: Option<Slot>)

  /** What `finish` packs up. */
  datatype Finished = Finished(code: seq<Byte>, sites: seq<Site>, frameSize: Int32, deopt: Option<Slot>)

  datatype AsmOp =
    | EmitPrologue
    | EmitEpilogue
    | EmitGrowStack(amount: Int32)
    | EmitLoadLong(value: Int64)
    | EmitCall(addr: Int64)
    | EmitIntRet(reg: Reg)
    | NewStackSlot(bytes: Int32)

  const POOL: seq<Reg> := [RAX, RCX, RDI, R8, R9, R10]
  const INITIAL_FRAME: Int32 := 16
  const ALIGNMENT: Int32 := 16
  const QWORD: Int32 := 8

  function Fresh(): Asm {
    Asm([], [], Frame(INITIAL_FRAME, INITIAL_FRAME), 0, None)
  }

  predicate InPool(next: Int32) {
    0 <= next < |POOL|
  }

  /** The operations that draw a register throw once the pool is used up. */
  predicate Throws(st: Asm, op: AsmOp) {
    (op.EmitLoadLong? || op.EmitCall?) && !InPool(st.next)
  }

  function GrowItems(f: Frame, size: Int32): seq<Item> {
    var subs := Grow(f, size, ALIGNMENT).1;
    if subs == [] then [] else [GrowStack(subs[0])]
  }

  /** `emitMove`: a move of a register to itself is left out. */
  function MoveItems(wide: bool, to: Reg, from: Reg): seq<Item> {
    if to != from then [Move(wide, to, from)] else []
  }

  function PrologueItems(f: Frame): seq<Item> {
    [FatNop, PushRbp, Move(true, RBP, RSP)] + GrowItems(f, QWORD)
  }

  function IntRetItems(a: Reg): seq<Item> {
    MoveItems(false, RAX, a) + [Move(true, RSP, RBP), PopRbp, Return]
  }

  /** What an operation writes. */
  function OpItems(st: Asm, op: AsmOp): seq<Item> {
    if Throws(st, op) then []
    else match op
      case EmitPrologue => PrologueItems(st.frame)
      case EmitEpilogue => [DeoptCall]
      case EmitGrowStack(n) => [GrowStack(n)]
      case EmitLoadLong(c) => [LoadLong(POOL[st.next], c)]
      case EmitCall(addr) => [LoadLong(POOL[st.next], addr), CallVia(POOL[st.next])]
      case EmitIntRet(a) => IntRetItems(a)
      case NewStackSlot(n) => GrowItems(st.frame, n)
  }

  function Apply(st: Asm, op: AsmOp): (t: Asm)
    ensures t.code == st.code + Bytes(OpItems(st, op))
  {
    var code := st.code + Bytes(OpItems(st, op));
    match op
    case EmitPrologue =>
      var f := Grow(st.frame, QWORD, ALIGNMENT).0;
      st.(code := code, frame := f, deopt := Some(SlotOf(f, QWORD)))
    case EmitEpilogue =>
      st.(code := code, sites := st.sites + [Mark(|st.code|), CallSite(|st.code|, 5)])
    case EmitGrowStack(_) => st.(code := code)
    case EmitLoadLong(_) => st.(code := code, next := Wrap32(st.next + 1))
    case EmitCall(_) => st.(code := code, next := Wrap32(st.next + 1))
    case EmitIntRet(_) => st.(code := code)
    case NewStackSlot(n) => st.(code := code, frame := Grow(st.frame, n, ALIGNMENT).0)
  }

  function Finish(st: Asm): Finished {
    Finished(st.code, st.sites, st.frame.size, st.deopt)
  }

  /** A run of operations; a caller may carry on after one that throws. */
  function Run(st: Asm, ops: seq<AsmOp>): Asm
    decreases |ops|
  {
    if ops == [] then st else Run(Apply(st, ops[0]), ops[1..])
  }

  function RunItems(st: Asm, ops: seq<AsmOp>): seq<Item>
    decreases |ops|
  {
    if ops == [] then [] else OpItems(st, ops[0]) + RunItems(Apply(st, ops[0]), ops[1..])
  }

  /** A run that an exception ends: the state then, and whether there was none. */
  function RunUntilThrow(st: Asm, ops: seq<AsmOp>): (Asm, bool)
    decreases |ops|
  {
    if ops == [] then (st, true)
    else if Throws(st, ops[0]) then (Apply(st, ops[0]), false)
    else RunUntilThrow(Apply(st, ops[0]), ops[1..])
  }

  /** What `injectFuncAddr` asks of the assembler. */
  function StubOps(addr: Int64): seq<AsmOp> {
    [EmitPrologue, EmitCall(addr), EmitIntRet(RAX), EmitEpilogue]
  }

  /** `injectFuncAddr`: the operations, then `finish`, unless an exception came first. */
  function Inject(st: Asm, addr: Int64): (Asm, Option<Finished>) {
    var (t, ok) := RunUntilThrow(st, StubOps(addr));
    (t, if ok then Some(Finish(t)) else None)
  }

  /** Only the call can throw. */
  lemma InjectUnfolds(st: Asm, addr: Int64)
    ensures var p := Apply(st, EmitPrologue);
      var c := Apply(p, EmitCall(addr));
      var r := Apply(Apply(c, EmitIntRet(RAX)), EmitEpilogue);
      Inject(st, addr) == if Throws(p, EmitCall(addr)) then (c, None) else (r, Some(Finish(r)))
  {
    hide Apply;
    var ops := StubOps(addr);
    assert ops[1..] == [EmitCall(addr), EmitIntRet(RAX), EmitEpilogue];
    assert ops[1..][1..] == [EmitIntRet(RAX), EmitEpilogue];
    assert ops[1..][1..][1..] == [EmitEpilogue];
    assert ops[1..][1..][1..][1..] == [];
    var p := Apply(st, EmitPrologue);
    var c := Apply(p, EmitCall(addr));
    var q := Apply(c, EmitIntRet(RAX));
    assert RunUntilThrow(Apply(q, EmitEpilogue), []) == (Apply(q, EmitEpilogue), true);
    assert RunUntilThrow(q, [EmitEpilogue]) == (Apply(q, EmitEpilogue), true);
    assert RunUntilThrow(c, [EmitIntRet(RAX), EmitEpilogue]) == (Apply(q, EmitEpilogue), true);
    assert RunUntilThrow(st, ops) == RunUntilThrow(p, ops[1..]);
  }

  // ----- how much one injection writes -----

  lemma ItemLengthBound(item: Item)
    ensures |ItemBytes(item)| <= if item.LoadLong? then 10 else if item.GrowStack? then 7 else if item.Move? || item.CallVia? then 3 else 5
    ensures item in {PushRbp, PopRbp, Return} ==> |ItemBytes(item)| == 1
    ensures item.FatNop? || item.DeoptCall? ==> |ItemBytes(item)| == 5
    ensures item.Move? && item.wide ==> |ItemBytes(item)| == 3
  {
    hide LowBytes;
  }

  lemma PrologueLengthBound(f: Frame)
    ensures 9 <= |Bytes(PrologueItems(f))| <= 16
  {
    hide ItemBytes;
    var g := GrowItems(f, QWORD);
    BytesAppend([FatNop, PushRbp, Move(true, RBP, RSP)], g);
    BytesOfThree(FatNop, PushRbp, Move(true, RBP, RSP));
    ItemLengthBound(FatNop);
    ItemLengthBound(PushRbp);
    ItemLengthBound(Move(true, RBP, RSP));
    if g != [] {
      ItemLengthBound(g[0]);
      BytesOfOne(g[0]);
    }
  }

  lemma RestLengthBound(r: Reg, addr: Int64, a: Reg)
    ensures |Bytes([LoadLong(r, addr), CallVia(r)])| <= 13
    ensures |Bytes(IntRetItems(a))| <= 8
    ensures |Bytes([DeoptCall])| <= 5
  {
    hide ItemBytes;
    BytesOfTwo(LoadLong(r, addr), CallVia(r));
    ItemLengthBound(LoadLong(r, addr));
    ItemLengthBound(CallVia(r));
    BytesAppend(MoveItems(false, RAX, a), [Move(true, RSP, RBP), PopRbp, Return]);
    BytesOfThree(Move(true, RSP, RBP), PopRbp, Return);
    BytesOfOne(Move(false, RAX, a));
    ItemLengthBound(Move(false, RAX, a));
    ItemLengthBound(Move(true, RSP, RBP));
    ItemLengthBound(PopRbp);
    ItemLengthBound(Return);
    BytesOfOne(DeoptCall);
    ItemLengthBound(DeoptCall);
  }

  lemma StubLengthBounds(st: Asm, addr: Int64)
    ensures var p := Apply(st, EmitPrologue);
      var q := Apply(Apply(p, EmitCall(addr)), EmitIntRet(RAX));
      && |Bytes(OpItems(st, EmitPrologue))| <= 16
      && |Bytes(OpItems(p, EmitCall(addr)))| <= 13
      && |Bytes(IntRetItems(RAX))| <= 8
      && |Bytes(OpItems(q, EmitEpilogue))| <= 5
  {
    hide Bytes, IntRetItems, PrologueItems, Apply;
    PrologueLengthBound(st.frame);
    var p := Apply(st, EmitPrologue);
    RestLengthBound(if InPool(p.next) then POOL[p.next] else RAX, addr, RAX);
    assert Bytes([]) == [] by { NoBytes(); }
  }

  lemma NoBytes()
    ensures Bytes([]) == []
  {
  }

  // ----- every run decodes -----

  lemma {:induction false} RunAppends(st: Asm, ops: seq<AsmOp>)
    ensures Run(st, ops).code == st.code + Bytes(RunItems(st, ops))
    decreases |ops|
  {
    hide Apply, OpItems, ItemBytes;
    if ops != [] {
      var items, t := OpItems(st, ops[0]), Apply(st, ops[0]);
      RunAppends(t, ops[1..]);
      BytesAppend(items, RunItems(t, ops[1..]));
    }
  }

  /** For every run on a new assembler the code disassembles to exactly the instructions
      that were meant, with nothing left over. */
  lemma RunDisassembles(ops: seq<AsmOp>)
    ensures Disassemble(Run(Fresh(), ops).code) == (true, Meanings(RunItems(Fresh(), ops)))
  {
    RunAppends(Fresh(), ops);
    ItemsDisassemble(RunItems(Fresh(), ops));
    assert [] + Bytes(RunItems(Fresh(), ops)) == Bytes(RunItems(Fresh(), ops));
  }

  // ----- append only, and the sites -----

  /** Sites are in order of offset and inside the code; marks and calls come in pairs at
      the same offset; and at that offset there is a whole CALL rel32. */
  ghost predicate SitesValid(code: seq<Byte>, sites: seq<Site>) {
    && |sites| % 2 == 0
    && (forall i, j :: 0 <= i < j < |sites| ==> sites[i].pos <= sites[j].pos)
    && (forall i :: 0 <= i < |sites| ==> (sites[i].Mark? <==> i % 2 == 0))
    && (forall i :: 0 < i < |sites| && sites[i].CallSite? ==> sites[i - 1].pos == sites[i].pos)
    && (forall i :: 0 <= i < |sites| ==> DeoptCallAt(code, sites[i].pos))
    && (forall i :: 0 <= i < |sites| && sites[i].CallSite? ==> sites[i].size == 5)
  }

  predicate DeoptCallAt(code: seq<Byte>, pos: nat) {
    pos + 5 <= |code| && Decode(code[pos..]) == Decoded(CallRel32(DEAD_DEAD), 5)
  }

  lemma DeoptCallAtEnd(code: seq<Byte>)
    ensures DeoptCallAt(code + ItemBytes(DeoptCall), |code|)
  {
    hide Decode;
    DeoptCallDecodes([]);
    assert (code + ItemBytes(DeoptCall))[|code|..] == ItemBytes(DeoptCall) + [];
  }

  /** Decoding at an offset does not depend on what is appended later. */
  lemma DeoptCallStays(code: seq<Byte>, more: seq<Byte>, pos: nat)
    requires DeoptCallAt(code, pos)
    ensures DeoptCallAt(code + more, pos)
  {
    var b, all := code[pos..], (code + more)[pos..];
    assert all[0] == b[0] && all[1..5] == b[1..5];
  }

  lemma AppendKeepsSites(code: seq<Byte>, more: seq<Byte>, sites: seq<Site>)
    requires SitesValid(code, sites)
    ensures SitesValid(code + more, sites)
  {
    forall i | 0 <= i < |sites|
      ensures DeoptCallAt(code + more, sites[i].pos)
    {
      DeoptCallStays(code, more, sites[i].pos);
    }
  }

  /** The two sites of an epilogue, once its five bytes are there. */
  lemma EpilogueKeepsSites(code: seq<Byte>, sites: seq<Site>)
    requires SitesValid(code, sites)
    ensures SitesValid(code + ItemBytes(DeoptCall), sites + [Mark(|code|), CallSite(|code|, 5)])
  {
    hide ItemBytes, Decode;
    AppendKeepsSites(code, ItemBytes(DeoptCall), sites);
    DeoptCallAtEnd(code);
    forall i | 0 <= i < |sites|
      ensures sites[i].pos <= |code|
    {
      assert DeoptCallAt(code, sites[i].pos);
    }
  }

  lemma StepKeepsSites(st: Asm, op: AsmOp)
    requires SitesValid(st.code, st.sites)
    ensures var t := Apply(st, op);
      SitesValid(t.code, t.sites) && st.code <= t.code && st.sites <= t.sites
  {
    if op.EmitEpilogue? {
      BytesOfOne(DeoptCall);
      EpilogueKeepsSites(st.code, st.sites);
    } else {
      AppendKeepsSites(st.code, Bytes(OpItems(st, op)), st.sites);
    }
  }

  /** Over every run: no operation changes bytes or sites already recorded, and all the
      sites stay valid. */
  lemma {:induction false} RunKeepsSites(st: Asm, ops: seq<AsmOp>)
    requires SitesValid(st.code, st.sites)
    ensures var t := Run(st, ops);
      SitesValid(t.code, t.sites) && st.code <= t.code && st.sites <= t.sites
    decreases |ops|
  {
    if ops != [] {
      StepKeepsSites(st, ops[0]);
      RunKeepsSites(Apply(st, ops[0]), ops[1..]);
    }
  }

  // ----- the frame, and how many sites -----

  /** The sizes of the slots a run asks for, in order: one of 8 bytes for every prologue. */
  function Requests(ops: seq<AsmOp>): seq<Int32> {
    if ops == [] then []
    else
      (match ops[0]
       case EmitPrologue => [8]
       case NewStackSlot(n) => [n]
       case _ => []) + Requests(ops[1..])
  }

  function Epilogues(ops: seq<AsmOp>): nat {
    if ops == [] then 0 else (if ops[0].EmitEpilogue? then 1 else 0) + Epilogues(ops[1..])
  }

  lemma GrowAllOfOne(f: Frame, size: Int32, sizes: seq<Int32>)
    ensures GrowAll(f, [size] + sizes, ALIGNMENT).frame == GrowAll(Grow(f, size, ALIGNMENT).0, sizes, ALIGNMENT).frame
  {
    hide Grow;
    assert ([size] + sizes)[1..] == sizes;
  }

  /** Over every run, from every state: the frame is what the requests alone make it, and
      each epilogue adds two sites; nothing else touches either. */
  lemma {:induction false} RunFrameAndSites(st: Asm, ops: seq<AsmOp>)
    ensures var t := Run(st, ops);
      && t.frame == GrowAll(st.frame, Requests(ops), 16).frame
      && |t.sites| == |st.sites| + 2 * Epilogues(ops)
    decreases |ops|
  {
    hide Bytes, OpItems, Grow;
    if ops != [] {
      var op, rest := ops[0], Requests(ops[1..]);
      RunFrameAndSites(Apply(st, op), ops[1..]);
      match op {
        case EmitPrologue => GrowAllOfOne(st.frame, 8, rest);
        case NewStackSlot(n) => GrowAllOfOne(st.frame, n, rest);
        case _ => assert [] + rest == rest;
      }
    }
  }

  // ----- the register pool and the call encoding -----

  predicate DrawsRegister(op: AsmOp) {
    op.EmitLoadLong? || op.EmitCall?
  }

  function Draws(ops: seq<AsmOp>): nat {
    if ops == [] then 0 else (if DrawsRegister(ops[0]) then 1 else 0) + Draws(ops[1..])
  }

  lemma StepDraws(st: Asm, op: AsmOp)
    ensures Apply(st, op).next == if DrawsRegister(op) then Wrap32(st.next + 1) else st.next
  {
    hide Bytes, OpItems, Grow, Wrap32;
  }

  lemma {:induction false} NextCountsDraws(st: Asm, ops: seq<AsmOp>, n: nat)
    requires st.next == Wrap32(n)
    ensures Run(st, ops).next == Wrap32(n + Draws(ops))
    decreases |ops|
  {
    hide Apply, Wrap32;
    if ops != [] {
      WrapStep(n);
      StepDraws(st, ops[0]);
      NextCountsDraws(Apply(st, ops[0]), ops[1..], n + if DrawsRegister(ops[0]) then 1 else 0);
    }
  }

  lemma PoolIndex(n: nat)
    ensures InPool(Wrap32(n)) <==> n % TWO_32 < 6
    ensures n % TWO_32 < 6 ==> Wrap32(n) == n % TWO_32
  {
  }

  lemma CallBytesDisassemble(r: Reg, addr: Int64)
    ensures Disassemble(Bytes([LoadLong(r, addr), CallVia(r)]))
         == (true, [MoveImm64(r, addr % TWO_64), ItemMeaning(CallVia(r))])
  {
    hide Disassemble, Bytes;
    var items := [LoadLong(r, addr), CallVia(r)];
    ItemsDisassemble(items);
    MeaningsOfTwo(items[0], items[1]);
  }

  /** The instructions of one more `emitCall` after any run at all: a load and a call of
      the loaded register exactly when fewer than three registers were drawn before; then
      a load and no call, three times; then nothing but an exception, until the Java
      counter wraps. */
  lemma CallAfterAnyRun(ops: seq<AsmOp>, addr: Int64)
    ensures var st := Run(Fresh(), ops);
      var n := Draws(ops) % TWO_32;
      var more := Apply(st, EmitCall(addr)).code[|st.code|..];
      && (Throws(st, EmitCall(addr)) <==> n >= 6)
      && Disassemble(more) == (true,
           if n < 3 then [MoveImm64(POOL[n], addr % TWO_64), CallReg(POOL[n])]
           else if n < 6 then [MoveImm64(POOL[n], addr % TWO_64), IncMem(false, RCX, n - 51)]
           else [])
  {
    hide Run, Draws, Disassemble, Bytes;
    var st := Run(Fresh(), ops);
    NextCountsDraws(Fresh(), ops, 0);
    PoolIndex(Draws(ops));
    assert Apply(st, EmitCall(addr)).code[|st.code|..] == Bytes(OpItems(st, EmitCall(addr)));
    assert Disassemble(Bytes([])) == (true, []) by { ItemsDisassemble([]); }
    if InPool(st.next) {
      CallBytesDisassemble(POOL[st.next], addr);
    }
  }
}
