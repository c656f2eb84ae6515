/** What a program of assembler operations does when its bytes run: prologue, any body of
    slots, loads and calls, and the return. */
module Programs {
  import opened JavaInts
  import opened Outcomes
  import opened Decoder
  import opened Encoder
  import opened Frames
  import opened AssemblerSpec
  import opened Machine
  import opened Execution

  // ----- the invariant between operations -----

  /** The entry stack pointer is what a caller that keeps the ABI leaves (8 mod 16), and
      the frame and one more word lie inside the address space, with the caller's own
      stack above them. */
  ghost predicate Room(entry: State, frameSize: int) {
    AlignedAtEntry(entry) && frameSize <= Sp(entry) && Sp(entry) + 8 < TWO_64
  }

  /** rsp is where the assembler's frame size says, and rbp, the saved rbp, the return
      address and the other callee-saved registers are as the prologue left them. */
  ghost predicate InFrame(f: Frame, entry: State, s: State) {
    && Rounded(f, ALIGNMENT) && f.cur >= INITIAL_FRAME
    && Sp(s) == Sp(entry) + 8 - f.size
    && s.regs[RBP] == Sp(entry) - 8
    && Read64(s.mem, Sp(entry) - 8) == entry.regs[RBP]
    && Read64(s.mem, Sp(entry)) == Read64(entry.mem, Sp(entry))
    && (forall r :: r in CALLEE_SAVED && r != RBP ==> s.regs[r] == entry.regs[r])
  }

  // ----- the prologue -----

  function AfterPrologue(entry: State): State {
    var p := Pushed(entry, entry.regs[RBP]);
    p.(regs := p.regs[RBP := p.regs[RSP]][RSP := (Sp(p) - 16) % TWO_64])
  }

  /** The first prologue an assembler writes. */
  const FIRST_PROLOGUE: seq<Item> := [FatNop, PushRbp, Move(true, RBP, RSP), GrowStack(16)]

  /** The assembler after it: a frame of 32 bytes of which 24 are taken, by the return
      address, the saved rbp and the deopt rescue slot. */
  function Entered(): Asm {
    Asm(Bytes(FIRST_PROLOGUE), [], Frame(32, 24), 0, Some(Slot(-24, 8)))
  }

  lemma FirstPrologue()
    ensures Apply(Fresh(), EmitPrologue) == Entered()
    ensures Rounded(Entered().frame, ALIGNMENT)
  {
    hide Bytes;
    assert Grow(Frame(16, 16), 8, 16) == (Frame(32, 24), [16]);
    assert PrologueItems(Frame(16, 16)) == FIRST_PROLOGUE;
    assert [] + Bytes(FIRST_PROLOGUE) == Bytes(FIRST_PROLOGUE);
    assert RoundUp(24, 16) == 32;
  }

  lemma PrologueExec(env: Env, entry: State)
    requires Room(entry, 32)
    ensures var c := Running(0, entry, []); var items := FIRST_PROLOGUE;
      && FallsThrough(env, c, items)
      && ExecItems(env, c, items) == Running(|Bytes(items)|, AfterPrologue(entry), [])
  {
    hide ItemBytes;
    var c0 := Running(0, entry, []);
    var i0, i1, i2, i3 := FatNop, PushRbp, Move(true, RBP, RSP), GrowStack(16);
    var p := Pushed(entry, entry.regs[RBP]);
    var c1 := ExecItem(env, c0, i0);
    var c2 := ExecItem(env, c1, i1);
    var c3 := ExecItem(env, c2, i2);
    var c4 := ExecItem(env, c3, i3);
    assert c1 == Running(|ItemBytes(i0)|, entry, []);
    assert c2 == Running(c1.pc + |ItemBytes(i1)|, p, []);
    assert c3 == Running(c2.pc + |ItemBytes(i2)|, p.(regs := p.regs[RBP := p.regs[RSP]]), []);
    assert c4 == Running(c3.pc + |ItemBytes(i3)|, AfterPrologue(entry), []);
    FourItems(env, c0, i0, i1, i2, i3);
  }

  lemma AfterPrologueInFrame(entry: State)
    requires Room(entry, 32)
    ensures InFrame(Frame(32, 24), entry, AfterPrologue(entry))
  {
    hide Read, Write, LowBytes;
    var s := AfterPrologue(entry);
    PushedKeeps(entry, entry.regs[RBP]);
    ReadSame(entry.mem, s.mem, Sp(entry), 8);
    assert RoundUp(24, 16) == 32;
  }

  lemma PrologueKeepsRegisters(entry: State)
    ensures forall r: Reg :: r !in {RSP, RBP} ==> AfterPrologue(entry).regs[r] == entry.regs[r]
  {
    hide Write, LowBytes;
  }

  /** A push stores its value and leaves everything above alone. */
  lemma PushedKeeps(s: State, v: Word)
    requires 8 <= Sp(s)
    ensures Sp(Pushed(s, v)) == Sp(s) - 8
    ensures Read64(Pushed(s, v).mem, Sp(s) - 8) == v
    ensures forall top :: SameOn(s.mem, Pushed(s, v).mem, Sp(s), top)
  {
    ReadAfterWrite64(s.mem, Sp(s) - 8, v);
  }

  /** The prologue's four instructions, from offset 0. */
  lemma PrologueRuns(env: Env, entry: State)
    requires Room(entry, 32) && Entered().code <= env.code
    ensures var st := Entered(); var c := Running(0, entry, []);
      RunsTo(env, c, 4, |st.code|, Running(|st.code|, AfterPrologue(entry), []))
  {
    hide Bytes, Steps, ExecItems, FallsThrough;
    var items := FIRST_PROLOGUE;
    assert [] + Bytes(items) == Bytes(items);
    PrologueExec(env, entry);
    ItemsRun(env, [], items, entry, [], Running(|Bytes(items)|, AfterPrologue(entry), []));
  }

  // ----- one body operation -----

  /** The operations a body is made of, where they do what they are for: slots that fit
      the frame's int, registers left in the pool, and calls through one of its first three. */
  ghost predicate BodyOp(st: Asm, op: AsmOp) {
    match op
    case NewStackSlot(n) => n >= 0 && st.frame.cur >= 0 && RoundUp(st.frame.cur + n, ALIGNMENT) < 0x8000_0000
    case EmitLoadLong(_) => InPool(st.next)
    case EmitCall(_) => 0 <= st.next < 3
    case _ => false
  }

  /** The state at the callee's entry when `emitCall(addr)` has run. */
  function CallEntry(env: Env, st: Asm, addr: Int64, s: State): State
    requires InPool(st.next)
  {
    var loaded := s.(regs := s.regs[POOL[st.next] := addr % TWO_64]);
    Pushed(loaded, (env.base + |Apply(st, EmitCall(addr)).code|) % TWO_64)
  }

  function CallOf(env: Env, st: Asm, addr: Int64, s: State): CallEvent
    requires InPool(st.next)
  {
    var entry := CallEntry(env, st, addr, s);
    CallEvent(addr % TWO_64, entry, env.callee(addr % TWO_64, entry).0)
  }

  /** What a body operation means for the machine state. */
  ghost function AfterOp(env: Env, st: Asm, op: AsmOp, s: State): State
    requires BodyOp(st, op)
  {
    match op
    case NewStackSlot(n) =>
      var growth: int := Grow(st.frame, n, ALIGNMENT).0.size - st.frame.size;
      s.(regs := s.regs[RSP := (Sp(s) - growth) % TWO_64])
    case EmitLoadLong(c) => s.(regs := s.regs[POOL[st.next] := c % TWO_64])
    case EmitCall(addr) => CallOf(env, st, addr, s).exit
  }

  ghost function CallsOf(env: Env, st: Asm, op: AsmOp, s: State): seq<CallEvent>
    requires BodyOp(st, op)
  {
    if op.EmitCall? then [CallOf(env, st, op.addr, s)] else []
  }

  /** The code of `t` starts the buffer and ends before the buffer does, and the stack has
      room for its frame. */
  ghost predicate Surrounds(env: Env, t: Asm, entry: State) {
    && t.code <= env.code && |t.code| < |env.code|
    && env.base + |env.code| <= TWO_64
    && Room(entry, t.frame.size)
  }

  lemma SurroundsEarlier(env: Env, t: Asm, u: Asm, entry: State)
    requires Surrounds(env, u, entry) && t.code <= u.code && t.frame.size <= u.frame.size
    ensures Surrounds(env, t, entry)
  {
  }

  /** What the surroundings must be for an operation to run: room for it and, if it is a
      call, a function that keeps the convention at that call. */
  ghost predicate Hosts(env: Env, st: Asm, op: AsmOp, entry: State, s: State)
    requires BodyOp(st, op)
  {
    Surrounds(env, Apply(st, op), entry) && AllKeepAbi(env, CallsOf(env, st, op, s), Sp(entry) + 8)
  }

  lemma SlotExec(env: Env, st: Asm, n: Int32, entry: State, s: State, calls: seq<CallEvent>)
    requires BodyOp(st, NewStackSlot(n)) && InFrame(st.frame, entry, s)
    requires Room(entry, Apply(st, NewStackSlot(n)).frame.size)
    ensures var items := GrowItems(st.frame, n); var c := Running(|st.code|, s, calls);
      && FallsThrough(env, c, items)
      && ExecItems(env, c, items) == Running(|st.code| + |Bytes(items)|, AfterOp(env, st, NewStackSlot(n), s), calls)
  {
    hide ItemBytes, RoundUp, Read64, Read;
    GrowKeepsRounded(st.frame, n, ALIGNMENT);
    hide Grow;
    var c := Running(|st.code|, s, calls);
    var subs := Grow(st.frame, n, ALIGNMENT).1;
    if subs == [] {
      assert s.regs[RSP := (Sp(s) - 0) % TWO_64] == s.regs;
    } else {
      OneItem(env, c, GrowStack(subs[0]));
    }
  }

  lemma SlotKeepsFrame(env: Env, st: Asm, n: Int32, entry: State, s: State)
    requires BodyOp(st, NewStackSlot(n)) && InFrame(st.frame, entry, s)
    requires Room(entry, Apply(st, NewStackSlot(n)).frame.size)
    ensures InFrame(Apply(st, NewStackSlot(n)).frame, entry, AfterOp(env, st, NewStackSlot(n), s))
  {
    hide Read, Read64, Bytes, Grow, RoundUp, OpItems;
    GrowKeepsRounded(st.frame, n, ALIGNMENT);
  }

  lemma LoadExec(env: Env, st: Asm, v: Int64, s: State, calls: seq<CallEvent>)
    requires InPool(st.next)
    ensures var items := [LoadLong(POOL[st.next], v)]; var c := Running(|st.code|, s, calls);
      && FallsThrough(env, c, items)
      && ExecItems(env, c, items) == Running(|st.code| + |Bytes(items)|, AfterOp(env, st, EmitLoadLong(v), s), calls)
  {
    hide ItemBytes;
    OneItem(env, Running(|st.code|, s, calls), LoadLong(POOL[st.next], v));
  }

  /** Where a call leads: an aligned stack with the return address on top. */
  lemma CallEnters(env: Env, st: Asm, addr: Int64, entry: State, s: State)
    requires BodyOp(st, EmitCall(addr)) && InFrame(st.frame, entry, s) && Room(entry, st.frame.size)
    ensures var e := CallEntry(env, st, addr, s);
      && Sp(e) == Sp(s) - 8 >= 0 && AlignedAtEntry(e)
      && Read64(e.mem, Sp(e)) == (env.base + |Apply(st, EmitCall(addr)).code|) % TWO_64
      && SameOn(s.mem, e.mem, Sp(s), Sp(entry) + 8)
      && forall r: Reg :: r !in {RSP, POOL[st.next]} ==> e.regs[r] == s.regs[r]
  {
    hide Read, Read64, Write, LowBytes, Apply;
    var loaded := s.(regs := s.regs[POOL[st.next] := addr % TWO_64]);
    RoundUpIsMultiple(st.frame.cur, ALIGNMENT);
    PushedKeeps(loaded, (env.base + |Apply(st, EmitCall(addr)).code|) % TWO_64);
  }

  lemma CalleeReturns(env: Env, st: Asm, addr: Int64, entry: State, s: State)
    requires BodyOp(st, EmitCall(addr)) && AlignedAtEntry(CallEntry(env, st, addr, s))
    requires Hosts(env, st, EmitCall(addr), entry, s)
    ensures var e := CallEntry(env, st, addr, s); var (x, to) := env.callee(addr % TWO_64, e);
      ReturnsProperly(e, x, to, Sp(entry) + 8)
  {
    hide CallEntry, Read64, Bytes, ReturnsProperly, Surrounds;
    assert KeepsAbi(env, CallsOf(env, st, EmitCall(addr), s)[0], Sp(entry) + 8);
  }

  /** ... and what it has kept when it comes back. */
  lemma CallReturns(env: Env, st: Asm, addr: Int64, entry: State, s: State)
    requires BodyOp(st, EmitCall(addr)) && InFrame(st.frame, entry, s) && Hosts(env, st, EmitCall(addr), entry, s)
    ensures var e := CallEntry(env, st, addr, s); var (x, to) := env.callee(addr % TWO_64, e);
      && Sp(e) == Sp(s) - 8 >= 0 && AlignedAtEntry(e)
      && to == env.base + |Apply(st, EmitCall(addr)).code|
      && InFrame(st.frame, entry, x)
      && SameOn(s.mem, x.mem, Sp(s), Sp(entry) + 8)
    ensures forall r: Reg :: r !in {RSP, POOL[st.next]} ==> CallEntry(env, st, addr, s).regs[r] == s.regs[r]
  {
    hide CallEntry, Read64, Bytes, AllKeepAbi, CallsOf, InFrame, AlignedAtEntry, KeepsAbi;
    CallEnters(env, st, addr, entry, s);
    CalleeReturns(env, st, addr, entry, s);
    var e := CallEntry(env, st, addr, s);
    var (x, to) := env.callee(addr % TWO_64, e);
    FrameKept(st.frame, entry, s, e, x);
  }

  lemma FrameKept(f: Frame, entry: State, s: State, e: State, x: State)
    requires InFrame(f, entry, s) && Sp(entry) + 8 <= TWO_64
    requires Sp(x) == Sp(s)
    requires forall r :: r in CALLEE_SAVED ==> x.regs[r] == s.regs[r]
    requires SameOn(s.mem, e.mem, Sp(s), Sp(entry) + 8) && SameOn(e.mem, x.mem, Sp(s), Sp(entry) + 8)
    ensures InFrame(f, entry, x)
  {
    hide Read;
    ReadSame(s.mem, x.mem, Sp(entry) - 8, 8);
    ReadSame(s.mem, x.mem, Sp(entry), 8);
    assert RBP in CALLEE_SAVED;
  }

  lemma CallExec(env: Env, st: Asm, addr: Int64, entry: State, s: State, calls: seq<CallEvent>)
    requires BodyOp(st, EmitCall(addr)) && InFrame(st.frame, entry, s) && Hosts(env, st, EmitCall(addr), entry, s)
    ensures var items := OpItems(st, EmitCall(addr)); var c := Running(|st.code|, s, calls);
      && FallsThrough(env, c, items)
      && ExecItems(env, c, items)
         == Running(|Apply(st, EmitCall(addr)).code|, CallOf(env, st, addr, s).exit, calls + [CallOf(env, st, addr, s)])
  {
    hide ItemBytes, Read, Write, LowBytes;
    var r := POOL[st.next];
    var i0, i1 := LoadLong(r, addr), CallVia(r);
    var c := Running(|st.code|, s, calls);
    var c1 := ExecItem(env, c, i0);
    TwoItems(env, c, i0, i1);
    CallReturns(env, st, addr, entry, s);
    assert ItemMeaning(i1) == CallReg(r);
    assert c1.pc + |ItemBytes(i1)| == |Apply(st, EmitCall(addr)).code|;
  }

  /** The machine runs an operation's bytes as the operation means, and rsp keeps up with
      the assembler's frame size. */
  lemma OpRuns(env: Env, st: Asm, op: AsmOp, entry: State, s: State, calls: seq<CallEvent>)
    requires BodyOp(st, op) && InFrame(st.frame, entry, s) && Hosts(env, st, op, entry, s)
    ensures var t := Apply(st, op); var c := Running(|st.code|, s, calls); var n := |OpItems(st, op)|;
      && RunsTo(env, c, n, |t.code|, Running(|t.code|, AfterOp(env, st, op, s), calls + CallsOf(env, st, op, s)))
      && InFrame(t.frame, entry, AfterOp(env, st, op, s))
  {
    hide Bytes, ItemBytes, RunsTo, ExecItems, FallsThrough, Execute, Grow, Decode, Read, Write, Read64;
    var items := OpItems(st, op);
    var c := Running(|st.code|, s, calls);
    assert calls + [] == calls;
    match op {
      case NewStackSlot(n) =>
        SlotExec(env, st, n, entry, s, calls);
        SlotKeepsFrame(env, st, n, entry, s);
      case EmitLoadLong(v) =>
        LoadExec(env, st, v, s, calls);
      case EmitCall(addr) =>
        CallExec(env, st, addr, entry, s, calls);
        CallReturns(env, st, addr, entry, s);
    }
    ItemsRun(env, st.code, items, s, calls, ExecItems(env, c, items));
  }

  // ----- a whole body -----

  ghost predicate BodyOk(st: Asm, ops: seq<AsmOp>)
    decreases |ops|
  {
    ops == [] || (BodyOp(st, ops[0]) && BodyOk(Apply(st, ops[0]), ops[1..]))
  }

  ghost function AfterBody(env: Env, st: Asm, ops: seq<AsmOp>, s: State): State
    requires BodyOk(st, ops)
    decreases |ops|
  {
    if ops == [] then s else AfterBody(env, Apply(st, ops[0]), ops[1..], AfterOp(env, st, ops[0], s))
  }

  ghost function BodyCalls(env: Env, st: Asm, ops: seq<AsmOp>, s: State): seq<CallEvent>
    requires BodyOk(st, ops)
    decreases |ops|
  {
    if ops == [] then []
    else CallsOf(env, st, ops[0], s) + BodyCalls(env, Apply(st, ops[0]), ops[1..], AfterOp(env, st, ops[0], s))
  }

  /** The addresses a body asks to call, in order. */
  function Targets(ops: seq<AsmOp>): seq<Word> {
    if ops == [] then []
    else (if ops[0].EmitCall? then [ops[0].addr % TWO_64] else []) + Targets(ops[1..])
  }

  /** The surroundings for a whole body: room for its final state, and functions that keep
      the convention at the calls the body makes. */
  ghost predicate HostsBody(env: Env, st: Asm, ops: seq<AsmOp>, entry: State, s: State)
    requires BodyOk(st, ops)
  {
    Surrounds(env, Run(st, ops), entry) && AllKeepAbi(env, BodyCalls(env, st, ops, s), Sp(entry) + 8)
  }

  lemma StepGrows(st: Asm, op: AsmOp)
    requires BodyOp(st, op) && Rounded(st.frame, ALIGNMENT)
    ensures var t := Apply(st, op);
      && Rounded(t.frame, ALIGNMENT) && st.code <= t.code
      && st.frame.size <= t.frame.size && st.frame.cur <= t.frame.cur
  {
    hide Bytes, OpItems, Grow;
    if op.NewStackSlot? {
      GrowKeepsRounded(st.frame, op.bytes, ALIGNMENT);
    }
  }

  lemma {:induction false} BodyGrows(st: Asm, ops: seq<AsmOp>)
    requires BodyOk(st, ops) && Rounded(st.frame, ALIGNMENT)
    ensures st.code <= Run(st, ops).code
    ensures st.frame.size <= Run(st, ops).frame.size && st.frame.cur <= Run(st, ops).frame.cur
    ensures Rounded(Run(st, ops).frame, ALIGNMENT)
    decreases |ops|
  {
    hide Apply, Rounded, BodyOp;
    if ops != [] {
      StepGrows(st, ops[0]);
      BodyGrows(Apply(st, ops[0]), ops[1..]);
    }
  }

  /** The definitions above, unfolded once. */
  lemma BodyUnfolds(env: Env, st: Asm, ops: seq<AsmOp>, s: State)
    requires BodyOk(st, ops)
    ensures ops == [] ==>
      (Run(st, ops) == st && RunItems(st, ops) == [] && AfterBody(env, st, ops, s) == s
      && BodyCalls(env, st, ops, s) == [] && Targets(ops) == [])
    ensures ops != [] ==>
      var t, rest := Apply(st, ops[0]), ops[1..];
      && BodyOp(st, ops[0]) && BodyOk(t, rest)
      && var s' := AfterOp(env, st, ops[0], s);
      && Run(st, ops) == Run(t, rest)
      && |RunItems(st, ops)| == |OpItems(st, ops[0])| + |RunItems(t, rest)|
      && AfterBody(env, st, ops, s) == AfterBody(env, t, rest, s')
      && BodyCalls(env, st, ops, s) == CallsOf(env, st, ops[0], s) + BodyCalls(env, t, rest, s')
      && Targets(ops) == (if ops[0].EmitCall? then [ops[0].addr % TWO_64] else []) + Targets(rest)
  {
    hide Apply, OpItems, AfterOp, CallsOf, BodyOp;
  }

  lemma AppendAssociates<T>(a: seq<T>, b: seq<T>, c: seq<T>)
    ensures a + b + c == a + (b + c)
  {
  }

  /** Any body, run from its first byte: the bytes do what the operations mean; control
      stays inside the body's own bytes; at its end rsp is entry rsp + 8 - frameSize,
      however many slots were allocated; and every call went to the address asked for with
      the stack aligned. As it holds of every body it holds at every boundary within one. */
  lemma {:induction false} BodyRuns(env: Env, st: Asm, ops: seq<AsmOp>, entry: State, s: State, calls: seq<CallEvent>)
    requires BodyOk(st, ops) && InFrame(st.frame, entry, s) && HostsBody(env, st, ops, entry, s)
    ensures var t := Run(st, ops); var c := Running(|st.code|, s, calls); var n := |RunItems(st, ops)|;
      var more := BodyCalls(env, st, ops, s);
      && RunsTo(env, c, n, |t.code|, Running(|t.code|, AfterBody(env, st, ops, s), calls + more))
      && InFrame(t.frame, entry, AfterBody(env, st, ops, s))
      && CallsGoTo(env, more, Targets(ops))
    decreases |ops|
  {
    hide RunsTo, AfterOp, Apply, OpItems, CallsOf, BodyOp, InFrame, Rounded, AllKeepAbi, Room,
         Run, RunItems, AfterBody, BodyCalls, Targets, BodyOk, HostsBody, Hosts, CallsGoTo;
    FrameIsRounded(st.frame, entry, s);
    BodyUnfolds(env, st, ops, s);
    var c := Running(|st.code|, s, calls);
    FirstSteps(env, c, |st.code|);
    if ops == [] {
      assert calls + [] == calls;
      NoCalls(env);
    } else {
      var op, rest := ops[0], ops[1..];
      var t := Apply(st, op);
      FirstIsHosted(env, st, ops, entry, s);
      OpRuns(env, st, op, entry, s, calls);
      var s' := AfterOp(env, st, op, s);
      var made, more := CallsOf(env, st, op, s), BodyCalls(env, t, rest, s');
      BodyRuns(env, t, rest, entry, s', calls + made);
      AppendAssociates(calls, made, more);
      var end := Running(|Run(t, rest).code|, AfterBody(env, t, rest, s'), calls + (made + more));
      Compose(env, c, |OpItems(st, op)|, |t.code|, Running(|t.code|, s', calls + made),
        |RunItems(t, rest)|, |Run(t, rest).code|, end);
      CallIsAligned(env, st, op, entry, s);
      CallsGoToAppend(env, made, if op.EmitCall? then [op.addr % TWO_64] else [], more, Targets(rest));
    }
  }

  /** The calls made: one for each target, to that target, entered on an aligned stack, and
      back with what the function there makes of it. */
  ghost predicate CallsGoTo(env: Env, calls: seq<CallEvent>, targets: seq<Word>) {
    |calls| == |targets| &&
    forall i :: 0 <= i < |calls| ==>
      && calls[i].target == targets[i] && AlignedAtEntry(calls[i].entry)
      && calls[i].exit == env.callee(calls[i].target, calls[i].entry).0
  }

  lemma NoCalls(env: Env)
    ensures CallsGoTo(env, [], [])
  {
  }

  lemma FrameIsRounded(f: Frame, entry: State, s: State)
    requires InFrame(f, entry, s)
    ensures Rounded(f, ALIGNMENT)
  {
    hide Rounded, Read64;
  }

  lemma CallsGoToAppend(env: Env, xs: seq<CallEvent>, ts: seq<Word>, ys: seq<CallEvent>, us: seq<Word>)
    requires CallsGoTo(env, xs, ts) && CallsGoTo(env, ys, us)
    ensures CallsGoTo(env, xs + ys, ts + us)
  {
  }

  lemma CallIsAligned(env: Env, st: Asm, op: AsmOp, entry: State, s: State)
    requires BodyOp(st, op) && InFrame(st.frame, entry, s) && Hosts(env, st, op, entry, s)
    ensures CallsGoTo(env, CallsOf(env, st, op, s), if op.EmitCall? then [op.addr % TWO_64] else [])
  {
    if op.EmitCall? {
      CallReturns(env, st, op.addr, entry, s);
    }
  }

  lemma FirstIsHosted(env: Env, st: Asm, ops: seq<AsmOp>, entry: State, s: State)
    requires ops != [] && BodyOk(st, ops) && Rounded(st.frame, ALIGNMENT) && HostsBody(env, st, ops, entry, s)
    ensures Hosts(env, st, ops[0], entry, s)
    ensures HostsBody(env, Apply(st, ops[0]), ops[1..], entry, AfterOp(env, st, ops[0], s))
    ensures |Apply(st, ops[0]).code| <= |Run(st, ops).code|
  {
    BodyUnfolds(env, st, ops, s);
    AllKeepAbiSplits(env, CallsOf(env, st, ops[0], s),
      BodyCalls(env, Apply(st, ops[0]), ops[1..], AfterOp(env, st, ops[0], s)), Sp(entry) + 8);
    hide Apply, Rounded, BodyOp, AllKeepAbi, CallsOf, BodyCalls, AfterOp, AfterBody, BodyOk, Run, RunItems, OpItems, Targets, Room;
    var t := Apply(st, ops[0]);
    StepGrows(st, ops[0]);
    BodyGrows(t, ops[1..]);
    SurroundsEarlier(env, t, Run(t, ops[1..]), entry);
  }

  // ----- the return -----

  /** Moves, pop and return, one after the other. */
  function AfterReturn(a: Reg, s: State): State {
    var moved := if a != RAX then s.(regs := s.regs[RAX := s.regs[a] % TWO_32]) else s;
    var cut := moved.(regs := moved.regs[RSP := moved.regs[RBP]]);
    var popped := cut.(regs := cut.regs[RSP := (Sp(cut) + 8) % TWO_64][RBP := Read64(cut.mem, Sp(cut))]);
    popped.(regs := popped.regs[RSP := (Sp(popped) + 8) % TWO_64])
  }

  /** The caller gets its stack pointer, its frame pointer and its other callee-saved
      registers back. */
  ghost predicate Restored(entry: State, s: State) {
    && Sp(s) == Sp(entry) + 8
    && forall r :: r in CALLEE_SAVED ==> s.regs[r] == entry.regs[r]
  }

  /** Where the stub's caller wants control back. */
  function ReturnAddress(entry: State): Word {
    Read64(entry.mem, Sp(entry))
  }

  ghost predicate CallerOutside(env: Env, entry: State) {
    !(env.base <= ReturnAddress(entry) < env.base + |env.code|)
  }

  lemma ReturnRestores(f: Frame, a: Reg, entry: State, s: State)
    requires InFrame(f, entry, s) && Sp(entry) >= 8 && Sp(entry) + 8 < TWO_64
    ensures Restored(entry, AfterReturn(a, s))
    ensures AfterReturn(a, s).regs[RAX] % TWO_32 == s.regs[a] % TWO_32
    ensures AfterReturn(a, s).mem == s.mem
  {
    hide Read;
  }

  lemma ReturnExec(env: Env, st: Asm, a: Reg, entry: State, s: State, calls: seq<CallEvent>)
    requires InFrame(st.frame, entry, s) && Sp(entry) >= 8 && Sp(entry) + 8 < TWO_64 && CallerOutside(env, entry)
    ensures var items := IntRetItems(a); var c := Running(|st.code|, s, calls);
      && FallsThrough(env, c, items)
      && ExecItems(env, c, items) == Returned(ReturnAddress(entry), AfterReturn(a, s), calls)
  {
    hide ItemBytes, Read;
    var c := Running(|st.code|, s, calls);
    var i1, i2, i3 := Move(true, RSP, RBP), PopRbp, Return;
    if a != RAX {
      var i0 := Move(false, RAX, a);
      assert IntRetItems(a) == [i0, i1, i2, i3];
      FourItems(env, c, i0, i1, i2, i3);
    } else {
      assert IntRetItems(a) == [i1, i2, i3];
      ThreeItems(env, c, i1, i2, i3);
    }
  }

  lemma ReturnRuns(env: Env, st: Asm, a: Reg, entry: State, s: State, calls: seq<CallEvent>)
    requires InFrame(st.frame, entry, s) && Sp(entry) >= 8 && Sp(entry) + 8 < TWO_64 && CallerOutside(env, entry)
    requires Apply(st, EmitIntRet(a)).code <= env.code
    ensures var c := Running(|st.code|, s, calls); var n := |IntRetItems(a)|;
      RunsTo(env, c, n, |Apply(st, EmitIntRet(a)).code|, Returned(ReturnAddress(entry), AfterReturn(a, s), calls))
  {
    hide Bytes, RunsTo, ExecItems, FallsThrough, IntRetItems, Read64;
    ReturnExec(env, st, a, entry, s, calls);
    hide InFrame, AfterReturn, CallerOutside, Execute, ItemBytes;
    ItemsRun(env, st.code, IntRetItems(a), s, calls, Returned(ReturnAddress(entry), AfterReturn(a, s), calls));
  }
}
