/** The functions that get injected, and the several ways a Java program reaches them. */
module Arithmetic {
  import opened JavaInts
  import opened Decoder
  import opened Machine
  import opened Programs
  import opened Injection
  import opened CallingConvention

  // ----- the same operation in three languages -----

  datatype IntOp = Add | Multiply

  /** Java's `a + b` and `a * b` on ints. */
  function JavaOp(op: IntOp, a: Int32, b: Int32): Int32 {
    match op
    case Add => Wrap32(a + b)
    case Multiply => Wrap32(a * b)
  }

  /** `testIntAdd` and `testIntMultiply`: the first parameter is not used. That C's signed
      operators wrap is an assumption about the compiler. */
  function CFunction(op: IntOp, obj: Word, a: Int32, b: Int32): Int32 {
    match op
    case Add => Wrap32(a + b)
    case Multiply => Wrap32(a * b)
  }

  type Bits32 = x: int | 0 <= x < 0x1_0000_0000

  /** LLVM's `add i32 %.2, %.1` and `mul i32 %.2, %.1`, on 32-bit patterns. */
  function LlvmOp(op: IntOp, x: Bits32, y: Bits32): Bits32 {
    match op
    case Add => (y + x) % TWO_32
    case Multiply => (y * x) % TWO_32
  }

  function BitsOf(a: Int32): Bits32 {
    a % TWO_32
  }

  /** The compiled Python function, from ints to int. */
  function CompiledOp(op: IntOp, a: Int32, b: Int32): Int32 {
    Wrap32(LlvmOp(op, BitsOf(a), BitsOf(b)))
  }

  lemma ProductOfBits(a: int, b: int)
    ensures (b % TWO_32) * (a % TWO_32) % TWO_32 == a * b % TWO_32
  {
    var m := TWO_32;
    var p, q := a / m, b / m;
    var x, y := a % m, b % m;
    assert a * b == (p * m + x) * (q * m + y);
    assert (p * m + x) * (q * m + y) == (p * q * m + p * y + q * x) * m + x * y;
    DivMod(x * y, m);
    var k := p * q * m + p * y + q * x + x * y / m;
    assert a * b == k * m + x * y % m;
    ModUnique(a * b, m, k, x * y % m);
    assert y * x == x * y;
  }

  lemma SumOfBits(a: int, b: int)
    ensures (b % TWO_32 + a % TWO_32) % TWO_32 == (a + b) % TWO_32
  {
  }

  lemma WrapOfMod32(x: int)
    ensures Wrap32(x % TWO_32) == Wrap32(x)
  {
  }

  /** LLVM's operators on the bits of Java ints are Java's own. */
  lemma LlvmIsJava(op: IntOp, a: Int32, b: Int32)
    ensures CompiledOp(op, a, b) == JavaOp(op, a, b)
  {
    hide Wrap32;
    var sum: int, product: int := a + b, a * b;
    SumOfBits(a, b);
    WrapOfMod32(sum);
    ProductOfBits(a, b);
    WrapOfMod32(product);
  }

  /** The values the repository's own suites expect, and where the results wrap. */
  lemma SuiteValues()
    ensures JavaOp(Add, -3, 7) == 4 && JavaOp(Add, 3, 2) == 5 && JavaOp(Add, 1, 6) == 7 && JavaOp(Add, 3, 9) == 12
    ensures JavaOp(Add, 3, 4) == 7 && JavaOp(Multiply, 3, 4) == 12
    ensures JavaOp(Add, 0x7FFF_FFFF, 1) == -0x8000_0000
    ensures JavaOp(Multiply, 0x1_0000, 0x1_0000) == 0 && JavaOp(Multiply, 0x1_0000, 0x8000) == -0x8000_0000
  {
  }

  // ----- the ways to reach it -----

  /** A C call `f(obj, a, b)` has entered `f`. */
  predicate CCall(entry: State, obj: Word, a: Int32, b: Int32) {
    entry.regs[RDI] == obj && IntIn(entry, RSI) == a && IntIn(entry, RDX) == b
  }

  /** The function called is one of the two C functions: at this call it returns what they
      do for the parameters it finds. */
  predicate ReturnsAsC(call: CallEvent, op: IntOp) {
    IntIn(call.exit, RAX)
      == CFunction(op, call.entry.regs[RDI], IntIn(call.entry, RSI), IntIn(call.entry, RDX))
  }

  /** The function called is a compiled Python function behind its trampoline. */
  predicate ReturnsCompiled(call: CallEvent, isStatic: bool, op: IntOp) {
    var t := EntryPoint(isStatic);
    IntIn(call.exit, RAX) == CompiledOp(op, XIn(t, call.entry), YIn(t, call.entry))
  }

  /** `callIntFuncFromAddr(addr, a, b)`: one call of `addr` with a null pointer in front,
      whose int is the result. */
  ghost predicate JniCall(env: Env, addr: Int64, a: Int32, b: Int32, call: CallEvent) {
    && call.target == addr % TWO_64 && call.exit == env.callee(call.target, call.entry).0
    && CCall(call.entry, 0, a, b)
  }

  /** Whatever the function makes of its three parameters, the JNI call gives what it makes
      of null and the two ints in their order. */
  lemma JniComputes(env: Env, addr: Int64, a: Int32, b: Int32, call: CallEvent, f: (Word, Int32, Int32) -> Int32)
    requires JniCall(env, addr, a, b, call)
    requires IntIn(call.exit, RAX) == f(call.entry.regs[RDI], IntIn(call.entry, RSI), IntIn(call.entry, RDX))
    ensures IntIn(call.exit, RAX) == f(0, a, b)
  {
  }

  /** A C function injected into a static method: its unused pointer stands where a static
      method's trampoline has its dummy. */
  lemma InjectedCFunction(env: Env, addr: Int64, entry: State, op: IntOp, a: Int32, b: Int32)
    requires Hosted(env, addr, entry) && JavaCall(entry, true, a, b)
    requires ReturnsAsC(StubCall(env, addr, entry), op)
    ensures GivesInt(env, entry, JavaOp(op, a, b))
  {
    hide Hosted, GivesInt, StubCall, JavaCall, Wrap32;
    var call, obj := StubCall(env, addr, entry), StubCall(env, addr, entry).entry.regs[RDI];
    var f: (Int32, Int32) -> Int32 := (x, y) => CFunction(op, obj, x, y);
    assert Computes(call, EntryPoint(true), f);
    InjectedMethodComputes(env, addr, entry, true, f, a, b);
  }

  lemma InjectedCompiledFunction(env: Env, addr: Int64, entry: State, isStatic: bool, op: IntOp, a: Int32, b: Int32)
    requires Hosted(env, addr, entry) && JavaCall(entry, isStatic, a, b)
    requires ReturnsCompiled(StubCall(env, addr, entry), isStatic, op)
    ensures GivesInt(env, entry, JavaOp(op, a, b))
  {
    hide Hosted, GivesInt, StubCall, JavaCall, CompiledOp, JavaOp;
    var f: (Int32, Int32) -> Int32 := (x, y) => CompiledOp(op, x, y);
    assert Computes(StubCall(env, addr, entry), EntryPoint(isStatic), f);
    InjectedMethodComputes(env, addr, entry, isStatic, f, a, b);
    LlvmIsJava(op, a, b);
  }

  /** Addition and multiplication, on all ints, by all the paths: the JVM's own operator,
      the C function called through JNI, the C function injected into a static method, and
      the compiled Python function behind its trampoline, injected into a method of either
      kind. The last three on whatever machines, at whatever addresses. */
  lemma AllPathsAgree(
      op: IntOp, a: Int32, b: Int32,
      env: Env, addr: Int64, jni: CallEvent, entry: State,
      env': Env, addr': Int64, entry': State, isStatic: bool)
    requires JniCall(env, addr, a, b, jni) && ReturnsAsC(jni, op)
    requires Hosted(env, addr, entry) && JavaCall(entry, true, a, b)
    requires ReturnsAsC(StubCall(env, addr, entry), op)
    requires Hosted(env', addr', entry') && JavaCall(entry', isStatic, a, b)
    requires ReturnsCompiled(StubCall(env', addr', entry'), isStatic, op)
    ensures IntIn(jni.exit, RAX) == JavaOp(op, a, b)
    ensures GivesInt(env, entry, JavaOp(op, a, b))
    ensures GivesInt(env', entry', JavaOp(op, a, b))
  {
    hide Hosted, GivesInt, StubCall, JavaCall, ReturnsCompiled, Wrap32;
    InjectedCFunction(env, addr, entry, op, a, b);
    InjectedCompiledFunction(env', addr', entry', isStatic, op, a, b);
  }

  lemma AddOne(a: Int32)
    ensures JavaOp(Add, a, 1) == Wrap32(1 + a)
  {
  }

  /** `sum = f(sum, 1)` over and over from 0, through the injected stub each time and from
      whatever machine states: after `k` rounds the sum is `k` as a Java int, for every `k`. */
  lemma {:induction false} LoopOfInjectedAdds(env: Env, addr: Int64, isStatic: bool, entries: seq<State>, sums: seq<Int32>, k: nat)
    requires k <= |entries| && |sums| == |entries| + 1 && sums[0] == 0
    requires forall i :: 0 <= i < |entries| ==>
      && Hosted(env, addr, entries[i]) && JavaCall(entries[i], isStatic, sums[i], 1)
      && ReturnsCompiled(StubCall(env, addr, entries[i]), isStatic, Add)
      && GivesInt(env, entries[i], sums[i + 1])
    ensures sums[k] == Wrap32(k)
    decreases k
  {
    hide Hosted, JavaCall, ReturnsCompiled, StubCall, Steps, JavaOp, Wrap32;
    if k > 0 {
      LoopOfInjectedAdds(env, addr, isStatic, entries, sums, k - 1);
      InjectedCompiledFunction(env, addr, entries[k - 1], isStatic, Add, sums[k - 1], 1);
      AddOne(sums[k - 1]);
      WrapStep(k - 1);
    }
  }

  // ----- all of this can happen -----

  /** A function that computes `op` of its two int parameters, leaves a byte of its choice
      at the fixed address `counter`, and returns. */
  function OpFunction(t: Trampoline, op: IntOp, counter: int): Callee
    requires t.x < |SYSV_ARGS| && t.y < |SYSV_ARGS|
  {
    (_: Word, entry: State) =>
      (State(entry.regs[RSP := (Sp(entry) + 8) % TWO_64][RAX := CompiledOp(op, XIn(t, entry), YIn(t, entry)) % TWO_32],
             Write(entry.mem, counter, [1])),
       Read64(entry.mem, Sp(entry)))
  }

  /** A machine that has just entered a method: arguments in place, return address 0. */
  function EnteredMethod(isStaticMethod: bool, a: Int32, b: Int32): State {
    var first := FirstArg(isStaticMethod);
    State(seq(16, i requires 0 <= i < 16 =>
      if i == RSP then 0x1_0008
      else if i == JAVA_ARGS[first] then a % TWO_32
      else if i == JAVA_ARGS[first + 1] then b % TWO_32
      else 0), _ => 0)
  }

  lemma EnteredMethodHolds(isStatic: bool, a: Int32, b: Int32)
    ensures var entry := EnteredMethod(isStatic, a, b);
      && JavaCall(entry, isStatic, a, b)
      && Sp(entry) == 0x1_0008
      && ReturnAddress(entry) == 0
  {
    var entry := EnteredMethod(isStatic, a, b);
    WrapOfMod(a);
    WrapOfMod(b);
    hide Read, Wrap32;
    ReadOfZeros(entry.mem, Sp(entry), 8);
  }

  /** The function keeps the convention at every call whose caller's frame does not hold
      the counter; and it does compute. */
  lemma OpFunctionReturns(isStatic: bool, op: IntOp, counter: int, env: Env, call: CallEvent, top: int)
    requires env.callee == OpFunction(EntryPoint(isStatic), op, counter)
    requires call.exit == env.callee(call.target, call.entry).0
    requires Sp(call.entry) + 8 <= top < TWO_64 && !(Sp(call.entry) + 8 <= counter < top)
    ensures KeepsAbi(env, call, top) && ReturnsCompiled(call, isStatic, op)
  {
    hide Read64, CompiledOp, Wrap32;
    var t := EntryPoint(isStatic);
    WrapOfMod(CompiledOp(op, XIn(t, call.entry), YIn(t, call.entry)));
  }

  /** None of the assumptions above is empty: for either operation, at every address, for
      all arguments, and wherever outside the stub's own frame the function may store,
      there is a function and a machine that meet them together. */
  lemma ACallCanHappen(op: IntOp, addr: Int64, isStatic: bool, a: Int32, b: Int32, counter: int)
    requires !(0x1_0010 - 32 <= counter < 0x1_0010)
    ensures var env := Env(FreshCode(addr), 0x10_0000, OpFunction(EntryPoint(isStatic), op, counter));
      var entry := EnteredMethod(isStatic, a, b);
      && Hosted(env, addr, entry) && JavaCall(entry, isStatic, a, b)
      && ReturnsCompiled(StubCall(env, addr, entry), isStatic, op)
  {
    hide FreshCode, JavaCall, ReturnsCompiled, KeepsAbi, OpFunction, EnteredMethod, ReturnAddress, StubCall;
    var env := Env(FreshCode(addr), 0x10_0000, OpFunction(EntryPoint(isStatic), op, counter));
    var entry := EnteredMethod(isStatic, a, b);
    FreshInjection(addr);
    EnteredMethodHolds(isStatic, a, b);
    StubCallStack(env, addr, entry);
    ArgumentsReachCallee(env, addr, entry);
    OpFunctionReturns(isStatic, op, counter, env, StubCall(env, addr, entry), Sp(entry) + 8);
  }

  lemma {:induction false} ReadOfZeros(m: Memory, at: int, n: nat)
    requires forall x :: m(x) == 0
    ensures Read(m, at, n) == 0
    decreases n
  {
    if n != 0 {
      ReadOfZeros(m, at + 1, n - 1);
    }
  }
}
