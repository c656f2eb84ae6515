/** Both ends of the injected call: where a Java caller puts its arguments, where the
    native function looks for its parameters, and how its result comes back. */
module CallingConvention {
  import opened JavaInts
  import opened Decoder
  import opened Machine
  import opened Programs
  import opened Injection

  // ----- the two sides -----

  /** HotSpot's integer argument registers on System V targets, in order: the native ones
      rotated by one, so that a JNI environment can be put in front. An assumption. */
  const JAVA_ARGS: seq<Reg> := [RSI, RDX, RCX, R8, R9, RDI]

  /** Where `f(int a, int b)` finds `a` and `b`; an instance method has its receiver first. */
  function FirstArg(isStaticMethod: bool): nat {
    if isStaticMethod then 0 else 1
  }

  /** The Java int in the low half of a register. */
  function IntIn(s: State, r: Reg): Int32 {
    Wrap32(s.regs[r])
  }

  ghost predicate JavaCall(entry: State, isStaticMethod: bool, a: Int32, b: Int32) {
    IntIn(entry, JAVA_ARGS[FirstArg(isStaticMethod)]) == a && IntIn(entry, JAVA_ARGS[FirstArg(isStaticMethod) + 1]) == b
  }

  // ----- the trampoline -----

  datatype LlvmType = VoidPointer | I32

  /** `entry_point`: its parameter types and names, and the two it passes on, in order. */
  datatype Trampoline = Trampoline(types: seq<LlvmType>, names: seq<string>, x: nat, y: nat)

  /** The two ints are passed on, whatever stands in front of them. */
  ghost predicate ForwardsTheInts(t: Trampoline) {
    && |t.types| == |t.names| <= |SYSV_ARGS|
    && t.x < t.y < |t.types|
    && (forall i :: 0 <= i < |t.types| ==> (t.types[i].I32? <==> i == t.x || i == t.y))
    && t.names[t.x] == "x" && t.names[t.y] == "y"
  }

  function EntryPoint(isStatic: bool): Trampoline {
    if isStatic then Trampoline([VoidPointer, I32, I32], ["unused", "x", "y"], 1, 2)
    else Trampoline([VoidPointer, VoidPointer, I32, I32], ["unused1", "unused2", "x", "y"], 2, 3)
  }

  /** As `compileToFunc` builds it, naming arguments with an iterator that moves along. */
  method BuildEntryPoint(isStatic: bool) returns (t: Trampoline)
    ensures t == EntryPoint(isStatic) && ForwardsTheInts(t)
  {
    var types: seq<LlvmType>;
    if !isStatic {
      types := [VoidPointer, VoidPointer, I32, I32];
    } else {
      types := [VoidPointer, I32, I32];
    }
    var names := seq(|types|, _ => "");
    var args := 0;
    if !isStatic {
      names := names[args := "unused1"];
      args := args + 1;
      names := names[args := "unused2"];
      args := args + 1;
    } else {
      names := names[args := "unused"];
      args := args + 1;
    }
    var x := args;
    args := args + 1;
    names := names[x := "x"];
    var y := args;
    args := args + 1;
    names := names[y := "y"];
    t := Trampoline(types, names, x, y);
  }

  // ----- the arguments arrive -----

  /** What the trampoline hands to the compiled function as `x` and `y`. */
  function XIn(t: Trampoline, entry: State): Int32
    requires t.x < |SYSV_ARGS|
  {
    IntIn(entry, SYSV_ARGS[t.x])
  }

  function YIn(t: Trampoline, entry: State): Int32
    requires t.y < |SYSV_ARGS|
  {
    IntIn(entry, SYSV_ARGS[t.y])
  }

  /** Every Java call gets its own `a` and `b` through to the function. */
  ghost predicate Delivers(t: Trampoline, isStaticMethod: bool)
    requires t.x < |SYSV_ARGS| && t.y < |SYSV_ARGS|
  {
    forall entry: State, a, b :: JavaCall(entry, isStaticMethod, a, b) ==> XIn(t, entry) == a && YIn(t, entry) == b
  }

  /** The flag given to `compileToFunc` must say what the injected method is: with one
      dummy parameter too many or too few the function computes on the wrong registers. */
  lemma DeliversIff(isStatic: bool, isStaticMethod: bool)
    ensures Delivers(EntryPoint(isStatic), isStaticMethod) <==> isStatic == isStaticMethod
  {
    if isStatic != isStaticMethod {
      var first := FirstArg(isStaticMethod);
      var regs: Regs := seq(16, i requires 0 <= i < 16 => if i == JAVA_ARGS[first] then 1 else if i == JAVA_ARGS[first + 1] then 2 else 0);
      var entry := State(regs, _ => 0);
      assert JavaCall(entry, isStaticMethod, 1, 2);
      assert XIn(EntryPoint(isStatic), entry) != 1;
    }
  }

  // ----- the result comes back -----

  /** The function called returns, from this one call, `f` of the parameters it was given. */
  predicate Computes(call: CallEvent, t: Trampoline, f: (Int32, Int32) -> Int32)
    requires t.x < |SYSV_ARGS| && t.y < |SYSV_ARGS|
  {
    IntIn(call.exit, RAX) == f(XIn(t, call.entry), YIn(t, call.entry))
  }

  lemma WrapOfCongruent(x: int, y: int)
    requires x % TWO_32 == y % TWO_32
    ensures Wrap32(x) == Wrap32(y)
  {
  }

  /** Run from offset 0 the stub comes back to its caller with the int `v`. */
  ghost predicate GivesInt(env: Env, entry: State, v: Int32) {
    var end := Steps(env, Running(0, entry, []), 9);
    end.Returned? && end.to == ReturnAddress(entry) && IntIn(end.s, RAX) == v
  }

  /** Injected into a method that is what the flag says, the function is called with the
      Java arguments and its int is the method's: for all arguments and surroundings. */
  lemma InjectedMethodComputes(env: Env, addr: Int64, entry: State, isStatic: bool, f: (Int32, Int32) -> Int32, a: Int32, b: Int32)
    requires Hosted(env, addr, entry) && JavaCall(entry, isStatic, a, b)
    requires Computes(StubCall(env, addr, entry), EntryPoint(isStatic), f)
    ensures GivesInt(env, entry, f(a, b))
  {
    hide Hosted, Steps, StaysBelow, Restored, ReturnAddress, AfterReturn, StubCall;
    StubRuns(env, addr, entry);
    ArgumentsReachCallee(env, addr, entry);
    DeliversIff(isStatic, isStatic);
    var end, call, t := StubEnd(env, addr, entry), StubCall(env, addr, entry), EntryPoint(isStatic);
    assert call.entry.regs[SYSV_ARGS[t.x]] == entry.regs[SYSV_ARGS[t.x]];
    assert call.entry.regs[SYSV_ARGS[t.y]] == entry.regs[SYSV_ARGS[t.y]];
    WrapOfCongruent(end.s.regs[RAX], call.exit.regs[RAX]);
  }
}
