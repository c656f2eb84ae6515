/** Execution of code bytes: sixteen 64-bit registers, byte memory, and a program counter
    that is an offset into the code. Every step decodes the bytes at the counter. */
module Machine {
  import opened JavaInts
  import opened Decoder

  type Regs = s: seq<Word> | |s| == 16 witness [0, 0, 0, 0, 0, 0, 0, 0, 0, 0, 0, 0, 0, 0, 0, 0]
  type Memory = int -> Byte

  datatype State = State(regs: Regs, mem: Memory)

  /** Code outside the buffer: from the state at its entry, the state in which it returns
      and the address it returns to. */
  type Callee = (Word, State) -> (State, Word)

  /** One call: its target and the states at the callee's entry and on return. */
  datatype CallEvent = CallEvent(target: Word, entry: State, exit: State)

  datatype Env = Env(code: seq<Byte>, base: Word, callee: Callee)

  datatype Conf =
    | Running(pc: int, s: State, calls: seq<CallEvent>)
    | Returned(to: Word, s: State, calls: seq<CallEvent>)   // control left for an address outside
    | InDeopt(s: State, calls: seq<CallEvent>)              // control left through the deopt stub
    | Fault

  /** The stack pointer. */
  function Sp(s: State): int {
    s.regs[RSP]
  }

  // ----- memory -----

  function Read(m: Memory, a: int, n: nat): (v: nat)
    decreases n, a
  {
    if n == 0 then 0 else m(a) + 0x100 * Read(m, a + 1, n - 1)
  }

  function Write(m: Memory, a: int, bs: seq<Byte>): Memory {
    (x: int) => if a <= x < a + |bs| then bs[x - a] else m(x)
  }

  ghost predicate SameOn(m: Memory, m': Memory, low: int, high: int) {
    forall x :: low <= x < high ==> m'(x) == m(x)
  }

  lemma {:induction false} ReadSame(m: Memory, m': Memory, a: int, n: nat)
    requires SameOn(m, m', a, a + n)
    ensures Read(m', a, n) == Read(m, a, n)
    decreases n
  {
    if n != 0 {
      ReadSame(m, m', a + 1, n - 1);
    }
  }

  lemma {:induction false} ReadIsFromLow(m: Memory, a: int, bs: seq<Byte>)
    requires forall i :: 0 <= i < |bs| ==> m(a + i) == bs[i]
    ensures Read(m, a, |bs|) == FromLow(bs)
    decreases |bs|
  {
    if bs != [] {
      assert m(a + 0) == bs[0];
      forall i | 0 <= i < |bs[1..]|
        ensures m(a + 1 + i) == bs[1..][i]
      {
        assert m(a + (i + 1)) == bs[i + 1];
      }
      ReadIsFromLow(m, a + 1, bs[1..]);
    }
  }

  lemma ReadAfterWrite64(m: Memory, a: int, v: Word)
    ensures Read(Write(m, a, LowBytes(v, 8)), a, 8) == v
  {
    var bs := LowBytes(v, 8);
    ReadIsFromLow(Write(m, a, bs), a, bs);
    LowBytesOfLong(v);
  }

  lemma {:induction false} ReadBound(m: Memory, a: int, n: nat)
    ensures Read(m, a, n) < Pow2(8 * n)
    decreases n
  {
    if n != 0 {
      ReadBound(m, a + 1, n - 1);
      Pow2Plus8(8 * (n - 1));
      assert 8 * n == 8 * (n - 1) + 8;
    }
  }

  function Read64(m: Memory, a: int): Word {
    ReadBound(m, a, 8);
    Pow2Values();
    Read(m, a, 8)
  }

  // ----- one step -----

  /** Control goes to a machine address: back into the code, or out of it. */
  function Goto(env: Env, to: Word, s: State, calls: seq<CallEvent>): Conf {
    if env.base <= to < env.base + |env.code| then Running(to - env.base, s, calls) else Returned(to, s, calls)
  }

  function Pushed(s: State, v: Word): State {
    var sp := (Sp(s) - 8) % TWO_64;
    State(s.regs[RSP := sp], Write(s.mem, sp, LowBytes(v, 8)))
  }

  /** An access of `n` bytes at `a` must not run off the end of the address space. */
  predicate InSpace(a: int, n: nat) {
    0 <= a && a + n <= TWO_64
  }

  function Execute(env: Env, i: Instr, next: int, s: State, calls: seq<CallEvent>): Conf {
    match i
    case Nop => Running(next, s, calls)
    case Push(r) =>
      if !InSpace((Sp(s) - 8) % TWO_64, 8) then Fault
      else Running(next, Pushed(s, s.regs[r]), calls)
    case Pop(r) =>
      if !InSpace(Sp(s), 8) then Fault
      else Running(next, s.(regs := s.regs[RSP := (Sp(s) + 8) % TWO_64][r := Read64(s.mem, Sp(s))]), calls)
    case MoveReg(wide, to, from) =>
      Running(next, s.(regs := s.regs[to := if wide then s.regs[from] else s.regs[from] % TWO_32]), calls)
    case MoveImm64(r, imm) => Running(next, s.(regs := s.regs[r := imm]), calls)
    case SubImm32(r, n) => Running(next, s.(regs := s.regs[r := (s.regs[r] - n) % TWO_64]), calls)
    case IncMem(wide, r, disp) =>
      var a, n := (s.regs[r] + disp) % TWO_64, if wide then 8 else 4;
      if !InSpace(a, n) then Fault
      else Running(next, s.(mem := Write(s.mem, a, LowBytes(Read(s.mem, a, n) + 1, n))), calls)
    case CallReg(r) =>
      if !InSpace((Sp(s) - 8) % TWO_64, 8) then Fault
      else
        var target := s.regs[r];
        var entry := Pushed(s, (env.base + next) % TWO_64);
        var (exit, to) := env.callee(target, entry);
        Goto(env, to, exit, calls + [CallEvent(target, entry, exit)])
    case CallRel32(_) => InDeopt(s, calls)
    case Ret =>
      if !InSpace(Sp(s), 8) then Fault
      else Goto(env, Read64(s.mem, Sp(s)), s.(regs := s.regs[RSP := (Sp(s) + 8) % TWO_64]), calls)
  }

  function Step(env: Env, c: Conf): Conf {
    if !c.Running? then c
    else if !(0 <= c.pc <= |env.code|) then Fault
    else match Decode(env.code[c.pc..])
      case Invalid => Fault
      case Decoded(i, n) => Execute(env, i, c.pc + n, c.s, c.calls)
  }

  function Steps(env: Env, c: Conf, n: nat): Conf
    decreases n, c
  {
    if n == 0 then c else Steps(env, Step(env, c), n - 1)
  }

  lemma {:induction false} StepsSplit(env: Env, c: Conf, m: nat, n: nat)
    ensures Steps(env, c, m + n) == Steps(env, Steps(env, c, m), n)
    decreases m
  {
    if m != 0 {
      StepsSplit(env, Step(env, c), m - 1, n);
    }
  }

  /** For `n` steps from `c` control is in the code, below offset `limit`. */
  ghost predicate StaysBelow(env: Env, c: Conf, n: nat, limit: int) {
    forall k :: 0 <= k < n ==> Steps(env, c, k).Running? && 0 <= Steps(env, c, k).pc < limit
  }

  /** `n` steps lead from `c` to `end`, by way of code below `limit` only. */
  ghost predicate RunsTo(env: Env, c: Conf, n: nat, limit: int, end: Conf) {
    Steps(env, c, n) == end && StaysBelow(env, c, n, limit)
  }

  lemma StaysBelowSplits(env: Env, c: Conf, m: nat, n: nat, limit: int)
    requires StaysBelow(env, c, m, limit) && StaysBelow(env, Steps(env, c, m), n, limit)
    ensures StaysBelow(env, c, m + n, limit)
  {
    forall k | 0 <= k < m + n
      ensures Steps(env, c, k).Running? && 0 <= Steps(env, c, k).pc < limit
    {
      if k >= m {
        StepsSplit(env, c, m, k - m);
        assert Steps(env, Steps(env, c, m), k - m).Running?;
      }
    }
  }

  // ----- the calling convention -----

  const CALLEE_SAVED: seq<Reg> := [RBX, RBP, 12, 13, 14, 15]

  /** System V AMD64 ABI, section 3.2.2: at a function's entry rsp + 8 is a multiple of 16. */
  predicate AlignedAtEntry(entry: State) {
    (Sp(entry) + 8) % 16 == 0
  }

  /** What a function owes its caller (sections 3.2.1 to 3.2.3): it returns to the address
      on top of its stack, pops it, keeps the callee-saved registers, and leaves the
      caller's frame, here everything above that address and below `top`, alone. */
  ghost predicate ReturnsProperly(entry: State, exit: State, to: Word, top: int) {
    && to == Read64(entry.mem, Sp(entry))
    && Sp(exit) == Sp(entry) + 8
    && (forall r :: r in CALLEE_SAVED ==> exit.regs[r] == entry.regs[r])
    && SameOn(entry.mem, exit.mem, Sp(entry) + 8, top)
  }

  /** The function called keeps the convention at this one call, if its caller aligned the
      stack: a caller whose frame ends at `top`. Nothing is said of any other call. */
  ghost predicate KeepsAbi(env: Env, call: CallEvent, top: int) {
    var (exit, to) := env.callee(call.target, call.entry);
    AlignedAtEntry(call.entry) ==> ReturnsProperly(call.entry, exit, to, top)
  }

  ghost predicate AllKeepAbi(env: Env, calls: seq<CallEvent>, top: int) {
    forall i :: 0 <= i < |calls| ==> KeepsAbi(env, calls[i], top)
  }

  lemma AllKeepAbiSplits(env: Env, xs: seq<CallEvent>, ys: seq<CallEvent>, top: int)
    ensures AllKeepAbi(env, xs + ys, top) ==> AllKeepAbi(env, xs, top) && AllKeepAbi(env, ys, top)
  {
    hide KeepsAbi;
    if AllKeepAbi(env, xs + ys, top) {
      forall i | 0 <= i < |xs|
        ensures KeepsAbi(env, xs[i], top)
      {
        assert (xs + ys)[i] == xs[i];
      }
      forall i | 0 <= i < |ys|
        ensures KeepsAbi(env, ys[i], top)
      {
        assert (xs + ys)[|xs| + i] == ys[i];
      }
    }
  }
}
