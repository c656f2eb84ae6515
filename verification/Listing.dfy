/** The output in numbers: register encodings, the bytes of every operation, and whole
    stubs down to the array they are in. Nothing here goes by the name of a register or
    of a unit of output, so this is a second account of what is written. */
module Listing {
  import opened JavaInts
  import opened Decoder
  import opened Encoder
  import opened Frames
  import opened AssemblerSpec
  import opened Machine
  import opened Programs
  import opened Injection
  import opened CallingConvention
  import Buffers = BufferSpec

  // ----- registers -----

  /** The encodings of rax to r10, the assembler's pool, and the roles of registers. */
  lemma RegisterNumbers()
    ensures [RAX, RCX, RDX, RBX, RSP, RBP, RSI, RDI, R8, R9, R10] == [0, 1, 2, 3, 4, 5, 6, 7, 8, 9, 10]
    ensures POOL == [0, 1, 7, 8, 9, 10]
    ensures SYSV_ARGS == [7, 6, 2, 1, 8, 9] && JAVA_ARGS == [6, 2, 1, 8, 9, 7]
    ensures CALLEE_SAVED == [3, 5, 12, 13, 14, 15]
  {
  }

  // ----- operations -----

  /** `SUB rsp, imm32` where a request of `n` bytes does not fit the frame. */
  function SlotListing(f: Frame, n: Int32): seq<Byte> {
    if Wrap32(f.cur + n) <= f.size then []
    else [0x48, 0x81, 0xEC] + LowBytes(Wrap32(Grow(f, n, 16).0.size - f.size), 4)
  }

  /** `MOV r64, imm64` for the register handed out at index `next`. */
  function LoadListing(next: Int32, v: Int64): seq<Byte> {
    if 0 <= next < 3 then [0x48, [0xB8, 0xB9, 0xBF][next]] + LowBytes(v, 8)
    else if 3 <= next < 6 then [0x49, 0xB5 + next] + LowBytes(v, 8)
    else []
  }

  function CallListing(next: Int32): seq<Byte> {
    if 0 <= next < 3 then [0xFF, [0xD0, 0xD1, 0xD7][next]]
    else if 3 <= next < 6 then [0xFF, 0x41, 0xCD + next]
    else []
  }

  /** `MOV eax, r32` unless `a` is eax itself; `MOV rsp, rbp`; `POP rbp`; `RET`. */
  function ReturnListing(a: Reg): seq<Byte> {
    (if a == 0 then [] else if a < 8 then [0x8B, 0xC0 + a] else [0x41, 0x8B, 0xB8 + a])
    + [0x48, 0x8B, 0xE5, 0x5D, 0xC3]
  }

  function OpListing(st: Asm, op: AsmOp): seq<Byte> {
    match op
    case EmitPrologue => [0x0F, 0x1F, 0x44, 0x00, 0x00, 0x55, 0x48, 0x8B, 0xEC] + SlotListing(st.frame, 8)
    case EmitEpilogue => [0xE8, 0xAD, 0xDE, 0xAD, 0xDE]
    case EmitGrowStack(n) => [0x48, 0x81, 0xEC] + LowBytes(n, 4)
    case EmitLoadLong(v) => LoadListing(st.next, v)
    case EmitCall(addr) => LoadListing(st.next, addr) + CallListing(st.next)
    case EmitIntRet(a) => ReturnListing(a)
    case NewStackSlot(n) => SlotListing(st.frame, n)
  }

  lemma SlotInNumbers(f: Frame, n: Int32)
    ensures Bytes(GrowItems(f, n)) == SlotListing(f, n)
  {
    hide LowBytes;
    var subs := Grow(f, n, ALIGNMENT).1;
    if subs != [] {
      BytesOfOne(GrowStack(subs[0]));
    }
  }

  lemma CallInNumbers(next: Int32, v: Int64)
    requires InPool(next)
    ensures Bytes([LoadLong(POOL[next], v)]) == LoadListing(next, v)
    ensures Bytes([LoadLong(POOL[next], v), CallVia(POOL[next])]) == LoadListing(next, v) + CallListing(next)
  {
    hide LowBytes;
    BytesOfOne(LoadLong(POOL[next], v));
    BytesOfTwo(LoadLong(POOL[next], v), CallVia(POOL[next]));
  }

  lemma ReturnInNumbers(a: Reg)
    ensures Bytes(IntRetItems(a)) == ReturnListing(a)
  {
    assert ItemBytes(Move(true, RSP, RBP)) == [0x48, 0x8B, 0xE5];
    assert ItemBytes(PopRbp) == [0x5D] && ItemBytes(Return) == [0xC3];
    BytesOfThree(Move(true, RSP, RBP), PopRbp, Return);
    BytesAppend(MoveItems(false, RAX, a), [Move(true, RSP, RBP), PopRbp, Return]);
    if a != 0 {
      BytesOfOne(Move(false, RAX, a));
    }
  }

  lemma PrologueInNumbers(f: Frame)
    ensures Bytes(PrologueItems(f)) == [0x0F, 0x1F, 0x44, 0x00, 0x00, 0x55, 0x48, 0x8B, 0xEC] + SlotListing(f, 8)
  {
    assert ItemBytes(Move(true, RBP, RSP)) == [0x48, 0x8B, 0xEC];
    assert ItemBytes(FatNop) + ItemBytes(PushRbp) == [0x0F, 0x1F, 0x44, 0x00, 0x00, 0x55];
    hide ItemBytes, SlotListing;
    BytesOfThree(FatNop, PushRbp, Move(true, RBP, RSP));
    BytesAppend([FatNop, PushRbp, Move(true, RBP, RSP)], GrowItems(f, 8));
    SlotInNumbers(f, 8);
  }

  /** 0xDEADDEAD is stored low byte first. */
  lemma EpilogueInNumbers()
    ensures Bytes([DeoptCall]) == [0xE8, 0xAD, 0xDE, 0xAD, 0xDE]
  {
    BytesOfOne(DeoptCall);
    var v := DEAD_DEAD;
    assert v % 0x100 == 0xAD && v / 0x100 % 0x100 == 0xDE;
    LowBytesOfFour(v);
  }

  lemma LowBytesOfFour(v: int)
    ensures LowBytes(v, 4)
         == [v % 0x100, v / 0x100 % 0x100, v / 0x100 / 0x100 % 0x100, v / 0x100 / 0x100 / 0x100 % 0x100]
  {
    assert LowBytes(v / 0x100 / 0x100 / 0x100, 1) == [v / 0x100 / 0x100 / 0x100 % 0x100];
    assert LowBytes(v / 0x100 / 0x100, 2) == [v / 0x100 / 0x100 % 0x100] + LowBytes(v / 0x100 / 0x100 / 0x100, 1);
    assert LowBytes(v / 0x100, 3) == [v / 0x100 % 0x100] + LowBytes(v / 0x100 / 0x100, 2);
  }

  /** Whatever the assembler's state, each operation appends exactly the bytes listed. */
  lemma OperationsInNumbers(st: Asm, op: AsmOp)
    ensures Apply(st, op).code == st.code + OpListing(st, op)
  {
    hide Bytes, ItemBytes, IntRetItems, ReturnListing, PrologueItems, GrowItems, SlotListing, Grow;
    match op
    case EmitPrologue => PrologueInNumbers(st.frame);
    case EmitEpilogue => EpilogueInNumbers();
    case EmitGrowStack(n) => GrowStackInNumbers(n);
    case EmitLoadLong(v) => LoadOrThrow(st, v);
    case EmitCall(addr) => LoadOrThrow(st, addr);
    case EmitIntRet(a) => ReturnInNumbers(a);
    case NewStackSlot(n) => SlotInNumbers(st.frame, n);
  }

  lemma GrowStackInNumbers(n: Int32)
    ensures Bytes([GrowStack(n)]) == [0x48, 0x81, 0xEC] + LowBytes(n, 4)
  {
    hide LowBytes;
    BytesOfOne(GrowStack(n));
  }

  lemma LoadOrThrow(st: Asm, v: Int64)
    ensures Bytes(OpItems(st, EmitLoadLong(v))) == LoadListing(st.next, v)
    ensures Bytes(OpItems(st, EmitCall(v))) == LoadListing(st.next, v) + CallListing(st.next)
  {
    hide ItemBytes, LowBytes;
    if InPool(st.next) {
      CallInNumbers(st.next, v);
    }
  }

  // ----- stubs -----

  /** The 38 bytes of a first injection. */
  lemma FreshCodeInNumbers(addr: Int64)
    ensures FreshCode(addr)
         == [0x0F, 0x1F, 0x44, 0x00, 0x00, 0x55, 0x48, 0x8B, 0xEC, 0x48, 0x81, 0xEC, 0x10, 0x00, 0x00, 0x00, 0x48, 0xB8]
          + LowBytes(addr, 8)
          + [0xFF, 0xD0, 0x48, 0x8B, 0xE5, 0x5D, 0xC3, 0xE8, 0xAD, 0xDE, 0xAD, 0xDE]
  {
    hide FreshCode, Bytes, ItemBytes, LowBytes;
    var imm := LowBytes(addr, 8);
    var prologue := [0x0F, 0x1F, 0x44, 0x00, 0x00, 0x55, 0x48, 0x8B, 0xEC, 0x48, 0x81, 0xEC, 0x10, 0x00, 0x00, 0x00];
    var ret, deopt := [0x48, 0x8B, 0xE5, 0x5D, 0xC3], [0xE8, 0xAD, 0xDE, 0xAD, 0xDE];
    FirstPrologueInNumbers();
    FirstCallInNumbers(addr);
    ReturnInNumbers(0);
    assert IntRetItems(0) == [Move(true, RSP, RBP), PopRbp, Return] && ReturnListing(0) == ret;
    EpilogueInNumbers();
    BytesOfOne(DeoptCall);
    FreshCodeSplits(addr);
    Regroup(prologue, [0x48, 0xB8], imm, [0xFF, 0xD0], ret, deopt);
  }

  lemma Regroup(a: seq<Byte>, b: seq<Byte>, c: seq<Byte>, d: seq<Byte>, e: seq<Byte>, f: seq<Byte>)
    ensures a + (b + c + d) + e + f == a + b + c + (d + e + f)
  {
  }

  lemma FirstPrologueInNumbers()
    ensures Bytes(FIRST_PROLOGUE)
         == [0x0F, 0x1F, 0x44, 0x00, 0x00, 0x55, 0x48, 0x8B, 0xEC, 0x48, 0x81, 0xEC, 0x10, 0x00, 0x00, 0x00]
  {
    hide Bytes, ItemBytes, LowBytes;
    var start := Frame(16, 16);
    assert Grow(start, 8, 16) == (Frame(32, 24), [16]);
    assert PrologueItems(start) == FIRST_PROLOGUE;
    LowBytesOfFour(16);
    PrologueInNumbers(start);
  }

  lemma FirstCallInNumbers(addr: Int64)
    ensures Bytes([LoadLong(RAX, addr), CallVia(RAX)]) == [0x48, 0xB8] + LowBytes(addr, 8) + [0xFF, 0xD0]
  {
    hide Bytes, ItemBytes, LowBytes;
    CallInNumbers(0, addr);
  }

  /** The bytes any injection appends, on whatever state, when it hands something over. */
  lemma InjectionInNumbers(st: Asm, addr: Int64)
    requires InPool(st.next)
    ensures Inject(st, addr).0.code
         == st.code + OpListing(st, EmitPrologue) + LoadListing(st.next, addr) + CallListing(st.next)
          + [0x48, 0x8B, 0xE5, 0x5D, 0xC3, 0xE8, 0xAD, 0xDE, 0xAD, 0xDE]
  {
    hide Bytes, Inject, LoadListing, CallListing, SlotListing, Grow, OpItems;
    InjectUnfolds(st, addr);
    var p := Apply(st, EmitPrologue);
    var c := Apply(p, EmitCall(addr));
    OperationsInNumbers(st, EmitPrologue);
    OperationsInNumbers(p, EmitCall(addr));
    OperationsInNumbers(c, EmitIntRet(RAX));
    OperationsInNumbers(Apply(c, EmitIntRet(RAX)), EmitEpilogue);
    var ret, deopt := [0x48, 0x8B, 0xE5, 0x5D, 0xC3], [0xE8, 0xAD, 0xDE, 0xAD, 0xDE];
    assert ReturnListing(RAX) == ret;
    assert c.code == st.code + OpListing(st, EmitPrologue) + LoadListing(st.next, addr) + CallListing(st.next);
    assert c.code + ret + deopt == c.code + (ret + deopt);
  }

  // ----- the array they are in -----

  /** The calls on the buffer of a first injection, in order: one for each byte written as
      such, and one for each of the three wider values. */
  function InjectionEmits(addr: Int64): seq<Buffers.BufferOp> {
    Head(addr) + Puts([0x5D]) + Tail()
  }

  function Head(addr: Int64): seq<Buffers.BufferOp> {
    Puts([0x0F, 0x1F, 0x44, 0x00, 0x00, 0x55, 0x48, 0x8B, 0xEC, 0x48, 0x81, 0xEC])
    + ([Buffers.PutInt(16)] + (Puts([0x48, 0xB8])
    + ([Buffers.PutLong(addr)] + Puts([0xFF, 0xD0, 0x48, 0x8B, 0xE5]))))
  }

  function Tail(): seq<Buffers.BufferOp> {
    Puts([0xC3, 0xE8]) + [Buffers.PutInt(0xDEAD_DEAD - 0x1_0000_0000)]
  }

  function Puts(bytes: seq<Byte>): (ops: seq<Buffers.BufferOp>)
    ensures forall op :: op in ops ==> op.PutByte?
  {
    if bytes == [] then [] else [Buffers.PutByte(bytes[0])] + Puts(bytes[1..])
  }

  lemma {:induction false} MeaningAppend(sofar: seq<Byte>, xs: seq<Buffers.BufferOp>, ys: seq<Buffers.BufferOp>)
    requires forall op :: op in xs + ys ==> !op.Align?
    ensures (forall op :: op in xs ==> !op.Align?) && (forall op :: op in ys ==> !op.Align?)
    ensures Buffers.Meaning(LittleEndian, sofar, xs + ys)
         == Buffers.Meaning(LittleEndian, Buffers.Meaning(LittleEndian, sofar, xs), ys)
    decreases |xs|
  {
    assert forall op :: op in xs ==> op in xs + ys;
    assert forall op :: op in ys ==> op in xs + ys;
    if xs == [] {
      assert xs + ys == ys;
    } else {
      assert (xs + ys)[0] == xs[0] && (xs + ys)[1..] == xs[1..] + ys;
      MeaningAppend(sofar + Buffers.EmittedBytes(LittleEndian, xs[0]), xs[1..], ys);
    }
  }

  lemma {:induction false} MeaningOfPuts(sofar: seq<Byte>, bytes: seq<Byte>)
    ensures Buffers.Meaning(LittleEndian, sofar, Puts(bytes)) == sofar + bytes
    decreases |bytes|
  {
    hide LowBytes;
    if bytes == [] {
      assert sofar + bytes == sofar;
    } else {
      var first, rest := [bytes[0]], bytes[1..];
      ByteAlone(bytes[0]);
      assert Puts(bytes)[1..] == Puts(rest);
      MeaningOfPuts(sofar + first, rest);
      AppendAssociates(sofar, first, rest);
      assert bytes == first + rest;
    }
  }

  lemma ByteAlone(b: Byte)
    ensures LowBytes(b, 1) == [b]
  {
    assert LowBytes(b / 0x100, 0) == [];
  }

  lemma MeaningOfOne(sofar: seq<Byte>, op: Buffers.BufferOp)
    requires !op.Align?
    ensures Buffers.Meaning(LittleEndian, sofar, [op]) == sofar + Buffers.EmittedBytes(LittleEndian, op)
  {
    hide LowBytes;
    assert [op][1..] == [];
  }

  /** 31 bytes: one short of the capacity. */
  lemma MeaningOfHead(addr: Int64)
    ensures forall op :: op in Head(addr) ==> !op.Align?
    ensures Buffers.Meaning(LittleEndian, [], Head(addr))
         == [0x0F, 0x1F, 0x44, 0x00, 0x00, 0x55, 0x48, 0x8B, 0xEC, 0x48, 0x81, 0xEC, 0x10, 0x00, 0x00, 0x00, 0x48, 0xB8]
          + LowBytes(addr, 8) + [0xFF, 0xD0, 0x48, 0x8B, 0xE5]
  {
    hide LowBytes, Puts, Buffers.Meaning;
    var a := [0x0F, 0x1F, 0x44, 0x00, 0x00, 0x55, 0x48, 0x8B, 0xEC, 0x48, 0x81, 0xEC];
    var b, c := [0x48, 0xB8], [0xFF, 0xD0, 0x48, 0x8B, 0xE5];
    var long, int4 := Buffers.PutLong(addr), Buffers.PutInt(16);
    LowBytesOfFour(16);
    MeaningAppend([], Puts(a), [int4] + (Puts(b) + ([long] + Puts(c))));
    MeaningOfPuts([], a);
    assert [] + a == a;
    MeaningAppend(a, [int4], Puts(b) + ([long] + Puts(c)));
    MeaningOfOne(a, int4);
    var d := a + [0x10, 0x00, 0x00, 0x00];
    MeaningAppend(d, Puts(b), [long] + Puts(c));
    MeaningOfPuts(d, b);
    MeaningAppend(d + b, [long], Puts(c));
    MeaningOfOne(d + b, long);
    MeaningOfPuts(d + b + LowBytes(addr, 8), c);
    assert d + b == [0x0F, 0x1F, 0x44, 0x00, 0x00, 0x55, 0x48, 0x8B, 0xEC, 0x48, 0x81, 0xEC, 0x10, 0x00, 0x00, 0x00, 0x48, 0xB8];
  }

  lemma MeaningOfTail(sofar: seq<Byte>)
    ensures forall op :: op in Tail() ==> !op.Align?
    ensures Buffers.Meaning(LittleEndian, sofar, Tail()) == sofar + [0xC3, 0xE8, 0xAD, 0xDE, 0xAD, 0xDE]
  {
    hide LowBytes, Puts, Buffers.Meaning;
    var op := Buffers.PutInt(0xDEAD_DEAD - 0x1_0000_0000);
    MeaningAppend(sofar, Puts([0xC3, 0xE8]), [op]);
    MeaningOfPuts(sofar, [0xC3, 0xE8]);
    MeaningOfOne(sofar + [0xC3, 0xE8], op);
    LowBytesOfFour(op.i);
    AppendAssociates(sofar, [0xC3, 0xE8], [0xAD, 0xDE, 0xAD, 0xDE]);
  }

  /** The 32nd byte of a first injection, its POP, finds the array full as `ensureSize`
      counts: the one reallocation copies 32 bytes into an array of 128, where the others
      fit. What `finish` takes from it are the 38 bytes listed. */
  lemma FirstInjectionGrowsOnce(addr: Int64)
    ensures var s := Buffers.Run(Buffers.Fresh(LittleEndian), InjectionEmits(addr));
      && Buffers.Finish(s) == FreshCode(addr)
      && s.pos == 38 && |s.store| == 128 && s.copied == 32
  {
    hide LowBytes, Puts, Buffers.Meaning, Buffers.Run, Head, Tail, FreshCode, Buffers.Emit, Buffers.Finish;
    var s := Buffers.Fresh(LittleEndian);
    HeadRuns(addr);
    var t := Buffers.Run(s, Head(addr));
    Buffers.RunSplits(s, Head(addr) + Puts([0x5D]), Tail());
    Buffers.RunSplits(s, Head(addr), Puts([0x5D]));
    OnePut(t, 0x5D);
    var u := Buffers.Run(t, Puts([0x5D]));
    Buffers.EmitGrows(t, [0x5D]);
    Buffers.EmitAppends(t, [0x5D]);
    TailRuns(u);
    FreshCodeInNumbers(addr);
    RegroupEnd(
      [0x0F, 0x1F, 0x44, 0x00, 0x00, 0x55, 0x48, 0x8B, 0xEC, 0x48, 0x81, 0xEC, 0x10, 0x00, 0x00, 0x00, 0x48, 0xB8] + LowBytes(addr, 8),
      [0xFF, 0xD0, 0x48, 0x8B, 0xE5], [0x5D], [0xC3, 0xE8, 0xAD, 0xDE, 0xAD, 0xDE]);
  }

  lemma HeadRuns(addr: Int64)
    ensures var t := Buffers.Run(Buffers.Fresh(LittleEndian), Head(addr));
      && Buffers.Valid(t) && t.order == LittleEndian && t.pos == 31 && |t.store| == 32 && t.copied == 0
      && Buffers.Finish(t) ==
         [0x0F, 0x1F, 0x44, 0x00, 0x00, 0x55, 0x48, 0x8B, 0xEC, 0x48, 0x81, 0xEC, 0x10, 0x00, 0x00, 0x00, 0x48, 0xB8]
         + LowBytes(addr, 8) + [0xFF, 0xD0, 0x48, 0x8B, 0xE5]
  {
    hide LowBytes, Buffers.Meaning, Buffers.Run, Head;
    Buffers.FreshIsValid(LittleEndian);
    MeaningOfHead(addr);
    Buffers.RunWithoutGrowth(Buffers.Fresh(LittleEndian), Head(addr));
  }

  lemma TailRuns(u: Buffers.Buffer)
    requires Buffers.Valid(u) && u.order == LittleEndian && u.pos == 32 && |u.store| == 128
    ensures var v := Buffers.Run(u, Tail());
      && v.pos == 38 && |v.store| == 128 && v.copied == u.copied
      && Buffers.Finish(v) == Buffers.Finish(u) + [0xC3, 0xE8, 0xAD, 0xDE, 0xAD, 0xDE]
  {
    hide Buffers.Meaning, Buffers.Run, Tail;
    MeaningOfTail(Buffers.Finish(u));
    Buffers.RunWithoutGrowth(u, Tail());
  }

  lemma RegroupEnd(a: seq<Byte>, b: seq<Byte>, c: seq<Byte>, d: seq<Byte>)
    ensures a + b + c + d == a + (b + c + d)
  {
  }

  lemma OnePut(s: Buffers.Buffer, b: Byte)
    requires s.pos <= |s.store| && s.order == LittleEndian
    ensures Buffers.Run(s, Puts([b])) == Buffers.Emit(s, [b]).0
  {
    hide Buffers.Emit, LowBytes;
    ByteAlone(b);
    assert Puts([b]) == [Buffers.PutByte(b)] by {
      assert [b][1..] == [];
    }
    assert Puts([b])[1..] == [];
  }
}
