/** The assembler object. `AMD64Assembler` and the base class it extends are one class
    here: the base class's fields and methods come first. */
module Amd64Assemblers {
  import opened JavaInts
  import opened Outcomes
  import opened Decoder
  import opened Encoder
  import opened Frames
  import opened AssemblerSpec
  import opened CodeBuffers
  import BufferSpec

  lemma PrologueBytes(f: Frame)
    ensures Bytes(PrologueItems(f))
         == ItemBytes(FatNop) + [0x55] + Bytes(MoveItems(true, RBP, RSP)) + Bytes(GrowItems(f, QWORD))
  {
    hide GrowItems;
    assert ItemBytes(PushRbp) == [0x55];
    hide ItemBytes;
    BytesOfThree(FatNop, PushRbp, Move(true, RBP, RSP));
    BytesOfOne(Move(true, RBP, RSP));
    BytesAppend([FatNop, PushRbp, Move(true, RBP, RSP)], GrowItems(f, QWORD));
  }

  lemma CallBytes(st: Asm, addr: Int64)
    ensures !InPool(st.next) ==> OpItems(st, EmitLoadLong(addr)) == OpItems(st, EmitCall(addr)) == []
    ensures InPool(st.next) ==>
      var r := POOL[st.next];
      && Bytes(OpItems(st, EmitLoadLong(addr))) == ItemBytes(LoadLong(r, addr))
      && Bytes(OpItems(st, EmitCall(addr))) == ItemBytes(LoadLong(r, addr)) + ItemBytes(CallVia(r))
  {
    hide ItemBytes;
    if InPool(st.next) {
      var r := POOL[st.next];
      BytesOfOne(LoadLong(r, addr));
      BytesOfTwo(LoadLong(r, addr), CallVia(r));
    }
  }

  lemma IntRetBytes(a: Reg)
    ensures Bytes(IntRetItems(a))
         == Bytes(MoveItems(false, RAX, a)) + Bytes(MoveItems(true, RSP, RBP)) + [0x5D] + [0xC3]
  {
    assert ItemBytes(PopRbp) == [0x5D] && ItemBytes(Return) == [0xC3];
    hide ItemBytes;
    BytesAppend(MoveItems(false, RAX, a), [Move(true, RSP, RBP), PopRbp, Return]);
    BytesOfThree(Move(true, RSP, RBP), PopRbp, Return);
    BytesOfOne(Move(true, RSP, RBP));
  }

  class Amd64Assembler {
    const code: CodeBuffer
    var sites: seq<Site>
    var frameSize: Int32
    const stackAlignment: Int32
    var curStackSlot: Int32
    var deoptRescue: Option<Slot>
    const registers: seq<Reg>
    var nextRegister: Int32

    ghost function Repr(): set<object>
      reads this, code, code.data
    {
      {this} + code.Repr()
    }

    ghost predicate Valid()
      reads this, code, code.data, code.data.hb
    {
      && code.Valid() && code.data.order == LittleEndian
      && stackAlignment == ALIGNMENT && registers == POOL
    }

    ghost function State(): Asm
      requires Valid()
      reads this, code, code.data, code.data.hb
    {
      Asm(code.Contents(), sites, Frame(frameSize, curStackSlot), nextRegister, deoptRescue)
    }

    /** `bytes` were appended, or an exception stopped that part way; none does while
        there is room. What was written before is never touched. */
    twostate predicate Wrote(o: Outcome, bytes: seq<Byte>)
      requires old(Valid()) && Valid()
      reads this, code, code.data, code.data.hb
    {
      && (o.Done? ==> code.Contents() == old(code.Contents()) + bytes)
      && old(code.Contents()) <= code.Contents()
      && (|old(code.Contents())| + |bytes| < BufferSpec.ROOM ==> o.Done?)
    }

    /** On the machines this assembler is for, the native byte order is little-endian. */
    constructor ()
      ensures Valid() && fresh(Repr())
      ensures State() == Fresh()
      ensures frameSize == 16 && curStackSlot == 16 && stackAlignment == 16
      ensures registers == [0, 1, 7, 8, 9, 10] && nextRegister == 0
    {
      code := new CodeBuffer(LittleEndian);
      sites := [];
      frameSize, stackAlignment, curStackSlot := 16, 16, 16;
      deoptRescue := None;
      registers := [RAX, RCX, RDI, R8, R9, R10];
      nextRegister := 0;
    }

    // ----- the base class -----

    /** The index is advanced before the array access that may throw. */
    method NewRegister() returns (o: Outcome, r: Reg)
      requires Valid()
      modifies this`nextRegister
      ensures Valid() && nextRegister == Wrap32(old(nextRegister) + 1)
      ensures o == if InPool(old(nextRegister)) then Done else Threw(ArrayIndexOutOfBounds)
      ensures o.Done? ==> r == POOL[old(nextRegister)]
    {
      var i := nextRegister;
      nextRegister := Wrap32(nextRegister + 1);
      if !(0 <= i < |registers|) {
        return Threw(ArrayIndexOutOfBounds), 0;
      }
      return Done, registers[i];
    }

    method GrowFrame(sizeInBytes: Int32) returns (o: Outcome)
      requires Valid()
      modifies this`frameSize, this`curStackSlot, code, code.data, code.data.hb
      ensures Valid() && code.OldOrFresh()
      ensures Wrote(o, Bytes(GrowItems(old(Frame(frameSize, curStackSlot)), sizeInBytes)))
      ensures o.Done? ==> Frame(frameSize, curStackSlot) == Grow(old(Frame(frameSize, curStackSlot)), sizeInBytes, ALIGNMENT).0
    {
      hide BufferSpec.Step, CodeBuffer.State, CodeBuffer.Contents, CodeBuffer.Valid, ByteBuffer.Valid, BitOr, LowBytes;
      curStackSlot := Wrap32(curStackSlot + sizeInBytes);
      if curStackSlot > frameSize {
        var newFrameSize := curStackSlot;
        if Rem(newFrameSize, stackAlignment) != 0 {
          newFrameSize := Wrap32(newFrameSize + (stackAlignment - Rem(newFrameSize, stackAlignment)));
        }
        BytesOfOne(GrowStack(Wrap32(newFrameSize - frameSize)));
        :- EmitGrowStack(Wrap32(newFrameSize - frameSize));
        frameSize := newFrameSize;
      }
      return Done;
    }

    method NewStackSlot(kindSize: Int32) returns (o: Outcome, slot: Slot)
      requires Valid()
      modifies this`frameSize, this`curStackSlot, code, code.data, code.data.hb
      ensures Valid() && code.OldOrFresh()
      ensures Wrote(o, Bytes(GrowItems(old(Frame(frameSize, curStackSlot)), kindSize)))
      ensures o.Done? ==> State() == Apply(old(State()), AsmOp.NewStackSlot(kindSize))
      ensures o.Done? ==> slot == SlotOf(State().frame, kindSize)
    {
      hide BufferSpec.Step, CodeBuffer.State, CodeBuffer.Contents, CodeBuffer.Valid, ByteBuffer.Valid, BitOr, LowBytes;
      slot := Slot(0, 0);
      :- GrowFrame(kindSize);
      slot := Slot(Wrap32(0 - curStackSlot), kindSize);
      return Done, slot;
    }

    method RecordMark()
      requires Valid()
      modifies this`sites
      ensures Valid() && sites == old(sites) + [Mark(|code.Contents()|)]
    {
      sites := sites + [Mark(code.Position())];
    }

    method RecordCall(size: nat)
      requires Valid()
      modifies this`sites
      ensures Valid() && sites == old(sites) + [CallSite(|code.Contents()|, size)]
    {
      sites := sites + [CallSite(code.Position(), size)];
    }

    /** The code, sites and frame part of `finish`. */
    method Finish() returns (o: Outcome, result: Finished)
      requires Valid()
      ensures o.Done? && result == AssemblerSpec.Finish(State())
      ensures result.code == code.Contents() && result.sites == sites
      ensures result.frameSize == frameSize && result.deopt == deoptRescue
      ensures |result.code| < 0x8000_0000
    {
      var done, finishedCode := code.Finish();
      result := Finished(finishedCode[..], sites, frameSize, deoptRescue);
      return done, result;
    }

    // ----- the encoder -----

    /** One byte that is given as such, not computed. */
    method EmitOpcode(b: Byte) returns (o: Outcome)
      requires Valid()
      modifies code, code.data, code.data.hb
      ensures Valid() && code.OldOrFresh()
      ensures Wrote(o, [b])
    {
      hide BufferSpec.Step, CodeBuffer.State, CodeBuffer.Contents, CodeBuffer.Valid, ByteBuffer.Valid;
      o := code.EmitByte(b);
    }

    method EmitFatNop() returns (o: Outcome)
      requires Valid()
      modifies code, code.data, code.data.hb
      ensures Valid() && code.OldOrFresh()
      ensures Wrote(o, ItemBytes(FatNop))
    {
      hide BufferSpec.Step, CodeBuffer.State, CodeBuffer.Contents, CodeBuffer.Valid, ByteBuffer.Valid, BitOr, LowBytes;
      assert ItemBytes(FatNop) == [0x0F] + [0x1F] + [0x44] + [0x00] + [0x00];
      hide Amd64Assembler.State, ItemBytes;
      :- EmitOpcode(0x0F);
      :- EmitOpcode(0x1F);
      :- EmitOpcode(0x44);
      :- EmitOpcode(0x00);
      :- EmitOpcode(0x00);
      return Done;
    }

    method EmitREX(w: bool, r: Reg, x: Reg, b: Reg) returns (o: Outcome)
      requires Valid()
      modifies code, code.data, code.data.hb
      ensures Valid() && code.OldOrFresh()
      ensures Wrote(o, RexBytes(w, r, x, b))
    {
      hide BufferSpec.Step, CodeBuffer.State, CodeBuffer.Contents, CodeBuffer.Valid, ByteBuffer.Valid, BitOr, LowBytes;
      var wrxb := BitOr(BitOr(BitOr(if w then 0x08 else 0, r / 8 * 4), x / 8 * 2), b / 8);
      OrOfFlags(if w then 0x08 else 0, r / 8 * 4, x / 8 * 2, b / 8);
      if wrxb != 0 {
        OrIsSum(0x40, wrxb, 16);
        :- code.EmitByte(BitOr(0x40, wrxb));
      }
      return Done;
    }

    method EmitModRMReg(w: bool, opcode: Byte, r: Reg, m: Reg) returns (o: Outcome)
      requires Valid()
      modifies code, code.data, code.data.hb
      ensures Valid() && code.OldOrFresh()
      ensures Wrote(o, RexBytes(w, r, 0, m) + [opcode, ModRMByte(r, m)])
    {
      hide BufferSpec.Step, CodeBuffer.State, CodeBuffer.Contents, CodeBuffer.Valid, ByteBuffer.Valid, BitOr, LowBytes;
      :- EmitREX(w, r, 0, m);
      :- code.EmitByte(JavaByte(opcode));
      OrOfModRM(r % 8 * 8, m % 8);
      :- code.EmitByte(BitOr(BitOr(JavaByte(0xC0), r % 8 * 8), m % 8));
      return Done;
    }

    method EmitMove(w: bool, to: Reg, from: Reg) returns (o: Outcome)
      requires Valid()
      modifies code, code.data, code.data.hb
      ensures Valid() && code.OldOrFresh()
      ensures Wrote(o, Bytes(MoveItems(w, to, from)))
    {
      hide BufferSpec.Step, CodeBuffer.State, CodeBuffer.Contents, CodeBuffer.Valid, ByteBuffer.Valid, BitOr, LowBytes;
      BytesOfOne(Move(w, to, from));
      if to != from {
        :- EmitModRMReg(w, 0x8B, to, from);
      }
      return Done;
    }

    method LoadLongInto(ret: Reg, c: Int64) returns (o: Outcome)
      requires Valid()
      modifies code, code.data, code.data.hb
      ensures Valid() && code.OldOrFresh()
      ensures Wrote(o, ItemBytes(LoadLong(ret, c)))
    {
      hide BufferSpec.Step, CodeBuffer.State, CodeBuffer.Contents, CodeBuffer.Valid, ByteBuffer.Valid, BitOr, LowBytes;
      assert ItemBytes(LoadLong(ret, c)) == RexBytes(true, 0, 0, ret) + [0xB8 + ret % 8] + StoreBytes(LittleEndian, c, 8);
      hide ItemBytes, RexBytes;
      OrIsSum(0xB8, ret % 8, 8);
      :- EmitREX(true, 0, 0, ret);
      :- code.EmitByte(BitOr(0xB8, ret % 8));
      :- code.EmitLong(c);
      return Done;
    }

    // ----- the public operations -----

    method EmitPrologue() returns (o: Outcome)
      requires Valid()
      modifies this`frameSize, this`curStackSlot, this`deoptRescue, code, code.data, code.data.hb
      ensures Valid() && code.OldOrFresh()
      ensures Wrote(o, Bytes(OpItems(old(State()), AsmOp.EmitPrologue)))
      ensures o.Done? ==> State() == Apply(old(State()), AsmOp.EmitPrologue)
    {
      hide BufferSpec.Step, CodeBuffer.State, CodeBuffer.Contents, CodeBuffer.Valid, ByteBuffer.Valid, BitOr, LowBytes;
      PrologueBytes(Frame(frameSize, curStackSlot));
      hide Bytes, ItemBytes, GrowItems, MoveItems, PrologueItems;
      :- EmitEntry();
      var slot :- NewStackSlot(8);
      deoptRescue := Some(slot);
      return Done;
    }

    /** The bytes of the prologue before its stack slot. */
    method EmitEntry() returns (o: Outcome)
      requires Valid()
      modifies code, code.data, code.data.hb
      ensures Valid() && code.OldOrFresh()
      ensures Wrote(o, ItemBytes(FatNop) + [0x55] + Bytes(MoveItems(true, RBP, RSP)))
    {
      hide BufferSpec.Step, CodeBuffer.State, CodeBuffer.Contents, CodeBuffer.Valid, ByteBuffer.Valid, BitOr, LowBytes;
      hide Bytes, ItemBytes, MoveItems, Amd64Assembler.State;
      :- EmitFatNop();
      OrIsSum(0x50, RBP, 8);
      :- code.EmitByte(BitOr(0x50, RBP));
      :- EmitMove(true, RBP, RSP);
      return Done;
    }

    method EmitEpilogue() returns (o: Outcome)
      requires Valid()
      modifies this`sites, code, code.data, code.data.hb
      ensures Valid() && code.OldOrFresh()
      ensures Wrote(o, Bytes(OpItems(old(State()), AsmOp.EmitEpilogue)))
      ensures o.Done? ==> State() == Apply(old(State()), AsmOp.EmitEpilogue)
      ensures sites == old(sites) + [Mark(|old(code.Contents())|), CallSite(|old(code.Contents())|, 5)]
    {
      hide BufferSpec.Step, CodeBuffer.State, CodeBuffer.Contents, CodeBuffer.Valid, ByteBuffer.Valid, BitOr, LowBytes;
      BytesOfOne(DeoptCall);
      RecordMark();
      RecordCall(5);
      :- code.EmitByte(0xE8);
      :- code.EmitInt(0xDEAD_DEAD - 0x1_0000_0000);
      return Done;
    }

    method EmitGrowStack(size: Int32) returns (o: Outcome)
      requires Valid()
      modifies code, code.data, code.data.hb
      ensures Valid() && code.OldOrFresh()
      ensures Wrote(o, ItemBytes(GrowStack(size)))
      ensures o.Done? ==> State() == Apply(old(State()), AsmOp.EmitGrowStack(size))
    {
      hide BufferSpec.Step, CodeBuffer.State, CodeBuffer.Contents, CodeBuffer.Valid, ByteBuffer.Valid, BitOr, LowBytes;
      BytesOfOne(GrowStack(size));
      ghost var st := State();
      assert Apply(st, AsmOp.EmitGrowStack(size)) == st.(code := st.code + ItemBytes(GrowStack(size)));
      assert ItemBytes(GrowStack(size)) == [0x48] + [0x81] + [0xEC] + StoreBytes(LittleEndian, size, 4);
      hide ItemBytes, Bytes, Apply;
      :- EmitOpcode(0x48);
      :- EmitOpcode(0x81);
      :- EmitOpcode(0xEC);
      :- code.EmitInt(size);
      return Done;
    }

    method EmitLoadLong(c: Int64) returns (o: Outcome, ret: Reg)
      requires Valid()
      modifies this`nextRegister, code, code.data, code.data.hb
      ensures Valid() && code.OldOrFresh()
      ensures Throws(old(State()), AsmOp.EmitLoadLong(c)) ==> o == Threw(ArrayIndexOutOfBounds)
      ensures Throws(old(State()), AsmOp.EmitLoadLong(c)) || Wrote(o, Bytes(OpItems(old(State()), AsmOp.EmitLoadLong(c))))
      ensures o.Done? || Throws(old(State()), AsmOp.EmitLoadLong(c)) ==> State() == Apply(old(State()), AsmOp.EmitLoadLong(c))
      ensures o.Done? ==> ret == POOL[old(nextRegister)]
    {
      hide BufferSpec.Step, CodeBuffer.State, CodeBuffer.Contents, CodeBuffer.Valid, ByteBuffer.Valid, BitOr, LowBytes;
      ret := 0;
      var r :- NewRegister();
      BytesOfOne(LoadLong(r, c));
      :- LoadLongInto(r, c);
      return Done, r;
    }

    method EmitCall(addr: Int64) returns (o: Outcome)
      requires Valid()
      modifies this`nextRegister, code, code.data, code.data.hb
      ensures Valid() && code.OldOrFresh()
      ensures Throws(old(State()), AsmOp.EmitCall(addr)) ==> o == Threw(ArrayIndexOutOfBounds)
      ensures Throws(old(State()), AsmOp.EmitCall(addr)) || Wrote(o, Bytes(OpItems(old(State()), AsmOp.EmitCall(addr))))
      ensures o.Done? || Throws(old(State()), AsmOp.EmitCall(addr)) ==> State() == Apply(old(State()), AsmOp.EmitCall(addr))
    {
      hide BufferSpec.Step, CodeBuffer.State, CodeBuffer.Contents, CodeBuffer.Valid, ByteBuffer.Valid, BitOr, LowBytes;
      hide Bytes, ItemBytes, OpItems;
      CallBytes(State(), addr);
      var target :- EmitLoadLong(addr);
      :- CallRegister(target);
      return Done;
    }

    /** The bytes after the load in `emitCall`. */
    method CallRegister(target: Reg) returns (o: Outcome)
      requires Valid()
      modifies code, code.data, code.data.hb
      ensures Valid() && code.OldOrFresh()
      ensures Wrote(o, ItemBytes(CallVia(target)))
    {
      hide BufferSpec.Step, CodeBuffer.State, CodeBuffer.Contents, CodeBuffer.Valid, ByteBuffer.Valid, BitOr, LowBytes;
      :- code.EmitByte(0xFF);
      var enc := target;
      if enc >= 8 {
        :- code.EmitByte(0x41);
        enc := enc - 8;
      }
      OrIsSum(0xD0, enc, 8);
      :- code.EmitByte(BitOr(0xD0, enc));
      return Done;
    }

    method EmitIntRet(a: Reg) returns (o: Outcome)
      requires Valid()
      modifies code, code.data, code.data.hb
      ensures Valid() && code.OldOrFresh()
      ensures Wrote(o, Bytes(IntRetItems(a)))
      ensures o.Done? ==> State() == Apply(old(State()), AsmOp.EmitIntRet(a))
    {
      hide BufferSpec.Step, CodeBuffer.State, CodeBuffer.Contents, CodeBuffer.Valid, ByteBuffer.Valid, BitOr, LowBytes;
      IntRetBytes(a);
      hide Bytes, MoveItems, IntRetItems;
      :- EmitMove(false, RAX, a);
      :- EmitMove(true, RSP, RBP);
      OrIsSum(0x58, RBP, 8);
      :- code.EmitByte(BitOr(0x58, RBP));
      :- code.EmitByte(0xC3);
      return Done;
    }
  }
}
