/** The driver: one assembler for the injector's lifetime. */
module AsmInjectors {
  import opened JavaInts
  import opened Outcomes
  import opened Decoder
  import opened Encoder
  import opened AssemblerSpec
  import opened Amd64Assemblers
  import opened CodeBuffers
  import BufferSpec

  class AsmInjector {
    const asm: Amd64Assembler

    ghost predicate Valid()
      reads asm, asm.code, asm.code.data, asm.code.data.hb
    {
      asm.Valid()
    }

    constructor ()
      ensures Valid() && fresh(asm.Repr())
      ensures asm.State() == Fresh()
    {
      asm := new Amd64Assembler();
    }

    /** The assembler calls of `injectFuncAddr`; `result` is what would be installed. While
        the buffer has room an exception can only be the register pool's. */
    method InjectFuncAddr(addr: Int64) returns (o: Outcome, result: Option<Finished>)
      requires Valid()
      modifies asm, asm.code, asm.code.data, asm.code.data.hb
      ensures Valid() && asm.code.OldOrFresh()
      ensures old(asm.State()).code <= asm.State().code
      ensures |old(asm.State()).code| + 64 < BufferSpec.ROOM ==>
        (asm.State(), result) == Inject(old(asm.State()), addr)
      ensures |old(asm.State()).code| + 64 < BufferSpec.ROOM && o.Threw? ==> o == Threw(ArrayIndexOutOfBounds)
      ensures o.Done? <==> result.Some?
      ensures o.Done? ==>
        (asm.State(), result) == Inject(old(asm.State()), addr) && |result.value.code| < 0x8000_0000
    {
      hide Bytes, OpItems, Apply, Inject, CodeBuffer.Contents, CodeBuffer.Valid, ByteBuffer.Valid;
      InjectUnfolds(asm.State(), addr);
      StubLengthBounds(asm.State(), addr);
      result := None;
      :- asm.EmitPrologue();
      :- asm.EmitCall(addr);
      :- asm.EmitIntRet(RAX);
      :- asm.EmitEpilogue();
      var done, finished := asm.Finish();
      return done, Some(finished);
    }
  }
}
