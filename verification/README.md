# A verified model of the jvmci-test code generator

The repository injects native code into Java methods. `AsmInjector` drives a small x86-64
assembler that writes a stub (prologue, stack growth, MOV imm64, CALL, return, deopt call)
into a growable byte buffer; the stub replaces a method's body and calls a native function,
either one compiled from LLVM bitcode behind a trampoline or a plain C one.

This project models that path from the byte buffer to the int a Java caller sees, and proves
what the bytes mean when a processor runs them.

## Structure

| file | contents |
|---|---|
| `JavaInts.dfy` | Java ints: wrap-around, `%`, bitwise OR, bytes of a value, rounding up |
| `Outcomes.dfy` | exceptions as values |
| `BufferSpec.dfy`, `CodeBuffer.dfy` | the buffer as a function on values, with its run theorems; the classes over `java.nio.ByteBuffer`, proved against it |
| `Decoder.dfy` | a decoder for the instruction subset, from the Intel SDM, volume 2, sections 2.1.3 and 2.2.1; it does not use the assembler |
| `Encoder.dfy` | the bytes the assembler writes and the proof that they decode to what was meant |
| `Frame.dfy` | `growFrame` and `newStackSlot` |
| `AssemblerSpec.dfy`, `Amd64Assembler.dfy`, `AsmInjector.dfy` | the assembler's state and operations as functions, with their run theorems; the classes, proved against them |
| `Listing.dfy` | the same output in numbers: encodings, bytes of every operation, whole stubs, and the array they end up in |
| `Machine.dfy`, `Execution.dfy` | execution of code bytes: 16 registers, byte memory, a program counter |
| `Programs.dfy`, `Stub.dfy`, `Injection.dfy`, `Reuse.dfy` | what programs, the stub, and repeated injections do when run |
| `CallingConvention.dfy`, `Arithmetic.dfy` | Java arguments, the trampoline, results; the arithmetic callees and the ways to reach them |

`AMD64Assembler` and its abstract base class are one Dafny class, since there is only one
subclass. Java methods that may throw return an `Outcome` first, and `:-` propagates it.

## What is assumed

- The host's native byte order is little-endian (`Amd64Assembler`'s constructor); the buffer
  itself is proved for both orders.
- An installed stub runs from offset 0 of its bytes, at any base address. Code and data
  memory are separate.
- The called function is an arbitrary function of its address and the machine state. It
  keeps the System V AMD64 ABI, sections 3.2.1 to 3.2.3, at the calls the stub or program
  actually makes (`Machine.KeepsAbi`); nothing is assumed of any other call, of what it
  stores outside the stub's own frame, or of a call on a misaligned stack: so alignment is
  proved, not assumed. Likewise that it computes its result is assumed of those calls only.
- HotSpot passes Java ints in rsi, rdx, rcx, ... and returns them in eax.
- C's signed `+` and `*` wrap, as on the compilers the repository uses.

`Arithmetic.ACallCanHappen` exhibits a machine and a function that meet all of these
together, a function that also stores to a fixed address of any choice outside that frame.

## Where the code does less than it seems to promise

Each is proved with its exact condition.

- **Calls through r8, r9, r10.** `emitCall` writes the REX byte 0x41 after the opcode 0xFF.
  The bytes are then `INC dword [rcx + disp8]`. A call is a call exactly when fewer than
  three registers were drawn before (`CallAfterAnyRun`); otherwise it calls nothing and
  changes memory (`MalformedCallCallsNothing`).
- **One injector, several injections.** The assembler is never reset, so every later stub
  has the first as a prefix and, run from offset 0, calls the first address: the one asked
  for exactly when the two are equal (`ReuseCallsTheFirst`). The frame size and rescue slot
  handed over grow by 8 bytes each time all the same, so from the third injection on they
  are not those of the 32-byte frame that runs. Address and frame are both right exactly
  for the first injection, and for the second with the same address (`ReuseWorksIff`). The
  repository's own callers make a new injector each time.
- **`align` does not grow the array** and takes back written bytes for some negative
  alignments (`AlignAppendsZeros`, `AlignTakesBackIff`, `AlignTakesBackFive`,
  `AlignByNonPositive`). No caller in the repository passes a negative one.
- **Frame sizes** are right exactly while the rounded total is a Java int
  (`FrameClosedFormIff`, `FrameSizeOverflows`, `GrowPastOverflow`).
- **`compileToFunc`'s flag** must say whether the injected method is static
  (`DeliversIff`). The two comments with C signatures in `test-rt.cc` (lines 141 and 153)
  are exchanged; the model follows the code.

## Model

| member | source | states |
|---|---|---|
| BufferSpec.EmitAppends | src/main/java/io/github/maropu/jvmci/CodeBuffer.java:37-69 | For every buffer state: an emit succeeds exactly when the `length * 4` arithmetic leaves room, then appends its bytes; otherwise contents and position are untouched; capacity stays a multiple of four and the tail zero either way |
| BufferSpec.EnsureIsInvisible | src/main/java/io/github/maropu/jvmci/CodeBuffer.java:37-45 | A reallocation, successful or failed, keeps contents, position and byte order, and leaves the tail zero |
| BufferSpec.FreshIsValid | src/main/java/io/github/maropu/jvmci/CodeBuffer.java:35 | A new buffer: 32 zero bytes, position 0, nothing copied |
| BufferSpec.EnsureCounts | src/main/java/io/github/maropu/jvmci/CodeBuffer.java:37-45 | Below capacity nothing happens; from there on, below 2^29, the array becomes four times the length asked for, and every byte it had is copied and counted |
| BufferSpec.EmitGrows | src/main/java/io/github/maropu/jvmci/CodeBuffer.java:37-69 | Below 2^29: exactly when an emit reallocates, to what size, and how many bytes it copies |
| BufferSpec.EmitThrows | src/main/java/io/github/maropu/jvmci/CodeBuffer.java:37-69 | Which of three exceptions an emit throws that does not fit, by where its wrapping arithmetic ends up |
| BufferSpec.RoomIsTight | src/main/java/io/github/maropu/jvmci/CodeBuffer.java:37-45 | 2^29 is exact: below it every emit succeeds, and one that has to reallocate up to it throws NegativeArraySizeException |
| BufferSpec.RunRefinesAppend | src/main/java/io/github/maropu/jvmci/CodeBuffer.java:51-92 | For every sequence of emits and positive aligns, failures included, `finish` is the concatenation of the bytes of the calls that returned normally, in the one byte order, wherever reallocations fell |
| BufferSpec.RunStaysAmortised | src/main/java/io/github/maropu/jvmci/CodeBuffer.java:37-69 | Over every run below 2^29 bytes: the bytes copied are between a quarter and a third of what the capacity has grown by, capacity is at most max(32, 4 * position), and no emit fails |
| BufferSpec.EmitStaysInRoom | src/main/java/io/github/maropu/jvmci/CodeBuffer.java:37-69 | Every emit of any width, failing or not, keeps the bounds on capacity and copying below 2^29 bytes; the class holds them as its invariant |
| BufferSpec.EveryBuffer | src/main/java/io/github/maropu/jvmci/CodeBuffer.java:35-92 | The invariant, the refinement and, in numbers, the bounds on growth and copying together, for every run on a new buffer |
| BufferSpec.AlignAppendsZeros | src/main/java/io/github/maropu/jvmci/CodeBuffer.java:81-88 | A positive alignment succeeds exactly when the rounded position is within capacity, and appends exactly the zeros up to it |
| BufferSpec.SmallAlignmentsAlwaysFit | src/main/java/io/github/maropu/jvmci/CodeBuffer.java:81-88 | Alignments 1, 2 and 4 always succeed, in every reachable state |
| BufferSpec.AlignTakesBackIff | src/main/java/io/github/maropu/jvmci/CodeBuffer.java:81-88 | For every alignment but 0: the position moves back exactly for a negative one that does not divide it and does not reach below zero |
| BufferSpec.AlignTakesBackFive | src/main/java/io/github/maropu/jvmci/CodeBuffer.java:81-88 | For one: with five bytes written, align(-3) moves back to position 0 |
| BufferSpec.AlignByNonPositive | src/main/java/io/github/maropu/jvmci/CodeBuffer.java:81-88 | All of align for zero and negative alignments: an exception, no effect, or back to one multiple before the last |
| JavaInts.RemTruncates | src/main/java/io/github/maropu/jvmci/CodeBuffer.java:83 | Java's % is the remainder of the magnitudes with the sign of the dividend, for all operands |
| JavaInts.ByteOfStore | src/main/java/io/github/maropu/jvmci/CodeBuffer.java:51-69 | Byte i of a stored value, in either order, as a quotient by a power of two |
| JavaInts.LoadAfterStore | src/main/java/io/github/maropu/jvmci/CodeBuffer.java:51-69 | A load of a stored value's bytes in the same order, either order, gives the value modulo its width |
| CodeBuffers.ByteBuffer.PutValue | src/main/java/io/github/maropu/jvmci/CodeBuffer.java:51-69 | A put replaces exactly its bytes at the position and advances, or overflows and changes nothing |
| CodeBuffers.CodeBuffer.constructor | src/main/java/io/github/maropu/jvmci/CodeBuffer.java:35 | A new buffer in the order given: an array of 32 bytes, nothing written |
| CodeBuffers.CodeBuffer.EnsureSize | src/main/java/io/github/maropu/jvmci/CodeBuffer.java:37-45 | State and exception as specified; a new array exactly when there is a reallocation, of four times the length as a Java int, and the bytes copied counted by the sizes of the two arrays |
| CodeBuffers.CodeBuffer.EmitByte | src/main/java/io/github/maropu/jvmci/CodeBuffer.java:51-54 | Whole new state as specified; contents grow by the low byte or not at all |
| CodeBuffers.CodeBuffer.EmitShort | src/main/java/io/github/maropu/jvmci/CodeBuffer.java:56-59 | Whole new state as specified; contents grow by two bytes in the buffer's order or not at all |
| CodeBuffers.CodeBuffer.EmitInt | src/main/java/io/github/maropu/jvmci/CodeBuffer.java:61-64 | Whole new state as specified; contents grow by four bytes in the buffer's order or not at all |
| CodeBuffers.CodeBuffer.EmitLong | src/main/java/io/github/maropu/jvmci/CodeBuffer.java:66-69 | Whole new state as specified; contents grow by eight bytes in the buffer's order or not at all |
| CodeBuffers.CodeBuffer.Align | src/main/java/io/github/maropu/jvmci/CodeBuffer.java:81-88 | Whole new state as specified, for every alignment, zero and negative ones included |
| CodeBuffers.CodeBuffer.Finish | src/main/java/io/github/maropu/jvmci/CodeBuffer.java:90-92 | A new array holding exactly what was written |
| Encoder.ItemDecodes | src/main/java/io/github/maropu/jvmci/amd64/AMD64Assembler.java:58-146 | Whatever bytes follow, what the assembler writes decodes to the intended instruction and to its own length: all 16x16 registers, both widths, every immediate |
| Encoder.ItemsDisassemble | src/main/java/io/github/maropu/jvmci/amd64/AMD64Assembler.java:58-146 | Round trip: any concatenation disassembles to exactly the intended list |
| Encoder.MoveDecodes | src/main/java/io/github/maropu/jvmci/amd64/AMD64Assembler.java:129-146 | The REX and ModR/M bytes of a move decode to its width, destination and source |
| Encoder.RexRoundTrip | src/main/java/io/github/maropu/jvmci/amd64/AMD64Assembler.java:129-134 | The prefix holds W and the top bits of all three fields, and is left out exactly when all are clear |
| Encoder.LoadLongDecodes | src/main/java/io/github/maropu/jvmci/amd64/AMD64Assembler.java:96-101 | Ten bytes that decode to a load of the value modulo 2^64 into any of the 16 registers |
| Encoder.GrowStackDecodes | src/main/java/io/github/maropu/jvmci/amd64/AMD64Assembler.java:88-94 | Seven bytes that decode to SUB rsp with the signed immediate |
| Encoder.CallEncodingBoundary | src/main/java/io/github/maropu/jvmci/amd64/AMD64Assembler.java:110-119 | The call bytes are a call exactly for encodings below 8; for the others they are one three-byte INC of memory at rcx - 48 + (r - 8) |
| Frames.GrowKeepsRounded | src/main/java/io/github/maropu/jvmci/AssemblerBase.java:99-109 | One request keeps the frame the rounded-up extent of its slots, and the SUB emitted is exactly the difference |
| Frames.GrowAllClosedForm | src/main/java/io/github/maropu/jvmci/AssemblerBase.java:99-109 | After any run of nonnegative requests that fits an int: extent, rounded size, and the sum of all SUB immediates |
| Frames.FrameClosedFormIff | src/main/java/io/github/maropu/jvmci/AssemblerBase.java:60-109 | From any frame of whole alignments, for any alignment: the closed form, its slack below one alignment, and the SUB total hold exactly when the rounded total is a Java int |
| Frames.FrameSizeOverflows | src/main/java/io/github/maropu/jvmci/AssemblerBase.java:99-109 | Every single request in the last 15 bytes before the int limit makes frameSize negative |
| Frames.GrowPastOverflow | src/main/java/io/github/maropu/jvmci/AssemblerBase.java:99-109 | Once the extent is negative as an int, rounding one that is not a multiple of 16 goes 16 bytes too far, because Java's % is negative there |
| Frames.SlotsAreDisjoint | src/main/java/io/github/maropu/jvmci/AssemblerBase.java:111-114 | The slots of any run lie one wholly below the other, inside the final frame, below everything that was in it before (saved rbp and return address among it) |
| AssemblerSpec.RunAppends | src/main/java/io/github/maropu/jvmci/amd64/AMD64Assembler.java:68-127 | Every run only appends, operation after operation |
| AssemblerSpec.RunDisassembles | src/main/java/io/github/maropu/jvmci/amd64/AMD64Assembler.java:58-146 | For every run of operations on a new assembler, operations that throw included, the code disassembles to exactly the instructions meant |
| AssemblerSpec.RunKeepsSites | src/main/java/io/github/maropu/jvmci/AssemblerBase.java:116-122 | Over every run: sites stay in order and in pairs of mark and call at one offset, each at a whole CALL rel32 inside the code; bytes and sites already there never change |
| AssemblerSpec.EpilogueKeepsSites | src/main/java/io/github/maropu/jvmci/amd64/AMD64Assembler.java:80-85 | The two sites recorded before the deopt call is written point at it |
| AssemblerSpec.NextCountsDraws | src/main/java/io/github/maropu/jvmci/AssemblerBase.java:85-87 | Over every run nextRegister is the number of draws, failed ones included, as a wrapping int |
| AssemblerSpec.RunFrameAndSites | src/main/java/io/github/maropu/jvmci/AssemblerBase.java:99-122 | Over every run of all operations the frame is that of the slot requests alone, prologues' included, and each epilogue adds two sites |
| AssemblerSpec.CallAfterAnyRun | src/main/java/io/github/maropu/jvmci/amd64/AMD64Assembler.java:110-119 | After any run whatever, one more emitCall decodes to load and call, to load and INC, or throws, exactly by the number of registers drawn before |
| Amd64Assemblers.Amd64Assembler.constructor | src/main/java/io/github/maropu/jvmci/amd64/AMD64Assembler.java:53-56 | A new assembler is in the specification's initial state: frame 16, alignment 16, registers 0, 1, 7, 8, 9, 10 |
| Amd64Assemblers.Amd64Assembler.NewRegister | src/main/java/io/github/maropu/jvmci/AssemblerBase.java:85-87 | Hands out the pool in order; past its end throws, having advanced the index all the same |
| Amd64Assemblers.Amd64Assembler.GrowFrame | src/main/java/io/github/maropu/jvmci/AssemblerBase.java:99-109 | Fields and emitted SUB as the frame specification says, with Java's wrap-around |
| Amd64Assemblers.Amd64Assembler.NewStackSlot | src/main/java/io/github/maropu/jvmci/AssemblerBase.java:111-114 | Grows the frame and returns its most recent bytes as the slot |
| Amd64Assemblers.Amd64Assembler.RecordMark | src/main/java/io/github/maropu/jvmci/AssemblerBase.java:116-118 | Appends a mark at the current position |
| Amd64Assemblers.Amd64Assembler.RecordCall | src/main/java/io/github/maropu/jvmci/AssemblerBase.java:120-122 | Appends a call site at the current position |
| Amd64Assemblers.Amd64Assembler.Finish | src/main/java/io/github/maropu/jvmci/AssemblerBase.java:124-150 | All of the code, all of the sites, frame size and deopt rescue slot of the current state |
| Amd64Assemblers.Amd64Assembler.EmitREX | src/main/java/io/github/maropu/jvmci/amd64/AMD64Assembler.java:129-134 | Writes the prefix of the specification, or none when no bit is set |
| Amd64Assemblers.Amd64Assembler.EmitModRMReg | src/main/java/io/github/maropu/jvmci/amd64/AMD64Assembler.java:136-140 | Writes prefix, opcode and ModR/M byte, through Java's byte casts |
| Amd64Assemblers.Amd64Assembler.EmitMove | src/main/java/io/github/maropu/jvmci/amd64/AMD64Assembler.java:142-146 | Writes a move, or nothing for a register to itself |
| Amd64Assemblers.Amd64Assembler.EmitFatNop | src/main/java/io/github/maropu/jvmci/amd64/AMD64Assembler.java:58-66 | Writes the five-byte NOP |
| Amd64Assemblers.Amd64Assembler.EmitPrologue | src/main/java/io/github/maropu/jvmci/amd64/AMD64Assembler.java:69-77 | New state as specified; append-only even when an exception stops it |
| Amd64Assemblers.Amd64Assembler.EmitEpilogue | src/main/java/io/github/maropu/jvmci/amd64/AMD64Assembler.java:80-85 | New state as specified; both sites recorded at the offset of the call, an exception from the buffer or not |
| Amd64Assemblers.Amd64Assembler.EmitGrowStack | src/main/java/io/github/maropu/jvmci/amd64/AMD64Assembler.java:88-94 | New state as specified |
| Amd64Assemblers.Amd64Assembler.EmitLoadLong | src/main/java/io/github/maropu/jvmci/amd64/AMD64Assembler.java:96-107 | New state as specified, the register returned, or the pool's exception with the index advanced |
| Amd64Assemblers.Amd64Assembler.EmitCall | src/main/java/io/github/maropu/jvmci/amd64/AMD64Assembler.java:110-119 | New state as specified, or the pool's exception with nothing written |
| Amd64Assemblers.Amd64Assembler.EmitIntRet | src/main/java/io/github/maropu/jvmci/amd64/AMD64Assembler.java:122-127 | New state as specified |
| AsmInjectors.AsmInjector.constructor | src/main/java/io/github/maropu/jvmci/AsmInjector.java:24-29 | A new injector has a new assembler |
| AsmInjectors.AsmInjector.InjectFuncAddr | src/main/java/io/github/maropu/jvmci/AsmInjector.java:35-46 | With room in the buffer, result and new assembler state are the specification's, and an exception can only be the pool's; it returns normally exactly when it hands something over, which fits a Java array |
| Programs.PrologueRuns | src/main/java/io/github/maropu/jvmci/amd64/AMD64Assembler.java:69-77 | The prologue's bytes, run from offset 0, push rbp, set it and reserve the frame |
| Programs.CallReturns | src/main/java/io/github/maropu/jvmci/amd64/AMD64Assembler.java:110-119 | A call enters its target on an aligned stack, comes back right behind itself, with the frame, its memory and rbp as they were |
| Programs.OpRuns | src/main/java/io/github/maropu/jvmci/amd64/AMD64Assembler.java:88-119 | The bytes of a slot request, load or call do on the machine what the operation means, and rsp follows the frame size |
| Programs.BodyRuns | src/main/java/io/github/maropu/jvmci/amd64/AMD64Assembler.java:88-119 | By induction, for every body of slots, loads and calls: meaning, control inside its own bytes, rsp = entry rsp + 8 - frameSize, every call to its target on an aligned stack |
| Programs.ReturnRestores | src/main/java/io/github/maropu/jvmci/amd64/AMD64Assembler.java:122-127 | However large the frame, the return gives back rsp + 8, rbp and the callee-saved registers, and eax is the chosen register's low half |
| Programs.ReturnRuns | src/main/java/io/github/maropu/jvmci/amd64/AMD64Assembler.java:122-127 | The return's bytes, for every register, leave for the caller's return address |
| Stub.PrologueAndBodyRun | src/main/java/io/github/maropu/jvmci/amd64/AMD64Assembler.java:69-119 | From offset 0 through any body |
| Stub.FrameTracksRsp | src/main/java/io/github/maropu/jvmci/AssemblerBase.java:99-109 | At every boundary within every body, execution is there with rsp = entry rsp + 8 - frameSize, a multiple of 16 |
| Stub.RspClosedForm | src/main/java/io/github/maropu/jvmci/AssemblerBase.java:99-114 | rsp after any body from the slot sizes alone |
| Stub.BodyKeepsFrameMemory | src/main/java/io/github/maropu/jvmci/AssemblerBase.java:111-114 | From any boundary on no byte between rsp and the end of the frame changes, calls included: slots keep their contents |
| Stub.ProgramReturns | src/main/java/io/github/maropu/jvmci/amd64/AMD64Assembler.java:58-127 | Prologue, any body, return, followed by any bytes: calls the targets in order, never reaches what follows, and returns what the chosen register held at the end of the body, with the caller's registers restored |
| Stub.FirstIsFatNop | src/main/java/io/github/maropu/jvmci/amd64/AMD64Assembler.java:69-73 | The first instruction of all code that starts with a prologue is the five-byte NOP |
| Injection.FreshInjection | src/main/java/io/github/maropu/jvmci/AsmInjector.java:40-44 | A first injection hands over 38 bytes, a 32-byte frame, the rescue slot at -24 and the deopt sites at 33 |
| Listing.RegisterNumbers | src/main/java/io/github/maropu/jvmci/amd64/AMD64Assembler.java:53-56 | The encodings of the registers, the pool 0, 1, 7, 8, 9, 10, and the argument and callee-saved registers, in numbers |
| Listing.OperationsInNumbers | src/main/java/io/github/maropu/jvmci/amd64/AMD64Assembler.java:58-146 | The bytes every operation appends in every state, listed in numbers: all registers, pool positions, exceptions and frame cases |
| Listing.FreshCodeInNumbers | src/main/java/io/github/maropu/jvmci/AsmInjector.java:40-44 | The 38 bytes of a first injection, in numbers |
| Listing.InjectionInNumbers | src/main/java/io/github/maropu/jvmci/AsmInjector.java:40-44 | The bytes of every injection that works, on every state |
| Listing.FirstInjectionGrowsOnce | src/main/java/io/github/maropu/jvmci/CodeBuffer.java:35-69 | The buffer calls of a first injection reallocate once, copying 32 bytes into an array of 128, and finish with the 38 bytes |
| Stub.RequestsAreDisjoint | src/main/java/io/github/maropu/jvmci/AssemblerBase.java:111-114 | No two slot requests of a body, whatever stands between them, get overlapping slots |
| Stub.SlotsKeepTheirBytes | src/main/java/io/github/maropu/jvmci/AssemblerBase.java:111-114 | On the machine every slot of a body lies between rsp and the deopt rescue slot, at every later boundary, and its bytes there are those it had at its request, whatever was called since |
| Injection.InjectedStub | src/main/java/io/github/maropu/jvmci/AsmInjector.java:40-44 | End to end, for every address, entry state with stack, and function that keeps the ABI at the one call: nine steps, one call of the address with all six argument registers as at entry, its int returned, the caller restored, the deopt stub not reached |
| Stub.ProgramRuns | src/main/java/io/github/maropu/jvmci/amd64/AMD64Assembler.java:58-127 | The exact final machine state and calls of such a program, from the meaning of its operations |
| Injection.ArgumentsReachCallee | src/main/java/io/github/maropu/jvmci/amd64/AMD64Assembler.java:69-119 | All six System V argument registers reach the callee with their entry values |
| Reuse.InjectStep | src/main/java/io/github/maropu/jvmci/AsmInjector.java:35-46 | An injection only appends, hands over all the code and all the sites so far, and works exactly when the pool is not empty |
| Reuse.InjectionsNest | src/main/java/io/github/maropu/jvmci/AsmInjector.java:22-46 | The code of every injection is a prefix of that of every later one |
| Reuse.SixInjections | src/main/java/io/github/maropu/jvmci/AssemblerBase.java:85-87 | On one injector exactly the first six injections succeed, until the Java counter wraps |
| Reuse.SitesOfInjection | src/main/java/io/github/maropu/jvmci/AssemblerBase.java:116-128 | Injection i hands over 2 * (i + 1) sites: for each injection up to it a mark and a call at the last five bytes of that injection's own code |
| Reuse.EveryInjectionHasValidSites | src/main/java/io/github/maropu/jvmci/AssemblerBase.java:116-128 | All sites handed over with any injection are valid in its code |
| Reuse.ReuseCallsTheFirst | src/main/java/io/github/maropu/jvmci/AsmInjector.java:22-46 | Any injection on one injector, run from offset 0, calls the first address once; it calls the address asked for exactly when that is the first |
| Reuse.FrameOfInjection | src/main/java/io/github/maropu/jvmci/AssemblerBase.java:99-150 | Injection i hands over frame size 24 + 8 * i rounded up to 16 and rescue slot -(24 + 8 * i), as long as its code is a Java array |
| Reuse.ReuseWorksIff | src/main/java/io/github/maropu/jvmci/AsmInjector.java:22-46 | Run from offset 0, the frame handed over is the frame at the call exactly for the first two injections; so the address called and the frame are both right exactly when i < 2 and the address is the first |
| Reuse.MalformedCallCallsNothing | src/main/java/io/github/maropu/jvmci/amd64/AMD64Assembler.java:110-119 | Through r8, r9 or r10 no call happens: one dword of memory goes up by one, or the machine faults |
| CallingConvention.BuildEntryPoint | lib/test-rt-native/test-rt.cc:139-181 | The trampoline has one dummy parameter or two, and forwards its two int parameters, in order |
| Stub.BodyFrameIsGrowAll | src/main/java/io/github/maropu/jvmci/AssemblerBase.java:99-114 | A body's frame is that of its slot requests alone, whatever loads and calls stand between |
| CallingConvention.DeliversIff | lib/test-rt-native/test-rt.cc:139-181 | Every Java call's arguments reach x and y exactly when the flag says what the method is |
| CallingConvention.InjectedMethodComputes | lib/test-rt-native/test-rt.cc:164-181 | For all ints a and b, and any function f of the forwarded parameters, the injected method's result is f(a, b) |
| Arithmetic.LlvmIsJava | src/main/resources/pyAdd-int32.ll:17-21 | LLVM's add and mul on the bits of Java ints are Java's wrapping + and *, for all ints |
| Arithmetic.SuiteValues | src/test/scala/io/github/maropu/JVMCITestSuite.scala:15-22 | The operations have the values the suites expect, and wrap where Java's do |
| Arithmetic.JniComputes | lib/test-rt-native/test-rt.cc:104-108 | For any function of pointer and two ints, the JNI call gives its value at null, a and b, in that order |
| Arithmetic.InjectedCFunction | lib/test-rt-native/test-rt.cc:82-88 | A C function injected into a static method gives the method Java's a + b or a * b, for all ints and surroundings |
| Arithmetic.InjectedCompiledFunction | lib/test-rt-native/test-rt.cc:139-181 | The same for a compiled function behind its trampoline, in a method of either kind |
| Arithmetic.AllPathsAgree | src/main/java/io/github/maropu/IntAddJVMCITest.java:62-80 | For both operations and all ints: the JVM's operator, the C function called through JNI, the C function injected, and the compiled Python function injected give one int |
| Arithmetic.LoopOfInjectedAdds | src/test/scala/io/github/maropu/JVMCITestSuite.scala:24-31 | Folding sum = f(sum, 1) through the injected stub gives k after k rounds, for every k, as a Java int |
| Arithmetic.ACallCanHappen | src/main/java/io/github/maropu/IntAddJVMCITest.java:26-29 | The assumptions of the theorems above can be met together, for both operations, every address, all arguments, and a function that stores anywhere outside the stub's frame |

## Left out

- FirstInjectionGrowsOnce: the buffer calls of an injection are listed one by one in `Listing.InjectionEmits` and proved to write its bytes; the assembler's class contracts state the bytes alone, not how they are divided into buffer calls.
- Wrote: for an operation that an exception from the buffer stops part way (impossible below 2^29 bytes), the class contracts state only that earlier bytes are unchanged, not which of its own bytes were written.
- InjectFuncAddr: the resulting state is stated for buffers with room for one more stub, or when the call returns normally.
- OutOfMemoryError and the JVM's own limit on array sizes: allocation of any size up to 2^31 - 1 succeeds in the model.
- `emitFloat`, `emitDouble`: no caller; they would repeat `emitInt` and `emitLong` on IEEE bit patterns.
- The data section, data patches, compile ids, marks' ids and call targets of sites: constants or never filled by this code.
- HotSpot: method lookup, installation, call-site patching, deoptimisation, OSR and `setNotInlinableOrCompilable`.
- LLVM: bitcode parsing, optimisation, code generation; a compiled function is any function that keeps the ABI and computes its result.
- `getIntFuncAddr`'s table of addresses, how JNI marshals arguments, library loading, benchmarks: of `callIntFuncFromAddr` the model has its one C call.
- Flags, floating-point registers, signals, the red zone, instruction caches, self-modifying code, and instructions outside the subset, which the decoder reports as invalid.
- A call site's CALL rel32 is executed as leaving the code: where the code installer points it is not modelled, and no program proved here reaches it.
