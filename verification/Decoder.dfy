/** A decoder for a subset of x86-64, written from the Intel SDM, volume 2: REX prefixes
    (section 2.2.1), ModR/M (section 2.1.3) and the opcode pages of the instructions
    named below. It knows nothing of the assembler. */
module Decoder {
  import opened JavaInts

  type Reg = r: nat | r < 16

  const RAX: Reg := 0
  const RCX: Reg := 1
  const RDX: Reg := 2
  const RBX: Reg := 3
  const RSP: Reg := 4
  const RBP: Reg := 5
  const RSI: Reg := 6
  const RDI: Reg := 7
  const R8: Reg := 8
  const R9: Reg := 9
  const R10: Reg := 10

  datatype Instr =
    | Nop                                            // 0F 1F /0, with SIB and disp8
    | Push(reg: Reg)                                 // 50+r
    | Pop(reg: Reg)                                  // 58+r
    | MoveReg(wide: bool, to: Reg, from: Reg)        // 8B /r, register form
    | MoveImm64(reg: Reg, imm: Word)                 // REX.W B8+r io
    | SubImm32(reg: Reg, amount: Int32)              // REX.W 81 /5 id, register form
    | CallReg(reg: Reg)                              // FF /2, register form
    | IncMem(wide: bool, base: Reg, disp: Int32)     // FF /0, [base + disp8]
    | CallRel32(rel: Int32)                          // E8 cd
    | Ret                                            // C3

  datatype Decoded = Invalid | Decoded(instr: Instr, length: nat)

  /** The four bits of a REX prefix. */
  datatype Rex = Rex(w: bool, r: nat, x: nat, b: nat)

  function RexOf(nibble: nat): (rex: Rex)
    requires nibble < 16
    ensures rex.r < 2 && rex.b < 2
  {
    Rex(nibble / 8 == 1, nibble / 4 % 2, nibble / 2 % 2, nibble % 2)
  }

  /** The instruction at the front of `bytes`. A REX prefix counts only directly before
      the opcode. */
  function Decode(bytes: seq<Byte>): (d: Decoded)
    ensures d.Decoded? ==> 1 <= d.length <= |bytes|
  {
    if bytes == [] then Invalid
    else if 0x40 <= bytes[0] < 0x50 then
      match DecodeOpcode(RexOf(bytes[0] - 0x40), bytes[1..])
      case Invalid => Invalid
      case Decoded(i, n) => Decoded(i, n + 1)
    else
      DecodeOpcode(RexOf(0), bytes)
  }

  function DecodeOpcode(rex: Rex, bytes: seq<Byte>): (d: Decoded)
    requires rex.r < 2 && rex.b < 2
    ensures d.Decoded? ==> 1 <= d.length <= |bytes|
  {
    if bytes == [] then Invalid
    else
      var op := bytes[0];
      if 0x50 <= op < 0x58 then Decoded(Push(op - 0x50 + 8 * rex.b), 1)
      else if 0x58 <= op < 0x60 then Decoded(Pop(op - 0x58 + 8 * rex.b), 1)
      else if op == 0xC3 then Decoded(Ret, 1)
      else if op == 0xE8 && |bytes| >= 5 then
        Decoded(CallRel32(Wrap32(FromLow(bytes[1..5]))), 5)
      else if 0xB8 <= op < 0xC0 && rex.w && |bytes| >= 9 then
        DecodeImm64(op - 0xB8 + 8 * rex.b, bytes[1..9])
      else if |bytes| >= 2 then
        DecodeModRM(rex, op, bytes[1] / 64, bytes[1] / 8 % 8, bytes[1] % 8, bytes)
      else Invalid
  }

  function DecodeImm64(reg: Reg, imm: seq<Byte>): (d: Decoded)
    ensures d.Decoded? ==> d.length == 9
  {
    var v := FromLow(imm);
    if v < TWO_64 then Decoded(MoveImm64(reg, v), 9) else Invalid
  }

  function SignExtend8(b: Byte): Int32 {
    (b + 0x80) % 0x100 - 0x80
  }

  function DecodeModRM(rex: Rex, op: Byte, mod: nat, reg: nat, rm: nat, bytes: seq<Byte>): (d: Decoded)
    requires rex.r < 2 && rex.b < 2 && reg < 8 && rm < 8 && |bytes| >= 2
    ensures d.Decoded? ==> 1 <= d.length <= |bytes|
  {
    if op == 0x8B && mod == 3 then
      Decoded(MoveReg(rex.w, reg + 8 * rex.r, rm + 8 * rex.b), 2)
    else if op == 0x81 && mod == 3 && reg == 5 && rex.w && |bytes| >= 6 then
      Decoded(SubImm32(rm + 8 * rex.b, Wrap32(FromLow(bytes[2..6]))), 6)
    else if op == 0xFF && mod == 3 && reg == 2 then
      Decoded(CallReg(rm + 8 * rex.b), 2)
    else if op == 0xFF && mod == 1 && reg == 0 && rm != 4 && |bytes| >= 3 then
      Decoded(IncMem(rex.w, rm + 8 * rex.b, SignExtend8(bytes[2])), 3)
    else if op == 0x0F && |bytes| >= 5 && bytes[1] == 0x1F
         && bytes[2] / 64 == 1 && bytes[2] / 8 % 8 == 0 && bytes[2] % 8 == 4 then
      Decoded(Nop, 5)
    else Invalid
  }

  /** All of `bytes`, instruction after instruction, or nothing if some byte is left over. */
  function Disassemble(bytes: seq<Byte>): (r: (bool, seq<Instr>))
    decreases |bytes|
  {
    if bytes == [] then (true, [])
    else
      match Decode(bytes)
      case Invalid => (false, [])
      case Decoded(i, n) =>
        var (ok, rest) := Disassemble(bytes[n..]);
        (ok, [i] + rest)
  }
}
