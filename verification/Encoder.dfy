/** The bytes the assembler writes, piece by piece, and the instructions they decode to. */
module Encoder {
  import opened JavaInts
  import opened Decoder

  /** One unit of output of the assembler. */
  datatype Item =
    | FatNop
    | PushRbp
    | PopRbp
    | Return
    | Move(wide: bool, to: Reg, from: Reg)
    | LoadLong(reg: Reg, value: Int64)
    | CallVia(reg: Reg)
    | GrowStack(size: Int32)
    | DeoptCall

  /** 0xDEADDEAD as a Java int. */
  const DEAD_DEAD: Int32 := 0xDEAD_DEAD - 0x1_0000_0000

  /** A REX prefix: 0100 and the bits W, R, X, B; none when all four are clear. */
  function RexBytes(w: bool, r: Reg, x: Reg, b: Reg): (bs: seq<Byte>)
    ensures |bs| <= 1
  {
    var wrxb := (if w then 8 else 0) + r / 8 * 4 + x / 8 * 2 + b / 8;
    if wrxb == 0 then [] else [0x40 + wrxb]
  }

  /** A ModR/M byte of the register form. */
  function ModRMByte(r: Reg, m: Reg): Byte {
    0xC0 + r % 8 * 8 + m % 8
  }

  function ItemBytes(item: Item): seq<Byte> {
    match item
    case FatNop => [0x0F, 0x1F, 0x44, 0x00, 0x00]
    case PushRbp => [0x50 + RBP]
    case PopRbp => [0x58 + RBP]
    case Return => [0xC3]
    case Move(w, to, from) => RexBytes(w, to, 0, from) + [0x8B, ModRMByte(to, from)]
    case LoadLong(r, c) => [0x48 + r / 8, 0xB8 + r % 8] + LowBytes(c, 8)
    case CallVia(r) => if r < 8 then [0xFF, 0xD0 + r] else [0xFF, 0x41, 0xD0 + (r - 8)]
    case GrowStack(n) => [0x48, 0x81, 0xEC] + LowBytes(n, 4)
    case DeoptCall => [0xE8] + LowBytes(DEAD_DEAD, 4)
  }

  /** The instruction those bytes are. Through a register that needs a REX prefix the
      prefix follows the opcode, and what comes out is an increment of memory. */
  function ItemMeaning(item: Item): Instr {
    match item
    case FatNop => Nop
    case PushRbp => Push(RBP)
    case PopRbp => Pop(RBP)
    case Return => Ret
    case Move(w, to, from) => MoveReg(w, to, from)
    case LoadLong(r, c) => MoveImm64(r, c % TWO_64)
    case CallVia(r) => if r < 8 then CallReg(r) else IncMem(false, RCX, 0xD0 + (r - 8) - 0x100)
    case GrowStack(n) => SubImm32(RSP, n)
    case DeoptCall => CallRel32(DEAD_DEAD)
  }

  function Bytes(items: seq<Item>): (bs: seq<Byte>) {
    if items == [] then [] else ItemBytes(items[0]) + Bytes(items[1..])
  }

  function Meanings(items: seq<Item>): (instrs: seq<Instr>)
    ensures |instrs| == |items|
  {
    if items == [] then [] else [ItemMeaning(items[0])] + Meanings(items[1..])
  }

  // ----- the fields of prefix and ModR/M -----

  lemma RexFields(w: bool, r: nat, x: nat, b: nat, n: nat)
    requires r < 2 && x < 2 && b < 2 && n == (if w then 8 else 0) + r * 4 + x * 2 + b
    ensures n < 16 && RexOf(n) == Rex(w, r, x, b)
  {
  }

  lemma ModRMFields(r: nat, m: nat, byte: int)
    requires r < 8 && m < 8 && byte == 0xC0 + r * 8 + m
    ensures 0 <= byte < 0x100 && byte / 64 == 3 && byte / 8 % 8 == r && byte % 8 == m
  {
  }

  /** The prefix says W and the top bits of the three register fields, X among them, and
      is left out exactly when there is nothing to say. */
  lemma RexRoundTrip(w: bool, r: Reg, x: Reg, b: Reg)
    ensures RexBytes(w, r, x, b) == [] <==> !w && r < 8 && x < 8 && b < 8
    ensures RexBytes(w, r, x, b) != [] ==>
      var byte := RexBytes(w, r, x, b)[0];
      0x40 <= byte < 0x50 && RexOf(byte - 0x40) == Rex(w, r / 8, x / 8, b / 8)
  {
    hide RexOf;
    RexFields(w, r / 8, x / 8, b / 8, (if w then 8 else 0) + r / 8 * 4 + x / 8 * 2 + b / 8);
  }

  // ----- every item decodes to its meaning -----

  lemma RexDecodes(n: nat, tail: seq<Byte>)
    requires n < 16
    ensures Decode([0x40 + n] + tail) == match DecodeOpcode(RexOf(n), tail)
      case Invalid => Invalid
      case Decoded(i, k) => Decoded(i, k + 1)
  {
    assert ([0x40 + n] + tail)[1..] == tail;
  }

  lemma MoveOpcode(w: bool, to: Reg, from: Reg, rest: seq<Byte>)
    ensures DecodeOpcode(Rex(w, to / 8, 0, from / 8), [0x8B, ModRMByte(to, from)] + rest)
         == Decoded(MoveReg(w, to, from), 2)
  {
    ModRMFields(to % 8, from % 8, ModRMByte(to, from));
    var tail := [0x8B, ModRMByte(to, from)] + rest;
    assert tail[0] == 0x8B && tail[1] == ModRMByte(to, from);
  }

  lemma MoveDecodes(w: bool, to: Reg, from: Reg, rest: seq<Byte>)
    ensures Decode(ItemBytes(Move(w, to, from)) + rest)
         == Decoded(MoveReg(w, to, from), |ItemBytes(Move(w, to, from))|)
  {
    var n := (if w then 8 else 0) + to / 8 * 4 + from / 8;
    RexFields(w, to / 8, 0, from / 8, n);
    MoveOpcode(w, to, from, rest);
    hide DecodeOpcode, ModRMByte;
    var tail := [0x8B, ModRMByte(to, from)] + rest;
    var all := ItemBytes(Move(w, to, from)) + rest;
    if n == 0 {
      assert all == tail;
      assert RexOf(0) == Rex(w, to / 8, 0, from / 8);
    } else {
      RexDecodes(n, tail);
      assert all == [0x40 + n] + tail;
    }
  }

  lemma Imm64Opcode(op: Byte, b: nat, imm: seq<Byte>, rest: seq<Byte>)
    requires 0xB8 <= op < 0xC0 && b < 2 && |imm| == 8 && FromLow(imm) < TWO_64
    ensures DecodeOpcode(Rex(true, 0, 0, b), [op] + imm + rest)
         == Decoded(MoveImm64(op - 0xB8 + 8 * b, FromLow(imm)), 9)
  {
    var tail := [op] + imm + rest;
    assert tail[1..9] == imm && tail[0] == op;
  }

  lemma LoadLongDecodes(r: Reg, c: Int64, rest: seq<Byte>)
    ensures Decode(ItemBytes(LoadLong(r, c)) + rest) == Decoded(MoveImm64(r, c % TWO_64), 10)
    ensures |ItemBytes(LoadLong(r, c))| == 10
  {
    hide LowBytes;
    LowBytesOfLong(c);
    var op: Byte, imm := 0xB8 + r % 8, LowBytes(c, 8);
    Imm64Opcode(op, r / 8, imm, rest);
    RexFields(true, 0, 0, r / 8, 8 + r / 8);
    RexDecodes(8 + r / 8, [op] + imm + rest);
    hide Decode, DecodeOpcode;
    Regroup(0x48 + r / 8, op, imm, rest);
  }

  lemma Regroup(a: Byte, b: Byte, imm: seq<Byte>, rest: seq<Byte>)
    ensures [a, b] + imm + rest == [a] + ([b] + imm + rest)
  {
  }

  lemma CallOpcode(modrm: Byte, rest: seq<Byte>)
    requires 0xD0 <= modrm < 0xD8
    ensures Decode([0xFF, modrm] + rest) == Decoded(CallReg(modrm - 0xD0), 2)
  {
    var all := [0xFF, modrm] + rest;
    assert all[0] == 0xFF && all[1] == modrm;
    assert modrm / 64 == 3 && modrm / 8 % 8 == 2 && modrm % 8 == modrm - 0xD0;
  }

  lemma IncOpcode(disp: Byte, rest: seq<Byte>)
    ensures Decode([0xFF, 0x41, disp] + rest) == Decoded(IncMem(false, RCX, SignExtend8(disp)), 3)
  {
    var all := [0xFF, 0x41, disp] + rest;
    assert all[0] == 0xFF && all[1] == 0x41 && all[2] == disp;
  }

  lemma CallViaDecodes(r: Reg, rest: seq<Byte>)
    ensures Decode(ItemBytes(CallVia(r)) + rest) == Decoded(ItemMeaning(CallVia(r)), |ItemBytes(CallVia(r))|)
  {
    if r >= 8 {
      IncOpcode(0xD0 + (r - 8), rest);
    } else {
      CallOpcode(0xD0 + r, rest);
    }
  }

  lemma SubOpcode(imm: seq<Byte>, rest: seq<Byte>)
    requires |imm| == 4
    ensures DecodeOpcode(Rex(true, 0, 0, 0), [0x81, 0xEC] + imm + rest)
         == Decoded(SubImm32(RSP, Wrap32(FromLow(imm))), 6)
  {
    var tail := [0x81, 0xEC] + imm + rest;
    assert tail[0] == 0x81 && tail[1] == 0xEC && tail[2..6] == imm;
  }

  lemma Imm32Value(n: Int32)
    ensures Wrap32(FromLow(LowBytes(n, 4))) == n
  {
    LowBytesOfInt(n);
    WrapOfMod(n);
  }

  lemma GrowStackDecodes(n: Int32, rest: seq<Byte>)
    ensures Decode(ItemBytes(GrowStack(n)) + rest) == Decoded(SubImm32(RSP, n), 7)
  {
    Imm32Value(n);
    var imm := LowBytes(n, 4);
    SubOpcode(imm, rest);
    RexDecodes(8, [0x81, 0xEC] + imm + rest);
    assert ItemBytes(GrowStack(n)) + rest == [0x48] + ([0x81, 0xEC] + imm + rest);
    assert RexOf(8) == Rex(true, 0, 0, 0);
  }

  lemma DeoptCallDecodes(rest: seq<Byte>)
    ensures Decode(ItemBytes(DeoptCall) + rest) == Decoded(CallRel32(DEAD_DEAD), 5)
    ensures |ItemBytes(DeoptCall)| == 5
  {
    Imm32Value(DEAD_DEAD);
    var all := ItemBytes(DeoptCall) + rest;
    assert all[1..5] == LowBytes(DEAD_DEAD, 4);
  }

  /** Whatever follows it, an item decodes to its meaning and to its own length. */
  lemma ItemDecodes(item: Item, rest: seq<Byte>)
    ensures Decode(ItemBytes(item) + rest) == Decoded(ItemMeaning(item), |ItemBytes(item)|)
  {
    match item
    case FatNop =>
    case PushRbp =>
    case PopRbp =>
    case Return =>
    case Move(w, to, from) => MoveDecodes(w, to, from, rest);
    case LoadLong(r, c) => LoadLongDecodes(r, c, rest);
    case CallVia(r) => CallViaDecodes(r, rest);
    case GrowStack(n) => GrowStackDecodes(n, rest);
    case DeoptCall => DeoptCallDecodes(rest);
  }

  /** Round trip: any concatenation of items disassembles to exactly their meanings. */
  lemma {:induction false} ItemsDisassemble(items: seq<Item>)
    ensures Disassemble(Bytes(items)) == (true, Meanings(items))
  {
    if items != [] {
      var first, rest := ItemBytes(items[0]), Bytes(items[1..]);
      ItemDecodes(items[0], rest);
      assert (first + rest)[|first|..] == rest;
      ItemsDisassemble(items[1..]);
    }
  }

  lemma {:induction false} BytesAppend(xs: seq<Item>, ys: seq<Item>)
    ensures Bytes(xs + ys) == Bytes(xs) + Bytes(ys)
  {
    if xs == [] {
      assert xs + ys == ys;
    } else {
      assert (xs + ys)[1..] == xs[1..] + ys;
      BytesAppend(xs[1..], ys);
    }
  }

  lemma BytesOfOne(item: Item)
    ensures Bytes([item]) == ItemBytes(item)
  {
    hide ItemBytes;
    assert [item][1..] == [];
  }

  lemma BytesOfTwo(a: Item, b: Item)
    ensures Bytes([a, b]) == ItemBytes(a) + ItemBytes(b)
  {
    hide ItemBytes;
    assert [a, b][1..] == [b];
    BytesOfOne(b);
  }

  lemma BytesOfThree(a: Item, b: Item, c: Item)
    ensures Bytes([a, b, c]) == ItemBytes(a) + ItemBytes(b) + ItemBytes(c)
  {
    hide ItemBytes;
    assert [a, b, c][1..] == [b, c];
    BytesOfTwo(b, c);
  }

  lemma MeaningsOfTwo(a: Item, b: Item)
    ensures Meanings([a, b]) == [ItemMeaning(a), ItemMeaning(b)]
  {
    hide ItemMeaning;
    assert [a, b][1..] == [b] && [b][1..] == [];
  }

  /** The call encoding is a call of the register exactly for encodings below eight; for
      the others the bytes are one three-byte INC of the dword at rcx - 48 + (r - 8). */
  lemma CallEncodingBoundary(r: Reg, rest: seq<Byte>)
    ensures var d := Decode(ItemBytes(CallVia(r)) + rest);
      && d.Decoded? && d.length == |ItemBytes(CallVia(r))|
      && (d.instr == CallReg(r) <==> r < 8)
      && (d.instr.CallReg? || d.instr.CallRel32? <==> r < 8)
      && (r >= 8 ==> d == Decoded(IncMem(false, RCX, -48 + (r - 8)), 3))
  {
    CallViaDecodes(r, rest);
  }
}
