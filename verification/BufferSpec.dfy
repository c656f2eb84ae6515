/** What one `CodeBuffer` call does, as a function on values, and what every sequence
    of calls then means. */
module BufferSpec {
  import opened JavaInts
  import opened Outcomes

  /** The whole backing array, the write position, the byte order, and a count of the
      bytes that reallocations have copied so far. */
  datatype Buffer = Buffer(store: seq<Byte>, pos: nat, order: ByteOrder, copied: nat)

  datatype BufferOp =
    | PutByte(b: Int32)
    | PutShort(s: Int32)
    | PutInt(i: Int32)
    | PutLong(l: Int64)
    | Align(alignment: Int32)

  const INITIAL_CAPACITY := 32

  /** Below a quarter of the int range every emit succeeds. */
  const ROOM := 0x2000_0000

  function Zeros(n: nat): (z: seq<Byte>)
    ensures |z| == n && forall i :: 0 <= i < n ==> z[i] == 0
  {
    seq(n, _ => 0)
  }

  /** `Arrays.copyOf`: truncates, or pads with zeros. */
  function CopyOf(bs: seq<Byte>, n: nat): (c: seq<Byte>)
    ensures |c| == n
  {
    if n <= |bs| then bs[..n] else bs + Zeros(n - |bs|)
  }

  function Fresh(order: ByteOrder): Buffer {
    Buffer(Zeros(INITIAL_CAPACITY), 0, order, 0)
  }

  function Ensure(s: Buffer, length: Int32): (Buffer, Outcome) {
    if length >= |s.store| then
      var n := Wrap32(length * 4);
      if n < 0 then (s, Threw(NegativeArraySize))
      else if s.pos > n then (s, Threw(IllegalArgument))
      else (s.(store := CopyOf(s.store, n), copied := s.copied + if n < |s.store| then n else |s.store|), Done)
    else (s, Done)
  }

  function Put(s: Buffer, bytes: seq<Byte>): (r: (Buffer, Outcome))
    requires s.pos <= |s.store|
    ensures r.0.pos <= |r.0.store|
  {
    var end := s.pos + |bytes|;
    if end > |s.store| then (s, Threw(BufferOverflow))
    else (s.(store := s.store[..s.pos] + bytes + s.store[end..], pos := end), Done)
  }

  function Emit(s: Buffer, bytes: seq<Byte>): (r: (Buffer, Outcome))
    requires s.pos <= |s.store|
    ensures r.0.pos <= |r.0.store|
  {
    var (e, o) := Ensure(s, Wrap32(s.pos + |bytes|));
    if o.Threw? then (e, o) else Put(e, bytes)
  }

  function AlignTo(s: Buffer, alignment: Int32): (r: (Buffer, Outcome))
    requires s.pos <= |s.store|
    ensures r.0.pos <= |r.0.store|
  {
    if alignment == 0 then (s, Threw(Arithmetic))
    else
      var misaligned := Rem(s.pos, alignment);
      if misaligned == 0 then (s, Done)
      else
        var p := Wrap32(s.pos + (alignment - misaligned));
        if 0 <= p <= |s.store| then (s.(pos := p), Done) else (s, Threw(IllegalArgument))
  }

  function EmittedBytes(order: ByteOrder, op: BufferOp): seq<Byte>
    requires !op.Align?
  {
    match op
    case PutByte(b) => StoreBytes(order, b, 1)
    case PutShort(v) => StoreBytes(order, v, 2)
    case PutInt(v) => StoreBytes(order, v, 4)
    case PutLong(v) => StoreBytes(order, v, 8)
  }

  function Step(s: Buffer, op: BufferOp): (r: (Buffer, Outcome))
    requires s.pos <= |s.store|
    ensures r.0.pos <= |r.0.store|
  {
    if op.Align? then AlignTo(s, op.alignment) else Emit(s, EmittedBytes(s.order, op))
  }

  /** What `finish` returns. */
  function Finish(s: Buffer): seq<Byte>
    requires s.pos <= |s.store|
  {
    CopyOf(s.store, s.pos)
  }

  // ----- the state invariant -----

  /** Capacity is a Java int and a multiple of four, and nothing at or after the
      position has been written. */
  ghost predicate Valid(s: Buffer) {
    && s.pos <= |s.store| < 0x8000_0000
    && |s.store| % 4 == 0
    && forall i :: s.pos <= i < |s.store| ==> s.store[i] == 0
  }

  /** `allocate(32)`: 32 zero bytes, nothing written, nothing copied. */
  lemma FreshIsValid(order: ByteOrder)
    ensures var s := Fresh(order);
      && Valid(s) && Finish(s) == [] && s.order == order
      && |s.store| == 32 && s.pos == 0 && s.copied == 0
  {
  }

  /** Where the arithmetic on `length * 4` lets an emit of `k` bytes through. */
  predicate Fits(s: Buffer, k: nat) {
    s.pos + k < |s.store| || Wrap32(4 * (s.pos + k)) >= s.pos + k
  }

  lemma WrapOfQuadruple(x: int)
    ensures Wrap32(4 * x) % 4 == 0
  {
  }

  lemma QuadrupleInRoom(x: int)
    requires 0 <= x < ROOM
    ensures Wrap32(4 * x) == 4 * x
  {
  }

  lemma QuadruplePastTop(x: int)
    requires 0x8000_0000 <= x < 0x8000_0000 + 8
    ensures 0 <= Wrap32(4 * x) < 32 && Wrap32(x) < 0
  {
  }

  /** A reallocation, or its failure, is invisible to the client. */
  lemma EnsureIsInvisible(s: Buffer, length: Int32)
    requires Valid(s)
    ensures var (e, o) := Ensure(s, length);
      && Valid(e) && e.pos == s.pos && e.order == s.order && Finish(e) == Finish(s)
      && (o.Done? ==> |e.store| == if length >= |s.store| then Wrap32(length * 4) else |s.store|)
  {
    if length >= |s.store| && Wrap32(length * 4) >= s.pos {
      var n := Wrap32(length * 4);
      WrapOfQuadruple(length);
      assert CopyOf(s.store, n)[..s.pos] == s.store[..s.pos];
    }
  }

  /** Below the capacity nothing happens. From there on, while four times the length is an
      int, a reallocation quadruples the length and copies, and counts, all there was. */
  lemma EnsureCounts(s: Buffer, length: Int32)
    requires Valid(s)
    ensures length < |s.store| ==> Ensure(s, length) == (s, Done)
    ensures |s.store| <= length < 0x2000_0000 ==>
      var (e, o) := Ensure(s, length);
      && o.Done? && |e.store| == 4 * length && e.store[..|s.store|] == s.store
      && e.copied == s.copied + |s.store|
  {
    if |s.store| <= length < 0x2000_0000 {
      QuadrupleInRoom(length);
    }
  }

  lemma PutAppends(s: Buffer, bytes: seq<Byte>)
    requires Valid(s)
    ensures var (t, o) := Put(s, bytes);
      && Valid(t) && t.order == s.order && |t.store| == |s.store|
      && (o.Done? <==> s.pos + |bytes| <= |s.store|)
      && Finish(t) == if o.Done? then Finish(s) + bytes else Finish(s)
  {
    var (t, o) := Put(s, bytes);
    if o.Done? {
      assert forall i :: t.pos <= i < |t.store| ==> t.store[i] == s.store[i];
      assert t.store[..t.pos] == s.store[..s.pos] + bytes;
    }
  }

  lemma EmitSucceedsWhenFits(s: Buffer, bytes: seq<Byte>)
    requires Valid(s) && 1 <= |bytes| <= 8
    ensures Emit(s, bytes).1.Done? <==> Fits(s, |bytes|)
  {
    var end := s.pos + |bytes|;
    EnsureIsInvisible(s, Wrap32(end));
    if end >= 0x8000_0000 {
      QuadruplePastTop(end);
    }
  }

  /** An emit succeeds exactly when `Fits`; it then appends its bytes, and otherwise
      leaves the contents alone. The invariant holds either way. */
  lemma EmitAppends(s: Buffer, bytes: seq<Byte>)
    requires Valid(s) && 1 <= |bytes| <= 8
    ensures var (t, o) := Emit(s, bytes);
      && Valid(t) && t.order == s.order
      && (o.Done? <==> Fits(s, |bytes|))
      && Finish(t) == if o.Done? then Finish(s) + bytes else Finish(s)
  {
    EmitSucceedsWhenFits(s, bytes);
    EnsureIsInvisible(s, Wrap32(s.pos + |bytes|));
    PutAppends(Ensure(s, Wrap32(s.pos + |bytes|)).0, bytes);
  }

  /** Which exception an emit throws that does not fit: past the int range the reservation
      is skipped and the store overflows; before that the new size is negative, or below
      the position, or too small for the value itself. */
  lemma EmitThrows(s: Buffer, bytes: seq<Byte>)
    requires Valid(s) && 1 <= |bytes| <= 8 && !Fits(s, |bytes|)
    ensures var end := s.pos + |bytes|; var n := Wrap32(4 * end);
      Emit(s, bytes).1 == Threw(
        if end >= 0x8000_0000 then BufferOverflow
        else if n < 0 then NegativeArraySize
        else if n < s.pos then IllegalArgument
        else BufferOverflow)
  {
    var end := s.pos + |bytes|;
    if end >= 0x8000_0000 {
      QuadruplePastTop(end);
    }
  }

  /** The bound up to which every emit succeeds is the first length at which one that has
      to reallocate fails: four times 2^29 is negative as an int. */
  lemma RoomIsTight(s: Buffer, bytes: seq<Byte>)
    requires Valid(s) && 1 <= |bytes| <= 8
    ensures s.pos + |bytes| < 0x2000_0000 ==> Emit(s, bytes).1.Done?
    ensures s.pos + |bytes| == 0x2000_0000 >= |s.store| ==> Emit(s, bytes).1 == Threw(NegativeArraySize)
    ensures ROOM == 0x2000_0000
  {
    EmitSucceedsWhenFits(s, bytes);
    if s.pos + |bytes| < ROOM {
      FitsBelowRoom(s, |bytes|);
    } else if s.pos + |bytes| == ROOM >= |s.store| {
      EmitThrows(s, bytes);
    }
  }

  lemma FitsBelowRoom(s: Buffer, k: nat)
    requires Valid(s) && s.pos + k < ROOM
    ensures Fits(s, k)
  {
    QuadrupleInRoom(s.pos + k);
  }

  // ----- alignment -----

  lemma AlignMovesTo(s: Buffer, alignment: Int32)
    requires Valid(s) && alignment > 0
    ensures var up := RoundUp(s.pos, alignment);
      && s.pos <= up
      && AlignTo(s, alignment) == if up <= |s.store| then (s.(pos := up), Done) else (s, Threw(IllegalArgument))
  {
    hide Mod, RoundUp;
    RoundUpByMod(s.pos, alignment);
    WrapPositive(s.pos + (alignment - Mod(s.pos, alignment)));
  }

  lemma WrapPositive(x: int)
    requires 0 <= x < 0x1_0000_0000
    ensures if x < 0x8000_0000 then Wrap32(x) == x else Wrap32(x) < 0
  {
  }

  lemma AdvanceOverZeros(s: Buffer, up: nat)
    requires Valid(s) && s.pos <= up <= |s.store|
    ensures Valid(s.(pos := up)) && Finish(s.(pos := up)) == Finish(s) + Zeros(up - s.pos)
  {
    assert s.store[..up] == s.store[..s.pos] + Zeros(up - s.pos);
  }

  /** A positive alignment succeeds exactly when the rounded position is within the
      current capacity (`align` never grows the array), and then appends zeros up to it. */
  lemma AlignAppendsZeros(s: Buffer, alignment: Int32)
    requires Valid(s) && alignment > 0
    ensures var (t, o) := AlignTo(s, alignment); var up := RoundUp(s.pos, alignment);
      && Valid(t) && t.order == s.order && |t.store| == |s.store|
      && (o.Done? <==> up <= |s.store|)
      && Finish(t) == if o.Done? then Finish(s) + Zeros(up - s.pos) else Finish(s)
  {
    AlignMovesTo(s, alignment);
    var up := RoundUp(s.pos, alignment);
    if up <= |s.store| {
      AdvanceOverZeros(s, up);
    }
  }

  /** Alignments dividing four always succeed: capacity is a multiple of four. */
  lemma SmallAlignmentsAlwaysFit(s: Buffer, alignment: Int32)
    requires Valid(s) && alignment in {1, 2, 4}
    ensures AlignTo(s, alignment).1.Done?
  {
    hide RoundUp, AlignTo;
    assert |s.store| % 1 == 0 && |s.store| % 2 == 0 && |s.store| % 4 == 0;
    RoundUpIsLeast(s.pos, alignment, |s.store|);
    AlignMovesTo(s, alignment);
  }

  /** For every alignment there is: `align` takes back written bytes exactly when it is
      given a negative one that the position is not a multiple of and does reach. */
  lemma AlignTakesBackIff(s: Buffer, alignment: Int32)
    requires Valid(s) && alignment != 0
    ensures AlignTo(s, alignment).0.pos < s.pos <==>
      alignment < 0 && Rem(s.pos, alignment) != 0 && s.pos - Rem(s.pos, alignment) + alignment >= 0
  {
    hide Mod;
    if alignment > 0 {
      AlignAppendsZeros(s, alignment);
    }
  }

  /** All there is to say of the others: zero divides nothing, and a negative alignment
      moves back past a multiple of its magnitude to the one before. */
  lemma AlignByNonPositive(s: Buffer, alignment: Int32)
    requires Valid(s) && alignment <= 0
    ensures alignment == 0 ==> AlignTo(s, alignment) == (s, Threw(Arithmetic))
    ensures alignment < 0 ==>
      var m, (t, o) := 0 - alignment, AlignTo(s, alignment);
      && (s.pos % m == 0 ==> t == s && o == Done)
      && (s.pos % m != 0 && s.pos < m ==> t == s && o == Threw(IllegalArgument))
      && (s.pos % m != 0 && s.pos >= m ==>
           t == s.(pos := t.pos) && t.pos == s.pos - s.pos % m - m && o == Done)
  {
    if alignment < 0 {
      var m: nat := 0 - alignment;
      ModIsRemainder(s.pos, m);
      DivMod(s.pos, m);
      if s.pos >= m {
        AtLeastOnce(s.pos / m, m);
      } else {
        ModUnique(s.pos, m, 0, s.pos);
      }
      hide Mod;
    }
  }

  /** For one: after five bytes, `align(-3)` goes back to the beginning. */
  lemma AlignTakesBackFive(s: Buffer)
    requires Valid(s) && s.pos == 5
    ensures AlignTo(s, -3) == (s.(pos := 0), Done)
  {
  }

  // ----- whole runs -----

  function Run(s: Buffer, ops: seq<BufferOp>): (t: Buffer)
    requires s.pos <= |s.store|
    ensures t.pos <= |t.store|
    decreases |ops|
  {
    if ops == [] then s else Run(Step(s, ops[0]).0, ops[1..])
  }

  /** The calls of a run that return normally. */
  function Survivors(s: Buffer, ops: seq<BufferOp>): (r: seq<BufferOp>)
    requires s.pos <= |s.store|
    ensures forall op :: op in r ==> op in ops
    decreases |ops|
  {
    if ops == [] then []
    else
      var (t, o) := Step(s, ops[0]);
      (if o.Done? then [ops[0]] else []) + Survivors(t, ops[1..])
  }

  /** The append-only byte sequence a list of calls stands for: no array, no capacity. */
  function Meaning(order: ByteOrder, sofar: seq<Byte>, ops: seq<BufferOp>): seq<Byte>
    requires AlignmentsPositive(ops)
    decreases |ops|
  {
    if ops == [] then sofar
    else
      var next := if ops[0].Align?
        then sofar + Zeros(RoundUp(|sofar|, ops[0].alignment) - |sofar|)
        else sofar + EmittedBytes(order, ops[0]);
      Meaning(order, next, ops[1..])
  }

  ghost predicate AlignmentsPositive(ops: seq<BufferOp>) {
    forall op :: op in ops && op.Align? ==> op.alignment > 0
  }

  lemma StepKeepsValid(s: Buffer, op: BufferOp)
    requires Valid(s) && (op.Align? ==> op.alignment > 0)
    ensures var (t, o) := Step(s, op);
      && Valid(t) && t.order == s.order && s.pos <= t.pos
      && Finish(t) == if o.Done? then Meaning(s.order, Finish(s), [op]) else Finish(s)
  {
    if op.Align? {
      AlignAppendsZeros(s, op.alignment);
    } else {
      EmitAppends(s, EmittedBytes(s.order, op));
    }
    assert |Finish(Step(s, op).0)| == Step(s, op).0.pos;
  }

  /** The buffer refines an append-only byte sequence: whatever the reallocations and the
      failures along the way, `finish` gives the bytes of the calls that returned
      normally, one after the other in the buffer's one byte order. */
  lemma {:induction false} RunRefinesAppend(s: Buffer, ops: seq<BufferOp>)
    requires Valid(s) && AlignmentsPositive(ops)
    ensures Valid(Run(s, ops)) && Run(s, ops).order == s.order
    ensures Finish(Run(s, ops)) == Meaning(s.order, Finish(s), Survivors(s, ops))
    decreases |ops|
  {
    if ops != [] {
      var (t, o) := Step(s, ops[0]);
      StepKeepsValid(s, ops[0]);
      RunRefinesAppend(t, ops[1..]);
      var rest := Survivors(t, ops[1..]);
      if o.Done? {
        assert ([ops[0]] + rest)[1..] == rest;
        assert Meaning(s.order, Finish(s), [ops[0]]) == Finish(t);
      } else {
        assert [] + rest == rest;
      }
    }
  }

  // ----- growth -----

  /** Copying so far is between a quarter and a third of what the capacity has grown by,
      and the capacity is bounded by four times what was written. */
  ghost predicate Amortised(s: Buffer) {
    && Valid(s)
    && 3 * s.copied <= |s.store| - INITIAL_CAPACITY <= 4 * s.copied
    && |s.store| >= INITIAL_CAPACITY
    && (|s.store| <= INITIAL_CAPACITY || |s.store| <= 4 * s.pos)
  }

  /** When an emit reallocates, to what size, and what that adds to the count. */
  lemma EmitGrows(s: Buffer, bytes: seq<Byte>)
    requires Valid(s) && 1 <= |bytes| <= 8 && s.pos + |bytes| < ROOM
    ensures var (t, o) := Emit(s, bytes); var end := s.pos + |bytes|;
      && o.Done? && t.pos == end
      && |t.store| == (if end < |s.store| then |s.store| else 4 * end)
      && t.copied == s.copied + (if end < |s.store| then 0 else |s.store|)
  {
    hide CopyOf;
    FitsBelowRoom(s, |bytes|);
    EnsureCounts(s, s.pos + |bytes|);
    EmitSucceedsWhenFits(s, bytes);
  }

  lemma StepStaysAmortised(s: Buffer, op: BufferOp)
    requires Amortised(s) && s.pos + 8 < ROOM && (op.Align? ==> op.alignment > 0)
    ensures Amortised(Step(s, op).0)
    ensures !op.Align? ==> Step(s, op).1.Done?
  {
    StepKeepsValid(s, op);
    if op.Align? {
      AlignAppendsZeros(s, op.alignment);
    } else {
      hide Emit;
      EmitGrows(s, EmittedBytes(s.order, op));
    }
  }

  /** What every buffer keeps for as long as it can: the bounds, below 2^29 bytes. */
  ghost predicate AmortisedInRoom(s: Buffer) {
    s.pos + 8 < ROOM ==> Amortised(s)
  }

  lemma StepStaysInRoom(s: Buffer, op: BufferOp)
    requires Valid(s) && AmortisedInRoom(s) && (op.Align? ==> op.alignment > 0)
    ensures AmortisedInRoom(Step(s, op).0)
  {
    hide Amortised, Step;
    StepKeepsValid(s, op);
    if s.pos + 8 < ROOM {
      StepStaysAmortised(s, op);
    }
  }

  lemma EmitStaysInRoom(s: Buffer, bytes: seq<Byte>)
    requires Valid(s) && AmortisedInRoom(s) && 1 <= |bytes| <= 8
    ensures AmortisedInRoom(Emit(s, bytes).0)
  {
    hide Emit;
    EmitAppends(s, bytes);
    assert |Finish(Emit(s, bytes).0)| == Emit(s, bytes).0.pos;
    if s.pos + |bytes| < ROOM {
      EmitGrows(s, bytes);
    }
  }

  lemma {:induction false} RunIsMonotone(s: Buffer, ops: seq<BufferOp>)
    requires Valid(s) && AlignmentsPositive(ops)
    ensures s.pos <= Run(s, ops).pos
    decreases |ops|
  {
    if ops != [] {
      StepKeepsValid(s, ops[0]);
      RunIsMonotone(Step(s, ops[0]).0, ops[1..]);
    }
  }

  /** Copying is linear in the output over every run that stays below the bound, and no
      emit in such a run fails. */
  lemma {:induction false} RunStaysAmortised(s: Buffer, ops: seq<BufferOp>)
    requires Amortised(s) && AlignmentsPositive(ops)
    requires Run(s, ops).pos + 8 < ROOM
    ensures Amortised(Run(s, ops))
    ensures forall op :: op in ops && !op.Align? ==> op in Survivors(s, ops)
    ensures (forall op :: op in ops ==> !op.Align?) ==> Survivors(s, ops) == ops
    decreases |ops|
  {
    RunIsMonotone(s, ops);
    if ops != [] {
      StepStaysAmortised(s, ops[0]);
      RunStaysAmortised(Step(s, ops[0]).0, ops[1..]);
      assert ops == [ops[0]] + ops[1..];
    }
  }

  lemma {:induction false} RunSplits(s: Buffer, xs: seq<BufferOp>, ys: seq<BufferOp>)
    requires s.pos <= |s.store|
    ensures Run(s, xs + ys) == Run(Run(s, xs), ys)
    decreases |xs|
  {
    if xs == [] {
      assert xs + ys == ys;
    } else {
      assert (xs + ys)[0] == xs[0] && (xs + ys)[1..] == xs[1..] + ys;
      RunSplits(Step(s, xs[0]).0, xs[1..], ys);
    }
  }

  /** While the position stays below the capacity the array stays. */
  lemma {:induction false} RunWithoutGrowth(s: Buffer, ops: seq<BufferOp>)
    requires Valid(s) && (forall op :: op in ops ==> !op.Align?)
    requires |Meaning(s.order, Finish(s), ops)| < |s.store| < ROOM
    ensures var t := Run(s, ops);
      && Valid(t) && t.order == s.order && |t.store| == |s.store| && t.copied == s.copied
      && Finish(t) == Meaning(s.order, Finish(s), ops)
    decreases |ops|
  {
    if ops != [] {
      var bytes, sofar := EmittedBytes(s.order, ops[0]), Finish(s);
      MeaningGrows(s.order, sofar + bytes, ops[1..]);
      EmitAppends(s, bytes);
      EnsureCounts(s, s.pos + |bytes|);
      RunWithoutGrowth(Step(s, ops[0]).0, ops[1..]);
    }
  }

  lemma {:induction false} MeaningGrows(order: ByteOrder, sofar: seq<Byte>, ops: seq<BufferOp>)
    requires AlignmentsPositive(ops)
    ensures |sofar| <= |Meaning(order, sofar, ops)|
    decreases |ops|
  {
    if ops != [] {
      MeaningGrows(order, if ops[0].Align?
        then sofar + Zeros(RoundUp(|sofar|, ops[0].alignment) - |sofar|)
        else sofar + EmittedBytes(order, ops[0]), ops[1..]);
    }
  }

  /** A fresh buffer is amortised, so all of the above holds of every buffer there is. */
  lemma EveryBuffer(order: ByteOrder, ops: seq<BufferOp>)
    requires AlignmentsPositive(ops)
    ensures var s := Run(Fresh(order), ops);
      && Valid(s)
      && Finish(s) == Meaning(order, [], Survivors(Fresh(order), ops))
      && (s.pos + 8 < 0x2000_0000 ==>
           && 3 * s.copied <= |s.store| - 32 <= 4 * s.copied
           && (|s.store| == 32 || |s.store| <= 4 * s.pos))
  {
    var f := Fresh(order);
    FreshIsValid(order);
    RunRefinesAppend(f, ops);
    if Run(f, ops).pos + 8 < ROOM {
      RunStaysAmortised(f, ops);
    }
  }
}
