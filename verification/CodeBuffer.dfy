/** The growable buffer itself, over a model of the parts of java.nio that it uses. */
module CodeBuffers {
  import opened JavaInts
  import opened Outcomes
  import Spec = BufferSpec

  /** A heap `java.nio.ByteBuffer` whose limit stays at its capacity. */
  class ByteBuffer {
    const hb: array<Byte>
    var pos: int
    var order: ByteOrder

    ghost predicate Valid()
      reads this
    {
      0 <= pos <= hb.Length
    }

    /** `ByteBuffer.allocate` */
    constructor Allocate(capacity: nat)
      ensures Valid() && fresh(hb)
      ensures hb[..] == Spec.Zeros(capacity) && pos == 0 && order == BigEndian
    {
      hb := new Byte[capacity](_ => 0);
      pos, order := 0, BigEndian;
    }

    /** `ByteBuffer.wrap` */
    constructor Wrap(bytes: array<Byte>)
      ensures Valid()
      ensures hb == bytes && pos == 0 && order == BigEndian
    {
      hb := bytes;
      pos, order := 0, BigEndian;
    }

    method SetOrder(o: ByteOrder)
      modifies this`order
      ensures order == o
    {
      order := o;
    }

    method SetPosition(p: int) returns (o: Outcome)
      modifies this`pos
      ensures o == if 0 <= p <= hb.Length then Done else Threw(IllegalArgument)
      ensures pos == if o.Done? then p else old(pos)
    {
      if !(0 <= p <= hb.Length) {
        return Threw(IllegalArgument);
      }
      pos := p;
      return Done;
    }

    /** `put`, `putShort`, `putInt` and `putLong`: the `n` low bytes of `v`, in the buffer's order. */
    method PutValue(v: int, n: nat) returns (o: Outcome)
      requires Valid()
      modifies this`pos, hb
      ensures Valid()
      ensures o == if old(pos) + n <= hb.Length then Done else Threw(BufferOverflow)
      ensures o.Done? ==> pos == old(pos) + n
      ensures o.Done? ==> hb[..] == old(hb[..])[..old(pos)] + StoreBytes(order, v, n) + old(hb[..])[old(pos) + n..]
      ensures o.Threw? ==> pos == old(pos) && hb[..] == old(hb[..])
    {
      if hb.Length - pos < n {
        return Threw(BufferOverflow);
      }
      var bytes := StoreBytes(order, v, n);
      forall i | 0 <= i < n {
        hb[pos + i] := bytes[i];
      }
      pos := pos + n;
      return Done;
    }
  }

  /** `Arrays.copyOf` */
  method CopyOf(a: array<Byte>, n: int) returns (o: Outcome, r: array<Byte>)
    ensures o == if n < 0 then Threw(NegativeArraySize) else Done
    ensures n < 0 ==> r == a
    ensures n >= 0 ==> fresh(r) && r[..] == Spec.CopyOf(a[..], n)
  {
    if n < 0 {
      return Threw(NegativeArraySize), a;
    }
    r := new Byte[n](_ => 0);
    var m := if n < a.Length then n else a.Length;
    forall i | 0 <= i < m {
      r[i] := a[i];
    }
    assert r[..] == Spec.CopyOf(a[..], n);
    return Done, r;
  }

  class CodeBuffer {
    var data: ByteBuffer
    ghost var copied: nat

    ghost function Repr(): set<object>
      reads this, data
    {
      {this, data, data.hb}
    }

    /** The footprint may only grow by new objects. */
    twostate predicate OldOrFresh()
      reads this, data
    {
      (data == old(data) || fresh(data)) && (data.hb == old(data.hb) || fresh(data.hb))
    }

    ghost function State(): (s: Spec.Buffer)
      requires 0 <= data.pos
      reads this, data, data.hb
    {
      Spec.Buffer(data.hb[..], data.pos, data.order, copied)
    }

    ghost predicate Valid()
      reads this, data, data.hb
    {
      data.Valid() && Spec.Valid(State()) && Spec.AmortisedInRoom(State())
    }

    /** The bytes written so far. */
    ghost function Contents(): (c: seq<Byte>)
      requires Valid()
      reads this, data, data.hb
      ensures |c| == data.pos
    {
      Spec.Finish(State())
    }

    constructor (nativeOrder: ByteOrder)
      ensures Valid() && fresh(Repr())
      ensures State() == Spec.Fresh(nativeOrder)
      ensures data.hb.Length == 32 && data.pos == 0 && copied == 0
      ensures Contents() == [] && data.order == nativeOrder
    {
      data := new ByteBuffer.Allocate(32);
      copied := 0;
      new;
      data.SetOrder(nativeOrder);
    }

    method EnsureSize(length: Int32) returns (o: Outcome)
      requires Valid()
      modifies this
      ensures data.Valid() && OldOrFresh()
      ensures (State(), o) == Spec.Ensure(old(State()), length)
      ensures o.Done? && length >= old(data.hb.Length) ==>
        && fresh(data) && fresh(data.hb) && data.hb.Length == Wrap32(length * 4)
        && copied == old(copied) + if data.hb.Length < old(data.hb.Length) then data.hb.Length else old(data.hb.Length)
      ensures o.Threw? || length < old(data.hb.Length) ==> data == old(data) && copied == old(copied)
    {
      if length >= data.hb.Length {
        var newBuf :- CopyOf(data.hb, Wrap32(length * 4));
        var newData := new ByteBuffer.Wrap(newBuf);
        newData.SetOrder(data.order);
        :- newData.SetPosition(data.pos);
        copied := copied + if newBuf.Length < data.hb.Length then newBuf.Length else data.hb.Length;
        data := newData;
      }
      return Done;
    }

    function Position(): int
      reads this, data
    {
      data.pos
    }

    /** Reserve, then store: the shape of every emit. */
    method EmitValue(v: int, n: nat) returns (o: Outcome)
      requires Valid() && 1 <= n <= 8
      modifies this, data, data.hb
      ensures Valid() && OldOrFresh()
      ensures (State(), o) == Spec.Emit(old(State()), StoreBytes(old(data.order), v, n))
      ensures data.order == old(data.order)
      ensures o.Done? <==> Spec.Fits(old(State()), n)
      ensures Contents() == old(Contents()) + if o.Done? then StoreBytes(data.order, v, n) else []
      ensures old(data.pos) + n < Spec.ROOM ==> o.Done?
    {
      hide Spec.Fits, Spec.Finish, Spec.Ensure, Spec.AmortisedInRoom, LowBytes;
      Spec.EmitAppends(State(), StoreBytes(data.order, v, n));
      Spec.EmitStaysInRoom(State(), StoreBytes(data.order, v, n));
      Spec.EnsureIsInvisible(State(), Wrap32(data.pos + n));
      if data.pos + n < Spec.ROOM {
        Spec.FitsBelowRoom(State(), n);
      }
      :- EnsureSize(Wrap32(data.pos + n));
      o := data.PutValue(v, n);
    }

    method EmitByte(b: Int32) returns (o: Outcome)
      requires Valid()
      modifies this, data, data.hb
      ensures Valid() && OldOrFresh()
      ensures (State(), o) == Spec.Step(old(State()), Spec.PutByte(b))
      ensures data.order == old(data.order)
      ensures Contents() == old(Contents()) + if o.Done? then [b % 0x100] else []
      ensures old(data.pos) + 1 < Spec.ROOM ==> o.Done?
    {
      // the value stored is (byte) (b & 0xFF), whose low byte is that of b
      o := EmitValue(b, 1);
      assert StoreBytes(data.order, b, 1) == [b % 0x100];
    }

    method EmitShort(v: Int32) returns (o: Outcome)
      requires Valid()
      modifies this, data, data.hb
      ensures Valid() && OldOrFresh()
      ensures (State(), o) == Spec.Step(old(State()), Spec.PutShort(v))
      ensures data.order == old(data.order)
      ensures Contents() == old(Contents()) + if o.Done? then StoreBytes(data.order, v, 2) else []
      ensures old(data.pos) + 2 < Spec.ROOM ==> o.Done?
    {
      o := EmitValue(v, 2);
    }

    method EmitInt(v: Int32) returns (o: Outcome)
      requires Valid()
      modifies this, data, data.hb
      ensures Valid() && OldOrFresh()
      ensures (State(), o) == Spec.Step(old(State()), Spec.PutInt(v))
      ensures data.order == old(data.order)
      ensures Contents() == old(Contents()) + if o.Done? then StoreBytes(data.order, v, 4) else []
      ensures old(data.pos) + 4 < Spec.ROOM ==> o.Done?
    {
      o := EmitValue(v, 4);
    }

    method EmitLong(v: Int64) returns (o: Outcome)
      requires Valid()
      modifies this, data, data.hb
      ensures Valid() && OldOrFresh()
      ensures (State(), o) == Spec.Step(old(State()), Spec.PutLong(v))
      ensures data.order == old(data.order)
      ensures Contents() == old(Contents()) + if o.Done? then StoreBytes(data.order, v, 8) else []
      ensures old(data.pos) + 8 < Spec.ROOM ==> o.Done?
    {
      o := EmitValue(v, 8);
    }

    /** The only call that can leave the buffer outside `Valid`: a negative alignment
        may move the position back over written bytes. */
    method Align(alignment: Int32) returns (o: Outcome)
      requires Valid()
      modifies data`pos
      ensures data.Valid()
      ensures (State(), o) == Spec.Step(old(State()), Spec.Align(alignment))
      ensures alignment > 0 ==> Valid()
    {
      if alignment > 0 {
        Spec.AlignAppendsZeros(State(), alignment);
        Spec.StepStaysInRoom(State(), Spec.Align(alignment));
      }
      var pos := data.pos;
      if alignment == 0 {
        return Threw(Arithmetic);
      }
      var misaligned := Rem(pos, alignment);
      if misaligned != 0 {
        pos := Wrap32(pos + (alignment - misaligned));
        o := data.SetPosition(pos);
      } else {
        o := Done;
      }
    }

    method Finish() returns (o: Outcome, code: array<Byte>)
      requires Valid()
      ensures o.Done? && fresh(code) && code[..] == Contents()
    {
      o, code := CopyOf(data.hb, data.pos);
    }
  }
}
