/** Frame allocation: `growFrame` and `newStackSlot` on Java ints. */
module Frames {
  import opened JavaInts

  /** `frameSize` and `curStackSlot`. */
  datatype Frame = Frame(size: Int32, cur: Int32)

  /** A stack slot: `size` bytes at `offset` from the end of the frame. */
  datatype Slot = Slot(offset: Int32, size: Int32)

  /** `growFrame`: the new frame, and the immediate of the SUB it emits, if it does. */
  function Grow(f: Frame, size: Int32, alignment: Int32): (r: (Frame, seq<Int32>))
    requires alignment > 0
    ensures |r.1| <= 1
  {
    var cur := Wrap32(f.cur + size);
    if cur > f.size then
      var rem := Rem(cur, alignment);
      var newSize := if rem != 0 then Wrap32(cur + (alignment - rem)) else cur;
      (Frame(newSize, cur), [Wrap32(newSize - f.size)])
    else
      (Frame(f.size, cur), [])
  }

  /** `newStackSlot` returns the frame's most recent bytes. */
  function SlotOf(f: Frame, size: Int32): Slot {
    Slot(Wrap32(0 - f.cur), size)
  }

  // ----- runs of requests -----

  datatype Growth = Growth(frame: Frame, subs: seq<Int32>, slots: seq<Slot>)

  function GrowAll(f: Frame, sizes: seq<Int32>, alignment: Int32): (g: Growth)
    requires alignment > 0
    ensures |g.slots| == |sizes|
    decreases |sizes|
  {
    if sizes == [] then Growth(f, [], [])
    else
      var (f', sub) := Grow(f, sizes[0], alignment);
      var rest := GrowAll(f', sizes[1..], alignment);
      Growth(rest.frame, sub + rest.subs, [SlotOf(f', sizes[0])] + rest.slots)
  }

  function Sum(xs: seq<Int32>): int {
    if xs == [] then 0 else xs[0] + Sum(xs[1..])
  }

  ghost predicate NonNegative(sizes: seq<Int32>) {
    forall i :: 0 <= i < |sizes| ==> sizes[i] >= 0
  }

  /** What the requests add up to. */
  ghost function Total(sizes: seq<Int32>): nat
    requires NonNegative(sizes)
  {
    if sizes == [] then 0 else sizes[0] + Total(sizes[1..])
  }

  lemma TotalSplit(sizes: seq<Int32>)
    requires NonNegative(sizes) && sizes != []
    ensures sizes[0] >= 0 && NonNegative(sizes[1..]) && Total(sizes) == sizes[0] + Total(sizes[1..])
  {
  }

  /** The frame is the rounded-up extent of the slots. */
  ghost predicate Rounded(f: Frame, alignment: Int32) {
    alignment > 0 && 0 <= f.cur && f.size == RoundUp(f.cur, alignment)
  }

  /** One request: as long as the rounded size is an int, the frame stays the rounded-up
      extent, and the SUB makes up the difference exactly. */
  lemma GrowKeepsRounded(f: Frame, size: Int32, alignment: Int32)
    requires Rounded(f, alignment) && size >= 0
    requires RoundUp(f.cur + size, alignment) < 0x8000_0000
    ensures var (g, subs) := Grow(f, size, alignment);
      && Rounded(g, alignment) && g.cur == f.cur + size
      && g.size >= f.size
      && subs == if g.size > f.size then [g.size - f.size] else []
  {
    hide Mod, RoundUp;
    var cur := f.cur + size;
    RoundUpByMod(cur, alignment);
    if cur <= f.size {
      RoundUpWithin(f.cur, cur, alignment);
    } else {
      RoundUpMonotone(f.cur, cur, alignment);
    }
  }

  lemma SumOfSubs(subs: seq<Int32>, rest: seq<Int32>)
    requires |subs| <= 1
    ensures Sum(subs + rest) == Sum(subs) + Sum(rest)
    ensures Sum(subs) == if subs == [] then 0 else subs[0]
  {
    if subs == [] {
      assert subs + rest == rest;
    } else {
      assert (subs + rest)[1..] == rest;
    }
  }

  /** The first request of a run that fits. */
  lemma FirstFits(f: Frame, sizes: seq<Int32>, alignment: Int32)
    requires Rounded(f, alignment) && NonNegative(sizes) && sizes != []
    requires RoundUp(f.cur + Total(sizes), alignment) < 0x8000_0000
    ensures NonNegative(sizes[1..])
    ensures var (g, subs) := Grow(f, sizes[0], alignment);
      && Rounded(g, alignment) && g.cur == f.cur + sizes[0] && sizes[0] >= 0
      && g.cur + Total(sizes[1..]) == f.cur + Total(sizes)
      && g.size >= f.size
      && Sum(subs) == g.size - f.size
  {
    hide RoundUp, Mod;
    TotalSplit(sizes);
    RoundUpMonotone(f.cur + sizes[0], f.cur + Total(sizes), alignment);
    GrowKeepsRounded(f, sizes[0], alignment);
    hide Grow;
    var subs := Grow(f, sizes[0], alignment).1;
    SumOfSubs(subs, []);
    assert subs + [] == subs;
  }

  /** Closed form after any run of requests whose rounded total is an int. */
  lemma {:induction false} GrowAllClosedForm(f: Frame, sizes: seq<Int32>, alignment: Int32)
    requires Rounded(f, alignment) && NonNegative(sizes)
    requires RoundUp(f.cur + Total(sizes), alignment) < 0x8000_0000
    ensures var g := GrowAll(f, sizes, alignment);
      && Rounded(g.frame, alignment)
      && g.frame.cur == f.cur + Total(sizes)
      && f.size <= g.frame.size
      && Sum(g.subs) == g.frame.size - f.size
    decreases |sizes|
  {
    if sizes != [] {
      FirstFits(f, sizes, alignment);
      var (f', sub) := Grow(f, sizes[0], alignment);
      GrowAllClosedForm(f', sizes[1..], alignment);
      SumOfSubs(sub, GrowAll(f', sizes[1..], alignment).subs);
    }
  }

  /** The closed form, from a frame of whole alignments, holds for exactly the runs whose
      rounded total is a Java int: beyond that no `int` frame size can be right. */
  lemma FrameClosedFormIff(initial: Int32, sizes: seq<Int32>, alignment: Int32)
    requires alignment > 0 && initial >= 0 && initial % alignment == 0 && NonNegative(sizes)
    ensures var g := GrowAll(Frame(initial, initial), sizes, alignment);
      var total := initial + Total(sizes);
      var up := RoundUp(total, alignment);
      up < 0x8000_0000 <==>
        (g.frame.cur == total && g.frame.size == up && total <= up < total + alignment && Sum(g.subs) == up - initial)
  {
    hide RoundUp, GrowAll, Total, Sum;
    RoundUpIsLeast(initial, alignment, initial);
    if RoundUp(initial + Total(sizes), alignment) < 0x8000_0000 {
      GrowAllClosedForm(Frame(initial, initial), sizes, alignment);
    }
  }

  /** A whole range of requests after which the frame size is negative. */
  lemma FrameSizeOverflows(size: Int32)
    requires 0x7FFF_FFE0 < size <= 0x7FFF_FFEF
    ensures GrowAll(Frame(16, 16), [size], 16).frame == Frame(-0x8000_0000, 16 + size)
  {
    var f, cur: int := Frame(16, 16), 16 + size;
    RoundUpByMod(cur, 16);
    RoundUpIsMultiple(cur, 16);
    assert RoundUp(cur, 16) == 0x8000_0000 by { hide RoundUp; }
    hide RoundUp, Mod;
    assert Grow(f, size, 16).0 == Frame(-0x8000_0000, cur);
    assert GrowAll(f, [size], 16).frame == GrowAll(Grow(f, size, 16).0, [], 16).frame;
  }

  /** Once the extent is negative as an int, Java's `%` is negative too, and rounding adds a
      whole alignment more than it should. */
  lemma GrowPastOverflow(f: Frame, size: Int32)
    requires f.size < Wrap32(f.cur + size) < 0
    ensures var cur := Wrap32(f.cur + size);
      Grow(f, size, 16).0.size == if cur % 16 == 0 then cur else cur - cur % 16 + 32
  {
    var cur: int := Wrap32(f.cur + size);
    RemTruncates(cur, 16);
    hide Mod, Rem;
  }

  /** `slots` have the sizes asked for and lie in `[low, high)`, relative to the frame's end. */
  ghost predicate SlotsWithin(slots: seq<Slot>, sizes: seq<Int32>, low: int, high: int) {
    |slots| == |sizes| &&
    forall i :: 0 <= i < |slots| ==>
      slots[i].size == sizes[i] && low <= slots[i].offset && slots[i].offset + slots[i].size <= high
  }

  /** Every slot lies wholly below all earlier ones. */
  ghost predicate SlotsDescend(slots: seq<Slot>) {
    forall i, j :: 0 <= i < j < |slots| ==> slots[j].offset + slots[j].size <= slots[i].offset
  }

  lemma GrowAllUnfolds(f: Frame, sizes: seq<Int32>, alignment: Int32)
    requires alignment > 0
    ensures sizes == [] ==> GrowAll(f, sizes, alignment) == Growth(f, [], [])
    ensures sizes != [] ==>
      var f' := Grow(f, sizes[0], alignment).0;
      var rest, g := GrowAll(f', sizes[1..], alignment), GrowAll(f, sizes, alignment);
      g.frame == rest.frame && g.slots == [SlotOf(f', sizes[0])] + rest.slots
  {
    hide Grow;
  }

  lemma NoSlots(low: int, high: int)
    ensures SlotsWithin([], [], low, high) && SlotsDescend([])
  {
  }

  lemma ConsSlot(s: Slot, slots: seq<Slot>, size: Int32, sizes: seq<Int32>, low: int, high: int)
    requires SlotsWithin(slots, sizes, low, s.offset) && SlotsDescend(slots)
    requires s.size == size >= 0 && low <= s.offset && s.offset + size <= high
    ensures SlotsWithin([s] + slots, [size] + sizes, low, high) && SlotsDescend([s] + slots)
  {
  }

  /** Slots never overlap one another, nor what was in the frame before the run, and all
      lie inside the final frame; this is about every slot of the run at once, so also
      about early slots after later growth. */
  lemma {:induction false} SlotsAreDisjoint(f: Frame, sizes: seq<Int32>, alignment: Int32)
    requires Rounded(f, alignment) && NonNegative(sizes)
    requires RoundUp(f.cur + Total(sizes), alignment) < 0x8000_0000
    ensures var g := GrowAll(f, sizes, alignment);
      SlotsWithin(g.slots, sizes, 0 - g.frame.size, 0 - f.cur) && SlotsDescend(g.slots)
    decreases |sizes|
  {
    hide RoundUp, Total, Grow, GrowAll, SlotsWithin, SlotsDescend;
    GrowAllUnfolds(f, sizes, alignment);
    NoSlots(0 - f.size, 0 - f.cur);
    if sizes != [] {
      FirstFits(f, sizes, alignment);
      var f' := Grow(f, sizes[0], alignment).0;
      var rest := GrowAll(f', sizes[1..], alignment);
      GrowAllClosedForm(f', sizes[1..], alignment);
      SlotsAreDisjoint(f', sizes[1..], alignment);
      ConsSlot(SlotOf(f', sizes[0]), rest.slots, sizes[0], sizes[1..], 0 - rest.frame.size, 0 - f.cur);
      assert sizes == [sizes[0]] + sizes[1..];
    }
  }
}
