/** Running what the assembler wrote: from items in the code to machine steps. */
module Execution {
  import opened JavaInts
  import opened Decoder
  import opened Encoder
  import opened Machine

  /** The bytes of `item` are at offset `pc`. */
  ghost predicate ItemAt(code: seq<Byte>, pc: int, item: Item) {
    0 <= pc && pc + |ItemBytes(item)| <= |code| && code[pc..pc + |ItemBytes(item)|] == ItemBytes(item)
  }

  ghost predicate ItemsAt(code: seq<Byte>, pc: int, items: seq<Item>)
    decreases |items|
  {
    items == [] || (ItemAt(code, pc, items[0]) && ItemsAt(code, pc + |ItemBytes(items[0])|, items[1..]))
  }

  lemma {:induction false} BytesAreItemsAt(before: seq<Byte>, items: seq<Item>, code: seq<Byte>)
    requires before + Bytes(items) <= code
    ensures ItemsAt(code, |before|, items)
    decreases |items|
  {
    hide ItemBytes;
    if items != [] {
      var first, rest := ItemBytes(items[0]), Bytes(items[1..]);
      assert (before + first) + rest == before + Bytes(items);
      assert code[|before|..|before| + |first|] == first;
      BytesAreItemsAt(before + first, items[1..], code);
    }
  }

  /** The effect of the item at the counter. */
  function ExecItem(env: Env, c: Conf, item: Item): Conf {
    if c.Running? then Execute(env, ItemMeaning(item), c.pc + |ItemBytes(item)|, c.s, c.calls) else c
  }

  lemma ItemNotEmpty(item: Item)
    ensures |ItemBytes(item)| >= 1
  {
    hide Decode;
    ItemDecodes(item, []);
  }

  /** One machine step executes the item at the counter. */
  lemma StepIsExecItem(env: Env, c: Conf, item: Item)
    requires c.Running? && ItemAt(env.code, c.pc, item)
    ensures Step(env, c) == ExecItem(env, c, item)
    ensures StaysBelow(env, c, 1, c.pc + |ItemBytes(item)|)
  {
    hide ItemBytes, Execute, Decode;
    var end := c.pc + |ItemBytes(item)|;
    assert env.code[c.pc..] == ItemBytes(item) + env.code[end..];
    ItemDecodes(item, env.code[end..]);
    ItemNotEmpty(item);
    assert Steps(env, c, 0) == c;
  }

  function ExecItems(env: Env, c: Conf, items: seq<Item>): Conf
    decreases |items|
  {
    if items == [] then c else ExecItems(env, ExecItem(env, c, items[0]), items[1..])
  }

  /** Every item but the last leaves the counter at the next one. */
  ghost predicate FallsThrough(env: Env, c: Conf, items: seq<Item>)
    decreases |items|
  {
    items == [] ||
    (c.Running? &&
     var d := ExecItem(env, c, items[0]);
     (items[1..] == [] || (d.Running? && d.pc == c.pc + |ItemBytes(items[0])|)) &&
     FallsThrough(env, d, items[1..]))
  }

  /** Straight-line code runs item by item and stays within its own bytes. */
  lemma {:induction false} RunIsExecItems(env: Env, c: Conf, items: seq<Item>)
    requires c.Running? && c.pc >= 0 && ItemsAt(env.code, c.pc, items) && FallsThrough(env, c, items)
    ensures RunsTo(env, c, |items|, c.pc + |Bytes(items)|, ExecItems(env, c, items))
    decreases |items|
  {
    hide ItemBytes, Execute, ItemMeaning, Steps, StaysBelow;
    FirstSteps(env, c, c.pc);
    if items != [] {
      var d := ExecItem(env, c, items[0]);
      var n, limit := |items| - 1, c.pc + |Bytes(items)|;
      StepIsExecItem(env, c, items[0]);
      Widen(env, c, 1, c.pc + |ItemBytes(items[0])|, limit);
      if n == 0 {
        assert items[1..] == [];
      } else {
        RunIsExecItems(env, d, items[1..]);
        StepsSplit(env, c, 1, n);
        StaysBelowSplits(env, c, 1, n, limit);
      }
    }
  }

  /** Items that stand after `before` in the code, run from where they start. */
  lemma ItemsRun(env: Env, before: seq<Byte>, items: seq<Item>, s: State, calls: seq<CallEvent>, end: Conf)
    requires before + Bytes(items) <= env.code
    requires FallsThrough(env, Running(|before|, s, calls), items)
    requires ExecItems(env, Running(|before|, s, calls), items) == end
    ensures RunsTo(env, Running(|before|, s, calls), |items|, |before| + |Bytes(items)|, end)
  {
    hide Bytes, FallsThrough, ExecItems, RunsTo, ItemsAt;
    BytesAreItemsAt(before, items, env.code);
    RunIsExecItems(env, Running(|before|, s, calls), items);
  }

  lemma FirstSteps(env: Env, c: Conf, limit: int)
    ensures RunsTo(env, c, 0, limit, c)
    ensures Steps(env, c, 1) == Step(env, c)
  {
    assert Steps(env, Step(env, c), 0) == Step(env, c);
  }

  /** Two runs, one after the other. */
  lemma Compose(env: Env, c: Conf, m: nat, limit: int, mid: Conf, n: nat, wider: int, end: Conf)
    requires RunsTo(env, c, m, limit, mid) && RunsTo(env, mid, n, wider, end) && limit <= wider
    ensures RunsTo(env, c, m + n, wider, end)
  {
    hide Steps, StaysBelow;
    StepsSplit(env, c, m, n);
    Widen(env, c, m, limit, wider);
    StaysBelowSplits(env, c, m, n, wider);
  }

  lemma Widen(env: Env, c: Conf, n: nat, limit: int, wider: int)
    requires StaysBelow(env, c, n, limit) && limit <= wider
    ensures StaysBelow(env, c, n, wider)
  {
  }

  /** `ExecItems` and `FallsThrough` of four items, unrolled. */
  lemma FourItems(env: Env, c: Conf, i0: Item, i1: Item, i2: Item, i3: Item)
    requires c.Running?
    requires ExecItem(env, c, i0).Running? && ExecItem(env, c, i0).pc == c.pc + |ItemBytes(i0)|
    requires var c1 := ExecItem(env, c, i0);
      ExecItem(env, c1, i1).Running? && ExecItem(env, c1, i1).pc == c1.pc + |ItemBytes(i1)|
    requires var c2 := ExecItem(env, ExecItem(env, c, i0), i1);
      ExecItem(env, c2, i2).Running? && ExecItem(env, c2, i2).pc == c2.pc + |ItemBytes(i2)|
    ensures FallsThrough(env, c, [i0, i1, i2, i3])
    ensures ExecItems(env, c, [i0, i1, i2, i3])
         == ExecItem(env, ExecItem(env, ExecItem(env, ExecItem(env, c, i0), i1), i2), i3)
    ensures |Bytes([i0, i1, i2, i3])| == |ItemBytes(i0)| + |ItemBytes(i1)| + |ItemBytes(i2)| + |ItemBytes(i3)|
  {
    hide ItemBytes, Execute, ItemMeaning;
    assert [i0, i1, i2, i3][1..] == [i1, i2, i3];
    ThreeItems(env, ExecItem(env, c, i0), i1, i2, i3);
  }

  lemma ThreeItems(env: Env, c: Conf, i0: Item, i1: Item, i2: Item)
    requires c.Running?
    requires ExecItem(env, c, i0).Running? && ExecItem(env, c, i0).pc == c.pc + |ItemBytes(i0)|
    requires var c1 := ExecItem(env, c, i0);
      ExecItem(env, c1, i1).Running? && ExecItem(env, c1, i1).pc == c1.pc + |ItemBytes(i1)|
    ensures FallsThrough(env, c, [i0, i1, i2])
    ensures ExecItems(env, c, [i0, i1, i2]) == ExecItem(env, ExecItem(env, ExecItem(env, c, i0), i1), i2)
    ensures |Bytes([i0, i1, i2])| == |ItemBytes(i0)| + |ItemBytes(i1)| + |ItemBytes(i2)|
  {
    hide ItemBytes, Execute, ItemMeaning;
    assert [i0, i1, i2][1..] == [i1, i2];
    TwoItems(env, ExecItem(env, c, i0), i1, i2);
  }

  lemma TwoItems(env: Env, c: Conf, i0: Item, i1: Item)
    requires c.Running?
    requires ExecItem(env, c, i0).Running? && ExecItem(env, c, i0).pc == c.pc + |ItemBytes(i0)|
    ensures FallsThrough(env, c, [i0, i1])
    ensures ExecItems(env, c, [i0, i1]) == ExecItem(env, ExecItem(env, c, i0), i1)
    ensures |Bytes([i0, i1])| == |ItemBytes(i0)| + |ItemBytes(i1)|
  {
    hide ItemBytes, Execute, ItemMeaning;
    assert [i0, i1][1..] == [i1];
    OneItem(env, ExecItem(env, c, i0), i1);
  }

  lemma OneItem(env: Env, c: Conf, i0: Item)
    requires c.Running?
    ensures FallsThrough(env, c, [i0])
    ensures ExecItems(env, c, [i0]) == ExecItem(env, c, i0)
    ensures |Bytes([i0])| == |ItemBytes(i0)|
  {
    hide ItemBytes, Execute, ItemMeaning;
    assert [i0][1..] == [];
    assert ExecItems(env, ExecItem(env, c, i0), []) == ExecItem(env, c, i0);
    assert FallsThrough(env, ExecItem(env, c, i0), []);
  }
}
