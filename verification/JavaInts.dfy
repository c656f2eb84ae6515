/** Java's fixed-width integers, written out on unbounded ones: wrap-around, the
    truncating remainder, bitwise OR, and the bytes of a multi-byte value. */
module JavaInts {

  type Byte = x: int | 0 <= x < 0x100
  type Int32 = x: int | -0x8000_0000 <= x < 0x8000_0000
  type Int64 = x: int | -0x8000_0000_0000_0000 <= x < 0x8000_0000_0000_0000
  type Word = x: int | 0 <= x < 0x1_0000_0000_0000_0000

  const TWO_32 := 0x1_0000_0000
  const TWO_64 := 0x1_0000_0000_0000_0000

  /** The value a Java `int` holds after an operation whose exact result is `x`. */
  function Wrap32(x: int): (r: Int32)
    ensures r % TWO_32 == x % TWO_32
    ensures -0x8000_0000 <= x < 0x8000_0000 ==> r == x
  {
    (x + 0x8000_0000) % TWO_32 - 0x8000_0000
  }

  /** Counting one by one in a Java int. */
  lemma WrapStep(x: int)
    ensures Wrap32(Wrap32(x) + 1) == Wrap32(x + 1)
  {
  }

  /** Java's cast to `byte`, widened back to an int. */
  function JavaByte(x: int): (r: Int32)
    ensures r % 0x100 == x % 0x100
  {
    (x + 0x80) % 0x100 - 0x80
  }

  /** What is left of `x` when `m` is taken away as often as possible. */
  function Mod(x: nat, m: nat): (r: nat)
    requires m > 0
    ensures r < m && r <= x
    decreases x
  {
    if x < m then x else Mod(x - m, m)
  }

  /** Java's `%`: the remainder of the magnitudes, with the sign of the dividend. */
  function Rem(x: int, y: int): (r: int)
    requires y != 0
    ensures x >= 0 ==> 0 <= r <= x
  {
    var m: nat := if y < 0 then -y else y;
    if x >= 0 then Mod(x, m) else 0 - Mod(-x, m)
  }

  lemma {:induction false} ModIsRemainder(x: nat, m: nat)
    requires m > 0
    ensures Mod(x, m) == x % m
    decreases x
  {
    if x < m {
      ModUnique(x, m, 0, x);
    } else {
      ModIsRemainder(x - m, m);
      DivMod(x - m, m);
      var q := (x - m) / m;
      assert (q + 1) * m == q * m + m;
      ModUnique(x, m, q + 1, Mod(x - m, m));
    }
  }

  /** Truncation toward zero: the quotient that goes with the remainder is that of the
      magnitudes, with the sign of either operand. */
  lemma RemTruncates(x: int, y: int)
    requires y != 0
    ensures var m, n: nat := if y < 0 then -y else y, if x < 0 then -x else x;
      Rem(x, y) == if x < 0 then 0 - n % m else n % m
  {
    ModIsRemainder(if x < 0 then -x else x, if y < 0 then -y else y);
  }

  /** Bitwise OR of two's-complement integers, bit by bit. */
  function BitOr(a: int, b: int): int
    decreases if a < 0 then -a else a, if b < 0 then -b else b
  {
    if a == 0 then b
    else if b == 0 then a
    else if a == -1 || b == -1 then -1
    else 2 * BitOr(a / 2, b / 2) + (if a % 2 == 1 || b % 2 == 1 then 1 else 0)
  }

  function Pow2(k: nat): (p: nat)
    ensures p > 0
  {
    if k == 0 then 1 else 2 * Pow2(k - 1)
  }

  /** OR of values whose bits do not overlap is addition. */
  lemma {:induction false} BitOrIsSum(a: int, b: nat, k: nat)
    requires a % Pow2(k) == 0 && b < Pow2(k)
    ensures BitOr(a, b) == a + b
    decreases k
  {
    if a == 0 || b == 0 {
    } else if k == 0 {
    } else {
      var p := Pow2(k - 1);
      var q := a / (2 * p);
      assert a == 2 * (q * p);
      assert a / 2 == q * p;
      ModUnique(q * p, p, q, 0);
      assert b / 2 < p;
      BitOrIsSum(a / 2, b / 2, k - 1);
      assert a != -1 && a % 2 == 0;
    }
  }

  lemma OrIsSum(a: int, b: nat, p: nat)
    requires p in {2, 4, 8, 16, 64} && a % p == 0 && b < p
    ensures BitOr(a, b) == a + b
  {
    Pow2Values();
    var k := if p == 2 then 1 else if p == 4 then 2 else if p == 8 then 3 else if p == 16 then 4 else 6;
    BitOrIsSum(a, b, k);
  }

  /** The OR that assembles `wrxb` in a REX prefix. */
  lemma OrOfFlags(w: nat, r: nat, x: nat, b: nat)
    requires w in {0, 8} && r in {0, 4} && x in {0, 2} && b in {0, 1}
    ensures BitOr(BitOr(BitOr(w, r), x), b) == w + r + x + b
  {
    hide BitOr;
    OrIsSum(w, r, 8);
    var wr := w + r;
    OrIsSum(wr, x, 4);
    var wrx := wr + x;
    OrIsSum(wrx, b, 2);
  }

  /** The OR that assembles a ModR/M byte; `(byte) 0xC0` widens to -64. */
  lemma OrOfModRM(r: nat, m: nat)
    requires r < 64 && r % 8 == 0 && m < 8
    ensures BitOr(BitOr(-64, r), m) == -64 + r + m
  {
    hide BitOr;
    OrIsSum(-64, r, 64);
    OrIsSum(-64 + r, m, 8);
  }

  lemma ModUnique(v: int, m: int, q: int, r: int)
    requires 0 <= r < m && v == q * m + r
    ensures v % m == r && v / m == q
  {
    DivMod(v, m);
    var d := v / m - q;
    assert d * m == r - v % m by {
      assert d * m == v / m * m - q * m;
    }
    if d > 0 {
      AtLeastOnce(d, m);
    } else if d < 0 {
      AtLeastOnce(-d, m);
    }
  }

  lemma DivMod(v: int, m: int)
    requires m > 0
    ensures v == v / m * m + v % m && 0 <= v % m < m
  {
  }

  lemma AtLeastOnce(k: int, m: int)
    requires k >= 1 && m >= 1
    ensures k * m >= m
  {
  }

  datatype ByteOrder = LittleEndian | BigEndian

  /** The `n` low-order bytes of `v`, least significant first. */
  function LowBytes(v: int, n: nat): (bs: seq<Byte>)
    ensures |bs| == n
    decreases n, v
  {
    if n == 0 then [] else [v % 0x100] + LowBytes(v / 0x100, n - 1)
  }

  /** The unsigned number whose bytes, least significant first, are `bs`. */
  function FromLow(bs: seq<Byte>): (v: nat)
  {
    if bs == [] then 0 else bs[0] + 0x100 * FromLow(bs[1..])
  }

  function Reverse(bs: seq<Byte>): (r: seq<Byte>)
    ensures |r| == |bs|
    ensures forall i :: 0 <= i < |bs| ==> r[i] == bs[|bs| - 1 - i]
  {
    if bs == [] then [] else Reverse(bs[1..]) + [bs[0]]
  }

  /** The bytes of a store of `n` bytes in the given order. */
  function StoreBytes(order: ByteOrder, v: int, n: nat): (bs: seq<Byte>)
    ensures |bs| == n
  {
    if order.LittleEndian? then LowBytes(v, n) else Reverse(LowBytes(v, n))
  }

  /** The unsigned value a load of all of `bs` in the given order sees. */
  function LoadBytes(order: ByteOrder, bs: seq<Byte>): nat
  {
    if order.LittleEndian? then FromLow(bs) else FromLow(Reverse(bs))
  }

  lemma {:induction false} FromLowOfLowBytes(v: int, n: nat)
    ensures FromLow(LowBytes(v, n)) == v % Pow2(8 * n)
    decreases n
  {
    if n != 0 {
      var k := n - 1;
      FromLowOfLowBytes(v / 0x100, k);
      Pow2Plus8(8 * k);
      assert 8 * n == 8 * k + 8;
      SplitMod(v, Pow2(8 * k));
      assert LowBytes(v, n)[1..] == LowBytes(v / 0x100, k);
    }
  }

  lemma SplitMod(v: int, p: nat)
    requires p > 0
    ensures v % 0x100 + 0x100 * (v / 0x100 % p) == v % (0x100 * p)
  {
    var w := v / 0x100;
    DivMod(w, p);
    var q, r := w / p, w % p;
    assert v == q * (0x100 * p) + (0x100 * r + v % 0x100) by {
      assert q * (0x100 * p) == 0x100 * (q * p);
    }
    ModUnique(v, 0x100 * p, q, 0x100 * r + v % 0x100);
  }

  lemma LowBytesOfLong(v: int)
    ensures FromLow(LowBytes(v, 8)) == v % TWO_64
  {
    FromLowOfLowBytes(v, 8);
    Pow2Values();
  }

  lemma LowBytesOfInt(v: int)
    ensures FromLow(LowBytes(v, 4)) == v % TWO_32
  {
    FromLowOfLowBytes(v, 4);
    Pow2Values();
  }

  lemma WrapOfMod(v: Int32)
    ensures Wrap32(v % TWO_32) == v
  {
  }

  lemma Pow2Plus8(k: nat)
    ensures Pow2(k + 8) == 0x100 * Pow2(k)
  {
    assert Pow2(k + 8) == 4 * Pow2(k + 6) == 16 * Pow2(k + 4) == 64 * Pow2(k + 2);
  }

  lemma Pow2Values()
    ensures Pow2(1) == 2 && Pow2(2) == 4 && Pow2(3) == 8 && Pow2(4) == 16 && Pow2(6) == 64
    ensures Pow2(8) == 0x100 && Pow2(16) == 0x1_0000
    ensures Pow2(32) == TWO_32 && Pow2(64) == TWO_64
  {
    assert Pow2(4) == 16 && Pow2(6) == 64;
    Pow2Plus8(0); Pow2Plus8(8); Pow2Plus8(16); Pow2Plus8(24);
    Pow2Plus8(32); Pow2Plus8(40); Pow2Plus8(48); Pow2Plus8(56);
  }

  lemma ReverseTwice(bs: seq<Byte>)
    ensures Reverse(Reverse(bs)) == bs
  {
  }

  lemma {:induction false} ByteOfLow(v: int, n: nat, i: nat)
    requires i < n
    ensures LowBytes(v, n)[i] == v / Pow2(8 * i) % 0x100
    decreases n
  {
    if i != 0 {
      ByteOfLow(v / 0x100, n - 1, i - 1);
      Pow2Plus8(8 * (i - 1));
      assert 8 * i == 8 * (i - 1) + 8;
      DivTwice(v, Pow2(8 * (i - 1)));
    } else {
      assert Pow2(8 * i) == 1;
    }
  }

  lemma DivTwice(v: int, p: nat)
    requires p > 0
    ensures v / 0x100 / p == v / (0x100 * p)
  {
    var w := v / 0x100;
    DivMod(w, p);
    var q, r := w / p, w % p;
    assert v == q * (0x100 * p) + (0x100 * r + v % 0x100) by {
      assert q * (0x100 * p) == 0x100 * (q * p);
    }
    ModUnique(v, 0x100 * p, q, 0x100 * r + v % 0x100);
  }

  /** Which byte of the value stands where: the least significant one first or last. */
  lemma ByteOfStore(order: ByteOrder, v: int, n: nat, i: nat)
    requires i < n
    ensures StoreBytes(order, v, n)[i] == v / Pow2(8 * (if order.LittleEndian? then i else n - 1 - i)) % 0x100
  {
    ByteOfLow(v, n, if order.LittleEndian? then i else n - 1 - i);
  }

  /** A load in the order of the store gives back the value, truncated to its width. */
  lemma LoadAfterStore(order: ByteOrder, v: int, n: nat)
    ensures LoadBytes(order, StoreBytes(order, v, n)) == v % Pow2(8 * n)
  {
    FromLowOfLowBytes(v, n);
    ReverseTwice(LowBytes(v, n));
  }

  // ----- rounding up to a multiple -----

  /** The least multiple of `a` that is at least `x`, counting up. */
  function RoundUp(x: nat, a: nat): (up: nat)
    requires a > 0
    ensures x <= up < x + a
    decreases x
  {
    if x == 0 then 0 else if x <= a then a else a + RoundUp(x - a, a)
  }

  /** Padding by what the remainder lacks reaches it. */
  lemma {:induction false} RoundUpByMod(x: nat, a: nat)
    requires a > 0
    ensures RoundUp(x, a) == if Mod(x, a) == 0 then x else x + (a - Mod(x, a))
    decreases x
  {
    if x > a {
      RoundUpByMod(x - a, a);
    } else if x == a {
      assert Mod(0, a) == 0;
    }
  }

  lemma NextMultiple(m: nat, a: nat)
    requires a > 0 && m % a == 0
    ensures (a + m) % a == 0
  {
    DivMod(m, a);
    var q := m / a + 1;
    assert q * a == m / a * a + a;
    ModUnique(a + m, a, q, 0);
  }

  lemma {:induction false} RoundUpIsMultiple(x: nat, a: nat)
    requires a > 0
    ensures RoundUp(x, a) % a == 0
    decreases x
  {
    if x > a {
      RoundUpIsMultiple(x - a, a);
      NextMultiple(RoundUp(x - a, a), a);
    } else {
      ModUnique(0, a, 0, 0);
      ModUnique(a, a, 1, 0);
    }
  }

  lemma RoundUpIsLeast(x: nat, a: nat, m: nat)
    requires a > 0 && x <= m && m % a == 0
    ensures RoundUp(x, a) <= m
  {
    RoundUpIsMultiple(x, a);
    hide RoundUp;
    if RoundUp(x, a) > m {
      CloseMultiples(m, RoundUp(x, a), a);
    }
  }

  /** Multiples of `a` less than `a` apart are equal. */
  lemma CloseMultiples(m: nat, n: nat, a: nat)
    requires a > 0 && m % a == 0 && n % a == 0 && m <= n < m + a
    ensures m == n
  {
    DivMod(m, a);
    DivMod(n, a);
    var d := n / a - m / a;
    assert d * a == n - m by {
      assert d * a == n / a * a - m / a * a;
    }
    if d >= 1 { AtLeastOnce(d, a); }
  }

  lemma RoundUpWithin(x: nat, y: nat, a: nat)
    requires a > 0 && x <= y <= RoundUp(x, a)
    ensures RoundUp(y, a) == RoundUp(x, a)
  {
    hide RoundUp;
    RoundUpIsMultiple(x, a);
    RoundUpIsMultiple(y, a);
    var rx, ry := RoundUp(x, a), RoundUp(y, a);
    if rx <= ry { CloseMultiples(rx, ry, a); } else { CloseMultiples(ry, rx, a); }
  }

  lemma RoundUpMonotone(x: nat, y: nat, a: nat)
    requires a > 0 && x <= y
    ensures RoundUp(x, a) <= RoundUp(y, a)
  {
    RoundUpIsMultiple(y, a);
    RoundUpIsLeast(x, a, RoundUp(y, a));
  }
}
