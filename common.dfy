/**
 * The firmware's generic helpers (firmware/common.hpp).
 *
 * The helpers are C++ templates. The firmware runs on an 8-bit AVR, where
 * `int` and `unsigned int` are 16 bits wide; the fixed-width integer types
 * are modelled as subsets of `int`, and the bit operations on `bv` values.
 */
module Common {

  type uint8 = x: int | 0 <= x < 0x100
  type uint16 = x: int | 0 <= x < 0x1_0000
  type uint32 = x: int | 0 <= x < 0x1_0000_0000
  /** The AVR's `int`. */
  type int16 = x: int | -0x8000 <= x < 0x8000

  /** `size(arr)`: the declared length of a C array. */
  function Size<T>(a: array<T>): (n: nat)
    ensures n == a.Length
  {
    a.Length
  }

  /** `set_bits(x, mask, bit)`: sets (bit) or clears (!bit) the mask bits of a register. */
  method SetBits(x: bv8, mask: bv8, bit: bool) returns (x': bv8)
    ensures x' & mask == if bit then mask else 0
    ensures x' & !mask == x & !mask
  {
    if bit {
      x' := x | mask;
    } else {
      x' := x & !mask;
    }
  }

  /**
   * Negation in the AVR's 16-bit `int`. C leaves `-x` at the minimum value
   * undefined (signed overflow); the value taken here is the two's
   * complement wrap-around the compiler produces in practice.
   */
  function Negate16(x: int16): (r: int16)
    ensures (x + r) % 0x1_0000 == 0
    ensures x != -0x8000 ==> r == -x
    ensures x == -0x8000 ==> r == x
  {
    if x == -0x8000 then x else -x
  }

  /** `abs(x)` instantiated at the AVR's `int`; see `Negate16` for the minimum value. */
  function Abs(x: int16): (r: int16)
    ensures x != -0x8000 ==> r >= 0 && (r == x || r == -x)
    ensures x == -0x8000 ==> r == x
  {
    if x < 0 then Negate16(x) else x
  }

  function Min(x: int, y: int): (r: int)
    ensures r <= x && r <= y
    ensures r == x || r == y
  {
    if x < y then x else y
  }

  function Max(x: int, y: int): (r: int)
    ensures r >= x && r >= y
    ensures r == x || r == y
  {
    if x > y then x else y
  }

  /** `clamp(x, low, high)`; below `low` wins over above `high`. */
  function Clamp(x: int, low: int, high: int): (r: int)
    ensures low <= high ==> low <= r <= high
    ensures low <= x <= high ==> r == x
    ensures x < low ==> r == low
    ensures low <= high && high < x ==> r == high
  {
    if x < low then low else if x > high then high else x
  }

  /** 2 to the power `k`: a left shift by `k` multiplies by it. */
  function Pow2(k: nat): (r: nat)
    ensures r >= 1
  {
    if k == 0 then 1 else 2 * Pow2(k - 1)
  }

  /** Bitwise `|` on non-negative integers, one bit at a time from the least significant. */
  function BitOr(x: nat, y: nat): nat
    decreases x + y
  {
    if x == 0 && y == 0 then 0
    else 2 * BitOr(x / 2, y / 2) + (if x % 2 == 1 || y % 2 == 1 then 1 else 0)
  }

  /** Bitwise `&` on non-negative integers, one bit at a time from the least significant. */
  function BitAnd(x: nat, y: nat): nat
    decreases x + y
  {
    if x == 0 || y == 0 then 0
    else 2 * BitAnd(x / 2, y / 2) + (if x % 2 == 1 && y % 2 == 1 then 1 else 0)
  }

  lemma {:induction false} BitOrZero(x: nat)
    ensures BitOr(x, 0) == x && BitOr(0, x) == x
    decreases x
  {
    if x != 0 {
      BitOrZero(x / 2);
    }
  }

  lemma {:induction false} BitOrCommutes(x: nat, y: nat)
    ensures BitOr(x, y) == BitOr(y, x)
    decreases x + y
  {
    if x != 0 || y != 0 {
      BitOrCommutes(x / 2, y / 2);
    }
  }

  /** Or-ing a value below 2^k into a multiple of 2^k is addition: the bits do not overlap. */
  lemma {:induction false} BitOrDisjoint(h: nat, l: nat, k: nat)
    requires l < Pow2(k)
    ensures BitOr(h * Pow2(k), l) == h * Pow2(k) + l
    decreases k
  {
    if k == 0 {
      BitOrZero(h);
    } else if h == 0 {
      BitOrZero(l);
    } else {
      var x := h * Pow2(k);
      assert x == 2 * (h * Pow2(k - 1));
      assert x / 2 == h * Pow2(k - 1) && x % 2 == 0;
      BitOrDisjoint(h, l / 2, k - 1);
    }
  }

  lemma Pow2Add(i: nat, j: nat)
    ensures Pow2(i + j) == Pow2(i) * Pow2(j)
    decreases i
  {
    if i > 0 {
      Pow2Add(i - 1, j);
      var a := Pow2(i - 1);
      var b := Pow2(j);
      assert Pow2(i + j) == 2 * Pow2(i - 1 + j);
      assert Pow2(i) == 2 * a;
      MulDouble(b, a);
    }
  }

  /** Division with remainder is unique. */
  lemma DivModUnique(x: int, d: int, q: int, r: int)
    requires d > 0 && 0 <= r < d && x == d * q + r
    ensures x / d == q && x % d == r
  {
    var t := q - x / d;
    assert d * t == x % d - r;
    MulAwayFromZero(d, t);
  }

  lemma MulAwayFromZero(d: int, t: int)
    requires d > 0
    ensures t >= 1 ==> d * t >= d
    ensures t <= -1 ==> d * t <= -d
  {
    if t >= 1 {
      assert d * t == d + d * (t - 1);
    } else if t <= -1 {
      assert d * t == -d + d * (t + 1);
    }
  }

  /** The product of two naturals, as a natural. */
  function MulNat(x: nat, y: nat): (r: nat)
    ensures r == x * y
  {
    x * y
  }

  lemma MulDouble(x: int, p: int)
    ensures x * (2 * p) == 2 * (x * p)
  {
  }

  lemma BitOrDouble(x: nat, y: nat)
    ensures BitOr(2 * x, 2 * y) == 2 * BitOr(x, y)
  {
    if x == 0 && y == 0 {
    } else {
      assert (2 * x) / 2 == x && (2 * x) % 2 == 0;
      assert (2 * y) / 2 == y && (2 * y) % 2 == 0;
    }
  }

  /** Shifting both operands left by k shifts their `|` left by k. */
  lemma {:induction false} BitOrShift(x: nat, y: nat, k: nat)
    ensures BitOr(x * Pow2(k), y * Pow2(k)) == BitOr(x, y) * Pow2(k)
    decreases k
  {
    if k > 0 {
      var p := Pow2(k - 1);
      var xp := MulNat(x, p);
      var yp := MulNat(y, p);
      BitOrShift(x, y, k - 1);
      BitOrDouble(xp, yp);
      MulDouble(x, p);
      MulDouble(y, p);
      MulDouble(BitOr(x, y), p);
    }
  }

  /** `x & (2^k - 1)` keeps the k low bits. */
  lemma {:induction false} BitAndLowMask(x: nat, k: nat)
    ensures BitAnd(x, Pow2(k) - 1) == x % Pow2(k)
    decreases k
  {
    if k > 0 {
      var p := Pow2(k - 1);
      var m := Pow2(k) - 1;
      assert m / 2 == p - 1 && m % 2 == 1;
      BitAndLowMask(x / 2, k - 1);
      BitAndStep(x, m);
      LowMaskCombine(x, p, BitAnd(x, m), BitAnd(x / 2, p - 1));
    }
  }

  /** A number whose upper bits are those of (x/2) mod p and whose lowest bit is x's is x mod 2p. */
  lemma LowMaskCombine(x: nat, p: nat, l: nat, upper: nat)
    requires p >= 1
    requires l / 2 == upper && l % 2 == x % 2
    requires upper == (x / 2) % p
    ensures l == x % (2 * p)
  {
    DivModTwice(x, p);
    Halves(l, x % (2 * p));
  }

  /** x mod 2p peeled into its lowest bit and the remaining bits. */
  lemma DivModTwice(x: nat, p: nat)
    requires p >= 1
    ensures x % (2 * p) == 2 * ((x / 2) % p) + x % 2
  {
    var q := (x / 2) / p;
    var r := (x / 2) % p;
    assert x / 2 == p * q + r;
    assert x == (2 * p) * q + (2 * r + x % 2);
    DivModUnique(x, 2 * p, q, 2 * r + x % 2);
  }

  /** One step of `|`: the lowest bit, and the rest shifted right. */
  lemma BitOrStep(x: nat, y: nat)
    ensures BitOr(x, y) / 2 == BitOr(x / 2, y / 2)
    ensures BitOr(x, y) % 2 == if x % 2 == 1 || y % 2 == 1 then 1 else 0
  {
    var b := if x % 2 == 1 || y % 2 == 1 then 1 else 0;
    if x == 0 && y == 0 {
      assert BitOr(0, 0) == 0;
    } else {
      DivModUnique(BitOr(x, y), 2, BitOr(x / 2, y / 2), b);
    }
  }

  /** One step of `&`: the lowest bit, and the rest shifted right. */
  lemma BitAndStep(x: nat, y: nat)
    ensures BitAnd(x, y) / 2 == BitAnd(x / 2, y / 2)
    ensures BitAnd(x, y) % 2 == if x % 2 == 1 && y % 2 == 1 then 1 else 0
  {
    var b := if x % 2 == 1 && y % 2 == 1 then 1 else 0;
    if x == 0 || y == 0 {
      assert BitAnd(x / 2, y / 2) == 0;
    } else {
      DivModUnique(BitAnd(x, y), 2, BitAnd(x / 2, y / 2), b);
    }
  }

  /** A number is twice its upper bits plus its lowest bit. */
  lemma Halves(x: nat, y: nat)
    requires x / 2 == y / 2 && x % 2 == y % 2
    ensures x == y
  {
  }

  /** `&` distributes over `|`. */
  lemma {:induction false} BitAndOrDistributes(x: nat, y: nat, m: nat)
    ensures BitAnd(BitOr(x, y), m) == BitOr(BitAnd(x, m), BitAnd(y, m))
    decreases x + y + m
  {
    var l := BitAnd(BitOr(x, y), m);
    var r := BitOr(BitAnd(x, m), BitAnd(y, m));
    if x == 0 && y == 0 {
      assert BitOr(0, 0) == 0;
      assert BitAnd(0, m) == 0;
    } else {
      BitAndOrDistributes(x / 2, y / 2, m / 2);
      BitOrStep(x, y);
      BitAndStep(BitOr(x, y), m);
      BitAndStep(x, m);
      BitAndStep(y, m);
      BitOrStep(BitAnd(x, m), BitAnd(y, m));
      Halves(l, r);
    }
  }

  lemma Pow2Bytes()
    ensures Pow2(8) == 0x100 && Pow2(16) == 0x1_0000 && Pow2(24) == 0x100_0000
  {
    assert Pow2(8) == 0x100;
    Pow2Add(8, 8);
    Pow2Add(8, 16);
  }

  /** `x << 8 | y << 8 == (x | y) << 8`. */
  lemma BitOrShift8(x: nat, y: nat)
    ensures BitOr(x * 0x100, y * 0x100) == BitOr(x, y) * 0x100
  {
    Pow2Bytes();
    BitOrShift(x, y, 8);
  }

  /** `x << 16 | y << 16 == (x | y) << 16`. */
  lemma BitOrShift16(x: nat, y: nat)
    ensures BitOr(x * 0x1_0000, y * 0x1_0000) == BitOr(x, y) * 0x1_0000
  {
    Pow2Bytes();
    BitOrShift(x, y, 16);
  }

  /** `h << 8 | l` for a byte `l` is `256 h + l`. */
  lemma BitOrByte(h: nat, l: nat)
    requires l < 0x100
    ensures BitOr(h * 0x100, l) == h * 0x100 + l
  {
    Pow2Bytes();
    BitOrDisjoint(h, l, 8);
  }

  /** `h << 16 | l` for a 16-bit `l` is `65536 h + l`. */
  lemma BitOrHalf(h: nat, l: nat)
    requires l < 0x1_0000
    ensures BitOr(h * 0x1_0000, l) == h * 0x1_0000 + l
  {
    Pow2Bytes();
    BitOrDisjoint(h, l, 16);
  }

  /** `concat16(a, b)`: `a` is the high byte. */
  function Concat16(a: uint8, b: uint8): (r: uint16)
    ensures r == a * 0x100 + b
    ensures r / 0x100 == a && r % 0x100 == b
  {
    BitOrByte(a, b);
    DivModUnique(a * 0x100 + b, 0x100, a, b);
    BitOr(a * 0x100, b)
  }

  /** `concat32(a, b)` for two 16-bit halves: `a` is the high half. */
  function Concat32(a: uint16, b: uint16): (r: uint32)
    ensures r == a * 0x1_0000 + b
    ensures r / 0x1_0000 == a && r % 0x1_0000 == b
  {
    BitOrHalf(a, b);
    DivModUnique(a * 0x1_0000 + b, 0x1_0000, a, b);
    BitOr(a * 0x1_0000, b)
  }

  /**
   * `concat32(a, b, c, d)` for four bytes, most significant first. The third
   * byte is shifted as a `uint16_t`, which is the AVR's `unsigned int`, so
   * the shift cannot overflow and no sign extension happens.
   */
  function Concat32Bytes(a: uint8, b: uint8, c: uint8, d: uint8): (r: uint32)
    ensures r == a * 0x100_0000 + b * 0x1_0000 + c * 0x100 + d
    ensures r / 0x100_0000 == a && (r / 0x1_0000) % 0x100 == b
    ensures (r / 0x100) % 0x100 == c && r % 0x100 == d
  {
    var r := BitOr(BitOr(BitOr(a * 0x100_0000, b * 0x1_0000), c * 0x100), d);
    Concat32BytesValue(a, b, c, d);
    Concat32BytesSplit(a, b, c, d, r);
    r
  }

  lemma Concat32BytesSplit(a: uint8, b: uint8, c: uint8, d: uint8, r: int)
    requires r == a * 0x100_0000 + b * 0x1_0000 + c * 0x100 + d
    ensures 0 <= r < 0x1_0000_0000
    ensures r / 0x100_0000 == a && (r / 0x1_0000) % 0x100 == b
    ensures (r / 0x100) % 0x100 == c && r % 0x100 == d
  {
    DivModUnique(r, 0x100_0000, a, b * 0x1_0000 + c * 0x100 + d);
    DivModUnique(r, 0x1_0000, a * 0x100 + b, c * 0x100 + d);
    DivModUnique(a * 0x100 + b, 0x100, a, b);
    DivModUnique(r, 0x100, a * 0x1_0000 + b * 0x100 + c, d);
    DivModUnique(a * 0x1_0000 + b * 0x100 + c, 0x100, a * 0x100 + b, c);
  }

  lemma Concat32BytesValue(a: uint8, b: uint8, c: uint8, d: uint8)
    ensures BitOr(BitOr(BitOr(a * 0x100_0000, b * 0x1_0000), c * 0x100), d)
         == a * 0x100_0000 + b * 0x1_0000 + c * 0x100 + d
  {
    // a << 24 | b << 16 == (a << 8 | b) << 16
    BitOrShift16(a * 0x100, b);
    BitOrByte(a, b);
    var ab := a * 0x100 + b;
    assert BitOr(a * 0x100_0000, b * 0x1_0000) == ab * 0x1_0000;
    // ... | c << 8 == (ab << 8 | c) << 8
    BitOrShift8(ab * 0x100, c);
    BitOrByte(ab, c);
    var abc := ab * 0x100 + c;
    assert BitOr(ab * 0x1_0000, c * 0x100) == abc * 0x100;
    BitOrByte(abc, d);
  }
}
