/** The 32-bit integer view of JavaScript numbers that the bitwise operators
    `&`, `>>` and `<<` use (ECMAScript ToInt32 / ToUint32), over unbounded
    integers, and the facts needed to read a masked sign-propagating shift of a
    register word as an unsigned bit field.

    Shifts and bit fields are defined one bit at a time, so that the proofs
    about them stay within linear arithmetic. */
module JsBits {

  /** A register word as a register read returns it: an unsigned 32-bit value. */
  type Word = x: int | 0 <= x < 0x1_0000_0000

  /** The values a JavaScript bitwise operator can produce. */
  type Int32 = x: int | -0x8000_0000 <= x < 0x8000_0000

  function Pow2(n: nat): (r: nat)
    ensures r >= 1
  {
    if n == 0 then 1 else 2 * Pow2(n - 1)
  }

  /** ECMAScript ToUint32 on an integer: the representative modulo 2^32 in [0, 2^32). */
  function ToUint32(x: int): Word
  {
    x % 0x1_0000_0000
  }

  /** ECMAScript ToInt32 on an integer: the two's complement reading of ToUint32. */
  function ToInt32(x: int): Int32
  {
    var u := ToUint32(x);
    if u >= 0x8000_0000 then u - 0x1_0000_0000 else u
  }

  /** x shifted right by s bits, rounding towards minus infinity (sign-propagating). */
  function ShiftRight(x: int, s: nat): (r: int)
    ensures x >= 0 ==> 0 <= r <= x
    ensures x < 0 ==> x <= r < 0
    decreases s
  {
    if s == 0 then x else ShiftRight(x / 2, s - 1)
  }

  /** x shifted left by s bits, without any truncation to 32 bits. */
  function ShiftLeft(x: int, s: nat): (r: int)
    ensures x >= 0 ==> r >= x
    ensures x < 0 ==> r <= x
  {
    if s == 0 then x else 2 * ShiftLeft(x, s - 1)
  }

  /** The k lowest bits of x (two's complement for negative x), as a natural number. */
  function LowBits(x: int, k: nat): (r: nat)
    ensures r < Pow2(k)
    decreases k
  {
    if k == 0 then 0 else 2 * LowBits(x / 2, k - 1) + x % 2
  }

  /** Bits lo .. lo + n - 1 of w, read as an unsigned number. */
  function Bits(w: int, lo: nat, n: nat): nat
  {
    LowBits(ShiftRight(w, lo), n)
  }

  /** Bitwise and of two naturals, bit by bit from the least significant one. */
  function BitAnd(a: nat, b: nat): (r: nat)
    ensures r <= a && r <= b
    decreases a
  {
    if a == 0 || b == 0 then 0
    else 2 * BitAnd(a / 2, b / 2) + (if a % 2 == 1 && b % 2 == 1 then 1 else 0)
  }

  /** JavaScript `x & y`: both operands go through ToInt32 and their 32 bits are and-ed. */
  function JsAnd(x: int, y: int): Int32
  {
    ToInt32(BitAnd(ToUint32(x), ToUint32(y)))
  }

  /** JavaScript `x >> s`: ToInt32(x) shifted right, sign propagating, by ToUint32(s) mod 32. */
  function JsSar(x: int, s: int): int
  {
    ShiftRight(ToInt32(x), ToUint32(s) % 32)
  }

  /** JavaScript `x << s`: ToInt32(x) shifted left by ToUint32(s) mod 32, wrapped to 32 bits. */
  function JsShl(x: int, s: int): Int32
  {
    ToInt32(ShiftLeft(ToInt32(x), ToUint32(s) % 32))
  }

  // ---------------------------------------------------------------------------
  // Shifts

  lemma {:induction false} ShiftLeftPow2(a: nat, b: nat)
    ensures ShiftLeft(Pow2(a), b) == Pow2(a + b)
    decreases b
  {
    if b > 0 {
      ShiftLeftPow2(a, b - 1);
    }
  }

  lemma {:induction false} ShiftLeftNegate(x: int, s: nat)
    ensures ShiftLeft(-x, s) == -ShiftLeft(x, s)
    decreases s
  {
    if s > 0 {
      ShiftLeftNegate(x, s - 1);
    }
  }

  /** Shifting left by s multiplies by 2^s. */
  lemma {:induction false} ShiftLeftIsProduct(x: int, s: nat)
    ensures ShiftLeft(x, s) == x * Pow2(s)
    decreases s
  {
    if s > 0 {
      ShiftLeftIsProduct(x, s - 1);
      MulDouble(x, Pow2(s - 1));
    }
  }

  lemma MulDouble(m: int, p: int)
    ensures m * (2 * p) == 2 * (m * p)
  {
  }

  /** Shifting right by s cancels the addition of c shifted left by s. */
  lemma {:induction false} ShiftRightAddShifted(x: int, c: int, s: nat)
    ensures ShiftRight(x + ShiftLeft(c, s), s) == ShiftRight(x, s) + c
    decreases s
  {
    if s > 0 {
      assert (x + ShiftLeft(c, s)) / 2 == x / 2 + ShiftLeft(c, s - 1);
      ShiftRightAddShifted(x / 2, c, s - 1);
    }
  }

  /** The form of ShiftRightAddShifted that names the shifted sum. */
  lemma ShiftRightAddShiftedAt(w: int, x: int, c: int, s: nat)
    requires w == x + ShiftLeft(c, s)
    ensures ShiftRight(w, s) == ShiftRight(x, s) + c
  {
    ShiftRightAddShifted(x, c, s);
  }

  lemma ShiftRightOfShiftLeft(x: int, s: nat)
    ensures ShiftRight(ShiftLeft(x, s), s) == x
  {
    ShiftRightAddShifted(0, x, s);
  }

  lemma {:induction false} ShiftRightCompose(x: int, a: nat, b: nat)
    ensures ShiftRight(ShiftRight(x, a), b) == ShiftRight(x, a + b)
    decreases a
  {
    if a > 0 {
      ShiftRightCompose(x / 2, a - 1, b);
    }
  }

  // ---------------------------------------------------------------------------
  // Low bits

  /** Adding a multiple of 2^n leaves the bits below n unchanged. */
  lemma {:induction false} LowBitsAddShifted(z: int, j: int, n: nat, k: nat)
    requires k <= n
    ensures LowBits(z + ShiftLeft(j, n), k) == LowBits(z, k)
    decreases k
  {
    if k > 0 {
      var y := ShiftLeft(j, n - 1);
      assert (z + ShiftLeft(j, n)) / 2 == z / 2 + y;
      assert (z + ShiftLeft(j, n)) % 2 == z % 2;
      LowBitsAddShifted(z / 2, j, n - 1, k - 1);
    }
  }

  /** ToUint32 keeps the 32 lowest bits. */
  lemma LowBitsOfUint32(z: int, k: nat)
    requires k <= 32
    ensures LowBits(ToUint32(z), k) == LowBits(z, k)
  {
    var j := -(z / 0x1_0000_0000);
    assert Pow2(32) == 0x1_0000_0000 by { Pow2Words(); }
    assert ShiftLeft(j, 32) == j * 0x1_0000_0000 by { ShiftLeftIsProduct(j, 32); }
    LowBitsAddShiftedAt(ToUint32(z), z, j, 32, k);
  }

  lemma Pow2Values()
    ensures Pow2(1) == 2 && Pow2(2) == 4 && Pow2(3) == 8 && Pow2(4) == 16
    ensures Pow2(5) == 32 && Pow2(6) == 64 && Pow2(7) == 128 && Pow2(8) == 256
  {
  }

  lemma Pow2Words()
    ensures Pow2(31) == 0x8000_0000 && Pow2(32) == 0x1_0000_0000
  {
    assert Pow2(8) == 256;
    assert Pow2(16) == 65536 by { ShiftLeftPow2(8, 8); ShiftLeftIsProduct(256, 8); }
    assert Pow2(32) == 0x1_0000_0000 by { ShiftLeftPow2(16, 16); ShiftLeftIsProduct(65536, 16); }
  }

  // ---------------------------------------------------------------------------
  // Bitwise and

  /** One step of BitAnd, also when one operand is zero. */
  lemma BitAndStep(x: nat, m: nat)
    ensures BitAnd(x, m) == 2 * BitAnd(x / 2, m / 2) + (if x % 2 == 1 && m % 2 == 1 then 1 else 0)
  {
    if x == 0 {
      assert BitAnd(0, m / 2) == 0;
    } else if m == 0 {
      assert BitAnd(x / 2, 0) == 0;
    }
  }

  /** Masking with 2^k - 1 keeps the k lowest bits. */
  lemma {:induction false} BitAndLowMask(x: nat, k: nat)
    ensures BitAnd(x, Pow2(k) - 1) == LowBits(x, k)
    decreases k
  {
    if k > 0 {
      var m := Pow2(k) - 1;
      assert m % 2 == 1 && m / 2 == Pow2(k - 1) - 1;
      BitAndStep(x, m);
      BitAndLowMask(x / 2, k - 1);
    }
  }

  /** The and with m < 2^k depends only on the k lowest bits of x. */
  lemma {:induction false} BitAndLowBits(x: nat, m: nat, k: nat)
    requires m < Pow2(k)
    ensures BitAnd(x, m) == BitAnd(LowBits(x, k), m)
    decreases k
  {
    if k > 0 {
      var y := LowBits(x, k);
      assert y / 2 == LowBits(x / 2, k - 1) && y % 2 == x % 2;
      BitAndStep(x, m);
      BitAndStep(y, m);
      BitAndLowBits(x / 2, m / 2, k - 1);
    }
  }

  /** A mask shifted left by s selects the bits of x shifted right by s. */
  lemma {:induction false} BitAndShiftedMask(x: nat, m: nat, s: nat)
    ensures BitAnd(x, ShiftLeft(m, s)) == ShiftLeft(BitAnd(ShiftRight(x, s), m), s)
    decreases s
  {
    if s > 0 {
      var ms := ShiftLeft(m, s - 1);
      assert (2 * ms) / 2 == ms && (2 * ms) % 2 == 0;
      BitAndStep(x, 2 * ms);
      BitAndShiftedMask(x / 2, m, s - 1);
    }
  }

  /** Testing the single bit 2^b of x. */
  lemma BitAndSingleBit(x: nat, b: nat)
    ensures BitAnd(x, Pow2(b)) != 0 <==> Bits(x, b, 1) == 1
  {
    var y := ShiftRight(x, b);
    ShiftLeftPow2(0, b);
    BitAndShiftedMask(x, 1, b);
    BitAndLowMask(y, 1);
    ShiftLeftIsProduct(BitAnd(y, 1), b);
  }

  // ---------------------------------------------------------------------------
  // The sign-propagating shift of a register word

  /** For a word below 2^31 the signed shift is the unsigned one. */
  lemma SarOfLowWord(w: Word, s: nat)
    requires s < 32 && w < 0x8000_0000
    ensures JsSar(w, s) == ShiftRight(w, s)
  {
    assert ToUint32(s) % 32 == s;
    assert ToInt32(w) == w;
  }

  /** For a word with bit 31 set the signed shift is the unsigned one less 2^(32 - s). */
  lemma SarOfHighWord(w: Word, s: nat)
    requires s < 32 && w >= 0x8000_0000
    ensures JsSar(w, s) == ShiftRight(w, s) - Pow2(32 - s)
  {
    var c: int := Pow2(32 - s);
    assert ToUint32(s) % 32 == s;
    assert ShiftLeft(-c, s) == -0x1_0000_0000 by {
      ShiftLeftNegate(c, s);
      ShiftLeftPow2(32 - s, s);
      Pow2Words();
    }
    assert ToInt32(w) == w + ShiftLeft(-c, s);
    ShiftRightAddShifted(w, -c, s);
  }

  /** Below bit 32 - s, the 32-bit pattern of `w >> s` is that of the unsigned shift. */
  lemma SarLowBits(w: Word, s: nat)
    requires s < 32
    ensures LowBits(ToUint32(JsSar(w, s)), 32 - s) == Bits(w, s, 32 - s)
  {
    if w >= 0x8000_0000 {
      SarLowBitsOfHighWord(w, s);
    } else {
      SarLowBitsOfLowWord(w, s);
    }
  }

  lemma SarLowBitsOfLowWord(w: Word, s: nat)
    requires s < 32 && w < 0x8000_0000
    ensures LowBits(ToUint32(JsSar(w, s)), 32 - s) == Bits(w, s, 32 - s)
  {
    var v := JsSar(w, s);
    var y := ShiftRight(w, s);
    assert v == y by { SarOfLowWord(w, s); }
    SmallInt32(y);
  }

  lemma SarLowBitsOfHighWord(w: Word, s: nat)
    requires s < 32 && w >= 0x8000_0000
    ensures LowBits(ToUint32(JsSar(w, s)), 32 - s) == Bits(w, s, 32 - s)
  {
    var n: nat := 32 - s;
    var v := JsSar(w, s);
    var y := ShiftRight(w, s);
    var c := ShiftLeft(-1, n);
    var p: int := Pow2(n);
    assert c == -p by {
      ShiftLeftNegate(1, n);
      ShiftLeftPow2(0, n);
    }
    assert v == y + c by { SarOfHighWord(w, s); }
    calc {
      LowBits(ToUint32(v), n);
    == { LowBitsOfUint32(v, n); }
      LowBits(v, n);
    == { LowBitsAddShiftedAt(v, y, -1, n, n); }
      LowBits(y, n);
    }
  }

  /** The form of LowBitsAddShifted that names the shifted sum. */
  lemma LowBitsAddShiftedAt(w: int, z: int, j: int, n: nat, k: nat)
    requires k <= n && w == z + ShiftLeft(j, n)
    ensures LowBits(w, k) == LowBits(z, k)
  {
    LowBitsAddShifted(z, j, n, k);
  }

  /** JavaScript `x & m` with a non-negative 31-bit mask m. */
  lemma JsAndSmallMask(x: int, m: nat)
    requires m < 0x8000_0000
    ensures JsAnd(x, m) == BitAnd(ToUint32(x), m)
  {
    assert ToUint32(m) == m;
    var v := BitAnd(ToUint32(x), m);
    assert ToUint32(v) == v;
  }

  /** JavaScript `w & m` for a word w and a non-negative 31-bit mask m. */
  lemma WordMask(w: Word, m: nat)
    requires m < 0x8000_0000
    ensures JsAnd(w, m) == BitAnd(w, m)
  {
    calc {
      JsAnd(w, m);
    == { JsAndSmallMask(w, m); }
      BitAnd(ToUint32(w), m);
    == { assert ToUint32(w) == w; }
      BitAnd(w, m);
    }
  }

  /** JavaScript `(w >> s) & m`, for a word w and a mask m inside the 32 - s bits
      that the shift keeps, is the and of the unsigned shift with m. */
  lemma SarThenMask(w: Word, s: nat, m: nat)
    requires s < 32 && m < Pow2(32 - s) && m < 0x8000_0000
    ensures JsAnd(JsSar(w, s), m) == BitAnd(ShiftRight(w, s), m)
  {
    var u := ToUint32(JsSar(w, s));
    var y := ShiftRight(w, s);
    JsAndSmallMask(JsSar(w, s), m);
    BitAndLowBits(u, m, 32 - s);
    SarLowBits(w, s);
    BitAndLowBits(y, m, 32 - s);
  }

  /** JavaScript `(w >> s) & m`, with m = 2^k - 1, is the k-bit field of w starting at bit s. */
  lemma SarField(w: Word, s: nat, k: nat, m: int)
    requires s < 32 && s + k <= 32 && k <= 31 && m == Pow2(k) - 1
    ensures JsAnd(JsSar(w, s), m) == Bits(w, s, k)
  {
    Pow2Monotone(k, 32 - s);
    Pow2Monotone(k, 31);
    Pow2Words();
    SarThenMask(w, s, m);
    BitAndLowMask(ShiftRight(w, s), k);
  }

  /** JavaScript `((w >> s) & m) != 0`, with m = 2^b, tests bit s + b of w. */
  lemma SarBitTest(w: Word, s: nat, b: nat, m: int)
    requires s + b < 31 && m == Pow2(b)
    ensures JsAnd(JsSar(w, s), m) != 0 <==> Bits(w, s + b, 1) == 1
  {
    assert m < Pow2(32 - s) by { Pow2Monotone(b + 1, 32 - s); }
    assert m < 0x8000_0000 by { Pow2Monotone(b + 1, 31); Pow2Words(); }
    SarThenMask(w, s, m);
    BitAndSingleBit(ShiftRight(w, s), b);
    ShiftRightCompose(w, s, b);
  }

  /** JavaScript `w & m`, with m = p - 1 and p = 2^k, is w modulo p. */
  lemma WordLowBits(w: Word, k: nat, m: int, p: int)
    requires k <= 31 && p == Pow2(k) && m == p - 1
    ensures JsAnd(w, m) == w % p
  {
    assert p <= 0x8000_0000 by { Pow2Monotone(k, 31); Pow2Words(); }
    calc {
      JsAnd(w, m);
    == { WordMask(w, m); }
      BitAnd(w, m);
    == { BitAndLowMask(w, k); }
      LowBits(w, k);
    == { LowBitsIsRemainder(w, k); }
      w % p;
    }
  }

  /** Shifting left keeps the order of its operands, strictly when they differ. */
  lemma {:induction false} ShiftLeftMonotone(a: int, b: int, s: nat)
    requires a <= b
    ensures ShiftLeft(a, s) <= ShiftLeft(b, s)
    ensures a < b ==> ShiftLeft(a, s) < ShiftLeft(b, s)
  {
    if s > 0 {
      ShiftLeftMonotone(a, b, s - 1);
    }
  }

  /** `x << s` does not wrap when the shifted value stays below 2^31. */
  lemma JsShlSmall(x: nat, s: nat)
    requires s < 32 && ShiftLeft(x, s) < 0x8000_0000
    ensures JsShl(x, s) == ShiftLeft(x, s)
  {
    JsShlOperands(x, s);
    SmallInt32(ShiftLeft(x, s));
  }

  /** A shift count below 32 and a left operand below 2^31 reach the shift unchanged. */
  lemma JsShlOperands(x: nat, s: nat)
    requires s < 32 && x < 0x8000_0000
    ensures JsShl(x, s) == ToInt32(ShiftLeft(x, s))
  {
    var x2 := ToInt32(x);
    var s2 := ToUint32(s) % 32;
    assert x2 == x by { SmallInt32(x); }
    assert s2 == s by { SmallInt32(s); }
    assert JsShl(x, s) == ToInt32(ShiftLeft(x2, s2));
  }

  lemma SmallInt32(x: int)
    requires 0 <= x < 0x8000_0000
    ensures ToUint32(x) == x && ToInt32(x) == x
  {
  }

  /** A field mask `(2^k - 1) << s` that ends below bit 31 is a non-negative 31-bit
      value, and JavaScript computes it without wrapping. */
  lemma FieldMask(k: nat, s: nat, m: int)
    requires s + k <= 31 && m == Pow2(k) - 1
    ensures 0 <= ShiftLeft(m, s) < 0x8000_0000
    ensures JsShl(m, s) == ShiftLeft(m, s)
  {
    assert ShiftLeft(m, s) < 0x8000_0000 by {
      ShiftLeftMonotone(m, Pow2(k), s);
      ShiftLeftPow2(k, s);
      Pow2Monotone(k + s, 31);
      Pow2Words();
    }
    JsShlSmall(m, s);
  }

  /** JavaScript `(w & ((2^k - 1) << s)) >> s`, the other way of reading a field that
      ends below bit 31, is the k-bit field of w starting at bit s. */
  lemma MaskThenSar(w: Word, s: nat, k: nat, mask: int)
    requires s + k <= 31 && mask == ShiftLeft(Pow2(k) - 1, s)
    ensures JsSar(JsAnd(w, mask), s) == Bits(w, s, k)
  {
    var m := Pow2(k) - 1;
    var b := BitAnd(ShiftRight(w, s), m);
    FieldMask(k, s, m);
    assert ShiftLeft(b, s) <= ShiftLeft(m, s) by {
      ShiftLeftMonotone(b, m, s);
    }
    calc {
      JsSar(JsAnd(w, ShiftLeft(m, s)), s);
    == { WordMask(w, ShiftLeft(m, s)); BitAndShiftedMask(w, m, s); }
      JsSar(ShiftLeft(b, s), s);
    == { SarOfLowWord(ShiftLeft(b, s), s); ShiftRightOfShiftLeft(b, s); }
      b;
    == { BitAndLowMask(ShiftRight(w, s), k); }
      Bits(w, s, k);
    }
  }

  // ---------------------------------------------------------------------------
  // Words assembled from fields

  lemma {:induction false} ShiftLeftAdd(a: int, b: int, s: nat)
    ensures ShiftLeft(a + b, s) == ShiftLeft(a, s) + ShiftLeft(b, s)
  {
    if s > 0 {
      ShiftLeftAdd(a, b, s - 1);
    }
  }

  lemma {:induction false} ShiftLeftCompose(x: int, a: nat, b: nat)
    ensures ShiftLeft(ShiftLeft(x, a), b) == ShiftLeft(x, a + b)
  {
    if b > 0 {
      ShiftLeftCompose(x, a, b - 1);
    }
  }

  /** A value already inside its k bits is its own k-bit field. */
  lemma LowBitsOfSmall(x: nat, k: nat)
    requires x < Pow2(k)
    ensures LowBits(x, k) == x
  {
    LowBitsIsRemainder(x, k);
  }

  /** The n-bit field at bit s of `low + (field << s) + (high << (s + n))`, where low
      fits below bit s and field in n bits, is field. */
  lemma BitsOfComposed(w: int, low: nat, field: nat, high: int, s: nat, n: nat)
    requires w == low + ShiftLeft(field, s) + ShiftLeft(high, s + n)
    requires low < Pow2(s) && field < Pow2(n)
    ensures Bits(w, s, n) == field
  {
    var upper := field + ShiftLeft(high, n);
    assert low + ShiftLeft(field, s) + ShiftLeft(high, s + n) == low + ShiftLeft(upper, s) by {
      ShiftLeftCompose(high, n, s);
      ShiftLeftAdd(field, ShiftLeft(high, n), s);
    }
    assert ShiftRight(low + ShiftLeft(upper, s), s) == upper by {
      ShiftRightAddShifted(low, upper, s);
      LowShiftsToZero(low, s);
    }
    assert LowBits(upper, n) == field by {
      LowBitsAddShifted(field, high, n, n);
      LowBitsOfSmall(field, n);
    }
  }

  /** The n-bit field at bit s of `low + (field << s)`, where low fits below bit s and
      field in n bits, is field. */
  lemma BitsOfTopField(w: int, low: nat, field: nat, s: nat, n: nat)
    requires w == low + ShiftLeft(field, s)
    requires low < Pow2(s) && field < Pow2(n)
    ensures Bits(w, s, n) == field
  {
    ShiftRightAddShiftedAt(w, low, field, s);
    LowShiftsToZero(low, s);
    LowBitsOfSmall(field, n);
  }

  lemma LowShiftsToZero(low: nat, s: nat)
    requires low < Pow2(s)
    ensures ShiftRight(low, s) == 0
  {
    ShiftRightIsDivision(low, s);
  }

  lemma {:induction false} Pow2Monotone(a: nat, b: nat)
    requires a <= b
    ensures Pow2(a) <= Pow2(b)
    decreases b
  {
    if a < b {
      Pow2Monotone(a, b - 1);
    }
  }

  // ---------------------------------------------------------------------------
  // The same bit fields in terms of division and remainder

  /** Shifting right by s is division by 2^s, rounding down. */
  lemma {:induction false} ShiftRightIsDivision(x: int, s: nat)
    ensures ShiftRight(x, s) == x / Pow2(s)
    decreases s
  {
    if s > 0 {
      ShiftRightIsDivision(x / 2, s - 1);
      HalfThenDiv(x, Pow2(s - 1));
    }
  }

  /** The k lowest bits of x are x modulo 2^k. */
  lemma {:induction false} LowBitsIsRemainder(x: int, k: nat)
    ensures LowBits(x, k) == x % Pow2(k)
    decreases k
  {
    if k > 0 {
      LowBitsIsRemainder(x / 2, k - 1);
      HalfThenDiv(x, Pow2(k - 1));
    }
  }

  /** Euclidean division is determined by the quotient and remainder it admits. */
  lemma DivModUnique(x: int, p: int, q: int, r: int)
    requires p > 0 && 0 <= r < p && x == q * p + r
    ensures x / p == q && x % p == r
  {
    var q', r' := x / p, x % p;
    assert x == q' * p + r';
    if q' > q {
      assert (q' - q) * p >= p by { MulAtLeast(q' - q, p); }
      assert false;
    } else if q' < q {
      assert (q - q') * p >= p by { MulAtLeast(q - q', p); }
      assert false;
    }
  }

  lemma MulAtLeast(d: int, p: int)
    requires d >= 1 && p > 0
    ensures d * p >= p
  {
  }

  /** Dividing by 2 and then by p divides by 2 * p. */
  lemma HalfThenDiv(x: int, p: int)
    requires p > 0
    ensures (x / 2) / p == x / (2 * p)
    ensures x % (2 * p) == 2 * ((x / 2) % p) + x % 2
  {
    var q, r := (x / 2) / p, (x / 2) % p;
    assert x / 2 == q * p + r;
    assert x == q * (2 * p) + (2 * r + x % 2);
    DivModUnique(x, 2 * p, q, 2 * r + x % 2);
  }
}
