/** Bit-level arithmetic on unbounded integers, as the simulator performs it.

    The simulator's values are arbitrary-precision integers whose `&` and `|`
    act on the infinite two's-complement expansion, whose `>> k` is floor
    division by 2^k and whose `<< k` is multiplication by 2^k. Dafny's `/` and
    `%` by a positive divisor are floor division and a non-negative remainder,
    so shifts are written with them directly; `&` and `|` are defined here. */
module Bits {

  /** 2^32: the modulus of every register and memory word. */
  const WordModulus: int := 0x1_0000_0000

  /** A 32-bit unsigned register or memory word. */
  type Word = x: int | 0 <= x < 0x1_0000_0000

  function Pow2(n: nat): (r: int)
    ensures r >= 1
  {
    if n == 0 then 1 else 2 * Pow2(n - 1)
  }

  function Abs(x: int): nat
  {
    if x < 0 then -x else x
  }

  /** Bitwise AND of two integers of any sign (two's complement, unbounded). */
  function BitAnd(a: int, b: int): int
    decreases Abs(a) + Abs(b)
  {
    if a == 0 || b == 0 then 0
    else if a == -1 then b
    else if b == -1 then a
    else 2 * BitAnd(a / 2, b / 2) + (if a % 2 == 1 && b % 2 == 1 then 1 else 0)
  }

  /** Bitwise OR of two non-negative integers. */
  function BitOr(a: nat, b: nat): nat
  {
    if a == 0 then b
    else if b == 0 then a
    else 2 * BitOr(a / 2, b / 2) + (if a % 2 == 0 && b % 2 == 0 then 0 else 1)
  }

  /** Sign extension of the low `bits` bits of `value`: when bit `bits - 1`
      is set, 2^bits is subtracted (a shift by a negative count is an error
      in simulator.py, hence `bits >= 1`). The bit is read by division here;
      SignExtendMatchesMask shows this is the `value & (1 << (bits - 1))`
      test. */
  function SignExtend(value: int, bits: nat): int
    requires bits >= 1
  {
    if (value / Pow2(bits - 1)) % 2 == 1 then value - Pow2(bits) else value
  }

  // ----- arithmetic helpers -----

  lemma Pow2Succ(n: nat)
    ensures Pow2(n + 1) == 2 * Pow2(n)
  {
  }

  lemma Pow2Constants()
    ensures Pow2(11) == 0x800 && Pow2(12) == 0x1000
    ensures Pow2(12) == 0x1000 && Pow2(13) == 0x2000
    ensures Pow2(20) == 0x10_0000 && Pow2(21) == 0x20_0000
    ensures Pow2(31) == 0x8000_0000 && Pow2(32) == WordModulus
  {
  }

  /** Euclidean division is unique: a quotient and remainder in range are
      the quotient and remainder. */
  lemma DivModUnique(x: int, d: int, q: int, r: int)
    requires d > 0 && 0 <= r < d && x == d * q + r
    ensures x / d == q && x % d == r
  {
    var q', r' := x / d, x % d;
    assert d * (q - q') == r' - r;
    if q - q' >= 1 {
      MulAtLeast(d, q - q');
    } else if q' - q >= 1 {
      MulAtLeast(d, q' - q);
    }
  }

  /** A word is its own residue mod 2^32. */
  lemma WordResidue(w: int)
    requires 0 <= w < WordModulus
    ensures w % WordModulus == w
  {
    DivModUnique(w, WordModulus, 0, w);
  }

  lemma {:induction false} MulAtLeast(d: int, k: int)
    requires d > 0 && k >= 1
    ensures d * k >= d
    decreases k
  {
    if k > 1 {
      MulAtLeast(d, k - 1);
      assert d * k == d * (k - 1) + d;
    }
  }

  lemma MulMonotone(a: int, b: int, c: int)
    requires a <= b && c >= 0
    ensures a * c <= b * c
  {
    assert b * c - a * c == (b - a) * c;
  }

  /** A multiple of p has no remainder modulo p. */
  lemma MultipleMod(k: int, p: int)
    requires p > 0
    ensures (k * p) % p == 0
  {
    DivModUnique(k * p, p, k, 0);
  }

  /** Splitting off the lowest digit in base p of a number written in base
      p * m: the quotients compose, and the remainder modulo p * m is the
      next digit times p plus the remainder modulo p. */
  lemma SplitDigit(w: int, p: int, m: int)
    requires p > 0 && m > 0
    ensures (w / p) / m == w / (p * m)
    ensures w % (p * m) == p * ((w / p) % m) + w % p
  {
    var a := w / p;
    var q, s := a / m, a % m;
    assert w == a * p + w % p;
    assert a * p == (q * m + s) * p;
    assert (q * m + s) * p == (p * m) * q + s * p;
    MulMonotone(s, m - 1, p);
    assert (m - 1) * p + (p - 1) == p * m - 1;
    DivModUnique(w, p * m, q, s * p + w % p);
  }

  /** Splitting off the lowest bit: x mod 2q is twice (x div 2) mod q plus
      x's low bit; and (x div 2) div q is x div 2q. */
  lemma HalveMod(x: int, q: int)
    requires q > 0
    ensures x % (2 * q) == 2 * ((x / 2) % q) + x % 2
    ensures (x / 2) / q == x / (2 * q)
  {
    var h, r := x / 2, x % 2;
    var k, s := h / q, h % q;
    assert x == (2 * q) * k + (2 * s + r);
    DivModUnique(x, 2 * q, k, 2 * s + r);
  }

  // ----- AND -----

  /** Masking with 2^n - 1 keeps the low n bits: `x & (2^n - 1)` is x mod 2^n,
      for negative x too. This is why masks are written as `%` elsewhere. */
  lemma {:induction false} MaskIsMod(x: int, n: nat)
    decreases n
    ensures BitAnd(x, Pow2(n) - 1) == x % Pow2(n)
  {
    if x == -1 {
      DivModUnique(-1, Pow2(n), -1, Pow2(n) - 1);
    } else if n > 0 && x != 0 {
      var q := Pow2(n - 1);
      var m := Pow2(n) - 1;
      assert m == 2 * (q - 1) + 1;
      DivModUnique(m, 2, q - 1, 1);
      BitAndStep(x, m);
      MaskIsMod(x / 2, n - 1);
      HalveMod(x, q);
    }
  }

  /** One step of AND away from its base cases. */
  lemma BitAndStep(a: int, b: int)
    requires a != 0 && a != -1 && b != 0 && b != -1
    ensures BitAnd(a, b) == 2 * BitAnd(a / 2, b / 2) + (if a % 2 == 1 && b % 2 == 1 then 1 else 0)
  {
  }

  /** Testing a single bit: `v & 2^k` is 2^k exactly when bit k of v is set. */
  lemma {:induction false} BitTest(v: int, k: nat)
    decreases k
    ensures BitAnd(v, Pow2(k)) == Pow2(k) * ((v / Pow2(k)) % 2)
  {
    if v == -1 {
      BitTestAllOnes(k);
    } else if v == 0 {
      BitTestZero(k);
    } else if k == 0 {
      assert BitAnd(v, 1) == v % 2;
    } else {
      BitTest(v / 2, k - 1);
      BitTestStep(v, k);
    }
  }

  /** Every bit of -1 is set. */
  lemma BitTestAllOnes(k: nat)
    ensures BitAnd(-1, Pow2(k)) == Pow2(k) * ((-1 / Pow2(k)) % 2)
  {
    DivModUnique(-1, Pow2(k), -1, Pow2(k) - 1);
  }

  /** No bit of 0 is set. */
  lemma BitTestZero(k: nat)
    ensures BitAnd(0, Pow2(k)) == Pow2(k) * ((0 / Pow2(k)) % 2)
  {
    DivModUnique(0, Pow2(k), 0, 0);
  }

  /** Bit k of v is bit k - 1 of v / 2. */
  lemma BitTestStep(v: int, k: nat)
    requires k > 0 && v != 0 && v != -1
    requires BitAnd(v / 2, Pow2(k - 1)) == Pow2(k - 1) * ((v / 2 / Pow2(k - 1)) % 2)
    ensures BitAnd(v, Pow2(k)) == Pow2(k) * ((v / Pow2(k)) % 2)
  {
    var q, p := Pow2(k - 1), Pow2(k);
    assert p == 2 * q;
    DivModUnique(p, 2, q, 0);
    BitAndStep(v, p);
    HalveMod(v, q);
    var bit := (v / p) % 2;
    assert BitAnd(v / 2, q) == q * bit;
    assert BitAnd(v, p) == 2 * (q * bit);
  }

  /** Clearing bit 0 of a 32-bit value: `x & 0xFFFFFFFE` for any integer x is
      x mod 2^32 with its lowest bit cleared. */
  lemma ClearLowBit32(x: int)
    ensures BitAnd(x, 0xFFFF_FFFE) == x % WordModulus - x % 2
  {
    Pow2Constants();
    if x != 0 && x != -1 {
      MaskIsMod(x / 2, 31);
      HalveMod(x, 0x8000_0000);
    }
  }

  /** AND of non-negative values is non-negative and at most either operand. */
  lemma {:induction false} BitAndBound(a: nat, b: nat)
    ensures 0 <= BitAnd(a, b) <= a && BitAnd(a, b) <= b
  {
    if a != 0 && b != 0 {
      BitAndBound(a / 2, b / 2);
    }
  }

  // ----- OR -----

  /** OR of two values below 2^n stays below 2^n. */
  lemma {:induction false} BitOrBound(a: nat, b: nat, n: nat)
    requires a < Pow2(n) && b < Pow2(n)
    ensures a <= BitOr(a, b) < Pow2(n) && b <= BitOr(a, b)
  {
    if a != 0 && b != 0 {
      BitOrBound(a / 2, b / 2, n - 1);
    }
  }

  /** OR of a value whose low k bits are clear with a value below 2^k is
      their sum: the bits do not overlap. */
  lemma {:induction false} BitOrAligned(a: nat, b: nat, k: nat)
    requires a % Pow2(k) == 0 && b < Pow2(k)
    ensures BitOr(a, b) == a + b
  {
    if a != 0 && b != 0 {
      var q := Pow2(k - 1);
      HalveMod(a, q);
      BitOrAligned(a / 2, b / 2, k - 1);
    }
  }

  /** BitOrAligned with the power of two given as a value. */
  lemma BitOrAlignedTo(a: nat, b: nat, k: nat, p: int)
    requires p == Pow2(k) && a % p == 0 && b < p
    ensures BitOr(a, b) == a + b
  {
    BitOrAligned(a, b, k);
  }

  /** OR and AND together account for every set bit once: a | b + a & b == a + b. */
  lemma {:induction false} BitOrPlusBitAnd(a: nat, b: nat)
    ensures BitOr(a, b) + BitAnd(a, b) == a + b
  {
    if a != 0 && b != 0 {
      BitOrPlusBitAnd(a / 2, b / 2);
    }
  }

  lemma {:induction false} BitOrCommutes(a: nat, b: nat)
    ensures BitOr(a, b) == BitOr(b, a)
  {
    if a != 0 && b != 0 {
      BitOrCommutes(a / 2, b / 2);
    }
  }

  /** One step of OR: its halves are the OR of the halves, its low bit the
      OR of the low bits. */
  lemma BitOrHalves(a: nat, b: nat)
    ensures BitOr(a, b) / 2 == BitOr(a / 2, b / 2)
    ensures BitOr(a, b) % 2 == (if a % 2 == 0 && b % 2 == 0 then 0 else 1)
  {
    if a != 0 && b != 0 {
      var r := BitOr(a / 2, b / 2);
      var bit := if a % 2 == 0 && b % 2 == 0 then 0 else 1;
      assert BitOr(a, b) == 2 * r + bit;
      DivModUnique(BitOr(a, b), 2, r, bit);
    }
  }

  lemma {:induction false} BitOrAssociates(a: nat, b: nat, c: nat)
    ensures BitOr(BitOr(a, b), c) == BitOr(a, BitOr(b, c))
    decreases a + b + c
  {
    if a + b + c != 0 {
      var ab, bc := BitOr(a, b), BitOr(b, c);
      var left, right := BitOr(ab, c), BitOr(a, bc);
      BitOrHalves(a, b);
      BitOrHalves(b, c);
      BitOrHalves(ab, c);
      BitOrHalves(a, bc);
      BitOrAssociates(a / 2, b / 2, c / 2);
      assert left / 2 == right / 2 && left % 2 == right % 2;
      assert left == 2 * (left / 2) + left % 2;
      assert right == 2 * (right / 2) + right % 2;
    }
  }

  // ----- sign extension -----

  /** Reading the sign bit by division agrees with masking it out. */
  lemma SignExtendMatchesMask(value: int, bits: nat)
    requires bits >= 1
    ensures SignExtend(value, bits)
            == if BitAnd(value, Pow2(bits - 1)) != 0 then value - Pow2(bits) else value
  {
    BitTest(value, bits - 1);
  }

  /** A `bits`-wide field sign-extends into the signed range of that width,
      keeps its value modulo 2^bits, and is unchanged when its top bit is
      clear. */
  lemma SignExtendRange(value: int, bits: nat)
    requires bits >= 1 && 0 <= value < Pow2(bits)
    ensures -Pow2(bits - 1) <= SignExtend(value, bits) < Pow2(bits - 1)
    ensures SignExtend(value, bits) % Pow2(bits) == value
    ensures value < Pow2(bits - 1) ==> SignExtend(value, bits) == value
    ensures value >= Pow2(bits - 1) ==> SignExtend(value, bits) == value - Pow2(bits)
  {
    var h := Pow2(bits - 1);
    Pow2Succ(bits - 1);
    if value < h {
      DivModUnique(value, h, 0, value);
      DivModUnique(value, Pow2(bits), 0, value);
    } else {
      DivModUnique(value, h, 1, value - h);
      DivModUnique(value - Pow2(bits), Pow2(bits), -1, value);
    }
  }

  /** Conversely, every value of the signed range is the sign extension of
      its own low `bits` bits: truncating then sign-extending is the identity. */
  lemma SignExtendTruncate(s: int, bits: nat)
    requires bits >= 1 && -Pow2(bits - 1) <= s < Pow2(bits - 1)
    ensures 0 <= s % Pow2(bits) < Pow2(bits)
    ensures SignExtend(s % Pow2(bits), bits) == s
  {
    Pow2Succ(bits - 1);
    var u := s % Pow2(bits);
    if s >= 0 {
      DivModUnique(s, Pow2(bits), 0, s);
    } else {
      DivModUnique(s, Pow2(bits), -1, s + Pow2(bits));
    }
    SignExtendRange(u, bits);
  }
}
