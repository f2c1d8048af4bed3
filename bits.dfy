/** Machine integers of the interpreter and the bitwise operators it uses.
    Rust's `u8`, `u16` and `u32` become bounded subtypes of `int`; `&`, `|` and `^`
    are defined bit by bit on naturals, and the lemmas below say what they do to the
    masks the interpreter builds. */
module Bits {

  type byte = x: int | 0 <= x < 0x100
  type u16 = x: int | 0 <= x < 0x1_0000
  type u32 = x: int | 0 <= x < 0x1_0000_0000

  function Pow2(k: nat): (r: nat)
    ensures r >= 1
  {
    if k == 0 then 1 else 2 * Pow2(k - 1)
  }

  /** 16 to the power k, the weight of hexadecimal digit k. */
  function Pow16(k: nat): (r: nat)
    ensures r >= 1
  {
    Pow2(4 * k)
  }

  /** The powers of two the interpreter's masks and shifts use. */
  lemma Pow2Table()
    ensures Pow2(1) == 2 && Pow2(4) == 0x10 && Pow2(7) == 0x80 && Pow2(8) == 0x100
    ensures Pow2(12) == 0x1000 && Pow2(16) == 0x1_0000
    ensures Pow16(0) == 1 && Pow16(1) == 0x10 && Pow16(2) == 0x100
    ensures Pow16(3) == 0x1000 && Pow16(4) == 0x1_0000
  {
    assert Pow2(2) == 4;
    assert Pow2(4) == 16;
    assert Pow2(6) == 64;
    assert Pow2(8) == 256;
    assert Pow2(10) == 1024;
    assert Pow2(12) == 4096;
    assert Pow2(14) == 16384;
  }

  function BitAnd(a: nat, b: nat): nat
    decreases a
  {
    if a == 0 || b == 0 then 0
    else 2 * BitAnd(a / 2, b / 2) + (if a % 2 == 1 && b % 2 == 1 then 1 else 0)
  }

  function BitOr(a: nat, b: nat): nat
    decreases a + b
  {
    if a == 0 then b
    else if b == 0 then a
    else 2 * BitOr(a / 2, b / 2) + (if a % 2 == 1 || b % 2 == 1 then 1 else 0)
  }

  function BitXor(a: nat, b: nat): nat
    decreases a + b
  {
    if a == 0 then b
    else if b == 0 then a
    else 2 * BitXor(a / 2, b / 2) + (if a % 2 != b % 2 then 1 else 0)
  }

  /** Shifting 2^j right by one gives 2^(j-1). */
  lemma HalvePow2(j: nat)
    requires j > 0
    ensures Pow2(j) / 2 == Pow2(j - 1)
  {
  }

  lemma Pow2Add(a: nat, b: nat)
    ensures Pow2(a + b) == Pow2(a) * Pow2(b)
  {
    if a > 0 {
      Pow2Add(a - 1, b);
    }
  }

  lemma {:induction false} Pow2Monotone(a: nat, b: nat)
    requires a <= b
    ensures Pow2(a) <= Pow2(b)
  {
    if a < b {
      Pow2Monotone(a, b - 1);
    }
  }

  /** The three operators keep a k-bit value within k bits. */
  lemma {:induction false} BitOpsBounded(a: nat, b: nat, k: nat)
    requires a < Pow2(k) && b < Pow2(k)
    ensures BitAnd(a, b) < Pow2(k)
    ensures BitOr(a, b) < Pow2(k)
    ensures BitXor(a, b) < Pow2(k)
  {
    if k > 0 && a != 0 && b != 0 {
      BitOpsBounded(a / 2, b / 2, k - 1);
    }
  }

  /** All three operators on bytes give a byte. */
  lemma ByteOps(a: byte, b: byte)
    ensures BitAnd(a, b) < 0x100 && BitOr(a, b) < 0x100 && BitXor(a, b) < 0x100
  {
    assert Pow2(8) == 0x100;
    BitOpsBounded(a, b, 8);
  }

  /** The mask with bits b..a-1 set (for a >= b). */
  function RangeMask(a: nat, b: nat): (r: nat)
    requires b <= a
    ensures r == Pow2(a) - Pow2(b)
  {
    Pow2Monotone(b, a);
    Pow2(a) - Pow2(b)
  }

  /** Masking with k one-bits keeps the low k bits. */
  lemma {:induction false} AndLowMask(w: nat, k: nat)
    ensures BitAnd(w, Pow2(k) - 1) == w % Pow2(k)
  {
    if k > 0 {
      var p := Pow2(k - 1);
      var lo := BitAnd(w / 2, p - 1);
      AndLowMask(w / 2, k - 1);
      assert lo == (w / 2) % p;
      AndOddStep(w, p - 1);
      assert BitAnd(w, 2 * (p - 1) + 1) == 2 * lo + w % 2;
      HalveDivMod(w, p);
      assert w % (2 * p) == 2 * lo + w % 2;
      assert Pow2(k) == 2 * p;
    }
  }

  /** One step of `&` against an even mask. */
  lemma AndEvenStep(w: nat, m: nat)
    ensures BitAnd(w, 2 * m) == 2 * BitAnd(w / 2, m)
  {
    if w != 0 && m != 0 {
      assert (2 * m) / 2 == m && (2 * m) % 2 == 0;
    }
  }

  /** One step of `&` against an odd mask. */
  lemma AndOddStep(w: nat, m: nat)
    ensures BitAnd(w, 2 * m + 1) == 2 * BitAnd(w / 2, m) + w % 2
  {
    if w != 0 {
      assert (2 * m + 1) / 2 == m && (2 * m + 1) % 2 == 1;
    }
  }

  /** Halving first and then dividing by p is dividing by 2p. */
  lemma HalveDivMod(w: nat, p: nat)
    requires p > 0
    ensures (w / 2) / p == w / (2 * p)
    ensures w % (2 * p) == 2 * ((w / 2) % p) + w % 2
  {
    var q, r := (w / 2) / p, (w / 2) % p;
    assert w / 2 == q * p + r;
    assert w == q * (2 * p) + (2 * r + w % 2);
    DivModUnique(w, 2 * p, q, 2 * r + w % 2);
  }

  /** Masking with the bits b..a-1 keeps w's value in those bits. */
  lemma {:induction false} AndRangeMask(w: nat, a: nat, b: nat)
    requires b <= a
    ensures BitAnd(w, RangeMask(a, b)) == w % Pow2(a) - w % Pow2(b)
  {
    if b == 0 {
      AndLowMask(w, a);
    } else {
      var m' := RangeMask(a - 1, b - 1);
      var pa, pb := Pow2(a - 1), Pow2(b - 1);
      RangeMaskHalf(a, b);
      AndRangeMask(w / 2, a - 1, b - 1);
      AndEvenStep(w, m');
      HalveDivMod(w, pa);
      HalveDivMod(w, pb);
    }
  }

  /** Masking with the bits b..a-1 and shifting right by b reads the field of width a-b at b. */
  lemma ExtractBits(w: nat, a: nat, b: nat)
    requires b <= a
    ensures BitAnd(w, RangeMask(a, b)) / Pow2(b) == (w / Pow2(b)) % Pow2(a - b)
  {
    var p, r := Pow2(b), Pow2(a - b);
    Pow2Add(b, a - b);
    assert Pow2(a) == p * r;
    MixedRadix(w, p, r);
    AndRangeMask(w, a, b);
    calc {
      BitAnd(w, RangeMask(a, b)) / p;
      (w % Pow2(a) - w % p) / p;
      (w % (p * r) - w % p) / p;
      (w / p) % r;
    }
  }

  /** Writing w in the mixed radix (p, r): the digit of weight p is (w / p) % r. */
  lemma MixedRadix(w: nat, p: nat, r: nat)
    requires p > 0 && r > 0
    ensures w % (p * r) == p * ((w / p) % r) + w % p
    ensures (w % (p * r) - w % p) / p == (w / p) % r
  {
    var a := w / p;
    var t := a % r;
    var q := a / r;
    assert w == p * a + w % p;
    assert a == r * q + t;
    assert w == (p * r) * q + (p * t + w % p) by {
      assert p * a == p * (r * q) + p * t;
      assert p * (r * q) == (p * r) * q;
    }
    assert p * t + w % p < p * r by {
      MulLe(p, t, r - 1);
      assert p * (r - 1) == p * r - p;
    }
    DivModUnique(w, p * r, q, p * t + w % p);
    assert p * t == t * p;
    DivModUnique(p * t, p, t, 0);
  }

  /** `(a << k) | b` with b below 2^k is the sum a * 2^k + b. */
  lemma {:induction false} OrShifted(a: nat, b: nat, k: nat)
    requires b < Pow2(k)
    ensures BitOr(a * Pow2(k), b) == a * Pow2(k) + b
  {
    if k > 0 && a != 0 && b != 0 {
      var x := a * Pow2(k);
      assert x == 2 * (a * Pow2(k - 1));
      assert x % 2 == 0 && x / 2 == a * Pow2(k - 1);
      OrShifted(a, b / 2, k - 1);
    }
  }

  /** Joining the adjacent bit ranges b..a-1 and c..b-1 gives the range c..a-1. */
  lemma {:induction false} OrAdjacentMasks(a: nat, b: nat, c: nat)
    requires c <= b <= a
    ensures BitOr(RangeMask(a, b), RangeMask(b, c)) == RangeMask(a, c)
  {
    if a == b {
      assert RangeMask(a, b) == 0;
    } else if b == c {
      assert RangeMask(b, c) == 0;
    } else {
      RangeMaskHalf(a, b);
      RangeMaskHalf(b, c);
      RangeMaskHalf(a, c);
      var x' := RangeMask(a - 1, b - 1);
      if c > 0 {
        OrAdjacentMasks(a - 1, b - 1, c - 1);
        OrStep(x', RangeMask(b - 1, c - 1), 0);
      } else {
        OrAdjacentMasks(a - 1, b - 1, 0);
        OrStep(x', RangeMask(b - 1, 0), 1);
      }
    }
  }

  /** One step of `|` on an even left operand. */
  lemma OrStep(x: nat, y: nat, e: nat)
    requires e < 2
    ensures BitOr(2 * x, 2 * y + e) == 2 * BitOr(x, y) + e
  {
    if x != 0 && 2 * y + e != 0 {
      assert (2 * x) / 2 == x && (2 * x) % 2 == 0;
      assert (2 * y + e) / 2 == y && (2 * y + e) % 2 == e;
    }
  }

  /** Dropping the lowest bit of a range mask. */
  lemma RangeMaskHalf(a: nat, b: nat)
    requires 0 < a && b <= a
    ensures 0 < b ==> RangeMask(a, b) == 2 * RangeMask(a - 1, b - 1)
    ensures b == 0 ==> RangeMask(a, b) == 2 * RangeMask(a - 1, 0) + 1
  {
    var pa := Pow2(a - 1);
    assert Pow2(a) == 2 * pa;
    if 0 < b {
      var pb := Pow2(b - 1);
      assert Pow2(b) == 2 * pb;
    }
  }

  /** Bit j of w, counting from the least significant. */
  predicate TestBit(w: nat, j: nat) {
    if j == 0 then w % 2 == 1 else TestBit(w / 2, j - 1)
  }

  /** Bit j is the binary digit of weight 2^j. */
  lemma {:induction false} TestBitIsDigit(w: nat, j: nat)
    ensures TestBit(w, j) <==> (w / Pow2(j)) % 2 == 1
  {
    if j > 0 {
      TestBitIsDigit(w / 2, j - 1);
      HalveDivMod(w, Pow2(j - 1));
    }
  }

  /** Testing a single bit with `w & 2^j == 2^j` reads bit j of w. */
  lemma {:induction false} AndSingleBit(w: nat, j: nat)
    ensures BitAnd(w, Pow2(j)) == (if TestBit(w, j) then Pow2(j) else 0)
  {
    if j == 0 {
      AndOddStep(w, 0);
    } else {
      var p := Pow2(j - 1);
      AndSingleBit(w / 2, j - 1);
      AndEvenStep(w, p);
    }
  }

  lemma MulLe(p: nat, x: int, y: int)
    requires x <= y
    ensures p * x <= p * y
  {
    assert p * y - p * x == p * (y - x);
  }

  lemma MulAtLeast(a: int, d: int)
    requires a >= 1 && d > 0
    ensures a * d >= d
  {
    if a > 1 {
      MulAtLeast(a - 1, d);
      assert a * d == (a - 1) * d + d;
    }
  }

  /** Euclidean division by d is determined by quotient and remainder. */
  lemma DivModUnique(w: int, d: int, q: int, r: int)
    requires d > 0 && 0 <= r < d && w == q * d + r
    ensures w / d == q && w % d == r
  {
    var q', r' := w / d, w % d;
    assert w == q' * d + r';
    if q' > q {
      assert (q' - q) * d == q' * d - q * d;
      MulAtLeast(q' - q, d);
    } else if q' < q {
      assert (q - q') * d == q * d - q' * d;
      MulAtLeast(q - q', d);
    }
  }
  /** `^` works digit by digit: the low bit is the XOR of the low bits, the rest is the XOR
      of the rest. */
  lemma XorDigits(a: nat, b: nat)
    ensures BitXor(a, b) % 2 == (if a % 2 != b % 2 then 1 else 0)
    ensures BitXor(a, b) / 2 == BitXor(a / 2, b / 2)
  {
    var d := if a % 2 != b % 2 then 1 else 0;
    if a == 0 {
      assert BitXor(a / 2, b / 2) == b / 2;
    } else if b == 0 {
      assert BitXor(a / 2, b / 2) == a / 2;
    } else {
      var h := BitXor(a / 2, b / 2);
      assert BitXor(a, b) == 2 * h + d;
      HalveDigit(h, d);
    }
  }

  /** A number written as a binary digit below a prefix splits back into the two. */
  lemma HalveDigit(h: nat, d: nat)
    requires d < 2
    ensures (2 * h + d) % 2 == d && (2 * h + d) / 2 == h
  {
  }

  /** Masking again with the same mask changes nothing: `a & b` has no bit outside `b`. */
  lemma {:induction false} AndMaskIdempotent(a: nat, b: nat)
    ensures BitAnd(BitAnd(a, b), b) == BitAnd(a, b)
    decreases a
  {
    if a != 0 && b != 0 {
      var h, d := BitAnd(a / 2, b / 2), if a % 2 == 1 && b % 2 == 1 then 1 else 0;
      AndMaskIdempotent(a / 2, b / 2);
      HalveDigit(h, d);
      assert BitAnd(a, b) == 2 * h + d;
    }
  }

  /** XOR with the same value twice is the identity. */
  lemma {:induction false} XorInvolutive(a: nat, b: nat)
    ensures BitXor(BitXor(a, b), b) == a
    decreases a + b
  {
    if a + b > 0 {
      var c := BitXor(a, b);
      XorDigits(a, b);
      XorDigits(c, b);
      XorInvolutive(a / 2, b / 2);
      assert BitXor(c, b) / 2 == a / 2;
      assert BitXor(c, b) % 2 == a % 2;
    }
  }

  /** `a & b` keeps only bits both have, so it is at most either operand. */
  lemma {:induction false} AndBelow(a: nat, b: nat)
    ensures BitAnd(a, b) <= a && BitAnd(a, b) <= b
    decreases a
  {
    if a != 0 && b != 0 {
      AndBelow(a / 2, b / 2);
    }
  }
}
