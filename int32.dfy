/**
 * The C# `int` type: 32-bit two's complement with unchecked (wrapping)
 * arithmetic. A value is either read as a signed number (`Int`) or as its
 * bit pattern read as an unsigned number (`Word`); wrapping is reduction
 * modulo 2^32, written out explicitly.
 */
module Int32 {
  const Modulus: int := 0x1_0000_0000
  const MinValue: int := -0x8000_0000
  const MaxValue: int := 0x7FFF_FFFF

  /** A C# `int`, read as a signed number. */
  type Int = x: int | MinValue <= x <= MaxValue

  /** The bit pattern of an `int`, read as an unsigned number. */
  type Word = w: int | 0 <= w < 0x1_0000_0000

  /** The result of unchecked C# addition: the mathematical sum reduced into the `int` range. */
  function Wrap(x: int): (r: Int)
    ensures (r - x) % Modulus == 0
    ensures MinValue <= x <= MaxValue ==> r == x
  {
    (x - MinValue) % Modulus + MinValue
  }

  /** The signed number a bit pattern stands for. */
  function ToSigned(w: Word): (x: Int)
    ensures x % Modulus == w
    ensures x < 0 <==> w > MaxValue
  {
    if w <= MaxValue then w else w - Modulus
  }

  /** The bit pattern of a signed number (any integer, taken modulo 2^32). */
  function ToWord(x: int): (w: Word)
    ensures MinValue <= x <= MaxValue ==> ToSigned(w) == x
  {
    x % Modulus
  }

  function Pow2(n: nat): (r: nat)
    ensures r > 0
  {
    if n == 0 then 1 else 2 * Pow2(n - 1)
  }

  lemma Pow2Word()
    ensures Pow2(30) == 0x4000_0000 && Pow2(32) == Modulus
  {
    assert Pow2(8) == 0x100;
    assert Pow2(16) == 0x1_0000;
    assert Pow2(24) == 0x100_0000;
  }

  /** The number formed by the low `n` bits of `b`, least significant bit first. */
  function LowBits(b: nat, n: nat): (r: nat)
    ensures r < Pow2(n)
  {
    if n == 0 then 0 else b % 2 + 2 * LowBits(b / 2, n - 1)
  }

  /** The number formed by the low `n` bits of `a ^ b`, least significant bit first. */
  function XorBits(a: nat, b: nat, n: nat): (r: nat)
    ensures r < Pow2(n)
  {
    if n == 0 then 0 else (if a % 2 == b % 2 then 0 else 1) + 2 * XorBits(a / 2, b / 2, n - 1)
  }

  /** C#'s `^` on two `int`s, on their bit patterns. */
  function Xor(a: Word, b: Word): Word {
    Pow2Word();
    XorBits(a, b, 32)
  }

  lemma MulStep(m: nat, x: int, y: int)
    requires x < y
    ensures m * x + m <= m * y
    decreases y - x
  {
    if x + 1 < y {
      MulStep(m, x, y - 1);
    }
  }

  /** Euclidean division has a unique quotient and remainder. */
  lemma ModUnique(b: int, m: int, q: int, s: int)
    requires m > 0 && 0 <= s < m && b == m * q + s
    ensures b % m == s
  {
    var q', s' := b / m, b % m;
    assert b == m * q' + s';
    if q < q' {
      MulStep(m, q, q');
    } else if q > q' {
      MulStep(m, q', q);
    }
  }

  /** A number's lowest bit and the rest are determined by the number. */
  lemma SplitUnique(x: int, u: int, y: int, v: int)
    requires 0 <= x < 2 && 0 <= y < 2 && x + 2 * u == y + 2 * v
    ensures x == y && u == v
  {
  }

  /** The low `n` bits of `b` are its lowest bit followed by the low `n - 1` bits of `b / 2`. */
  lemma ModSplit(b: nat, n: nat)
    requires n > 0
    ensures b % Pow2(n) == b % 2 + 2 * ((b / 2) % Pow2(n - 1))
  {
    var p := Pow2(n - 1);
    var q, r := (b / 2) / p, (b / 2) % p;
    assert b / 2 == p * q + r;
    assert b == Pow2(n) * q + (2 * r + b % 2);
    ModUnique(b, Pow2(n), q, 2 * r + b % 2);
  }

  /** `LowBits` is the remainder modulo `2^n`. */
  lemma {:induction false} LowBitsMod(b: nat, n: nat)
    ensures LowBits(b, n) == b % Pow2(n)
    decreases n
  {
    if n > 0 {
      LowBitsMod(b / 2, n - 1);
      ModSplit(b, n);
    }
  }

  /** `XorBits(a, b, n)` looks only at the low `n` bits of `b`. */
  lemma {:induction false} XorBitsLowBits(a: nat, b: nat, c: nat, n: nat)
    requires LowBits(b, n) == LowBits(c, n)
    ensures XorBits(a, b, n) == XorBits(a, c, n)
    decreases n
  {
    if n > 0 {
      SplitUnique(b % 2, LowBits(b / 2, n - 1), c % 2, LowBits(c / 2, n - 1));
      XorBitsLowBits(a / 2, b / 2, c / 2, n - 1);
    }
  }

  /** Mixing in with `^` can be undone: equal results mean equal low bits. */
  lemma {:induction false} XorBitsCancel(a: nat, b: nat, c: nat, n: nat)
    requires XorBits(a, b, n) == XorBits(a, c, n)
    ensures LowBits(b, n) == LowBits(c, n)
    decreases n
  {
    if n > 0 {
      SplitUnique(if a % 2 == b % 2 then 0 else 1, XorBits(a / 2, b / 2, n - 1), if a % 2 == c % 2 then 0 else 1, XorBits(a / 2, c / 2, n - 1));
      XorBitsCancel(a / 2, b / 2, c / 2, n - 1);
    }
  }

  /** The low `k` bits of an `n`-bit exclusive or are the `k`-bit exclusive or. */
  lemma {:induction false} XorBitsPrefix(a: nat, b: nat, n: nat, k: nat)
    requires k <= n
    ensures LowBits(XorBits(a, b, n), k) == XorBits(a, b, k)
    decreases k
  {
    if k > 0 {
      var x := XorBits(a, b, n);
      assert x % 2 == (if a % 2 == b % 2 then 0 else 1) && x / 2 == XorBits(a / 2, b / 2, n - 1);
      XorBitsPrefix(a / 2, b / 2, n - 1, k - 1);
    }
  }

  /** `Xor(a, _)` preserves agreement on the low `k` bits, in both directions; in particular it is one-to-one. */
  lemma XorLowBits(a: Word, b: Word, c: Word, k: nat)
    requires k <= 32
    ensures Xor(a, b) % Pow2(k) == Xor(a, c) % Pow2(k) <==> b % Pow2(k) == c % Pow2(k)
  {
    XorBitsPrefix(a, b, 32, k);
    XorBitsPrefix(a, c, 32, k);
    LowBitsMod(Xor(a, b), k);
    LowBitsMod(Xor(a, c), k);
    LowBitsMod(b, k);
    LowBitsMod(c, k);
    if b % Pow2(k) == c % Pow2(k) {
      XorBitsLowBits(a, b, c, k);
    }
    if XorBits(a, b, k) == XorBits(a, c, k) {
      XorBitsCancel(a, b, c, k);
    }
  }

  /** `Xor(a, _)` is one-to-one. */
  lemma XorCancels(a: Word, b: Word, c: Word)
    ensures Xor(a, b) == Xor(a, c) <==> b == c
  {
    Pow2Word();
    XorLowBits(a, b, c, 32);
    assert b % Modulus == b && c % Modulus == c;
    assert Xor(a, b) % Modulus == Xor(a, b) && Xor(a, c) % Modulus == Xor(a, c);
  }
}
