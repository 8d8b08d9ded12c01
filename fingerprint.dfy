/**
 * The argument-list fingerprint of the method cache (`CombinedHashCode`).
 *
 * Two 32-bit accumulators start at the same seed. Walking the list in order,
 * the element at an even index is mixed into the first accumulator and the
 * element at an odd index into the second. The result is
 * `hash1 + hash2 * 1566083941`. All arithmetic is C#'s unchecked `int`
 * arithmetic; it is written on bit patterns (`Word`), with every wrap-around
 * spelled out as a reduction modulo 2^32.
 *
 * The definition below is the split form: each accumulator is a left fold over
 * its own half of the list. The cache's loop, which interleaves the two, is
 * proved against it.
 */
module Fingerprints {
  import opened Int32

  /** `(5381 << 16) + 5381`, the start value of both accumulators (no overflow). */
  const Seed: Word := 5381 * 0x1_0000 + 5381

  /** The multiplier of the second accumulator in the final combination. */
  const Multiplier: Word := 1566083941

  /** C#'s `h << 5` on an `int`: the bits move up five places and the top five are lost. */
  function ShiftLeft5(h: Word): (r: Word)
    ensures r % 32 == 0
    ensures r == 32 * (h % 0x800_0000)
    ensures h < 0x800_0000 ==> r == 32 * h
  {
    (h * 32) % Modulus
  }

  /**
   * C#'s `h >> 27` on a signed `int`: an arithmetic shift, so the signed value
   * is divided by 2^27 rounding down and the sign is kept.
   */
  function ShiftRight27(h: Word): (r: Word)
    ensures ToSigned(r) == ToSigned(h) / 0x800_0000
    ensures -16 <= ToSigned(r) < 16
  {
    ToWord(ToSigned(h) / 0x800_0000)
  }

  /** The part of an accumulator step before the hash code is mixed in: `(h << 5) + h + (h >> 27)`. */
  function Spread(h: Word): Word {
    (ShiftLeft5(h) + h + ShiftRight27(h)) % Modulus
  }

  /** One accumulator step, `((h << 5) + h + (h >> 27)) ^ x`. */
  function Mix(h: Word, x: Word): Word {
    Xor(Spread(h), x)
  }

  /** An accumulator after absorbing the hash codes of `s`, in order. */
  function Fold<T>(s: seq<T>, hashCode: T -> Word): Word
    decreases |s|
  {
    if s == [] then Seed else Mix(Fold(s[..|s| - 1], hashCode), hashCode(s[|s| - 1]))
  }

  /** The final combination of the two accumulators, `hash1 + hash2 * 1566083941`. */
  function Combine(hash1: Word, hash2: Word): Word {
    (hash1 + hash2 * Multiplier) % Modulus
  }

  /** The fingerprint of an ordered argument list. */
  function Fingerprint<T>(s: seq<T>, hashCode: T -> Word): Word {
    Combine(Fold(Evens(s), hashCode), Fold(Odds(s), hashCode))
  }

  /** The elements of `s` at even indices 0, 2, 4, ... */
  function Evens<T>(s: seq<T>): seq<T>
    decreases |s|
  {
    if s == [] then [] else [s[0]] + Odds(s[1..])
  }

  /** The elements of `s` at odd indices 1, 3, 5, ... */
  function Odds<T>(s: seq<T>): seq<T>
    decreases |s|
  {
    if s == [] then [] else Evens(s[1..])
  }

  /** The even positions are the first half, rounded up; the odd ones the rest. */
  lemma {:induction false} EvensOddsLength<T>(s: seq<T>)
    ensures |Evens(s)| == (|s| + 1) / 2 && |Odds(s)| == |s| / 2
    decreases |s|
  {
    if s != [] {
      EvensOddsLength(s[1..]);
    }
  }

  /** The `k`-th element of `Evens` is the element at index `2k`. */
  lemma {:induction false} EvensAt<T>(s: seq<T>, k: nat)
    requires k < |Evens(s)|
    ensures 2 * k < |s| && Evens(s)[k] == s[2 * k]
    decreases |s|, 1
  {
    EvensOddsLength(s);
    if k > 0 {
      OddsAt(s[1..], k - 1);
    }
  }

  /** The `k`-th element of `Odds` is the element at index `2k + 1`. */
  lemma {:induction false} OddsAt<T>(s: seq<T>, k: nat)
    requires k < |Odds(s)|
    ensures 2 * k + 1 < |s| && Odds(s)[k] == s[2 * k + 1]
    decreases |s|, 0
  {
    EvensOddsLength(s);
    EvensAt(s[1..], k);
  }

  /** `Evens` keeps exactly the even positions and `Odds` exactly the odd ones. */
  lemma EvensOddsAt<T>(s: seq<T>)
    ensures |Evens(s)| == (|s| + 1) / 2 && |Odds(s)| == |s| / 2
    ensures forall k :: 0 <= k < |Evens(s)| ==> Evens(s)[k] == s[2 * k]
    ensures forall k :: 0 <= k < |Odds(s)| ==> Odds(s)[k] == s[2 * k + 1]
  {
    EvensOddsLength(s);
    forall k | 0 <= k < |Evens(s)| ensures Evens(s)[k] == s[2 * k] {
      EvensAt(s, k);
    }
    forall k | 0 <= k < |Odds(s)| ensures Odds(s)[k] == s[2 * k + 1] {
      OddsAt(s, k);
    }
  }

  /** Appending an element extends `Evens` when it lands on an even index and `Odds` otherwise. */
  lemma {:induction false} EvensOddsSnoc<T>(s: seq<T>, x: T)
    ensures Evens(s + [x]) == if |s| % 2 == 0 then Evens(s) + [x] else Evens(s)
    ensures Odds(s + [x]) == if |s| % 2 == 0 then Odds(s) else Odds(s) + [x]
    decreases |s|
  {
    if s == [] {
      assert [x][1..] == [];
    } else {
      assert (s + [x])[1..] == s[1..] + [x];
      EvensOddsSnoc(s[1..], x);
    }
  }

  /** Absorbing one more element is one `Mix` step. */
  lemma FoldSnoc<T>(s: seq<T>, x: T, hashCode: T -> Word)
    ensures Fold(s + [x], hashCode) == Mix(Fold(s, hashCode), hashCode(x))
  {
    assert (s + [x])[..|s|] == s;
  }

  /**
   * The loop step: an element at an even index changes only the first
   * accumulator, an element at an odd index only the second.
   */
  lemma FingerprintSnoc<T>(s: seq<T>, x: T, hashCode: T -> Word)
    ensures Fingerprint(s + [x], hashCode) ==
      if |s| % 2 == 0
      then Combine(Mix(Fold(Evens(s), hashCode), hashCode(x)), Fold(Odds(s), hashCode))
      else Combine(Fold(Evens(s), hashCode), Mix(Fold(Odds(s), hashCode), hashCode(x)))
  {
    EvensOddsSnoc(s, x);
    if |s| % 2 == 0 {
      FoldSnoc(Evens(s), x, hashCode);
    } else {
      FoldSnoc(Odds(s), x, hashCode);
    }
  }

  /** A fold sees the elements only through their hash codes. */
  lemma {:induction false} FoldByHashes<T>(s: seq<T>, t: seq<T>, hashCode: T -> Word)
    requires |s| == |t|
    requires forall k :: 0 <= k < |s| ==> hashCode(s[k]) == hashCode(t[k])
    ensures Fold(s, hashCode) == Fold(t, hashCode)
    decreases |s|
  {
    if s != [] {
      FoldByHashes(s[..|s| - 1], t[..|t| - 1], hashCode);
    }
  }

  /**
   * Determinism: the fingerprint is a function of the ordered sequence of the
   * elements' hash codes alone.
   */
  lemma FingerprintByHashes<T>(s: seq<T>, t: seq<T>, hashCode: T -> Word)
    requires |s| == |t|
    requires forall k :: 0 <= k < |s| ==> hashCode(s[k]) == hashCode(t[k])
    ensures Fingerprint(s, hashCode) == Fingerprint(t, hashCode)
  {
    EvensOddsAt(s);
    EvensOddsAt(t);
    FoldByHashes(Evens(s), Evens(t), hashCode);
    FoldByHashes(Odds(s), Odds(t), hashCode);
  }

  /** The empty argument list: both accumulators keep the seed. */
  lemma EmptyFingerprint<T>(hashCode: T -> Word)
    ensures Seed == 352654597
    ensures Fingerprint([], hashCode) == 757602046
  {
  }

  /**
   * Signature sensitivity: two argument lists that differ only in their last
   * element get the same fingerprint exactly when those elements hash alike.
   */
  lemma LastElementSensitivity<T>(s: seq<T>, b: T, c: T, hashCode: T -> Word)
    ensures Fingerprint(s + [b], hashCode) == Fingerprint(s + [c], hashCode) <==> hashCode(b) == hashCode(c)
  {
    FingerprintSnoc(s, b, hashCode);
    FingerprintSnoc(s, c, hashCode);
    var e, o := Fold(Evens(s), hashCode), Fold(Odds(s), hashCode);
    if |s| % 2 == 0 {
      MixCancels(e, hashCode(b), hashCode(c));
      CombineCancelsFirst(Mix(e, hashCode(b)), Mix(e, hashCode(c)), o);
    } else {
      MixCancels(o, hashCode(b), hashCode(c));
      CombineCancelsSecond(e, Mix(o, hashCode(b)), Mix(o, hashCode(c)));
    }
  }

  /**
   * Order sensitivity is only partial: swapping the two elements of a
   * two-element list keeps the fingerprint exactly when their hash codes agree
   * on the low 30 bits (1566083941 - 1 is 4 times an odd number).
   */
  lemma SwapCollision<T>(a: T, b: T, hashCode: T -> Word)
    ensures Fingerprint([a, b], hashCode) == Fingerprint([b, a], hashCode) <==>
      hashCode(a) % 0x4000_0000 == hashCode(b) % 0x4000_0000
  {
    assert [a, b] == [a] + [b] && [b, a] == [b] + [a];
    PairFingerprint(a, b, hashCode);
    PairFingerprint(b, a, hashCode);
    var x, y := Mix(Seed, hashCode(a)), Mix(Seed, hashCode(b));
    CombineSwap(x, y);
    Pow2Word();
    XorLowBits(Spread(Seed), hashCode(a), hashCode(b), 30);
  }

  /** A two-element list: each element has an accumulator of its own. */
  lemma PairFingerprint<T>(a: T, b: T, hashCode: T -> Word)
    ensures Fingerprint([a] + [b], hashCode) == Combine(Mix(Seed, hashCode(a)), Mix(Seed, hashCode(b)))
  {
    FingerprintSnoc([a], b, hashCode);
    assert Evens([a]) == [] + [a] && Odds([a]) == [];
    FoldSnoc([], a, hashCode);
  }

  // Facts about the 32-bit arithmetic alone.

  /** Mixing in a hash code can be undone. */
  lemma MixCancels(h: Word, u: Word, v: Word)
    ensures Mix(h, u) == Mix(h, v) <==> u == v
  {
    XorCancels(Spread(h), u, v);
  }

  /** Two remainders modulo `m` agree exactly when `m` divides the difference. */
  lemma ModEq(a: int, b: int, m: int)
    requires m > 0
    ensures a % m == b % m <==> (a - b) % m == 0
  {
    var qa, qb := a / m, b / m;
    if a % m == b % m {
      ModUnique(a - b, m, qa - qb, 0);
    } else {
      var k := (a - b) / m;
      if (a - b) % m == 0 {
        SmallMultiple(m, k - qa + qb, a % m - b % m);
      }
    }
  }

  /** The only multiple of `m` strictly between `-m` and `m` is 0. */
  lemma SmallMultiple(m: int, t: int, r: int)
    requires m > 0 && -m < r < m && r == m * t
    ensures r == 0
  {
    if t > 0 {
      MulStep(m, 0, t);
    } else if t < 0 {
      MulStep(m, t, 0);
    }
  }

  /** The final combination is one-to-one in the first accumulator. */
  lemma CombineCancelsFirst(p: Word, q: Word, o: Word)
    ensures Combine(p, o) == Combine(q, o) <==> p == q
  {
    ModEq(p + o * Multiplier, q + o * Multiplier, Modulus);
    if (p - q) % Modulus == 0 {
      SmallMultiple(Modulus, (p - q) / Modulus, p - q);
    }
  }

  /** The final combination is one-to-one in the second accumulator: 1566083941 is odd, with inverse 1786162797. */
  lemma CombineCancelsSecond(e: Word, p: Word, q: Word)
    ensures Combine(e, p) == Combine(e, q) <==> p == q
  {
    var d := p - q;
    assert (e + p * Multiplier) - (e + q * Multiplier) == d * 1566083941;
    ModEq(e + p * Multiplier, e + q * Multiplier, Modulus);
    if (d * 1566083941) % Modulus == 0 {
      var j := (d * 1566083941) / Modulus;
      assert d * 1566083941 == Modulus * j;
      assert d * 1566083941 * 1786162797 == d + Modulus * (d * 651292706);
      SmallMultiple(Modulus, j * 1786162797 - d * 651292706, d);
    }
  }

  /**
   * Swapping the accumulators keeps the combination exactly when they agree on
   * the low 30 bits: the difference is `(x - y) * -1566083940`, and
   * 1566083940 is 4 times 391520985, which is odd with inverse 1267613033.
   */
  lemma CombineSwap(x: Word, y: Word)
    ensures Combine(x, y) == Combine(y, x) <==> x % 0x4000_0000 == y % 0x4000_0000
  {
    var d := x - y;
    var a, b := x + y * Multiplier, y + x * Multiplier;
    assert a - b == d * -1566083940;
    ModEq(a, b, Modulus);
    ModEq(x, y, 0x4000_0000);
    if (d * -1566083940) % Modulus == 0 {
      var j := (d * -1566083940) / Modulus;
      assert d * 391520985 == 0x4000_0000 * -j;
      assert d * 391520985 * 1267613033 == d + 0x4000_0000 * (d * 462212696);
      ModUnique(d, 0x4000_0000, -j * 1267613033 - d * 462212696, 0);
    }
    if d % 0x4000_0000 == 0 {
      var t := d / 0x4000_0000;
      assert d * -1566083940 == Modulus * (-t * 391520985);
      ModUnique(d * -1566083940, Modulus, -t * 391520985, 0);
    }
  }
}
