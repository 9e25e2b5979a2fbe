/** Bit operations on natural numbers: the C code's `&`, `|` and `>>` on unsigned words, and
    the two facts about them the rest of the project needs: masking with a power of two minus
    one is a remainder, and smearing the top bit down rounds up to a power of two. */
module Bits {

  function Pow2(n: nat): (r: nat)
    ensures r > 0
  {
    if n == 0 then 1 else 2 * Pow2(n - 1)
  }

  function And(a: nat, b: nat): (r: nat)
    ensures r <= a && r <= b
  {
    if a == 0 || b == 0 then 0
    else 2 * And(a / 2, b / 2) + (if a % 2 == 1 && b % 2 == 1 then 1 else 0)
  }

  function Or(a: nat, b: nat): (r: nat)
    ensures r >= a && r >= b
  {
    if a == 0 then b
    else if b == 0 then a
    else 2 * Or(a / 2, b / 2) + (if a % 2 == 1 || b % 2 == 1 then 1 else 0)
  }

  function Shr(a: nat, n: nat): (r: nat)
    ensures r <= a
  {
    if n == 0 then a else Shr(a / 2, n - 1)
  }

  /** Number of bits up to and including the highest set one. */
  function BitLength(a: nat): (r: nat)
    ensures Pow2(r) > a
    ensures a > 0 ==> r > 0 && Pow2(r - 1) <= a
  {
    if a == 0 then 0 else 1 + BitLength(a / 2)
  }

  // Products

  lemma MulMonotone(d: int, x: int, y: int)
    requires d >= 0 && x <= y
    ensures d * x <= d * y
  {
  }

  lemma DoubleLeft(p: int, h: int)
    ensures (2 * p) * h == 2 * (p * h)
  {
  }

  lemma Distribute(a: int, b: int, c: int)
    ensures c * (a - b) == c * a - c * b
  {
  }

  lemma Pow2Twice(n: nat)
    ensures Pow2(n + 1) == 2 * Pow2(n)
  {
  }

  lemma {:induction false} Pow2Add(a: nat, b: nat)
    ensures Pow2(a + b) == Pow2(a) * Pow2(b)
  {
    if a > 0 {
      Pow2Add(a - 1, b);
      DoubleLeft(Pow2(a - 1), Pow2(b));
    }
  }

  lemma {:induction false} Pow2Monotone(a: nat, b: nat)
    requires a <= b
    ensures Pow2(a) <= Pow2(b)
    ensures a < b ==> 2 * Pow2(a) <= Pow2(b)
    decreases b
  {
    if a < b {
      Pow2Monotone(a, b - 1);
    }
  }

  lemma BitLengthUnique(a: nat, n: nat)
    requires n > 0 && Pow2(n - 1) <= a < Pow2(n)
    ensures BitLength(a) == n
  {
    if BitLength(a) < n {
      Pow2Monotone(BitLength(a), n - 1);
    } else if n < BitLength(a) {
      Pow2Monotone(n, BitLength(a) - 1);
    }
  }

  lemma {:induction false} BitLengthMonotone(a: nat, b: nat)
    requires a <= b
    ensures BitLength(a) <= BitLength(b)
  {
    if a > 0 {
      BitLengthMonotone(a / 2, b / 2);
    }
  }

  // Shifts and masks

  /** A shift is the quotient: `2^k * (a >> k) <= a < 2^k * ((a >> k) + 1)`. */
  lemma {:induction false} ShrBounds(a: nat, k: nat)
    ensures Pow2(k) * Shr(a, k) <= a < Pow2(k) * Shr(a, k) + Pow2(k)
  {
    if k > 0 {
      ShrBounds(a / 2, k - 1);
      DoubleLeft(Pow2(k - 1), Shr(a, k));
    }
  }

  lemma ShrUnique(a: nat, k: nat, q: nat)
    requires Pow2(k) * q <= a < Pow2(k) * q + Pow2(k)
    ensures Shr(a, k) == q
  {
    hide Pow2, Shr;
    var p, s := Pow2(k), Shr(a, k);
    ShrBounds(a, k);
    assert p * (s + 1) == p * s + p && p * (q + 1) == p * q + p;
    if s < q {
      MulMonotone(p, s + 1, q);
    } else if q < s {
      MulMonotone(p, q + 1, s);
    }
  }

  lemma {:induction false} ShrAtLeast(x: nat, i: nat, q: nat)
    requires x >= Pow2(i) * q
    ensures Shr(x, i) >= q
  {
    if i > 0 {
      DoubleLeft(Pow2(i - 1), q);
      ShrAtLeast(x / 2, i - 1, q);
    }
  }

  lemma {:induction false} ShrLessThan(x: nat, i: nat, q: nat)
    requires x < Pow2(i) * q
    ensures Shr(x, i) < q
  {
    if i > 0 {
      DoubleLeft(Pow2(i - 1), q);
      ShrLessThan(x / 2, i - 1, q);
    }
  }

  lemma {:induction false} ShrMonotone(a: nat, b: nat, k: nat)
    requires a <= b
    ensures Shr(a, k) <= Shr(b, k)
  {
    if k > 0 {
      ShrMonotone(a / 2, b / 2, k - 1);
    }
  }

  /** `a & (2^k - 1)` is what the shift by `k` drops, the remainder modulo `2^k`. */
  lemma {:induction false} AndMask(a: nat, k: nat)
    ensures a == Pow2(k) * Shr(a, k) + And(a, Pow2(k) - 1)
  {
    hide And;
    AndZero(a);
    if k > 0 {
      AndMask(a / 2, k - 1);
      DoubleLeft(Pow2(k - 1), Shr(a, k));
      AndMaskStep(a, Pow2(k - 1), Pow2(k - 1) * Shr(a, k));
    }
  }

  lemma AndZero(a: nat)
    ensures And(a, 0) == 0
  {
  }

  lemma AndMaskStep(a: nat, p: nat, hp: nat)
    requires p > 0 && a / 2 == hp + And(a / 2, p - 1)
    ensures a == 2 * hp + And(a, 2 * p - 1)
  {
    var b := 2 * p - 1;
    assert b / 2 == p - 1 && b % 2 == 1;
  }

  // Or

  lemma OrStep(a: nat, b: nat)
    ensures Or(a, b) == 2 * Or(a / 2, b / 2) + (if a % 2 == 1 || b % 2 == 1 then 1 else 0)
  {
  }

  lemma {:induction false} OrBelow(a: nat, b: nat, k: nat)
    requires a < Pow2(k) && b < Pow2(k)
    ensures Or(a, b) < Pow2(k)
  {
    if a > 0 && b > 0 {
      OrBelow(a / 2, b / 2, k - 1);
    }
  }

  /** Or-ing into the low `k` bits leaves the high part alone. */
  lemma {:induction false} OrLowPart(h: nat, low: nat, y: nat, k: nat)
    requires low < Pow2(k) && y < Pow2(k)
    ensures Or(Pow2(k) * h + low, y) == Pow2(k) * h + Or(low, y)
  {
    hide Or;
    if k > 0 {
      OrLowPart(h, low / 2, y / 2, k - 1);
      DoubleLeft(Pow2(k - 1), h);
      OrLowStep(Pow2(k - 1) * h, low, y);
    } else {
      OrZero(h);
      OrZero(0);
    }
  }

  lemma OrZero(h: nat)
    ensures Or(h, 0) == h == Or(0, h)
  {
  }

  lemma OrLowStep(hp: nat, low: nat, y: nat)
    requires Or(hp + low / 2, y / 2) == hp + Or(low / 2, y / 2)
    ensures Or(2 * hp + low, y) == 2 * hp + Or(low, y)
  {
    hide Or;
    OrStep(2 * hp + low, y);
    OrStep(low, y);
  }

  lemma {:induction false} BitLengthOr(a: nat, b: nat)
    ensures BitLength(Or(a, b)) == if BitLength(a) >= BitLength(b) then BitLength(a) else BitLength(b)
  {
    if a > 0 && b > 0 {
      BitLengthOr(a / 2, b / 2);
      var o := Or(a, b);
      OrStep(a, b);
      assert o / 2 == Or(a / 2, b / 2);
      BitLengthStep(o);
      BitLengthStep(a);
      BitLengthStep(b);
    }
  }

  lemma BitLengthStep(a: nat)
    requires a > 0
    ensures BitLength(a) == 1 + BitLength(a / 2)
  {
  }

  // Rounding up to a power of two

  /** The least power of two that is not below `v`. */
  function LeastPow2(v: nat): (r: nat)
    ensures r >= v
  {
    if v == 0 then 1 else Pow2(BitLength(v - 1))
  }

  lemma LeastPow2Least(v: nat, n: nat)
    ensures exists k: nat :: LeastPow2(v) == Pow2(k)
    ensures Pow2(n) >= v ==> Pow2(n) >= LeastPow2(v)
  {
    if v == 0 {
      assert LeastPow2(v) == Pow2(0) by { Pow2Zero(); }
    } else {
      var l := BitLength(v - 1);
      assert LeastPow2(v) == Pow2(l);
      if n < l {
        Pow2Monotone(n, l - 1);
      } else {
        Pow2Monotone(l, n);
      }
    }
  }

  lemma Pow2Zero()
    ensures Pow2(0) == 1
  {
  }

  /** One round of smearing: when the top `i` of `l` bits are set, `x | x >> i` sets the top `2i`. */
  lemma SmearRound(x: nat, l: nat, i: nat)
    requires 0 < i <= l && Pow2(l) - Pow2(l - i) <= x < Pow2(l)
    ensures Or(x, Shr(x, i)) < Pow2(l)
    ensures Or(x, Shr(x, i)) >= Pow2(l) - Pow2(if 2 * i <= l then l - 2 * i else 0)
  {
    hide Pow2, Or, Shr;
    var y, k := Shr(x, i), l - i;
    assert y < Pow2(k) by {
      Pow2Add(i, k);
      ShrLessThan(x, i, Pow2(k));
    }
    OrBelow(x, y, l);
    var high := Pow2(l) - Pow2(k);
    assert high == Pow2(k) * (Pow2(i) - 1) by {
      Pow2Add(i, k);
      Distribute(Pow2(i), 1, Pow2(k));
    }
    OrLowPart(Pow2(i) - 1, x - high, y, k);
    assert Or(x, y) == high + Or(x - high, y);
    SmearGain(x, l, i);
  }

  lemma SmearGain(x: nat, l: nat, i: nat)
    requires 0 < i <= l && Pow2(l) - Pow2(l - i) <= x < Pow2(l)
    ensures Shr(x, i) >= Pow2(l - i) - Pow2(if 2 * i <= l then l - 2 * i else 0)
  {
    hide Pow2, Shr;
    var k := l - i;
    Pow2Add(i, k);
    if i <= k {
      Pow2Add(i, k - i);
      Distribute(Pow2(k), Pow2(k - i), Pow2(i));
      Pow2Monotone(k - i, k);
      ShrAtLeast(x, i, Pow2(k) - Pow2(k - i));
    } else {
      Pow2Monotone(k, i);
      Pow2Zero();
      Distribute(Pow2(k), 1, Pow2(i));
      ShrAtLeast(x, i, Pow2(k) - 1);
    }
  }

  /** Smearing all the way down fills every bit below the top one. */
  method Smear(v: nat, width: nat) returns (x: nat)
    requires v < Pow2(width)
    ensures x == Pow2(BitLength(v)) - 1
  {
    hide Or, Shr;
    x := v;
    ghost var l := BitLength(v);
    if l > width {
      Pow2Monotone(width, l - 1);
    }
    var i := 1;
    while i < width
      invariant i >= 1
      invariant x < Pow2(l)
      invariant l > 0 ==> x >= Pow2(l) - Pow2(if i <= l then l - i else 0)
    {
      if i <= l {
        SmearRound(x, l, i);
      } else {
        OrBelow(x, Shr(x, i), l);
      }
      x := Or(x, Shr(x, i));
      i := 2 * i;
    }
  }

  /** The C idiom `v--; for (i = 1; i < width; i *= 2) v |= v >> i; v++;` on a word of `width`
      bits: it rounds up to a power of two, and wraps to zero exactly when that is `2^width`. */
  method RoundUpPow2(v: nat, width: nat) returns (r: nat)
    requires 0 < v < Pow2(width)
    ensures v <= Pow2(width - 1) ==> r == LeastPow2(v)
    ensures v > Pow2(width - 1) ==> r == 0
  {
    hide Pow2, BitLength;
    RoundedBelow(v, width);
    var x := Smear(v - 1, width);
    r := if x + 1 == Pow2(width) then 0 else x + 1;
  }

  lemma RoundedBelow(v: nat, width: nat)
    requires 0 < v < Pow2(width)
    ensures v <= Pow2(width - 1) ==> LeastPow2(v) < Pow2(width)
    ensures v > Pow2(width - 1) ==> LeastPow2(v) == Pow2(width)
  {
    var l := BitLength(v - 1);
    if l < width {
      Pow2Monotone(l, width - 1);
    } else if l > width {
      Pow2Monotone(width, l - 1);
    }
  }
}
