/** Unsigned shifts and masks written as arithmetic: `word >> (bits * k)` is division by
    `Pow(2^bits, k)` and `& (2^bits - 1)` is the remainder modulo `2^bits`. */
module Bits {
  function Pow(base: nat, e: nat): (r: nat)
    requires base > 0
    ensures r > 0
  {
    if e == 0 then 1 else base * Pow(base, e - 1)
  }

  /** Field `k` of `word` when the word is cut into fields of `base` values each, least significant
      first: `(word >> (bits * k)) & (base - 1)` for `base == 2^bits`. */
  function Digit(word: nat, base: nat, k: nat): (d: nat)
    requires base > 0
    ensures d < base
  {
    (word / Pow(base, k)) % base
  }

  lemma MulMono(d: nat, a: nat, b: nat)
    requires a <= b
    ensures d * a <= d * b
  {
  }

  /** Quotient and remainder are unique. */
  lemma {:induction false} DivUnique(a: nat, d: nat, q: nat, r: nat)
    requires d > 0 && r < d && a == d * q + r
    ensures a / d == q
  {
    var q', r' := a / d, a % d;
    assert a == d * q' + r';
    if q' < q {
      MulMono(d, q' + 1, q);
      assert false;
    } else if q' > q {
      MulMono(d, q + 1, q');
      assert false;
    }
  }

  lemma Regroup(a: nat, p: nat, q: nat, x: nat, y: nat, r1: nat, r2: nat)
    requires a == p * x + r1 && x == q * y + r2
    ensures a == (p * q) * y + (p * r2 + r1)
  {
  }

  lemma RemainderFits(p: nat, q: nat, r1: nat, r2: nat)
    requires r1 < p && r2 < q
    ensures p * r2 + r1 < p * q
  {
    MulMono(p, r2, q - 1);
  }

  /** Two successive shifts are one shift by the sum: `(w >> s) >> t == w >> (s + t)`. */
  lemma {:induction false} DivDiv(a: nat, p: nat, q: nat)
    requires p > 0 && q > 0
    ensures (a / p) / q == a / (p * q)
  {
    var x, r1 := a / p, a % p;
    var y, r2 := x / q, x % q;
    assert a == p * x + r1 && x == q * y + r2;
    Regroup(a, p, q, x, y, r1, r2);
    RemainderFits(p, q, r1, r2);
    DivUnique(a, p * q, y, p * r2 + r1);
  }

  lemma Associate(a: nat, b: nat, c: nat)
    ensures a * (b * c) == (a * b) * c
  {
  }

  lemma {:induction false} PowAdd(base: nat, m: nat, j: nat)
    requires base > 0
    ensures Pow(base, m + j) == Pow(base, m) * Pow(base, j)
  {
    if m > 0 {
      var x, y := Pow(base, m - 1), Pow(base, j);
      PowAdd(base, m - 1, j);
      assert Pow(base, m + j) == base * (x * y);
      Associate(base, x, y);
    }
  }

  /** `word >>= bits` after a shift by `bits * k` is a shift by `bits * (k + 1)`. */
  lemma ShiftField(word: nat, base: nat, k: nat)
    requires base > 0
    ensures (word / Pow(base, k)) / base == word / Pow(base, k + 1)
  {
    DivDiv(word, Pow(base, k), base);
    assert Pow(base, k) * base == Pow(base, k + 1);
  }

  /** A word shifted right by `k` fields holds field `k` in its low field, and one more shift
      moves on to field `k + 1`. */
  lemma ShiftStep(word: nat, base: nat, k: nat, shifted: nat)
    requires base > 0 && shifted == word / Pow(base, k)
    ensures shifted % base == Digit(word, base, k) && shifted / base == word / Pow(base, k + 1)
  {
    ShiftField(word, base, k);
  }

  /** Adding a multiple of the divisor moves the quotient and keeps the remainder. */
  lemma DivAddMultiple(a: nat, q: nat, b: nat)
    requires q > 0
    ensures (a + q * b) / q == a / q + b && (a + q * b) % q == a % q
  {
    var x := a / q;
    assert a + q * b == q * (x + b) + a % q;
    DivUnique(a + q * b, q, x + b, a % q);
  }

  /** The fields of `a + base^m * b`, for `a` narrower than `m` fields: those of `a` below field
      `m` and those of `b` from there on (a wide little-endian word is its halves side by side). */
  lemma DigitSplit(a: nat, b: nat, base: nat, m: nat, k: nat)
    requires base > 0 && a < Pow(base, m)
    ensures k < m ==> Digit(a + Pow(base, m) * b, base, k) == Digit(a, base, k)
    ensures k >= m ==> Digit(a + Pow(base, m) * b, base, k) == Digit(b, base, k - m)
  {
    if k >= m {
      DigitHigh(a, b, base, m, k);
    } else {
      DigitLow(a, b, base, m, k);
    }
  }

  lemma DigitHigh(a: nat, b: nat, base: nat, m: nat, k: nat)
    requires base > 0 && a < Pow(base, m) && k >= m
    ensures Digit(a + Pow(base, m) * b, base, k) == Digit(b, base, k - m)
  {
    var p, q := Pow(base, m), Pow(base, k - m);
    PowAdd(base, m, k - m);
    assert Pow(base, k) == p * q;
    DropLowWord(a, p, b, q);
  }

  lemma DropLowWord(a: nat, p: nat, b: nat, q: nat)
    requires p > 0 && q > 0 && a < p
    ensures (a + p * b) / (p * q) == b / q
  {
    DivUnique(a, p, 0, a);
    DivAddMultiple(a, p, b);
    DivDiv(a + p * b, p, q);
  }

  lemma DigitLow(a: nat, b: nat, base: nat, m: nat, k: nat)
    requires base > 0 && a < Pow(base, m) && k < m
    ensures Digit(a + Pow(base, m) * b, base, k) == Digit(a, base, k)
  {
    var p, q, r, s := Pow(base, m), Pow(base, k), Pow(base, m - k), Pow(base, m - k - 1);
    PowAdd(base, k, m - k);
    assert p == q * r;
    assert r == base * s;
    Associate(q, r, b);
    Associate(base, s, b);
    DropLowFields(a + p * b, a, q, base, r * b, s * b);
  }

  lemma DropLowFields(x: nat, a: nat, q: nat, base: nat, hi: nat, rest: nat)
    requires q > 0 && base > 0 && x == a + q * hi && hi == base * rest
    ensures (x / q) % base == (a / q) % base
  {
    DivAddMultiple(a, q, hi);
    DivAddMultiple(a / q, base, rest);
  }
}
