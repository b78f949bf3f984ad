/** Division in minimal.js: intShlsubmul, the long division intDivmod (Algorithm D of
    section 4.3.1 of Knuth's The Art of Computer Programming, volume 2), and the floor
    (intDiv, intMod) and truncating (intQuot, intRem) conventions built on it. */
module MinimalDivide {
  import opened Arith
  import opened Limbs
  import opened MinimalInt
  import opened MinimalArith
  import opened MinimalShift

  /** intShlsubmul: x - y * mul * SHIFT^shift for a nonnegative x. The difference is
      formed limb by limb in a copy of x padded to y.len + shift limbs; a borrow out of
      the top means it is negative, and the limbs are then negated into its magnitude.
      The source relies on the difference being above -SHIFT^(y.len + shift). */
  method Shlsubmul(x: Int, y: Int, mul: int, shift: nat) returns (r: Int)
    requires Canonical(x) && !x.neg && Canonical(y) && 0 <= mul < SHIFT
    requires Mag(y) * mul * Base(shift) - Mag(x) < Base(y.len + shift)
    ensures Canonical(r) && Value(r) == Mag(x) - Mag(y) * mul * Base(shift)
  {
    var len := y.len + shift;
    var z := x.val[..x.len];
    while |z| < len
      invariant x.len <= |z| && IsLimbs(z) && Val(z) == Mag(x)
      decreases len - |z|
    {
      ValPadZero(z);
      z := z + [0];
    }
    CanonicalMagnitude(x);
    CanonicalMagnitude(y);
    BaseMonotone(x.len, |z|);
    BaseMonotone(len, |z|);
    var zs, carry := SubMulLimbs(z, y.val[..y.len], mul, shift);
    ghost var prod := Mag(y) * mul * Base(shift);
    ghost var v, b := Mag(x) - prod, Base(|z|);
    ProductNonneg(Mag(y), mul);
    ProductNonneg(Mag(y) * mul, Base(shift));
    assert Val(zs) + carry * b == v;
    assert -b <= v < b;
    ValBound(zs);
    CarryOfRange(Val(zs), carry, b, v);
    if carry == 0 {
      WholePrefix(zs, |zs|);
      r := NewInt(x.neg, zs, |zs|);
      return;
    }
    var ns, borrow := NegateLimbs(zs);
    ValBound(ns);
    CarryOfRange(Val(ns), borrow, Base(|zs|), -Val(zs));
    WholePrefix(ns, |ns|);
    r := NewInt(true, ns, |ns|);
  }

  /** A limb-sequence value plus a carry at weight b, when the sum lies in [-b, b): the
      carry is 0 or -1. */
  lemma CarryOfRange(lo: int, c: int, b: int, v: int)
    requires b >= 1 && 0 <= lo < b && lo + c * b == v && -b <= v < b
    ensures c == 0 ==> lo == v
    ensures c != 0 ==> c == -1 && lo == v + b
  {
    if c >= 1 {
      MulAtLeast(c, b);
    } else if c <= -2 {
      MulLe(c, -2, b);
    }
  }

  /** The two limb loops of intShlsubmul: y * mul subtracted at limb offset shift, then
      the borrow carried through the remaining limbs. The final carry is returned. */
  method SubMulLimbs(z: seq<int>, ys: seq<int>, mul: int, shift: nat) returns (zs: seq<int>, carry: int)
    requires IsLimbs(z) && IsLimbs(ys) && |ys| + shift <= |z| && 0 <= mul < SHIFT
    ensures |zs| == |z| && IsLimbs(zs)
    ensures Val(zs) + carry * Base(|z|) == Val(z) - Val(ys) * mul * Base(shift)
  {
    var w := z[..shift];
    carry := 0;
    var j := 0;
    assert ys[..0] == [];
    while j < |ys|
      invariant 0 <= j <= |ys| && |w| == shift + j && IsLimbs(w)
      invariant Val(w) + carry * Base(shift + j) == Val(z[..shift + j]) - Val(ys[..j]) * mul * Base(shift)
    {
      var right := ys[j] * mul;
      var t := z[j + shift] + carry - right % SHIFT;
      SubMulStep(w, z, ys, j, shift, mul, carry, right, t);
      carry := t / SHIFT - right / SHIFT;
      w := w + [t % SHIFT];
      j := j + 1;
    }
    assert ys[..j] == ys;
    ghost var subtracted := Val(ys) * mul * Base(shift);
    while j < |z| - shift
      invariant |ys| <= j <= |z| - shift && |w| == shift + j && IsLimbs(w)
      invariant Val(w) + carry * Base(shift + j) == Val(z[..shift + j]) - subtracted
    {
      var u := z[j + shift] + carry;
      BorrowStep(w, z, shift + j, carry, u, subtracted);
      carry := u / SHIFT;
      w := w + [u % SHIFT];
      j := j + 1;
    }
    WholePrefix(z, |z|);
    zs := w;
  }

  /** One step of the second loop of intShlsubmul. */
  lemma BorrowStep(w: seq<int>, z: seq<int>, k: nat, carry: int, u: int, subtracted: int)
    requires |w| == k < |z| && u == z[k] + carry
    requires Val(w) + carry * Base(k) == Val(z[..k]) - subtracted
    ensures Val(w + [u % SHIFT]) + (u / SHIFT) * Base(k + 1) == Val(z[..k + 1]) - subtracted
  {
    ColumnStep(w, carry, u, Val(z[..k]) - subtracted);
    PrefixStep(z, k);
  }

  /** One step of the first loop of intShlsubmul. */
  lemma SubMulStep(w: seq<int>, z: seq<int>, ys: seq<int>, j: nat, shift: nat, mul: int, carry: int,
                   right: int, t: int)
    requires j < |ys| && shift + j < |z| && |w| == shift + j
    requires Val(w) + carry * Base(shift + j) == Val(z[..shift + j]) - Val(ys[..j]) * mul * Base(shift)
    requires right == ys[j] * mul && t == z[j + shift] + carry - right % SHIFT
    ensures Val(w + [t % SHIFT]) + (t / SHIFT - right / SHIFT) * Base(shift + j + 1)
        == Val(z[..shift + j + 1]) - Val(ys[..j + 1]) * mul * Base(shift)
  {
    var k := shift + j;
    var v := Val(z[..k]) - Val(ys[..j]) * mul * Base(shift);
    ColumnStep(w, carry, t, v);
    PrefixStep(z, k);
    PrefixStep(ys, j);
    BaseAdd(shift, j);
    SubMulArith(Val(w + [t % SHIFT]), t / SHIFT, v, t, carry, z[k], right, right / SHIFT, right % SHIFT,
      Val(z[..k]), Val(ys[..j]), ys[j], mul, Base(shift), Base(j), Base(k));
  }

  lemma SubMulArith(a: int, tq: int, v: int, t: int, c: int, zk: int, right: int, rq: int, rr: int,
                    vz: int, vy: int, yj: int, mul: int, bs: int, bj: int, bk: int)
    requires a + tq * (SHIFT * bk) == v + (t - c) * bk
    requires v == vz - vy * mul * bs && t == zk + c - rr
    requires right == yj * mul && right == rq * SHIFT + rr && bk == bs * bj
    ensures a + (tq - rq) * (SHIFT * bk) == vz + zk * bk - (vy + yj * bj) * mul * bs
  {
    MulSub(tq, rq, SHIFT * bk);
    MulAssoc(rq, SHIFT, bk);
    MulSub(zk, rr, bk);
    MulAdd3(rq * SHIFT, rr, 0, bk);
    assert right * bk == yj * mul * (bs * bj);
    MulAssoc(yj * mul, bs, bj);
    MulAdd3(vy, yj * bj, 0, mul);
    MulAdd3(vy * mul, yj * bj * mul, 0, bs);
    assert yj * bj * mul * bs == yj * mul * bs * bj;
  }

  /** The negation loop of intShlsubmul: the limbs of -Val(zs) with a borrow, so that
      the result is SHIFT^|zs| - Val(zs) when the final borrow is -1. */
  method NegateLimbs(zs: seq<int>) returns (ns: seq<int>, carry: int)
    ensures |ns| == |zs| && IsLimbs(ns)
    ensures Val(ns) + carry * Base(|zs|) == -Val(zs)
  {
    var out: seq<int> := [];
    carry := 0;
    for j := 0 to |zs|
      invariant |out| == j && IsLimbs(out)
      invariant Val(out) + carry * Base(j) == -Val(zs[..j])
    {
      var v := -zs[j] + carry;
      ColumnStep(out, carry, v, -Val(zs[..j]));
      PrefixStep(zs, j);
      MulNeg(zs[j], Base(j));
      carry := v / SHIFT;
      out := out + [v % SHIFT];
    }
    WholePrefix(zs, |zs|);
    ns := out;
  }

  /** One pass of the digit loop of intDivmod: the quotient digit is estimated from the
      top two limbs of the remainder and the top limb of the divisor (capped at MASK),
      y * d * SHIFT^j is subtracted, and while the remainder is negative the digit is
      lowered and y * SHIFT^j added back. The digit found is the exact one:
      0 <= u - y * d * SHIFT^j < y * SHIFT^j. */
  method QuotientDigit(u: Int, y: Int, j: nat) returns (d: int, rem: Int)
    requires Canonical(u) && !u.neg && Canonical(y) && !y.neg && Mag(y) > 0
    requires Mag(u) < Mag(y) * Base(j + 1)
    ensures 0 <= d < SHIFT
    ensures Canonical(rem) && !rem.neg
    ensures Mag(rem) == Mag(u) - Mag(y) * d * Base(j) && Mag(rem) < Mag(y) * Base(j)
  {
    d := EstimateDigit(u, y, j);
    rem := Shlsubmul(u, y, d, j);
    d, rem := CorrectDigit(u, y, j, d, rem);
  }

  /** The estimate of a quotient digit from the top two limbs of the remainder and the
      top limb of the divisor, capped at MASK: at most two too large, never too small. */
  method EstimateDigit(u: Int, y: Int, j: nat) returns (d: int)
    requires Canonical(u) && !u.neg && Canonical(y) && !y.neg && Mag(y) > 0
    requires Mag(u) < Mag(y) * Base(j + 1)
    ensures 0 <= d <= MASK
    ensures Mag(u) - Mag(y) * d * Base(j) < Mag(y) * Base(j)
    ensures Mag(y) * d * Base(j) - Mag(u) < Base(y.len + j)
  {
    var n := y.len;
    var yhi := y.val[n - 1];
    DivisorSplit(y);
    var top := Digit(u, n + j) * SHIFT + Digit(u, n + j - 1);
    d := Min(top / yhi, MASK);
    EstimateBounds(u, y, j, top, d);
  }

  lemma EstimateBounds(u: Int, y: Int, j: nat, top: int, d: int)
    requires Canonical(u) && !u.neg && Canonical(y) && !y.neg && Mag(y) > 0
    requires Mag(u) < Mag(y) * Base(j + 1)
    requires y.val[y.len - 1] >= 1
    requires top == Digit(u, y.len + j) * SHIFT + Digit(u, y.len + j - 1)
    requires d == Min(top / y.val[y.len - 1], MASK)
    ensures 0 <= d <= MASK
    ensures Mag(u) - Mag(y) * d * Base(j) < Mag(y) * Base(j)
    ensures Mag(y) * d * Base(j) - Mag(u) < Base(y.len + j)
  {
    var n := y.len;
    var k := n + j;
    ghost var bn1, bj := Base(n - 1), Base(j);
    DivisorSplit(y);
    SignOfValue(u);
    TopTwoBound(Mag(u), Mag(y), n, j);
    ghost var p := Base(k - 1);
    TopTwo(u, k, top, p);
    BaseAdd(n - 1, j);
    assert p == bn1 * bj;
    KnuthEstimate(Mag(u), Mag(y), y.val[n - 1], Val(y.val[..n - 1]), top, Mag(u) % p, d, bn1, bj, p, Base(j + 1));
  }

  /** The correction loop of intDivmod: while the remainder is negative the digit is
      lowered and y * SHIFT^j added back. */
  method CorrectDigit(u: Int, y: Int, j: nat, d0: int, rem0: Int) returns (d: int, rem: Int)
    requires Canonical(u) && !u.neg && Canonical(y) && !y.neg && Mag(y) > 0
    requires Mag(u) < Mag(y) * Base(j + 1)
    requires Canonical(rem0) && Value(rem0) == Mag(u) - Mag(y) * d0 * Base(j)
    requires Value(rem0) < Mag(y) * Base(j)
    ensures 0 <= d < SHIFT
    ensures Canonical(rem) && !rem.neg
    ensures Mag(rem) == Mag(u) - Mag(y) * d * Base(j) && Mag(rem) < Mag(y) * Base(j)
  {
    var n := y.len;
    d, rem := d0, rem0;
    DivisorSplit(y);
    while rem.neg
      invariant Canonical(rem)
      invariant Value(rem) == Mag(u) - Mag(y) * d * Base(j)
      invariant Value(rem) < Mag(y) * Base(j)
      decreases -Value(rem)
    {
      ghost var before := Value(rem);
      SignOfValue(rem);
      var back := Neg(rem);
      SignOfValue(back);
      assert Mag(back) == -before;
      AddBackBound(Mag(y), n, j);
      var t := Shlsubmul(back, y, 1, j);
      DigitDown(Mag(u), Mag(y), d, Base(j));
      d := d - 1;
      rem := Neg(t);
      assert Value(rem) == before + Mag(y) * 1 * Base(j);
    }
    SignOfValue(rem);
    SignOfValue(u);
    DigitBounds(Mag(u), Mag(y), d, Base(j));
  }

  /** The divisor is its top limb times SHIFT^(n-1) plus lower limbs, and the top limb
      is nonzero. */
  lemma DivisorSplit(y: Int)
    requires Canonical(y) && Mag(y) > 0
    ensures var n := y.len;
      && Mag(y) == Val(y.val[..n - 1]) + y.val[n - 1] * Base(n - 1)
      && 0 <= Val(y.val[..n - 1]) < Base(n - 1) && 1 <= y.val[n - 1] < SHIFT
      && Mag(y) < Base(n)
  {
    var n := y.len;
    var s := y.val[..n];
    LastLimb(s);
    assert s[..n - 1] == y.val[..n - 1] && s[n - 1] == y.val[n - 1];
    CanonicalMagnitude(y);
    if n == 1 {
      assert y.val[..0] == [];
    }
  }

  /** A remainder below y * SHIFT^(j+1) is below SHIFT^(n+j+1). */
  lemma TopTwoBound(u: int, y: int, n: nat, j: nat)
    requires 0 <= u < y * Base(j + 1) && y < Base(n)
    ensures u < Base(n + j + 1)
  {
    MulLe(y, Base(n), Base(j + 1));
    BaseAdd(n, j + 1);
  }

  /** Adding y * SHIFT^j back stays below SHIFT^(n+j). */
  lemma AddBackBound(y: int, n: nat, j: nat)
    requires 0 <= y < Base(n)
    ensures y * 1 * Base(j) < Base(n + j)
  {
    MulLe(y + 1, Base(n), Base(j));
    BaseAdd(n, j);
  }

  lemma DigitDown(u: int, y: int, d: int, b: int)
    requires y >= 1 && b >= 1
    ensures u - y * (d - 1) * b == u - y * d * b + y * 1 * b
    ensures y * 1 * b >= 1
  {
    MulSub(y * d, y, b);
    MulAtLeast(y, b);
  }

  /** The digit of an exact division step lies in [0, SHIFT). */
  lemma DigitBounds(u: int, y: int, d: int, b: int)
    requires y >= 1 && b >= 1 && 0 <= u < y * (SHIFT * b)
    requires 0 <= u - y * d * b < y * b
    ensures 0 <= d < SHIFT
  {
    var yb := y * b;
    assert y * d * b == d * yb;
    assert y * (SHIFT * b) == SHIFT * yb;
    if d < 0 {
      MulLe(d, -1, yb);
    } else if d >= SHIFT {
      MulLe(SHIFT, d, yb);
    }
  }

  /** The two limbs of a remainder below SHIFT^(k+1) at positions k and k - 1 are its
      quotient by SHIFT^(k-1); limbs at or above len read as zero. */
  lemma TopTwo(u: Int, k: nat, top: int, p: int)
    requires Canonical(u) && k >= 1 && Mag(u) < Base(k + 1)
    requires top == Digit(u, k) * SHIFT + Digit(u, k - 1) && p == Base(k - 1)
    ensures IsLimb(Digit(u, k)) && IsLimb(Digit(u, k - 1)) && top >= 0
    ensures Mag(u) == top * p + Mag(u) % p && 0 <= Mag(u) % p < p
  {
    var t := PaddedLimbs(u, k + 1);
    var lo, hi, b := Val(t[..k - 1]), Val(t[k - 1..]), Base(k - 1);
    ValSplit(t, k - 1);
    assert t[k - 1..] == [t[k - 1], t[k]];
    assert Val([t[k - 1], t[k]]) == Val([t[k - 1]]) + t[k] * Base(1);
    OneLimbVal(t[k - 1]);
    ValBound(t[..k - 1]);
    MulComm(b, hi);
    DivUnique(Val(t), b, hi, lo);
  }

  /** The significant limbs of u padded with zero limbs to length m. */
  lemma PaddedLimbs(u: Int, m: nat) returns (t: seq<int>)
    requires Canonical(u) && m >= 1 && Mag(u) < Base(m)
    ensures |t| == m && IsLimbs(t) && Val(t) == Mag(u)
    ensures forall i :: 0 <= i < m ==> t[i] == Digit(u, i)
  {
    var s := u.val[..u.len];
    CanonicalMagnitude(u);
    assert u.len <= m by {
      if u.len > m {
        BaseMonotone(m, u.len - 1);
      }
    }
    var zeros := seq(m - u.len, _ => 0);
    t := s + zeros;
    ValConcat(s, zeros);
    ValZeros(m - u.len);
    forall i | 0 <= i < m
      ensures IsLimb(t[i]) && t[i] == Digit(u, i)
    {
      if i < u.len {
        assert t[i] == s[i];
      }
    }
  }

  /** The quotient-digit estimate of Algorithm D is never too small: with it the
      remainder drops below y * SHIFT^j (no normalisation is needed for this). And it is
      never so large that the difference falls below -SHIFT^(n+j). */
  lemma KnuthEstimate(u: int, y: int, yhi: int, ylow: int, top: int, ulow: int, d: int,
                      bn1: int, bj: int, p: int, bj1: int)
    requires bn1 >= 1 && bj >= 1 && yhi >= 1 && 0 <= ylow < bn1 && y == ylow + yhi * bn1
    requires p == bn1 * bj && bj1 == SHIFT * bj
    requires 0 <= ulow < p && u == top * p + ulow && top >= 0
    requires u < y * bj1
    requires d == Min(top / yhi, MASK)
    ensures 0 <= d <= MASK
    ensures u - y * d * bj < y * bj
    ensures y * d * bj - u < SHIFT * p
  {
    assert 0 <= d;
    EstimateHigh(u, y, yhi, top, ulow, d, bn1, bj, p, bj1);
    EstimateLow(u, y, yhi, ylow, top, ulow, d, bn1, bj, p);
  }

  lemma Regroup(e: int, h: int, b: int, j: int, p: int)
    requires p == b * j
    ensures e * h * p == h * b * e * j
  {
    MulAssoc(e * h, b, j);
    MulAssoc(e, h, b);
  }

  lemma EstimateHigh(u: int, y: int, yhi: int, top: int, ulow: int, d: int, bn1: int, bj: int,
                     p: int, bj1: int)
    requires bn1 >= 1 && bj >= 1 && yhi >= 1 && yhi * bn1 <= y
    requires p == bn1 * bj && bj1 == SHIFT * bj
    requires 0 <= ulow < p && u == top * p + ulow && top >= 0
    requires u < y * bj1
    requires d == Min(top / yhi, MASK) && d >= 0
    ensures u - y * d * bj < y * bj
  {
    var e := d + 1;
    assert y * d * bj + y * bj == y * e * bj by {
      MulAdd3(y * d, y, 0, bj);
    }
    if top / yhi < MASK {
      assert top + 1 <= e * yhi;
      MulLe(top + 1, e * yhi, p);
      assert u < (top + 1) * p;
      MulLe(yhi * bn1, y, e);
      MulLe(yhi * bn1 * e, y * e, bj);
      Regroup(e, yhi, bn1, bj, p);
    } else {
      assert e == SHIFT;
      MulAssoc(y, SHIFT, bj);
    }
  }

  lemma EstimateLow(u: int, y: int, yhi: int, ylow: int, top: int, ulow: int, d: int,
                    bn1: int, bj: int, p: int)
    requires bn1 >= 1 && bj >= 1 && yhi >= 1 && 0 <= ylow < bn1 && y == ylow + yhi * bn1
    requires p == bn1 * bj
    requires 0 <= ulow && u == top * p + ulow && top >= 0
    requires d == Min(top / yhi, MASK) && d >= 0
    ensures y * d * bj - u < SHIFT * p
  {
    var c := MASK * bn1 + top * bn1;
    assert d <= MASK && d * yhi <= top;
    MulLe(ylow, bn1, d);
    MulLe(d, MASK, bn1);
    MulLe(d * yhi, top, bn1);
    assert y * d == ylow * d + (d * yhi) * bn1 by {
      MulAdd3(ylow, yhi * bn1, 0, d);
      MulAssoc(yhi, bn1, d);
    }
    assert y * d <= c;
    MulLe(y * d, c, bj);
    assert c * bj == MASK * p + top * p by {
      MulAdd3(MASK * bn1, top * bn1, 0, bj);
      MulAssoc(MASK, bn1, bj);
      MulAssoc(top, bn1, bj);
    }
  }

  /** The long division of intDivmod on 0 < y <= x: both operands are shifted left until
      the divisor's top limb has its top bit set, the quotient digits are found by
      DivideNormalized, and the remainder is shifted back. */
  method LongDivision(x: Int, y: Int) returns (q: Int, r: Int)
    requires Canonical(x) && Canonical(y) && !x.neg && !y.neg && 0 < Mag(y) <= Mag(x)
    ensures Canonical(q) && Canonical(r)
    ensures Value(q) == Mag(x) / Mag(y) && Value(r) == Mag(x) % Mag(y)
  {
    var xn, yn, shift := Normalize(x, y);
    var digits, rem := DivideNormalized(xn, yn);
    ghost var sx, sy, ps := Mag(x), Mag(y), Pow2(shift);
    ScaledDivision(sx, sy, ps);
    r := rem;
    if shift != 0 {
      r := Shr(rem, shift);
    }
    Unscaled(sx % sy, ps);
    WholePrefix(digits, |digits|);
    q := NewInt(false, digits, |digits|);
  }

  /** The normalisation step of intDivmod: x and y shifted left by the number of leading
      zero bits of y's top limb. */
  method Normalize(x: Int, y: Int) returns (xn: Int, yn: Int, shift: nat)
    requires Canonical(x) && Canonical(y) && !x.neg && !y.neg && 0 < Mag(y) <= Mag(x)
    ensures Canonical(xn) && Canonical(yn) && !xn.neg && !yn.neg
    ensures Mag(xn) == Mag(x) * Pow2(shift) && Mag(yn) == Mag(y) * Pow2(shift)
    ensures yn.len == y.len <= xn.len && Base(yn.len) <= 2 * Mag(yn) && Mag(yn) < Base(yn.len)
  {
    var yhi := y.val[y.len - 1];
    DivisorSplit(y);
    ShiftIsPow2();
    BitLengthBelow(yhi, BITS);
    shift := BITS - BitLength(yhi);
    xn, yn := x, y;
    if shift != 0 {
      yn := Shl(y, shift);
      xn := Shl(x, shift);
    }
    Scaled(x, xn, shift);
    Scaled(y, yn, shift);
    NormalizedDivisor(y, yn, shift);
    MulLe(Mag(y), Mag(x), Pow2(shift));
    if xn.len < yn.len {
      LongerIsLarger(xn, yn);
    }
  }

  /** The digit loop of intDivmod on a normalised divisor: the top digit (0 or 1) by one
      trial subtraction, each lower digit by QuotientDigit. */
  method DivideNormalized(xn: Int, yn: Int) returns (digits: seq<int>, rem: Int)
    requires Canonical(xn) && Canonical(yn) && !xn.neg && !yn.neg
    requires yn.len <= xn.len && Base(yn.len) <= 2 * Mag(yn) && Mag(yn) < Base(yn.len)
    ensures IsLimbs(digits) && |digits| == xn.len - yn.len + 1
    ensures Canonical(rem) && !rem.neg
    ensures Val(digits) == Mag(xn) / Mag(yn) && Mag(rem) == Mag(xn) % Mag(yn)
  {
    var m := xn.len - yn.len;
    digits, rem := TopQuotientDigit(xn, yn);
    var j := m - 1;
    while j >= 0
      invariant -1 <= j < m
      invariant Canonical(rem) && !rem.neg
      invariant |digits| == m + 1 && IsLimbs(digits)
      invariant forall i :: 0 <= i <= j ==> digits[i] == 0
      invariant Mag(xn) == Val(digits) * Mag(yn) + Mag(rem)
      invariant Mag(rem) < Mag(yn) * Base(j + 1)
    {
      var d, next := QuotientDigit(rem, yn, j);
      ValUpdate(digits, j, d);
      QuotientStep(Mag(xn), Val(digits), Mag(yn), Mag(rem), d, Base(j), Mag(next));
      digits := digits[j := d];
      rem := next;
      j := j - 1;
    }
    CanonicalMagnitude(rem);
    assert Base(0) == 1;
    DivUnique(Mag(xn), Mag(yn), Val(digits), Mag(rem));
  }

  /** The first step of the digit loop: the top quotient digit of a normalised division is
      1 exactly when SHIFT^m * y can be subtracted. */
  method TopQuotientDigit(xn: Int, yn: Int) returns (digits: seq<int>, rem: Int)
    requires Canonical(xn) && Canonical(yn) && !xn.neg && !yn.neg
    requires yn.len <= xn.len && Base(yn.len) <= 2 * Mag(yn) && Mag(yn) < Base(yn.len)
    ensures var m := xn.len - yn.len;
      && |digits| == m + 1 && IsLimbs(digits) && (forall i :: 0 <= i < m ==> digits[i] == 0)
      && Canonical(rem) && !rem.neg
      && Mag(xn) == Val(digits) * Mag(yn) + Mag(rem) && Mag(rem) < Mag(yn) * Base(m)
  {
    var n := yn.len;
    var m := xn.len - n;
    CanonicalMagnitude(xn);
    AddBackBound(Mag(yn), n, m);
    var diff := Shlsubmul(xn, yn, 1, m);
    SignOfValue(diff);
    var t := if diff.neg then 0 else 1;
    rem := if diff.neg then xn else diff;
    digits := seq(m + 1, _ => 0)[m := t];
    TopDigitsValue(m, t, digits);
    BaseAdd(n, m);
    TopRemainder(Mag(xn), Mag(yn), Value(diff), t, Base(m), Base(n), Base(xn.len), Mag(rem));
  }

  /** The quotient digits before the loop: t at the top, zeros below. */
  lemma TopDigitsValue(m: nat, t: int, s: seq<int>)
    requires 0 <= t <= 1 && s == seq(m + 1, _ => 0)[m := t]
    ensures IsLimbs(s) && Val(s) == t * Base(m) && forall i :: 0 <= i < m ==> s[i] == 0
  {
    var z := seq(m + 1, _ => 0);
    ValZeros(m + 1);
    ValUpdate(z, m, t);
    assert Val(s) == 0 + (t - 0) * Base(m);
  }

  /** The trial subtraction of y * SHIFT^m: kept when nonnegative (digit 1), undone
      otherwise (digit 0); either way the remainder is below y * SHIFT^m. */
  lemma TopRemainder(x: int, y: int, v: int, t: int, bm: int, bn: int, bx: int, r: int)
    requires bn <= 2 * y && bm >= 1 && 0 <= x < bx && bx == bn * bm
    requires v == x - y * 1 * bm
    requires t == (if v < 0 then 0 else 1) && r == (if v < 0 then x else v)
    ensures x == t * bm * y + r && 0 <= r < y * bm
  {
    if v >= 0 {
      TopDigit(x, y, bn, bm, bx);
    }
  }

  /** Shifting a nonnegative Int left by shift bits (or not at all for shift 0). */
  lemma Scaled(a: Int, an: Int, shift: nat)
    requires Canonical(a) && Canonical(an) && !a.neg
    requires shift != 0 ==> Value(an) == Value(a) * Pow2(shift)
    requires shift == 0 ==> an == a
    ensures !an.neg && Mag(an) == Mag(a) * Pow2(shift)
  {
    SignOfValue(a);
    ProductNonneg(Mag(a), Pow2(shift));
    SignOfValue(an);
  }

  /** After normalisation the divisor keeps its length and is at least half of
      SHIFT^len. */
  lemma NormalizedDivisor(y: Int, yn: Int, shift: nat)
    requires Canonical(y) && Canonical(yn) && Mag(y) > 0
    requires shift == BITS - BitLength(y.val[y.len - 1])
    requires Mag(yn) == Mag(y) * Pow2(shift)
    ensures yn.len == y.len && Base(y.len) <= 2 * Mag(yn) && Mag(yn) < Base(y.len)
  {
    var n := y.len;
    BitsBounds(y);
    NormalBounds(Mag(y), (n - 1) * BITS + BitLength(y.val[n - 1]), shift, n, Pow2(shift));
    LengthFromBounds(yn, n);
  }

  lemma NormalBounds(my: int, b: nat, shift: nat, n: nat, ps: int)
    requires b >= 1 && Pow2(b - 1) <= my < Pow2(b) && b + shift == BITS * n && ps == Pow2(shift)
    ensures Base(n) <= 2 * (my * ps) && my * ps < Base(n)
  {
    Pow2Add(b - 1, 1 + shift);
    BaseIsPow2(n);
    assert Pow2(1 + shift) == 2 * ps;
    NormalArith(my, Pow2(b - 1), ps, Base(n));
  }

  lemma NormalArith(my: int, p: int, ps: int, bn: int)
    requires p <= my < 2 * p && ps >= 1 && bn == p * (2 * ps)
    ensures bn <= 2 * (my * ps) && my * ps < bn
  {
    MulLe(p, my, ps);
    MulLe(my + 1, 2 * p, ps);
    MulAssoc(2, p, ps);
    MulAssoc(2, my, ps);
  }

  /** A canonical Int between SHIFT^n / 2 and SHIFT^n has exactly n limbs. */
  lemma LengthFromBounds(a: Int, n: nat)
    requires Canonical(a) && n >= 1 && Base(n) <= 2 * Mag(a) && Mag(a) < Base(n)
    ensures a.len == n
  {
    CanonicalMagnitude(a);
    if a.len > n {
      BaseMonotone(n, a.len - 1);
    } else if a.len < n {
      assert Base(n) == SHIFT * Base(n - 1);
      BaseMonotone(a.len, n - 1);
    }
  }

  /** The top quotient digit of a normalised division is 0 or 1. */
  lemma TopDigit(x: int, y: int, bn: int, bm: int, bx: int)
    requires bn <= 2 * y && bm >= 1 && x < bx && bx == bn * bm
    ensures x - y * 1 * bm < y * bm
  {
    MulLe(bn, 2 * y, bm);
  }

  lemma QuotientStep(x: int, vq: int, y: int, u: int, d: int, b: int, next: int)
    requires x == vq * y + u && next == u - y * d * b
    ensures x == (vq + (d - 0) * b) * y + next
  {
    MulAdd3(vq, d * b, 0, y);
    MulAssoc(d, b, y);
    MulAssoc(y, d, b);
  }

  /** Scaling both operands by c scales the remainder and keeps the quotient. */
  lemma ScaledDivision(a: int, b: int, c: int)
    requires a >= 0 && b >= 1 && c >= 1
    ensures (a * c) / (b * c) == a / b && (a * c) % (b * c) == (a % b) * c
  {
    var q, r := a / b, a % b;
    MulAdd3(q * b, r, 0, c);
    MulAssoc(q, b, c);
    MulLe(r + 1, b, c);
    DivUnique(a * c, b * c, q, r * c);
  }

  lemma Unscaled(a: int, c: int)
    requires c >= 1
    ensures (a * c) / c == a
  {
    DivUnique(a * c, c, a, 0);
  }

  /** intDivmod: the quotient rounded toward zero and the remainder signed like x. A
      negative operand is divided by magnitudes and the signs are put back; x below y
      gives (0, x). */
  method Divmod(x: Int, y: Int) returns (q: Int, r: Int)
    requires Canonical(x) && Canonical(y) && Value(y) != 0
    ensures Canonical(q) && Canonical(r)
    ensures Value(q) == TruncDiv(Value(x), Value(y))
    ensures Value(r) == TruncRem(Value(x), Value(y))
    decreases if x.neg || y.neg then 1 else 0
  {
    SignOfValue(x);
    SignOfValue(y);
    TruncOfMagnitudes(Value(x), Value(y));
    if IsZero(x) {
      ConstantValues();
      TruncSmall(Value(x), Value(y));
      return ZERO, ZERO;
    }
    if x.neg || y.neg {
      var q0, r0 := Divmod(IAbs(x), IAbs(y));
      TruncOfMagnitudes(Mag(x), Mag(y));
      q := if x.neg && y.neg then q0 else Neg(q0);
      r := if x.neg then Neg(r0) else r0;
      return;
    }
    if y.len > x.len {
      LongerIsLarger(x, y);
      DivUnique(Mag(x), Mag(y), 0, Mag(x));
      return ZERO, x;
    }
    var c := Cmp(x, y);
    if c < 0 {
      DivUnique(Mag(x), Mag(y), 0, Mag(x));
      ConstantValues();
      return ZERO, x;
    }
    q, r := LongDivision(x, y);
  }

  /** Truncating division through magnitudes: the quotient of the magnitudes, negated
      when the signs differ; the remainder of the magnitudes, signed like the dividend. */
  lemma TruncOfMagnitudes(a: int, b: int)
    requires b != 0
    ensures TruncDiv(a, b) == if (a < 0) == (b < 0) then Abs(a) / Abs(b) else -(Abs(a) / Abs(b))
    ensures TruncRem(a, b) == if a < 0 then -(Abs(a) % Abs(b)) else Abs(a) % Abs(b)
  {
    SignedRemainder(a, b, Abs(a) / Abs(b), Abs(a) % Abs(b), TruncDiv(a, b));
  }

  /** A dividend smaller in magnitude than the divisor is all remainder. */
  lemma TruncSmall(a: int, b: int)
    requires b != 0 && Abs(a) < Abs(b)
    ensures TruncDiv(a, b) == 0 && TruncRem(a, b) == a
  {
    DivUnique(Abs(a), Abs(b), 0, Abs(a));
  }

  /** intQuot: the quotient of intDivmod. */
  method Quot(x: Int, y: Int) returns (q: Int)
    requires Canonical(x) && Canonical(y) && Value(y) != 0
    ensures Canonical(q) && Value(q) == TruncDiv(Value(x), Value(y))
  {
    var r;
    q, r := Divmod(x, y);
  }

  /** intRem: the remainder of intDivmod. */
  method Rem(x: Int, y: Int) returns (r: Int)
    requires Canonical(x) && Canonical(y) && Value(y) != 0
    ensures Canonical(r) && Value(r) == TruncRem(Value(x), Value(y))
  {
    var q;
    q, r := Divmod(x, y);
  }

  /** Floor division from truncating division: when the remainder is nonzero and signed
      unlike the divisor, the quotient is one lower and the remainder one divisor higher. */
  lemma FloorOfTrunc(a: int, b: int)
    requires b != 0
    ensures var t, tr := TruncDiv(a, b), TruncRem(a, b);
      && FloorDiv(a, b) == (if tr == 0 || (tr < 0) == (b < 0) then t else t - 1)
      && FloorMod(a, b) == (if tr == 0 || (tr < 0) == (b < 0) then tr else tr + b)
  {
    var t, tr := TruncDiv(a, b), TruncRem(a, b);
    TruncDivLaw(a, b);
    if tr == 0 || (tr < 0) == (b < 0) {
      FloorDivUnique(a, b, t, tr);
    } else {
      assert a == (t - 1) * b + (tr + b);
      FloorDivUnique(a, b, t - 1, tr + b);
    }
  }

  /** intDiv: the quotient rounded toward negative infinity. */
  method Div(x: Int, y: Int) returns (r: Int)
    requires Canonical(x) && Canonical(y) && Value(y) != 0
    ensures Canonical(r) && Value(r) == FloorDiv(Value(x), Value(y))
  {
    var q, m := Divmod(x, y);
    SignOfValue(m);
    SignOfValue(y);
    FloorOfTrunc(Value(x), Value(y));
    if IsZero(m) || m.neg == y.neg {
      r := q;
    } else {
      r := Subn(q, 1);
    }
  }

  /** intMod: the remainder signed like the divisor. */
  method Mod(x: Int, y: Int) returns (r: Int)
    requires Canonical(x) && Canonical(y) && Value(y) != 0
    ensures Canonical(r) && Value(r) == FloorMod(Value(x), Value(y))
  {
    var q, m := Divmod(x, y);
    SignOfValue(m);
    SignOfValue(y);
    FloorOfTrunc(Value(x), Value(y));
    if IsZero(m) || m.neg == y.neg {
      r := m;
    } else {
      r := Add(m, y);
    }
  }
}
