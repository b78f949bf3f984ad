/** The value type of minimal.js: Int(neg, val, len), its canonical form, negation,
    the zero test, the bit length and the comparison. */
module MinimalInt {
  import opened Arith
  import opened Limbs

  /** A big integer: a sign bit, a limb array (least significant first) and the number of
      significant limbs. Only val[..len] is part of the value. */
  datatype Int = Int(neg: bool, val: seq<int>, len: nat)

  ghost predicate WellFormed(a: Int)
  {
    1 <= a.len <= |a.val| && IsLimbs(a.val[..a.len])
  }

  /** The one representation every integer has: no zero top limb above the first, and no
      negative zero. */
  ghost predicate Canonical(a: Int)
  {
    && WellFormed(a)
    && (a.len > 1 ==> a.val[a.len - 1] != 0)
    && (a.len == 1 && a.val[0] == 0 ==> !a.neg)
  }

  ghost function Mag(a: Int): int
    requires a.len <= |a.val|
  {
    Val(a.val[..a.len])
  }

  /** The integer an Int denotes: (-1)^neg * sum of val[i] * 2^(26 i) for i < len. */
  ghost function Value(a: Int): int
    requires a.len <= |a.val|
  {
    if a.neg then -Mag(a) else Mag(a)
  }

  lemma LimbAt(a: Int, k: nat)
    requires WellFormed(a) && k < a.len
    ensures IsLimb(a.val[k])
  {
    assert a.val[..a.len][k] == a.val[k];
  }

  /** Limb k of the magnitude; zero at and above len. */
  function Digit(a: Int, k: nat): int
  {
    if k < a.len && k < |a.val| then a.val[k] else 0
  }

  const ZERO: Int := Int(false, [0], 1)
  const ONE: Int := Int(false, [1], 1)

  lemma ConstantValues()
    ensures Canonical(ZERO) && Value(ZERO) == 0
    ensures Canonical(ONE) && Value(ONE) == 1
  {
    assert ZERO.val[..1] == [0] && ONE.val[..1] == [1];
    assert Val([0]) == Val([]) + 0 * Base(0);
    assert Val([1]) == Val([]) + 1 * Base(0);
  }

  /** The length the constructor's loop settles on: len with trailing zero limbs dropped,
      but never below one. */
  function TrimLen(val: seq<int>, len: nat): (n: nat)
    requires 1 <= len <= |val|
    ensures 1 <= n <= len
    ensures n > 1 ==> val[n - 1] != 0
    ensures forall i :: n <= i < len ==> val[i] == 0
  {
    if len > 1 && val[len - 1] == 0 then TrimLen(val, len - 1) else len
  }

  /** The Int constructor: drops trailing zero limbs and clears the sign of zero. */
  method NewInt(neg: bool, val: seq<int>, len: nat) returns (r: Int)
    requires 1 <= len <= |val| && IsLimbs(val[..len])
    ensures Canonical(r) && r.val == val && r.len == TrimLen(val, len)
    ensures Value(r) == if neg then -Val(val[..len]) else Val(val[..len])
  {
    var n := len;
    while n > 1 && val[n - 1] == 0
      invariant 1 <= n <= len
      invariant forall i :: n <= i < len ==> val[i] == 0
      invariant TrimLen(val, n) == TrimLen(val, len)
    {
      n := n - 1;
    }
    var sign := neg;
    if n == 1 && val[0] == 0 {
      sign := false;
    }
    r := Int(sign, val, n);
    assert val[..len][..n] == val[..n];
    ValTrailingZeros(val[..len], n);
    assert IsLimbs(val[..n]) by {
      assert forall i :: 0 <= i < n ==> val[..n][i] == val[..len][i];
    }
    if n == 1 && val[0] == 0 {
      assert val[..1] == [0];
      assert Val([0]) == Val([]) + 0 * Base(0);
    }
  }

  /** A canonical negative Int is not zero. */
  lemma CanonicalMagnitude(a: Int)
    requires Canonical(a)
    ensures Mag(a) == 0 <==> (a.len == 1 && a.val[0] == 0)
    ensures a.len > 1 ==> Base(a.len - 1) <= Mag(a)
    ensures 0 <= Mag(a) < Base(a.len)
    ensures a.neg ==> Mag(a) > 0
  {
    var s := a.val[..a.len];
    ValBound(s);
    if a.len > 1 {
      TopNonzero(s);
    } else {
      assert Val(s) == Val([]) + s[0] * Base(0);
    }
  }

  /** The sign bit of a canonical Int is the sign of its value. */
  lemma SignOfValue(a: Int)
    requires Canonical(a)
    ensures a.neg <==> Value(a) < 0
    ensures 0 <= Mag(a) == Abs(Value(a))
  {
    CanonicalMagnitude(a);
  }

  /** Every integer has exactly one canonical representation. */
  lemma CanonicalUnique(a: Int, b: Int)
    requires Canonical(a) && Canonical(b) && Value(a) == Value(b)
    ensures a.neg == b.neg && a.len == b.len && a.val[..a.len] == b.val[..b.len]
  {
    CanonicalMagnitude(a);
    CanonicalMagnitude(b);
    assert a.neg == b.neg;
    if a.len < b.len {
      BaseMonotone(a.len, b.len - 1);
    } else if b.len < a.len {
      BaseMonotone(b.len, a.len - 1);
    }
    ValInjective(a.val[..a.len], b.val[..b.len]);
  }

  /** A longer canonical magnitude is a larger one. */
  lemma LongerIsLarger(a: Int, b: Int)
    requires Canonical(a) && Canonical(b) && a.len < b.len
    ensures Mag(a) < Mag(b)
  {
    CanonicalMagnitude(a);
    CanonicalMagnitude(b);
    BaseMonotone(a.len, b.len - 1);
  }

  /** izero */
  function IsZero(a: Int): (z: bool)
    requires Canonical(a)
    ensures z <==> Value(a) == 0
  {
    CanonicalMagnitude(a);
    a.len == 1 && a.val[0] == 0
  }

  /** intNeg: flips the sign except on zero. The constructor's trimming loop does nothing
      on a canonical argument, so it is not repeated here. */
  function Neg(x: Int): (r: Int)
    requires Canonical(x)
    ensures Canonical(r) && Value(r) == -Value(x)
    ensures r.len == x.len && r.val == x.val
  {
    Int(if IsZero(x) then false else !x.neg, x.val, x.len)
  }

  lemma NegNeg(x: Int)
    requires Canonical(x)
    ensures Neg(Neg(x)) == x
  {
    CanonicalMagnitude(x);
  }

  /** iabs */
  function IAbs(x: Int): (r: Int)
    requires Canonical(x)
    ensures Canonical(r) && Value(r) == Abs(Value(x)) && !r.neg
    ensures r.len == x.len
  {
    CanonicalMagnitude(x);
    if x.neg then Neg(x) else x
  }

  /** ibits: the bit length of the magnitude. */
  function Bits(a: Int): (r: nat)
    requires Canonical(a)
    ensures Mag(a) < Pow2(r)
    ensures Mag(a) > 0 ==> r >= 1 && Pow2(r - 1) <= Mag(a)
  {
    BitsBounds(a);
    (a.len - 1) * BITS + BitLength(a.val[a.len - 1])
  }

  lemma BitsBounds(a: Int)
    requires Canonical(a)
    ensures var r := (a.len - 1) * BITS + BitLength(a.val[a.len - 1]);
      && Mag(a) < Pow2(r)
      && (Mag(a) > 0 ==> r >= 1 && Pow2(r - 1) <= Mag(a))
  {
    var n := a.len - 1;
    var s := a.val[..a.len];
    LastLimb(s);
    assert s[n] == a.val[n];
    CanonicalMagnitude(a);
    if n == 0 {
      assert s[..0] == [];
    }
    BitsOfSplit(Val(s[..n]), s[n], n);
  }

  lemma LastLimb(s: seq<int>)
    requires IsLimbs(s) && |s| >= 1
    ensures Val(s) == Val(s[..|s| - 1]) + s[|s| - 1] * Base(|s| - 1)
    ensures 0 <= Val(s[..|s| - 1]) < Base(|s| - 1) && IsLimb(s[|s| - 1])
  {
    ValBound(s[..|s| - 1]);
  }

  /** The bit length of low + top * SHIFT^n is 26 n plus that of top. */
  lemma BitsOfSplit(low: int, top: nat, n: nat)
    requires 0 <= low < Base(n)
    ensures low + top * Base(n) < Pow2(n * BITS + BitLength(top))
    ensures top > 0 ==> Pow2(n * BITS + BitLength(top) - 1) <= low + top * Base(n)
  {
    var bl := BitLength(top);
    var b := Base(n);
    BaseIsPow2(n);
    assert n * BITS == BITS * n;
    Pow2Add(BITS * n, bl);
    assert Pow2(n * BITS + bl) == b * Pow2(bl);
    TopBelow(low, top, b, Pow2(bl));
    if top > 0 {
      Pow2Add(BITS * n, bl - 1);
      assert Pow2(n * BITS + bl - 1) == b * Pow2(bl - 1);
      MulLe(Pow2(bl - 1), top, b);
    }
  }

  lemma TopBelow(low: int, top: int, b: int, p: int)
    requires 0 <= low < b && 0 <= top < p
    ensures low + top * b < b * p
  {
    MulLe(top + 1, p, b);
  }

  /** intCmp: signs first, then limb counts, then limbs from the most significant down. */
  method Cmp(x: Int, y: Int) returns (c: int)
    requires Canonical(x) && Canonical(y)
    ensures c == -1 || c == 0 || c == 1
    ensures c == -1 <==> Value(x) < Value(y)
    ensures c == 0 <==> Value(x) == Value(y)
    ensures c == 1 <==> Value(x) > Value(y)
  {
    CanonicalMagnitude(x);
    CanonicalMagnitude(y);
    if x.neg != y.neg {
      return if x.neg then -1 else 1;
    }
    if x.len != y.len {
      if x.len < y.len {
        LongerIsLarger(x, y);
      } else {
        LongerIsLarger(y, x);
      }
      return if (x.len < y.len) != x.neg then -1 else 1;
    }
    var xs, ys := x.val[..x.len], y.val[..y.len];
    var j := x.len - 1;
    while j >= 0
      invariant -1 <= j < x.len
      invariant forall i :: j < i < x.len ==> xs[i] == ys[i]
    {
      if x.val[j] < y.val[j] {
        ValLess(xs, ys, j);
        return if x.neg then 1 else -1;
      }
      if x.val[j] > y.val[j] {
        ValLess(ys, xs, j);
        return if x.neg then -1 else 1;
      }
      j := j - 1;
    }
    assert xs == ys;
    return 0;
  }
}
