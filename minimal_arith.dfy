/** Addition, subtraction and multiplication of minimal.js: intAdd, intSub, intAddn,
    intSubn and intMul. Each operation is a sign dispatch over Int values and a schoolbook
    loop over the limbs; the loops are the *Limbs methods, which see only the significant
    limbs. */
module MinimalArith {
  import opened Arith
  import opened Limbs
  import opened MinimalInt

  /** intAdd: mixed signs become a subtraction; equal signs add the magnitudes. */
  method Add(x: Int, y: Int) returns (r: Int)
    requires Canonical(x) && Canonical(y)
    ensures Canonical(r) && Value(r) == Value(x) + Value(y)
    ensures x.neg != y.neg && Value(x) + Value(y) == 0 ==> r == ZERO
    decreases if x.neg != y.neg then 1 else 0
  {
    if x.neg && !y.neg {
      r := Sub(y, Neg(x));
      return;
    }
    if !x.neg && y.neg {
      r := Sub(x, Neg(y));
      return;
    }
    var a, b := x, y;
    if a.len < b.len {
      a, b := y, x;
    }
    var zs := AddLimbs(a.val[..a.len], b.val[..b.len]);
    assert zs[..|zs|] == zs;
    r := NewInt(a.neg, zs, |zs|);
  }

  /** The limb loop of intAdd: x and y added limb by limb, least significant first, with
      a carry of 0 or 1; a final carry becomes one more limb. */
  method AddLimbs(xs: seq<int>, ys: seq<int>) returns (zs: seq<int>)
    requires IsLimbs(xs) && IsLimbs(ys) && 1 <= |xs| && |ys| <= |xs|
    ensures IsLimbs(zs) && Val(zs) == Val(xs) + Val(ys)
    ensures |zs| == |xs| || (|zs| == |xs| + 1 && zs[|xs|] == 1)
  {
    var z: seq<int> := [];
    var carry := 0;
    for j := 0 to |xs|
      invariant |z| == j && IsLimbs(z)
      invariant carry == 0 || carry == 1
      invariant Val(z) + carry * Base(j) == Val(xs[..j]) + Val(ys[..Min(j, |ys|)])
    {
      var t := xs[j] + (if j < |ys| then ys[j] else 0) + carry;
      AddColumn(z, xs, ys, j, carry);
      z := z + [t % SHIFT];
      carry := t / SHIFT;
    }
    WholePrefix(xs, |xs|);
    WholePrefix(ys, |xs|);
    TopCarry(z, carry, Val(xs) + Val(ys));
    if carry != 0 {
      z := z + [carry];
    }
    zs := z;
  }

  /** intSub: mixed signs become an addition; equal values give the shared ZERO; otherwise
      the smaller magnitude is taken from the larger and the sign follows the comparison. */
  method Sub(x: Int, y: Int) returns (r: Int)
    requires Canonical(x) && Canonical(y)
    ensures Canonical(r) && Value(r) == Value(x) - Value(y)
    ensures Value(x) == Value(y) ==> r == ZERO
    decreases if y.neg then 2 else if x.neg then 1 else 0
  {
    SignOfValue(x);
    SignOfValue(y);
    if y.neg {
      r := Add(x, Neg(y));
      return;
    }
    if x.neg {
      var t := Add(Neg(x), y);
      r := Neg(t);
      return;
    }
    var cmp := Cmp(x, y);
    if cmp == 0 {
      ConstantValues();
      return ZERO;
    }
    var a, b := x, y;
    if cmp < 0 {
      a, b := y, x;
    }
    if a.len < b.len {
      LongerIsLarger(a, b);
    }
    var zs := SubLimbs(a.val[..a.len], b.val[..b.len]);
    assert zs[..|zs|] == zs;
    r := NewInt(if cmp < 0 then true else a.neg, zs, |zs|);
  }

  /** The limb loop of intSub: y taken from the larger x limb by limb with a borrow of 0
      or -1; no borrow is left at the top. */
  method SubLimbs(xs: seq<int>, ys: seq<int>) returns (zs: seq<int>)
    requires IsLimbs(xs) && IsLimbs(ys) && 1 <= |xs| && |ys| <= |xs|
    requires Val(ys) < Val(xs)
    ensures IsLimbs(zs) && |zs| == |xs| && Val(zs) == Val(xs) - Val(ys)
  {
    var z: seq<int> := [];
    var carry := 0;
    for j := 0 to |xs|
      invariant |z| == j && IsLimbs(z)
      invariant carry == 0 || carry == -1
      invariant Val(z) + carry * Base(j) == Val(xs[..j]) - Val(ys[..Min(j, |ys|)])
    {
      var t := xs[j] - (if j < |ys| then ys[j] else 0) + carry;
      SubColumn(z, xs, ys, j, carry);
      carry := t / SHIFT;
      z := z + [t % SHIFT];
    }
    WholePrefix(xs, |xs|);
    WholePrefix(ys, |xs|);
    ValBound(z);
    if carry == -1 {
      MulNeg(1, Base(|xs|));
      assert false;
    }
    TopCarry(z, carry, Val(xs) - Val(ys));
    zs := z;
  }

  /** intAddn: adds a number y of at most one limb. */
  method Addn(x: Int, y: int) returns (r: Int)
    requires Canonical(x) && -SHIFT < y < SHIFT
    ensures Canonical(r) && Value(r) == Value(x) + y
    decreases (if y < 0 then 2 else 0) + (if x.neg then 1 else 0)
  {
    if y < 0 {
      r := Subn(x, -y);
      return;
    }
    CanonicalMagnitude(x);
    if x.neg && x.len == 1 && x.val[0] < y {
      OneLimb(x);
      OneLimbVal(y - x.val[0]);
      r := NewInt(false, [y - x.val[0]], 1);
      return;
    }
    if x.neg {
      var t := Subn(Neg(x), y);
      r := Neg(t);
      return;
    }
    var zs := CarryLimbs(x.val[..x.len], y);
    assert zs[..|zs|] == zs;
    r := NewInt(x.neg, zs, |zs|);
  }

  /** The loop of intAddn: y added to the lowest limb, then a carry moved upwards while a
      limb overflows, growing the number by a limb 1 when the top one overflows. */
  method CarryLimbs(xs: seq<int>, y: int) returns (zs: seq<int>)
    requires IsLimbs(xs) && 1 <= |xs| && 0 <= y < SHIFT
    ensures IsLimbs(zs) && Val(zs) == Val(xs) + y
    ensures |zs| == |xs| || (|zs| == |xs| + 1 && zs[|xs|] == 1)
  {
    var n := |xs|;
    var z := xs;
    ValAddLow(z, y);
    z := z[0 := z[0] + y];
    var j := 0;
    while j < n && z[j] >= SHIFT
      invariant 0 <= j <= n
      invariant |z| == (if j == n then n + 1 else n)
      invariant Val(z) == Val(xs) + y
      invariant forall i :: 0 <= i < j ==> IsLimb(z[i])
      invariant forall i :: j < i < n ==> z[i] == xs[i]
      invariant j < n ==> 0 <= z[j] < 2 * SHIFT
      invariant j == n ==> z[n] == 1
    {
      ghost var s := z + [0];
      ValPadZero(z);
      z := z[j := z[j] - SHIFT];
      if j == n - 1 {
        z := z + [1];
      } else {
        z := z[j + 1 := z[j + 1] + 1];
      }
      CarriedUp(s, if j == n - 1 then z else z + [0], j, 1);
      if j < n - 1 {
        ValPadZero(z);
      }
      j := j + 1;
    }
    zs := z;
  }

  /** intSubn: subtracts a number y of at most one limb; a one-limb x below y gives the
      negative one-limb result y - x. */
  method Subn(x: Int, y: int) returns (r: Int)
    requires Canonical(x) && -SHIFT < y < SHIFT
    ensures Canonical(r) && Value(r) == Value(x) - y
    decreases (if y < 0 then 2 else 0) + (if x.neg then 1 else 0)
  {
    if y < 0 {
      r := Addn(x, -y);
      return;
    }
    if x.neg {
      var t := Addn(Neg(x), y);
      r := Neg(t);
      return;
    }
    CanonicalMagnitude(x);
    if x.len == 1 && x.val[0] - y < 0 {
      OneLimb(x);
      OneLimbVal(y - x.val[0]);
      r := NewInt(true, [y - x.val[0]], 1);
      return;
    }
    if x.len == 1 {
      OneLimb(x);
    }
    var zs := BorrowLimbs(x.val[..x.len], y);
    assert zs[..|zs|] == zs;
    r := NewInt(x.neg, zs, |zs|);
  }

  /** The loop of intSubn: y taken from the lowest limb, then a borrow moved upwards while
      a limb is negative. A nonzero top limb (or a single limb of at least y) means the
      borrow never leaves the number. */
  method BorrowLimbs(xs: seq<int>, y: int) returns (zs: seq<int>)
    requires IsLimbs(xs) && 1 <= |xs| && 0 <= y < SHIFT
    requires |xs| > 1 ==> xs[|xs| - 1] != 0
    requires |xs| == 1 ==> y <= xs[0]
    ensures IsLimbs(zs) && |zs| == |xs| && Val(zs) == Val(xs) - y
  {
    var n := |xs|;
    var z := xs;
    ValAddLow(z, -y);
    z := z[0 := z[0] - y];
    var j := 0;
    while j < n && z[j] < 0
      invariant 0 <= j <= n && |z| == n
      invariant Val(z) == Val(xs) - y
      invariant forall i :: 0 <= i < j ==> IsLimb(z[i])
      invariant forall i :: j < i < n ==> z[i] == xs[i]
      invariant j < n ==> -SHIFT < z[j] < SHIFT
      invariant 0 < j < n ==> z[j] >= xs[j] - 1
      invariant n == 1 && j == 0 ==> z[0] >= 0
    {
      assert j + 1 < n;
      ghost var s := z;
      z := z[j := z[j] + SHIFT];
      z := z[j + 1 := z[j + 1] - 1];
      CarriedUp(s, z, j, -1);
      j := j + 1;
    }
    zs := z;
  }

  /** intMul: the product of the magnitudes, negative when exactly one factor is. */
  method Mul(x: Int, y: Int) returns (r: Int)
    requires Canonical(x) && Canonical(y)
    ensures Canonical(r) && Value(r) == Value(x) * Value(y)
  {
    var zs := MulLimbs(x.val[..x.len], y.val[..y.len]);
    assert zs[..|zs|] == zs;
    r := NewInt(x.neg != y.neg, zs, |zs|);
    SignedProduct(x.neg, y.neg, Mag(x), Mag(y));
  }

  /** The loops of intMul: column k sums the products x[k - j] * y[j]; the column total
      plus the incoming carry leaves its low 26 bits as limb k and passes the rest on.
      The last column's carry, when nonzero, becomes the top limb. */
  method MulLimbs(xs: seq<int>, ys: seq<int>) returns (zs: seq<int>)
    requires IsLimbs(xs) && IsLimbs(ys) && 1 <= |xs| && 1 <= |ys|
    ensures IsLimbs(zs) && Val(zs) == Val(xs) * Val(ys)
    ensures |zs| == |xs| + |ys| - 1 || (|zs| == |xs| + |ys| && zs[|zs| - 1] != 0)
  {
    var n := |xs| + |ys|;
    var z: seq<int> := [];
    var carry := 0;
    var k := 0;
    while k < n - 1
      invariant 0 <= k <= n - 1 && |z| == k
      invariant IsLimbs(z) && carry >= 0
      invariant Val(z) + carry * Base(k) == Conv(xs, ys, k)
    {
      var col := ColumnSum(xs, ys, k);
      var t := carry + col;
      ColumnStep(z, carry, t, Conv(xs, ys, k));
      z := z + [t % SHIFT];
      carry := t / SHIFT;
      k := k + 1;
    }
    ConvProduct(xs, ys, n - 1);
    ValBound(xs);
    ValBound(ys);
    ProductBelow(Val(xs), Val(ys), |xs|, |ys|);
    ValBound(z);
    CarryBelow(carry, Val(z), Base(n - 1));
    TopCarry(z, carry, Val(xs) * Val(ys));
    if carry != 0 {
      z := z + [carry];
    }
    zs := z;
  }

  /** The inner loop of intMul: the sum of x[k - j] * y[j] over the j for which both
      limbs exist. */
  method ColumnSum(xs: seq<int>, ys: seq<int>, k: nat) returns (col: int)
    requires IsLimbs(xs) && IsLimbs(ys) && 1 <= |xs| && 1 <= |ys| && k < |xs| + |ys| - 1
    ensures col == ColumnTo(xs, ys, k, |ys|) && col >= 0
  {
    var lo, hi := Max(0, k - |xs| + 1), Min(k, |ys| - 1);
    col := 0;
    if lo > 0 {
      ColumnLow(xs, ys, k, lo);
    }
    for j := lo to hi + 1
      invariant col == ColumnTo(xs, ys, k, j) && col >= 0
    {
      ProductNonneg(xs[k - j], ys[j]);
      col := col + xs[k - j] * ys[j];
    }
    ColumnHigh(xs, ys, k, hi + 1, |ys|);
  }

  lemma OneLimb(x: Int)
    requires WellFormed(x) && x.len == 1
    ensures Mag(x) == x.val[0] && IsLimb(x.val[0])
  {
    assert x.val[..1] == [x.val[0]];
    OneLimbVal(x.val[0]);
  }

  lemma OneLimbVal(d: int)
    ensures Val([d]) == d
  {
    assert Val([d]) == Val([]) + d * Base(0);
  }

  lemma ProductNonneg(a: int, b: int)
    requires 0 <= a && 0 <= b
    ensures 0 <= a * b
  {
  }

  lemma WholePrefix(s: seq<int>, m: int)
    requires |s| <= m
    ensures Val(s[..Min(m, |s|)]) == Val(s) && Val(s[..|s|]) == Val(s)
  {
    assert s[..Min(m, |s|)] == s[..|s|] == s;
  }

  /** The carry out of the top limb is one more limb. */
  lemma TopCarry(low: seq<int>, carry: int, v: int)
    requires Val(low) + carry * Base(|low|) == v
    ensures Val(low + [carry]) == v
    ensures carry == 0 ==> Val(low) == v
  {
    ValAppend(low, carry);
  }

  /** One step of the limb loop of intAdd. */
  lemma AddColumn(pre: seq<int>, xs: seq<int>, ys: seq<int>, j: nat, carry: int)
    requires IsLimbs(xs) && IsLimbs(ys) && j < |xs| && |ys| <= |xs| && |pre| == j
    requires carry == 0 || carry == 1
    requires Val(pre) + carry * Base(j) == Val(xs[..j]) + Val(ys[..Min(j, |ys|)])
    ensures var t := xs[j] + (if j < |ys| then ys[j] else 0) + carry;
      && IsLimb(t % SHIFT) && (t / SHIFT == 0 || t / SHIFT == 1)
      && Val(pre + [t % SHIFT]) + (t / SHIFT) * Base(j + 1)
         == Val(xs[..j + 1]) + Val(ys[..Min(j + 1, |ys|)])
  {
    var t := xs[j] + (if j < |ys| then ys[j] else 0) + carry;
    SmallColumn(t);
    ColumnStep(pre, carry, t, Val(xs[..j]) + Val(ys[..Min(j, |ys|)]));
    AddPrefixes(xs, ys, |ys|, j);
  }

  /** One step of the limb loop of intSub. */
  lemma SubColumn(pre: seq<int>, xs: seq<int>, ys: seq<int>, j: nat, carry: int)
    requires IsLimbs(xs) && IsLimbs(ys) && j < |xs| && |ys| <= |xs| && |pre| == j
    requires carry == 0 || carry == -1
    requires Val(pre) + carry * Base(j) == Val(xs[..j]) - Val(ys[..Min(j, |ys|)])
    ensures var t := xs[j] - (if j < |ys| then ys[j] else 0) + carry;
      && IsLimb(t % SHIFT) && (t / SHIFT == 0 || t / SHIFT == -1)
      && Val(pre + [t % SHIFT]) + (t / SHIFT) * Base(j + 1)
         == Val(xs[..j + 1]) - Val(ys[..Min(j + 1, |ys|)])
  {
    var t := xs[j] - (if j < |ys| then ys[j] else 0) + carry;
    SmallColumn(t);
    ColumnStep(pre, carry, t, Val(xs[..j]) - Val(ys[..Min(j, |ys|)]));
    SubPrefixes(xs, ys, |ys|, j);
  }

  lemma AddPrefixes(xs: seq<int>, ys: seq<int>, yl: nat, j: nat)
    requires j < |xs| && yl <= |ys|
    ensures Val(xs[..j + 1]) + Val(ys[..Min(j + 1, yl)])
         == Val(xs[..j]) + Val(ys[..Min(j, yl)]) + (xs[j] + (if j < yl then ys[j] else 0)) * Base(j)
  {
    PrefixStep(xs, j);
    if j < yl {
      PrefixStep(ys, j);
    }
    MulAdd3(xs[j], if j < yl then ys[j] else 0, 0, Base(j));
  }

  lemma SubPrefixes(xs: seq<int>, ys: seq<int>, yl: nat, j: nat)
    requires j < |xs| && yl <= |ys|
    ensures Val(xs[..j + 1]) - Val(ys[..Min(j + 1, yl)])
         == Val(xs[..j]) - Val(ys[..Min(j, yl)]) + (xs[j] - (if j < yl then ys[j] else 0)) * Base(j)
  {
    PrefixStep(xs, j);
    if j < yl {
      PrefixStep(ys, j);
    }
    MulAdd3(xs[j], -(if j < yl then ys[j] else 0), 0, Base(j));
  }

  /** t is s with d units carried from limb j into limb j + 1. */
  lemma CarriedUp(s: seq<int>, t: seq<int>, j: nat, d: int)
    requires j + 1 < |s| == |t|
    requires t[j] == s[j] - d * SHIFT && t[j + 1] == s[j + 1] + d
    requires forall i :: 0 <= i < |s| && i != j && i != j + 1 ==> t[i] == s[i]
    ensures Val(t) == Val(s)
  {
    ValCarry(s, j, d);
    assert t == s[j := s[j] - d * SHIFT][j + 1 := s[j + 1] + d];
  }

  lemma PrefixStep(s: seq<int>, j: nat)
    requires j < |s|
    ensures Val(s[..j + 1]) == Val(s[..j]) + s[j] * Base(j)
  {
    assert s[..j + 1][..j] == s[..j];
  }

  lemma MulAdd3(a: int, b: int, c: int, m: int)
    ensures (a + b + c) * m == a * m + b * m + c * m
  {
  }

  /** A product of an n-limb and an m-limb number is below SHIFT^(n+m). */
  lemma ProductBelow(a: int, b: int, n: nat, m: nat)
    requires 0 <= a < Base(n) && 0 <= b < Base(m) && n + m >= 1
    ensures 0 <= a * b < SHIFT * Base(n + m - 1)
  {
    var bn, bm := Base(n), Base(m);
    MulLe(a, bn, b);
    MulLe(b + 1, bm, bn);
    assert a * b <= bn * b < bm * bn;
    BaseAdd(n, m);
    assert Base(n + m) == bn * bm == SHIFT * Base(n + m - 1);
  }

  lemma CarryBelow(c: int, low: int, b: int)
    requires c >= 0 && low >= 0 && b >= 1 && low + c * b < SHIFT * b
    ensures c < SHIFT
  {
    if c >= SHIFT {
      MulLe(SHIFT, c, b);
    }
  }

  lemma SignedProduct(xn: bool, yn: bool, a: int, b: int)
    ensures (if xn != yn then -(a * b) else a * b)
         == (if xn then -a else a) * (if yn then -b else b)
  {
    MulNeg(a, b);
  }

  /** The product x[k - j] * y[j] that column k takes from limb j of y, or zero when
      either index is out of range. */
  ghost function Term(xs: seq<int>, ys: seq<int>, k: nat, j: nat): int
  {
    if j < |ys| && j <= k && k - j < |xs| then xs[k - j] * ys[j] else 0
  }

  /** The first m terms of column k. */
  ghost function ColumnTo(xs: seq<int>, ys: seq<int>, k: nat, m: nat): int
  {
    if m == 0 then 0 else ColumnTo(xs, ys, k, m - 1) + Term(xs, ys, k, m - 1)
  }

  /** The sum of the first n columns, column k weighted by SHIFT^k. */
  ghost function Conv(xs: seq<int>, ys: seq<int>, n: nat): int
  {
    if n == 0 then 0 else Conv(xs, ys, n - 1) + ColumnTo(xs, ys, n - 1, |ys|) * Base(n - 1)
  }

  /** Limb k - m of xs, or zero: xs shifted up by m limbs. */
  ghost function Shifted(xs: seq<int>, m: nat, k: nat): int
  {
    if m <= k && k - m < |xs| then xs[k - m] else 0
  }

  ghost function ShiftedSum(xs: seq<int>, m: nat, n: nat): int
  {
    if n == 0 then 0 else ShiftedSum(xs, m, n - 1) + Shifted(xs, m, n - 1) * Base(n - 1)
  }

  /** Terms below the first index that reaches a limb of xs are zero. */
  lemma {:induction false} ColumnLow(xs: seq<int>, ys: seq<int>, k: nat, m: nat)
    requires k + 1 >= m + |xs|
    ensures ColumnTo(xs, ys, k, m) == 0
  {
    if m > 0 {
      ColumnLow(xs, ys, k, m - 1);
    }
  }

  /** Terms past the last index with a limb of ys at or below k are zero. */
  lemma {:induction false} ColumnHigh(xs: seq<int>, ys: seq<int>, k: nat, m: nat, n: nat)
    requires m <= n && (m > k || m >= |ys|)
    ensures ColumnTo(xs, ys, k, n) == ColumnTo(xs, ys, k, m)
  {
    if n > m {
      ColumnHigh(xs, ys, k, m, n - 1);
    }
  }

  /** Column k against ys + [d] is column k against ys plus d times limb k of the shifted xs. */
  lemma {:induction false} ColumnLast(xs: seq<int>, ys: seq<int>, d: int, k: nat, m: nat)
    requires m <= |ys|
    ensures ColumnTo(xs, ys + [d], k, m) == ColumnTo(xs, ys, k, m)
  {
    if m > 0 {
      ColumnLast(xs, ys, d, k, m - 1);
    }
  }

  lemma ColumnOfLast(xs: seq<int>, ys: seq<int>, d: int, k: nat)
    ensures ColumnTo(xs, ys + [d], k, |ys + [d]|)
         == ColumnTo(xs, ys, k, |ys|) + d * Shifted(xs, |ys|, k)
  {
    ColumnLast(xs, ys, d, k, |ys|);
    assert Term(xs, ys + [d], k, |ys|) == d * Shifted(xs, |ys|, k);
  }

  lemma {:induction false} ConvLast(xs: seq<int>, ys: seq<int>, d: int, n: nat)
    ensures Conv(xs, ys + [d], n) == Conv(xs, ys, n) + d * ShiftedSum(xs, |ys|, n)
  {
    if n > 0 {
      ConvLast(xs, ys, d, n - 1);
      var k := n - 1;
      var c, sh := ColumnTo(xs, ys, k, |ys|), Shifted(xs, |ys|, k);
      ColumnOfLast(xs, ys, d, k);
      var b, acc := Base(k), ShiftedSum(xs, |ys|, k);
      var lower, column := Conv(xs, ys + [d], k), ColumnTo(xs, ys + [d], k, |ys + [d]|);
      assert Conv(xs, ys + [d], n) == lower + column * b;
      WeightedStep(Conv(xs, ys + [d], n), lower, column, Conv(xs, ys, n),
        ShiftedSum(xs, |ys|, n), Conv(xs, ys, k), c, d, sh, b, acc);
    }
  }

  lemma WeightedStep(c1: int, lower: int, column: int, c0: int, s1: int, p0: int,
                     c: int, d: int, sh: int, b: int, acc: int)
    requires c1 == lower + column * b
    requires lower == p0 + d * acc && column == c + d * sh
    requires s1 == acc + sh * b
    requires c0 == p0 + c * b
    ensures c1 == c0 + d * s1
  {
  }

  /** Shifting xs up by m limbs multiplies its value by SHIFT^m. */
  lemma {:induction false} ShiftedSumVal(xs: seq<int>, m: nat, n: nat)
    ensures ShiftedSum(xs, m, n) == Base(m) * Val(xs[..if n <= m then 0 else Min(n - m, |xs|)])
  {
    if n > 0 {
      ShiftedSumVal(xs, m, n - 1);
      var k := n - 1;
      if m <= k < m + |xs| {
        PrefixStep(xs, k - m);
        BaseAdd(m, k - m);
        ShiftedStep(Base(m), Val(xs[..k - m]), xs[k - m], Base(k - m));
      }
    }
  }

  lemma ShiftedStep(bm: int, v: int, d: int, bk: int)
    ensures bm * v + d * (bm * bk) == bm * (v + d * bk)
  {
  }

  /** The columns of xs times ys, summed with their weights, are the product of the
      numbers the two limb sequences denote. */
  lemma {:induction false} ConvProduct(xs: seq<int>, ys: seq<int>, n: nat)
    requires n + 1 >= |xs| + |ys|
    ensures Conv(xs, ys, n) == Val(xs) * Val(ys)
  {
    if |ys| == 0 {
      ConvEmpty(xs, n);
    } else {
      var m := |ys| - 1;
      var front, d := ys[..m], ys[m];
      assert ys == front + [d];
      ConvProduct(xs, front, n);
      ConvLast(xs, front, d, n);
      ShiftedSumVal(xs, m, n);
      assert xs[..if n <= m then 0 else Min(n - m, |xs|)] == xs;
      ValAppend(front, d);
      ShiftedStep(Val(xs), Val(front), d, Base(m));
      MulAssoc(d, Base(m), Val(xs));
    }
  }

  lemma {:induction false} ConvEmpty(xs: seq<int>, n: nat)
    ensures Conv(xs, [], n) == 0
  {
    if n > 0 {
      ConvEmpty(xs, n - 1);
    }
  }
}
