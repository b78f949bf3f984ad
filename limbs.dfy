/** Base-2^26 limb sequences, least-significant limb first, and the number they denote. */
module Limbs {
  import opened Arith

  const BITS: nat := 26
  const SHIFT: int := 0x400_0000
  const MASK: int := 0x3FF_FFFF

  lemma ShiftIsPow2()
    ensures SHIFT == Pow2(BITS) && MASK == SHIFT - 1
  {
    assert Pow2(10) == 1024;
    assert Pow2(20) == 1024 * 1024 by { Pow2Add(10, 10); }
    assert Pow2(26) == Pow2(20) * 64 by { Pow2Add(20, 6); }
  }

  /** SHIFT^k, the weight of limb k. */
  function Base(k: nat): (r: nat)
    ensures r >= 1
  {
    if k == 0 then 1 else SHIFT * Base(k - 1)
  }

  lemma {:induction false} BaseIsPow2(k: nat)
    ensures Base(k) == Pow2(BITS * k)
  {
    if k > 0 {
      BaseIsPow2(k - 1);
      ShiftIsPow2();
      Pow2Add(BITS * (k - 1), BITS);
    }
  }

  lemma {:induction false} BaseAdd(a: nat, b: nat)
    ensures Base(a + b) == Base(a) * Base(b)
  {
    if b > 0 {
      BaseAdd(a, b - 1);
      MulAssoc(SHIFT, Base(a), Base(b - 1));
    }
  }

  lemma {:induction false} BaseMonotone(a: nat, b: nat)
    requires a <= b
    ensures Base(a) <= Base(b)
  {
    if a < b {
      BaseMonotone(a, b - 1);
    }
  }

  lemma MulAssoc(x: int, y: int, z: int)
    ensures x * (y * z) == y * (x * z) == (x * y) * z
  {
  }

  ghost predicate IsLimb(d: int) { 0 <= d < SHIFT }

  ghost predicate IsLimbs(s: seq<int>)
  {
    forall i :: 0 <= i < |s| ==> IsLimb(s[i])
  }

  /** The number denoted by a limb sequence: the sum of s[i] * SHIFT^i. */
  function Val(s: seq<int>): int
  {
    if |s| == 0 then 0 else Val(s[..|s| - 1]) + s[|s| - 1] * Base(|s| - 1)
  }

  lemma ValAppend(s: seq<int>, d: int)
    ensures Val(s + [d]) == Val(s) + d * Base(|s|)
  {
    assert (s + [d])[..|s|] == s;
  }

  lemma {:induction false} ValBound(s: seq<int>)
    requires IsLimbs(s)
    ensures 0 <= Val(s) < Base(|s|)
  {
    if |s| > 0 {
      var n := |s| - 1;
      ValBound(s[..n]);
      LimbTimesBase(s[n], n);
    }
  }

  /** d * SHIFT^n + (something below SHIFT^n) stays below SHIFT^(n+1). */
  lemma LimbTimesBase(d: int, n: nat)
    requires IsLimb(d)
    ensures 0 <= d * Base(n) <= Base(n + 1) - Base(n)
  {
    MulLe(d, SHIFT - 1, Base(n));
    MulSub(SHIFT, 1, Base(n));
  }

  /** Limbs with value zero are all zero. */
  lemma {:induction false} ValZero(s: seq<int>)
    requires IsLimbs(s) && Val(s) == 0
    ensures forall i :: 0 <= i < |s| ==> s[i] == 0
  {
    if |s| > 0 {
      var n := |s| - 1;
      ValBound(s[..n]);
      assert s[n] == 0 by {
        if s[n] > 0 {
          MulAtLeast(s[n], Base(n));
        }
      }
      ValZero(s[..n]);
      assert forall i :: 0 <= i < n ==> s[i] == s[..n][i];
    }
  }

  lemma {:induction false} ValZeros(n: nat)
    ensures Val(seq(n, _ => 0)) == 0
  {
    if n > 0 {
      assert seq(n, _ => 0)[..n - 1] == seq(n - 1, _ => 0);
      ValZeros(n - 1);
    }
  }

  lemma {:induction false} ValConcat(s: seq<int>, t: seq<int>)
    ensures Val(s + t) == Val(s) + Base(|s|) * Val(t)
  {
    if |t| > 0 {
      var n := |t| - 1;
      assert (s + t)[..|s| + n] == s + t[..n];
      assert (s + t)[|s| + n] == t[n];
      assert Val(s + t) == Val(s + t[..n]) + t[n] * Base(|s| + n);
      assert t[..n] == t[..|t| - 1];
      assert Val(t) == Val(t[..n]) + t[n] * Base(n);
      ValConcat(s, t[..n]);
      BaseAdd(|s|, n);
      MulAssoc(t[n], Base(|s|), Base(n));
      MulDistrib(Base(|s|), Val(t[..n]), t[n] * Base(n));
    } else {
      assert s + t == s;
    }
  }

  /** Splitting a limb sequence at k: low part plus SHIFT^k times the high part. */
  lemma ValSplit(s: seq<int>, k: nat)
    requires k <= |s|
    ensures Val(s) == Val(s[..k]) + Base(k) * Val(s[k..])
  {
    assert s == s[..k] + s[k..];
    ValConcat(s[..k], s[k..]);
  }

  lemma ValCons(d: int, s: seq<int>)
    ensures Val([d] + s) == d + SHIFT * Val(s)
  {
    ValConcat([d], s);
    assert [d][..0] == [];
  }

  /** Trailing zero limbs do not change the value. */
  lemma {:induction false} ValTrailingZeros(s: seq<int>, k: nat)
    requires k <= |s|
    requires forall i :: k <= i < |s| ==> s[i] == 0
    ensures Val(s) == Val(s[..k])
  {
    if |s| == k {
      assert s[..k] == s;
    } else {
      var n := |s| - 1;
      assert s[..n][..k] == s[..k];
      ValTrailingZeros(s[..n], k);
    }
  }

  /** The top limb of a limb sequence is its value divided by the weight of that limb. */
  lemma TopLimb(s: seq<int>)
    requires IsLimbs(s) && |s| >= 1
    ensures s[|s| - 1] == Val(s) / Base(|s| - 1)
    ensures Val(s) >= s[|s| - 1] * Base(|s| - 1)
  {
    var n := |s| - 1;
    ValBound(s[..n]);
    DivUnique(Val(s), Base(n), s[n], Val(s[..n]));
  }

  /** Comparison from the most significant limb down: the first limb that differs decides. */
  lemma {:induction false} ValLess(s: seq<int>, t: seq<int>, k: nat)
    requires IsLimbs(s) && IsLimbs(t) && |s| == |t| && k < |s|
    requires forall i :: k < i < |s| ==> s[i] == t[i]
    requires s[k] < t[k]
    ensures Val(s) < Val(t)
  {
    var n := |s| - 1;
    if k == n {
      ValBound(s[..n]);
      ValBound(t[..n]);
      LowPlusHigh(Val(s[..n]), Val(t[..n]), Base(n), s[n], t[n]);
    } else {
      ValLess(s[..n], t[..n], k);
    }
  }

  lemma LowPlusHigh(l1: int, l2: int, b: int, h1: int, h2: int)
    requires 0 <= l1 < b && 0 <= l2 && h1 < h2
    ensures l1 + h1 * b < l2 + h2 * b
  {
    MulLe(h1 + 1, h2, b);
  }

  lemma MulDistrib(x: int, a: int, b: int)
    ensures x * (a + b) == x * a + x * b
  {
  }

  /** Equal values and equal lengths mean equal limbs. */
  lemma ValInjective(s: seq<int>, t: seq<int>)
    requires IsLimbs(s) && IsLimbs(t) && |s| == |t| && Val(s) == Val(t)
    ensures s == t
  {
    if s != t {
      var k :| 0 <= k < |s| && s[k] != t[k] && forall i :: k < i < |s| ==> s[i] == t[i] by {
        HighestDifference(s, t);
      }
      if s[k] < t[k] {
        ValLess(s, t, k);
      } else {
        ValLess(t, s, k);
      }
    }
  }

  lemma HighestDifference(s: seq<int>, t: seq<int>)
    requires |s| == |t| && s != t
    ensures exists k :: 0 <= k < |s| && s[k] != t[k] && forall i :: k < i < |s| ==> s[i] == t[i]
  {
    var k := |s| - 1;
    assert exists j :: 0 <= j < |s| && s[j] != t[j];
    while s[k] == t[k]
      invariant 0 <= k < |s|
      invariant exists j :: 0 <= j <= k && s[j] != t[j]
      invariant forall i :: k < i < |s| ==> s[i] == t[i]
      decreases k
    {
      k := k - 1;
    }
  }

  /** A limb sequence of length n whose top limb is nonzero is at least SHIFT^(n-1). */
  lemma TopNonzero(s: seq<int>)
    requires IsLimbs(s) && |s| >= 1 && s[|s| - 1] != 0
    ensures Val(s) >= Base(|s| - 1)
  {
    TopLimb(s);
    MulAtLeast(s[|s| - 1], Base(|s| - 1));
  }

  /** Writing v into limb i changes the value by (v - s[i]) * SHIFT^i. */
  lemma {:induction false} ValUpdate(s: seq<int>, i: nat, v: int)
    requires i < |s|
    ensures Val(s[i := v]) == Val(s) + (v - s[i]) * Base(i)
  {
    var n := |s| - 1;
    var t := s[i := v];
    if i == n {
      assert t[..n] == s[..n];
      MulSub(v, s[i], Base(i));
    } else {
      assert t[..n] == s[..n][i := v];
      ValUpdate(s[..n], i, v);
    }
  }

  /** A column sum split into the limb kept and the carry passed on. */
  lemma SplitDigit(t: int, k: nat)
    ensures (t % SHIFT) * Base(k) + (t / SHIFT) * Base(k + 1) == t * Base(k)
  {
    var q, r := t / SHIFT, t % SHIFT;
    assert t == q * SHIFT + r;
    MulAssoc(q, SHIFT, Base(k));
    assert (q * SHIFT + r) * Base(k) == q * SHIFT * Base(k) + r * Base(k);
  }

  /** A zero limb on top does not change the value. */
  lemma ValPadZero(s: seq<int>)
    ensures Val(s + [0]) == Val(s)
  {
    ValAppend(s, 0);
  }

  lemma ValAddLow(s: seq<int>, d: int)
    requires |s| > 0
    ensures Val(s[0 := s[0] + d]) == Val(s) + d
  {
    ValUpdate(s, 0, s[0] + d);
  }

  /** Moving d units from limb j to limb j + 1 (a carry for d = 1, a borrow for d = -1)
      keeps the value. */
  lemma ValCarry(s: seq<int>, j: nat, d: int)
    requires j + 1 < |s|
    ensures Val(s[j := s[j] - d * SHIFT][j + 1 := s[j + 1] + d]) == Val(s)
  {
    var s1 := s[j := s[j] - d * SHIFT];
    ValUpdate(s, j, s[j] - d * SHIFT);
    ValUpdate(s1, j + 1, s1[j + 1] + d);
    CarryWeights(d, Base(j));
  }

  lemma CarryWeights(d: int, b: int)
    ensures (-d * SHIFT) * b + d * (SHIFT * b) == 0
  {
  }

  /** One column of a limb loop: t at weight SHIFT^j leaves its low 26 bits as limb j and
      the rest as the carry at weight SHIFT^(j+1). */
  lemma ColumnStep(zs: seq<int>, c: int, t: int, v: int)
    requires Val(zs) + c * Base(|zs|) == v
    ensures Val(zs + [t % SHIFT]) + (t / SHIFT) * Base(|zs| + 1) == v + (t - c) * Base(|zs|)
  {
    ValAppend(zs, t % SHIFT);
    SplitDigit(t, |zs|);
    MulSub(t, c, Base(|zs|));
  }

  /** The carry of a column sum between -SHIFT and 2 SHIFT is -1, 0 or 1. */
  lemma SmallColumn(t: int)
    requires -SHIFT <= t < 2 * SHIFT
    ensures t / SHIFT == (if t < 0 then -1 else if t < SHIFT then 0 else 1)
    ensures t % SHIFT == t - SHIFT * (t / SHIFT)
  {
    var q := if t < 0 then -1 else if t < SHIFT then 0 else 1;
    DivUnique(t, SHIFT, q, t - SHIFT * q);
  }
}
