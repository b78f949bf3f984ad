/** The shifts of minimal.js: intShl multiplies by a power of two, intShr divides by one
    rounding toward negative infinity. A shift by y is split into y % 26 bits moved across
    limb boundaries and (y - y % 26) / 26 whole limbs. */
module MinimalShift {
  import opened Arith
  import opened Limbs
  import opened MinimalInt
  import opened MinimalArith

  /** intShl: x * 2^y, with the sign of x. */
  method Shl(x: Int, y: nat) returns (r: Int)
    requires Canonical(x)
    ensures Canonical(r) && Value(r) == Value(x) * Pow2(y)
  {
    var bits := y % BITS;
    var s := (y - bits) / BITS;
    var z := ShlLimbs(x.val[..x.len], bits, s);
    WholePrefix(z, |z|);
    r := NewInt(x.neg, z, |z|);
    ShiftSplit(y, bits, s);
    ShlValue(x.neg, Mag(x), Pow2(bits), Base(s), Pow2(y), Val(z), Value(r), Value(x));
  }

  /** The limbs of intShl: the bit loop when bits != 0, then the limb loop when s != 0. */
  method ShlLimbs(xs: seq<int>, bits: nat, s: nat) returns (z: seq<int>)
    requires IsLimbs(xs) && 1 <= |xs| && bits < BITS
    ensures IsLimbs(z) && 1 <= |z| && Val(z) == Val(xs) * Pow2(bits) * Base(s)
  {
    z := xs;
    if bits != 0 {
      z := ShlBitsLimbs(z, bits);
    }
    ghost var shifted := Val(z);
    assert shifted == Val(xs) * Pow2(bits);
    if s != 0 {
      z := ShlWordsLimbs(z, s);
    }
    assert Val(z) == shifted * Base(s);
  }

  /** y = 26 s + bits, so 2^y = 2^bits * SHIFT^s. */
  lemma ShiftSplit(y: nat, bits: nat, s: nat)
    requires bits == y % BITS && s == (y - bits) / BITS
    ensures y == BITS * s + bits
    ensures Pow2(y) == Pow2(bits) * Base(s)
  {
    ShiftCount(y, bits, s);
    BaseIsPow2(s);
    Pow2Add(BITS * s, bits);
  }

  lemma ShiftCount(y: nat, bits: nat, s: nat)
    requires bits == y % BITS && s == (y - bits) / BITS
    ensures y == BITS * s + bits
  {
    DivUnique(y - bits, BITS, y / BITS, 0);
  }

  lemma MulComm(a: int, b: int)
    ensures a * b == b * a
  {
  }

  lemma ShlValue(neg: bool, m: int, p: int, b: int, py: int, vz: int, vr: int, vx: int)
    requires py == p * b && vz == m * p * b && vr == (if neg then -vz else vz)
    requires vx == if neg then -m else m
    ensures vr == vx * py
  {
    MulNeg(m, py);
    MulAssoc(m, p, b);
  }

  /** The bit loop of intShl (taken when y % 26 != 0): each limb keeps its low 26 - bits
      bits moved up by bits, and passes its top bits to the next limb; a final carry
      becomes one more limb. */
  method ShlBitsLimbs(xs: seq<int>, bits: nat) returns (zs: seq<int>)
    requires IsLimbs(xs) && 1 <= |xs| && 0 < bits < BITS
    ensures IsLimbs(zs) && Val(zs) == Val(xs) * Pow2(bits)
    ensures |zs| == |xs| || (|zs| == |xs| + 1 && zs[|xs|] != 0)
  {
    var p, q := Pow2(BITS - bits), Pow2(bits);
    LimbSplit(bits);
    var z: seq<int> := [];
    var carry := 0;
    for j := 0 to |xs|
      invariant |z| == j && IsLimbs(z)
      invariant 0 <= carry < q
      invariant Val(z) + carry * Base(j) == Val(xs[..j]) * q
    {
      var w := xs[j];
      ShlDigit(w, carry, p, q);
      var newCarry := w - w % p;
      var v := (w - newCarry) * q + carry;
      ShlStep(z, xs, j, carry, v, newCarry / p, q);
      z := z + [v];
      carry := newCarry / p;
    }
    WholePrefix(xs, |xs|);
    TopCarry(z, carry, Val(xs) * q);
    if carry != 0 {
      z := z + [carry];
    }
    zs := z;
  }

  /** 2^(26 - bits) * 2^bits is one limb's range. */
  lemma LimbSplit(bits: nat)
    requires bits <= BITS
    ensures Pow2(BITS - bits) * Pow2(bits) == SHIFT
  {
    Pow2Add(BITS - bits, bits);
    ShiftIsPow2();
  }

  /** One limb of the bit loop of intShl: the low bits of w moved up past the incoming
      carry, and the top bits of w as the outgoing carry. */
  lemma ShlDigit(w: int, carry: int, p: int, q: int)
    requires p >= 1 && q >= 1 && p * q == SHIFT && IsLimb(w) && 0 <= carry < q
    ensures (w - (w - w % p)) * q + carry == (w % p) * q + carry
    ensures (w - w % p) / p == w / p
    ensures IsLimb((w % p) * q + carry) && 0 <= w / p < q
    ensures (w % p) * q + carry + (w / p) * SHIFT == w * q + carry
  {
    var low, hi := w % p, w / p;
    assert w == hi * p + low;
    DivUnique(w - low, p, hi, 0);
    MulLe(low + 1, p, q);
    if hi >= q {
      MulLe(q, hi, p);
    }
    MulAssoc(hi, p, q);
    MulAdd3(hi * p, low, 0, q);
  }

  lemma ShlStep(z: seq<int>, xs: seq<int>, j: nat, carry: int, v: int, nc: int, q: int)
    requires j < |xs| && |z| == j
    requires Val(z) + carry * Base(j) == Val(xs[..j]) * q
    requires v + nc * SHIFT == xs[j] * q + carry
    ensures Val(z + [v]) + nc * Base(j + 1) == Val(xs[..j + 1]) * q
  {
    ValAppend(z, v);
    PrefixStep(xs, j);
    ShlArith(Val(z), carry, Base(j), Val(xs[..j]), q, v, nc, xs[j], Base(j + 1));
  }

  lemma ShlArith(vz: int, c: int, b: int, vx: int, q: int, v: int, nc: int, w: int, bn: int)
    requires vz + c * b == vx * q && v + nc * SHIFT == w * q + c && bn == SHIFT * b
    ensures vz + v * b + nc * bn == (vx + w * b) * q
  {
    MulAssoc(nc, SHIFT, b);
    MulAdd3(v, nc * SHIFT, 0, b);
    MulAdd3(w * q, c, 0, b);
    MulAdd3(vx, w * b, 0, q);
    MulAssoc(w, b, q);
  }

  /** The limb loop of intShl (taken when y >= 26): the limbs move up by s places, from
      the top down, and the s places below are zero-filled. */
  method ShlWordsLimbs(xs: seq<int>, s: nat) returns (zs: seq<int>)
    requires IsLimbs(xs) && 1 <= |xs|
    ensures zs == seq(s, _ => 0) + xs
    ensures IsLimbs(zs) && Val(zs) == Val(xs) * Base(s)
  {
    var len := |xs|;
    var z := xs + seq(s, _ => 0);
    var j := len - 1;
    while j >= 0
      invariant -1 <= j < len && |z| == len + s
      invariant forall i :: j < i < len ==> z[i + s] == xs[i]
      invariant forall i :: 0 <= i <= j + s ==> z[i] == (xs + seq(s, _ => 0))[i]
    {
      z := z[j + s := z[j]];
      j := j - 1;
    }
    for j := 0 to s
      invariant |z| == len + s
      invariant forall i :: 0 <= i < j ==> z[i] == 0
      invariant forall i :: 0 <= i < len ==> z[i + s] == xs[i]
    {
      z := z[j := 0];
    }
    zs := z;
    ZeroFilled(zs, xs, s);
    ValShiftedUp(xs, s);
  }

  lemma ZeroFilled(zs: seq<int>, xs: seq<int>, s: nat)
    requires |zs| == |xs| + s
    requires forall i :: 0 <= i < s ==> zs[i] == 0
    requires forall i :: 0 <= i < |xs| ==> zs[i + s] == xs[i]
    ensures zs == seq(s, _ => 0) + xs
  {
    forall i | 0 <= i < |zs|
      ensures zs[i] == (seq(s, _ => 0) + xs)[i]
    {
      if i >= s {
        assert zs[(i - s) + s] == xs[i - s];
      }
    }
  }

  /** s zero limbs below xs multiply it by SHIFT^s. */
  lemma ValShiftedUp(xs: seq<int>, s: nat)
    requires IsLimbs(xs)
    ensures IsLimbs(seq(s, _ => 0) + xs)
    ensures Val(seq(s, _ => 0) + xs) == Val(xs) * Base(s)
  {
    ValConcat(seq(s, _ => 0), xs);
    ValZeros(s);
    MulComm(Base(s), Val(xs));
  }

  /** intShr: floor(x / 2^y). A negative x is shifted as -(floor((-(x + 1)) / 2^y)) - 1; a
      shift past every limb gives zero. */
  method Shr(x: Int, y: nat) returns (r: Int)
    requires Canonical(x)
    ensures Canonical(r) && Value(r) == Value(x) / Pow2(y)
    decreases if x.neg then 1 else 0
  {
    SignOfValue(x);
    if x.neg {
      var a := Addn(x, 1);
      var b := Neg(a);
      SignOfValue(b);
      var c := Shr(b, y);
      r := Subn(Neg(c), 1);
      FloorOfNegative(Value(x), Pow2(y));
      return;
    }
    var bits := y % BITS;
    var s := Min((y - bits) / BITS, x.len);
    CanonicalMagnitude(x);
    if x.len <= s {
      ShiftSplit(y, bits, (y - bits) / BITS);
      BaseMonotone(x.len, (y - bits) / BITS);
      MulAtLeast(Pow2(bits), Base((y - bits) / BITS));
      DivUnique(Mag(x), Pow2(y), 0, Mag(x));
      ConstantValues();
      return ZERO;
    }
    var xs := x.val[..x.len];
    var z := ShrLimbs(xs, s, bits);
    assert z[..|z|] == z;
    r := NewInt(x.neg, z, |z|);
    ShiftSplit(y, bits, s);
    DropLimbs(xs, s);
    DivDiv(Val(xs), Base(s), Pow2(bits));
    assert Base(s) * Pow2(bits) == Pow2(y);
  }

  /** Dropping the s lowest limbs divides by SHIFT^s. */
  lemma DropLimbs(xs: seq<int>, s: nat)
    requires IsLimbs(xs) && s <= |xs|
    ensures Val(xs[s..]) == Val(xs) / Base(s)
  {
    var lo, hi, b := Val(xs[..s]), Val(xs[s..]), Base(s);
    ValSplit(xs, s);
    ValBound(xs[..s]);
    assert Val(xs) == lo + b * hi;
    MulComm(b, hi);
    DivUnique(Val(xs), b, hi, lo);
  }

  /** The two loops of intShr on a nonnegative x: the limbs move down by s places, then
      from the top limb down each limb is shifted right by bits and takes the bits the
      limb above lost. The value is the dropped sequence divided by 2^bits. */
  method ShrLimbs(xs: seq<int>, s: nat, bits: nat) returns (zs: seq<int>)
    requires IsLimbs(xs) && s < |xs| && bits < BITS
    ensures IsLimbs(zs) && |zs| == |xs| - s
    ensures Val(zs) == Val(xs[s..]) / Pow2(bits)
  {
    var len := |xs| - s;
    var z := MoveDown(xs, s);
    ghost var t := z[..len];
    var p, q := Pow2(bits), Pow2(BITS - bits);
    LimbSplit(bits);
    var out: seq<int> := [];
    var carry := 0;
    var j := len - 1;
    while j >= 0
      invariant -1 <= j < len && |out| == len - 1 - j
      invariant IsLimbs(out) && 0 <= carry < p
      invariant Val(out) * p + carry == Val(t[j + 1..])
    {
      var word := z[j];
      ShrDigit(word, carry, p, q);
      ShrStep(out, t, j, carry * q + word / p, word, carry, p, word % p);
      out := [carry * q + word / p] + out;
      carry := word % p;
      j := j - 1;
    }
    assert t[0..] == t;
    DivUnique(Val(t), p, Val(out), carry);
    zs := out;
  }

  /** The first loop of intShr: limb j + s is copied to limb j, from the bottom up. */
  method MoveDown(xs: seq<int>, s: nat) returns (z: seq<int>)
    requires s <= |xs|
    ensures |z| == |xs| && z[..|xs| - s] == xs[s..]
  {
    z := xs;
    for j := 0 to |xs| - s
      invariant |z| == |xs|
      invariant forall i :: 0 <= i < j ==> z[i] == xs[i + s]
      invariant forall i :: j <= i < |xs| ==> z[i] == xs[i]
    {
      z := z[j := z[j + s]];
    }
  }

  /** One limb of the shift loop of intShr: the carry from the limb above becomes the top
      bits, the limb's own low bits the next carry. */
  lemma ShrDigit(word: int, carry: int, p: int, q: int)
    requires p >= 1 && q >= 1 && q * p == SHIFT && IsLimb(word) && 0 <= carry < p
    ensures IsLimb(carry * q + word / p) && 0 <= word % p < p
    ensures (carry * q + word / p) * p + word % p == carry * SHIFT + word
  {
    QuotientBelow(word, p, q);
    TopBits(carry, word / p, p, q);
    Recombine(carry, word / p, word % p, p, q, word);
  }

  /** A limb divided by p is below SHIFT / p. */
  lemma QuotientBelow(w: int, p: int, q: int)
    requires p >= 1 && q * p == SHIFT && IsLimb(w)
    ensures 0 <= w / p < q && w == (w / p) * p + w % p
  {
    if w / p >= q {
      MulLe(q, w / p, p);
    }
  }

  lemma TopBits(carry: int, hi: int, p: int, q: int)
    requires 0 <= carry < p && 0 <= hi < q && q * p == SHIFT
    ensures 0 <= carry * q + hi < SHIFT
  {
    MulLe(carry + 1, p, q);
    MulAdd3(carry, 1, 0, q);
  }

  lemma Recombine(carry: int, hi: int, low: int, p: int, q: int, w: int)
    requires w == hi * p + low && q * p == SHIFT
    ensures (carry * q + hi) * p + low == carry * SHIFT + w
  {
    MulAdd3(carry * q, hi, 0, p);
    MulAssoc(carry, q, p);
  }

  lemma ShrStep(out: seq<int>, t: seq<int>, j: nat, v: int, word: int, carry: int, p: int, rem: int)
    requires j < |t| && t[j] == word && p >= 1
    requires Val(out) * p + carry == Val(t[j + 1..])
    requires v * p + rem == carry * SHIFT + word
    ensures Val([v] + out) * p + rem == Val(t[j..])
  {
    ValCons(v, out);
    assert t[j..] == [t[j]] + t[j + 1..];
    ValCons(t[j], t[j + 1..]);
    MulAdd3(v, SHIFT * Val(out), 0, p);
    MulAssoc(SHIFT, Val(out), p);
    MulDistrib(SHIFT, Val(out) * p, carry);
  }
}
