/** The bitwise operations of minimal.js: ibitop and its wrappers intAnd, intOr and intXor,
    which bring negative operands to two's complement by adding 2^(bits+1), combine the
    limbs, and take 2^(bits+1) off again when the result is negative; and intNot. */
module MinimalBitwise {
  import opened Arith
  import opened Limbs
  import opened MinimalInt
  import opened MinimalArith
  import opened MinimalShift
  import opened Bitwise
  import opened BitBlocks

  /** The first n limbs of a, zero above len: the copy x.val.slice(0), grown the way a
      JavaScript array grows when the loop writes past its end. */
  function Pad(a: Int, n: nat): (s: seq<int>)
    ensures |s| == n && forall j :: 0 <= j < n ==> s[j] == Digit(a, j)
  {
    seq(n, j requires 0 <= j < n => Digit(a, j))
  }

  lemma DigitsAreLimbs(a: Int)
    requires WellFormed(a)
    ensures forall j :: IsLimb(Digit(a, j))
  {
    forall j | 0 <= j
      ensures IsLimb(Digit(a, j))
    {
      if j < a.len {
        LimbAt(a, j);
      }
    }
  }

  /** The first n limbs denote the magnitude modulo SHIFT^n. */
  lemma PadValue(a: Int, n: nat)
    requires WellFormed(a)
    ensures IsLimbs(Pad(a, n)) && Val(Pad(a, n)) == Mag(a) % Base(n)
  {
    DigitsAreLimbs(a);
    if n <= a.len {
      PadWithin(a, n);
    } else {
      PadBeyond(a, n);
    }
  }

  lemma PadWithin(a: Int, n: nat)
    requires WellFormed(a) && n <= a.len
    ensures Val(Pad(a, n)) == Mag(a) % Base(n)
  {
    var s := a.val[..a.len];
    assert Pad(a, n) == s[..n];
    ValSplit(s, n);
    var lo, hi := s[..n], s[n..];
    assert IsLimbs(lo) && IsLimbs(hi);
    ValBound(lo);
    ValBound(hi);
    DivUnique(Mag(a), Base(n), Val(hi), Val(lo));
  }

  lemma PadBeyond(a: Int, n: nat)
    requires WellFormed(a) && n > a.len
    ensures Val(Pad(a, n)) == Mag(a) % Base(n)
  {
    var s := a.val[..a.len];
    assert Pad(a, n)[..a.len] == s;
    ValTrailingZeros(Pad(a, n), a.len);
    ValBound(s);
    BaseMonotone(a.len, n);
    DivUnique(Mag(a), Base(n), 0, Mag(a));
  }

  /** The value of a limb sequence is that of all but its top limb plus the top limb
      shifted up by BITS times its place. */
  lemma ValTop(s: seq<int>)
    requires IsLimbs(s) && |s| >= 1
    ensures Val(s) == Val(s[..|s| - 1]) + Upshift(s[|s| - 1], BITS * (|s| - 1))
  {
    var n := |s| - 1;
    var d, b := s[n], Base(n);
    assert s == s[..n] + [d];
    ValAppend(s[..n], d);
    BaseIsPow2(n);
    UpshiftIsProduct(d, BITS * n);
    assert d * b == b * d;
  }

  /** Combining two limb sequences limb by limb combines the numbers they denote. */
  lemma {:induction false} LimbwiseValue(op: Op, xs: seq<int>, ys: seq<int>, zs: seq<int>)
    requires IsLimbs(xs) && IsLimbs(ys) && |xs| == |ys| == |zs|
    requires forall j :: 0 <= j < |zs| ==> zs[j] == NatOp(op, xs[j], ys[j])
    ensures IsLimbs(zs) && 0 <= Val(xs) && 0 <= Val(ys)
    ensures Val(zs) == NatOp(op, Val(xs), Val(ys))
  {
    ValBound(xs);
    ValBound(ys);
    LimbwiseLimbs(op, xs, ys, zs);
    if |zs| == 0 {
      assert NatOp(op, 0, 0) == 0;
    } else {
      var n := |zs| - 1;
      LimbwiseValue(op, xs[..n], ys[..n], zs[..n]);
      LimbwiseTop(op, xs, ys, zs);
    }
  }

  lemma LimbwiseLimbs(op: Op, xs: seq<int>, ys: seq<int>, zs: seq<int>)
    requires IsLimbs(xs) && IsLimbs(ys) && |xs| == |ys| == |zs|
    requires forall j :: 0 <= j < |zs| ==> zs[j] == NatOp(op, xs[j], ys[j])
    ensures IsLimbs(zs)
  {
    ShiftIsPow2();
    forall j | 0 <= j < |zs|
      ensures IsLimb(zs[j])
    {
      NatOpBound(op, xs[j], ys[j], BITS);
    }
  }

  /** The inductive step of LimbwiseValue: the top limbs combine at their place. */
  lemma LimbwiseTop(op: Op, xs: seq<int>, ys: seq<int>, zs: seq<int>)
    requires IsLimbs(xs) && IsLimbs(ys) && IsLimbs(zs) && |xs| == |ys| == |zs| >= 1
    requires zs[|zs| - 1] == NatOp(op, xs[|zs| - 1], ys[|zs| - 1])
    requires 0 <= Val(xs[..|zs| - 1]) && 0 <= Val(ys[..|zs| - 1])
    requires Val(zs[..|zs| - 1]) == NatOp(op, Val(xs[..|zs| - 1]), Val(ys[..|zs| - 1]))
    ensures 0 <= Val(xs) && 0 <= Val(ys) && Val(zs) == NatOp(op, Val(xs), Val(ys))
  {
    var n := |zs| - 1;
    var xl, yl := xs[..n], ys[..n];
    assert IsLimbs(xl) && IsLimbs(yl);
    ValTop(xs);
    ValTop(ys);
    ValTop(zs);
    ValBound(xl);
    ValBound(yl);
    BaseIsPow2(n);
    CombineTop(op, Val(xl), Val(yl), xs[n], ys[n], BITS * n, Val(xs), Val(ys), Val(zs));
  }

  /** NatOpBlock, with the operands and the result given as values. */
  lemma CombineTop(op: Op, lx: nat, ly: nat, x: nat, y: nat, k: nat, vx: nat, vy: nat, vz: int)
    requires lx < Pow2(k) && ly < Pow2(k)
    requires vx == lx + Upshift(x, k) && vy == ly + Upshift(y, k)
    requires vz == NatOp(op, lx, ly) + Upshift(NatOp(op, x, y), k)
    ensures vz == NatOp(op, vx, vy)
  {
    NatOpBlock(op, lx, ly, x, y, k, vx, vy);
  }

  /** The loop of ibitop: limb j of the copy of x is combined with limb j of y for every
      j below y.len. */
  method LimbLoop(op: Op, a: Int, b: Int) returns (z: seq<int>)
    requires WellFormed(a) && WellFormed(b)
    ensures |z| == Max(a.len, b.len)
    ensures forall j :: 0 <= j < |z| ==>
      IsLimb(Digit(a, j)) && IsLimb(Digit(b, j)) &&
      z[j] == if j < b.len then NatOp(op, Digit(a, j), Digit(b, j)) else Digit(a, j)
  {
    DigitsAreLimbs(a);
    DigitsAreLimbs(b);
    z := Pad(a, Max(a.len, b.len));
    for j := 0 to b.len
      invariant |z| == Max(a.len, b.len)
      invariant forall i :: 0 <= i < |z| ==>
        z[i] == if i < j then NatOp(op, Digit(a, i), Digit(b, i)) else Digit(a, i)
    {
      z := z[j := NatOp(op, z[j], b.val[j])];
    }
  }

  /** The first n limbs of the loop's result, n no more than y.len for AND, denote NatOp of
      the two magnitudes modulo SHIFT^n. */
  lemma LoopValue(op: Op, a: Int, b: Int, z: seq<int>, n: nat)
    requires WellFormed(a) && WellFormed(b) && |z| == Max(a.len, b.len) && n <= |z|
    requires forall j :: 0 <= j < |z| ==>
      IsLimb(Digit(a, j)) && IsLimb(Digit(b, j)) &&
      z[j] == if j < b.len then NatOp(op, Digit(a, j), Digit(b, j)) else Digit(a, j)
    requires op == And ==> n <= b.len
    requires Mag(a) >= 0 && Mag(b) >= 0
    ensures IsLimbs(z[..n]) && Val(z[..n]) == NatOp(op, Mag(a), Mag(b)) % Base(n)
  {
    var xs, ys := Pad(a, n), Pad(b, n);
    PadValue(a, n);
    PadValue(b, n);
    forall j | 0 <= j < n
      ensures z[..n][j] == NatOp(op, xs[j], ys[j])
    {
      if j >= b.len {
        assert ys[j] == 0;
        ZeroOperand(op, xs[j]);
        NatOpComm(op, xs[j], 0);
      }
    }
    LimbwiseValue(op, xs, ys, z[..n]);
    BaseIsPow2(n);
    NatOpLow(op, Mag(a), Mag(b), BITS * n);
  }

  /** x.neg ? intAdd(max, x) : x, for |x| < 2^n and max = 2^(n+1): the residue of x
      modulo 2^(n+1), in which bit n carries the sign. */
  method Convert(v: Int, max: Int, ghost n: nat) returns (w: Int)
    requires Canonical(v) && Canonical(max) && Mag(v) < Pow2(n)
    requires v.neg ==> Value(max) == Pow2(n + 1)
    ensures Canonical(w) && !w.neg && Mag(w) == Value(v) % Pow2(n + 1)
    ensures !v.neg ==> w == v
  {
    SignOfValue(v);
    var m := Pow2(n + 1);
    assert m == 2 * Pow2(n);
    if v.neg {
      w := Add(max, v);
      DivUnique(Value(v), m, -1, Value(w));
    } else {
      w := v;
      DivUnique(Value(v), m, 0, Value(v));
    }
    SignOfValue(w);
  }

  /** The operands of ibitop after the swap, the bit count and the conversion. */
  method Operands(x: Int, y: Int) returns (a: Int, b: Int, a': Int, b': Int, ghost bits: nat, max: Int)
    requires Canonical(x) && Canonical(y)
    ensures (a, b) == if x.len < y.len then (y, x) else (x, y)
    ensures bits == Max(Bits(x), Bits(y))
    ensures Mag(a) < Pow2(bits) && Mag(b) < Pow2(bits)
    ensures a.neg || b.neg ==> Canonical(max) && Value(max) == Pow2(bits + 1)
    ensures Canonical(a') && !a'.neg && Mag(a') == Value(a) % Pow2(bits + 1)
    ensures Canonical(b') && !b'.neg && Mag(b') == Value(b) % Pow2(bits + 1)
    ensures !a.neg ==> a' == a
    ensures !b.neg ==> b' == b
  {
    a, b := x, y;
    if x.len < y.len {
      a, b := y, x;
    }
    var n := Max(Bits(a), Bits(b));
    bits := n;
    Pow2Monotone(Bits(a), n);
    Pow2Monotone(Bits(b), n);
    ConstantValues();
    max := ZERO;
    if a.neg || b.neg {
      max := Shl(ONE, n + 1);
    }
    a' := Convert(a, max, n);
    b' := Convert(b, max, n);
  }

  /** The limb loop of ibitop and new Int(0, z, len): the combined magnitudes of the
      converted operands, cut to len limbs. */
  method Combine(op: Op, a: Int, b: Int, len: nat) returns (t: Int)
    requires Canonical(a) && Canonical(b) && !a.neg && !b.neg
    requires 1 <= len <= Max(a.len, b.len) && (op == And ==> len <= b.len)
    ensures Canonical(t) && !t.neg && 0 <= Mag(a) && 0 <= Mag(b)
    ensures Value(t) == NatOp(op, Mag(a), Mag(b)) % Base(len)
  {
    CanonicalMagnitude(a);
    CanonicalMagnitude(b);
    var z := LimbLoop(op, a, b);
    LoopValue(op, a, b, z, len);
    t := NewInt(false, z, len);
    SignOfValue(t);
  }

  /** ibitop corrected: the length of an OR or XOR result is taken over both converted
      operands. AND, OR or XOR in two's complement, negative exactly when the sign rule
      says so. BitopAsWritten is the code as written. */
  method Bitop(op: Op, x: Int, y: Int) returns (r: Int)
    requires Canonical(x) && Canonical(y)
    ensures Canonical(r) && Value(r) == IntOp(op, Value(x), Value(y))
    ensures r.neg <==> SignRule(op, x.neg, y.neg)
  {
    var a, b, a', b', bits, max := Operands(x, y);
    var neg := SignRule(op, a.neg, b.neg);
    var len := if op == And then b'.len else Max(a'.len, b'.len);
    var t := Combine(op, a', b', len);
    r := t;
    if neg {
      r := Sub(t, max);
    }
    ghost var vmax := if neg then Value(max) else 0;
    CorrectCase(op, a, b, a', b', bits, len, Value(t), vmax, Value(r));
    SignOfValue(r);
    IntOpComm(op, Value(x), Value(y));
  }

  /** The state Bitop reaches gives the two's-complement result and its sign. */
  lemma CorrectCase(op: Op, a: Int, b: Int, a': Int, b': Int, bits: nat, len: nat, vt: int, vmax: int, vr: int)
    requires Canonical(a) && Canonical(b) && Mag(a) < Pow2(bits) && Mag(b) < Pow2(bits)
    requires Canonical(a') && !a'.neg && Mag(a') == Value(a) % Pow2(bits + 1)
    requires Canonical(b') && !b'.neg && Mag(b') == Value(b) % Pow2(bits + 1)
    requires len == if op == And then b'.len else Max(a'.len, b'.len)
    requires vt == NatOp(op, Mag(a'), Mag(b')) % Base(len)
    requires vmax == if SignRule(op, a.neg, b.neg) then Pow2(bits + 1) else 0
    requires vr == vt - vmax
    ensures vr == IntOp(op, Value(a), Value(b)) && (vr < 0 <==> SignRule(op, a.neg, b.neg))
  {
    CanonicalMagnitude(a');
    CanonicalMagnitude(b');
    FitsLength(op, Mag(a'), Mag(b'), a'.len, b'.len, len);
    SignOfValue(a);
    SignOfValue(b);
    BitopResult(op, Value(a), Value(b), bits, vt, vmax, vr);
  }

  /** Taking 2^(bits+1) off the combined residues when the sign rule makes the result
      negative gives the two's-complement result and its sign. */
  lemma BitopResult(op: Op, va: int, vb: int, bits: nat, vt: int, vmax: int, vr: int)
    requires -(Pow2(bits) as int) <= va < Pow2(bits) && -(Pow2(bits) as int) <= vb < Pow2(bits)
    requires vt == NatOp(op, va % Pow2(bits + 1), vb % Pow2(bits + 1))
    requires vmax == if SignRule(op, va < 0, vb < 0) then Pow2(bits + 1) else 0
    requires vr == vt - vmax
    ensures vr == IntOp(op, va, vb) && (vr < 0 <==> SignRule(op, va < 0, vb < 0))
  {
    ViaResidues(op, va, vb, bits);
    IntOpSign(op, va, vb);
  }

  /** The combined magnitudes fit the length Bitop gives the result. */
  lemma FitsLength(op: Op, ma: nat, mb: nat, la: nat, lb: nat, len: nat)
    requires ma < Base(la) && mb < Base(lb)
    requires len == if op == And then lb else Max(la, lb)
    ensures NatOp(op, ma, mb) % Base(len) == NatOp(op, ma, mb)
  {
    if op == And {
      AndAtMost(ma, mb);
    } else {
      BaseMonotone(la, len);
      BaseMonotone(lb, len);
      BaseIsPow2(len);
      NatOpBound(op, ma, mb, BITS * len);
    }
    DivUnique(NatOp(op, ma, mb), Base(len), 0, NatOp(op, ma, mb));
  }

  /** ibitop as minimal.js writes it: the result of OR and XOR keeps the length of the
      converted longer operand x, although the loop writes up to the length of the
      converted y. When x is nonnegative and y negative, the conversion can give y one
      limb more than x, and that limb is dropped. */
  method BitopAsWritten(op: Op, x: Int, y: Int) returns (r: Int)
    requires Canonical(x) && Canonical(y)
    ensures Canonical(r)
    ensures var a := if x.len < y.len then y else x;
      var b := if x.len < y.len then x else y;
      var m := Pow2(Max(Bits(x), Bits(y)) + 1);
      op != And && !a.neg && b.neg ==>
        Value(r) == NatOp(op, Value(a) % m, Value(b) % m) % Base(a.len) - m
    ensures var a := if x.len < y.len then y else x;
      var b := if x.len < y.len then x else y;
      !(op != And && !a.neg && b.neg) ==> Value(r) == IntOp(op, Value(x), Value(y))
  {
    var a, b, a', b', bits, max := Operands(x, y);
    var neg := SignRule(op, a.neg, b.neg);
    var len := if op == And then b'.len else a'.len;
    var t := Combine(op, a', b', len);
    r := t;
    if neg {
      r := Sub(t, max);
    }
    ghost var vmax := if neg then Value(max) else 0;
    if !(op != And && !a.neg && b.neg) {
      ExactCase(op, a, b, a', b', bits, len, Value(t), vmax, Value(r));
      IntOpComm(op, Value(x), Value(y));
    }
  }

  /** The state BitopAsWritten reaches, in the cases it gets right, gives the
      two's-complement result. */
  lemma ExactCase(op: Op, a: Int, b: Int, a': Int, b': Int, bits: nat, len: nat, vt: int, vmax: int, vr: int)
    requires Canonical(a) && Canonical(b) && Mag(a) < Pow2(bits) && Mag(b) < Pow2(bits)
    requires Canonical(a') && !a'.neg && Mag(a') == Value(a) % Pow2(bits + 1)
    requires Canonical(b') && !b'.neg && Mag(b') == Value(b) % Pow2(bits + 1)
    requires !a.neg ==> a' == a
    requires !b.neg ==> b' == b
    requires b.len <= a.len && !(op != And && !a.neg && b.neg)
    requires len == if op == And then b'.len else a'.len
    requires vt == NatOp(op, Mag(a'), Mag(b')) % Base(len)
    requires vmax == if SignRule(op, a.neg, b.neg) then Pow2(bits + 1) else 0
    requires vr == vt - vmax
    ensures vr == IntOp(op, Value(a), Value(b))
  {
    CanonicalMagnitude(a');
    CanonicalMagnitude(b');
    SignOfValue(a);
    SignOfValue(b);
    ExactResult(op, Value(a), Value(b), Mag(a'), Mag(b'), a'.len, b'.len, bits, len, vt, vmax, vr);
  }

  /** The cases BitopAsWritten gets right: AND, and OR or XOR unless the longer operand is
      nonnegative and the shorter negative. */
  lemma ExactResult(op: Op, va: int, vb: int, ma: nat, mb: nat, la: nat, lb: nat, bits: nat,
    len: nat, vt: int, vmax: int, vr: int)
    requires -(Pow2(bits) as int) <= va < Pow2(bits) && -(Pow2(bits) as int) <= vb < Pow2(bits)
    requires ma == va % Pow2(bits + 1) && mb == vb % Pow2(bits + 1)
    requires ma < Base(la) && mb < Base(lb)
    requires op != And ==> (va >= 0 ==> vb >= 0 && lb <= la)
    requires len == if op == And then lb else la
    requires vt == NatOp(op, ma, mb) % Base(len)
    requires vmax == if SignRule(op, va < 0, vb < 0) then Pow2(bits + 1) else 0
    requires vr == vt - vmax
    ensures vr == IntOp(op, va, vb)
  {
    if op == And {
      FitsLength(op, ma, mb, la, lb, len);
    } else {
      FitsLonger(op, va, vb, ma, mb, la, lb, bits);
    }
    BitopResult(op, va, vb, bits, vt, vmax, vr);
  }

  /** Unless the longer operand is nonnegative and the shorter negative, the converted
      longer operand has at least as many limbs as the result needs. */
  lemma FitsLonger(op: Op, va: int, vb: int, ma: nat, mb: nat, la: nat, lb: nat, bits: nat)
    requires -(Pow2(bits) as int) <= va < Pow2(bits) && -(Pow2(bits) as int) <= vb < Pow2(bits)
    requires ma == va % Pow2(bits + 1) && mb == vb % Pow2(bits + 1)
    requires ma < Base(la) && mb < Base(lb)
    requires va >= 0 ==> vb >= 0 && lb <= la
    ensures NatOp(op, ma, mb) % Base(la) == NatOp(op, ma, mb)
  {
    var m := Pow2(bits + 1);
    assert m == 2 * Pow2(bits);
    BaseIsPow2(la);
    if va < 0 {
      DivUnique(va, m, -1, va + m);
      if BITS * la <= bits {
        Pow2Monotone(BITS * la, bits);
        assert false;
      }
      Pow2Monotone(bits + 1, BITS * la);
      NatOpBound(op, ma, mb, BITS * la);
    } else {
      BaseMonotone(lb, la);
      BaseIsPow2(lb);
      NatOpBound(op, ma, mb, BITS * la);
    }
    DivUnique(NatOp(op, ma, mb), Base(la), 0, NatOp(op, ma, mb));
  }

  /** 2^25 | -1 as written gives -(2^26 + 1) instead of -1: bits is 26, the converted -1 is
      2^27 - 1 with two limbs, and its upper limb is dropped. */
  method TruncatedOr() returns (r: Int)
    ensures Canonical(r) && Value(r) == -0x400_0001 && IntOp(Or, 0x200_0000, -1) == -1
  {
    var x := Int(false, [0x200_0000], 1);
    var y := Int(true, [1], 1);
    TruncatedOrInputs(x, y);
    r := BitopAsWritten(Or, x, y);
    ShiftIsPow2();
    TruncatedOrValue(Value(x), Value(y), Pow2(27), Pow2(26), 26);
    OrMinusOne(0x200_0000);
  }

  lemma TruncatedOrInputs(x: Int, y: Int)
    requires x == Int(false, [0x200_0000], 1) && y == Int(true, [1], 1)
    ensures Canonical(x) && Canonical(y) && x.len == y.len == 1
    ensures Value(x) == 0x200_0000 && Value(y) == -1 && Max(Bits(x), Bits(y)) == 26
  {
    SingleLimb(x, 0x200_0000);
    SingleLimb(y, 1);
    ShiftIsPow2();
    assert Pow2(26) == 2 * Pow2(25);
    BitLengthOfPow2(25);
    assert BitLength(1) == 1 + BitLength(0);
  }

  lemma SingleLimb(a: Int, d: int)
    requires a.val == [d] && a.len == 1 && 0 < d < SHIFT
    ensures Canonical(a) && Mag(a) == d && Bits(a) == BitLength(d)
  {
    assert a.val[..1] == [d];
    assert Val([d]) == Val([]) + d * Base(0);
  }

  lemma TruncatedOrValue(vx: int, vy: int, m: nat, b: nat, k: nat)
    requires b == Pow2(k) && m == Pow2(k + 1) && 2 * vx == b && vy == -1
    ensures NatOp(Or, vx % m, vy % m) % b - m == -(b as int) - 1
  {
    assert m == 2 * b;
    DivUnique(vx, m, 0, vx);
    DivUnique(vy, m, -1, m - 1);
    OrAllOnes(vx, k + 1);
    DivUnique(m - 1, b, 1, b - 1);
  }

  /** intAnd, over Bitop */
  method IntAnd(x: Int, y: Int) returns (r: Int)
    requires Canonical(x) && Canonical(y)
    ensures Canonical(r) && Value(r) == IntOp(And, Value(x), Value(y))
    ensures r.neg <==> x.neg && y.neg
  {
    r := Bitop(And, x, y);
  }

  /** intOr over the corrected Bitop: the as-written code truncates some results. */
  method IntOr(x: Int, y: Int) returns (r: Int)
    requires Canonical(x) && Canonical(y)
    ensures Canonical(r) && Value(r) == IntOp(Or, Value(x), Value(y))
    ensures r.neg <==> x.neg || y.neg
  {
    r := Bitop(Or, x, y);
  }

  /** intXor over the corrected Bitop: the as-written code truncates some results. */
  method IntXor(x: Int, y: Int) returns (r: Int)
    requires Canonical(x) && Canonical(y)
    ensures Canonical(r) && Value(r) == IntOp(Xor, Value(x), Value(y))
    ensures r.neg <==> x.neg != y.neg
  {
    r := Bitop(Xor, x, y);
  }

  /** intNot: intSubn(intNeg(x), 1), which is XOR with -1. */
  method IntNot(x: Int) returns (r: Int)
    requires Canonical(x)
    ensures Canonical(r) && Value(r) == -Value(x) - 1
    ensures Value(r) == IntOp(Xor, Value(x), -1)
  {
    r := Subn(Neg(x), 1);
    XorAllOnes(Value(x));
  }
}
