/** Consequences of NatOpBlock for numbers cut into a low and a high block of bits; kept
    in a module of their own, where the solver handles them cheaply. */
module BitBlocks {
  import opened Arith
  import opened Bitwise

  /** NatOp applied separately to the bits above k and to the low k bits. */
  lemma NatOpSplit(op: Op, a: nat, b: nat, k: nat)
    ensures NatOp(op, a, b)
         == NatOp(op, a % Pow2(k), b % Pow2(k)) + Upshift(NatOp(op, ShiftRight(a, k), ShiftRight(b, k)), k)
  {
    var p := Pow2(k);
    var a0, a1, b0, b1 := a % p, ShiftRight(a, k), b % p, ShiftRight(b, k);
    UpshiftIsProduct(a1, k);
    UpshiftIsProduct(b1, k);
    Split(a, p, a0, a1, Upshift(a1, k));
    Split(b, p, b0, b1, Upshift(b1, k));
    NatOpBlock(op, a0, b0, a1, b1, k, a, b);
  }

  /** The low k bits of NatOp(a, b) depend only on the low k bits of a and b. */
  lemma NatOpLow(op: Op, a: nat, b: nat, k: nat)
    ensures NatOp(op, a % Pow2(k), b % Pow2(k)) == NatOp(op, a, b) % Pow2(k)
  {
    var p := Pow2(k);
    var lo, hi := NatOp(op, a % p, b % p), NatOp(op, ShiftRight(a, k), ShiftRight(b, k));
    NatOpSplit(op, a, b, k);
    NatOpBound(op, a % p, b % p, k);
    UpshiftIsProduct(hi, k);
    DivUnique(NatOp(op, a, b), p, hi, lo);
  }

  /** The recipe with the sign kept apart: for operands in [-2^n, 2^n), apply NatOp to
      the residues modulo 2^n and take off 2^n when the sign rule says the result is
      negative. */
  lemma ViaLowResidues(op: Op, a: int, b: int, n: nat)
    requires -(Pow2(n) as int) <= a < Pow2(n) && -(Pow2(n) as int) <= b < Pow2(n)
    ensures IntOp(op, a, b)
         == NatOp(op, a % Pow2(n), b % Pow2(n)) - (if SignRule(op, a < 0, b < 0) then Pow2(n) else 0)
  {
    var p, q := Pow2(n), Pow2(n + 1);
    assert q == 2 * p;
    var v := IntOp(op, a, b);
    TwosComplement(op, a, b, n);
    NatOpLow(op, a % q, b % q, n);
    ModOfDouble(a, p);
    ModOfDouble(b, p);
    ModOfDouble(v, p);
    IntOpSign(op, a, b);
    if v < 0 {
      DivUnique(v, p, -1, v + p);
    } else {
      DivUnique(v, p, 0, v);
    }
  }

  lemma ModOfDouble(x: int, p: nat)
    requires p >= 1
    ensures (x % (2 * p)) % p == x % p
  {
    var q, r := x / (2 * p), x % (2 * p);
    assert x == p * (2 * q + r / p) + r % p by {
      assert x == (2 * p) * q + r;
      assert r == p * (r / p) + r % p;
    }
    DivUnique(x, p, 2 * q + r / p, r % p);
  }
}
