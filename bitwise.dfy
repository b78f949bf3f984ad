/** Bitwise AND, OR and XOR as integer functions: NatOp on nonnegative numbers, bit by bit
    from the lowest, and IntOp on all integers read in infinite two's complement, the
    meaning JavaScript's 32-bit operators and the big-integer ones are measured against. */
module Bitwise {
  import opened Arith

  datatype Op = And | Or | Xor

  /** The operation on single bits 0 and 1. */
  function BitOp(op: Op, a: int, b: int): int
  {
    match op
    case And => if a == 1 && b == 1 then 1 else 0
    case Or => if a == 1 || b == 1 then 1 else 0
    case Xor => if a != b then 1 else 0
  }

  /** The operation on the binary digits of two nonnegative numbers. */
  function NatOp(op: Op, a: nat, b: nat): nat
    decreases a + b
  {
    if a == 0 && b == 0 then 0 else 2 * NatOp(op, a / 2, b / 2) + BitOp(op, a % 2, b % 2)
  }

  lemma {:induction false} NatOpComm(op: Op, a: nat, b: nat)
    ensures NatOp(op, a, b) == NatOp(op, b, a)
    decreases a + b
  {
    if a != 0 || b != 0 {
      NatOpComm(op, a / 2, b / 2);
    }
  }

  /** Shifting left by n bits, on the values the library shifts. */
  function ShiftLeft(w: nat, n: nat): nat
  {
    w * Pow2(n)
  }

  /** Unsigned shifting right by n bits (JavaScript's >>>). */
  function ShiftRight(w: nat, n: nat): nat
  {
    QuotientNonnegative(w, Pow2(n));
    w / Pow2(n)
  }

  lemma QuotientNonnegative(a: nat, b: int)
    requires b > 0
    ensures a / b >= 0
  {
  }

  /** Zero is the unit of OR and XOR and absorbs AND. */
  lemma {:induction false} ZeroOperand(op: Op, b: nat)
    ensures NatOp(op, 0, b) == if op == And then 0 else b
  {
    if b != 0 {
      ZeroOperand(op, b / 2);
    }
  }

  /** OR of a number below 2^k with a multiple of 2^k is their sum: the bits do not
      overlap. */
  lemma {:induction false} OrDisjoint(a: nat, m: nat, k: nat)
    requires a < Pow2(k)
    ensures NatOp(Or, a, Pow2(k) * m) == a + Pow2(k) * m
  {
    if k == 0 {
      ZeroOperand(Or, m);
    } else {
      var h := Pow2(k - 1) * m;
      Doubled(Pow2(k - 1), m);
      OrDisjoint(a / 2, m, k - 1);
      OrStep(a, h, a / 2 + h);
    }
  }

  /** The same with the high part shifted in from the left, as in w << k | a. */
  lemma OrDisjointHigh(a: nat, m: nat, k: nat)
    requires a < Pow2(k)
    ensures NatOp(Or, ShiftLeft(m, k), a) == Pow2(k) * m + a
  {
    var h := Pow2(k) * m;
    assert ShiftLeft(m, k) == h;
    OrDisjoint(a, m, k);
    NatOpComm(Or, a, h);
  }

  lemma Doubled(p: nat, m: nat)
    ensures 2 * p * m == 2 * (p * m)
  {
  }

  /** One step of OR against an even number: the low bit comes from a. */
  lemma OrStep(a: nat, h: nat, rest: nat)
    requires NatOp(Or, a / 2, h) == rest
    ensures NatOp(Or, a, 2 * h) == 2 * rest + a % 2
  {
    assert (2 * h) / 2 == h && (2 * h) % 2 == 0;
  }

  /** AND with 2^k - 1 keeps the low k bits. */
  lemma {:induction false} AndLow(a: nat, k: nat)
    ensures NatOp(And, a, Pow2(k) - 1) == a % Pow2(k)
  {
    NatOpComm(And, a, Pow2(k) - 1);
    if k == 0 {
      ZeroOperand(And, a);
    } else {
      AndLow(a / 2, k - 1);
      var p := Pow2(k - 1);
      assert (Pow2(k) - 1) / 2 == p - 1 && (Pow2(k) - 1) % 2 == 1;
      LowBits(a, p);
    }
  }

  lemma LowBits(a: nat, p: nat)
    requires p >= 1
    ensures a % (2 * p) == 2 * ((a / 2) % p) + a % 2
  {
    var q, r := (a / 2) / p, (a / 2) % p;
    assert a / 2 == q * p + r;
    assert a == (2 * p) * q + (2 * r + a % 2);
    DivUnique(a, 2 * p, q, 2 * r + a % 2);
  }

  /** The bit-by-bit step of NatOp, also where both operands are zero. */
  lemma NatOpStep(op: Op, a: nat, b: nat)
    ensures NatOp(op, a, b) == 2 * NatOp(op, a / 2, b / 2) + BitOp(op, a % 2, b % 2)
  {
  }

  /** NatOp of two numbers below 2^k is below 2^k. */
  lemma {:induction false} NatOpBound(op: Op, a: nat, b: nat, k: nat)
    requires a < Pow2(k) && b < Pow2(k)
    ensures NatOp(op, a, b) < Pow2(k)
  {
    if k > 0 {
      NatOpBound(op, a / 2, b / 2, k - 1);
      NatOpStep(op, a, b);
    }
  }

  /** c shifted left by k bits, one doubling at a time. */
  function Upshift(c: nat, k: nat): nat
  {
    if k == 0 then c else 2 * Upshift(c, k - 1)
  }

  lemma {:induction false} UpshiftIsProduct(c: nat, k: nat)
    ensures Upshift(c, k) == Pow2(k) * c
  {
    if k > 0 {
      UpshiftIsProduct(c, k - 1);
    }
  }

  /** NatOp works on the low k bits and the bits above them separately: for x and y made
      of a low block a, b below 2^k and a high block c, d above it. */
  lemma {:induction false} NatOpBlock(op: Op, a: nat, b: nat, c: nat, d: nat, k: nat, x: nat, y: nat)
    requires a < Pow2(k) && b < Pow2(k)
    requires x == a + Upshift(c, k) && y == b + Upshift(d, k)
    ensures NatOp(op, x, y) == NatOp(op, a, b) + Upshift(NatOp(op, c, d), k)
  {
    if k == 0 {
      assert a == 0 && b == 0 && x == c && y == d;
      assert NatOp(op, 0, 0) == 0;
    } else {
      var u, v := Upshift(c, k - 1), Upshift(d, k - 1);
      HalfBelow(a, k);
      HalfBelow(b, k);
      NatOpBlock(op, a / 2, b / 2, c, d, k - 1, a / 2 + u, b / 2 + v);
      BlockInduction(op, a, b, c, d, k, x, y, u, v);
    }
  }

  /** The step of NatOpBlock from k - 1 to k: both sides halve to the case below. */
  lemma BlockInduction(op: Op, a: nat, b: nat, c: nat, d: nat, k: nat, x: nat, y: nat, u: nat, v: nat)
    requires k >= 1 && u == Upshift(c, k - 1) && v == Upshift(d, k - 1)
    requires x == a + 2 * u && y == b + 2 * v
    requires NatOp(op, a / 2 + u, b / 2 + v) == NatOp(op, a / 2, b / 2) + Upshift(NatOp(op, c, d), k - 1)
    ensures NatOp(op, x, y) == NatOp(op, a, b) + Upshift(NatOp(op, c, d), k)
  {
    var n := NatOp(op, c, d);
    NatOpHalves(op, x, y, a / 2 + u, b / 2 + v, a % 2, b % 2);
    NatOpHalves(op, a, b, a / 2, b / 2, a % 2, b % 2);
    BlockStep(NatOp(op, x, y), NatOp(op, a / 2 + u, b / 2 + v), NatOp(op, a, b),
      NatOp(op, a / 2, b / 2), BitOp(op, a % 2, b % 2), Upshift(n, k), Upshift(n, k - 1));
  }

  lemma HalfBelow(a: nat, k: nat)
    requires k >= 1 && a < Pow2(k)
    ensures a / 2 < Pow2(k - 1)
  {
  }

  /** NatOpStep for operands given as twice their halves plus their low bits. */
  lemma NatOpHalves(op: Op, x: nat, y: nat, x2: nat, y2: nat, lx: nat, ly: nat)
    requires lx < 2 && ly < 2 && x == 2 * x2 + lx && y == 2 * y2 + ly
    ensures NatOp(op, x, y) == 2 * NatOp(op, x2, y2) + BitOp(op, lx, ly)
  {
    assert x / 2 == x2 && x % 2 == lx && y / 2 == y2 && y % 2 == ly;
    NatOpStep(op, x, y);
  }

  /** The arithmetic of one step of NatOpBlock: both sides double and add the same bit. */
  lemma BlockStep(whole: int, half: int, low: int, lowHalf: int, bit: int, up: int, upHalf: int)
    requires whole == 2 * half + bit && low == 2 * lowHalf + bit
    requires half == lowHalf + upHalf && up == 2 * upHalf
    ensures whole == low + up
  {
  }

  lemma Split(a: nat, p: nat, lo: nat, hi: nat, s: nat)
    requires p >= 1 && lo == a % p && hi == a / p && s == p * hi
    ensures a == lo + s
  {
  }

  /** Whether the result of op is negative, from the signs of the operands: both for
      AND, either for OR, exactly one for XOR. */
  predicate SignRule(op: Op, aneg: bool, bneg: bool)
  {
    match op
    case And => aneg && bneg
    case Or => aneg || bneg
    case Xor => aneg != bneg
  }

  /** The operation on integers in infinite two's complement: bit by bit from the lowest,
      with floor halving, until both operands are 0 or -1 (all zeros or all ones). */
  function IntOp(op: Op, a: int, b: int): int
    decreases Abs(a) + Abs(b)
  {
    if (a == 0 || a == -1) && (b == 0 || b == -1) then -BitOp(op, -a, -b)
    else 2 * IntOp(op, a / 2, b / 2) + BitOp(op, a % 2, b % 2)
  }

  /** The bit-by-bit step of IntOp also holds where both operands are 0 or -1. */
  lemma IntOpStep(op: Op, a: int, b: int)
    ensures IntOp(op, a, b) == 2 * IntOp(op, a / 2, b / 2) + BitOp(op, a % 2, b % 2)
  {
    if (a == 0 || a == -1) && (b == 0 || b == -1) {
      assert a / 2 == a && a % 2 == -a && b / 2 == b && b % 2 == -b;
    }
  }

  /** On nonnegative numbers the two definitions agree. */
  lemma {:induction false} IntOpOfNat(op: Op, a: nat, b: nat)
    ensures IntOp(op, a, b) == NatOp(op, a, b)
    decreases a + b
  {
    if a != 0 || b != 0 {
      IntOpOfNat(op, a / 2, b / 2);
      IntOpStep(op, a, b);
    }
  }

  lemma {:induction false} IntOpComm(op: Op, a: int, b: int)
    ensures IntOp(op, a, b) == IntOp(op, b, a)
    decreases Abs(a) + Abs(b)
  {
    if !((a == 0 || a == -1) && (b == 0 || b == -1)) {
      IntOpComm(op, a / 2, b / 2);
    }
  }

  /** The sign of the result follows SignRule. */
  lemma {:induction false} IntOpSign(op: Op, a: int, b: int)
    ensures IntOp(op, a, b) < 0 <==> SignRule(op, a < 0, b < 0)
    decreases Abs(a) + Abs(b)
  {
    if !((a == 0 || a == -1) && (b == 0 || b == -1)) {
      IntOpSign(op, a / 2, b / 2);
      assert (a / 2 < 0 <==> a < 0) && (b / 2 < 0 <==> b < 0);
    }
  }

  /** NOT is XOR with -1, all of whose bits are set: -a - 1. */
  lemma {:induction false} XorAllOnes(a: int)
    ensures IntOp(Xor, a, -1) == -a - 1
    decreases Abs(a)
  {
    if a != 0 && a != -1 {
      XorAllOnes(a / 2);
    }
  }

  /** Two's complement in n + 1 bits: for operands in [-2^n, 2^n) the result lies there
      too, and its residue modulo 2^(n+1) is NatOp of the operands' residues. */
  lemma {:induction false} TwosComplement(op: Op, a: int, b: int, n: nat)
    requires -(Pow2(n) as int) <= a < Pow2(n) && -(Pow2(n) as int) <= b < Pow2(n)
    ensures -(Pow2(n) as int) <= IntOp(op, a, b) < Pow2(n)
    ensures NatOp(op, a % Pow2(n + 1), b % Pow2(n + 1)) == IntOp(op, a, b) % Pow2(n + 1)
    decreases n
  {
    if n == 0 {
      TwosBase(op, a, b);
    } else {
      assert Pow2(n) == 2 * Pow2(n - 1);
      TwosComplement(op, a / 2, b / 2, n - 1);
      assert n - 1 + 1 == n;
      TwosStep(op, a, b, n);
    }
  }

  lemma TwosBase(op: Op, a: int, b: int)
    requires -1 <= a < 1 && -1 <= b < 1
    ensures -1 <= IntOp(op, a, b) < 1
    ensures NatOp(op, a % Pow2(1), b % Pow2(1)) == IntOp(op, a, b) % Pow2(1)
  {
    assert Pow2(1) == 2;
    var t := BitOp(op, -a, -b);
    assert IntOp(op, a, b) == -t;
    NatOpDouble(op, -a, -b, -a, -b, 0, 0);
    assert NatOp(op, 0, 0) == 0;
    assert a % 2 == -a && b % 2 == -b && (-t) % 2 == t;
  }

  lemma TwosStep(op: Op, a: int, b: int, n: nat)
    requires n >= 1
    requires -(Pow2(n) as int) <= a < Pow2(n) && -(Pow2(n) as int) <= b < Pow2(n)
    requires -(Pow2(n - 1) as int) <= IntOp(op, a / 2, b / 2) < Pow2(n - 1)
    requires NatOp(op, (a / 2) % Pow2(n), (b / 2) % Pow2(n)) == IntOp(op, a / 2, b / 2) % Pow2(n)
    ensures -(Pow2(n) as int) <= IntOp(op, a, b) < Pow2(n)
    ensures NatOp(op, a % Pow2(n + 1), b % Pow2(n + 1)) == IntOp(op, a, b) % Pow2(n + 1)
  {
    var p, m := Pow2(n), Pow2(n + 1);
    assert m == 2 * p && p == 2 * Pow2(n - 1);
    var r, bit := IntOp(op, a / 2, b / 2), BitOp(op, a % 2, b % 2);
    IntOpStep(op, a, b);
    LowBitsInt(a, p);
    LowBitsInt(b, p);
    NatOpDouble(op, a % m, b % m, a % 2, b % 2, (a / 2) % p, (b / 2) % p);
    assert (2 * r + bit) / 2 == r && (2 * r + bit) % 2 == bit;
    LowBitsInt(2 * r + bit, p);
  }

  /** NatOp on numbers given by their halves and their lowest bits. */
  lemma NatOpDouble(op: Op, a: nat, b: nat, a0: nat, b0: nat, x: nat, y: nat)
    requires a0 < 2 && b0 < 2 && a == 2 * x + a0 && b == 2 * y + b0
    ensures NatOp(op, a, b) == 2 * NatOp(op, x, y) + BitOp(op, a0, b0)
  {
    assert a / 2 == x && a % 2 == a0 && b / 2 == y && b % 2 == b0;
    NatOpStep(op, a, b);
  }

  /** The low bits of an integer of either sign, modulo 2p, from those of its floor half. */
  lemma LowBitsInt(a: int, p: nat)
    requires p >= 1
    ensures a % (2 * p) == 2 * ((a / 2) % p) + a % 2
    ensures (a % (2 * p)) / 2 == (a / 2) % p && (a % (2 * p)) % 2 == a % 2
  {
    var q, r := (a / 2) / p, (a / 2) % p;
    assert a / 2 == q * p + r;
    assert a == (2 * p) * q + (2 * r + a % 2);
    DivUnique(a, 2 * p, q, 2 * r + a % 2);
    DivUnique(2 * r + a % 2, 2, r, a % 2);
  }

  /** A number in [-2^n, 2^n) is recovered from its residue modulo 2^(n+1) by taking off
      2^(n+1) when the residue reaches 2^n. */
  lemma FromResidue(v: int, n: nat)
    requires -(Pow2(n) as int) <= v < Pow2(n)
    ensures v < 0 <==> v % Pow2(n + 1) >= Pow2(n)
    ensures v == v % Pow2(n + 1) - (if v < 0 then Pow2(n + 1) else 0)
  {
    var m := Pow2(n + 1);
    if v < 0 {
      DivUnique(v, m, -1, v + m);
    } else {
      DivUnique(v, m, 0, v);
    }
  }

  /** ibitop's recipe: for operands in [-2^n, 2^n), apply NatOp to the residues modulo
      2^(n+1) and take off 2^(n+1) when the sign rule says the result is negative. */
  lemma ViaResidues(op: Op, a: int, b: int, n: nat)
    requires -(Pow2(n) as int) <= a < Pow2(n) && -(Pow2(n) as int) <= b < Pow2(n)
    ensures IntOp(op, a, b)
         == NatOp(op, a % Pow2(n + 1), b % Pow2(n + 1)) - (if SignRule(op, a < 0, b < 0) then Pow2(n + 1) else 0)
  {
    TwosComplement(op, a, b, n);
    IntOpSign(op, a, b);
    FromResidue(IntOp(op, a, b), n);
  }

  /** AND never exceeds either operand. */
  lemma {:induction false} AndAtMost(a: nat, b: nat)
    ensures NatOp(And, a, b) <= b
    decreases a + b
  {
    if a != 0 || b != 0 {
      AndAtMost(a / 2, b / 2);
    }
  }

  /** OR with all of the low k bits set, of a number below 2^k, sets exactly those. */
  lemma {:induction false} OrAllOnes(a: nat, k: nat)
    requires a < Pow2(k)
    ensures NatOp(Or, a, Pow2(k) - 1) == Pow2(k) - 1
  {
    if k == 0 {
      ZeroOperand(Or, 0);
    } else {
      var p := Pow2(k - 1);
      assert (Pow2(k) - 1) / 2 == p - 1 && (Pow2(k) - 1) % 2 == 1;
      OrAllOnes(a / 2, k - 1);
    }
  }

  /** OR with -1, all of whose bits are set, is -1. */
  lemma {:induction false} OrMinusOne(a: int)
    ensures IntOp(Or, a, -1) == -1
    decreases Abs(a)
  {
    if a != 0 && a != -1 {
      OrMinusOne(a / 2);
    }
  }
}
