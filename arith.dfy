/** Integer facts shared by the limb engine and the small-integer layer:
    powers of two and the two division conventions of the library. */
module Arith {

  function Abs(x: int): nat { if x < 0 then -x else x }

  function Min(a: int, b: int): int { if a < b then a else b }

  function Max(a: int, b: int): int { if a < b then b else a }

  function Pow2(n: nat): (r: nat)
    ensures r >= 1
  {
    if n == 0 then 1 else 2 * Pow2(n - 1)
  }

  lemma {:induction false} Pow2Add(a: nat, b: nat)
    ensures Pow2(a + b) == Pow2(a) * Pow2(b)
  {
    if a > 0 {
      Pow2Add(a - 1, b);
      assert Pow2(a + b) == 2 * Pow2(a - 1 + b);
    }
  }

  lemma {:induction false} Pow2Monotone(a: nat, b: nat)
    requires a <= b
    ensures Pow2(a) <= Pow2(b)
  {
    if a < b {
      Pow2Monotone(a, b - 1);
    }
  }

  /** Floor division: the quotient rounded toward negative infinity. */
  function FloorDiv(a: int, b: int): int
    requires b != 0
  {
    if b > 0 then a / b else (-a) / (-b)
  }

  function FloorMod(a: int, b: int): int
    requires b != 0
  {
    a - b * FloorDiv(a, b)
  }

  /** Truncating division: the quotient rounded toward zero. */
  function TruncDiv(a: int, b: int): int
    requires b != 0
  {
    if (a < 0) == (b < 0) then Abs(a) / Abs(b) else -(Abs(a) / Abs(b))
  }

  function TruncRem(a: int, b: int): int
    requires b != 0
  {
    a - b * TruncDiv(a, b)
  }

  /** The floor division law: the remainder is zero or signed like the divisor. */
  lemma FloorDivLaw(a: int, b: int)
    requires b != 0
    ensures a == FloorDiv(a, b) * b + FloorMod(a, b)
    ensures Abs(FloorMod(a, b)) < Abs(b)
    ensures FloorMod(a, b) == 0 || (FloorMod(a, b) < 0) == (b < 0)
  {
  }

  /** The floor division law determines the quotient and the remainder. */
  lemma FloorDivUnique(a: int, b: int, q: int, r: int)
    requires b != 0
    requires a == q * b + r && Abs(r) < Abs(b)
    requires r == 0 || (r < 0) == (b < 0)
    ensures q == FloorDiv(a, b) && r == FloorMod(a, b)
  {
    if b > 0 {
      DivUnique(a, b, q, r);
    } else {
      assert -a == q * -b + -r;
      DivUnique(-a, -b, q, -r);
    }
  }

  /** The truncating division law: the remainder is zero or signed like the dividend. */
  lemma TruncDivLaw(a: int, b: int)
    requires b != 0
    ensures a == TruncDiv(a, b) * b + TruncRem(a, b)
    ensures Abs(TruncRem(a, b)) < Abs(b)
    ensures TruncRem(a, b) == 0 || (TruncRem(a, b) < 0) == (a < 0)
    ensures Abs(TruncDiv(a, b)) <= Abs(a)
  {
    var q: int, r: int := Abs(a) / Abs(b), Abs(a) % Abs(b);
    SignedRemainder(a, b, q, r, TruncDiv(a, b));
  }

  lemma SignedRemainder(a: int, b: int, q: int, r: int, t: int)
    requires b != 0 && Abs(a) == q * Abs(b) + r && 0 <= q && 0 <= r < Abs(b)
    requires t == if (a < 0) == (b < 0) then q else -q
    ensures a - b * t == if a < 0 then -r else r
    ensures a == t * b + (a - b * t)
    ensures Abs(t) <= Abs(a)
  {
    MulNeg(q, Abs(b));
    MulAtLeastOrZero(q, Abs(b));
  }

  lemma MulNeg(x: int, y: int)
    ensures x * -y == -(x * y) && -x * y == -(x * y) && -x * -y == x * y
  {
  }

  /** The truncating division law determines the quotient and the remainder. */
  lemma TruncDivUnique(a: int, b: int, q: int, r: int)
    requires b != 0
    requires a == q * b + r && Abs(r) < Abs(b)
    requires r == 0 || (r < 0) == (a < 0)
    ensures q == TruncDiv(a, b) && r == TruncRem(a, b)
  {
    TruncQuotient(a, b, q, r);
  }

  lemma TruncQuotient(a: int, b: int, q: int, r: int)
    requires b != 0
    requires a == q * b + r && Abs(r) < Abs(b)
    requires r == 0 || (r < 0) == (a < 0)
    ensures q == TruncDiv(a, b)
  {
    if a < 0 && b < 0 {
      NegateAll(a, b, q, r);
      DivUnique(-a, -b, q, -r);
    } else if a < 0 {
      NegateAll(a, b, q, r);
      DivUnique(-a, b, -q, -r);
    } else if b < 0 {
      NegateAll(a, b, q, r);
      DivUnique(a, -b, -q, r);
    } else {
      DivUnique(a, b, q, r);
    }
  }

  lemma NegateAll(a: int, b: int, q: int, r: int)
    requires a == q * b + r
    ensures -a == q * -b + -r && -a == -q * b + -r && a == -q * -b + r
  {
    MulNeg(q, b);
  }

  lemma MulAtLeastOrZero(q: nat, b: nat)
    requires b >= 1
    ensures q * b >= q
  {
    if q > 0 {
      MulAtLeast(b, q);
    }
  }

  /** Euclidean division by a positive divisor has a unique quotient and remainder. */
  lemma DivUnique(a: int, b: int, q: int, r: int)
    requires b > 0 && a == q * b + r && 0 <= r < b
    ensures q == a / b && r == a % b
  {
    var q0, r0 := a / b, a % b;
    assert a == q0 * b + r0;
    MulSub(q, q0, b);
    assert (q - q0) * b == r0 - r;
    if q > q0 {
      MulAtLeast(q - q0, b);
    } else if q < q0 {
      MulSub(q0, q, b);
      MulAtLeast(q0 - q, b);
    }
  }

  lemma MulSub(x: int, y: int, b: int)
    ensures (x - y) * b == x * b - y * b
  {
  }

  lemma MulAtLeast(k: int, b: int)
    requires k >= 1 && b >= 0
    ensures k * b >= b
  {
    assert k * b == (k - 1) * b + b;
  }

  /** Dividing in two steps equals dividing by the product. */
  lemma DivDiv(a: int, b: int, c: int)
    requires b > 0 && c > 0
    ensures a / b / c == a / (b * c)
  {
    var q1, r1 := a / b, a % b;
    var q2, r2 := q1 / c, q1 % c;
    var bc := b * c;
    var low := r2 * b + r1;
    NestedDivision(a, b, c, q1, r1, q2, r2);
    assert a == q2 * bc + low;
    RemainderBelow(r1, r2, b, c);
    DivUnique(a, bc, q2, low);
  }

  lemma NestedDivision(a: int, b: int, c: int, q1: int, r1: int, q2: int, r2: int)
    requires a == q1 * b + r1 && q1 == q2 * c + r2
    ensures a == q2 * (b * c) + (r2 * b + r1)
  {
    MulAssoc3(q2, c, b);
  }

  lemma MulAssoc3(x: int, y: int, z: int)
    ensures (x * y + z) * 1 == x * y + z
    ensures (x * y) * z == x * (z * y)
  {
  }

  lemma RemainderBelow(r1: int, r2: int, b: int, c: int)
    requires 0 <= r1 < b && 0 <= r2 < c
    ensures 0 <= r2 * b + r1 < b * c
  {
    MulLe(r2 + 1, c, b);
  }

  lemma MulLe(a: int, b: int, c: int)
    requires a <= b && c >= 0
    ensures a * c <= b * c
  {
    MulSub(b, a, c);
    assert (b - a) * c >= 0;
  }

  /** The identity the engine uses to shift negative values right:
      floor(x / d) == -floor((-(x + 1)) / d) - 1 for negative x. */
  lemma FloorOfNegative(x: int, d: int)
    requires x < 0 && d > 0
    ensures x / d == -((-(x + 1)) / d) - 1
  {
    var n := -(x + 1);
    var q, r := n / d, n % d;
    assert x == (-q - 1) * d + (d - r - 1);
    DivUnique(x, d, -q - 1, d - r - 1);
  }

  /** The number of significant bits of n (32 - clz32(n) for a 32-bit n). */
  function BitLength(n: nat): (r: nat)
    ensures n < Pow2(r)
    ensures n > 0 ==> r >= 1 && Pow2(r - 1) <= n
    ensures n == 0 ==> r == 0
  {
    if n == 0 then 0 else 1 + BitLength(n / 2)
  }

  /** A number below 2^k has at most k bits. */
  lemma {:induction false} BitLengthBelow(n: nat, k: nat)
    requires n < Pow2(k)
    ensures BitLength(n) <= k
  {
    if n > 0 {
      assert k >= 1;
      BitLengthBelow(n / 2, k - 1);
    }
  }

  lemma {:induction false} BitLengthOfPow2(k: nat)
    ensures BitLength(Pow2(k)) == k + 1
  {
    if k > 0 {
      BitLengthOfPow2(k - 1);
      assert Pow2(k) / 2 == Pow2(k - 1);
    }
  }
}
