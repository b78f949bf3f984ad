/** smallopt.js: a layer over a big-integer backend B that keeps an integer as a plain
    JavaScript number while its magnitude stays below 2^53, where doubles hold every
    integer exactly, and hands everything else to B. A number never comes back from B:
    once an operand is a backend value, so is the result.

    B is known here only through the exact integers its values denote, so its values are
    modelled as Big(b) and each of its operations by the exact result. */
module SmallOpt {
  import opened Arith
  import opened Bitwise
  import opened BitBlocks
  import opened Numerals
  import Limbs
  import MinimalText

  /** The precision of a double, the divisor that splits off the upper bits in ibitop,
      and the bound of the numbers the layer keeps. */
  const BITS: nat := 53
  const DIV: nat := 0x1_0000_0000
  const MAX: nat := 0x20_0000_0000_0000

  lemma Constants()
    ensures MAX == Pow2(BITS) && DIV == Pow2(32)
  {
    Limbs.ShiftIsPow2();
    Pow2Add(26, 27);
    Pow2Add(26, 6);
    assert Pow2(27) == 2 * Pow2(26);
  }

  /** A value of the layer: a JavaScript number holding an integer, or a value of B. */
  datatype Value = Num(n: int) | Big(b: int)

  /** The integer a value stands for. */
  function Denoted(x: Value): int
  {
    match x
    case Num(n) => n
    case Big(b) => b
  }

  predicate IsSafe(n: int)
  {
    -(MAX as int) < n < MAX
  }

  /** The invariant of the layer: numbers lie strictly inside (-2^53, 2^53). */
  predicate Valid(x: Value)
  {
    x.Num? ==> IsSafe(x.n)
  }

  /** What I accepts: a number or a string of hexadecimal digits. */
  datatype Input = Number(n: int) | Text(s: string)

  /** I: a number is kept as it is, a string goes to B.I. */
  function I(x: Input): (r: Value)
    requires x.Number? ==> IsSafe(x.n)
    requires x.Text? ==> MinimalText.WellFormedHex(x.s)
    ensures Valid(r) && (r.Num? <==> x.Number?)
    ensures Denoted(r) == match x
      case Number(n) => n
      case Text(s) => HexNumeral(s)
  {
    match x
    case Number(n) => Num(n)
    case Text(s) => Big(HexNumeral(s))
  }

  /** wrap: a number goes to B through B.I; a backend value stays as it is. */
  function Wrap(x: Value): (r: Value)
    ensures r.Big? && Denoted(r) == Denoted(x)
    ensures x.Big? ==> r == x
  {
    if x.Num? then Big(x.n) else x
  }

  /** B.intCmp on the integers its arguments denote. */
  function BackendCmp(a: int, b: int): int
  {
    if a < b then -1 else if a == b then 0 else 1
  }

  /** intCmp: (x > y) - (x < y) on two numbers, B.intCmp otherwise. */
  function Cmp(x: Value, y: Value): (r: int)
    ensures -1 <= r <= 1
    ensures r < 0 <==> Denoted(x) < Denoted(y)
    ensures r == 0 <==> Denoted(x) == Denoted(y)
  {
    if x.Num? && y.Num? then
      (if x.n > y.n then 1 else 0) - (if x.n < y.n then 1 else 0)
    else
      BackendCmp(Wrap(x).b, Wrap(y).b)
  }

  /** intAdd: the sum of two numbers when it lies inside the range, B.intAdd of the
      wrapped operands otherwise. */
  function Add(x: Value, y: Value): (r: Value)
    requires Valid(x) && Valid(y)
    ensures Valid(r) && Denoted(r) == Denoted(x) + Denoted(y)
    ensures r.Num? <==> x.Num? && y.Num? && IsSafe(x.n + y.n)
  {
    if x.Num? && y.Num? && IsSafe(x.n + y.n) then Num(x.n + y.n)
    else Big(Wrap(x).b + Wrap(y).b)
  }

  /** intSub */
  function Sub(x: Value, y: Value): (r: Value)
    requires Valid(x) && Valid(y)
    ensures Valid(r) && Denoted(r) == Denoted(x) - Denoted(y)
    ensures r.Num? <==> x.Num? && y.Num? && IsSafe(x.n - y.n)
  {
    if x.Num? && y.Num? && IsSafe(x.n - y.n) then Num(x.n - y.n)
    else Big(Wrap(x).b - Wrap(y).b)
  }

  /** intMul */
  function Mul(x: Value, y: Value): (r: Value)
    requires Valid(x) && Valid(y)
    ensures Valid(r) && Denoted(r) == Denoted(x) * Denoted(y)
    ensures r.Num? <==> x.Num? && y.Num? && IsSafe(x.n * y.n)
  {
    if x.Num? && y.Num? && IsSafe(x.n * y.n) then Num(x.n * y.n)
    else Big(Wrap(x).b * Wrap(y).b)
  }

  /** intDiv: Math.floor(x / y) on two numbers. */
  function Div(x: Value, y: Value): (r: Value)
    requires Valid(x) && Valid(y) && Denoted(y) != 0
    ensures Valid(r) && Denoted(r) == FloorDiv(Denoted(x), Denoted(y))
    ensures r.Num? <==> x.Num? && y.Num?
  {
    if x.Num? && y.Num? then
      FloorDivBound(x.n, y.n);
      Num(FloorDiv(x.n, y.n))
    else
      Big(FloorDiv(Wrap(x).b, Wrap(y).b))
  }

  /** Floor division by a nonzero integer does not grow the magnitude. */
  lemma FloorDivBound(a: int, b: int)
    requires b != 0
    ensures Abs(FloorDiv(a, b)) <= Abs(a)
  {
    if b > 0 {
      QuotientBound(a, b);
    } else {
      QuotientBound(-a, -b);
    }
  }

  lemma QuotientBound(c: int, d: int)
    requires d >= 1
    ensures Abs(c / d) <= Abs(c)
  {
    QuotientBelow(c, d, c / d, c % d);
  }

  lemma QuotientBelow(c: int, d: int, q: int, r: int)
    requires d >= 1 && c == q * d + r && 0 <= r < d
    ensures Abs(q) <= Abs(c)
  {
    if q >= 0 {
      MulAtLeastOrZero(q, d);
    } else {
      var p := -q;
      var e := (p - 1) * d;
      MulAtLeastOrZero(p - 1, d);
      assert q * d == -(e + d) by {
        MulSub(p, 1, d);
        MulNeg(p, d);
      }
    }
  }

  /** intMod on two numbers: JavaScript's remainder x % y, which has the sign of x, moved
      by y when it is nonzero and signed unlike y. */
  function SmallMod(a: int, b: int): (m: int)
    requires b != 0
    ensures m == FloorMod(a, b)
  {
    var t := TruncRem(a, b);
    TruncToFloor(a, b);
    if t == 0 || (t < 0) == (b < 0) then t else t + b
  }

  /** The floor remainder from the truncated one. */
  lemma TruncToFloor(a: int, b: int)
    requires b != 0
    ensures var t := TruncRem(a, b);
      FloorMod(a, b) == if t == 0 || (t < 0) == (b < 0) then t else t + b
  {
    TruncDivLaw(a, b);
    var q, t := TruncDiv(a, b), TruncRem(a, b);
    if t == 0 || (t < 0) == (b < 0) {
      FloorDivUnique(a, b, q, t);
    } else {
      assert a == (q - 1) * b + (t + b);
      FloorDivUnique(a, b, q - 1, t + b);
    }
  }

  /** intMod */
  function Mod(x: Value, y: Value): (r: Value)
    requires Valid(x) && Valid(y) && Denoted(y) != 0
    ensures Valid(r) && Denoted(r) == FloorMod(Denoted(x), Denoted(y))
    ensures r.Num? <==> x.Num? && y.Num?
  {
    if x.Num? && y.Num? then
      FloorDivLaw(x.n, y.n);
      Num(SmallMod(x.n, y.n))
    else
      Big(FloorMod(Wrap(x).b, Wrap(y).b))
  }

  /** intQuot on two numbers: 0 for x = 0, otherwise floor(x / y) when the signs agree
      and -floor(-x / y) when they differ. */
  function SmallQuot(a: int, b: int): (q: int)
    requires b != 0
    ensures q == TruncDiv(a, b)
  {
    if a == 0 then 0
    else if (a < 0) == (b < 0) then FloorDiv(a, b)
    else -FloorDiv(-a, b)
  }

  /** intQuot */
  function Quot(x: Value, y: Value): (r: Value)
    requires Valid(x) && Valid(y) && Denoted(y) != 0
    ensures Valid(r) && Denoted(r) == TruncDiv(Denoted(x), Denoted(y))
    ensures r.Num? <==> x.Num? && y.Num?
  {
    if x.Num? && y.Num? then
      TruncDivLaw(x.n, y.n);
      Num(SmallQuot(x.n, y.n))
    else
      Big(TruncDiv(Wrap(x).b, Wrap(y).b))
  }

  /** intRem: JavaScript's x % y on two numbers. */
  function Rem(x: Value, y: Value): (r: Value)
    requires Valid(x) && Valid(y) && Denoted(y) != 0
    ensures Valid(r) && Denoted(r) == TruncRem(Denoted(x), Denoted(y))
    ensures r.Num? <==> x.Num? && y.Num?
  {
    if x.Num? && y.Num? then
      TruncDivLaw(x.n, y.n);
      Num(TruncRem(x.n, y.n))
    else
      Big(TruncRem(Wrap(x).b, Wrap(y).b))
  }

  /** intDiv and intMod together: x == div * y + mod, with mod zero or signed like y and
      smaller than y in magnitude. */
  lemma DivModLaw(x: Value, y: Value)
    requires Valid(x) && Valid(y) && Denoted(y) != 0
    ensures var d, m := Denoted(Div(x, y)), Denoted(Mod(x, y));
      && Denoted(x) == d * Denoted(y) + m
      && Abs(m) < Abs(Denoted(y))
      && (m == 0 || (m < 0) == (Denoted(y) < 0))
  {
    FloorDivLaw(Denoted(x), Denoted(y));
  }

  /** intQuot and intRem together: x == quot * y + rem, with rem zero or signed like x and
      smaller than y in magnitude. */
  lemma QuotRemLaw(x: Value, y: Value)
    requires Valid(x) && Valid(y) && Denoted(y) != 0
    ensures var q, m := Denoted(Quot(x, y)), Denoted(Rem(x, y));
      && Denoted(x) == q * Denoted(y) + m
      && Abs(m) < Abs(Denoted(y))
      && (m == 0 || (m < 0) == (Denoted(x) < 0))
  {
    TruncDivLaw(Denoted(x), Denoted(y));
  }

  /** intShl: a number stays one when y < 53 and the product lies inside the range;
      otherwise B.intShl(wrap(x), y). */
  function Shl(x: Value, y: nat): (r: Value)
    requires Valid(x)
    ensures Valid(r) && Denoted(r) == Denoted(x) * Pow2(y)
    ensures r.Num? <==> x.Num? && y < BITS && IsSafe(x.n * Pow2(y))
  {
    if x.Num? && y < BITS && IsSafe(x.n * Pow2(y)) then Num(x.n * Pow2(y))
    else Big(Wrap(x).b * Pow2(y))
  }

  /** The test y < 53 in intShl only ever sends zero to B needlessly: any other number
      shifted by 53 or more bits leaves the range. */
  lemma ShlGuard(n: int, y: nat)
    requires n != 0 && y >= BITS
    ensures !IsSafe(n * Pow2(y))
  {
    Constants();
    Pow2Monotone(BITS, y);
    if n > 0 {
      MulAtLeast(n, Pow2(y));
    } else {
      MulAtLeast(-n, Pow2(y));
      assert (-n) * Pow2(y) == -(n * Pow2(y));
    }
  }

  /** intShr on a number: -1 or 0 by the sign when y > 53, Math.floor(x / 2^y) otherwise. */
  function SmallShr(n: int, y: nat): (r: int)
    requires IsSafe(n)
    ensures r == FloorDiv(n, Pow2(y)) && IsSafe(r)
  {
    FloorDivBound(n, Pow2(y));
    if y > BITS then
      ShrBeyond(n, y);
      if n < 0 then -1 else 0
    else
      FloorDiv(n, Pow2(y))
  }

  /** Shifting a number of the range right by more than 53 bits leaves only its sign. */
  lemma ShrBeyond(n: int, y: nat)
    requires IsSafe(n) && y > BITS
    ensures FloorDiv(n, Pow2(y)) == if n < 0 then -1 else 0
  {
    Constants();
    Pow2Monotone(BITS, y);
    if n < 0 {
      DivUnique(n, Pow2(y), -1, n + Pow2(y));
    } else {
      DivUnique(n, Pow2(y), 0, n);
    }
  }

  /** intShr: a backend x goes to B.intShr unwrapped. */
  function Shr(x: Value, y: nat): (r: Value)
    requires Valid(x)
    ensures Valid(r) && Denoted(r) == FloorDiv(Denoted(x), Pow2(y))
    ensures r.Num? <==> x.Num?
  {
    if x.Num? then Num(SmallShr(x.n, y)) else Big(FloorDiv(x.b, Pow2(y)))
  }

  /** intNeg */
  function Neg(x: Value): (r: Value)
    requires Valid(x)
    ensures Valid(r) && Denoted(r) == -Denoted(x)
    ensures r.Num? <==> x.Num?
  {
    if x.Num? then Num(-x.n) else Big(-x.b)
  }

  /** ibitop on two numbers of the range, as smallopt.js writes it: a negative operand is
      moved up by 2^53; the bits from 32 up and the low 32 bits are combined separately
      (dividing by 2^32 and the 32-bit operators followed by >>> 0) and put together again;
      2^53 is taken off when the sign rule says the result is negative. */
  function SmallBitop(op: Op, a: int, b: int): (r: int)
    requires IsSafe(a) && IsSafe(b)
    ensures r == IntOp(op, a, b) && -(MAX as int) <= r < MAX
  {
    var s, ys := a < 0, b < 0;
    var x: nat := if s then a + MAX else a;
    var y: nat := if ys then b + MAX else b;
    var z := NatOp(op, x / DIV, y / DIV) * DIV + NatOp(op, x % DIV, y % DIV);
    SmallBitopValue(op, a, b, x, y, z);
    if SignRule(op, s, ys) then z - MAX else z
  }

  lemma SmallBitopValue(op: Op, a: int, b: int, x: nat, y: nat, z: int)
    requires IsSafe(a) && IsSafe(b)
    requires x == (if a < 0 then a + MAX else a) && y == (if b < 0 then b + MAX else b)
    requires z == NatOp(op, x / DIV, y / DIV) * DIV + NatOp(op, x % DIV, y % DIV)
    ensures (if SignRule(op, a < 0, b < 0) then z - MAX else z) == IntOp(op, a, b)
    ensures -(MAX as int) <= IntOp(op, a, b) < MAX
  {
    Constants();
    Residue(a, x);
    Residue(b, y);
    var hi := NatOp(op, x / DIV, y / DIV);
    NatOpSplit(op, x, y, 32);
    UpshiftIsProduct(hi, 32);
    assert hi * DIV == DIV * hi;
    ViaLowResidues(op, a, b, BITS);
    TwosComplement(op, a, b, BITS);
  }

  lemma Residue(a: int, x: int)
    requires IsSafe(a) && x == if a < 0 then a + MAX else a
    ensures x == a % MAX
  {
    if a < 0 {
      DivUnique(a, MAX, -1, x);
    } else {
      DivUnique(a, MAX, 0, x);
    }
  }

  /** The bitwise operations as smallopt.js dispatches them: ibitop on two numbers, B
      otherwise. The value is exact, but AND and XOR of two numbers can give -2^53, which
      lies outside the range. */
  function BitopAsWritten(op: Op, x: Value, y: Value): (r: Value)
    requires Valid(x) && Valid(y)
    ensures Denoted(r) == IntOp(op, Denoted(x), Denoted(y))
    ensures r.Num? <==> x.Num? && y.Num?
    ensures r.Num? ==> -(MAX as int) <= r.n < MAX
  {
    if x.Num? && y.Num? then Num(SmallBitop(op, x.n, y.n))
    else Big(IntOp(op, Wrap(x).b, Wrap(y).b))
  }

  /** -(2^53 - 1) & -(2^53 - 2) is -2^53, and the layer keeps it as a number. */
  lemma BitopLeavesRange()
    ensures BitopAsWritten(And, Num(-(MAX - 1)), Num(-(MAX - 2))) == Num(-(MAX as int))
    ensures !Valid(Num(-(MAX as int)))
  {
    var x, y := MAX - (MAX - 1), MAX - (MAX - 2);
    assert x / DIV == 0 && y / DIV == 0 && x % DIV == 1 && y % DIV == 2;
    assert NatOp(And, 0, 0) == 0;
    assert NatOp(And, 1, 2) == 2 * NatOp(And, 0, 1) + BitOp(And, 1, 0);
    assert NatOp(And, 0, 1) == 2 * NatOp(And, 0, 0) + BitOp(And, 0, 1);
  }

  /** The bitwise operations corrected: the result -2^53 goes to B, as intAdd, intSub and
      intMul do with results outside the range. BitopAsWritten is the code as written. */
  function Bitop(op: Op, x: Value, y: Value): (r: Value)
    requires Valid(x) && Valid(y)
    ensures Valid(r) && Denoted(r) == IntOp(op, Denoted(x), Denoted(y))
    ensures r.Num? <==> x.Num? && y.Num? && IsSafe(Denoted(r))
    ensures Denoted(r) != -(MAX as int) ==> r == BitopAsWritten(op, x, y)
  {
    if x.Num? && y.Num? && SmallBitop(op, x.n, y.n) != -(MAX as int) then
      Num(SmallBitop(op, x.n, y.n))
    else
      Big(IntOp(op, Denoted(x), Denoted(y)))
  }

  /** intAnd over the corrected Bitop: negative exactly when both operands are. */
  function IntAnd(x: Value, y: Value): (r: Value)
    requires Valid(x) && Valid(y)
    ensures Valid(r) && Denoted(r) == IntOp(And, Denoted(x), Denoted(y))
    ensures Denoted(r) < 0 <==> Denoted(x) < 0 && Denoted(y) < 0
  {
    IntOpSign(And, Denoted(x), Denoted(y));
    Bitop(And, x, y)
  }

  /** intOr over the corrected Bitop: negative exactly when either operand is. */
  function IntOr(x: Value, y: Value): (r: Value)
    requires Valid(x) && Valid(y)
    ensures Valid(r) && Denoted(r) == IntOp(Or, Denoted(x), Denoted(y))
    ensures Denoted(r) < 0 <==> Denoted(x) < 0 || Denoted(y) < 0
  {
    IntOpSign(Or, Denoted(x), Denoted(y));
    Bitop(Or, x, y)
  }

  /** intXor over the corrected Bitop: negative exactly when one operand is. */
  function IntXor(x: Value, y: Value): (r: Value)
    requires Valid(x) && Valid(y)
    ensures Valid(r) && Denoted(r) == IntOp(Xor, Denoted(x), Denoted(y))
    ensures Denoted(r) < 0 <==> (Denoted(x) < 0) != (Denoted(y) < 0)
  {
    IntOpSign(Xor, Denoted(x), Denoted(y));
    Bitop(Xor, x, y)
  }

  /** JavaScript's ToInt32: the integer modulo 2^32, read as a signed 32-bit number. */
  function ToInt32(n: int): (r: int)
    ensures -0x8000_0000 <= r < 0x8000_0000
    ensures -0x8000_0000 <= n < 0x8000_0000 ==> r == n
  {
    Int32Residue(n);
    var m := n % 0x1_0000_0000;
    if m >= 0x8000_0000 then m - 0x1_0000_0000 else m
  }

  lemma Int32Residue(n: int)
    ensures -0x8000_0000 <= n < 0x8000_0000 ==>
      n % 0x1_0000_0000 == if n < 0 then n + 0x1_0000_0000 else n
  {
    if -0x8000_0000 <= n < 0 {
      DivUnique(n, 0x1_0000_0000, -1, n + 0x1_0000_0000);
    } else if 0 <= n < 0x8000_0000 {
      DivUnique(n, 0x1_0000_0000, 0, n);
    }
  }

  /** intNot as smallopt.js writes it: ~x on a number, which works on ToInt32(x). */
  function NotAsWritten(x: Value): (r: Value)
    requires Valid(x)
    ensures x.Num? && -0x8000_0000 <= x.n < 0x8000_0000 ==> Denoted(r) == -Denoted(x) - 1
    ensures x.Big? ==> Denoted(r) == -Denoted(x) - 1
    ensures r.Num? <==> x.Num?
  {
    if x.Num? then Num(-ToInt32(x.n) - 1) else Big(-x.b - 1)
  }

  /** ~2^31 is 2^31 - 1, not -2^31 - 1. */
  lemma NotTruncates()
    ensures NotAsWritten(Num(0x8000_0000)) == Num(0x7FFF_FFFF)
    ensures -Denoted(Num(0x8000_0000)) - 1 == -0x8000_0001
  {
    assert ToInt32(0x8000_0000) == -0x8000_0000 by {
      DivUnique(0x8000_0000, 0x1_0000_0000, 0, 0x8000_0000);
    }
  }

  /** intNot corrected, computed as minimal.js does, intSubn(intNeg(x), 1): -x - 1, which
      is XOR with -1. NotAsWritten is the code as written. */
  function Not(x: Value): (r: Value)
    requires Valid(x)
    ensures Valid(r) && Denoted(r) == -Denoted(x) - 1
    ensures Denoted(r) == IntOp(Xor, Denoted(x), -1)
    ensures r.Num? <==> x.Num? && IsSafe(-x.n - 1)
    ensures x.Num? && -0x8000_0000 <= x.n < 0x8000_0000 ==> r == NotAsWritten(x)
  {
    XorAllOnes(Denoted(x));
    Sub(Neg(x), Num(1))
  }
}
