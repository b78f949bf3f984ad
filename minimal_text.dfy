/** Text and small-number conversions of minimal.js: stringToInt reads hexadecimal digits
    into 26-bit limbs, intToString writes decimal digits seven at a time using the
    single-limb division divn and remainder modn, and float64ToInt builds an Int from a
    number below 2^53. */
module MinimalText {
  import opened Arith
  import opened Limbs
  import opened MinimalInt
  import opened MinimalArith
  import opened MinimalShift
  import opened MinimalDivide
  import opened Numerals
  import opened Bitwise

  /** divn: the magnitude divided by a positive small number, the sign kept. */
  method Divn(x: Int, y: int) returns (r: Int)
    requires Canonical(x) && y >= 1
    ensures Canonical(r) && Mag(r) == Mag(x) / y
    ensures Value(r) == TruncDiv(Value(x), y)
  {
    var zs, carry := DivnLimbs(x.val[..x.len], y);
    WholePrefix(zs, |zs|);
    r := NewInt(x.neg, zs, x.len);
    DivnSign(x, r, y);
  }

  /** The quotient of the magnitude with the sign of x is the truncated quotient. */
  lemma DivnSign(x: Int, r: Int, y: int)
    requires Canonical(x) && Canonical(r) && y >= 1
    requires Value(r) == if x.neg then -(Mag(x) / y) else Mag(x) / y
    ensures Mag(r) == Mag(x) / y && Value(r) == TruncDiv(Value(x), y)
  {
    SignOfValue(x);
    SignOfValue(r);
    TruncOfMagnitudes(Value(x), y);
  }

  /** The limb loop of divn, from the top limb down: each limb with the carried remainder
      above it is divided by y. */
  method DivnLimbs(xs: seq<int>, y: int) returns (zs: seq<int>, carry: int)
    requires IsLimbs(xs) && y >= 1
    ensures IsLimbs(zs) && |zs| == |xs|
    ensures Val(zs) == Val(xs) / y && carry == Val(xs) % y
  {
    zs := [];
    carry := 0;
    var j := |xs| - 1;
    while j >= 0
      invariant -1 <= j < |xs| && |zs| == |xs| - 1 - j
      invariant IsLimbs(zs) && 0 <= carry < y
      invariant Val(zs) * y + carry == Val(xs[j + 1..])
    {
      var w := xs[j] + carry * SHIFT;
      DivnDigit(xs[j], carry, y);
      ShrStep(zs, xs, j, w / y, xs[j], carry, y, w % y);
      zs := [w / y] + zs;
      carry := w % y;
      j := j - 1;
    }
    assert xs[0..] == xs;
    DivUnique(Val(xs), y, Val(zs), carry);
  }

  /** A limb with a carry below y above it, divided by y, fits a limb. */
  lemma DivnDigit(word: int, carry: int, y: int)
    requires IsLimb(word) && 0 <= carry < y
    ensures var w := word + carry * SHIFT;
      IsLimb(w / y) && (w / y) * y + w % y == carry * SHIFT + word
  {
    var w := word + carry * SHIFT;
    MulLe(carry + 1, y, SHIFT);
    if w / y >= SHIFT {
      MulLe(SHIFT, w / y, y);
    }
  }

  /** modn: the magnitude modulo a positive small number, by Horner's rule on the limbs
      from the top with SHIFT reduced modulo y. */
  method Modn(x: Int, y: int) returns (z: int)
    requires Canonical(x) && y >= 1
    ensures z == Mag(x) % y
  {
    var xs := x.val[..x.len];
    var p := SHIFT % y;
    z := 0;
    var j := x.len - 1;
    while j >= 0
      invariant -1 <= j < x.len
      invariant z == Val(xs[j + 1..]) % y
    {
      assert xs[j..] == [xs[j]] + xs[j + 1..];
      ValCons(xs[j], xs[j + 1..]);
      ModnStep(Val(xs[j + 1..]), xs[j], y);
      z := (p * z + x.val[j]) % y;
      j := j - 1;
    }
    assert xs[0..] == xs;
  }

  lemma ModnStep(v: int, d: int, y: int)
    requires y >= 1
    ensures ((SHIFT % y) * (v % y) + d) % y == (d + SHIFT * v) % y
  {
    var a, p := SHIFT / y, SHIFT % y;
    var b, z := v / y, v % y;
    assert SHIFT * v == (y * a + p) * v;
    assert (y * a + p) * v == y * (a * v) + p * (y * b + z);
    assert p * (y * b + z) == y * (p * b) + p * z;
    SameResidue(a * v + p * b, p * z + d, y);
  }

  lemma SameResidue(k: int, t: int, y: int)
    requires y >= 1
    ensures (y * k + t) % y == t % y
  {
    DivUnique(y * k + t, y, k + t / y, t % y);
  }

  const CHUNK: int := 10000000

  /** intToString: the decimal rendering of the integer. */
  method ToString(a: Int) returns (out: string)
    requires Canonical(a)
    ensures out == DecimalString(Value(a))
  {
    if a.len < 3 || (a.len == 3 && a.val[2] == 1) {
      // intToFloat64 is exact here (below 2^53); its toString is the decimal rendering.
      var n := Val(a.val[..a.len]);
      return DecimalString(if a.neg then -n else n);
    }
    SignOfValue(a);
    CanonicalMagnitude(a);
    out := DecimalGroups(a);
    out := if a.neg then "-" + out else out;
  }

  /** The loop of intToString: seven-digit groups are split off from the right with modn
      and divn; every group but the leading one is padded with zeros. */
  method DecimalGroups(a: Int) returns (out: string)
    requires Canonical(a)
    ensures Mag(a) >= 0 && out == Digits(Mag(a))
  {
    SignOfValue(a);
    ghost var whole := Mag(a);
    out := "";
    var c := a;
    Pow10Chunk();
    while !IsZero(c)
      invariant Canonical(c) && Mag(c) >= 0
      invariant Digits(whole) == Digits(Mag(c)) + out
      decreases Mag(c)
    {
      SignOfValue(c);
      var rv := Modn(c, CHUNK);
      var rs := NatString(rv);
      ghost var m := Mag(c);
      c := Divn(c, CHUNK);
      SignOfValue(c);
      if IsZero(c) {
        DecimalLast(m, rv, rs, out, whole);
        out := rs + out;
      } else {
        DecimalStep(m, Mag(c), rv, rs, out, whole);
        out := "0000000"[|rs|..] + rs + out;
      }
    }
  }

  lemma Pow10Chunk()
    ensures Pow10(7) == CHUNK
  {
  }

  /** A pass of the loop of intToString that leaves c nonzero writes a padded group; the
      digits written, after the digits still in c, stay the digits of the whole number. */
  lemma DecimalStep(m: nat, next: nat, rv: nat, rs: string, out: string, whole: nat)
    requires rv == m % Pow10(7) && next == m / Pow10(7) && rs == NatString(rv) && next != 0
    requires Digits(whole) == Digits(m) + out
    ensures |rs| <= 7 && Digits(whole) == Digits(next) + ("0000000"[|rs|..] + rs + out)
  {
    ChunkDigits(m, rv, rs);
  }

  /** The last pass writes the leading group unpadded. */
  lemma DecimalLast(m: nat, rv: nat, rs: string, out: string, whole: nat)
    requires rv == m % Pow10(7) && m / Pow10(7) == 0 && rs == NatString(rv) && m > 0
    requires Digits(whole) == Digits(m) + out
    ensures Digits(whole) == Digits(0) + (rs + out)
  {
    ZeroQuotient(m, Pow10(7));
  }

  lemma ZeroQuotient(m: nat, p: int)
    requires p >= 1 && m / p == 0
    ensures m % p == m
  {
    assert m == (m / p) * p + m % p;
  }

  /** A group of seven digits below the leading one is its shortest numeral padded to
      seven characters. */
  lemma ChunkDigits(m: nat, rv: nat, rs: string)
    requires m / Pow10(7) > 0 && rv == m % Pow10(7) && rs == NatString(rv)
    ensures |rs| <= 7 && Digits(m) == Digits(m / Pow10(7)) + ("0000000"[|rs|..] + rs)
  {
    DigitsSplit(m, 7);
    FixedLow(m, 7);
    FixedPadded(rv, 7);
    assert "0000000"[|rs|..] == seq(7 - |rs|, _ => '0');
  }

  /** Text stringToInt accepts: an optional '-' and at least one hexadecimal digit. */
  predicate WellFormedHex(s: string)
  {
    var neg := if |s| > 0 && s[0] == '-' then 1 else 0;
    |s| > neg && IsHexDigits(s[neg..])
  }

  /** stringToInt: the value of the hexadecimal digits, negated after a leading '-'. The
      digits are read six at a time from the right and each 24-bit group is packed into
      the limbs at bit offset off of limb j. */
  method StringToInt(s: string) returns (r: Int)
    requires WellFormedHex(s)
    ensures Canonical(r)
    ensures Value(r) == HexNumeral(s)
  {
    var neg := if s[0] == '-' then 1 else 0;
    var len := (|s| + 5) / 6;
    // The extra slot stands for the one JavaScript adds when the last group writes
    // a[len]; it is zero and lies outside the Int.
    var a := seq(len + 1, _ => 0);
    ValZeros(len + 1);
    var off, j := 0, 0;
    var l := |s|;
    ghost var groups := 0;
    while l > neg
      invariant neg - 6 < l <= |s| && l == |s| - 6 * groups
      invariant 0 <= off <= 24 && off % 2 == 0 && BITS * j + off == 24 * groups
      invariant |a| == len + 1 && IsLimbs(a) && 0 <= j <= len
      invariant a[j] < Pow2(off)
      invariant forall i :: j < i < |a| ==> a[i] == 0
      invariant Val(a) == HexValue(s[Max(neg, l)..])
      decreases l
    {
      a, j, off := ReadGroup(s, neg, l, groups, a, j, off);
      l := l - 6;
      groups := groups + 1;
    }
    HexBound(s[neg..]);
    CeilSixth(|s|);
    TopSlotZero(a, len, |s| - neg);
    r := NewInt(neg == 1, a, len);
    SignedDigits(s, neg);
  }

  lemma SignedDigits(s: string, neg: nat)
    requires |s| >= 1 && neg == if s[0] == '-' then 1 else 0
    ensures HexNumeral(s) == if neg == 1 then -HexValue(s[neg..]) else HexValue(s[neg..])
  {
    assert s[neg..] == if s[0] == '-' then s[1..] else s;
  }

  /** One pass of the loop of stringToInt: the group of up to six digits ending before l
      is read and packed into the limbs, which then hold the value of all digits from the
      start of that group. */
  method ReadGroup(s: string, neg: nat, l: int, ghost groups: nat, a: seq<int>, j: nat, off: nat)
    returns (b: seq<int>, j': nat, off': nat)
    requires neg < l <= |s| && l == |s| - 6 * groups && IsHexDigits(s[neg..])
    requires off <= 24 && off % 2 == 0 && BITS * j + off == 24 * groups
    requires j + 1 < |a| && IsLimbs(a) && a[j] < Pow2(off)
    requires forall i :: j < i < |a| ==> a[i] == 0
    requires Val(a) == HexValue(s[l..])
    ensures off' <= 24 && off' % 2 == 0 && BITS * j' + off' == 24 * (groups + 1)
    ensures |b| == |a| && IsLimbs(b) && j' <= j + 1 && b[j'] < Pow2(off')
    ensures forall i :: j' < i < |b| ==> b[i] == 0
    ensures Val(b) == HexValue(s[Max(neg, l - 6)..])
  {
    var k := Max(neg, l - 6);
    DigitsBetween(s, neg, k, l);
    var w := GroupValue(s, k, l);
    GroupPlace(s, k, l, groups, j, off, w);
    b, j', off' := PutGroup(a, j, off, w);
  }

  lemma DigitsBetween(s: string, neg: nat, k: int, l: int)
    requires neg <= k <= l <= |s| && IsHexDigits(s[neg..])
    ensures forall i :: k <= i < l ==> IsHexDigit(s[i])
  {
    forall i | k <= i < l
      ensures IsHexDigit(s[i])
    {
      assert s[i] == s[neg..][i - neg];
    }
  }

  /** One group of the loop of stringToInt written into the limbs: the low half ORed into
      limb j at bit offset off, the high half into limb j + 1, and the offset moved on by
      24 bits. */
  method PutGroup(a: seq<int>, j: nat, off: nat, w: int) returns (b: seq<int>, j': nat, off': nat)
    requires j + 1 < |a| && IsLimbs(a) && off <= BITS - 2 && off % 2 == 0 && 0 <= w < Pow2(BITS - 2)
    requires a[j] < Pow2(off) && forall i :: j < i < |a| ==> a[i] == 0
    ensures |b| == |a| && IsLimbs(b) && Val(b) == Val(a) + Base(j) * (Pow2(off) * w)
    ensures off' <= BITS - 2 && off' % 2 == 0 && BITS * j' + off' == BITS * j + off + 24
    ensures j' <= j + 1 && b[j'] < Pow2(off') && forall i :: j' < i < |b| ==> b[i] == 0
  {
    var lo := NatOp(Or, a[j], NatOp(And, ShiftLeft(w, off), MASK));
    var hi := NatOp(Or, a[j + 1], NatOp(And, ShiftRight(w, BITS - off), MASK / 16));
    GroupParts(a[j], w, off);
    PackValue(a, j, Pow2(off), Pow2(BITS - off), w, lo, hi);
    b := a[j := lo][j + 1 := hi];
    off', j' := off + 24, j;
    if off' >= BITS {
      off' := off' - BITS;
      j' := j' + 1;
    }
    NextSlot(a, b, j, off, j', off', lo, hi, w);
  }

  /** Where the next group goes: the limb and offset past the 24 bits just written, the
      limb there holding only bits below the offset and every limb above it clear. */
  lemma NextSlot(a: seq<int>, b: seq<int>, j: nat, off: nat, j': nat, off': nat, lo: int, hi: int, w: int)
    requires j + 1 < |a| && IsLimbs(a) && off <= BITS - 2 && off % 2 == 0 && 0 <= w < Pow2(BITS - 2)
    requires forall i :: j < i < |a| ==> a[i] == 0
    requires b == a[j := lo][j + 1 := hi] && IsLimb(lo) && IsLimb(hi)
    requires off >= 2 ==> hi < Pow2(off - 2)
    requires off == 0 ==> hi == 0 && lo == w
    requires if off + 24 >= BITS then j' == j + 1 && off' == off + 24 - BITS else j' == j && off' == off + 24
    ensures |b| == |a| && IsLimbs(b)
    ensures off' <= BITS - 2 && off' % 2 == 0 && BITS * j' + off' == BITS * j + off + 24
    ensures j' <= j + 1 && b[j'] < Pow2(off') && forall i :: j' < i < |b| ==> b[i] == 0
  {
    if off == 0 {
      Pow2Monotone(BITS - 2, 24);
    } else {
      assert off' == off - 2 && (off - 2) % 2 == 0;
      assert BITS * (j + 1) == BITS * j + BITS;
    }
  }

  /** The inner loop of stringToInt: up to six digits, each shifted in four bits at a time. */
  method GroupValue(s: string, k0: int, l: int) returns (w: int)
    requires 0 <= k0 <= l <= |s| && l - k0 <= 6
    requires forall i :: k0 <= i < l ==> IsHexDigit(s[i])
    ensures w == HexValue(s[k0..l]) && 0 <= w < Pow2(BITS - 2)
  {
    w := 0;
    var k := k0;
    ghost var e: nat := 0;
    while k < l
      invariant k0 <= k <= l && e == 4 * (k - k0)
      invariant w == HexValue(s[k0..k]) && 0 <= w < Pow2(e)
    {
      ShiftInDigit(s, k0, k, w, e);
      w := NatOp(Or, ShiftLeft(w, 4), HexDigit(s[k]));
      k, e := k + 1, e + 4;
    }
    Pow2Monotone(e, BITS - 2);
  }

  /** w << 4 | c appends the hexadecimal digit c = s[k] to the value w of s[k0..k]. */
  lemma ShiftInDigit(s: string, k0: nat, k: nat, w: nat, e: nat)
    requires k0 <= k < |s| && IsHexDigit(s[k])
    requires w == HexValue(s[k0..k]) < Pow2(e)
    ensures NatOp(Or, ShiftLeft(w, 4), HexDigit(s[k])) == HexValue(s[k0..k + 1]) < Pow2(e + 4)
  {
    var c, t := HexDigit(s[k]), s[k0..k + 1];
    assert t[..|t| - 1] == s[k0..k] && t[|t| - 1] == s[k];
    AppendDigit(w, c);
    Pow2Times16(e);
    AppendBound(w, c, Pow2(e), Pow2(e + 4));
  }

  lemma AppendDigit(w: nat, c: nat)
    requires c < 16
    ensures NatOp(Or, ShiftLeft(w, 4), c) == w * 16 + c
  {
    assert Pow2(4) == 16;
    OrDisjointHigh(c, w, 4);
  }

  lemma Pow2Times16(e: nat)
    ensures Pow2(e + 4) == Pow2(e) * 16
  {
    assert Pow2(4) == 16;
    Pow2Add(e, 4);
  }

  lemma AppendBound(w: int, c: int, p: int, p': int)
    requires 0 <= w < p && 0 <= c < 16 && p' == p * 16
    ensures w * 16 + c < p'
  {
  }

  /** The two halves of a 24-bit group packed at bit offset off: the low half, moved up
      by off, is ORed into limb j, whose bits from off up are still clear; the high half,
      below 2^(off - 2), into the empty limb above. */
  lemma GroupParts(x: nat, w: nat, off: nat)
    requires off <= BITS - 2 && w < Pow2(BITS - 2) && x < Pow2(off)
    ensures Pow2(off) * Pow2(BITS - off) == SHIFT
    ensures NatOp(Or, x, NatOp(And, ShiftLeft(w, off), MASK))
      == x + Pow2(off) * (w % Pow2(BITS - off)) < SHIFT
    ensures var h := ShiftRight(w, BITS - off);
      && NatOp(Or, 0, NatOp(And, h, MASK / 16)) == h == w / Pow2(BITS - off) && IsLimb(h)
      && (off >= 2 ==> h < Pow2(off - 2))
      && (off == 0 ==> h == 0 && x == 0 && w % Pow2(BITS) == w)
    ensures off == 0 ==> NatOp(Or, x, NatOp(And, ShiftLeft(w, off), MASK)) == w
  {
    MaskFacts();
    LowPart(x, w, off, BITS, Pow2(off), Pow2(BITS - off), MASK);
    HighPart(w, off, BITS, MASK / 16);
    if off == 0 {
      Pow2Monotone(BITS - 2, BITS);
      DivUnique(w, Pow2(BITS), 0, w);
      assert Pow2(off) == 1;
    }
  }

  /** Together the two halves add w * 2^off * SHIFT^j. */
  lemma PackValue(a: seq<int>, j: nat, p: int, q: int, w: int, lo: int, hi: int)
    requires j + 1 < |a| && a[j + 1] == 0 && p * q == SHIFT && q >= 1 && w >= 0
    requires lo == a[j] + p * (w % q) && hi == w / q
    ensures Val(a[j := lo][j + 1 := hi]) == Val(a) + Base(j) * (p * w)
  {
    ValUpdate(a, j, lo);
    ValUpdate(a[j := lo], j + 1, hi);
    assert Base(j + 1) == SHIFT * Base(j);
    PackArith(p, q, w, Base(j), Val(a), a[j]);
  }

  lemma MaskFacts()
    ensures MASK + 1 == Pow2(BITS) && MASK / 16 + 1 == Pow2(BITS - 4) && SHIFT == MASK + 1
  {
    ShiftIsPow2();
    Pow2Add(BITS - 4, 4);
    assert Pow2(4) == 16;
  }

  /** The low part of a group: its bits below k - off, moved up by off, fill the clear top
      of x. */
  lemma LowPart(x: nat, w: nat, off: nat, k: nat, p: nat, q: nat, m: nat)
    requires x < p && off <= k && p == Pow2(off) && q == Pow2(k - off) && m + 1 == Pow2(k)
    ensures p * q == m + 1
    ensures NatOp(Or, x, NatOp(And, ShiftLeft(w, off), m)) == x + p * (w % q) <= m
  {
    Pow2Add(off, k - off);
    assert off + (k - off) == k;
    AndLow(ShiftLeft(w, off), k);
    ScaledDivision(w, q, p);
    OrDisjoint(x, w % q, off);
    FillBound(x, p, w % q, q);
  }

  lemma FillBound(x: int, p: int, r: int, q: int)
    requires 0 <= x < p && 0 <= r < q
    ensures x + p * r < p * q
  {
    MulLe(r + 1, q, p);
    assert (r + 1) * p == p * r + p;
  }

  /** The high part of a group: its bits from k - off up, below 2^(off - 2). */
  lemma HighPart(w: nat, off: nat, k: nat, m: nat)
    requires k >= 4 && off <= k - 2 && w < Pow2(k - 2) && m + 1 == Pow2(k - 4)
    ensures var h := ShiftRight(w, k - off);
      && NatOp(Or, 0, NatOp(And, h, m)) == h < Pow2(k - 4)
      && (off >= 2 ==> h < Pow2(off - 2))
      && (off < 2 ==> h == 0)
  {
    var q := Pow2(k - off);
    var h := ShiftRight(w, k - off);
    if off >= 2 {
      Pow2Add(off - 2, k - off);
      QuotientBound(w, q, Pow2(off - 2));
      Pow2Monotone(off - 2, k - 4);
    } else {
      Pow2Monotone(k - 2, k - off);
      QuotientBound(w, q, 1);
    }
    AndLow(h, k - 4);
    DivUnique(h, Pow2(k - 4), 0, h);
    ZeroOperand(Or, h);
  }

  lemma QuotientBound(w: int, q: int, c: int)
    requires 0 <= w < c * q && q >= 1
    ensures w / q < c
  {
    if w / q >= c {
      MulLe(c, w / q, q);
    }
  }

  lemma PackArith(p: int, q: int, w: int, bj: int, v: int, x: int)
    requires p * q == SHIFT && q >= 1 && w >= 0
    ensures v + (x + p * (w % q) - x) * bj + (w / q - 0) * (SHIFT * bj) == v + bj * (p * w)
  {
    var r, t := w % q, w / q;
    assert w == q * t + r;
    assert p * w == p * r + SHIFT * t by {
      assert p * (q * t + r) == p * r + (p * q) * t;
    }
    assert (p * r) * bj + t * (SHIFT * bj) == bj * (p * r + SHIFT * t);
  }

  /** Where a group lands: the digits already read are worth 2^(24 * groups), which is
      2^off * SHIFT^j. */
  lemma GroupPlace(s: string, k: int, l: int, groups: nat, j: nat, off: nat, w: int)
    requires 0 <= k <= l <= |s| && l == |s| - 6 * groups && BITS * j + off == 24 * groups
    requires w == HexValue(s[k..l])
    ensures HexValue(s[k..]) == HexValue(s[l..]) + Base(j) * (Pow2(off) * w)
  {
    assert s[k..] == s[k..l] + s[l..];
    HexConcat(s[k..l], s[l..]);
    assert 4 * |s[l..]| == BITS * j + off;
    BaseIsPow2(j);
    Pow2Add(BITS * j, off);
    PlaceArith(w, Base(j), Pow2(off), Pow2(BITS * j + off));
  }

  lemma PlaceArith(w: int, b: int, p: int, bp: int)
    requires bp == b * p
    ensures w * bp == b * (p * w)
  {
  }

  lemma CeilSixth(n: nat)
    ensures n <= 6 * ((n + 5) / 6)
  {
  }

  /** The value fits below SHIFT^len, so the spare slot stayed zero. */
  lemma TopSlotZero(a: seq<int>, len: nat, digits: nat)
    requires |a| == len + 1 && IsLimbs(a) && digits <= 6 * len
    requires Val(a) < Pow2(4 * digits)
    ensures Val(a[..len]) == Val(a)
  {
    Pow2Monotone(4 * digits, BITS * len);
    BaseIsPow2(len);
    LastLimb(a);
    ValBound(a[..len]);
    if a[len] > 0 {
      MulLe(1, a[len], Base(len));
    }
  }

  /** float64ToInt on an integer of magnitude below 2^53: one, two or three limbs, the
      third being 1 when present. */
  method FromSmall(n: int) returns (r: Int)
    requires Abs(n) < 0x20_0000_0000_0000
    ensures Canonical(r) && Value(r) == n
  {
    var limbs := SmallMagnitude(Abs(n));
    assert limbs[..|limbs|] == limbs;
    r := NewInt(n < 0, limbs, |limbs|);
  }

  /** The limbs float64ToInt builds for a magnitude: one below 2^26, two below 2^52, and
      otherwise a third limb 1 (the magnitude being below 2^53). */
  method SmallMagnitude(m: nat) returns (limbs: seq<int>)
    requires m < 0x20_0000_0000_0000
    ensures 1 <= |limbs| && IsLimbs(limbs) && Val(limbs) == m
  {
    if m < SHIFT {
      limbs := [m];
      ValCons(m, []);
    } else if m < SHIFT * SHIFT {
      limbs := [LowLimb(m), LowLimb(m / SHIFT)];
      TwoLimbs(m, SHIFT);
    } else {
      limbs := [LowLimb(m), LowLimb(m / SHIFT), 1];
      ThreeLimbs(m, SHIFT);
    }
  }

  lemma TwoLimbs(m: nat, b: nat)
    requires b == SHIFT && b <= m < b * b
    ensures IsLimbs([m % b, (m / b) % b]) && Val([m % b, (m / b) % b]) == m
  {
    DivDiv(m, b, b);
    ValCons(m % b, [(m / b) % b]);
    ValCons((m / b) % b, []);
  }

  lemma ThreeLimbs(m: nat, b: nat)
    requires b == SHIFT && b * b <= m < 2 * (b * b)
    ensures IsLimbs([m % b, (m / b) % b, 1]) && Val([m % b, (m / b) % b, 1]) == m
  {
    DivDiv(m, b, b);
    assert (m / b) / b == 1 by {
      DivUnique(m, b * b, 1, m - b * b);
    }
    var q := m / b;
    DivUnique(q, b, 1, q - b);
    assert m == b * q + m % b;
    ValCons(m % b, [q % b, 1]);
    ValCons(q % b, [1]);
    ValCons(1, []);
    assert [m % b, q % b, 1] == [m % b] + [q % b, 1] && [q % b, 1] == [q % b] + [1];
    assert [1] == [1] + [];
    assert b * ((q - b) + b * 1) == b * q;
  }

  function LowLimb(n: nat): (d: int)
    ensures d == n % SHIFT
  {
    ShiftIsPow2();
    AndLow(n % 0x1_0000_0000, BITS);
    ModOfMod(n, SHIFT, 64);
    NatOp(And, n % 0x1_0000_0000, MASK)
  }

  lemma ModOfMod(n: nat, b: int, c: int)
    requires b >= 1 && c >= 1
    ensures (n % (b * c)) % b == n % b
  {
    var q, r := n / (b * c), n % (b * c);
    assert n == b * (c * q + r / b) + r % b by {
      assert n == (b * c) * q + r;
      assert r == b * (r / b) + r % b;
    }
    DivUnique(n, b, c * q + r / b, r % b);
  }


}
