/** Fixed-size bit vectors: the meaning every stage of the solver is checked against.
    A vector is a sequence of bits, least significant first.  The operators follow the
    SMT-LIB theory FixedSizeBitVectors and the abbreviations of the logic QF_BV. */
module BitVectors {
  type Bv = seq<bool>

  function Pow2(n: nat): (p: int)
    ensures p >= 1
  {
    if n == 0 then 1 else 2 * Pow2(n - 1)
  }

  function Bit(b: bool): int { if b then 1 else 0 }

  /** What bit `i` contributes to a number. */
  function Weight(b: bool, i: nat): int { if b then Pow2(i) else 0 }

  /** The natural number a vector stands for. */
  function Val(x: Bv): (v: int)
    ensures 0 <= v < Pow2(|x|)
  {
    if x == [] then 0 else Bit(x[0]) + 2 * Val(x[1..])
  }

  /** The `w` low bits of an integer in two's complement. */
  function FromInt(n: int, w: nat): (x: Bv)
    ensures |x| == w
    decreases w
  {
    if w == 0 then [] else [n % 2 == 1] + FromInt(n / 2, w - 1)
  }

  function Msb(x: Bv): bool { x != [] && x[|x| - 1] }

  /** The integer a vector stands for in two's complement. */
  function Signed(x: Bv): int { if Msb(x) then Val(x) - Pow2(|x|) else Val(x) }

  function Zeros(w: nat): (x: Bv) ensures |x| == w { seq(w, _ => false) }
  function Ones(w: nat): (x: Bv) ensures |x| == w { seq(w, _ => true) }
  function Min(a: nat, b: nat): nat { if a <= b then a else b }

  // ---------------------------------------------------------------- operators

  function BvNot(a: Bv): (r: Bv) ensures |r| == |a| { seq(|a|, i requires 0 <= i < |a| => !a[i]) }

  function BvAnd(a: Bv, b: Bv): (r: Bv)
    ensures |r| == Min(|a|, |b|)
  {
    seq(Min(|a|, |b|), i requires 0 <= i < |a| && i < |b| => a[i] && b[i])
  }

  function BvOr(a: Bv, b: Bv): (r: Bv)
    ensures |r| == Min(|a|, |b|)
  {
    seq(Min(|a|, |b|), i requires 0 <= i < |a| && i < |b| => a[i] || b[i])
  }

  function BvXor(a: Bv, b: Bv): (r: Bv)
    ensures |r| == Min(|a|, |b|)
  {
    seq(Min(|a|, |b|), i requires 0 <= i < |a| && i < |b| => a[i] != b[i])
  }

  function BvAdd(a: Bv, b: Bv): (r: Bv) ensures |r| == |a| { FromInt(Val(a) + Val(b), |a|) }
  function BvSub(a: Bv, b: Bv): (r: Bv) ensures |r| == |a| { FromInt(Val(a) - Val(b), |a|) }
  function BvNeg(a: Bv): (r: Bv) ensures |r| == |a| { FromInt(-Val(a), |a|) }
  function BvMul(a: Bv, b: Bv): (r: Bv) ensures |r| == |a| { FromInt(Val(a) * Val(b), |a|) }

  function BvUDiv(a: Bv, b: Bv): (r: Bv)
    ensures |r| == |a|
  {
    if Val(b) == 0 then Ones(|a|) else FromInt(Val(a) / Val(b), |a|)
  }
  function BvURem(a: Bv, b: Bv): (r: Bv) ensures |r| == |a| { if Val(b) == 0 then a else FromInt(Val(a) % Val(b), |a|) }

  function BvSDiv(a: Bv, b: Bv): (r: Bv) ensures |r| == |a| {
    match (Msb(a), Msb(b))
    case (false, false) => BvUDiv(a, b)
    case (true, false) => BvNeg(BvUDiv(BvNeg(a), b))
    case (false, true) => BvNeg(BvUDiv(a, BvNeg(b)))
    case (true, true) => BvUDiv(BvNeg(a), BvNeg(b))
  }

  function BvSRem(a: Bv, b: Bv): (r: Bv) ensures |r| == |a| {
    match (Msb(a), Msb(b))
    case (false, false) => BvURem(a, b)
    case (true, false) => BvNeg(BvURem(BvNeg(a), b))
    case (false, true) => BvURem(a, BvNeg(b))
    case (true, true) => BvNeg(BvURem(BvNeg(a), BvNeg(b)))
  }

  function Abs(a: Bv): (r: Bv) ensures |r| == |a| { if Msb(a) then BvNeg(a) else a }

  function BvSMod(a: Bv, b: Bv): (r: Bv) ensures |a| == |b| ==> |r| == |a| {
    var u := BvURem(Abs(a), Abs(b));
    if Val(u) == 0 then u else
      match (Msb(a), Msb(b))
      case (false, false) => u
      case (true, false) => BvAdd(BvNeg(u), b)
      case (false, true) => BvAdd(u, b)
      case (true, true) => BvNeg(u)
  }

  function BvShl(a: Bv, b: Bv): (r: Bv) ensures |r| == |a| { FromInt(Val(a) * Pow2(Val(b)), |a|) }
  function BvLShr(a: Bv, b: Bv): (r: Bv) ensures |r| == |a| { FromInt(Val(a) / Pow2(Val(b)), |a|) }
  function BvAShr(a: Bv, b: Bv): (r: Bv)
    ensures |r| == |a|
  {
    if Msb(a) then BvNot(BvLShr(BvNot(a), b)) else BvLShr(a, b)
  }

  function BvExtract(a: Bv, high: nat, low: nat): (r: Bv)
    ensures low <= high < |a| ==> |r| == high - low + 1
  {
    if low <= high < |a| then a[low..high + 1] else []
  }
  function BvConcat(high: Bv, low: Bv): (r: Bv) ensures |r| == |high| + |low| { low + high }
  function BvZeroExtend(a: Bv, extra: nat): (r: Bv) ensures |r| == |a| + extra { a + Zeros(extra) }
  function BvSignExtend(a: Bv, extra: nat): (r: Bv) ensures |r| == |a| + extra { a + seq(extra, _ => Msb(a)) }
  function BvRepeat(a: Bv, count: nat): (r: Bv)
    ensures |r| == |a| * count
  {
    if count == 0 then [] else BvRepeat(a, count - 1) + a
  }

  function BvRotateLeft(a: Bv, amount: nat): (r: Bv) ensures |r| == |a| {
    if a == [] then a else var k := amount % |a|; a[|a| - k..] + a[..|a| - k]
  }

  function BvRotateRight(a: Bv, amount: nat): (r: Bv) ensures |r| == |a| {
    if a == [] then a else var k := amount % |a|; a[k..] + a[..k]
  }

  // Predicates.  The overflow predicates say that the exact integer result does not fit.
  predicate BvUlt(a: Bv, b: Bv) { Val(a) < Val(b) }
  predicate BvUle(a: Bv, b: Bv) { Val(a) <= Val(b) }
  predicate BvSlt(a: Bv, b: Bv) { Signed(a) < Signed(b) }
  predicate BvSle(a: Bv, b: Bv) { Signed(a) <= Signed(b) }
  predicate FitsSigned(n: int, w: nat) { -Pow2(w) <= 2 * n < Pow2(w) }
  predicate UAddOverflow(a: Bv, b: Bv) { Val(a) + Val(b) >= Pow2(|a|) }
  predicate SAddOverflow(a: Bv, b: Bv) { !FitsSigned(Signed(a) + Signed(b), |a|) }
  predicate USubOverflow(a: Bv, b: Bv) { Val(a) - Val(b) < 0 }
  predicate SSubOverflow(a: Bv, b: Bv) { !FitsSigned(Signed(a) - Signed(b), |a|) }
  predicate UMulOverflow(a: Bv, b: Bv) { Val(a) * Val(b) >= Pow2(|a|) }
  predicate SMulOverflow(a: Bv, b: Bv) { !FitsSigned(Signed(a) * Signed(b), |a|) }
  predicate NegOverflow(a: Bv) { !FitsSigned(-Signed(a), |a|) }
  predicate SDivOverflow(a: Bv, b: Bv) { Signed(b) != 0 && !FitsSigned(Truncated(Signed(a), Signed(b)), |a|) }

  /** Integer division rounding toward zero, and its remainder. */
  function Truncated(n: int, d: int): int
    requires d != 0
  {
    if n >= 0 then n / d else -((-n) / d)
  }

  function TruncatedRemainder(n: int, d: int): int
    requires d != 0
  {
    n - d * Truncated(n, d)
  }

  // ---------------------------------------------------- products, kept in one place

  lemma {:induction false} Associate(a: int, b: int, c: int)
    ensures a * (b * c) == b * (a * c) == (a * b) * c
  {}

  lemma {:induction false} Distribute(a: int, b: int, c: int)
    ensures (a + b) * c == a * c + b * c
    ensures c * (a + b) == c * a + c * b
  {}

  lemma {:induction false} Magnitude(k: int, p: int)
    requires p >= 1
    ensures k >= 1 ==> k * p >= p
    ensures k <= -1 ==> k * p <= -p
  {}

  lemma {:induction false} Selected(k: int, p: int)
    ensures k == 0 ==> k * p == 0
    ensures k == 1 ==> k * p == p
  {}

  lemma {:induction false} MulMonotone(a: int, b: int, c: int)
    requires a <= b && 0 <= c
    ensures a * c <= b * c
    ensures c * a <= c * b
  {}

  // ------------------------------------------------- numbers and their low bits

  /** `n` is its low bits plus a multiple of 2^w. */
  lemma {:induction false} Rep(n: int, w: nat) returns (k: int)
    ensures n == Val(FromInt(n, w)) + k * Pow2(w)
    decreases w
  {
    if w == 0 {
      k := n;
    } else {
      k := Rep(n / 2, w - 1);
      assert FromInt(n, w)[1..] == FromInt(n / 2, w - 1);
      Associate(k, 2, Pow2(w - 1));
    }
  }

  lemma {:induction false} FromIntPeriod(n: int, k: int, w: nat)
    ensures FromInt(n + k * Pow2(w), w) == FromInt(n, w)
    decreases w
  {
    if w != 0 {
      var p := Pow2(w - 1);
      Associate(k, 2, p);
      assert (n + k * Pow2(w)) % 2 == n % 2 && (n + k * Pow2(w)) / 2 == n / 2 + k * p;
      FromIntPeriod(n / 2, k, w - 1);
    }
  }

  lemma {:induction false} FromIntVal(x: Bv)
    ensures FromInt(Val(x), |x|) == x
  {
    if x != [] {
      FromIntVal(x[1..]);
      assert Val(x) % 2 == Bit(x[0]) && Val(x) / 2 == Val(x[1..]);
    }
  }

  /** A vector that agrees with `n` up to a multiple of 2^w is the low bits of `n`. */
  lemma {:induction false} IsFromInt(x: Bv, n: int, k: int)
    requires n == Val(x) + k * Pow2(|x|)
    ensures x == FromInt(n, |x|)
  {
    FromIntVal(x);
    FromIntPeriod(Val(x), k, |x|);
  }

  lemma {:induction false} ValFromInt(n: int, w: nat)
    requires 0 <= n < Pow2(w)
    ensures Val(FromInt(n, w)) == n
  {
    var k := Rep(n, w);
    Magnitude(k, Pow2(w));
  }

  lemma {:induction false} ValInjective(x: Bv, y: Bv)
    requires |x| == |y| && Val(x) == Val(y)
    ensures x == y
  {
    FromIntVal(x);
    FromIntVal(y);
  }

  /** Low bits of sums and products depend only on the low bits of the operands. */
  lemma {:induction false} FromIntAdd(m: int, n: int, w: nat)
    ensures FromInt(Val(FromInt(m, w)) + Val(FromInt(n, w)), w) == FromInt(m + n, w)
    ensures FromInt(Val(FromInt(m, w)) + n, w) == FromInt(m + n, w)
  {
    hide FromInt, Val, Pow2;
    AddShift(m, n, w);
    AddShift(n, Val(FromInt(m, w)), w);
  }

  lemma {:induction false} AddShift(m: int, n: int, w: nat)
    ensures FromInt(Val(FromInt(m, w)) + n, w) == FromInt(m + n, w)
    ensures FromInt(n + Val(FromInt(m, w)), w) == FromInt(n + m, w)
  {
    hide FromInt, Val, Pow2;
    var i := Rep(m, w);
    FromIntPeriod(Val(FromInt(m, w)) + n, i, w);
  }

  lemma {:induction false} FromIntMul(m: int, n: int, w: nat)
    ensures FromInt(Val(FromInt(m, w)) * Val(FromInt(n, w)), w) == FromInt(m * n, w)
    ensures FromInt(Val(FromInt(m, w)) * n, w) == FromInt(m * n, w)
  {
    hide FromInt, Val, Pow2;
    var i := Rep(m, w);
    var j := Rep(n, w);
    MulShift(Val(FromInt(m, w)), i, n, w);
    MulShift(Val(FromInt(n, w)), j, Val(FromInt(m, w)), w);
  }

  lemma {:induction false} MulShift(a: int, i: int, n: int, w: nat)
    ensures FromInt((a + i * Pow2(w)) * n, w) == FromInt(a * n, w)
    ensures FromInt(n * (a + i * Pow2(w)), w) == FromInt(n * a, w)
  {
    hide FromInt, Pow2;
    var p := Pow2(w);
    Distribute(a, i * p, n);
    Associate(n, i, p);
    FromIntPeriod(a * n, n * i, w);
  }

  lemma {:induction false} FromIntNeg(m: int, w: nat)
    ensures FromInt(-Val(FromInt(m, w)), w) == FromInt(-m, w)
  {
    hide FromInt, Val, Pow2;
    FromIntMul(m, -1, w);
    assert m * -1 == -m && Val(FromInt(m, w)) * -1 == -Val(FromInt(m, w));
  }

  // --------------------------------------------------------------- bit patterns

  lemma {:induction false} ValConcat(x: Bv, y: Bv)
    ensures Val(x + y) == Val(x) + Val(y) * Pow2(|x|)
  {
    if x == [] {
      assert x + y == y;
    } else {
      assert (x + y)[1..] == x[1..] + y;
      ValConcat(x[1..], y);
      Associate(Val(y), 2, Pow2(|x| - 1));
    }
  }

  lemma {:induction false} ValSnoc(x: Bv, b: bool)
    ensures Val(x + [b]) == Val(x) + Weight(b, |x|)
  {
    assert Val([b]) == Bit(b) by { assert [b][1..] == []; }
    ValConcat(x, [b]);
    Selected(Val([b]), Pow2(|x|));
  }

  lemma {:induction false} ValZeros(w: nat)
    ensures Val(Zeros(w)) == 0
    ensures Zeros(w) == FromInt(0, w)
  {
    if w != 0 {
      assert Zeros(w)[1..] == Zeros(w - 1);
      ValZeros(w - 1);
    }
  }

  lemma {:induction false} ValOnes(w: nat)
    ensures Val(Ones(w)) == Pow2(w) - 1
    ensures Ones(w) == FromInt(-1, w)
  {
    if w != 0 {
      assert Ones(w)[1..] == Ones(w - 1);
      ValOnes(w - 1);
    }
  }

  lemma {:induction false} ZeroIffNoBit(x: Bv)
    ensures Val(x) == 0 <==> forall i :: 0 <= i < |x| ==> !x[i]
  {
    ValZeros(|x|);
    if Val(x) == 0 {
      ValInjective(x, Zeros(|x|));
    }
    assert (forall i :: 0 <= i < |x| ==> !x[i]) ==> x == Zeros(|x|);
  }

  lemma {:induction false} ValNot(x: Bv)
    ensures Val(BvNot(x)) == Pow2(|x|) - 1 - Val(x)
  {
    if x != [] {
      assert BvNot(x)[1..] == BvNot(x[1..]);
      ValNot(x[1..]);
    }
  }

  lemma {:induction false} Pow2Add(m: nat, n: nat)
    ensures Pow2(m + n) == Pow2(m) * Pow2(n)
  {
    if m != 0 {
      Pow2Add(m - 1, n);
      Associate(2, Pow2(m - 1), Pow2(n));
    }
  }

  lemma {:induction false} Pow2Step(n: nat)
    requires n > 0
    ensures Pow2(n) == 2 * Pow2(n - 1)
  {}

  lemma {:induction false} Pow2Monotone(m: nat, n: nat)
    requires m <= n
    ensures Pow2(m) <= Pow2(n)
    ensures m < n ==> 2 * Pow2(m) <= Pow2(n)
  {
    if m < n { Pow2Monotone(m, n - 1); }
  }

  /** n < 2^n, the fact behind rewriting `x >> x` and `x | (x << x)`. */
  lemma {:induction false} BelowPow2(n: nat)
    ensures n < Pow2(n)
  {
    if n != 0 { BelowPow2(n - 1); }
  }

  /** A shift left by s, cut or padded to w bits. */
  function Shifted(a: Bv, s: nat, w: nat): (r: Bv)
    ensures |r| == w
  {
    seq(w, j requires 0 <= j => s <= j && j - s < |a| && a[j - s])
  }

  lemma {:induction false} ShiftedIsProduct(a: Bv, s: nat, w: nat)
    ensures Shifted(a, s, w) == FromInt(Val(a) * Pow2(s), w)
    decreases s
  {
    if s == 0 {
      Resized(a, w);
    } else if w != 0 {
      hide Val;
      Associate(Val(a), 2, Pow2(s - 1));
      ShiftedIsProduct(a, s - 1, w - 1);
      assert Shifted(a, s, w) == [false] + Shifted(a, s - 1, w - 1);
    }
  }

  /** Zero extension and truncation keep the number, up to the new width. */
  lemma {:induction false} Resized(a: Bv, w: nat)
    ensures Shifted(a, 0, w) == FromInt(Val(a), w)
  {
    if w != 0 {
      var rest := if a == [] then [] else a[1..];
      Resized(rest, w - 1);
      assert Shifted(a, 0, w) == [a != [] && a[0]] + Shifted(rest, 0, w - 1);
    }
  }

  /** A shift right by s that fills with `fill`. */
  function ShiftedRight(a: Bv, s: nat, fill: bool): (r: Bv)
    ensures |r| == |a|
  {
    seq(|a|, j requires 0 <= j => if j + s < |a| then a[j + s] else fill)
  }

  lemma {:induction false} ShiftedRightIsQuotient(a: Bv, s: nat)
    ensures ShiftedRight(a, s, false) == FromInt(Val(a) / Pow2(s), |a|)
  {
    var n := |a|;
    if s >= n {
      Pow2Monotone(n, s);
      DivUnique(Val(a), Pow2(s), 0, Val(a));
      ValZeros(n);
      assert ShiftedRight(a, s, false) == Zeros(n);
    } else {
      DropIsQuotient(a, s);
      Resized(a[s..], n);
      assert ShiftedRight(a, s, false) == Shifted(a[s..], 0, n);
    }
  }

  lemma {:induction false} DropIsQuotient(a: Bv, s: nat)
    requires s <= |a|
    ensures Val(a) / Pow2(s) == Val(a[s..]) && Val(a) % Pow2(s) == Val(a[..s])
  {
    assert a == a[..s] + a[s..];
    ValConcat(a[..s], a[s..]);
    DivUnique(Val(a), Pow2(s), Val(a[s..]), Val(a[..s]));
  }

  lemma {:induction false} DivUnique(n: int, d: int, q: int, r: int)
    requires n == q * d + r && 0 <= r < d
    ensures n / d == q && n % d == r
  {
    var e := q - n / d;
    assert e * d == q * d - (n / d) * d;
    Magnitude(e, d);
  }

  lemma {:induction false} ShlBits(a: Bv, b: Bv)
    ensures BvShl(a, b) == Shifted(a, Val(b), |a|)
  {
    ShiftedIsProduct(a, Val(b), |a|);
  }

  lemma {:induction false} LShrBits(a: Bv, b: Bv)
    ensures BvLShr(a, b) == ShiftedRight(a, Val(b), false)
  {
    ShiftedRightIsQuotient(a, Val(b));
  }

  lemma {:induction false} AShrBits(a: Bv, b: Bv)
    ensures BvAShr(a, b) == ShiftedRight(a, Val(b), Msb(a))
  {
    LShrBits(a, b);
    LShrBits(BvNot(a), b);
    ShiftedNot(a, Val(b));
  }

  lemma {:induction false} ShiftedNot(a: Bv, s: nat)
    ensures BvNot(ShiftedRight(BvNot(a), s, false)) == ShiftedRight(a, s, true)
  {}

  lemma {:induction false} TruncateFromInt(n: int, v: nat, w: nat)
    requires v <= w
    ensures FromInt(n, w)[..v] == FromInt(n, v)
    decreases w
  {
    if v != 0 {
      TruncateFromInt(n / 2, v - 1, w - 1);
      assert FromInt(n, w)[..v] == [n % 2 == 1] + FromInt(n / 2, w - 1)[..v - 1];
    }
  }

  // ----------------------------------------------------------- signed readings

  lemma {:induction false} MsbVal(x: Bv)
    requires x != []
    ensures Msb(x) <==> 2 * Val(x) >= Pow2(|x|)
    ensures FitsSigned(Signed(x), |x|)
  {
    var n := |x| - 1;
    assert x == x[..n] + [x[n]];
    ValSnoc(x[..n], x[n]);
  }

  lemma {:induction false} FromIntSigned(x: Bv)
    ensures FromInt(Signed(x), |x|) == x
  {
    IsFromInt(x, Signed(x), if Msb(x) then -1 else 0);
  }

  lemma {:induction false} SignedFromInt(n: int, w: nat)
    requires w > 0 && FitsSigned(n, w)
    ensures Signed(FromInt(n, w)) == n
  {
    var x := FromInt(n, w);
    MsbVal(x);
    if n >= 0 {
      ValFromInt(n, w);
    } else {
      FromIntPeriod(n, 1, w);
      assert 1 * Pow2(w) == Pow2(w);
      ValFromInt(n + Pow2(w), w);
    }
  }

  lemma {:induction false} SignExtendSigned(a: Bv, extra: nat)
    requires a != []
    ensures BvSignExtend(a, extra) == FromInt(Signed(a), |a| + extra)
    ensures Signed(BvSignExtend(a, extra)) == Signed(a)
  {
    SignExtendVal(a, extra);
    IsFromInt(BvSignExtend(a, extra), Signed(a), if Msb(a) then -1 else 0);
    MsbVal(a);
    Pow2Monotone(|a|, |a| + extra);
    SignedFromInt(Signed(a), |a| + extra);
  }

  lemma {:induction false} SignExtendVal(a: Bv, extra: nat)
    ensures Val(BvSignExtend(a, extra)) == Signed(a) + if Msb(a) then Pow2(|a| + extra) else 0
  {
    var e := seq(extra, _ => Msb(a));
    ValConcat(a, e);
    if Msb(a) {
      ValOnes(extra);
      assert e == Ones(extra);
      Pow2Add(extra, |a|);
      Distribute(Pow2(extra), -1, Pow2(|a|));
    } else {
      ValZeros(extra);
      assert e == Zeros(extra);
    }
  }
}
