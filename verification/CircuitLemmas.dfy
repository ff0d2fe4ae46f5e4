/** Arithmetic behind the circuits, stated on bit vectors alone. */
module CircuitLemmas {
  import opened BitVectors

  // ------------------------------------------------------------ adders, multipliers

  /** One full-adder cell extends the sum by one bit. */
  lemma {:induction false} AdderStep(x: Bv, y: Bv, s: Bv, c: bool, cin: bool)
    requires |s| < |x| == |y|
    requires Val(s) + Weight(c, |s|) == Val(x[..|s|]) + Val(y[..|s|]) + Bit(cin)
    ensures var i := |s|;
            var axb := x[i] != y[i];
            Val(s + [axb != c]) + Weight((x[i] && y[i]) || (c && axb), i + 1)
              == Val(x[..i + 1]) + Val(y[..i + 1]) + Bit(cin)
  {
    var i := |s|;
    TakeSnoc(x, i);
    TakeSnoc(y, i);
    ValSnoc(s, (x[i] != y[i]) != c);
  }

  lemma {:induction false} TakeSnoc(x: Bv, i: nat)
    requires i < |x|
    ensures Val(x[..i + 1]) == Val(x[..i]) + Weight(x[i], i)
  {
    assert x[..i + 1] == x[..i] + [x[i]];
    ValSnoc(x[..i], x[i]);
  }

  lemma {:induction false} TakeAll(x: Bv)
    ensures x[..|x|] == x
  {}

  lemma {:induction false} SumIsAdd(x: Bv, y: Bv, s: Bv, c: bool)
    requires |s| == |x| == |y|
    requires Val(s) + Weight(c, |s|) == Val(x) + Val(y)
    ensures s == BvAdd(x, y)
    ensures c <==> UAddOverflow(x, y)
  {
    hide FromInt, Val, Pow2;
    IsFromInt(s, Val(x) + Val(y), if c then 1 else 0);
  }

  lemma {:induction false} SumIsSub(x: Bv, y: Bv, s: Bv, c: bool)
    requires |s| == |x| == |y|
    requires Val(s) + Weight(c, |s|) == Val(x) + Val(BvNot(y)) + 1
    ensures s == BvSub(x, y)
  {
    hide FromInt, Val, Pow2;
    ValNot(y);
    var k := if c then 0 else -1;
    IsFromInt(s, Val(x) - Val(y), k);
  }

  lemma {:induction false} NegIsSub(x: Bv)
    ensures BvSub(Zeros(|x|), x) == BvNeg(x)
  {
    ValZeros(|x|);
  }

  /** One row of the shift-add multiplier. */
  lemma {:induction false} MulStep(x: Bv, y: Bv, i: nat, w: nat)
    requires i < |y|
    ensures BvAdd(FromInt(Val(x) * Val(y[..i]), w), if y[i] then Shifted(x, i, w) else Zeros(w))
         == FromInt(Val(x) * Val(y[..i + 1]), w)
  {
    hide FromInt, Val, Pow2;
    var v := Val(x) * Val(y[..i]);
    TakeSnoc(y, i);
    if y[i] {
      Distribute(Val(y[..i]), Pow2(i), Val(x));
      ShiftedIsProduct(x, i, w);
      FromIntAdd(v, Val(x) * Pow2(i), w);
    } else {
      ValZeros(w);
      FromIntVal(FromInt(v, w));
    }
  }

  lemma {:induction false} MulByZero(x: Bv, k: Bv)
    requires |k| == |x| && forall i :: 0 <= i < |k| ==> !k[i]
    ensures BvMul(x, k) == Zeros(|x|)
  {
    ZeroIffNoBit(k);
    ValZeros(|x|);
  }

  lemma {:induction false} MulByOne(x: Bv, k: Bv)
    requires |k| == |x| > 0 && k[0] && forall i :: 1 <= i < |k| ==> !k[i]
    ensures BvMul(x, k) == x
  {
    ZeroIffNoBit(k[1..]);
    FromIntVal(x);
  }

  lemma {:induction false} MulByMinusOne(x: Bv, k: Bv)
    requires |k| == |x| && forall i :: 0 <= i < |k| ==> k[i]
    ensures BvMul(x, k) == BvNeg(x)
  {
    assert Val(x) * Val(k) == Val(k) * Val(x);
    assert k == Ones(|x|);
    ValOnes(|x|);
    FromIntMul(-1, Val(x), |x|);
  }

  // ------------------------------------------------------------------- comparisons

  /** Comparing the next lower bit decides the comparison of one bit more. */
  lemma {:induction false} UltStep(x: Bv, y: Bv, i: nat)
    requires i < |x| == |y|
    ensures Val(x[i..]) < Val(y[i..]) <==>
              Val(x[i + 1..]) < Val(y[i + 1..]) || (x[i + 1..] == y[i + 1..] && !x[i] && y[i])
    ensures x[i..] == y[i..] <==> x[i + 1..] == y[i + 1..] && x[i] == y[i]
  {
    assert x[i..] == [x[i]] + x[i + 1..] && y[i..] == [y[i]] + y[i + 1..];
    if Val(x[i + 1..]) == Val(y[i + 1..]) {
      ValInjective(x[i + 1..], y[i + 1..]);
    }
  }

  lemma {:induction false} SignedLess(x: Bv, y: Bv)
    requires |x| == |y| > 0
    ensures BvSlt(x, y) <==> if Msb(x) != Msb(y) then Msb(x) else Val(x) < Val(y)
  {
    MsbVal(x);
    MsbVal(y);
  }

  // ---------------------------------------------------------------------- shifters

  lemma {:induction false} ShlStage(a: Bv, s: nat, t: nat)
    ensures Shifted(Shifted(a, s, |a|), t, |a|) == Shifted(a, s + t, |a|)
  {}

  lemma {:induction false} ShrStage(a: Bv, s: nat, t: nat, fill: bool)
    ensures ShiftedRight(ShiftedRight(a, s, fill), t, fill) == ShiftedRight(a, s + t, fill)
  {}

  lemma {:induction false} ShrSign(a: Bv, s: nat)
    requires a != []
    ensures Msb(ShiftedRight(a, s, Msb(a))) == Msb(a)
  {}

  /** A shift amount that saturates at a bound no smaller than the width is as good as the exact one. */
  lemma {:induction false} Saturated(a: Bv, s: nat, t: nat, fill: bool)
    requires |a| <= s && |a| <= t
    ensures Shifted(a, s, |a|) == Shifted(a, t, |a|)
    ensures ShiftedRight(a, s, fill) == ShiftedRight(a, t, fill)
  {}

  // ----------------------------------------------------------------------- division

  /** The n-bit register of the restoring divider loses nothing when it shifts: the remainder
      never exceeds the dividend prefix consumed so far, so its top bit is still 0. */
  lemma {:induction false} DivShift(a: Bv, d: int, q: int, rem: Bv, i: nat)
    requires i < |a| == |rem| && d > 0 && q >= 0
    requires Val(a[i + 1..]) == q * d + Val(rem)
    ensures Val([a[i]] + rem[..|a| - 1]) == Bit(a[i]) + 2 * Val(rem)
  {
    hide Val, Pow2;
    MulMonotone(0, q, d);
    Pow2Monotone(|a| - i - 1, |a| - 1);
    RegisterShift(a[i], rem);
  }

  lemma {:induction false} RegisterShift(b: bool, rem: Bv)
    requires rem != [] && Val(rem) < Pow2(|rem| - 1)
    ensures Val([b] + rem[..|rem| - 1]) == Bit(b) + 2 * Val(rem)
  {
    var n := |rem| - 1;
    TakeSnoc(rem, n);
    TakeAll(rem);
    assert ([b] + rem[..n])[1..] == rem[..n];
  }

  /** One step of the restoring divider. */
  lemma {:induction false} DivStep(a: Bv, b: Bv, quo: Bv, rem: Bv, i: nat)
    requires i < |a| == |rem| == |b| && Val(b) > 0 && |quo| == |a| - i - 1
    requires Val(a[i + 1..]) == Val(quo) * Val(b) + Val(rem) && Val(rem) < Val(b)
    ensures var shifted := [a[i]] + rem[..|a| - 1];
            var ge := Val(b) <= Val(shifted);
            var next := if ge then BvSub(shifted, b) else shifted;
            Val(a[i..]) == Val([ge] + quo) * Val(b) + Val(next) && Val(next) < Val(b)
  {
    var shifted := [a[i]] + rem[..|a| - 1];
    var ge := Val(b) <= Val(shifted);
    assert Val(a[i..]) == Bit(a[i]) + 2 * Val(a[i + 1..]) by { assert a[i..] == [a[i]] + a[i + 1..]; }
    assert Val([ge] + quo) == Bit(ge) + 2 * Val(quo) by { assert ([ge] + quo)[1..] == quo; }
    hide Val, FromInt, Pow2;
    DivShift(a, Val(b), Val(quo), rem, i);
    DoubledQuotient(Val(quo), Val(b), ge);
    ValFromInt(if ge then Val(shifted) - Val(b) else 0, |shifted|);
  }

  lemma {:induction false} DoubledQuotient(q: int, d: int, ge: bool)
    ensures (Bit(ge) + 2 * q) * d == (if ge then d else 0) + 2 * (q * d)
  {}

  lemma {:induction false} DivDone(a: Bv, b: Bv, quo: Bv, rem: Bv)
    requires |a| == |b| == |quo| == |rem| && Val(b) > 0
    requires Val(a) == Val(quo) * Val(b) + Val(rem) && Val(rem) < Val(b)
    ensures quo == BvUDiv(a, b) && rem == BvURem(a, b)
  {
    hide Val, FromInt;
    DivUnique(Val(a), Val(b), Val(quo), Val(rem));
    FromIntVal(quo);
    FromIntVal(rem);
  }

  // -------------------------------------------------------------- overflow predicates

  lemma {:induction false} SAddBySigns(x: Bv, y: Bv)
    requires |x| == |y| > 0
    ensures SAddOverflow(x, y) <==> Msb(x) == Msb(y) && Msb(x) != Msb(BvAdd(x, y))
  {
    hide FromInt, Val;
    var s := BvAdd(x, y);
    MsbVal(x);
    MsbVal(y);
    MsbVal(s);
    var k := Rep(Val(x) + Val(y), |x|);
    Magnitude(k, Pow2(|x|));
    Magnitude(k - 1, Pow2(|x|));
    Distribute(k, -1, Pow2(|x|));
  }

  lemma {:induction false} SSubBySigns(x: Bv, y: Bv)
    requires |x| == |y| > 0
    ensures SSubOverflow(x, y) <==> Msb(x) != Msb(y) && Msb(x) != Msb(BvSub(x, y))
  {
    hide FromInt, Val;
    var s := BvSub(x, y);
    MsbVal(x);
    MsbVal(y);
    MsbVal(s);
    var k := Rep(Val(x) - Val(y), |x|);
    Magnitude(k, Pow2(|x|));
    Magnitude(k + 1, Pow2(|x|));
    Distribute(k, 1, Pow2(|x|));
  }

  lemma {:induction false} MulBelow(a: int, b: int, p: int, q: int)
    requires 0 <= a < p && 0 <= b < q
    ensures 0 <= a * b < p * q
  {
    MulMonotone(a, p, b);
    MulMonotone(b, q - 1, p);
    Distribute(q, -1, p);
    MulMonotone(0, a, b);
  }

  lemma {:induction false} ZextVal(x: Bv, extra: nat)
    ensures Val(BvZeroExtend(x, extra)) == Val(x)
  {
    ValConcat(x, Zeros(extra));
    ValZeros(extra);
  }

  /** The double-width unsigned product overflows n bits iff its upper half is not zero. */
  lemma {:induction false} UMulByHighHalf(x: Bv, y: Bv)
    requires |x| == |y|
    ensures UMulOverflow(x, y) <==> Val(FromInt(Val(x) * Val(y), 2 * |x|)[|x|..]) != 0
  {
    hide FromInt, Val, Pow2;
    var m := Val(x) * Val(y);
    MulBelow(Val(x), Val(y), Pow2(|x|), Pow2(|x|));
    WideHighHalf(m, |x|);
  }

  lemma {:induction false} WideHighHalf(m: int, n: nat)
    requires 0 <= m < Pow2(n) * Pow2(n)
    ensures m >= Pow2(n) <==> Val(FromInt(m, 2 * n)[n..]) != 0
  {
    hide FromInt, Val, Pow2;
    var z := FromInt(m, 2 * n);
    Pow2Add(n, n);
    ValFromInt(m, 2 * n);
    assert z == z[..n] + z[n..];
    ValConcat(z[..n], z[n..]);
    Magnitude(Val(z[n..]), Pow2(n));
    Selected(Val(z[n..]), Pow2(n));
  }

  lemma {:induction false} SignedBound(x: Bv)
    requires x != []
    ensures -Pow2(|x| - 1) <= Signed(x) < Pow2(|x| - 1)
  {
    MsbVal(x);
  }

  lemma {:induction false} ProductBound(a: int, b: int, h: int)
    requires -h <= a <= h && -h <= b <= h
    ensures -(h * h) <= a * b <= h * h
  {
    var s, t := if a < 0 then -a else a, if b < 0 then -b else b;
    MulMonotone(s, h, t);
    MulMonotone(t, h, h);
    assert a * b == s * t || a * b == -(s * t);
    MulMonotone(0, s, t);
  }

  /** The double-width signed product fits n bits iff it is the sign extension of its lower half. */
  lemma {:induction false} SMulBySignExtension(x: Bv, y: Bv)
    requires |x| == |y| > 0
    ensures var n := |x|;
            var wide := FromInt(Signed(x) * Signed(y), 2 * n);
            SMulOverflow(x, y) <==> wide != BvSignExtend(wide[..n], n)
  {
    hide FromInt, Val;
    var n := |x|;
    var s := Signed(x) * Signed(y);
    var wide := FromInt(s, 2 * n);
    var h := Pow2(n - 1);
    SignedBound(x);
    SignedBound(y);
    ProductBound(Signed(x), Signed(y), h);
    Pow2Add(n - 1, n - 1);
    assert Pow2(2 * n) == 4 * (h * h) by {
      assert Pow2(2 * n) == 2 * Pow2(2 * n - 1);
      assert (n - 1) + (n - 1) == 2 * n - 2;
    }
    SignedFromInt(s, 2 * n);
    TruncateFromInt(s, n, 2 * n);
    var low := FromInt(s, n);
    SignExtendSigned(low, n);
    MsbVal(low);
    Pow2Monotone(n, 2 * n);
    if FitsSigned(s, n) {
      SignedFromInt(s, n);
    }
  }

  function MinSigned(n: nat): (r: Bv)
    requires n > 0
    ensures |r| == n
  {
    Zeros(n - 1) + [true]
  }

  lemma {:induction false} SignedMin(x: Bv)
    requires x != []
    ensures x == MinSigned(|x|) <==> Signed(x) == -Pow2(|x| - 1)
  {
    hide FromInt, Val, Pow2;
    Pow2Step(|x|);
    ValSnoc(Zeros(|x| - 1), true);
    ValZeros(|x| - 1);
    if Signed(x) == -Pow2(|x| - 1) {
      ValInjective(x, MinSigned(|x|));
    }
  }

  lemma {:induction false} NegOverflowIsMin(x: Bv)
    requires x != []
    ensures NegOverflow(x) <==> x == MinSigned(|x|)
  {
    hide FromInt, Val, Pow2;
    Pow2Step(|x|);
    SignedMin(x);
    MsbVal(x);
  }

  lemma {:induction false} MinusOneIsOnes(y: Bv)
    requires y != []
    ensures Signed(y) == -1 <==> y == Ones(|y|)
  {
    hide FromInt, Val, Pow2;
    ValOnes(|y|);
    FromIntSigned(y);
  }

  lemma {:induction false} TruncatedSigns(n: int, d: int)
    requires d != 0
    ensures var m := if n < 0 then -n else n;
            var e := if d < 0 then -d else d;
            Truncated(n, d) == if (n < 0) == (d < 0) then m / e else -(m / e)
  {
    var m := if n < 0 then -n else n;
    NegDivisor(m, if d < 0 then -d else d);
  }

  lemma {:induction false} NegDivisor(n: int, e: int)
    requires n >= 0 && e > 0
    ensures n / -e == -(n / e)
  {}

  lemma {:induction false} HalvedFits(n: int, d: int, h: int)
    requires h >= 1 && -h <= n < h && (d >= 2 || d <= -2 || d == 1)
    ensures -h <= Truncated(n, d) < h
  {
    var m := if n < 0 then -n else n;
    var e := if d < 0 then -d else d;
    TruncatedSigns(n, d);
    Halved(m, e);
  }

  lemma {:induction false} Halved(m: int, e: int)
    requires m >= 0 && e >= 1
    ensures 0 <= m / e <= m && (e >= 2 ==> 2 * (m / e) <= m)
  {
    MulMonotone(1, e, m / e);
    if e >= 2 { MulMonotone(2, e, m / e); }
  }

  lemma {:induction false} SDivOverflowIsMinByMinusOne(x: Bv, y: Bv)
    requires |x| == |y| > 0
    ensures SDivOverflow(x, y) <==> x == MinSigned(|x|) && y == Ones(|y|)
  {
    SignedMin(x);
    MinusOneIsOnes(y);
    SignedBound(x);
    if Signed(y) != 0 && Signed(y) != -1 {
      HalvedFits(Signed(x), Signed(y), Pow2(|x| - 1));
    } else if Signed(y) == -1 {
      var n := Signed(x);
      if n >= 0 {
        NegDivisor(n, 1);
      } else {
        NegDivisor(-n, 1);
      }
    }
  }

  // --------------------------------------------- signed division as integer division

  lemma {:induction false} ZeroNegated(x: Bv)
    ensures Val(BvNeg(x)) == 0 <==> Val(x) == 0
    ensures Val(x) != 0 ==> Val(BvNeg(x)) == Pow2(|x|) - Val(x)
  {
    hide FromInt, Val, Pow2;
    if Val(x) != 0 {
      ValFromInt(Pow2(|x|) - Val(x), |x|);
      IsFromInt(FromInt(Pow2(|x|) - Val(x), |x|), -Val(x), -1);
    } else {
      ValFromInt(0, |x|);
    }
  }

  /** `Abs` reads as the absolute value, the minimum included. */
  lemma {:induction false} AbsVal(x: Bv)
    requires x != []
    ensures |Abs(x)| == |x|
    ensures Val(Abs(x)) == if Signed(x) < 0 then -Signed(x) else Signed(x)
  {
    MsbVal(x);
    ZeroNegated(x);
  }

  /** The magnitudes of the operands, as naturals. */
  lemma {:induction false} Magnitudes(x: Bv, y: Bv)
    requires |x| == |y| > 0 && Val(y) != 0
    ensures Signed(y) != 0 && (Msb(x) <==> Signed(x) < 0) && (Msb(y) <==> Signed(y) < 0)
    ensures Val(Abs(x)) == (if Signed(x) < 0 then -Signed(x) else Signed(x))
    ensures Val(Abs(y)) == (if Signed(y) < 0 then -Signed(y) else Signed(y)) > 0
    ensures |Abs(x)| == |Abs(y)| == |x|
  {
    hide Val, Pow2, FromInt;
    MsbVal(x);
    MsbVal(y);
    AbsVal(x);
    AbsVal(y);
  }

  /** bvsdiv is integer division rounding toward zero, taken modulo 2^n. */
  lemma {:induction false} SDivIsTruncation(x: Bv, y: Bv)
    requires |x| == |y| > 0 && Val(y) != 0
    ensures Signed(y) != 0
    ensures BvSDiv(x, y) == FromInt(Truncated(Signed(x), Signed(y)), |x|)
  {
    hide *;
    Magnitudes(x, y);
    SDivByMagnitude(x, y);
    UDivValue(Abs(x), Abs(y));
    TruncatedSigns(Signed(x), Signed(y));
    WithSign(Val(Abs(x)) / Val(Abs(y)), |x|);
  }

  /** bvsrem is the remainder of that division: it takes the sign of the dividend. */
  lemma {:induction false} SRemIsRemainder(x: Bv, y: Bv)
    requires |x| == |y| > 0 && Val(y) != 0
    ensures Signed(y) != 0
    ensures BvSRem(x, y) == FromInt(TruncatedRemainder(Signed(x), Signed(y)), |x|)
  {
    hide *;
    Magnitudes(x, y);
    SDivByMagnitude(x, y);
    URemValue(Abs(x), Abs(y));
    RemainderSign(Signed(x), Signed(y));
    WithSign(Val(Abs(x)) % Val(Abs(y)), |x|);
  }

  lemma {:induction false} UDivValue(x: Bv, y: Bv)
    requires Val(y) > 0
    ensures BvUDiv(x, y) == FromInt(Val(x) / Val(y), |x|)
  {
    hide FromInt, Val;
  }

  lemma {:induction false} URemValue(x: Bv, y: Bv)
    requires Val(y) > 0
    ensures BvURem(x, y) == FromInt(Val(x) % Val(y), |x|)
  {
    hide FromInt, Val;
  }

  lemma {:induction false} WithSign(q: int, n: nat)
    ensures BvNeg(FromInt(q, n)) == FromInt(-q, n)
  {
    hide FromInt, Val;
    FromIntNeg(q, n);
  }

  lemma {:induction false} RemainderSign(s: int, t: int)
    requires t != 0
    ensures var m := if s < 0 then -s else s;
            var e := if t < 0 then -t else t;
            TruncatedRemainder(s, t) == if s < 0 then -(m % e) else m % e
  {
    var m := if s < 0 then -s else s;
    var e := if t < 0 then -t else t;
    TruncatedSigns(s, t);
    RemainderSigns(s, t, m / e);
    assert m == e * (m / e) + m % e;
  }

  lemma {:induction false} RemainderSigns(s: int, t: int, q: int)
    ensures (-s) - (-t) * q == -(s - t * q) && (-t) * -q == t * q && t * -q == -(t * q)
  {}

  /** bvsmod is the remainder of division rounding down: it takes the sign of the divisor. */
  lemma {:induction false} SModIsFloorRemainder(x: Bv, y: Bv)
    requires |x| == |y| > 0 && Val(y) != 0
    ensures var (s, t, r) := (Signed(x), Signed(y), Signed(BvSMod(x, y)));
            && (t > 0 ==> 0 <= r < t) && (t < 0 ==> t < r <= 0)
            && exists k :: s == k * t + r
  {
    hide FromInt, Val, Pow2, Signed, Msb, BvSMod, FloorRemainder;
    SModValue(x, y);
    FloorRemainderIs(Signed(x), Signed(y));
    MsbVal(y);
    SignedFromInt(FloorRemainder(Signed(x), Signed(y)), |x|);
  }

  function FloorRemainder(s: int, t: int): int
    requires t != 0
  {
    var u := (if s < 0 then -s else s) % (if t < 0 then -t else t);
    if u == 0 then 0
    else if t > 0 then (if s >= 0 then u else t - u)
    else (if s >= 0 then t + u else -u)
  }

  lemma {:induction false} FloorRemainderIs(s: int, t: int)
    requires t != 0
    ensures var r := FloorRemainder(s, t);
            && (t > 0 ==> 0 <= r < t) && (t < 0 ==> t < r <= 0)
            && exists k :: s == k * t + r
  {
    var m := if s < 0 then -s else s;
    var e := if t < 0 then -t else t;
    var q, u := m / e, m % e;
    FloorCases(s, t, q, e, u);
    var k := if (s < 0) == (t < 0) then q else if u == 0 then -q else -q - 1;
    assert s == k * t + FloorRemainder(s, t);
  }

  lemma {:induction false} FloorCases(s: int, t: int, q: int, e: int, u: int)
    requires t != 0 && e == (if t < 0 then -t else t) && (if s < 0 then -s else s) == q * e + u && 0 <= u < e
    ensures var k := if (s < 0) == (t < 0) then q else if u == 0 then -q else -q - 1;
            s == k * t + if u == 0 then 0
                         else if t > 0 then (if s >= 0 then u else t - u)
                         else (if s >= 0 then t + u else -u)
  {
    var p := q * e;
    assert q * -e == -p && -q * e == -p && -q * -e == p;
    assert (-q - 1) * e == -p - e && (-q - 1) * -e == p + e by { Distribute(-q, -1, e); Distribute(-q, -1, -e); }
  }

  lemma {:induction false} SModValue(x: Bv, y: Bv)
    requires |x| == |y| > 0 && Val(y) != 0
    ensures Signed(y) != 0 && BvSMod(x, y) == FromInt(FloorRemainder(Signed(x), Signed(y)), |x|)
  {
    hide Val, FromInt, Pow2, Signed, Msb, Abs, BvSMod, BvURem;
    Magnitudes(x, y);
    URemValue(Abs(x), Abs(y));
    SModFromRemainder(x, y, Val(Abs(x)) % Val(Abs(y)));
  }

  lemma {:induction false} SModFromRemainder(x: Bv, y: Bv, u: int)
    requires |x| == |y| > 0 && 0 <= u < Pow2(|x|) && BvURem(Abs(x), Abs(y)) == FromInt(u, |x|)
    ensures BvSMod(x, y) == FromInt(if u == 0 then 0
                                    else if !Msb(y) then (if !Msb(x) then u else Signed(y) - u)
                                    else (if !Msb(x) then Signed(y) + u else -u), |x|)
  {
    hide FromInt, Val, Pow2, Signed, Msb, BvURem;
    var n, t := |x|, Signed(y);
    ValFromInt(u, n);
    FromIntNeg(u, n);
    FromIntSigned(y);
    FromIntAdd(-u, t, n);
    FromIntAdd(u, t, n);
  }

  // ------------------------------------------------------- signs and magnitudes

  lemma {:induction false} SDivByMagnitude(x: Bv, y: Bv)
    ensures BvSDiv(x, y) == var q := BvUDiv(Abs(x), Abs(y)); if Msb(x) != Msb(y) then BvNeg(q) else q
    ensures BvSRem(x, y) == var r := BvURem(Abs(x), Abs(y)); if Msb(x) then BvNeg(r) else r
  {}

  lemma {:induction false} SModByMagnitude(x: Bv, y: Bv)
    requires |x| == |y|
    ensures var u := BvURem(Abs(x), Abs(y));
            BvSMod(x, y) == if Val(u) == 0 then u
                            else if Msb(y) then (if Msb(x) then BvNeg(u) else BvAdd(y, u))
                            else (if Msb(x) then BvSub(y, u) else u)
  {
    hide FromInt, Val, Pow2, BvURem;
    var u := BvURem(Abs(x), Abs(y));
    FromIntAdd(-Val(u), Val(y), |y|);
  }
}
