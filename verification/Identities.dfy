/** Bit-vector identities behind the rewrites of the term builder. */
module Identities {
  import opened BitVectors
  import opened CircuitLemmas

  // ------------------------------------------------------------------------- bitwise

  lemma {:induction false} BitwiseCommutes(x: Bv, y: Bv)
    requires |x| == |y|
    ensures BvAnd(x, y) == BvAnd(y, x) && BvOr(x, y) == BvOr(y, x) && BvXor(x, y) == BvXor(y, x)
  {}

  lemma {:induction false} BitwiseSelf(x: Bv)
    ensures BvAnd(x, x) == x && BvOr(x, x) == x && BvXor(x, x) == Zeros(|x|)
    ensures BvAnd(BvNot(x), x) == Zeros(|x|) && BvOr(BvNot(x), x) == Ones(|x|) && BvXor(BvNot(x), x) == Ones(|x|)
    ensures BvNot(BvNot(x)) == x
  {}

  lemma {:induction false} BitwiseUnits(x: Bv)
    ensures BvAnd(Zeros(|x|), x) == Zeros(|x|) && BvOr(Zeros(|x|), x) == x && BvXor(Zeros(|x|), x) == x
    ensures BvAnd(Ones(|x|), x) == x && BvOr(Ones(|x|), x) == Ones(|x|)
  {}

  lemma {:induction false} Absorption(x: Bv, y: Bv)
    requires |x| == |y|
    ensures BvAnd(BvOr(x, y), x) == x && BvOr(BvAnd(x, y), x) == x
  {}

  /** No position carries a bit of both. */
  predicate Disjoint(x: Bv, y: Bv) { |x| == |y| && forall i :: 0 <= i < |x| ==> !(x[i] && y[i]) }

  lemma {:induction false} DisjointAndXor(x: Bv, y: Bv)
    requires Disjoint(x, y)
    ensures BvAnd(x, y) == Zeros(|x|) && BvXor(x, y) == BvOr(x, y)
  {}

  lemma {:induction false} DisjointSum(x: Bv, y: Bv)
    requires Disjoint(x, y)
    ensures Val(BvOr(x, y)) == Val(x) + Val(y)
  {
    if x != [] {
      assert BvOr(x, y)[1..] == BvOr(x[1..], y[1..]);
      assert Disjoint(x[1..], y[1..]);
      DisjointSum(x[1..], y[1..]);
    } else {
      assert BvOr(x, y) == [];
    }
  }

  /** Without common bits there are no carries: the sum is the disjunction. */
  lemma {:induction false} DisjointAdd(x: Bv, y: Bv)
    requires Disjoint(x, y)
    ensures BvAdd(x, y) == BvOr(x, y)
  {
    hide Val, FromInt;
    DisjointSum(x, y);
    FromIntVal(BvOr(x, y));
  }

  /** x and x << x share no bit, because x < 2^x. */
  lemma {:induction false} SelfShiftDisjoint(x: Bv)
    ensures Disjoint(BvShl(x, x), x) && Disjoint(x, BvShl(x, x))
  {
    ShlBits(x, x);
    BelowPow2(Val(x));
    forall i | Val(x) <= i < |x| ensures !x[i] {
      if x[i] {
        BitBelow(x, i);
        Pow2Monotone(Val(x), i);
      }
    }
  }

  lemma {:induction false} BitBelow(x: Bv, i: nat)
    requires i < |x| && x[i]
    ensures Val(x) >= Pow2(i)
  {
    hide Val, Pow2;
    assert x == x[..i + 1] + x[i + 1..];
    ValConcat(x[..i + 1], x[i + 1..]);
    TakeSnoc(x, i);
    MulMonotone(0, Val(x[i + 1..]), Pow2(i + 1));
  }

  /** x >> x is zero, for the same reason. */
  lemma {:induction false} SelfShiftRight(x: Bv)
    ensures BvLShr(x, x) == Zeros(|x|)
  {
    hide FromInt, Pow2, Val;
    BelowPow2(Val(x));
    DivUnique(Val(x), Pow2(Val(x)), 0, Val(x));
    ValZeros(|x|);
  }

  // ---------------------------------------------------------------------- arithmetic

  lemma {:induction false} ArithmeticCommutes(x: Bv, y: Bv)
    requires |x| == |y|
    ensures BvAdd(x, y) == BvAdd(y, x) && BvMul(x, y) == BvMul(y, x)
  {
    hide FromInt, Val;
    assert Val(x) * Val(y) == Val(y) * Val(x);
  }

  lemma {:induction false} ArithmeticUnits(z: Bv, x: Bv)
    requires |z| == |x|
    ensures Val(z) == 0 ==> BvAdd(z, x) == x && BvMul(z, x) == Zeros(|x|) && BvSub(x, z) == x
    ensures Val(z) == 1 ==> BvMul(z, x) == x
    ensures BvSub(x, x) == Zeros(|x|)
  {
    hide FromInt, Val;
    FromIntVal(x);
    ValZeros(|x|);
    Selected(Val(z), Val(x));
  }

  lemma {:induction false} OnesMul(x: Bv)
    ensures BvMul(Ones(|x|), x) == BvNeg(x)
  {
    hide FromInt, Val;
    ValOnes(|x|);
    FromIntMul(-1, Val(x), |x|);
    assert -1 * Val(x) == -Val(x);
  }

  lemma {:induction false} NegNeg(x: Bv)
    ensures BvNeg(BvNeg(x)) == x
  {
    hide FromInt, Val;
    FromIntNeg(-Val(x), |x|);
    FromIntVal(x);
  }

  lemma {:induction false} MulOfNeg(x: Bv, y: Bv)
    requires |x| == |y|
    ensures BvMul(BvNeg(x), y) == BvNeg(BvMul(x, y))
  {
    hide FromInt, Val;
    FromIntMul(-Val(x), Val(y), |x|);
    FromIntNeg(Val(x) * Val(y), |x|);
    assert -Val(x) * Val(y) == -(Val(x) * Val(y));
  }

  lemma {:induction false} MulOfShl(x: Bv, k: Bv, y: Bv)
    requires |x| == |y|
    ensures BvMul(BvShl(x, k), y) == BvShl(BvMul(x, y), k)
  {
    hide FromInt, Val, Pow2;
    var p := Pow2(Val(k));
    FromIntMul(Val(x) * p, Val(y), |x|);
    FromIntMul(Val(x) * Val(y), p, |x|);
    assert (Val(x) * p) * Val(y) == (Val(x) * Val(y)) * p by {
      Associate(Val(x), p, Val(y));
      Associate(Val(x), Val(y), p);
      assert p * Val(y) == Val(y) * p;
    }
  }

  lemma {:induction false} ShlOfNeg(x: Bv, k: Bv)
    ensures BvShl(BvNeg(x), k) == BvNeg(BvShl(x, k))
  {
    hide FromInt, Val, Pow2;
    var p := Pow2(Val(k));
    FromIntMul(-Val(x), p, |x|);
    FromIntNeg(Val(x) * p, |x|);
    assert -Val(x) * p == -(Val(x) * p);
  }

  /** x + (x << k) is x times 1 + (1 << k). */
  lemma {:induction false} ShiftedSame(x: Bv, k: Bv, one: Bv)
    requires |one| == |x| && Val(one) == 1
    ensures BvAdd(x, BvShl(x, k)) == BvMul(x, BvAdd(one, BvShl(one, k)))
  {
    hide FromInt, Val, Pow2;
    var p, n := Pow2(Val(k)), |x|;
    FromIntAdd(Val(x) * p, Val(x), n);
    AddShift(1 * p, 1, n);
    AddShift(Val(x) * p, Val(x), n);
    FromIntMul(1 + p, Val(x), n);
    assert BvShl(one, k) == FromInt(p, n);
    assert BvAdd(one, BvShl(one, k)) == FromInt(1 + p, n);
    assert Val(x) * Val(FromInt(1 + p, n)) == Val(FromInt(1 + p, n)) * Val(x);
    assert (1 + p) * Val(x) == Val(x) + Val(x) * p;
  }

  /** bvnot is minus one minus. */
  lemma {:induction false} NotIsNegMinusOne(x: Bv)
    ensures BvNot(x) == FromInt(-Val(x) - 1, |x|)
  {
    hide FromInt, Val, Pow2;
    ValNot(x);
    IsFromInt(BvNot(x), -Val(x) - 1, -1);
  }

  // -------------------------------------------------------------------------- shifts

  lemma {:induction false} ShiftUnits(x: Bv, k: Bv)
    ensures Val(x) == 0 ==> BvShl(x, k) == Zeros(|x|) && BvLShr(x, k) == Zeros(|x|)
    ensures Val(k) == 0 ==> BvShl(x, k) == x && BvLShr(x, k) == x && BvAShr(x, k) == x
    ensures Val(k) >= |x| ==> BvShl(x, k) == Zeros(|x|) && BvLShr(x, k) == Zeros(|x|)
  {
    hide FromInt, Val, Pow2;
    ShlBits(x, k);
    LShrBits(x, k);
    AShrBits(x, k);
    ZeroIffNoBit(x);
  }

  /** Right shifts commute. */
  lemma {:induction false} LShrCommutes(x: Bv, j: Bv, k: Bv)
    ensures BvLShr(BvLShr(x, j), k) == BvLShr(BvLShr(x, k), j)
  {
    hide FromInt, Val, Pow2, BvLShr, ShiftedRight;
    LShrBits(x, j);
    LShrBits(x, k);
    LShrBits(ShiftedRight(x, Val(j), false), k);
    LShrBits(ShiftedRight(x, Val(k), false), j);
    ShrStage(x, Val(j), Val(k), false);
    ShrStage(x, Val(k), Val(j), false);
  }

  // ------------------------------------------------------------------- unsigned division

  lemma {:induction false} DivisionUnits(x: Bv, y: Bv)
    requires |x| == |y| > 0
    ensures Val(y) == 0 ==> BvUDiv(x, y) == Ones(|x|) && BvURem(x, y) == x
    ensures Val(y) == 1 ==> BvUDiv(x, y) == x && BvURem(x, y) == Zeros(|x|)
    ensures Val(x) == 0 ==> BvURem(x, y) == Zeros(|x|)
    ensures Val(x) == 0 && Val(y) != 0 ==> BvUDiv(x, y) == Zeros(|x|)
  {
    hide FromInt, Val, Pow2;
    FromIntVal(x);
    ValZeros(|x|);
    if Val(x) == 0 { ValInjective(x, Zeros(|x|)); }
    if Val(x) == 0 && Val(y) != 0 { DivUnique(0, Val(y), 0, 0); }
    if Val(y) == 1 { DivUnique(Val(x), 1, Val(x), 0); }
  }

  // ------------------------------------------------------------------ slices and joins

  lemma {:induction false} ExtractAll(x: Bv)
    requires x != []
    ensures BvExtract(x, |x| - 1, 0) == x
  {}

  lemma {:induction false} ExtractOfExtract(x: Bv, high: nat, low: nat, h: nat, l: nat)
    requires low <= high < |x| && l <= h <= high - low
    ensures BvExtract(BvExtract(x, high, low), h, l) == BvExtract(x, low + h, low + l)
  {
    var y := x[low..high + 1];
    var a, b := y[l..h + 1], x[low + l..low + h + 1];
    forall i | 0 <= i < |a| ensures a[i] == b[i] {
      assert a[i] == y[l + i] == x[low + (l + i)];
    }
    assert a == b;
  }

  lemma {:induction false} ExtractOfConcat(x: Bv, y: Bv, high: nat, low: nat)
    requires low <= high < |x| + |y|
    ensures high < |y| ==> BvExtract(BvConcat(x, y), high, low) == BvExtract(y, high, low)
    ensures low >= |y| ==> BvExtract(BvConcat(x, y), high, low) == BvExtract(x, high - |y|, low - |y|)
    ensures low < |y| <= high ==>
              BvExtract(BvConcat(x, y), high, low) == BvConcat(BvExtract(x, high - |y|, 0), BvExtract(y, |y| - 1, low))
  {}

  /** Adjacent slices join. */
  lemma {:induction false} ConcatOfExtracts(x: Bv, high: nat, mid: nat, low: nat)
    requires low <= mid < high < |x|
    ensures BvConcat(BvExtract(x, high, mid + 1), BvExtract(x, mid, low)) == BvExtract(x, high, low)
  {}

  lemma {:induction false} TrivialResizing(x: Bv)
    ensures BvZeroExtend(x, 0) == x && BvSignExtend(x, 0) == x && BvRepeat(x, 1) == x
  {
    assert BvRepeat(x, 0) == [];
  }

  lemma {:induction false} TrivialRotation(x: Bv, amount: nat)
    requires x != [] && amount % |x| == 0
    ensures BvRotateLeft(x, amount) == x && BvRotateRight(x, amount) == x
  {}

  // ------------------------------------------------------------------ extended operands

  /** Comparing an extended vector with a constant compares the child with its low bits. */
  lemma {:induction false} ZeroExtendedEq(x: Bv, extra: nat, c: Bv)
    requires |c| == |x| + extra
    ensures BvZeroExtend(x, extra) == c <==> c[|x|..] == Zeros(extra) && x == c[..|x|]
  {
    assert c == c[..|x|] + c[|x|..];
  }

  lemma {:induction false} SignExtendedEq(x: Bv, extra: nat, c: Bv)
    requires |c| == |x| + extra && x != []
    ensures BvSignExtend(x, extra) == c <==> BvSignExtend(c[..|x|], extra) == c && x == c[..|x|]
  {
    var low := c[..|x|];
    if BvSignExtend(x, extra) == c {
      assert low == x;
    }
  }

  lemma {:induction false} ZeroExtendedOrder(x: Bv, extra: nat, c: Bv)
    requires |c| == |x| + extra
    ensures Val(BvZeroExtend(x, extra)) == Val(x)
    ensures c[|x|..] == Zeros(extra) ==> Val(c) == Val(c[..|x|])
    ensures c[|x|..] != Zeros(extra) ==> Val(c) > Val(x)
  {
    hide Val, Pow2, FromInt;
    ZextVal(x, extra);
    var low, high := c[..|x|], c[|x|..];
    assert c == low + high;
    ValConcat(low, high);
    ValZeros(extra);
    if high != Zeros(extra) {
      if Val(high) == 0 { ValInjective(high, Zeros(extra)); }
      Magnitude(Val(high), Pow2(|x|));
    }
  }
}
