/** Combinational circuits over the gate arena.  Every circuit only grows the arena, keeps what
    earlier gates compute, and drives gates that carry the specified bit vector for all inputs. */
module Circuits {
  import opened BitVectors
  import opened Gates
  import opened CircuitLemmas
  import opened Bytes

  type Bits = seq<GateId>  // least significant bit first

  ghost predicate Ready(g: GateArena, bits: Bits)
    reads g
  {
    g.Valid() && InRange(g.gates, bits)
  }

  /** The arena has grown from its old state and drives `bits`. */
  twostate predicate Drives(g: GateArena, bits: Bits)
    reads g
  {
    Grew(g) && InRange(g.gates, bits)
  }

  twostate predicate Grew(g: GateArena)
    reads g
  {
    g.Valid() && Grown(old(g.gates), g.gates)
  }

  // ------------------------------------------------------------------ wiring only

  function Constants(g: GateArena, value: bool, width: nat): (bits: Bits)
    requires g.Valid()
    reads g
    ensures InRange(g.gates, bits) && |bits| == width
    ensures forall inp: Inputs :: Carried(g.gates, inp, bits) == if value then Ones(width) else Zeros(width)
  {
    var id := g.ConstGate(value);
    assert forall inp: Inputs :: Gate(g.gates, inp, id) == value;
    var bits := seq(width, _ => id);
    assert forall inp: Inputs :: Carried(g.gates, inp, bits) == if value then Ones(width) else Zeros(width);
    bits
  }

  function Extract(value: Bits, high: nat, low: nat): Bits
    requires low <= high < |value|
  {
    value[low..high + 1]
  }

  function Concat(high: Bits, low: Bits): Bits { low + high }

  function SignExtend(value: Bits, extra: nat): Bits
    requires value != []
  {
    value + seq(extra, _ => value[|value| - 1])
  }

  function Repeat(value: Bits, count: nat): Bits {
    if count == 0 then [] else Repeat(value, count - 1) + value
  }

  function RotateLeft(value: Bits, amount: nat): Bits
    requires value != []
  {
    var n := |value|;
    seq(n, i requires 0 <= i < n => value[(i + n - amount % n) % n])
  }

  function RotateRight(value: Bits, amount: nat): Bits
    requires value != []
  {
    var n := |value|;
    seq(n, i requires 0 <= i < n => value[(i + amount % n) % n])
  }

  lemma {:induction false} WiringCarries(g: seq<GateKind>, inp: Inputs, a: Bits, b: Bits, high: nat, low: nat)
    ensures low <= high < |a| ==> Carried(g, inp, Extract(a, high, low)) == BvExtract(Carried(g, inp, a), high, low)
    ensures Carried(g, inp, Concat(a, b)) == BvConcat(Carried(g, inp, a), Carried(g, inp, b))
  {}

  lemma {:induction false} SignExtendCarries(g: seq<GateKind>, inp: Inputs, a: Bits, extra: nat)
    requires a != []
    ensures Carried(g, inp, SignExtend(a, extra)) == BvSignExtend(Carried(g, inp, a), extra)
  {}

  lemma {:induction false} RepeatCarries(g: seq<GateKind>, inp: Inputs, a: Bits, count: nat)
    ensures Carried(g, inp, Repeat(a, count)) == BvRepeat(Carried(g, inp, a), count)
    ensures InRange(g, a) ==> InRange(g, Repeat(a, count))
  {
    if count != 0 {
      RepeatCarries(g, inp, a, count - 1);
      assert Carried(g, inp, Repeat(a, count - 1) + a) == Carried(g, inp, Repeat(a, count - 1)) + Carried(g, inp, a);
    }
  }

  /** The index arithmetic of the rotations selects the two halves the definition swaps. */
  lemma {:induction false} RotateCarries(g: seq<GateKind>, inp: Inputs, a: Bits, amount: nat)
    requires a != []
    ensures Carried(g, inp, RotateLeft(a, amount)) == BvRotateLeft(Carried(g, inp, a), amount)
    ensures Carried(g, inp, RotateRight(a, amount)) == BvRotateRight(Carried(g, inp, a), amount)
    ensures InRange(g, a) ==> InRange(g, RotateLeft(a, amount)) && InRange(g, RotateRight(a, amount))
  {
    hide Gate;
    RotatedHalves(a, amount);
    var n, k := |a|, amount % |a|;
    HalvesCarry(g, inp, a, n - k);
    HalvesCarry(g, inp, a, k);
  }

  lemma {:induction false} HalvesCarry(g: seq<GateKind>, inp: Inputs, a: Bits, k: nat)
    requires k <= |a|
    ensures Carried(g, inp, a[k..] + a[..k]) == Carried(g, inp, a)[k..] + Carried(g, inp, a)[..k]
    ensures InRange(g, a) ==> InRange(g, a[k..] + a[..k])
  {}

  lemma {:induction false} RotatedHalves(a: Bits, amount: nat)
    requires a != []
    ensures var (n, k) := (|a|, amount % |a|);
            RotateLeft(a, amount) == a[n - k..] + a[..n - k] && RotateRight(a, amount) == a[k..] + a[..k]
  {
    var n, k := |a|, amount % |a|;
    var left, right := RotateLeft(a, amount), RotateRight(a, amount);
    forall i | 0 <= i < n
      ensures left[i] == (a[n - k..] + a[..n - k])[i]
      ensures right[i] == (a[k..] + a[..k])[i]
    {
      WrapIndex(i + n - k, n);
      WrapIndex(i + k, n);
    }
  }

  lemma {:induction false} WrapIndex(i: int, n: int)
    requires 0 <= i < 2 * n
    ensures i % n == if i < n then i else i - n
  {
    DivUnique(i, n, if i < n then 0 else 1, if i < n then i else i - n);
  }

  // ----------------------------------------------------------------------- bitwise

  method BitwiseNot(g: GateArena, x: Bits) returns (out: Bits)
    requires Ready(g, x)
    modifies g`gates, g`ids
    ensures Drives(g, out) && |out| == |x|
    ensures forall inp: Inputs {:trigger Carried(g.gates, inp, out)} ::
              Carried(g.gates, inp, out) == BvNot(Carried(g.gates, inp, x))
  {
    hide Gate, GateArena.Valid;
    PrefixIsGrown(g.gates, g.gates);
    out := [];
    for i := 0 to |x|
      invariant Drives(g, out) && |out| == i
      invariant forall inp: Inputs, k :: 0 <= k < i ==> Gate(g.gates, inp, out[k]) == !Gate(g.gates, inp, x[k])
    {
      var bit := g.Negate(x[i]);
      out := out + [bit];
    }
  }

  datatype Connective = Both | Either | Differ

  function Connect(f: Connective, x: bool, y: bool): bool {
    match f
    case Both => x && y
    case Either => x || y
    case Differ => x != y
  }

  function BvConnect(f: Connective, x: Bv, y: Bv): Bv {
    match f
    case Both => BvAnd(x, y)
    case Either => BvOr(x, y)
    case Differ => BvXor(x, y)
  }

  method BitwiseBinary(g: GateArena, f: Connective, a: Bits, b: Bits) returns (out: Bits)
    requires Ready(g, a) && Ready(g, b)
    modifies g`gates, g`ids
    ensures Drives(g, out) && |out| == Min(|a|, |b|)
    ensures forall inp: Inputs {:trigger Carried(g.gates, inp, out)} ::
              Carried(g.gates, inp, out) == BvConnect(f, Carried(g.gates, inp, a), Carried(g.gates, inp, b))
  {
    hide Gate, GateArena.Valid;
    PrefixIsGrown(g.gates, g.gates);
    out := [];
    for i := 0 to Min(|a|, |b|)
      invariant Drives(g, out) && |out| == i
      invariant forall inp: Inputs, k :: 0 <= k < i ==>
                  Gate(g.gates, inp, out[k]) == Connect(f, Gate(g.gates, inp, a[k]), Gate(g.gates, inp, b[k]))
    {
      var bit;
      match f {
        case Both => bit := g.Conjoin(a[i], b[i]);
        case Either => bit := g.Disjoin(a[i], b[i]);
        case Differ => bit := g.ExclusiveOr(a[i], b[i]);
      }
      out := out + [bit];
    }
  }

  method MuxBits(g: GateArena, sel: GateId, t: Bits, f: Bits) returns (out: Bits)
    requires Ready(g, t) && Ready(g, f) && sel < |g.gates| && |t| == |f|
    modifies g`gates, g`ids
    ensures Drives(g, out) && |out| == |t|
    ensures forall inp: Inputs {:trigger Carried(g.gates, inp, out)} ::
              Carried(g.gates, inp, out) ==
              if Gate(g.gates, inp, sel) then Carried(g.gates, inp, t) else Carried(g.gates, inp, f)
  {
    hide Gate, GateArena.Valid;
    PrefixIsGrown(g.gates, g.gates);
    out := [];
    for i := 0 to |t|
      invariant Drives(g, out) && |out| == i
      invariant forall inp: Inputs, k :: 0 <= k < i ==>
                  Gate(g.gates, inp, out[k]) ==
                  if Gate(g.gates, inp, sel) then Gate(g.gates, inp, t[k]) else Gate(g.gates, inp, f[k])
    {
      var bit := g.Choose(sel, t[i], f[i]);
      out := out + [bit];
    }
  }

  // -------------------------------------------------------------------- arithmetic

  /** One cell of the ripple adder. */
  method FullAdder(g: GateArena, x: GateId, y: GateId, c: GateId) returns (sum: GateId, carry: GateId)
    requires g.Valid() && x < |g.gates| && y < |g.gates| && c < |g.gates|
    modifies g`gates, g`ids
    ensures Grew(g) && sum < |g.gates| && carry < |g.gates|
    ensures forall inp: Inputs {:trigger Gate(g.gates, inp, sum)} {:trigger Gate(g.gates, inp, carry)} ::
              var (p, q, r) := (Gate(g.gates, inp, x), Gate(g.gates, inp, y), Gate(g.gates, inp, c));
              && Gate(g.gates, inp, sum) == ((p != q) != r)
              && Gate(g.gates, inp, carry) == ((p && q) || (r && p != q))
  {
    hide Gate, GateArena.Valid;
    var axb := g.ExclusiveOr(x, y);
    sum := g.ExclusiveOr(axb, c);
    var xy := g.Conjoin(x, y);
    var cAndAxb := g.Conjoin(c, axb);
    carry := g.Disjoin(xy, cAndAxb);
  }

  ghost predicate AddedSoFar(x: Bv, y: Bv, s: Bv, c: bool, cin: bool) {
    && |s| <= |x| == |y|
    && Val(s) + Weight(c, |s|) == Val(x[..|s|]) + Val(y[..|s|]) + Bit(cin)
  }

  lemma {:induction false} AddedStart(x: Bv, y: Bv, s: Bv, cin: bool)
    requires |x| == |y| && s == []
    ensures AddedSoFar(x, y, s, cin, cin)
  {}

  lemma {:induction false} AddedEnd(x: Bv, y: Bv, s: Bv, c: bool, cin: bool)
    requires AddedSoFar(x, y, s, c, cin) && |s| == |x|
    ensures Val(s) + Weight(c, |s|) == Val(x) + Val(y) + Bit(cin)
  {
    TakeAll(x);
    TakeAll(y);
  }

  method AddWithCarry(g: GateArena, a: Bits, b: Bits, carryIn: GateId) returns (out: Bits, carry: GateId)
    requires Ready(g, a) && Ready(g, b) && carryIn < |g.gates| && |a| == |b|
    modifies g`gates, g`ids
    ensures Drives(g, out) && |out| == |a| && carry < |g.gates|
    ensures forall inp: Inputs {:trigger Carried(g.gates, inp, out)} ::
              Val(Carried(g.gates, inp, out)) + Weight(Gate(g.gates, inp, carry), |a|)
              == Val(Carried(g.gates, inp, a)) + Val(Carried(g.gates, inp, b)) + Bit(Gate(g.gates, inp, carryIn))
  {
    hide Gate, GateArena.Valid, Val, Pow2;
    PrefixIsGrown(g.gates, g.gates);
    out, carry := [], carryIn;
    forall inp: Inputs
      ensures AddedSoFar(Carried(g.gates, inp, a), Carried(g.gates, inp, b), Carried(g.gates, inp, out),
                         Gate(g.gates, inp, carry), Gate(g.gates, inp, carryIn))
    {
      AddedStart(Carried(g.gates, inp, a), Carried(g.gates, inp, b), Carried(g.gates, inp, out),
                 Gate(g.gates, inp, carry));
    }
    for i := 0 to |a|
      invariant Drives(g, out) && |out| == i && carry < |g.gates|
      invariant forall inp: Inputs {:trigger Carried(g.gates, inp, out)} ::
                  AddedSoFar(Carried(g.gates, inp, a), Carried(g.gates, inp, b), Carried(g.gates, inp, out),
                             Gate(g.gates, inp, carry), Gate(g.gates, inp, carryIn))
    {
      ghost var was, c, done := g.gates, carry, out;
      var sum;
      sum, carry := FullAdder(g, a[i], b[i], carry);
      out := out + [sum];
      forall inp: Inputs
        ensures AddedSoFar(Carried(g.gates, inp, a), Carried(g.gates, inp, b), Carried(g.gates, inp, out),
                           Gate(g.gates, inp, carry), Gate(g.gates, inp, carryIn))
      {
        var x, y, s := Carried(was, inp, a), Carried(was, inp, b), Carried(was, inp, done);
        assert AddedSoFar(x, y, s, Gate(was, inp, c), Gate(was, inp, carryIn));
        assert Carried(g.gates, inp, out) == s + [Gate(g.gates, inp, sum)];
        AdderStep(x, y, s, Gate(was, inp, c), Gate(was, inp, carryIn));
      }
    }
    forall inp: Inputs
      ensures Val(Carried(g.gates, inp, out)) + Weight(Gate(g.gates, inp, carry), |a|)
           == Val(Carried(g.gates, inp, a)) + Val(Carried(g.gates, inp, b)) + Bit(Gate(g.gates, inp, carryIn))
    {
      AddedEnd(Carried(g.gates, inp, a), Carried(g.gates, inp, b), Carried(g.gates, inp, out),
               Gate(g.gates, inp, carry), Gate(g.gates, inp, carryIn));
    }
  }

  method Add(g: GateArena, a: Bits, b: Bits) returns (out: Bits)
    requires Ready(g, a) && Ready(g, b) && |a| == |b|
    modifies g`gates, g`ids
    ensures Drives(g, out) && |out| == |a|
    ensures forall inp: Inputs {:trigger Carried(g.gates, inp, out)} ::
              Carried(g.gates, inp, out) == BvAdd(Carried(g.gates, inp, a), Carried(g.gates, inp, b))
  {
    hide Gate, Val, Pow2, FromInt;
    var carry;
    out, carry := AddWithCarry(g, a, b, g.ConstGate(false));
    forall inp: Inputs
      ensures Carried(g.gates, inp, out) == BvAdd(Carried(g.gates, inp, a), Carried(g.gates, inp, b))
    {
      SumIsAdd(Carried(g.gates, inp, a), Carried(g.gates, inp, b), Carried(g.gates, inp, out),
               Gate(g.gates, inp, carry));
    }
  }

  method Sub(g: GateArena, a: Bits, b: Bits) returns (out: Bits)
    requires Ready(g, a) && Ready(g, b) && |a| == |b|
    modifies g`gates, g`ids
    ensures Drives(g, out) && |out| == |a|
    ensures forall inp: Inputs {:trigger Carried(g.gates, inp, out)} ::
              Carried(g.gates, inp, out) == BvSub(Carried(g.gates, inp, a), Carried(g.gates, inp, b))
  {
    hide Gate, Val, Pow2, FromInt;
    var notB := BitwiseNot(g, b);
    var carry;
    out, carry := AddWithCarry(g, a, notB, g.ConstGate(true));
    forall inp: Inputs
      ensures Carried(g.gates, inp, out) == BvSub(Carried(g.gates, inp, a), Carried(g.gates, inp, b))
    {
      assert Carried(g.gates, inp, notB) == BvNot(Carried(g.gates, inp, b));
      SumIsSub(Carried(g.gates, inp, a), Carried(g.gates, inp, b), Carried(g.gates, inp, out),
               Gate(g.gates, inp, carry));
    }
  }

  method Neg(g: GateArena, x: Bits) returns (out: Bits)
    requires Ready(g, x)
    modifies g`gates, g`ids
    ensures Drives(g, out) && |out| == |x|
    ensures forall inp: Inputs {:trigger Carried(g.gates, inp, out)} ::
              Carried(g.gates, inp, out) == BvNeg(Carried(g.gates, inp, x))
  {
    hide Gate, GateArena.Valid, Val, Pow2, FromInt;
    var zeros := Constants(g, false, |x|);
    out := Sub(g, zeros, x);
    forall inp: Inputs ensures Carried(g.gates, inp, out) == BvNeg(Carried(g.gates, inp, x)) {
      NegIsSub(Carried(g.gates, inp, x));
    }
  }

  /** The row `a AND sel`, shifted up by `shift` and cut to `width`. */
  method PartialProduct(g: GateArena, a: Bits, sel: GateId, shift: nat, width: nat) returns (partial: Bits)
    requires Ready(g, a) && sel < |g.gates|
    modifies g`gates, g`ids
    ensures Drives(g, partial) && |partial| == width
    ensures forall inp: Inputs {:trigger Carried(g.gates, inp, partial)} ::
              Carried(g.gates, inp, partial) ==
              if Gate(g.gates, inp, sel) then Shifted(Carried(g.gates, inp, a), shift, width) else Zeros(width)
  {
    hide Gate, GateArena.Valid;
    PrefixIsGrown(g.gates, g.gates);
    partial := Constants(g, false, width);
    for i := 0 to |a|
      invariant Drives(g, partial) && |partial| == width
      invariant forall inp: Inputs {:trigger Carried(g.gates, inp, partial)} ::
                  Carried(g.gates, inp, partial) ==
                  Row(Carried(g.gates, inp, a), Gate(g.gates, inp, sel), shift, i, width)
    {
      if i + shift < width {
        ghost var was, before := g.gates, partial;
        var bit := g.Conjoin(a[i], sel);
        partial := partial[i + shift := bit];
        forall inp: Inputs
          ensures Carried(g.gates, inp, partial) ==
                  Row(Carried(g.gates, inp, a), Gate(g.gates, inp, sel), shift, i + 1, width)
        {
          assert Carried(g.gates, inp, before) == Row(Carried(was, inp, a), Gate(was, inp, sel), shift, i, width);
          assert Carried(g.gates, inp, partial) == Carried(g.gates, inp, before)[i + shift := Gate(g.gates, inp, bit)];
        }
      }
    }
  }

  /** The first `i` cells of a multiplier row. */
  ghost function Row(x: Bv, sel: bool, shift: nat, i: nat, width: nat): (r: Bv)
    ensures |r| == width
  {
    seq(width, k requires 0 <= k => shift <= k < shift + i && k - shift < |x| && x[k - shift] && sel)
  }

  method MulWidth(g: GateArena, a: Bits, b: Bits, width: nat) returns (acc: Bits)
    requires Ready(g, a) && Ready(g, b)
    modifies g`gates, g`ids
    ensures Drives(g, acc) && |acc| == width
    ensures forall inp: Inputs {:trigger Carried(g.gates, inp, acc)} ::
              Carried(g.gates, inp, acc) ==
                FromInt(Val(Carried(g.gates, inp, a)) * Val(Carried(g.gates, inp, b)), width)
  {
    hide Gate, GateArena.Valid, Val, Pow2, FromInt, BvAdd, Shifted;
    PrefixIsGrown(g.gates, g.gates);
    acc := Constants(g, false, width);
    forall inp: Inputs
      ensures MultipliedSoFar(Carried(g.gates, inp, a), Carried(g.gates, inp, b), 0, Carried(g.gates, inp, acc))
    {
      MulStart(Carried(g.gates, inp, a), Carried(g.gates, inp, b), Carried(g.gates, inp, acc));
    }
    for shift := 0 to |b|
      invariant Drives(g, acc) && |acc| == width
      invariant forall inp: Inputs {:trigger Carried(g.gates, inp, acc)} ::
                  MultipliedSoFar(Carried(g.gates, inp, a), Carried(g.gates, inp, b), shift, Carried(g.gates, inp, acc))
    {
      ghost var done := acc;
      var partial := PartialProduct(g, a, b[shift], shift, width);
      acc := Add(g, acc, partial);
      forall inp: Inputs
        ensures MultipliedSoFar(Carried(g.gates, inp, a), Carried(g.gates, inp, b), shift + 1,
                                Carried(g.gates, inp, acc))
      {
        var x, y := Carried(g.gates, inp, a), Carried(g.gates, inp, b);
        assert MultipliedSoFar(x, y, shift, Carried(g.gates, inp, done));
        assert Carried(g.gates, inp, partial) == if y[shift] then Shifted(x, shift, width) else Zeros(width);
        MulStep(x, y, shift, width);
      }
    }
    forall inp: Inputs
      ensures Carried(g.gates, inp, acc) ==
                FromInt(Val(Carried(g.gates, inp, a)) * Val(Carried(g.gates, inp, b)), width)
    {
      TakeAll(Carried(g.gates, inp, b));
    }
  }

  ghost predicate MultipliedSoFar(x: Bv, y: Bv, shift: nat, acc: Bv) {
    shift <= |y| && acc == FromInt(Val(x) * Val(y[..shift]), |acc|)
  }

  lemma {:induction false} MulStart(x: Bv, y: Bv, acc: Bv)
    requires acc == Zeros(|acc|)
    ensures MultipliedSoFar(x, y, 0, acc)
  {
    ValZeros(|acc|);
    assert Val(y[..0]) == 0;
    hide FromInt, Val;
    assert Val(x) * Val(y[..0]) == 0;
  }

  method Mul(g: GateArena, a: Bits, b: Bits) returns (out: Bits)
    requires Ready(g, a) && Ready(g, b) && |a| == |b|
    modifies g`gates, g`ids
    ensures Drives(g, out) && |out| == |a|
    ensures forall inp: Inputs {:trigger Carried(g.gates, inp, out)} ::
              Carried(g.gates, inp, out) == BvMul(Carried(g.gates, inp, a), Carried(g.gates, inp, b))
  {
    hide Gate, GateArena.Valid, Val, FromInt;
    out := MulWidth(g, a, b, |a|);
  }

  predicate ConstIsZero(constant: seq<Byte>, width: nat) { forall bit :: 0 <= bit < width ==> !GetBit(constant, bit) }
  predicate ConstIsOne(constant: seq<Byte>, width: nat) {
    GetBit(constant, 0) && forall bit :: 1 <= bit < width ==> !GetBit(constant, bit)
  }
  predicate ConstIsAllOnes(constant: seq<Byte>, width: nat) { forall bit :: 0 <= bit < width ==> GetBit(constant, bit) }

  /** Multiplication by a constant adds one shifted copy per set bit. */
  method MulConst(g: GateArena, value: Bits, constant: seq<Byte>) returns (out: Bits)
    requires Ready(g, value) && value != []
    modifies g`gates, g`ids
    ensures Drives(g, out) && |out| == |value|
    ensures forall inp: Inputs {:trigger Carried(g.gates, inp, out)} ::
              Carried(g.gates, inp, out) == BvMul(Carried(g.gates, inp, value), Decoded(constant, |value|))
  {
    hide Gate, GateArena.Valid, Val, Pow2, FromInt, GetBit;
    PrefixIsGrown(g.gates, g.gates);
    var width := |value|;
    ghost var k := Decoded(constant, width);
    if ConstIsZero(constant, width) {
      out := Constants(g, false, width);
      forall inp: Inputs ensures Carried(g.gates, inp, out) == BvMul(Carried(g.gates, inp, value), k) {
        MulByZero(Carried(g.gates, inp, value), k);
      }
    } else if ConstIsOne(constant, width) {
      out := value;
      forall inp: Inputs ensures Carried(g.gates, inp, out) == BvMul(Carried(g.gates, inp, value), k) {
        MulByOne(Carried(g.gates, inp, value), k);
      }
    } else if ConstIsAllOnes(constant, width) {
      out := Neg(g, value);
      forall inp: Inputs ensures Carried(g.gates, inp, out) == BvMul(Carried(g.gates, inp, value), k) {
        MulByMinusOne(Carried(g.gates, inp, value), k);
      }
    } else {
      out := MulConstRows(g, value, constant);
    }
  }

  datatype Accumulator = Nothing | Sum(bits: Bits)

  method MulConstRows(g: GateArena, value: Bits, constant: seq<Byte>) returns (out: Bits)
    requires Ready(g, value) && value != []
    modifies g`gates, g`ids
    ensures Drives(g, out) && |out| == |value|
    ensures forall inp: Inputs {:trigger Carried(g.gates, inp, out)} ::
              Carried(g.gates, inp, out) == BvMul(Carried(g.gates, inp, value), Decoded(constant, |value|))
  {
    hide Gate, GateArena.Valid, Val, Pow2, FromInt, GetBit, BvAdd, Shifted;
    PrefixIsGrown(g.gates, g.gates);
    var width := |value|;
    ghost var k := Decoded(constant, width);
    var acc := Nothing;
    assert Val(k[..0]) == 0 by { ValZeros(0); assert k[..0] == Zeros(0); }
    for shift := 0 to width
      invariant Grew(g)
      invariant acc.Nothing? ==> Val(k[..shift]) == 0
      invariant acc.Sum? ==> InRange(g.gates, acc.bits) && |acc.bits| == width
      invariant acc.Sum? ==> forall inp: Inputs {:trigger Carried(g.gates, inp, acc.bits)} ::
                    MultipliedSoFar(Carried(g.gates, inp, value), k, shift, Carried(g.gates, inp, acc.bits))
    {
      assert k[shift] == GetBit(constant, shift);
      TakeSnoc(k, shift);
      if !GetBit(constant, shift) {
        forall inp: Inputs | acc.Sum?
          ensures MultipliedSoFar(Carried(g.gates, inp, value), k, shift + 1, Carried(g.gates, inp, acc.bits))
        {}
        continue;
      }
      var partial := ShiftUp(g, value, shift);
      var before := acc;
      if acc.Sum? {
        var next := Add(g, acc.bits, partial);
        acc := Sum(next);
        forall inp: Inputs
          ensures MultipliedSoFar(Carried(g.gates, inp, value), k, shift + 1, Carried(g.gates, inp, next))
        {
          assert MultipliedSoFar(Carried(g.gates, inp, value), k, shift, Carried(g.gates, inp, before.bits));
          MulStep(Carried(g.gates, inp, value), k, shift, width);
        }
      } else {
        acc := Sum(partial);
        forall inp: Inputs
          ensures MultipliedSoFar(Carried(g.gates, inp, value), k, shift + 1, Carried(g.gates, inp, partial))
        {
          ShiftedIsProduct(Carried(g.gates, inp, value), shift, width);
          assert Val(k[..shift + 1]) == Pow2(shift);
        }
      }
    }
    TakeAll(k);
    if acc.Sum? {
      out := acc.bits;
    } else {
      out := Constants(g, false, width);
      forall inp: Inputs ensures Carried(g.gates, inp, out) == BvMul(Carried(g.gates, inp, value), k) {
        ZeroIffNoBit(k);
        MulByZero(Carried(g.gates, inp, value), k);
      }
    }
  }

  /** `value` moved up by `shift` positions over false gates. */
  function ShiftUp(g: GateArena, value: Bits, shift: nat): (out: Bits)
    requires Ready(g, value)
    reads g
    ensures InRange(g.gates, out) && |out| == |value|
    ensures forall inp: Inputs {:trigger Carried(g.gates, inp, out)} ::
              Carried(g.gates, inp, out) == Shifted(Carried(g.gates, inp, value), shift, |value|)
  {
    var n := |value|;
    if shift < n then
      var out := Constants(g, false, shift) + value[..n - shift];
      assert forall inp: Inputs :: Carried(g.gates, inp, out) ==
               Carried(g.gates, inp, Constants(g, false, shift)) + Carried(g.gates, inp, value)[..n - shift];
      out
    else Constants(g, false, n)
  }

  // ------------------------------------------------------------------- comparisons

  method EqBits(g: GateArena, a: Bits, b: Bits) returns (out: GateId)
    requires Ready(g, a) && Ready(g, b) && |a| == |b|
    modifies g`gates, g`ids
    ensures Grew(g) && out < |g.gates|
    ensures forall inp: Inputs {:trigger Gate(g.gates, inp, out)} ::
              Gate(g.gates, inp, out) <==> Carried(g.gates, inp, a) == Carried(g.gates, inp, b)
  {
    hide Gate, GateArena.Valid;
    PrefixIsGrown(g.gates, g.gates);
    var same := [];
    for i := 0 to |a|
      invariant Drives(g, same) && |same| == i
      invariant forall inp: Inputs, k :: 0 <= k < i ==>
                  Gate(g.gates, inp, same[k]) == (Gate(g.gates, inp, a[k]) == Gate(g.gates, inp, b[k]))
    {
      var bit := g.Xnor(a[i], b[i]);
      same := same + [bit];
    }
    ghost var was := g.gates;
    out := g.ConjoinAll(same);
    forall inp: Inputs
      ensures Gate(g.gates, inp, out) <==> Carried(g.gates, inp, a) == Carried(g.gates, inp, b)
    {
      assert forall k :: 0 <= k < |a| ==>
                           Gate(g.gates, inp, same[k]) == (Carried(g.gates, inp, a)[k] == Carried(g.gates, inp, b)[k]);
    }
  }

  method IsZero(g: GateArena, x: Bits) returns (out: GateId)
    requires Ready(g, x)
    modifies g`gates, g`ids
    ensures Grew(g) && out < |g.gates|
    ensures forall inp: Inputs {:trigger Gate(g.gates, inp, out)} ::
              Gate(g.gates, inp, out) <==> Val(Carried(g.gates, inp, x)) == 0
  {
    hide Gate, GateArena.Valid, Val;
    var any := g.DisjoinAll(x);
    out := g.Negate(any);
    forall inp: Inputs ensures Gate(g.gates, inp, out) <==> Val(Carried(g.gates, inp, x)) == 0 {
      ZeroIffNoBit(Carried(g.gates, inp, x));
      assert forall k :: 0 <= k < |x| ==> Carried(g.gates, inp, x)[k] == Gate(g.gates, inp, x[k]);
    }
  }

  /** Compares from the most significant bit down. */
  method Ult(g: GateArena, a: Bits, b: Bits) returns (lt: GateId)
    requires Ready(g, a) && Ready(g, b) && |a| == |b|
    modifies g`gates, g`ids
    ensures Grew(g) && lt < |g.gates|
    ensures forall inp: Inputs {:trigger Gate(g.gates, inp, lt)} ::
              Gate(g.gates, inp, lt) <==> BvUlt(Carried(g.gates, inp, a), Carried(g.gates, inp, b))
  {
    hide Gate, GateArena.Valid, Val;
    PrefixIsGrown(g.gates, g.gates);
    lt := g.ConstGate(false);
    var eq: GateId := g.ConstGate(true);
    var i := |a|;
    while i > 0
      invariant 0 <= i <= |a|
      invariant Grew(g) && lt < |g.gates| && eq < |g.gates|
      invariant forall inp: Inputs {:trigger Gate(g.gates, inp, lt)} {:trigger Gate(g.gates, inp, eq)} ::
                  ComparedSoFar(Carried(g.gates, inp, a), Carried(g.gates, inp, b), i,
                                Gate(g.gates, inp, lt), Gate(g.gates, inp, eq))
    {
      i := i - 1;
      ghost var was, ltWas, eqWas := g.gates, lt, eq;
      lt, eq := UltCell(g, a[i], b[i], lt, eq);
      forall inp: Inputs
        ensures ComparedSoFar(Carried(g.gates, inp, a), Carried(g.gates, inp, b), i,
                              Gate(g.gates, inp, lt), Gate(g.gates, inp, eq))
      {
        var x, y := Carried(g.gates, inp, a), Carried(g.gates, inp, b);
        assert ComparedSoFar(x, y, i + 1, Gate(was, inp, ltWas), Gate(was, inp, eqWas));
        UltStep(x, y, i);
      }
    }
    forall inp: Inputs
      ensures Gate(g.gates, inp, lt) <==> BvUlt(Carried(g.gates, inp, a), Carried(g.gates, inp, b))
    {
      var x, y := Carried(g.gates, inp, a), Carried(g.gates, inp, b);
      assert x[0..] == x && y[0..] == y;
      assert ComparedSoFar(x, y, 0, Gate(g.gates, inp, lt), Gate(g.gates, inp, eq));
    }
  }

  ghost predicate ComparedSoFar(x: Bv, y: Bv, i: nat, lt: bool, eq: bool) {
    && i <= |x| == |y|
    && (lt <==> Val(x[i..]) < Val(y[i..]))
    && (eq <==> x[i..] == y[i..])
  }

  /** One cell of the comparator. */
  method UltCell(g: GateArena, x: GateId, y: GateId, lt: GateId, eq: GateId) returns (lt': GateId, eq': GateId)
    requires g.Valid() && x < |g.gates| && y < |g.gates| && lt < |g.gates| && eq < |g.gates|
    modifies g`gates, g`ids
    ensures Grew(g) && lt' < |g.gates| && eq' < |g.gates|
    ensures forall inp: Inputs {:trigger Gate(g.gates, inp, lt')} {:trigger Gate(g.gates, inp, eq')} ::
              var (p, q) := (Gate(g.gates, inp, x), Gate(g.gates, inp, y));
              && Gate(g.gates, inp, lt') == (Gate(g.gates, inp, lt) || (Gate(g.gates, inp, eq) && !p && q))
              && Gate(g.gates, inp, eq') == (Gate(g.gates, inp, eq) && p == q)
  {
    hide Gate, GateArena.Valid;
    var notX := g.Negate(x);
    var xLtY := g.Conjoin(notX, y);
    var eqAndLt := g.Conjoin(eq, xLtY);
    lt' := g.Disjoin(lt, eqAndLt);
    var same := g.Xnor(x, y);
    eq' := g.Conjoin(eq, same);
  }

  method Ule(g: GateArena, a: Bits, b: Bits) returns (out: GateId)
    requires Ready(g, a) && Ready(g, b) && |a| == |b|
    modifies g`gates, g`ids
    ensures Grew(g) && out < |g.gates|
    ensures forall inp: Inputs {:trigger Gate(g.gates, inp, out)} ::
              Gate(g.gates, inp, out) <==> BvUle(Carried(g.gates, inp, a), Carried(g.gates, inp, b))
  {
    hide Gate, GateArena.Valid, Val;
    var greater := Ult(g, b, a);
    out := g.Negate(greater);
  }

  method Slt(g: GateArena, a: Bits, b: Bits) returns (out: GateId)
    requires Ready(g, a) && Ready(g, b) && |a| == |b| > 0
    modifies g`gates, g`ids
    ensures Grew(g) && out < |g.gates|
    ensures forall inp: Inputs {:trigger Gate(g.gates, inp, out)} ::
              Gate(g.gates, inp, out) <==> BvSlt(Carried(g.gates, inp, a), Carried(g.gates, inp, b))
  {
    hide Gate, GateArena.Valid, Val, BvSlt;
    var signA, signB := a[|a| - 1], b[|b| - 1];
    var signsDiffer := g.ExclusiveOr(signA, signB);
    var unsignedLt := Ult(g, a, b);
    out := g.Choose(signsDiffer, signA, unsignedLt);
    forall inp: Inputs
      ensures Gate(g.gates, inp, out) <==> BvSlt(Carried(g.gates, inp, a), Carried(g.gates, inp, b))
    {
      SignedLess(Carried(g.gates, inp, a), Carried(g.gates, inp, b));
    }
  }

  method Sle(g: GateArena, a: Bits, b: Bits) returns (out: GateId)
    requires Ready(g, a) && Ready(g, b) && |a| == |b| > 0
    modifies g`gates, g`ids
    ensures Grew(g) && out < |g.gates|
    ensures forall inp: Inputs {:trigger Gate(g.gates, inp, out)} ::
              Gate(g.gates, inp, out) <==> BvSle(Carried(g.gates, inp, a), Carried(g.gates, inp, b))
  {
    hide Gate, GateArena.Valid, Signed;
    var greater := Slt(g, b, a);
    out := g.Negate(greater);
  }

  // ------------------------------------------------------------------------ shifts

  const USIZE_MAX: nat := 0xFFFF_FFFF_FFFF_FFFF

  /** 2^stage, saturated at the largest machine word. */
  function StageShift(stage: nat): nat { if stage < 64 then Pow2(stage) else USIZE_MAX }

  lemma {:induction false} StageShiftValue(stage: nat)
    ensures StageShift(stage) == Pow2(stage) || (StageShift(stage) == USIZE_MAX && USIZE_MAX <= Pow2(stage))
  {
    if stage >= 64 {
      Pow2Monotone(64, stage);
      Pow2At64();
    }
  }

  lemma {:induction false} Pow2At64()
    ensures Pow2(64) == 0x1_0000_0000_0000_0000
  {
    assert Pow2(4) == 0x10;
    Pow2Add(4, 4);
    Pow2Add(8, 8);
    Pow2Add(16, 16);
    Pow2Add(32, 32);
  }

  /** A shift of the first stages composes with the next stage. */
  lemma {:induction false} StageComposes(a: Bv, amount: Bv, stage: nat, fill: bool)
    requires stage < |amount| && |a| <= USIZE_MAX
    ensures var s := Val(amount[..stage]);
            var t := Val(amount[..stage + 1]);
            && s >= 0 && t >= 0
            && Shifted(a, t, |a|) ==
                 (if amount[stage] then Shifted(Shifted(a, s, |a|), StageShift(stage), |a|) else Shifted(a, s, |a|))
            && ShiftedRight(a, t, fill) ==
                 (if amount[stage] then ShiftedRight(ShiftedRight(a, s, fill), StageShift(stage), fill)
                  else ShiftedRight(a, s, fill))
  {
    hide Val, Pow2, Shifted, ShiftedRight;
    var s, u := Val(amount[..stage]), StageShift(stage);
    TakeSnoc(amount, stage);
    StageShiftValue(stage);
    ShlStage(a, s, u);
    ShrStage(a, s, u, fill);
    if u != Pow2(stage) {
      Saturated(a, s + u, s + Pow2(stage), fill);
    }
  }

  method Shl(g: GateArena, value: Bits, amount: Bits) returns (out: Bits)
    requires Ready(g, value) && Ready(g, amount) && |value| <= USIZE_MAX
    modifies g`gates, g`ids
    ensures Drives(g, out) && |out| == |value|
    ensures forall inp: Inputs {:trigger Carried(g.gates, inp, out)} ::
              Carried(g.gates, inp, out) == BvShl(Carried(g.gates, inp, value), Carried(g.gates, inp, amount))
  {
    hide Gate, GateArena.Valid, Val, Pow2, Shifted, FromInt, StageShift;
    PrefixIsGrown(g.gates, g.gates);
    out := value;
    forall inp: Inputs
      ensures ShiftedSoFar(Carried(g.gates, inp, value), Carried(g.gates, inp, amount), 0, Carried(g.gates, inp, out))
    {
      ShiftStart(Carried(g.gates, inp, value), Carried(g.gates, inp, amount));
    }
    for stage := 0 to |amount|
      invariant Drives(g, out) && |out| == |value|
      invariant forall inp: Inputs {:trigger Carried(g.gates, inp, out)} ::
                  ShiftedSoFar(Carried(g.gates, inp, value), Carried(g.gates, inp, amount), stage,
                               Carried(g.gates, inp, out))
    {
      ghost var before := out;
      var shifted := ShiftUp(g, out, StageShift(stage));
      out := MuxBits(g, amount[stage], shifted, out);
      forall inp: Inputs
        ensures ShiftedSoFar(Carried(g.gates, inp, value), Carried(g.gates, inp, amount), stage + 1,
                             Carried(g.gates, inp, out))
      {
        var x, y := Carried(g.gates, inp, value), Carried(g.gates, inp, amount);
        assert ShiftedSoFar(x, y, stage, Carried(g.gates, inp, before));
        StageComposes(x, y, stage, false);
      }
    }
    forall inp: Inputs
      ensures Carried(g.gates, inp, out) == BvShl(Carried(g.gates, inp, value), Carried(g.gates, inp, amount))
    {
      var x, y := Carried(g.gates, inp, value), Carried(g.gates, inp, amount);
      TakeAll(y);
      ShlBits(x, y);
    }
  }

  ghost predicate ShiftedSoFar(x: Bv, y: Bv, stage: nat, out: Bv) {
    stage <= |y| && out == Shifted(x, Val(y[..stage]), |x|)
  }

  ghost predicate ShiftedRightSoFar(x: Bv, y: Bv, fill: bool, stage: nat, out: Bv) {
    stage <= |y| && out == ShiftedRight(x, Val(y[..stage]), fill)
  }

  lemma {:induction false} ShiftStart(x: Bv, y: Bv)
    ensures ShiftedSoFar(x, y, 0, x)
    ensures forall fill :: ShiftedRightSoFar(x, y, fill, 0, x)
  {
    assert y[..0] == [];
    assert Shifted(x, 0, |x|) == x && forall fill :: ShiftedRight(x, 0, fill) == x;
  }

  /** `value` moved down by `shift` positions under `fill`. */
  function ShiftDown(g: GateArena, value: Bits, shift: nat, fill: GateId): (out: Bits)
    requires Ready(g, value) && fill < |g.gates|
    reads g
    ensures InRange(g.gates, out) && |out| == |value|
    ensures forall inp: Inputs {:trigger Carried(g.gates, inp, out)} ::
              Carried(g.gates, inp, out) == ShiftedRight(Carried(g.gates, inp, value), shift, Gate(g.gates, inp, fill))
  {
    var n := |value|;
    if shift < n then value[shift..] + seq(shift, _ => fill) else seq(n, _ => fill)
  }

  method LShr(g: GateArena, value: Bits, amount: Bits) returns (out: Bits)
    requires Ready(g, value) && Ready(g, amount) && |value| <= USIZE_MAX
    modifies g`gates, g`ids
    ensures Drives(g, out) && |out| == |value|
    ensures forall inp: Inputs {:trigger Carried(g.gates, inp, out)} ::
              Carried(g.gates, inp, out) == BvLShr(Carried(g.gates, inp, value), Carried(g.gates, inp, amount))
  {
    hide Gate, GateArena.Valid, Val, Pow2, ShiftedRight, FromInt, StageShift;
    PrefixIsGrown(g.gates, g.gates);
    out := value;
    forall inp: Inputs
      ensures ShiftedRightSoFar(Carried(g.gates, inp, value), Carried(g.gates, inp, amount), false, 0,
                                Carried(g.gates, inp, out))
    {
      ShiftStart(Carried(g.gates, inp, value), Carried(g.gates, inp, amount));
    }
    for stage := 0 to |amount|
      invariant Drives(g, out) && |out| == |value|
      invariant forall inp: Inputs {:trigger Carried(g.gates, inp, out)} ::
                  ShiftedRightSoFar(Carried(g.gates, inp, value), Carried(g.gates, inp, amount), false, stage,
                                    Carried(g.gates, inp, out))
    {
      ghost var before := out;
      var shifted := ShiftDown(g, out, StageShift(stage), g.ConstGate(false));
      out := MuxBits(g, amount[stage], shifted, out);
      forall inp: Inputs
        ensures ShiftedRightSoFar(Carried(g.gates, inp, value), Carried(g.gates, inp, amount), false, stage + 1,
                                  Carried(g.gates, inp, out))
      {
        var x, y := Carried(g.gates, inp, value), Carried(g.gates, inp, amount);
        assert ShiftedRightSoFar(x, y, false, stage, Carried(g.gates, inp, before));
        StageComposes(x, y, stage, false);
      }
    }
    forall inp: Inputs
      ensures Carried(g.gates, inp, out) == BvLShr(Carried(g.gates, inp, value), Carried(g.gates, inp, amount))
    {
      var x, y := Carried(g.gates, inp, value), Carried(g.gates, inp, amount);
      TakeAll(y);
      LShrBits(x, y);
    }
  }

  method AShr(g: GateArena, value: Bits, amount: Bits) returns (out: Bits)
    requires Ready(g, value) && Ready(g, amount) && 0 < |value| <= USIZE_MAX
    modifies g`gates, g`ids
    ensures Drives(g, out) && |out| == |value|
    ensures forall inp: Inputs {:trigger Carried(g.gates, inp, out)} ::
              Carried(g.gates, inp, out) == BvAShr(Carried(g.gates, inp, value), Carried(g.gates, inp, amount))
  {
    hide Gate, GateArena.Valid, Val, Pow2, ShiftedRight, FromInt, StageShift, BvAShr;
    PrefixIsGrown(g.gates, g.gates);
    out := value;
    forall inp: Inputs
      ensures var x := Carried(g.gates, inp, value);
              ShiftedRightSoFar(x, Carried(g.gates, inp, amount), Msb(x), 0, Carried(g.gates, inp, out))
    {
      ShiftStart(Carried(g.gates, inp, value), Carried(g.gates, inp, amount));
    }
    for stage := 0 to |amount|
      invariant Drives(g, out) && |out| == |value|
      invariant forall inp: Inputs {:trigger Carried(g.gates, inp, out)} ::
                  var x := Carried(g.gates, inp, value);
                  ShiftedRightSoFar(x, Carried(g.gates, inp, amount), Msb(x), stage, Carried(g.gates, inp, out))
    {
      ghost var before := out;
      var sign := out[|out| - 1];
      var shifted := ShiftDown(g, out, StageShift(stage), sign);
      out := MuxBits(g, amount[stage], shifted, out);
      forall inp: Inputs
        ensures var x := Carried(g.gates, inp, value);
                ShiftedRightSoFar(x, Carried(g.gates, inp, amount), Msb(x), stage + 1, Carried(g.gates, inp, out))
      {
        var x, y := Carried(g.gates, inp, value), Carried(g.gates, inp, amount);
        assert ShiftedRightSoFar(x, y, Msb(x), stage, Carried(g.gates, inp, before));
        ShrSign(x, Val(y[..stage]));
        StageComposes(x, y, stage, Msb(x));
      }
    }
    forall inp: Inputs
      ensures Carried(g.gates, inp, out) == BvAShr(Carried(g.gates, inp, value), Carried(g.gates, inp, amount))
    {
      var x, y := Carried(g.gates, inp, value), Carried(g.gates, inp, amount);
      TakeAll(y);
      AShrBits(x, y);
    }
  }

  // ---------------------------------------------------------------------- division

  /** Restoring division, from the top dividend bit down, in an n-bit remainder register. */
  method UDivURem(g: GateArena, dividend: Bits, divisor: Bits) returns (quotient: Bits, remainder: Bits)
    requires Ready(g, dividend) && Ready(g, divisor) && |dividend| == |divisor| > 0
    modifies g`gates, g`ids
    ensures Drives(g, quotient) && InRange(g.gates, remainder) && |quotient| == |remainder| == |dividend|
    ensures forall inp: Inputs {:trigger Carried(g.gates, inp, quotient)} {:trigger Carried(g.gates, inp, remainder)} ::
              var (a, b) := (Carried(g.gates, inp, dividend), Carried(g.gates, inp, divisor));
              Carried(g.gates, inp, quotient) == BvUDiv(a, b) && Carried(g.gates, inp, remainder) == BvURem(a, b)
  {
    hide Gate, GateArena.Valid, Val, FromInt, BvSub;
    var quo, rem := DivideBits(g, dividend, divisor);
    var divisorZero := IsZero(g, divisor);
    var allOnes := Constants(g, true, |dividend|);
    quotient := MuxBits(g, divisorZero, allOnes, quo);
    remainder := MuxBits(g, divisorZero, dividend, rem);
    forall inp: Inputs
      ensures Carried(g.gates, inp, quotient) == BvUDiv(Carried(g.gates, inp, dividend), Carried(g.gates, inp, divisor))
      ensures Carried(g.gates, inp, remainder) ==
                BvURem(Carried(g.gates, inp, dividend), Carried(g.gates, inp, divisor))
    {
      var a, b := Carried(g.gates, inp, dividend), Carried(g.gates, inp, divisor);
      assert DividedSoFar(a, b, 0, Carried(g.gates, inp, quo), Carried(g.gates, inp, rem));
      assert a[0..] == a && Carried(g.gates, inp, quo)[0..] == Carried(g.gates, inp, quo);
      if Val(b) > 0 {
        DivDone(a, b, Carried(g.gates, inp, quo), Carried(g.gates, inp, rem));
      }
    }
  }

  /** The loop of the divider; its result is meaningful for divisors other than zero. */
  method DivideBits(g: GateArena, dividend: Bits, divisor: Bits) returns (quo: Bits, rem: Bits)
    requires Ready(g, dividend) && Ready(g, divisor) && |dividend| == |divisor| > 0
    modifies g`gates, g`ids
    ensures Drives(g, quo) && InRange(g.gates, rem) && |quo| == |rem| == |dividend|
    ensures forall inp: Inputs {:trigger Carried(g.gates, inp, quo)} {:trigger Carried(g.gates, inp, rem)} ::
              DividedSoFar(Carried(g.gates, inp, dividend), Carried(g.gates, inp, divisor), 0,
                           Carried(g.gates, inp, quo), Carried(g.gates, inp, rem))
  {
    hide Gate, GateArena.Valid, Val, FromInt, BvSub;
    PrefixIsGrown(g.gates, g.gates);
    var n := |dividend|;
    rem := Constants(g, false, n);
    quo := Constants(g, false, n);
    forall inp: Inputs
      ensures DividedSoFar(Carried(g.gates, inp, dividend), Carried(g.gates, inp, divisor), n,
                           Carried(g.gates, inp, quo), Carried(g.gates, inp, rem))
    {
      DivStart(Carried(g.gates, inp, dividend), Carried(g.gates, inp, divisor), Carried(g.gates, inp, quo));
    }
    var i := n;
    while i > 0
      invariant 0 <= i <= n && |quo| == |rem| == n
      invariant Drives(g, quo) && InRange(g.gates, rem)
      invariant forall inp: Inputs {:trigger Carried(g.gates, inp, quo)} {:trigger Carried(g.gates, inp, rem)} ::
                  DividedSoFar(Carried(g.gates, inp, dividend), Carried(g.gates, inp, divisor), i,
                               Carried(g.gates, inp, quo), Carried(g.gates, inp, rem))
    {
      i := i - 1;
      ghost var quoWas, remWas := quo, rem;
      var ge;
      ge, rem := DivideCell(g, dividend[i], rem, divisor);
      quo := quo[i := ge];
      forall inp: Inputs
        ensures DividedSoFar(Carried(g.gates, inp, dividend), Carried(g.gates, inp, divisor), i,
                             Carried(g.gates, inp, quo), Carried(g.gates, inp, rem))
      {
        var a, b := Carried(g.gates, inp, dividend), Carried(g.gates, inp, divisor);
        var q, r := Carried(g.gates, inp, quoWas), Carried(g.gates, inp, remWas);
        assert DividedSoFar(a, b, i + 1, q, r);
        DividedStep(a, b, q, r, i);
        assert Carried(g.gates, inp, quo) == q[i := Gate(g.gates, inp, ge)];
      }
    }
  }

  /** With a nonzero divisor, the dividend bits consumed so far split into quotient and remainder. */
  ghost predicate DividedSoFar(a: Bv, b: Bv, i: nat, quo: Bv, rem: Bv) {
    && i <= |a| == |b| == |quo| == |rem|
    && (Val(b) > 0 ==> Val(a[i..]) == Val(quo[i..]) * Val(b) + Val(rem) && Val(rem) < Val(b))
  }

  lemma {:induction false} DivStart(a: Bv, b: Bv, quo: Bv)
    requires |a| == |b| == |quo|
    ensures DividedSoFar(a, b, |a|, quo, Zeros(|a|))
  {
    ValZeros(|a|);
    assert a[|a|..] == [] && quo[|a|..] == [];
    assert Val(quo[|a|..]) * Val(b) == 0;
  }

  function DivGe(d: bool, rem: Bv, b: Bv): bool { Val(b) <= Val(if rem == [] then [] else [d] + rem[..|rem| - 1]) }

  function DivRem(d: bool, rem: Bv, b: Bv): Bv {
    var shifted := if rem == [] then [] else [d] + rem[..|rem| - 1];
    if DivGe(d, rem, b) then BvSub(shifted, b) else shifted
  }

  lemma {:induction false} DividedStep(a: Bv, b: Bv, quo: Bv, rem: Bv, i: nat)
    requires i < |a| && DividedSoFar(a, b, i + 1, quo, rem)
    ensures DividedSoFar(a, b, i, quo[i := DivGe(a[i], rem, b)], DivRem(a[i], rem, b))
  {
    hide Val, FromInt, BvSub;
    var ge := DivGe(a[i], rem, b);
    assert quo[i := ge][i..] == [ge] + quo[i + 1..];
    if Val(b) > 0 {
      DivStep(a, b, quo[i + 1..], rem, i);
    }
  }

  /** One step: shift in the next dividend bit, compare, subtract when the divisor fits. */
  method DivideCell(g: GateArena, bit: GateId, rem: Bits, divisor: Bits) returns (ge: GateId, next: Bits)
    requires Ready(g, rem) && Ready(g, divisor) && bit < |g.gates| && |rem| == |divisor| > 0
    modifies g`gates, g`ids
    ensures Drives(g, next) && |next| == |rem| && ge < |g.gates|
    ensures forall inp: Inputs {:trigger Carried(g.gates, inp, next)} {:trigger Gate(g.gates, inp, ge)} ::
              var (d, r, b) := (Gate(g.gates, inp, bit), Carried(g.gates, inp, rem), Carried(g.gates, inp, divisor));
              Gate(g.gates, inp, ge) == DivGe(d, r, b) && Carried(g.gates, inp, next) == DivRem(d, r, b)
  {
    hide Gate, GateArena.Valid, Val, FromInt, BvSub;
    var shifted := [bit] + rem[..|rem| - 1];
    assert forall inp: Inputs :: Carried(g.gates, inp, shifted) ==
                                 [Gate(g.gates, inp, bit)] + Carried(g.gates, inp, rem)[..|rem| - 1];
    ge := Ule(g, divisor, shifted);
    var remMinusDivisor := Sub(g, shifted, divisor);
    next := MuxBits(g, ge, remMinusDivisor, shifted);
  }

  method AbsBits(g: GateArena, x: Bits) returns (out: Bits)
    requires Ready(g, x) && x != []
    modifies g`gates, g`ids
    ensures Drives(g, out) && |out| == |x|
    ensures forall inp: Inputs {:trigger Carried(g.gates, inp, out)} ::
              Carried(g.gates, inp, out) == Abs(Carried(g.gates, inp, x))
  {
    hide Gate, GateArena.Valid, BvNeg;
    out := NegateIf(g, x[|x| - 1], x);
  }

  /** Quotient and remainder of the magnitudes. */
  method DivideMagnitudes(g: GateArena, a: Bits, b: Bits) returns (q: Bits, r: Bits)
    requires Ready(g, a) && Ready(g, b) && |a| == |b| > 0
    modifies g`gates, g`ids
    ensures Drives(g, q) && InRange(g.gates, r) && |q| == |r| == |a|
    ensures forall inp: Inputs {:trigger Carried(g.gates, inp, q)} {:trigger Carried(g.gates, inp, r)} ::
              var (x, y) := (Abs(Carried(g.gates, inp, a)), Abs(Carried(g.gates, inp, b)));
              Carried(g.gates, inp, q) == BvUDiv(x, y) && Carried(g.gates, inp, r) == BvURem(x, y)
  {
    hide Gate, GateArena.Valid, Abs, BvUDiv, BvURem;
    var absA := AbsBits(g, a);
    var absB := AbsBits(g, b);
    q, r := UDivURem(g, absA, absB);
    forall inp: Inputs
      ensures var (x, y) := (Abs(Carried(g.gates, inp, a)), Abs(Carried(g.gates, inp, b)));
              Carried(g.gates, inp, q) == BvUDiv(x, y) && Carried(g.gates, inp, r) == BvURem(x, y)
    {
      assert Carried(g.gates, inp, absA) == Abs(Carried(g.gates, inp, a));
      assert Carried(g.gates, inp, absB) == Abs(Carried(g.gates, inp, b));
    }
  }

  /** `x`, negated when `sel` is true. */
  method NegateIf(g: GateArena, sel: GateId, x: Bits) returns (out: Bits)
    requires Ready(g, x) && sel < |g.gates|
    modifies g`gates, g`ids
    ensures Drives(g, out) && |out| == |x|
    ensures forall inp: Inputs {:trigger Carried(g.gates, inp, out)} ::
              Carried(g.gates, inp, out) ==
              if Gate(g.gates, inp, sel) then BvNeg(Carried(g.gates, inp, x)) else Carried(g.gates, inp, x)
  {
    hide Gate, GateArena.Valid, BvNeg;
    var negX := Neg(g, x);
    out := MuxBits(g, sel, negX, x);
  }

  lemma {:induction false} MsbCarried(g: seq<GateKind>, inp: Inputs, bits: Bits)
    requires bits != []
    ensures Msb(Carried(g, inp, bits)) == Gate(g, inp, bits[|bits| - 1])
  {
    hide Gate;
  }

  method SDiv(g: GateArena, a: Bits, b: Bits) returns (out: Bits)
    requires Ready(g, a) && Ready(g, b) && |a| == |b| > 0
    modifies g`gates, g`ids
    ensures Drives(g, out) && |out| == |a|
    ensures forall inp: Inputs {:trigger Carried(g.gates, inp, out)} ::
              Carried(g.gates, inp, out) == BvSDiv(Carried(g.gates, inp, a), Carried(g.gates, inp, b))
  {
    hide Gate, GateArena.Valid, Abs, BvUDiv, BvURem, BvNeg, BvSDiv, BvSRem, Msb;
    var signA, signB := a[|a| - 1], b[|b| - 1];
    var q, _ := DivideMagnitudes(g, a, b);
    var signsDiffer := g.ExclusiveOr(signA, signB);
    out := NegateIf(g, signsDiffer, q);
    forall inp: Inputs
      ensures Carried(g.gates, inp, out) == BvSDiv(Carried(g.gates, inp, a), Carried(g.gates, inp, b))
    {
      SDivByMagnitude(Carried(g.gates, inp, a), Carried(g.gates, inp, b));
      MsbCarried(g.gates, inp, a);
      MsbCarried(g.gates, inp, b);
    }
  }

  method SRem(g: GateArena, a: Bits, b: Bits) returns (out: Bits)
    requires Ready(g, a) && Ready(g, b) && |a| == |b| > 0
    modifies g`gates, g`ids
    ensures Drives(g, out) && |out| == |a|
    ensures forall inp: Inputs {:trigger Carried(g.gates, inp, out)} ::
              Carried(g.gates, inp, out) == BvSRem(Carried(g.gates, inp, a), Carried(g.gates, inp, b))
  {
    hide Gate, GateArena.Valid, Abs, BvUDiv, BvURem, BvNeg, BvSDiv, BvSRem;
    var _, r := DivideMagnitudes(g, a, b);
    out := NegateIf(g, a[|a| - 1], r);
    forall inp: Inputs
      ensures Carried(g.gates, inp, out) == BvSRem(Carried(g.gates, inp, a), Carried(g.gates, inp, b))
    {
      SDivByMagnitude(Carried(g.gates, inp, a), Carried(g.gates, inp, b));
    }
  }

  method SMod(g: GateArena, a: Bits, b: Bits) returns (out: Bits)
    requires Ready(g, a) && Ready(g, b) && |a| == |b| > 0
    modifies g`gates, g`ids
    ensures Drives(g, out) && |out| == |a|
    ensures forall inp: Inputs {:trigger Carried(g.gates, inp, out)} ::
              Carried(g.gates, inp, out) == BvSMod(Carried(g.gates, inp, a), Carried(g.gates, inp, b))
  {
    hide Gate, GateArena.Valid, Val, Abs, BvUDiv, BvURem, BvNeg, BvAdd, BvSub, BvSMod;
    var _, u := DivideMagnitudes(g, a, b);
    out := SModSelect(g, a, b, u);
    forall inp: Inputs
      ensures Carried(g.gates, inp, out) == BvSMod(Carried(g.gates, inp, a), Carried(g.gates, inp, b))
    {
      SModByMagnitude(Carried(g.gates, inp, a), Carried(g.gates, inp, b));
      assert SModOf(Carried(g.gates, inp, a), Carried(g.gates, inp, b), Carried(g.gates, inp, u)) ==
          Carried(g.gates, inp, out);
    }
  }

  function SModOf(x: Bv, y: Bv, u: Bv): Bv {
    if Val(u) == 0 then u
    else if Msb(y) then (if Msb(x) then BvNeg(u) else BvAdd(y, u))
    else (if Msb(x) then BvSub(y, u) else u)
  }

  /** Adjusts the remainder `u` of the magnitudes to the sign of the divisor. */
  method SModSelect(g: GateArena, a: Bits, b: Bits, u: Bits) returns (out: Bits)
    requires Ready(g, a) && Ready(g, b) && Ready(g, u) && |a| == |b| == |u| > 0
    modifies g`gates, g`ids
    ensures Drives(g, out) && |out| == |a|
    ensures forall inp: Inputs {:trigger Carried(g.gates, inp, out)} ::
              Carried(g.gates, inp, out) ==
              SModOf(Carried(g.gates, inp, a), Carried(g.gates, inp, b), Carried(g.gates, inp, u))
  {
    hide Gate, GateArena.Valid, Val, BvNeg, BvAdd, BvSub;
    var uZero := IsZero(g, u);
    var nonzeroResult := SModNonzero(g, a, b, u);
    out := MuxBits(g, uZero, u, nonzeroResult);
  }

  method SModNonzero(g: GateArena, a: Bits, b: Bits, u: Bits) returns (out: Bits)
    requires Ready(g, a) && Ready(g, b) && Ready(g, u) && |a| == |b| == |u| > 0
    modifies g`gates, g`ids
    ensures Drives(g, out) && |out| == |a|
    ensures forall inp: Inputs {:trigger Carried(g.gates, inp, out)} ::
              var (x, y, v) := (Carried(g.gates, inp, a), Carried(g.gates, inp, b), Carried(g.gates, inp, u));
              Carried(g.gates, inp, out) == if Msb(y) then (if Msb(x) then BvNeg(v) else BvAdd(y, v))
                                            else (if Msb(x) then BvSub(y, v) else v)
  {
    hide Gate, GateArena.Valid, BvNeg, BvAdd, BvSub;
    var negU, bMinusU, bPlusU := SModCandidates(g, b, u);
    out := MuxSigns(g, a[|a| - 1], b[|b| - 1], negU, bPlusU, bMinusU, u);
  }

  method SModCandidates(g: GateArena, b: Bits, u: Bits) returns (negU: Bits, bMinusU: Bits, bPlusU: Bits)
    requires Ready(g, b) && Ready(g, u) && |b| == |u|
    modifies g`gates, g`ids
    ensures Drives(g, negU) && Drives(g, bMinusU) && Drives(g, bPlusU) && |negU| == |bMinusU| == |bPlusU| == |u|
    ensures forall inp: Inputs {:trigger Carried(g.gates, inp, negU)} ::
              Carried(g.gates, inp, negU) == BvNeg(Carried(g.gates, inp, u))
    ensures forall inp: Inputs {:trigger Carried(g.gates, inp, bMinusU)} ::
              Carried(g.gates, inp, bMinusU) == BvSub(Carried(g.gates, inp, b), Carried(g.gates, inp, u))
    ensures forall inp: Inputs {:trigger Carried(g.gates, inp, bPlusU)} ::
              Carried(g.gates, inp, bPlusU) == BvAdd(Carried(g.gates, inp, b), Carried(g.gates, inp, u))
  {
    hide Gate, GateArena.Valid, BvNeg, BvAdd, BvSub;
    negU := Neg(g, u);
    bMinusU := Sub(g, b, u);
    bPlusU := Add(g, b, u);
  }

  /** Picks among four candidates by two sign gates. */
  method MuxSigns(g: GateArena, signA: GateId, signB: GateId, negNeg: Bits, posNeg: Bits, negPos: Bits, posPos: Bits)
    returns (out: Bits)
    requires Ready(g, negNeg) && Ready(g, posNeg) && Ready(g, negPos) && Ready(g, posPos)
    requires signA < |g.gates| && signB < |g.gates| && |negNeg| == |posNeg| == |negPos| == |posPos|
    modifies g`gates, g`ids
    ensures Drives(g, out) && |out| == |posPos|
    ensures forall inp: Inputs {:trigger Carried(g.gates, inp, out)} ::
              Carried(g.gates, inp, out) ==
              if Gate(g.gates, inp, signB)
              then (if Gate(g.gates, inp, signA) then Carried(g.gates, inp, negNeg) else Carried(g.gates, inp, posNeg))
              else (if Gate(g.gates, inp, signA) then Carried(g.gates, inp, negPos) else Carried(g.gates, inp, posPos))
  {
    hide Gate, GateArena.Valid;
    var whenBNonneg := MuxBits(g, signA, negPos, posPos);
    var whenBNeg := MuxBits(g, signA, negNeg, posNeg);
    out := MuxBits(g, signB, whenBNeg, whenBNonneg);
  }

  // -------------------------------------------------------------- overflow predicates

  method UAddOverflows(g: GateArena, a: Bits, b: Bits) returns (out: GateId)
    requires Ready(g, a) && Ready(g, b) && |a| == |b|
    modifies g`gates, g`ids
    ensures Grew(g) && out < |g.gates|
    ensures forall inp: Inputs {:trigger Gate(g.gates, inp, out)} ::
              Gate(g.gates, inp, out) <==> UAddOverflow(Carried(g.gates, inp, a), Carried(g.gates, inp, b))
  {
    hide Gate, Val, Pow2, FromInt;
    var sum;
    sum, out := AddWithCarry(g, a, b, g.ConstGate(false));
    forall inp: Inputs
      ensures Gate(g.gates, inp, out) <==> UAddOverflow(Carried(g.gates, inp, a), Carried(g.gates, inp, b))
    {
      SumIsAdd(Carried(g.gates, inp, a), Carried(g.gates, inp, b), Carried(g.gates, inp, sum), Gate(g.gates, inp, out));
    }
  }

  method SAddOverflows(g: GateArena, a: Bits, b: Bits) returns (out: GateId)
    requires Ready(g, a) && Ready(g, b) && |a| == |b| > 0
    modifies g`gates, g`ids
    ensures Grew(g) && out < |g.gates|
    ensures forall inp: Inputs {:trigger Gate(g.gates, inp, out)} ::
              Gate(g.gates, inp, out) <==> SAddOverflow(Carried(g.gates, inp, a), Carried(g.gates, inp, b))
  {
    hide Gate, GateArena.Valid, BvAdd, SAddOverflow;
    var sum := Add(g, a, b);
    out := SignClash(g, true, a[|a| - 1], b[|b| - 1], sum[|sum| - 1]);
    forall inp: Inputs
      ensures Gate(g.gates, inp, out) <==> SAddOverflow(Carried(g.gates, inp, a), Carried(g.gates, inp, b))
    {
      SAddBySigns(Carried(g.gates, inp, a), Carried(g.gates, inp, b));
      assert Carried(g.gates, inp, sum) == BvAdd(Carried(g.gates, inp, a), Carried(g.gates, inp, b));
    }
  }

  /** The operand signs agree (or differ, for a subtraction) and the result has the other sign. */
  method SignClash(g: GateArena, agree: bool, sa: GateId, sb: GateId, sr: GateId) returns (out: GateId)
    requires g.Valid() && sa < |g.gates| && sb < |g.gates| && sr < |g.gates|
    modifies g`gates, g`ids
    ensures Grew(g) && out < |g.gates|
    ensures forall inp: Inputs {:trigger Gate(g.gates, inp, out)} ::
              Gate(g.gates, inp, out) == ((Gate(g.gates, inp, sa) == Gate(g.gates, inp, sb)) == agree
                                          && Gate(g.gates, inp, sa) != Gate(g.gates, inp, sr))
  {
    hide Gate, GateArena.Valid;
    var operands;
    if agree {
      operands := g.Xnor(sa, sb);
    } else {
      operands := g.ExclusiveOr(sa, sb);
    }
    var result := g.ExclusiveOr(sa, sr);
    out := g.Conjoin(operands, result);
  }

  method SSubOverflows(g: GateArena, a: Bits, b: Bits) returns (out: GateId)
    requires Ready(g, a) && Ready(g, b) && |a| == |b| > 0
    modifies g`gates, g`ids
    ensures Grew(g) && out < |g.gates|
    ensures forall inp: Inputs {:trigger Gate(g.gates, inp, out)} ::
              Gate(g.gates, inp, out) <==> SSubOverflow(Carried(g.gates, inp, a), Carried(g.gates, inp, b))
  {
    hide Gate, GateArena.Valid, BvSub, SSubOverflow;
    var diff := Sub(g, a, b);
    out := SignClash(g, false, a[|a| - 1], b[|b| - 1], diff[|diff| - 1]);
    forall inp: Inputs
      ensures Gate(g.gates, inp, out) <==> SSubOverflow(Carried(g.gates, inp, a), Carried(g.gates, inp, b))
    {
      SSubBySigns(Carried(g.gates, inp, a), Carried(g.gates, inp, b));
      assert Carried(g.gates, inp, diff) == BvSub(Carried(g.gates, inp, a), Carried(g.gates, inp, b));
    }
  }

  function ZeroExtend(g: GateArena, value: Bits, extra: nat): (out: Bits)
    requires Ready(g, value)
    reads g
    ensures InRange(g.gates, out) && |out| == |value| + extra
    ensures forall inp: Inputs {:trigger Carried(g.gates, inp, out)} ::
              Carried(g.gates, inp, out) == BvZeroExtend(Carried(g.gates, inp, value), extra)
  {
    var zeros := Constants(g, false, extra);
    var out := value + zeros;
    assert forall inp: Inputs :: Carried(g.gates, inp, out) ==
                                 Carried(g.gates, inp, value) + Carried(g.gates, inp, zeros);
    out
  }

  method UMulOverflows(g: GateArena, a: Bits, b: Bits) returns (out: GateId)
    requires Ready(g, a) && Ready(g, b) && |a| == |b|
    modifies g`gates, g`ids
    ensures Grew(g) && out < |g.gates|
    ensures forall inp: Inputs {:trigger Gate(g.gates, inp, out)} ::
              Gate(g.gates, inp, out) <==> UMulOverflow(Carried(g.gates, inp, a), Carried(g.gates, inp, b))
  {
    hide Gate, GateArena.Valid, Val, FromInt, UMulOverflow, BvZeroExtend;
    var n := |a|;
    var aw, bw := ZeroExtend(g, a, n), ZeroExtend(g, b, n);
    ghost var was := g.gates;
    var product := MulWidth(g, aw, bw, n * 2);
    out := g.DisjoinAll(product[n..]);
    forall inp: Inputs
      ensures Gate(g.gates, inp, out) <==> UMulOverflow(Carried(g.gates, inp, a), Carried(g.gates, inp, b))
    {
      var x, y := Carried(g.gates, inp, a), Carried(g.gates, inp, b);
      ZextVal(x, n);
      ZextVal(y, n);
      assert Carried(was, inp, aw) == BvZeroExtend(x, n) && Carried(was, inp, bw) == BvZeroExtend(y, n);
      assert Carried(g.gates, inp, product) == FromInt(Val(x) * Val(y), 2 * n);
      UMulByHighHalf(x, y);
      ZeroIffNoBit(Carried(g.gates, inp, product)[n..]);
      assert forall k :: 0 <= k < n ==> Carried(g.gates, inp, product)[n..][k] == Gate(g.gates, inp, product[n..][k]);
    }
  }

  method SMulOverflows(g: GateArena, a: Bits, b: Bits) returns (out: GateId)
    requires Ready(g, a) && Ready(g, b) && |a| == |b| > 0
    modifies g`gates, g`ids
    ensures Grew(g) && out < |g.gates|
    ensures forall inp: Inputs {:trigger Gate(g.gates, inp, out)} ::
              Gate(g.gates, inp, out) <==> SMulOverflow(Carried(g.gates, inp, a), Carried(g.gates, inp, b))
  {
    hide Gate, GateArena.Valid, Val, FromInt, SMulOverflow, BvSignExtend, Signed;
    var n := |a|;
    var aw, bw := SignExtend(a, n), SignExtend(b, n);
    ghost var was := g.gates;
    var product := MulWidth(g, aw, bw, n * 2);
    var low := product[..n];
    var signExtendedLow := SignExtend(low, n);
    var equal := EqBits(g, product, signExtendedLow);
    out := g.Negate(equal);
    forall inp: Inputs
      ensures Gate(g.gates, inp, out) <==> SMulOverflow(Carried(g.gates, inp, a), Carried(g.gates, inp, b))
    {
      var x, y, p := Carried(g.gates, inp, a), Carried(g.gates, inp, b), Carried(g.gates, inp, product);
      SignExtendCarries(g.gates, inp, a, n);
      SignExtendCarries(g.gates, inp, b, n);
      SignExtendCarries(g.gates, inp, low, n);
      assert Carried(g.gates, inp, low) == p[..n];
      SignedProduct(x, y);
      SMulBySignExtension(x, y);
    }
  }

  /** Sign extension turns the signed product into an unsigned one of double width. */
  lemma {:induction false} SignedProduct(x: Bv, y: Bv)
    requires |x| == |y| > 0
    ensures FromInt(Val(BvSignExtend(x, |x|)) * Val(BvSignExtend(y, |x|)), |x| * 2) ==
              FromInt(Signed(x) * Signed(y), 2 * |x|)
  {
    hide FromInt, Val, Signed, BvSignExtend;
    SignExtendSigned(x, |x|);
    SignExtendSigned(y, |x|);
    FromIntMul(Signed(x), Signed(y), |x| * 2);
  }

  function MinBits(g: GateArena, n: nat): (out: Bits)
    requires g.Valid() && n > 0
    reads g
    ensures InRange(g.gates, out) && |out| == n
    ensures forall inp: Inputs {:trigger Carried(g.gates, inp, out)} :: Carried(g.gates, inp, out) == MinSigned(n)
  {
    Constants(g, false, n)[n - 1 := g.ConstGate(true)]
  }

  method NegOverflows(g: GateArena, x: Bits) returns (out: GateId)
    requires Ready(g, x) && x != []
    modifies g`gates, g`ids
    ensures Grew(g) && out < |g.gates|
    ensures forall inp: Inputs {:trigger Gate(g.gates, inp, out)} ::
              Gate(g.gates, inp, out) <==> NegOverflow(Carried(g.gates, inp, x))
  {
    hide Gate, GateArena.Valid, NegOverflow, MinSigned;
    var min := MinBits(g, |x|);
    out := EqBits(g, x, min);
    forall inp: Inputs ensures Gate(g.gates, inp, out) <==> NegOverflow(Carried(g.gates, inp, x)) {
      NegOverflowIsMin(Carried(g.gates, inp, x));
    }
  }

  method SDivOverflows(g: GateArena, a: Bits, b: Bits) returns (out: GateId)
    requires Ready(g, a) && Ready(g, b) && |a| == |b| > 0
    modifies g`gates, g`ids
    ensures Grew(g) && out < |g.gates|
    ensures forall inp: Inputs {:trigger Gate(g.gates, inp, out)} ::
              Gate(g.gates, inp, out) <==> SDivOverflow(Carried(g.gates, inp, a), Carried(g.gates, inp, b))
  {
    hide Gate, GateArena.Valid, SDivOverflow, MinSigned;
    var min, minusOne := MinBits(g, |a|), Constants(g, true, |a|);
    var aMin := EqBits(g, a, min);
    var bMinusOne := EqBits(g, b, minusOne);
    out := g.Conjoin(aMin, bMinusOne);
    forall inp: Inputs
      ensures Gate(g.gates, inp, out) <==> SDivOverflow(Carried(g.gates, inp, a), Carried(g.gates, inp, b))
    {
      SDivOverflowIsMinByMinusOne(Carried(g.gates, inp, a), Carried(g.gates, inp, b));
    }
  }
}
