/** The reference evaluator: every node's value, computed on little-endian byte strings. */
module Evaluator {
  import opened BitVectors
  import opened Bytes
  import opened ByteOps
  import opened CircuitLemmas
  import opened Wrappers
  import opened Ir
  import opened Queries
  import Circuits

  datatype EvalValue = EvalBool(b: bool) | EvalBv(width: nat, bytes: seq<Byte>)

  /** All variables alike, vectors from a map (absent vectors are zero, Bools false), or anything:
      the pseudo-random assignments of the source are instances of `Total`. */
  datatype EvalAssignment =
    | Constant(value: bool)
    | Explicit(values: map<TermId, seq<Byte>>)
    | Total(env: Env)

  /** The assignment the evaluator's choice stands for. */
  function AssignedEnv(assignment: EvalAssignment): Env {
    match assignment
    case Constant(v) => Env(_ => v, _ => if v then -1 else 0)
    case Explicit(m) => Env(_ => false, id => if id in m then BytesVal(m[id]) else 0)
    case Total(env) => env
  }

  /** Explicit values are normalised for the width of their variable. */
  ghost predicate AssignmentOk(nodes: seq<Node>, assignment: EvalAssignment) {
    assignment.Explicit? ==>
      forall i {:trigger nodes[i]} :: 0 <= i < |nodes| && nodes[i].kind.VarBv? && i in assignment.values ==>
        Normalized(assignment.values[i], nodes[i].kind.width)
  }

  /** A computed value stands for a value of the term semantics, and its bytes are normalised. */
  ghost predicate Represents(e: EvalValue, v: Value) {
    match e
    case EvalBool(b) => v == BoolValue(b)
    case EvalBv(w, bytes) => Normalized(bytes, w) && v == BvValue(Decoded(bytes, w))
  }

  ghost predicate AllRepresent(values: seq<EvalValue>, vals: seq<Value>) {
    |values| == |vals| && forall i {:trigger values[i]} {:trigger vals[i]} :: 0 <= i < |values| ==>
      Represents(values[i], vals[i])
  }

  /** What each assignment gives a variable, in terms of the computed value alone: a constant fills
      every bit, an explicit map gives its bytes to vectors, zero bytes to absent ones and false to
      Bools. */
  ghost predicate VariableComputed(assignment: EvalAssignment, k: NodeKind, id: TermId, e: EvalValue) {
    match k
    case VarBool(_, _) =>
      && e.EvalBool?
      && (match assignment
          case Constant(v) => e.b == v
          case Explicit(_) => !e.b
          case Total(env) => e.b == env.bools(id))
    case VarBv(w, _, _) =>
      && e.EvalBv? && e.width == w && |e.bytes| == BytesFor(w)
      && (match assignment
          case Constant(v) => forall bit: nat :: GetBit(e.bytes, bit) == (bit < w && v)
          case Explicit(m) => if id in m then e.bytes == m[id] else forall i :: 0 <= i < |e.bytes| ==> e.bytes[i] == 0
          case Total(env) => Decoded(e.bytes, w) == FromInt(env.bvs(id), w))
    case _ => true
  }

  /** What the assignment means for a variable: the all-zero or all-one vector, the bits of the
      explicit bytes, or zero when there are none; Bools are false unless the constant is true. */
  lemma {:induction false} AssignedValue(nodes: seq<Node>, assignment: EvalAssignment, i: TermId)
    requires WellFormed(nodes) && AssignmentOk(nodes, assignment) && i < |nodes|
    ensures var v := Eval(nodes, AssignedEnv(assignment))[i];
            match (nodes[i].kind, assignment)
            case (VarBool(_, _), Constant(b)) => v == BoolValue(b)
            case (VarBool(_, _), Explicit(_)) => v == BoolValue(false)
            case (VarBv(w, _, _), Constant(b)) => v == BvValue(if b then Ones(w) else Zeros(w))
            case (VarBv(w, _, _), Explicit(m)) => v == BvValue(if i in m then Decoded(m[i], w) else Zeros(w))
            case _ => true
  {
    hide Eval, WellFormed, FromInt, Decoded, Normalized;
    EvalAt(nodes, AssignedEnv(assignment), i);
    if nodes[i].kind.VarBv? {
      var w := nodes[i].kind.width;
      ValOnes(w);
      ValZeros(w);
      if assignment.Explicit? && i in assignment.values {
        ExplicitBits(assignment.values[i], w);
      }
    }
  }

  lemma {:induction false} ExplicitBits(bytes: seq<Byte>, width: nat)
    requires Normalized(bytes, width)
    ensures FromInt(BytesVal(bytes), width) == Decoded(bytes, width)
  {
    hide FromInt, Decoded, GetBit;
    BytesForBounds(width);
    DecodedIsLowBits(bytes, width);
  }

  /** Computed values are determined by the values they stand for. */
  lemma {:induction false} ComputedAlike(a: seq<EvalValue>, b: seq<EvalValue>, vals: seq<Value>)
    requires AllRepresent(a, vals) && AllRepresent(b, vals)
    ensures a == b
  {
    hide Normalized, Decoded;
    forall i | 0 <= i < |vals| ensures a[i] == b[i] {
      assert Represents(a[i], vals[i]) && Represents(b[i], vals[i]);
      if a[i].EvalBv? {
        assert |Decoded(a[i].bytes, a[i].width)| == a[i].width && |Decoded(b[i].bytes, b[i].width)| == b[i].width;
        DecodedInjective(a[i].bytes, b[i].bytes, a[i].width);
      }
    }
  }

  /** The empty explicit map computes what the all-zero constant computes. */
  lemma {:induction false} EmptyMapIsZero(nodes: seq<Node>, a: seq<EvalValue>, b: seq<EvalValue>)
    requires AllRepresent(a, Eval(nodes, AssignedEnv(Explicit(map[]))))
    requires AllRepresent(b, Eval(nodes, AssignedEnv(Constant(false))))
    ensures a == b
  {
    hide KindValue, AllRepresent;
    SameAssignment(nodes, AssignedEnv(Explicit(map[])), AssignedEnv(Constant(false)));
    ComputedAlike(a, b, Eval(nodes, AssignedEnv(Constant(false))));
  }

  // -------------------------------------------------------------- unsigned division

  /** Long division over byte strings, one dividend bit at a time. */
  method UDivURemBytes(dividend: seq<Byte>, divisor: seq<Byte>, width: nat)
      returns (quotient: seq<Byte>, remainder: seq<Byte>)
    requires Normalized(dividend, width) && Normalized(divisor, width)
    ensures Normalized(quotient, width) && Normalized(remainder, width)
    ensures Decoded(quotient, width) == BvUDiv(Decoded(dividend, width), Decoded(divisor, width))
    ensures Decoded(remainder, width) == BvURem(Decoded(dividend, width), Decoded(divisor, width))
  {
    hide Val, FromInt, GetBit, ConstantBytes, Decoded, SetBit, BvSub;
    ghost var a, b := Decoded(dividend, width), Decoded(divisor, width);
    ZeroBytesVal(divisor, width);
    if AllZero(divisor) {
      ConstantBits(width, true);
      return ConstantBytes(width, true), dividend;
    }
    ConstantBits(width, false);
    quotient := ConstantBytes(width, false);
    remainder := ConstantBytes(width, false);
    Circuits.DivStart(a, b, Decoded(quotient, width));
    var bit := width;
    while bit > 0
      invariant 0 <= bit <= width
      invariant Normalized(quotient, width) && Normalized(remainder, width)
      invariant forall k :: 0 <= k < bit ==> !Decoded(quotient, width)[k]
      invariant Circuits.DividedSoFar(a, b, bit, Decoded(quotient, width), Decoded(remainder, width))
    {
      bit := bit - 1;
      Circuits.DividedStep(a, b, Decoded(quotient, width), Decoded(remainder, width), bit);
      DecodedBit(dividend, width, bit);
      var ge;
      ge, remainder := DivideCellBytes(GetBit(dividend, bit), remainder, divisor, width);
      if ge {
        SetBitDecoded(quotient, bit, width);
        quotient := SetBit(quotient, bit);
      } else {
        ghost var q := Decoded(quotient, width);
        assert q[bit := false] == q;
      }
    }
    ghost var q, r := Decoded(quotient, width), Decoded(remainder, width);
    assert a[0..] == a && q[0..] == q;
    DivDone(a, b, q, r);
  }

  lemma {:induction false} DecodedBit(bytes: seq<Byte>, width: nat, bit: nat)
    requires bit < width
    ensures Decoded(bytes, width)[bit] == GetBit(bytes, bit)
  {}

  /** Shift the next dividend bit in, and subtract the divisor when it fits. */
  method DivideCellBytes(d: bool, rem: seq<Byte>, divisor: seq<Byte>, width: nat) returns (ge: bool, next: seq<Byte>)
    requires Normalized(rem, width) && Normalized(divisor, width) && width > 0
    ensures Normalized(next, width)
    ensures ge == Circuits.DivGe(d, Decoded(rem, width), Decoded(divisor, width))
    ensures Decoded(next, width) == Circuits.DivRem(d, Decoded(rem, width), Decoded(divisor, width))
  {
    hide Val, FromInt, GetBit, SetBit, BvSub;
    ghost var r := Decoded(rem, width);
    next := ShlBytes(rem, width, 1);
    assert Decoded(next, width) == [false] + r[..width - 1];
    if d {
      SetBitDecoded(next, 0, width);
      next := SetBit(next, 0);
    }
    assert Decoded(next, width) == [d] + r[..width - 1];
    hide Decoded;
    var order := CmpUnsignedBytes(next, divisor);
    ComparedVectors(next, divisor, width);
    ge := order != Less;
    if ge {
      next := SubBytes(next, divisor, width);
    }
  }

  // ------------------------------------------------------- one operator on its bytes

  predicate SignBit(bytes: seq<Byte>, width: nat)
    requires width > 0
  {
    GetBit(bytes, width - 1)
  }

  lemma {:induction false} SignBitIsMsb(bytes: seq<Byte>, width: nat)
    requires width > 0
    ensures SignBit(bytes, width) == Msb(Decoded(bytes, width))
  {
    hide GetBit;
  }

  datatype SignedDivKind = Div | Rem | Mod

  function SignedDivValue(kind: SignedDivKind, x: Bv, y: Bv): Bv {
    match kind
    case Div => BvSDiv(x, y)
    case Rem => BvSRem(x, y)
    case Mod => BvSMod(x, y)
  }

  method AbsBytes(bytes: seq<Byte>, width: nat) returns (out: seq<Byte>)
    requires Normalized(bytes, width) && width > 0
    ensures Normalized(out, width) && Decoded(out, width) == Abs(Decoded(bytes, width))
  {
    hide Val, FromInt, GetBit, BvNeg;
    SignBitIsMsb(bytes, width);
    if SignBit(bytes, width) {
      out := NegBytes(bytes, width);
    } else {
      out := bytes;
    }
  }

  method NegateBytesIf(negate: bool, bytes: seq<Byte>, width: nat) returns (out: seq<Byte>)
    requires Normalized(bytes, width)
    ensures Normalized(out, width)
    ensures Decoded(out, width) == if negate then BvNeg(Decoded(bytes, width)) else Decoded(bytes, width)
  {
    hide Val, FromInt, GetBit, Decoded, BvNeg;
    if negate {
      out := NegBytes(bytes, width);
    } else {
      out := bytes;
    }
  }

  /** Signed division, remainder and modulo by way of the magnitudes. */
  method SignedDivRem(kind: SignedDivKind, a: seq<Byte>, b: seq<Byte>, width: nat) returns (out: seq<Byte>)
    requires Normalized(a, width) && Normalized(b, width) && width > 0
    ensures Normalized(out, width)
    ensures Decoded(out, width) == SignedDivValue(kind, Decoded(a, width), Decoded(b, width))
  {
    hide Val, FromInt, GetBit, Decoded, SignBit, Msb, BvSDiv, BvSRem, BvSMod, Abs, BvUDiv, BvURem, BvNeg, BvAdd, BvSub;
    ghost var x, y := Decoded(a, width), Decoded(b, width);
    SignBitIsMsb(a, width);
    SignBitIsMsb(b, width);
    SDivByMagnitude(x, y);
    SModByMagnitude(x, y);
    var absA := AbsBytes(a, width);
    var absB := AbsBytes(b, width);
    var q, r := UDivURemBytes(absA, absB, width);
    match kind {
      case Div => out := NegateBytesIf(SignBit(a, width) != SignBit(b, width), q, width);
      case Rem => out := NegateBytesIf(SignBit(a, width), r, width);
      case Mod =>
        ZeroBytesVal(r, width);
        if AllZero(r) {
          out := r;
        } else {
          match (SignBit(a, width), SignBit(b, width)) {
            case (false, false) => out := r;
            case (true, false) => out := SubBytes(b, r, width);
            case (false, true) => out := AddBytes(b, r, width);
            case (true, true) => out := NegBytes(r, width);
          }
        }
    }
  }

  /** Shifts read their amount saturated at the width. */
  method ShiftBytes(op: BinaryOp, bytes: seq<Byte>, amountBytes: seq<Byte>, width: nat) returns (out: seq<Byte>)
    requires op.OpShl? || op.OpLShr? || op.OpAShr?
    requires Normalized(bytes, width) && Normalized(amountBytes, width) && ValidWidth(width)
    ensures Normalized(out, width)
    ensures Decoded(out, width) == BinaryValue(op, Decoded(bytes, width), Decoded(amountBytes, width))
  {
    hide Val, FromInt, GetBit, Decoded, Normalized, BvShl, BvLShr, BvAShr, Shifted, ShiftedRight, Msb;
    ghost var x, y := Decoded(bytes, width), Decoded(amountBytes, width);
    NormalizedVal(amountBytes, width);
    var amount := BytesToBoundedUsize(amountBytes, width);
    ShlBits(x, y);
    LShrBits(x, y);
    AShrBits(x, y);
    if Val(y) >= width {
      Saturated(x, Val(y), amount, false);
      Saturated(x, Val(y), amount, Msb(x));
    }
    match op {
      case OpShl => out := ShlBytes(bytes, width, amount);
      case OpLShr => out := LShrBytes(bytes, width, amount);
      case OpAShr => out := AShrBytes(bytes, width, amount);
    }
  }

  method UnaryBytes(op: UnaryOp, bytes: seq<Byte>, width: nat) returns (out: seq<Byte>)
    requires Normalized(bytes, width)
    ensures Normalized(out, width) && Decoded(out, width) == UnaryValue(op, Decoded(bytes, width))
  {
    hide Val, FromInt, GetBit, Decoded;
    match op {
      case OpNot =>
        ComplementDecoded(bytes, width);
        out := MaskUnusedHighBits(Complement(bytes), width);
      case OpNeg => out := NegBytes(bytes, width);
    }
  }

  method BinaryBytes(op: BinaryOp, a: seq<Byte>, b: seq<Byte>, width: nat) returns (out: seq<Byte>)
    requires Normalized(a, width) && Normalized(b, width) && ValidWidth(width)
    ensures Normalized(out, width)
    ensures Decoded(out, width) == BinaryValue(op, Decoded(a, width), Decoded(b, width))
  {
    hide Val, FromInt, GetBit, Decoded, BvShl, BvLShr, BvAShr, BvSDiv, BvSRem, BvSMod, BvUDiv;
    hide BvURem, BvNeg, BvAdd, BvSub, BvMul, BvAnd, BvOr, BvXor, BitwiseBytes;
    var unused;
    match op {
      case OpAnd => BitwiseDecoded(Circuits.Both, a, b, width); out := BitwiseBytes(Circuits.Both, a, b);
      case OpOr => BitwiseDecoded(Circuits.Either, a, b, width); out := BitwiseBytes(Circuits.Either, a, b);
      case OpXor => BitwiseDecoded(Circuits.Differ, a, b, width); out := BitwiseBytes(Circuits.Differ, a, b);
      case OpAdd => out := AddBytes(a, b, width);
      case OpSub => out := SubBytes(a, b, width);
      case OpMul => out := MulBytes(a, b, width);
      case OpUDiv => out, unused := UDivURemBytes(a, b, width);
      case OpURem => unused, out := UDivURemBytes(a, b, width);
      case OpSDiv => out := SignedDivRem(Div, a, b, width);
      case OpSRem => out := SignedDivRem(Rem, a, b, width);
      case OpSMod => out := SignedDivRem(Mod, a, b, width);
      case OpShl => out := ShiftBytes(op, a, b, width);
      case OpLShr => out := ShiftBytes(op, a, b, width);
      case OpAShr => out := ShiftBytes(op, a, b, width);
    }
  }

  // ------------------------------------------------------------- overflow predicates

  lemma {:induction false} WrappedSum(x: Bv, y: Bv)
    requires |x| == |y|
    ensures UAddOverflow(x, y) <==> Val(BvAdd(x, y)) < Val(x)
  {
    hide Val, FromInt;
    var n := Val(x) + Val(y);
    if n >= Pow2(|x|) {
      FromIntPeriod(n, -1, |x|);
      ValFromInt(n - Pow2(|x|), |x|);
    } else {
      ValFromInt(n, |x|);
    }
  }

  method UAddOverflows(a: seq<Byte>, b: seq<Byte>, width: nat) returns (r: bool)
    requires Normalized(a, width) && Normalized(b, width)
    ensures r <==> UAddOverflow(Decoded(a, width), Decoded(b, width))
  {
    hide Val, FromInt, GetBit, Decoded, UAddOverflow, BvAdd;
    var sum := AddBytes(a, b, width);
    var order := CmpUnsignedBytes(sum, a);
    ComparedVectors(sum, a, width);
    WrappedSum(Decoded(a, width), Decoded(b, width));
    r := order == Less;
  }

  method SAddOverflows(a: seq<Byte>, b: seq<Byte>, width: nat) returns (r: bool)
    requires Normalized(a, width) && Normalized(b, width) && width > 0
    ensures r <==> SAddOverflow(Decoded(a, width), Decoded(b, width))
  {
    hide Val, FromInt, GetBit, Decoded, SAddOverflow, BvAdd, SignBit, Msb;
    var sum := AddBytes(a, b, width);
    SignBitIsMsb(a, width);
    SignBitIsMsb(b, width);
    SignBitIsMsb(sum, width);
    SAddBySigns(Decoded(a, width), Decoded(b, width));
    r := SignBit(a, width) == SignBit(b, width) && SignBit(a, width) != SignBit(sum, width);
  }

  method SSubOverflows(a: seq<Byte>, b: seq<Byte>, width: nat) returns (r: bool)
    requires Normalized(a, width) && Normalized(b, width) && width > 0
    ensures r <==> SSubOverflow(Decoded(a, width), Decoded(b, width))
  {
    hide Val, FromInt, GetBit, Decoded, SSubOverflow, BvSub, SignBit, Msb;
    var diff := SubBytes(a, b, width);
    SignBitIsMsb(a, width);
    SignBitIsMsb(b, width);
    SignBitIsMsb(diff, width);
    SSubBySigns(Decoded(a, width), Decoded(b, width));
    r := SignBit(a, width) != SignBit(b, width) && SignBit(a, width) != SignBit(diff, width);
  }

  /** The double-width product needs a width of its own, which the cap may refuse. */
  method UMulOverflows(a: seq<Byte>, b: seq<Byte>, width: nat) returns (r: Result<bool>)
    requires Normalized(a, width) && Normalized(b, width) && ValidWidth(width)
    ensures r.Ok? <==> ValidWidth(2 * width)
    ensures r.Ok? ==> (r.value <==> UMulOverflow(Decoded(a, width), Decoded(b, width)))
    ensures r.Err? ==> r.error == Invalid
  {
    hide Val, FromInt, GetBit, Decoded, UMulOverflow, BvZeroExtend, Resize;
    if !ValidWidth(2 * width) {
      return Err(Invalid);
    }
    ghost var x, y := Decoded(a, width), Decoded(b, width);
    var wideA := Resize(a, BytesFor(2 * width));
    var wideB := Resize(b, BytesFor(2 * width));
    ResizeExtends(a, width, width);
    ResizeExtends(b, width, width);
    var product := MulBytes(wideA, wideB, 2 * width);
    ZextVal(x, width);
    ZextVal(y, width);
    UMulByHighHalf(x, y);
    ghost var p := Decoded(product, 2 * width);
    assert p == FromInt(Val(x) * Val(y), 2 * width);
    ZeroIffNoBit(p[width..]);
    HighBits(product, width);
    r := Ok(exists bit :: width <= bit < 2 * width && GetBit(product, bit));
  }

  lemma {:induction false} HighBits(bytes: seq<Byte>, width: nat)
    ensures var high := Decoded(bytes, 2 * width)[width..];
            (exists bit :: width <= bit < 2 * width && GetBit(bytes, bit)) <==> exists i :: 0 <= i < |high| && high[i]
  {
    hide GetBit;
    var high := Decoded(bytes, 2 * width)[width..];
    if bit :| width <= bit < 2 * width && GetBit(bytes, bit) {
      assert high[bit - width];
    }
  }

  method SMulOverflows(a: seq<Byte>, b: seq<Byte>, width: nat) returns (r: bool)
    requires Normalized(a, width) && Normalized(b, width) && width > 0
    ensures r <==> SMulOverflow(Decoded(a, width), Decoded(b, width))
  {
    hide Val, FromInt, GetBit, Decoded, SMulOverflow, BvSignExtend, Signed, Msb;
    ghost var x, y := Decoded(a, width), Decoded(b, width);
    var wideA := SextBytes(a, width, width);
    var wideB := SextBytes(b, width, width);
    var product := MulBytes(wideA, wideB, 2 * width);
    var low := ExtractBytes(product, 0, width);
    var extended := SextBytes(low, width, width);
    Circuits.SignedProduct(x, y);
    SMulBySignExtension(x, y);
    ghost var p := Decoded(product, 2 * width);
    assert Decoded(low, width) == BvExtract(p, width - 1, 0) == p[..width];
    ComparedVectors(product, extended, 2 * width);
    r := product != extended;
  }

  /** The sign bit set and no other: the smallest signed number. */
  predicate IsMinSigned(bytes: seq<Byte>, width: nat)
    requires width > 0
  {
    GetBit(bytes, width - 1) && forall bit :: 0 <= bit < width - 1 ==> !GetBit(bytes, bit)
  }

  lemma {:induction false} MinSignedBytes(bytes: seq<Byte>, width: nat)
    requires width > 0
    ensures IsMinSigned(bytes, width) <==> Decoded(bytes, width) == MinSigned(width)
  {
    hide GetBit;
    var x := Decoded(bytes, width);
    assert forall bit :: 0 <= bit < width ==> x[bit] == GetBit(bytes, bit);
    if x == MinSigned(width) {
      assert x[width - 1];
      assert forall bit :: 0 <= bit < width - 1 ==> !x[bit];
    }
  }

  method SDivOverflows(a: seq<Byte>, b: seq<Byte>, width: nat) returns (r: bool)
    requires Normalized(a, width) && Normalized(b, width) && width > 0
    ensures r <==> SDivOverflow(Decoded(a, width), Decoded(b, width))
  {
    hide Val, FromInt, GetBit, Decoded, SDivOverflow, ConstantBytes, IsMinSigned;
    MinSignedBytes(a, width);
    ConstantBits(width, true);
    ComparedVectors(b, ConstantBytes(width, true), width);
    SDivOverflowIsMinByMinusOne(Decoded(a, width), Decoded(b, width));
    r := IsMinSigned(a, width) && b == ConstantBytes(width, true);
  }

  /** Does evaluation of this comparison need a wider vector than the cap allows? */
  predicate TooWide(op: CompareOp, width: nat) { op.OvfUMul? && 2 * width > MAX_BV_WIDTH }

  method CompareBytes(op: CompareOp, a: seq<Byte>, b: seq<Byte>, width: nat) returns (r: Result<bool>)
    requires Normalized(a, width) && Normalized(b, width) && ValidWidth(width)
    ensures r.Err? <==> TooWide(op, width)
    ensures r.Err? ==> r.error == Invalid
    ensures r.Ok? ==> (r.value <==> CompareValue(op, Decoded(a, width), Decoded(b, width)))
  {
    hide Val, FromInt, GetBit, Decoded, SDivOverflow, SMulOverflow, UMulOverflow, SAddOverflow;
    hide UAddOverflow, SSubOverflow, Signed;
    ComparedVectors(a, b, width);
    ComparedVectors(b, a, width);
    var value;
    match op {
      case CmpEq => value := a == b;
      case CmpUlt => var order := CmpUnsignedBytes(a, b); value := order == Less;
      case CmpUle => var order := CmpUnsignedBytes(a, b); value := order != Greater;
      case CmpSlt => value := SignedLessThan(a, b, width);
      case CmpSle => var greater := SignedLessThan(b, a, width); value := !greater;
      case OvfUAdd => value := UAddOverflows(a, b, width);
      case OvfSAdd => value := SAddOverflows(a, b, width);
      case OvfUSub => var order := CmpUnsignedBytes(a, b); value := order == Less;
      case OvfSSub => value := SSubOverflows(a, b, width);
      case OvfUMul => r := UMulOverflows(a, b, width); return;
      case OvfSMul => value := SMulOverflows(a, b, width);
      case OvfSDiv => value := SDivOverflows(a, b, width);
    }
    r := Ok(value);
  }

  // -------------------------------------------------------------------- whole queries

  /** The values of the first `n` nodes are computed, and stand for `vals`. */
  ghost predicate EvaluatedUpTo(nodes: seq<Node>, n: nat, values: seq<EvalValue>, vals: seq<Value>) {
    n <= |nodes| && |values| == n && WellFormed(nodes) && AllRepresent(values, vals) && ValuesSorted(nodes, vals)
  }

  /** An operand of vector sort has a normalised byte string of its width. */
  lemma {:induction false} VectorOperand(nodes: seq<Node>, n: nat, values: seq<EvalValue>, vals: seq<Value>, x: TermId)
    requires EvaluatedUpTo(nodes, n, values, vals) && IsBv(nodes, n, x)
    ensures x < |values| && values[x].EvalBv? && values[x].width == Width(nodes, x) && ValidWidth(values[x].width)
    ensures Normalized(values[x].bytes, values[x].width) && BvAt(vals, x) == Decoded(values[x].bytes, values[x].width)
  {
    hide SortOf;
    assert Represents(values[x], vals[x]) && HasSort(vals[x], nodes[x].sort);
    WidthPositive(nodes, x);
  }

  lemma {:induction false} BoolOperand(nodes: seq<Node>, n: nat, values: seq<EvalValue>, vals: seq<Value>, x: TermId)
    requires EvaluatedUpTo(nodes, n, values, vals) && IsBool(nodes, n, x)
    ensures x < |values| && values[x].EvalBool? && values[x].b == BoolAt(vals, x)
  {
    hide SortOf;
    assert Represents(values[x], vals[x]) && HasSort(vals[x], nodes[x].sort);
  }

  method EvalVariable(k: NodeKind, id: TermId, assignment: EvalAssignment) returns (value: EvalValue)
    requires k.VarBv? || k.VarBool?
    requires k.VarBv? && assignment.Explicit? && id in assignment.values ==> Normalized(assignment.values[id], k.width)
    ensures Represents(value, KindValue(k, id, AssignedEnv(assignment), []))
    ensures VariableComputed(assignment, k, id, value)
  {
    hide Val, FromInt, GetBit, ConstantBytes;
    if k.VarBool? {
      return EvalBool(match assignment
                      case Constant(v) => v
                      case Explicit(_) => false
                      case Total(env) => env.bools(id));
    }
    var bytes;
    match assignment {
      case Constant(v) =>
        bytes := ConstantBytes(k.width, v);
        ConstantBits(k.width, v);
        ConstantFills(bytes, k.width, v);
        ValOnes(k.width);
        ValZeros(k.width);
      case Explicit(m) =>
        if id in m {
          bytes := m[id];
          BytesForBounds(k.width);
          DecodedIsLowBits(bytes, k.width);
        } else {
          bytes := ZeroString(k.width);
          ValZeros(k.width);
        }
      case Total(env) =>
        var bits := FromInt(env.bvs(id), k.width);
        bytes := GatherBits(k.width, (i: nat) => i < |bits| && bits[i]);
        assert Decoded(bytes, k.width) == bits;
    }
    value := EvalBv(k.width, bytes);
  }

  lemma {:induction false} ConstantFills(bytes: seq<Byte>, width: nat, v: bool)
    requires Normalized(bytes, width) && Decoded(bytes, width) == if v then Ones(width) else Zeros(width)
    ensures forall bit: nat :: GetBit(bytes, bit) == (bit < width && v)
  {
    forall bit: nat ensures GetBit(bytes, bit) == (bit < width && v) {
      if bit < width {
        assert Decoded(bytes, width)[bit] == GetBit(bytes, bit);
      }
    }
  }

  method ZeroString(width: nat) returns (bytes: seq<Byte>)
    ensures Normalized(bytes, width) && Decoded(bytes, width) == Zeros(width)
    ensures forall i :: 0 <= i < |bytes| ==> bytes[i] == 0
  {
    hide GetBit;
    bytes := seq(BytesFor(width), _ => 0);
    forall j: nat ensures !GetBit(bytes, j) { ZeroBytes(BytesFor(width), j); }
  }

  method EvalWiring(k: NodeKind, bytes: seq<Byte>, width: nat) returns (out: seq<Byte>, outWidth: nat)
    requires Normalized(bytes, width) && width > 0
    requires match k
             case ExtractBv(_, high, low) => low <= high < width
             case ExtendBv(_, _, _) => true
             case RepeatBv(_, count) => count > 0
             case RotateBv(_, _, _) => true
             case _ => false
    ensures Normalized(out, outWidth)
    ensures Decoded(out, outWidth) == WiredValue(k, Decoded(bytes, width))
  {
    hide Val, FromInt, GetBit, Decoded, MaskUnusedHighBits, Resize, BvSignExtend, BvZeroExtend;
    hide BvRepeat, BvRotateLeft, BvRotateRight;
    match k {
      case ExtractBv(_, high, low) =>
        outWidth := high - low + 1;
        out := ExtractBytes(bytes, low, outWidth);
        assert low + outWidth <= width;
      case ExtendBv(true, _, extra) =>
        outWidth := width + extra;
        out := SextBytes(bytes, width, extra);
      case ExtendBv(false, _, extra) =>
        outWidth := width + extra;
        ResizeExtends(bytes, width, extra);
        out := MaskUnusedHighBits(Resize(bytes, BytesFor(outWidth)), outWidth);
      case RepeatBv(_, count) =>
        outWidth := width * count;
        out := RepeatBytes(bytes, width, count);
      case RotateBv(left, _, amount) =>
        outWidth := width;
        AmountModulo(Decoded(bytes, width), amount);
        if left {
          out := RotateLeftBytes(bytes, width, amount % width);
        } else {
          out := RotateRightBytes(bytes, width, amount % width);
        }
    }
  }

  function WiredValue(k: NodeKind, x: Bv): Bv {
    match k
    case ExtractBv(_, high, low) => BvExtract(x, high, low)
    case ExtendBv(signed, _, extra) => if signed then BvSignExtend(x, extra) else BvZeroExtend(x, extra)
    case RepeatBv(_, count) => BvRepeat(x, count)
    case RotateBv(left, _, amount) => if left then BvRotateLeft(x, amount) else BvRotateRight(x, amount)
    case _ => x
  }

  lemma {:induction false} AmountModulo(x: Bv, amount: nat)
    requires x != []
    ensures 0 <= amount % |x| < |x|
    ensures BvRotateLeft(x, amount % |x|) == BvRotateLeft(x, amount)
    ensures BvRotateRight(x, amount % |x|) == BvRotateRight(x, amount)
  {
    DivUnique(amount % |x|, |x|, 0, amount % |x|);
  }

  /** The value of one operator node, from the values of its operands. */
  method EvalVector(nodes: seq<Node>, i: TermId, values: seq<EvalValue>, env: Env, ghost vals: seq<Value>)
      returns (value: EvalValue)
    requires i < |nodes| && EvaluatedUpTo(nodes, i, values, vals)
    requires var k := nodes[i].kind;
             k.UnaryBv? || k.BinaryBv? || k.ExtractBv? || k.ConcatBv? || k.ExtendBv? || k.RepeatBv? || k.RotateBv?
    ensures Represents(value, KindValue(nodes[i].kind, i, env, vals))
  {
    hide Val, FromInt, GetBit, Decoded, EvaluatedUpTo, Normalized, UnaryValue, BinaryValue;
    hide BvExtract, BvSignExtend, BvZeroExtend, BvRepeat, BvRotateLeft, BvRotateRight, BvConcat;
    var k := nodes[i].kind;
    SortFits(nodes, i, values, vals);
    var bytes, width;
    if k.UnaryBv? {
      VectorOperand(nodes, i, values, vals, k.x);
      width := values[k.x].width;
      bytes := UnaryBytes(k.uop, values[k.x].bytes, width);
    } else if k.BinaryBv? {
      VectorOperand(nodes, i, values, vals, k.a);
      VectorOperand(nodes, i, values, vals, k.b);
      width := values[k.a].width;
      bytes := BinaryBytes(k.bop, values[k.a].bytes, values[k.b].bytes, width);
    } else if k.ConcatBv? {
      var h, l := k.highPart, k.lowPart;
      VectorOperand(nodes, i, values, vals, h);
      VectorOperand(nodes, i, values, vals, l);
      width := values[h].width + values[l].width;
      bytes := ConcatBytes(values[h].bytes, values[h].width, values[l].bytes, values[l].width);
    } else {
      VectorOperand(nodes, i, values, vals, k.child);
      bytes, width := EvalWiring(k, values[k.child].bytes, values[k.child].width);
    }
    value := EvalBv(width, bytes);
  }

  lemma {:induction false} SortFits(nodes: seq<Node>, i: TermId, values: seq<EvalValue>, vals: seq<Value>)
    requires i < |nodes| && EvaluatedUpTo(nodes, i, values, vals)
    ensures SortOf(nodes, i, nodes[i].kind) == Some(nodes[i].sort)
  {}

  method EvalChoice(nodes: seq<Node>, i: TermId, values: seq<EvalValue>, env: Env, ghost vals: seq<Value>)
      returns (value: EvalValue)
    requires i < |nodes| && EvaluatedUpTo(nodes, i, values, vals)
    requires var k := nodes[i].kind; k.IteBv? || k.IteBool? || k.SelectBv?
    ensures Represents(value, KindValue(nodes[i].kind, i, env, vals))
  {
    hide Val, FromInt, GetBit, Decoded, EvaluatedUpTo, Normalized;
    var k := nodes[i].kind;
    SortFits(nodes, i, values, vals);
    match k {
      case IteBv(c, t, e) =>
        BoolOperand(nodes, i, values, vals, c);
        VectorOperand(nodes, i, values, vals, t);
        VectorOperand(nodes, i, values, vals, e);
        value := if values[c].b then values[t] else values[e];
      case IteBool(c, t, e) =>
        BoolOperand(nodes, i, values, vals, c);
        BoolOperand(nodes, i, values, vals, t);
        BoolOperand(nodes, i, values, vals, e);
        value := if values[c].b then values[t] else values[e];
      case SelectBv(cases, default) =>
        var selected := default;
        var j := 0;
        while j < |cases|
          invariant 0 <= j <= |cases| && selected == default
          invariant SelectAt(vals, cases, default) == SelectAt(vals, cases[j..], default)
        {
          assert IsBool(nodes, i, cases[j].0);
          BoolOperand(nodes, i, values, vals, cases[j].0);
          assert cases[j..][0] == cases[j] && cases[j..][1..] == cases[j + 1..];
          if values[cases[j].0].b {
            selected := cases[j].1;
            break;
          }
          j := j + 1;
        }
        SelectedOperand(nodes, i, values, vals, cases, default);
        value := values[selected];
    }
  }

  lemma {:induction false} SelectedOperand(nodes: seq<Node>, i: TermId, values: seq<EvalValue>, vals: seq<Value>,
                                           cases: seq<(TermId, TermId)>, default: TermId)
    requires i < |nodes| && EvaluatedUpTo(nodes, i, values, vals)
    requires CasesOk(nodes, i, cases, default) && IsBv(nodes, i, default)
    ensures var x := SelectAt(vals, cases, default);
            && x < |values| && values[x].EvalBv? && Normalized(values[x].bytes, values[x].width)
            && BvAt(vals, x) == Decoded(values[x].bytes, values[x].width)
  {
    SelectLocal(nodes, i, cases, default, vals, vals);
    VectorOperand(nodes, i, values, vals, SelectAt(vals, cases, default));
  }

  /** Evaluation of node `k` multiplies at a width past the cap. */
  predicate NeedsWide(nodes: seq<Node>, k: NodeKind) { k.CompareBv? && TooWide(k.cop, Width(nodes, k.a)) }

  method EvalPredicate(nodes: seq<Node>, i: TermId, values: seq<EvalValue>, env: Env, ghost vals: seq<Value>)
    returns (r: Result<EvalValue>)
    requires i < |nodes| && EvaluatedUpTo(nodes, i, values, vals)
    requires var k := nodes[i].kind; k.NotBool? || k.BinaryBool? || k.CompareBv? || k.NegOverflows?
    ensures r.Err? <==> NeedsWide(nodes, nodes[i].kind)
    ensures r.Err? ==> r.error == Invalid
    ensures r.Ok? ==> Represents(r.value, KindValue(nodes[i].kind, i, env, vals))
  {
    hide Val, FromInt, GetBit, Decoded, EvaluatedUpTo, Normalized, CompareValue, NegOverflow, IsMinSigned;
    var k := nodes[i].kind;
    SortFits(nodes, i, values, vals);
    match k {
      case NotBool(x) =>
        BoolOperand(nodes, i, values, vals, x);
        r := Ok(EvalBool(!values[x].b));
      case BinaryBool(op, a, b) =>
        BoolOperand(nodes, i, values, vals, a);
        BoolOperand(nodes, i, values, vals, b);
        r := Ok(EvalBool(BoolOpValue(op, values[a].b, values[b].b)));
      case CompareBv(op, a, b) =>
        VectorOperand(nodes, i, values, vals, a);
        VectorOperand(nodes, i, values, vals, b);
        var holds := CompareBytes(op, values[a].bytes, values[b].bytes, values[a].width);
        r := if holds.Ok? then Ok(EvalBool(holds.value)) else Err(holds.error);
      case NegOverflows(x) =>
        VectorOperand(nodes, i, values, vals, x);
        MinSignedBytes(values[x].bytes, values[x].width);
        NegOverflowIsMin(Decoded(values[x].bytes, values[x].width));
        r := Ok(EvalBool(IsMinSigned(values[x].bytes, values[x].width)));
    }
  }

  method EvalNode(nodes: seq<Node>, i: TermId, values: seq<EvalValue>, assignment: EvalAssignment,
                  ghost vals: seq<Value>)
    returns (r: Result<EvalValue>)
    requires i < |nodes| && EvaluatedUpTo(nodes, i, values, vals) && AssignmentOk(nodes, assignment)
    ensures r.Err? <==> NeedsWide(nodes, nodes[i].kind)
    ensures r.Err? ==> r.error == Invalid
    ensures r.Ok? ==> Represents(r.value, KindValue(nodes[i].kind, i, AssignedEnv(assignment), vals))
    ensures r.Ok? ==> VariableComputed(assignment, nodes[i].kind, i, r.value)
  {
    hide GetBit;
    var k := nodes[i].kind;
    var value;
    SortFits(nodes, i, values, vals);
    match k {
      case ConstBv(width, bytes) => value := EvalBv(width, bytes);
      case ConstBool(b) => value := EvalBool(b);
      case VarBv(_, _, _) =>
        assert nodes[i].kind.VarBv?;
        value := EvalVariable(k, i, assignment);
      case VarBool(_, _) => value := EvalVariable(k, i, assignment);
      case IteBv(_, _, _) => value := EvalChoice(nodes, i, values, AssignedEnv(assignment), vals);
      case IteBool(_, _, _) => value := EvalChoice(nodes, i, values, AssignedEnv(assignment), vals);
      case SelectBv(_, _) => value := EvalChoice(nodes, i, values, AssignedEnv(assignment), vals);
      case NotBool(_) => r := EvalPredicate(nodes, i, values, AssignedEnv(assignment), vals); return;
      case BinaryBool(_, _, _) => r := EvalPredicate(nodes, i, values, AssignedEnv(assignment), vals); return;
      case CompareBv(_, _, _) => r := EvalPredicate(nodes, i, values, AssignedEnv(assignment), vals); return;
      case NegOverflows(_) => r := EvalPredicate(nodes, i, values, AssignedEnv(assignment), vals); return;
      case _ => value := EvalVector(nodes, i, values, AssignedEnv(assignment), vals);
    }
    r := Ok(value);
  }

  /** Evaluates every node in order.  It fails exactly when some unsigned multiplication overflow
      test is wider than half the cap. */
  method Evaluate(nodes: seq<Node>, assignment: EvalAssignment) returns (r: Result<seq<EvalValue>>)
    requires WellFormed(nodes) && AssignmentOk(nodes, assignment)
    ensures r.Err? <==> exists i :: 0 <= i < |nodes| && NeedsWide(nodes, nodes[i].kind)
    ensures r.Err? ==> r.error == Invalid
    ensures r.Ok? ==> AllRepresent(r.value, Eval(nodes, AssignedEnv(assignment)))
    ensures r.Ok? ==> forall i :: 0 <= i < |nodes| ==> VariableComputed(assignment, nodes[i].kind, i, r.value[i])
  {
    hide Represents, KindValue, SortOf, AssignmentOk, NeedsWide, VariableComputed;
    ghost var env := AssignedEnv(assignment);
    var values: seq<EvalValue> := [];
    for index := 0 to |nodes|
      invariant EvaluatedUpTo(nodes, index, values, Eval(nodes[..index], env))
      invariant forall j :: 0 <= j < index ==> !NeedsWide(nodes, nodes[j].kind)
      invariant forall j :: 0 <= j < index ==> VariableComputed(assignment, nodes[j].kind, j, values[j])
    {
      ghost var vals := Eval(nodes[..index], env);
      var value := EvalNode(nodes, index, values, assignment, vals);
      if value.Err? {
        return Err(value.error);
      }
      EvaluatedStep(nodes, index, values, env, value.value);
      values := values + [value.value];
    }
    assert nodes[..|nodes|] == nodes;
    r := Ok(values);
  }

  lemma {:induction false} EvaluatedStep(nodes: seq<Node>, n: nat, values: seq<EvalValue>, env: Env, value: EvalValue)
    requires n < |nodes| && EvaluatedUpTo(nodes, n, values, Eval(nodes[..n], env))
    requires Represents(value, KindValue(nodes[n].kind, n, env, Eval(nodes[..n], env)))
    ensures EvaluatedUpTo(nodes, n + 1, values + [value], Eval(nodes[..n + 1], env))
  {
    hide Represents, KindValue, SortOf;
    var vals := Eval(nodes[..n], env);
    assert nodes[..n + 1][..n] == nodes[..n];
    assert Eval(nodes[..n + 1], env) == vals + [KindValue(nodes[n].kind, n, env, vals)];
    SortFits(nodes, n, values, vals);
    KindValueSorted(nodes, n, nodes[n].kind, n, env, vals);
  }

  /** Do all assertions and assumptions hold under this assignment? */
  method QuerySatisfiedBy(query: Query, assignment: EvalAssignment) returns (r: Result<bool>)
    requires query.Valid() && AssignmentOk(query.arena.nodes, assignment)
    ensures r.Ok? ==> (r.value <==> query.Holds(AssignedEnv(assignment)))
    ensures r.Err? <==>
              exists i :: 0 <= i < |query.arena.nodes| && NeedsWide(query.arena.nodes, query.arena.nodes[i].kind)
  {
    hide KindValue, SortOf, AssignmentOk, NeedsWide, AssignedEnv, Eval;
    var nodes := query.arena.nodes;
    var values := Evaluate(nodes, assignment);
    if values.Err? {
      return Err(values.error);
    }
    var roots := query.Roots();
    RootsAreBool(query);
    ghost var vals := Eval(nodes, AssignedEnv(assignment));
    EvalSorted(nodes, AssignedEnv(assignment));
    for n := 0 to |roots|
      invariant forall i :: 0 <= i < n ==> BoolAt(vals, roots[i])
    {
      BoolOperand(nodes, |nodes|, values.value, vals, roots[n]);
      if !values.value[roots[n]].b {
        return Ok(false);
      }
    }
    r := Ok(true);
  }

  /** A well-formed pair of nodes on which evaluation fails although the term semantics is total:
      the test for overflow of a 40000-bit square. */
  lemma {:induction false} WideSquareIsRefused()
    ensures var nodes := [Node(VarBv(40000, "x", None), BvSort(40000)), Node(CompareBv(OvfUMul, 0, 0), BoolSort)];
            WellFormed(nodes) && NeedsWide(nodes, nodes[1].kind)
  {
    var nodes := [Node(VarBv(40000, "x", None), BvSort(40000)), Node(CompareBv(OvfUMul, 0, 0), BoolSort)];
    assert SortOf(nodes, 0, nodes[0].kind) == Some(BvSort(40000));
    assert SortOf(nodes, 1, nodes[1].kind) == Some(BoolSort);
  }
}
