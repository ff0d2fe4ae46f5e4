/** The possible-bits analysis: a mask that covers every value a term can take. */
module Masks {
  import opened BitVectors
  import opened Bytes
  import opened ByteOps
  import opened CircuitLemmas
  import opened Wrappers
  import opened Ir
  import opened Terms
  import opened Identities
  import Circuits

  const MAX_MASK_WIDTH: nat := 4096
  const MAX_MASK_DEPTH: nat := 64

  /** Every bit of `x` is a bit of `m`. */
  predicate Within(x: Bv, m: Bv) { |x| == |m| && forall i :: 0 <= i < |x| ==> x[i] ==> m[i] }

  /** The mask covers the term under every assignment. */
  ghost predicate Covers(nodes: seq<Node>, term: TermId, m: Bv) {
    forall env: Env {:trigger Eval(nodes, env)} :: Within(BvAt(Eval(nodes, env), term), m)
  }

  ghost predicate MaskOf(nodes: seq<Node>, term: TermId, width: nat, mask: seq<Byte>) {
    IsBv(nodes, |nodes|, term) && Width(nodes, term) == width && Normalized(mask, width)
      && Covers(nodes, term, Decoded(mask, width))
  }

  // --------------------------------------------------------------- masks of operators

  lemma {:induction false} WithinShifts(x: Bv, m: Bv, s: nat)
    requires Within(x, m)
    ensures Within(Shifted(x, s, |x|), Shifted(m, s, |x|))
    ensures Within(ShiftedRight(x, s, false), ShiftedRight(m, s, false))
  {}

  lemma {:induction false} WithinConnectives(x: Bv, m: Bv, y: Bv, n: Bv)
    requires |x| == |y|
    ensures Within(x, m) ==> Within(BvAnd(x, y), m)
    ensures Within(y, n) ==> Within(BvAnd(x, y), n)
    ensures Within(x, m) && Within(y, n) ==> Within(BvAnd(x, y), BvAnd(m, n))
    ensures Within(x, m) && Within(y, n) ==> Within(BvOr(x, y), BvOr(m, n)) && Within(BvXor(x, y), BvOr(m, n))
  {}

  lemma {:induction false} WithinWiring(x: Bv, m: Bv, y: Bv, n: Bv, high: nat, low: nat, extra: nat)
    requires Within(x, m)
    ensures low <= high < |x| ==> Within(BvExtract(x, high, low), BvExtract(m, high, low))
    ensures Within(y, n) ==> Within(BvConcat(x, y), BvConcat(m, n))
    ensures Within(BvZeroExtend(x, extra), BvZeroExtend(m, extra))
  {}

  // -------------------------------------------------------------------- the analysis

  /** The constant amount of a shift, saturated at the width. */
  method ConstShiftAmount(nodes: seq<Node>, id: TermId, width: nat) returns (r: Option<nat>)
    requires WellFormed(nodes) && id < |nodes| && width <= MAX_BV_WIDTH
    ensures r.Some? <==> IsConst(nodes, id)
    ensures r.Some? ==> r.value <= width
    ensures r.Some? ==> forall env: Env {:trigger Eval(nodes, env)} ::
              r.value == if Val(BvAt(Eval(nodes, env), id)) < width then Val(BvAt(Eval(nodes, env), id)) else width
  {
    hide Eval, SortOf, Val, Normalized, Decoded;
    if !IsConst(nodes, id) { return None; }
    var bytes := ConstBytesOf(nodes, id);
    var value := BytesToBoundedUsize(bytes, width);
    forall env: Env
      ensures value == if Val(BvAt(Eval(nodes, env), id)) < width then Val(BvAt(Eval(nodes, env), id)) else width
    {
      ConstValue(nodes, env, id);
      NormalizedVal(bytes, Width(nodes, id));
    }
    r := Some(value);
  }

  lemma {:induction false} LeafMask(nodes: seq<Node>, term: TermId, width: nat, mask: seq<Byte>)
    requires WellFormed(nodes) && IsBv(nodes, |nodes|, term) && Width(nodes, term) == width && Normalized(mask, width)
    requires (IsConst(nodes, term) && mask == ConstBytesOf(nodes, term)) || Decoded(mask, width) == Ones(width)
    ensures MaskOf(nodes, term, width, mask)
  {
    hide Eval, SortOf, Normalized, Decoded, WellFormed;
    forall env: Env ensures Within(BvAt(Eval(nodes, env), term), Decoded(mask, width)) {
      VectorValue(nodes, env, term);
      if IsConst(nodes, term) && mask == ConstBytesOf(nodes, term) { ConstValue(nodes, env, term); }
    }
  }

  /** Constant shifts move the mask. */
  lemma {:induction false} ShiftMask(nodes: seq<Node>, term: TermId, width: nat, inner: seq<Byte>, shift: nat,
                                     mask: seq<Byte>)
    requires WellFormed(nodes) && term < |nodes| && nodes[term].kind.BinaryBv?
    requires nodes[term].kind.bop == OpShl || nodes[term].kind.bop == OpLShr
    requires MaskOf(nodes, nodes[term].kind.a, width, inner) && Normalized(mask, width)
    requires forall env: Env {:trigger Eval(nodes, env)} ::
               shift == if Val(BvAt(Eval(nodes, env), nodes[term].kind.b)) < width
                 then Val(BvAt(Eval(nodes, env), nodes[term].kind.b)) else width
    requires nodes[term].kind.bop == OpShl ==> Decoded(mask, width) == Shifted(Decoded(inner, width), shift, width)
    requires nodes[term].kind.bop == OpLShr ==>
               Decoded(mask, width) == ShiftedRight(Decoded(inner, width), shift, false)
    ensures MaskOf(nodes, term, width, mask)
  {
    hide Eval, WellFormed, Normalized, Decoded, Shifted, ShiftedRight, Within, BvShl, BvLShr, Val;
    var value, amount := nodes[term].kind.a, nodes[term].kind.b;
    forall env: Env ensures Within(BvAt(Eval(nodes, env), term), Decoded(mask, width)) {
      NodeValue(nodes, env, term);
      VectorValue(nodes, env, value);
      var x, y := BvAt(Eval(nodes, env), value), BvAt(Eval(nodes, env), amount);
      ShlBits(x, y);
      LShrBits(x, y);
      if Val(y) >= width { Saturated(x, Val(y), shift, false); }
      WithinShifts(x, Decoded(inner, width), shift);
    }
    ShiftSort(nodes, term);
  }

  lemma {:induction false} ShiftSort(nodes: seq<Node>, term: TermId)
    requires WellFormed(nodes) && term < |nodes| && nodes[term].kind.BinaryBv?
    ensures var k := nodes[term].kind;
            SameBv(nodes, term, k.a, k.b) && IsBv(nodes, |nodes|, term) && Width(nodes, term) == Width(nodes, k.a)
  {
    assert SortOf(nodes, term, nodes[term].kind) == Some(nodes[term].sort);
  }

  datatype MaskRule = AndBoth | AndLeft | AndRight | OrBoth

  /** Masks of conjunctions, disjunctions and exclusive disjunctions. */
  lemma {:induction false} ConnectiveMask(nodes: seq<Node>, term: TermId, width: nat, rule: MaskRule, left: seq<Byte>,
                                          right: seq<Byte>, mask: seq<Byte>)
    requires WellFormed(nodes) && term < |nodes| && nodes[term].kind.BinaryBv?
    requires var op := nodes[term].kind.bop; if rule.OrBoth? then op.OpOr? || op.OpXor? else op.OpAnd?
    requires rule.AndRight? || MaskOf(nodes, nodes[term].kind.a, width, left)
    requires rule.AndLeft? || MaskOf(nodes, nodes[term].kind.b, width, right)
    requires Normalized(mask, width)
    requires match rule
             case AndBoth => Decoded(mask, width) == BvAnd(Decoded(left, width), Decoded(right, width))
             case AndLeft => mask == left
             case AndRight => mask == right
             case OrBoth => Decoded(mask, width) == BvOr(Decoded(left, width), Decoded(right, width))
    ensures MaskOf(nodes, term, width, mask)
  {
    hide Eval, WellFormed, Normalized, Decoded, Within, BvAnd, BvOr, BvXor;
    var a, b := nodes[term].kind.a, nodes[term].kind.b;
    ShiftSort(nodes, term);
    forall env: Env ensures Within(BvAt(Eval(nodes, env), term), Decoded(mask, width)) {
      NodeValue(nodes, env, term);
      VectorValue(nodes, env, a);
      VectorValue(nodes, env, b);
      WithinConnectives(BvAt(Eval(nodes, env), a), Decoded(left, width), BvAt(Eval(nodes, env), b),
                        Decoded(right, width));
    }
  }

  lemma {:induction false} ExtendMask(nodes: seq<Node>, term: TermId, inner: seq<Byte>, mask: seq<Byte>)
    requires WellFormed(nodes) && term < |nodes| && nodes[term].kind.ExtendBv? && !nodes[term].kind.signed
    requires var k := nodes[term].kind;
             var cw := Width(nodes, k.child);
             && MaskOf(nodes, k.child, cw, inner) && Normalized(mask, cw + k.extra)
             && Decoded(mask, cw + k.extra) == BvZeroExtend(Decoded(inner, cw), k.extra)
    ensures MaskOf(nodes, term, Width(nodes, nodes[term].kind.child) + nodes[term].kind.extra, mask)
  {
    hide Eval, Normalized, Decoded, Within, BvZeroExtend, WellFormed;
    var k := nodes[term].kind;
    var cw := Width(nodes, k.child);
    assert SortOf(nodes, term, k) == Some(nodes[term].sort) by { EvalSort(nodes, term); }
    forall env: Env ensures Within(BvAt(Eval(nodes, env), term), Decoded(mask, cw + k.extra)) {
      NodeValue(nodes, env, term);
      VectorValue(nodes, env, k.child);
      WithinWiring(BvAt(Eval(nodes, env), k.child), Decoded(inner, cw), [], [], 0, 0, k.extra);
    }
  }

  lemma {:induction false} EvalSort(nodes: seq<Node>, term: TermId)
    requires WellFormed(nodes) && term < |nodes|
    ensures SortOf(nodes, term, nodes[term].kind) == Some(nodes[term].sort)
  {}

  lemma {:induction false} ExtractMask(nodes: seq<Node>, term: TermId, inner: seq<Byte>, mask: seq<Byte>)
    requires WellFormed(nodes) && term < |nodes| && nodes[term].kind.ExtractBv?
    requires nodes[term].kind.low <= nodes[term].kind.high
    requires var k := nodes[term].kind;
             var (cw, w) := (Width(nodes, k.child), k.high - k.low + 1);
             && MaskOf(nodes, k.child, cw, inner) && Normalized(mask, w)
             && Decoded(mask, w) == BvExtract(Decoded(inner, cw), k.high, k.low)
    ensures MaskOf(nodes, term, nodes[term].kind.high - nodes[term].kind.low + 1, mask)
  {
    hide Eval, Normalized, Decoded, Within, BvExtract, WellFormed;
    var k := nodes[term].kind;
    EvalSort(nodes, term);
    forall env: Env ensures Within(BvAt(Eval(nodes, env), term), Decoded(mask, k.high - k.low + 1)) {
      NodeValue(nodes, env, term);
      VectorValue(nodes, env, k.child);
      WithinWiring(BvAt(Eval(nodes, env), k.child), Decoded(inner, Width(nodes, k.child)), [], [], k.high, k.low, 0);
    }
  }

  lemma {:induction false} ConcatMask(nodes: seq<Node>, term: TermId, high: seq<Byte>, low: seq<Byte>, mask: seq<Byte>)
    requires WellFormed(nodes) && term < |nodes| && nodes[term].kind.ConcatBv?
    requires var k := nodes[term].kind;
             var (hw, lw) := (Width(nodes, k.highPart), Width(nodes, k.lowPart));
             && MaskOf(nodes, k.highPart, hw, high) && MaskOf(nodes, k.lowPart, lw, low) && Normalized(mask, hw + lw)
             && Decoded(mask, hw + lw) == BvConcat(Decoded(high, hw), Decoded(low, lw))
    ensures MaskOf(nodes, term, Width(nodes, nodes[term].kind.highPart) + Width(nodes, nodes[term].kind.lowPart), mask)
  {
    hide Eval, Normalized, Decoded, Within, BvConcat, WellFormed;
    var k := nodes[term].kind;
    var hw, lw := Width(nodes, k.highPart), Width(nodes, k.lowPart);
    EvalSort(nodes, term);
    forall env: Env ensures Within(BvAt(Eval(nodes, env), term), Decoded(mask, hw + lw)) {
      NodeValue(nodes, env, term);
      VectorValue(nodes, env, k.highPart);
      VectorValue(nodes, env, k.lowPart);
      WithinWiring(BvAt(Eval(nodes, env), k.highPart), Decoded(high, hw), BvAt(Eval(nodes, env), k.lowPart),
                   Decoded(low, lw), 0, 0, 0);
    }
  }

  /** A mask of the bits `term` can have, or None when the analysis gives up. */
  method PossibleBitMask(nodes: seq<Node>, term: TermId, width: nat, depth: nat) returns (r: Option<seq<Byte>>)
    requires WellFormed(nodes) && term < |nodes|
    ensures r.Some? ==> MaskOf(nodes, term, width, r.value)
    ensures r.Some? && nodes[term].kind.BinaryBv? && nodes[term].kind.bop.OpShl? ==> IsConst(nodes, nodes[term].kind.b)
    decreases term, 2
  {
    hide Eval, Normalized, Decoded, MaskOf, WellFormed;
    if width > MAX_MASK_WIDTH || depth > MAX_MASK_DEPTH { return None; }
    EvalSort(nodes, term);
    var k := nodes[term].kind;
    match k {
      case ConstBv(actual, bytes) =>
        if actual != width { return None; }
        ghost var env: Env := Env(_ => false, _ => 0);
        ConstValue(nodes, env, term);
        LeafMask(nodes, term, width, bytes);
        r := Some(bytes);
      case VarBv(actual, _, _) =>
        if actual != width { return None; }
        ConstantBits(width, true);
        LeafMask(nodes, term, width, ConstantBytes(width, true));
        r := Some(ConstantBytes(width, true));
      case ExtendBv(signed, child, extra) =>
        if signed || Width(nodes, child) + extra != width { return None; }
        var inner := PossibleBitMask(nodes, child, Width(nodes, child), depth + 1);
        if inner.None? { return None; }
        MaskShape(nodes, child, Width(nodes, child), inner.value);
        ResizeExtends(inner.value, Width(nodes, child), extra);
        var mask := MaskUnusedHighBits(Resize(inner.value, BytesFor(width)), width);
        ExtendMask(nodes, term, inner.value, mask);
        r := Some(mask);
      case ExtractBv(child, high, low) =>
        if high - low + 1 != width { return None; }
        var inner := PossibleBitMask(nodes, child, Width(nodes, child), depth + 1);
        if inner.None? { return None; }
        var mask := ExtractBytes(inner.value, low, width);
        assert low + width <= Width(nodes, child);
        ExtractMask(nodes, term, inner.value, mask);
        r := Some(mask);
      case ConcatBv(high, low) =>
        if Width(nodes, high) + Width(nodes, low) != width { return None; }
        var highMask := PossibleBitMask(nodes, high, Width(nodes, high), depth + 1);
        var lowMask := PossibleBitMask(nodes, low, Width(nodes, low), depth + 1);
        if highMask.None? || lowMask.None? { return None; }
        var mask := ConcatBytes(highMask.value, Width(nodes, high), lowMask.value, Width(nodes, low));
        ConcatMask(nodes, term, highMask.value, lowMask.value, mask);
        r := Some(mask);
      case BinaryBv(op, a, b) =>
        r := BinaryMask(nodes, term, op, a, b, width, depth);
      case _ => r := None;
    }
  }

  lemma {:induction false} MaskShape(nodes: seq<Node>, term: TermId, width: nat, mask: seq<Byte>)
    requires MaskOf(nodes, term, width, mask)
    ensures IsBv(nodes, |nodes|, term) && Width(nodes, term) == width && Normalized(mask, width)
  {}

  method BinaryMask(nodes: seq<Node>, term: TermId, op: BinaryOp, a: TermId, b: TermId, width: nat, depth: nat)
      returns (r: Option<seq<Byte>>)
    requires WellFormed(nodes) && term < |nodes| && nodes[term].kind == BinaryBv(op, a, b) && width <= MAX_MASK_WIDTH
    ensures r.Some? ==> MaskOf(nodes, term, width, r.value)
    ensures r.Some? && op.OpShl? ==> IsConst(nodes, b)
    decreases term, 1
  {
    hide Eval, Normalized, Decoded, MaskOf, WellFormed, BitwiseBytes, Val;
    ShiftSort(nodes, term);
    match op {
      case OpShl =>
        var shift := ConstShiftAmount(nodes, b, width);
        if shift.None? { return None; }
        var inner := PossibleBitMask(nodes, a, width, depth + 1);
        if inner.None? { return None; }
        var mask := ShlBytes(inner.value, width, shift.value);
        ShiftMask(nodes, term, width, inner.value, shift.value, mask);
        r := Some(mask);
      case OpLShr =>
        var shift := ConstShiftAmount(nodes, b, width);
        if shift.None? { return None; }
        var inner := PossibleBitMask(nodes, a, width, depth + 1);
        if inner.None? { return None; }
        var mask := LShrBytes(inner.value, width, shift.value);
        ShiftMask(nodes, term, width, inner.value, shift.value, mask);
        r := Some(mask);
      case OpAnd =>
        var left := PossibleBitMask(nodes, a, width, depth + 1);
        var right := PossibleBitMask(nodes, b, width, depth + 1);
        if left.Some? { MaskShape(nodes, a, width, left.value); }
        if right.Some? { MaskShape(nodes, b, width, right.value); }
        match (left, right) {
          case (Some(l), Some(m)) =>
            BitwiseDecoded(Circuits.Both, l, m, width);
            ConnectiveMask(nodes, term, width, AndBoth, l, m, BitwiseBytes(Circuits.Both, l, m));
            r := Some(BitwiseBytes(Circuits.Both, l, m));
          case (Some(l), None) =>
            ConnectiveMask(nodes, term, width, AndLeft, l, [], l);
            r := Some(l);
          case (None, Some(m)) =>
            ConnectiveMask(nodes, term, width, AndRight, [], m, m);
            r := Some(m);
          case (None, None) => r := None;
        }
      case OpOr => r := DisjunctionMask(nodes, term, op, a, b, width, depth);
      case OpXor => r := DisjunctionMask(nodes, term, op, a, b, width, depth);
      case _ => r := None;
    }
  }

  method DisjunctionMask(nodes: seq<Node>, term: TermId, op: BinaryOp, a: TermId, b: TermId, width: nat, depth: nat)
      returns (r: Option<seq<Byte>>)
    requires WellFormed(nodes) && term < |nodes| && nodes[term].kind == BinaryBv(op, a, b) && (op.OpOr? || op.OpXor?)
    ensures r.Some? ==> MaskOf(nodes, term, width, r.value)
    decreases term, 0
  {
    hide Eval, Normalized, Decoded, MaskOf, WellFormed, BitwiseBytes;
    ShiftSort(nodes, term);
    var left := PossibleBitMask(nodes, a, width, depth + 1);
    var right := PossibleBitMask(nodes, b, width, depth + 1);
    if left.None? || right.None? { return None; }
    MaskShape(nodes, a, width, left.value);
    MaskShape(nodes, b, width, right.value);
    BitwiseDecoded(Circuits.Either, left.value, right.value, width);
    var mask := BitwiseBytes(Circuits.Either, left.value, right.value);
    ConnectiveMask(nodes, term, width, OrBoth, left.value, right.value, mask);
    r := Some(mask);
  }

  /** The terms never share a bit: the justification for and = 0 and for add = xor = or. */
  ghost predicate NeverShare(nodes: seq<Node>, a: TermId, b: TermId) {
    forall env: Env {:trigger Eval(nodes, env)} :: Disjoint(BvAt(Eval(nodes, env), a), BvAt(Eval(nodes, env), b))
  }

  predicate ShiftOfConst(nodes: seq<Node>, x: TermId) {
    x < |nodes| && nodes[x].kind.BinaryBv? && nodes[x].kind.bop.OpShl? ==> IsConst(nodes, nodes[x].kind.b)
  }

  /** Masks without a common bit prove that the terms never share one. */
  method HaveDisjointPossibleBits(nodes: seq<Node>, a: TermId, b: TermId, width: nat) returns (disjoint: bool)
    requires WellFormed(nodes) && SameBv(nodes, |nodes|, a, b) && Width(nodes, a) == width
    ensures disjoint ==> NeverShare(nodes, a, b) && ShiftOfConst(nodes, a) && ShiftOfConst(nodes, b)
  {
    hide Eval, Normalized, MaskOf, WellFormed, BitwiseBytes, GetBit;
    if width > MAX_MASK_WIDTH { return false; }
    var left := PossibleBitMask(nodes, a, width, 0);
    var right := PossibleBitMask(nodes, b, width, 0);
    if left.None? || right.None? { return false; }
    MaskShape(nodes, a, width, left.value);
    MaskShape(nodes, b, width, right.value);
    disjoint := AllZero(BitwiseBytes(Circuits.Both, left.value, right.value));
    if disjoint {
      BitwiseDecoded(Circuits.Both, left.value, right.value, width);
      ZeroBytesVal(BitwiseBytes(Circuits.Both, left.value, right.value), width);
      DisjointMasks(nodes, a, b, width, left.value, right.value);
    }
  }

  lemma {:induction false} DisjointMasks(nodes: seq<Node>, a: TermId, b: TermId, width: nat, left: seq<Byte>,
                                         right: seq<Byte>)
    requires MaskOf(nodes, a, width, left) && MaskOf(nodes, b, width, right)
    requires Val(BvAnd(Decoded(left, width), Decoded(right, width))) == 0
    ensures NeverShare(nodes, a, b)
  {
    hide Eval, Normalized, Val, Decoded;
    ZeroIffNoBit(BvAnd(Decoded(left, width), Decoded(right, width)));
    var l, m := Decoded(left, width), Decoded(right, width);
    assert forall i :: 0 <= i < width ==> BvAnd(l, m)[i] == (l[i] && m[i]);
  }
}
