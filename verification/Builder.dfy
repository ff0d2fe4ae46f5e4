/** The term builder: every constructor rewrites eagerly, and returns a term that means what was
    requested.  The constructors call each other; their measures show that this ends. */
module Builders {
  import opened BitVectors
  import opened Bytes
  import opened ByteOps
  import opened Wrappers
  import opened Ir
  import opened Terms
  import opened Rules
  import opened WiringRules
  import opened Sums
  import opened Masks
  import opened Polynomials
  import opened Evaluator
  import opened Queries
  import Circuits
  import Identities

  // ------------------------------------------------------------------------ normal forms

  /** The amount of a right shift, 0 for other terms. */
  function LShrAmount(nodes: seq<Node>, x: TermId): nat { if IsBinary(nodes, x, OpLShr) then nodes[x].kind.b else 0 }

  predicate Sliceable(nodes: seq<Node>, x: TermId) {
    x < |nodes| && !nodes[x].kind.ConstBv? && !nodes[x].kind.ExtractBv? && !nodes[x].kind.ConcatBv?
  }

  /** No constant is shifted left by a constant, nested right shifts have increasing amounts, and
      constants, slices and joins are never sliced. */
  predicate NodeNormal(nodes: seq<Node>, k: NodeKind) {
    match k
    case BinaryBv(OpShl, a, b) => !(IsConst(nodes, a) && IsConst(nodes, b))
    case BinaryBv(OpLShr, a, b) => LShrAmount(nodes, a) <= b
    case ExtractBv(c, _, _) => Sliceable(nodes, c)
    case _ => true
  }

  ghost predicate NormalForm(nodes: seq<Node>) {
    forall i {:trigger nodes[i]} :: 0 <= i < |nodes| ==> NodeNormal(nodes, nodes[i].kind)
  }

  lemma {:induction false} NormalKept(nodes: seq<Node>, more: seq<Node>, n: nat, k: NodeKind)
    requires nodes <= more && SortOf(nodes, n, k).Some? && NodeNormal(nodes, k)
    ensures NodeNormal(more, k)
  {}

  lemma {:induction false} NormalSnoc(nodes: seq<Node>, node: Node)
    requires WellFormed(nodes) && NormalForm(nodes) && NodeNormal(nodes, node.kind)
    requires SortOf(nodes, |nodes|, node.kind).Some?
    ensures NormalForm(nodes + [node])
  {
    hide SortOf, NodeNormal;
    var more := nodes + [node];
    forall i | 0 <= i < |more| ensures NodeNormal(more, more[i].kind) {
      if i < |nodes| {
        assert SortOf(nodes, i, nodes[i].kind) == Some(nodes[i].sort);
        NormalKept(nodes, more, i, nodes[i].kind);
      } else {
        NormalKept(nodes, more, |nodes|, node.kind);
      }
    }
  }

  lemma {:induction false} NormalAt(nodes: seq<Node>, x: TermId)
    requires NormalForm(nodes) && x < |nodes|
    ensures NodeNormal(nodes, nodes[x].kind)
  {}

  function OrderPair(a: TermId, b: TermId): (TermId, TermId) { if a <= b then (a, b) else (b, a) }

  lemma {:induction false} Ordered(was: seq<Node>, now: seq<Node>, r: Result<TermId>, op: BinaryOp, x: TermId,
                                   y: TermId)
    requires Builds(was, now, r, BinaryBv(op, OrderPair(x, y).0, OrderPair(x, y).1)) && Commutative(op)
    ensures Builds(was, now, r, BinaryBv(op, x, y))
  {
    hide Builds, Equivalent, WellFormed;
    if y < x {
      Commutes(was, op, y, x) by { BuildsWellFormed(was, now, r, BinaryBv(op, y, x)); }
      BuildsEquivalent(was, now, r, BinaryBv(op, y, x), BinaryBv(op, x, y));
    }
  }

  lemma {:induction false} BuildsWellFormed(was: seq<Node>, now: seq<Node>, r: Result<TermId>, k: NodeKind)
    requires Builds(was, now, r, k)
    ensures WellFormed(was) && WellFormed(now) && was <= now
  {}

  class Builder {
    const arena: Arena
    var assertions: seq<Assertion>
    var assumptions: seq<TermId>
    var command: Command
    var target: Option<TermId>
    var signed: bool
    var scopes: seq<nat>

    ghost predicate Ready()
      reads this, arena
    {
      arena.Valid() && WellFormed(arena.nodes) && NormalForm(arena.nodes)
    }

    constructor ()
      ensures Valid() && fresh(arena) && arena.nodes == [] && assertions == [] && assumptions == [] && scopes == []
      ensures command.Solve?
    {
      arena := new Arena();
      assertions, assumptions, command, target, signed, scopes := [], [], Solve, None, false, [];
    }

    // --------------------------------------------------------------- nodes and constants

    /** Adds the node as requested, or finds it. */
    method AddNode(k: NodeKind) returns (r: Result<TermId>)
      requires Ready() && SortOf(arena.nodes, |arena.nodes|, k).Some? && NodeNormal(arena.nodes, k) && !IsVariable(k)
      modifies arena
      ensures Ready() && Builds(old(arena.nodes), arena.nodes, r, k) && r.Ok? && r.value < |arena.nodes|
      ensures arena.nodes[r.value].kind == k
    {
      hide Eval, WellFormed, SortOf, NormalForm, NodeNormal, KindValue, Extended, Denotes;
      ghost var was := arena.nodes;
      var sort := SortOf(arena.nodes, |arena.nodes|, k).value;
      NormalSnoc(was, Node(k, sort));
      r := arena.Add(k, sort);
      AddedBuilds(was, arena.nodes, r.value, k);
    }

    /** A result that is always the same vector is returned as a constant. */
    method Fold(ghost k: NodeKind, bytes: seq<Byte>, width: nat) returns (r: Result<TermId>)
      requires Ready() && Normalized(bytes, width) && ValidWidth(width)
      requires SortOf(arena.nodes, |arena.nodes|, k) == Some(BvSort(width))
      requires Always(arena.nodes, k, BvValue(Decoded(bytes, width)))
      modifies arena
      ensures Ready() && Builds(old(arena.nodes), arena.nodes, r, k) && r.Ok? && IsConst(arena.nodes, r.value)
    {
      hide Eval, WellFormed, NormalForm, Extended, Denotes, Always, Arena.Valid, Decoded, Normalized;
      ghost var was := arena.nodes;
      r := AddNode(ConstBv(width, bytes));
      FoldEquivalent(was, k, bytes, width);
      BuildsEquivalent(was, arena.nodes, r, ConstBv(width, bytes), k);
    }

    method FoldConstant(ghost k: NodeKind, ones: bool, width: nat) returns (r: Result<TermId>)
      requires Ready() && ValidWidth(width) && SortOf(arena.nodes, |arena.nodes|, k) == Some(BvSort(width))
      requires Always(arena.nodes, k, BvValue(if ones then Ones(width) else Zeros(width)))
      modifies arena
      ensures Ready() && Builds(old(arena.nodes), arena.nodes, r, k) && r.Ok? && IsConst(arena.nodes, r.value)
    {
      hide Eval, WellFormed, NormalForm, Always, Builds, Arena.Valid, Decoded, Normalized, SortOf, ConstantBytes;
      ConstantBits(width, ones);
      r := Fold(k, ConstantBytes(width, ones), width);
    }

    method FoldBool(ghost k: NodeKind, value: bool) returns (r: Result<TermId>)
      requires Ready() && SortOf(arena.nodes, |arena.nodes|, k) == Some(BoolSort)
      requires Always(arena.nodes, k, BoolValue(value))
      modifies arena
      ensures Ready() && Builds(old(arena.nodes), arena.nodes, r, k) && r.Ok?
    {
      hide Eval, WellFormed, NormalForm, Extended, Denotes, Always, Arena.Valid;
      ghost var was := arena.nodes;
      r := AddNode(ConstBool(value));
      FoldBoolEquivalent(was, k, value);
      BuildsEquivalent(was, arena.nodes, r, ConstBool(value), k);
    }

    /** A constant from bytes: the length must fit, the unused bits are cleared. */
    method MakeConstBytes(bytes: seq<Byte>, width: nat) returns (r: Result<TermId>)
      requires Ready()
      modifies arena
      ensures Ready() && (r.Ok? <==> ValidWidth(width) && |bytes| == BytesFor(width))
      ensures r.Ok? ==> Builds(old(arena.nodes), arena.nodes, r, ConstBv(width, MaskUnusedHighBits(bytes, width)))
      ensures r.Ok? ==> arena.nodes[r.value].kind == ConstBv(width, MaskUnusedHighBits(bytes, width))
      ensures r.Err? ==> arena.nodes == old(arena.nodes)
    {
      hide Eval, WellFormed, NormalForm, Extended, Denotes, Arena.Valid, Decoded, GetBit, MaskUnusedHighBits;
      if !ValidWidth(width) || |bytes| != BytesFor(width) { return Err(Invalid); }
      MaskNormalizes(bytes, width);
      r := AddNode(ConstBv(width, MaskUnusedHighBits(bytes, width)));
    }

    method MakeBoolConst(value: bool) returns (r: Result<TermId>)
      requires Ready()
      modifies arena
      ensures Ready() && Builds(old(arena.nodes), arena.nodes, r, ConstBool(value))
    {
      hide Eval, WellFormed, NormalForm, Builds, Arena.Valid;
      r := AddNode(ConstBool(value));
    }

    // ------------------------------------------------------------------ complement, negation

    method MakeUnary(op: UnaryOp, x: TermId) returns (r: Result<TermId>)
      requires Ready()
      modifies arena
      ensures Ready() && Builds(old(arena.nodes), arena.nodes, r, UnaryBv(op, x))
    {
      hide Eval, WellFormed, NormalForm, Builds, Arena.Valid, Decoded, Normalized, SortOf, Always, Denotes, UnaryValue;
      var k := UnaryBv(op, x);
      UnarySort(arena.nodes, op, x);
      if !IsBv(arena.nodes, |arena.nodes|, x) {
        BuildsRefused(arena.nodes, k);
        return Err(Invalid);
      }
      if IsConst(arena.nodes, x) {
        ghost var env: Env := Env(_ => false, _ => 0);
        ConstValue(arena.nodes, env, x);
        var width := arena.nodes[x].kind.width;
        var bytes := UnaryBytes(op, ConstBytesOf(arena.nodes, x), width);
        FoldedUnary(arena.nodes, op, x, bytes);
        r := Fold(k, bytes, width);
        return;
      }
      if arena.nodes[x].kind.UnaryBv? && arena.nodes[x].kind.uop == op {
        DoubleUnary(arena.nodes, op, x);
        BuildsExisting(arena.nodes, arena.nodes[x].kind.x, k);
        return Ok(arena.nodes[x].kind.x);
      }
      r := AddNode(k);
    }

    // ------------------------------------------------------------------------- bitwise

    method MakeAnd(x: TermId, y: TermId) returns (r: Result<TermId>)
      requires Ready()
      modifies arena
      ensures Ready() && Builds(old(arena.nodes), arena.nodes, r, BinaryBv(OpAnd, x, y))
    {
      hide Builds, Arena.Valid, WellFormed, NormalForm;
      var (a, b) := OrderPair(x, y);
      ghost var was := arena.nodes;
      r := AndOrdered(a, b);
      Ordered(was, arena.nodes, r, OpAnd, x, y);
    }

    method AndOrdered(a: TermId, b: TermId) returns (r: Result<TermId>)
      requires Ready()
      modifies arena
      ensures Ready() && Builds(old(arena.nodes), arena.nodes, r, BinaryBv(OpAnd, a, b))
    {
      hide Eval, WellFormed, NormalForm, Builds, Arena.Valid, Decoded, Normalized, SortOf, Always;
      hide Denotes, NeverShare, AllZero, ConstantBytes, BitwiseBytes, BvAnd;
      var k, nodes := BinaryBv(OpAnd, a, b), arena.nodes;
      BinarySort(nodes, OpAnd, a, b);
      if !SameBv(nodes, |nodes|, a, b) { BuildsRefused(nodes, k); return Err(Invalid); }
      var width := Width(nodes, a);
      WidthPositive(nodes, a);
      if a == b { SelfRule(nodes, OpAnd, a); BuildsExisting(nodes, a, k); return Ok(a); }
      if IsZero(nodes, a) || IsZero(nodes, b) {
        var z, other := if IsZero(nodes, a) then a else b, if IsZero(nodes, a) then b else a;
        ZeroRule(nodes, OpAnd, z, other);
        BuildsExisting(nodes, z, k);
        return Ok(z);
      }
      if IsAllOnes(nodes, a) || IsAllOnes(nodes, b) {
        var other, o := if IsAllOnes(nodes, a) then b else a, if IsAllOnes(nodes, a) then a else b;
        OnesRule(nodes, OpAnd, o, other);
        BuildsExisting(nodes, other, k);
        return Ok(other);
      }
      if IsConst(nodes, a) && IsConst(nodes, b) {
        r := FoldBinary(OpAnd, a, b);
        return;
      }
      if IsNegationPair(nodes, a, b) {
        ComplementRule(nodes, OpAnd, a, b);
        r := FoldConstant(k, false, width);
        return;
      }
      var disjoint := HaveDisjointPossibleBits(nodes, a, b, width);
      if disjoint {
        DisjointRule(nodes, a, b);
        r := FoldConstant(k, false, width);
        return;
      }
      if Contains(nodes, OpOr, a, b) { AbsorptionRule(nodes, OpAnd, a, b); BuildsExisting(nodes, b, k); return Ok(b); }
      if Contains(nodes, OpOr, b, a) { AbsorptionRule(nodes, OpAnd, b, a); BuildsExisting(nodes, a, k); return Ok(a); }
      r := AddNode(k);
    }

    /** Folds an operator on two constants. */
    method FoldBinary(op: BinaryOp, a: TermId, b: TermId) returns (r: Result<TermId>)
      requires Ready() && SameBv(arena.nodes, |arena.nodes|, a, b) && IsConst(arena.nodes, a) && IsConst(arena.nodes, b)
      modifies arena
      ensures Ready() && Builds(old(arena.nodes), arena.nodes, r, BinaryBv(op, a, b)) && r.Ok?
      ensures IsConst(arena.nodes, r.value)
    {
      hide Eval, WellFormed, NormalForm, Builds, Arena.Valid, Decoded, Normalized, SortOf, Always, BinaryValue;
      ghost var k, env: Env := BinaryBv(op, a, b), Env(_ => false, _ => 0);
      ConstValue(arena.nodes, env, a);
      ConstValue(arena.nodes, env, b);
      BinarySort(arena.nodes, op, a, b);
      var width := arena.nodes[a].kind.width;
      var bytes := BinaryBytes(op, ConstBytesOf(arena.nodes, a), ConstBytesOf(arena.nodes, b), width);
      FoldedBinary(arena.nodes, op, a, b, bytes);
      r := Fold(k, bytes, width);
    }

    method MakeXor(x: TermId, y: TermId) returns (r: Result<TermId>)
      requires Ready()
      modifies arena
      ensures Ready() && Builds(old(arena.nodes), arena.nodes, r, BinaryBv(OpXor, x, y))
    {
      hide Builds, Arena.Valid, WellFormed, NormalForm;
      var (a, b) := OrderPair(x, y);
      ghost var was := arena.nodes;
      r := XorOrdered(a, b);
      Ordered(was, arena.nodes, r, OpXor, x, y);
    }

    method XorOrdered(a: TermId, b: TermId) returns (r: Result<TermId>)
      requires Ready()
      modifies arena
      ensures Ready() && Builds(old(arena.nodes), arena.nodes, r, BinaryBv(OpXor, a, b))
    {
      hide Eval, WellFormed, NormalForm, Builds, Arena.Valid, Decoded, Normalized, SortOf, Always;
      hide Denotes, NeverShare, AllZero, Equivalent;
      var k, nodes := BinaryBv(OpXor, a, b), arena.nodes;
      BinarySort(nodes, OpXor, a, b);
      if !SameBv(nodes, |nodes|, a, b) { BuildsRefused(nodes, k); return Err(Invalid); }
      var width := Width(nodes, a);
      WidthPositive(nodes, a);
      if a == b {
        XorSelf(nodes, a);
        r := FoldConstant(k, false, width);
        return;
      }
      if IsZero(nodes, a) || IsZero(nodes, b) {
        var z, other := if IsZero(nodes, a) then a else b, if IsZero(nodes, a) then b else a;
        ZeroRule(nodes, OpXor, z, other);
        BuildsExisting(nodes, other, k);
        return Ok(other);
      }
      if IsConst(nodes, a) && IsConst(nodes, b) {
        r := FoldBinary(OpXor, a, b);
        return;
      }
      if IsNegationPair(nodes, a, b) {
        ComplementRule(nodes, OpXor, a, b);
        r := FoldConstant(k, true, width);
        return;
      }
      var disjoint := HaveDisjointPossibleBits(nodes, a, b, width);
      if disjoint {
        DisjointRule(nodes, a, b);
        r := MakeOr(a, b);
        BuildsEquivalent(nodes, arena.nodes, r, BinaryBv(OpOr, a, b), k);
        return;
      }
      r := AddNode(k);
    }

    /** `x | (x << x)` becomes a sum; the sum never comes back here. */
    method MakeOr(x: TermId, y: TermId) returns (r: Result<TermId>)
      requires Ready()
      modifies arena
      ensures Ready() && Builds(old(arena.nodes), arena.nodes, r, BinaryBv(OpOr, x, y))
      decreases if SelfShiftPair(arena.nodes, x, y) then 3 else 0, 1
    {
      hide Builds, Arena.Valid, WellFormed, NormalForm;
      var (a, b) := OrderPair(x, y);
      ghost var was := arena.nodes;
      r := OrOrdered(a, b);
      Ordered(was, arena.nodes, r, OpOr, x, y);
    }

    method OrOrdered(a: TermId, b: TermId) returns (r: Result<TermId>)
      requires Ready()
      modifies arena
      ensures Ready() && Builds(old(arena.nodes), arena.nodes, r, BinaryBv(OpOr, a, b))
      decreases if SelfShiftPair(arena.nodes, a, b) then 3 else 0, 0
    {
      hide Eval, WellFormed, NormalForm, Builds, Arena.Valid, Decoded, Normalized, SortOf, Always;
      hide Denotes, NeverShare, AllZero, Equivalent, ConstantBytes;
      var k, nodes := BinaryBv(OpOr, a, b), arena.nodes;
      BinarySort(nodes, OpOr, a, b);
      if !SameBv(nodes, |nodes|, a, b) { BuildsRefused(nodes, k); return Err(Invalid); }
      var width := Width(nodes, a);
      WidthPositive(nodes, a);
      if a == b { SelfRule(nodes, OpOr, a); BuildsExisting(nodes, a, k); return Ok(a); }
      if IsZero(nodes, a) || IsZero(nodes, b) {
        var z, other := if IsZero(nodes, a) then a else b, if IsZero(nodes, a) then b else a;
        ZeroRule(nodes, OpOr, z, other);
        BuildsExisting(nodes, other, k);
        return Ok(other);
      }
      if IsAllOnes(nodes, a) || IsAllOnes(nodes, b) {
        var other, o := if IsAllOnes(nodes, a) then b else a, if IsAllOnes(nodes, a) then a else b;
        OnesRule(nodes, OpOr, o, other);
        BuildsExisting(nodes, o, k);
        return Ok(o);
      }
      if IsConst(nodes, a) && IsConst(nodes, b) {
        r := FoldBinary(OpOr, a, b);
        return;
      }
      if IsNegationPair(nodes, a, b) {
        ComplementRule(nodes, OpOr, a, b);
        r := FoldConstant(k, true, width);
        return;
      }
      if Contains(nodes, OpAnd, a, b) { AbsorptionRule(nodes, OpOr, a, b); BuildsExisting(nodes, b, k); return Ok(b); }
      if Contains(nodes, OpAnd, b, a) { AbsorptionRule(nodes, OpOr, b, a); BuildsExisting(nodes, a, k); return Ok(a); }
      if SelfShiftPair(nodes, a, b) {
        SelfShiftRule(nodes, a, b);
        DisjointRule(nodes, a, b);
        r := MakeAdd(a, b);
        BuildsEquivalent(nodes, arena.nodes, r, BinaryBv(OpAdd, a, b), k);
        return;
      }
      r := AddNode(k);
    }

    // ---------------------------------------------------------------------- arithmetic

    method MakeAdd(x: TermId, y: TermId) returns (r: Result<TermId>)
      requires Ready()
      modifies arena
      ensures Ready() && Builds(old(arena.nodes), arena.nodes, r, BinaryBv(OpAdd, x, y))
      decreases if ShiftedSamePair(arena.nodes, x, y) || ShiftedSamePair(arena.nodes, y, x) then 2 else 1, 2
    {
      hide Builds, Arena.Valid, WellFormed, NormalForm;
      var (a, b) := OrderPair(x, y);
      ghost var was := arena.nodes;
      r := AddOrdered(a, b);
      Ordered(was, arena.nodes, r, OpAdd, x, y);
    }

    method AddOrdered(a: TermId, b: TermId) returns (r: Result<TermId>)
      requires Ready()
      modifies arena
      ensures Ready() && Builds(old(arena.nodes), arena.nodes, r, BinaryBv(OpAdd, a, b))
      decreases if ShiftedSamePair(arena.nodes, a, b) || ShiftedSamePair(arena.nodes, b, a) then 2 else 1, 1
    {
      hide Eval, WellFormed, NormalForm, Builds, Arena.Valid, Decoded, Normalized, SortOf, Always;
      hide Denotes, NeverShare, AllZero, Equivalent, Extended;
      var k, nodes := BinaryBv(OpAdd, a, b), arena.nodes;
      BinarySort(nodes, OpAdd, a, b);
      if !SameBv(nodes, |nodes|, a, b) { BuildsRefused(nodes, k); return Err(Invalid); }
      var width := Width(nodes, a);
      WidthPositive(nodes, a);
      if IsZero(nodes, a) || IsZero(nodes, b) {
        var z, other := if IsZero(nodes, a) then a else b, if IsZero(nodes, a) then b else a;
        ZeroRule(nodes, OpAdd, z, other);
        BuildsExisting(nodes, other, k);
        return Ok(other);
      }
      if IsConst(nodes, a) && IsConst(nodes, b) {
        r := FoldBinary(OpAdd, a, b);
        return;
      }
      var disjoint := HaveDisjointPossibleBits(nodes, a, b, width);
      if disjoint {
        DisjointRule(nodes, a, b);
        NeverSelfShift(nodes, a, b);
        r := MakeOr(a, b);
        BuildsEquivalent(nodes, arena.nodes, r, BinaryBv(OpOr, a, b), k);
        return;
      }
      var canonical := CanonicalAdd(a, b, width);
      if canonical.Some? {
        r := Ok(canonical.value);
        CanonicalBuilds(nodes, arena.nodes, canonical.value, k);
        return;
      }
      if ShiftedSamePair(nodes, b, a) {
        r := AddShiftedSame(nodes, a, b, nodes[a].kind.b, width);
        Commutes(nodes, OpAdd, b, a);
        BuildsEquivalent(nodes, arena.nodes, r, BinaryBv(OpAdd, b, a), k);
        return;
      }
      if ShiftedSamePair(nodes, a, b) {
        r := AddShiftedSame(nodes, b, a, nodes[b].kind.b, width);
        return;
      }
      r := AddChainNode(nodes, OpAdd, a, b);
    }

    /** x + (x << k) is rebuilt as x * (1 + (1 << k)); `value` is x and `shifted` the other operand. */
    method AddShiftedSame(ghost first: seq<Node>, ghost shiftedTerm: TermId, value: TermId, amount: TermId, width: nat)
      returns (r: Result<TermId>)
      requires Ready() && Extended(first, arena.nodes) && ValidWidth(width) && IsBv(first, |first|, value)
      requires Width(first, value) == width
      requires shiftedTerm < |first| && first[shiftedTerm].kind == BinaryBv(OpShl, value, amount)
      modifies arena
      ensures Ready() && Builds(first, arena.nodes, r, BinaryBv(OpAdd, value, shiftedTerm))
      decreases 2, 0
    {
      hide Eval, WellFormed, NormalForm, Builds, Arena.Valid, Decoded, Normalized, SortOf, Always;
      hide Denotes, Extended, OneBytes, AllZero, Val, FromInt;
      ghost var n0 := arena.nodes;
      ExtendedPrefix(first, n0);
      OperandsBelow(first, shiftedTerm);
      SameLater(first, n0, value, amount);
      OneBytesValue(width);
      var k := ConstBv(width, OneBytes(width));
      ConstSort(n0, OneBytes(width), width);
      var added := AddNode(k);
      var one := added.value;
      ghost var n1 := arena.nodes;
      VectorOk(n0, n1, added, k, width);
      SameLater(n0, n1, value, amount);
      var shifted := MakeShl(one, amount);
      ghost var n2 := arena.nodes;
      BinaryOk(n1, n2, shifted, OpShl, one, amount);
      ExtendedPrefix(n1, n2);
      SameLater(n1, n2, value, one);
      var factor := MakeAdd(one, shifted.value);
      ghost var n3 := arena.nodes;
      BinaryOk(n2, n3, factor, OpAdd, one, shifted.value);
      SameLater(n2, n3, value, one);
      r := MakeMul(value, factor.value);
      BinaryOk(n3, arena.nodes, r, OpMul, value, factor.value);
      ShiftedSameSteps(first, n0, n1, n2, n3, arena.nodes, shiftedTerm, value, amount, width, one, shifted.value,
                       factor.value, r.value);
    }

    /** `bv_add_node` and `bv_mul_node`: the raw node, operands in order. */
    method AddChainNode(ghost first: seq<Node>, op: BinaryOp, a: TermId, b: TermId) returns (r: Result<TermId>)
      requires Ready() && Extended(first, arena.nodes) && SameBv(first, |first|, a, b) && (op.OpAdd? || op.OpMul?)
      modifies arena
      ensures Ready() && Builds(first, arena.nodes, r, BinaryBv(op, a, b)) && r.Ok?
    {
      hide Eval, WellFormed, NormalForm, Builds, Arena.Valid, SortOf, Denotes, Extended;
      var (x, y) := OrderPair(a, b);
      ghost var was := arena.nodes;
      SameLater(first, was, a, b);
      BinarySort(was, op, x, y);
      BinarySort(first, op, a, b);
      r := AddNode(BinaryBv(op, x, y));
      Ordered(was, arena.nodes, r, op, a, b);
      BuildsRebased(first, was, arena.nodes, r, BinaryBv(op, a, b));
    }

    // ------------------------------------------------------------- flattened sums, products

    /** Joins terms, in increasing order, into a chain of raw nodes. */
    method RebuildChain(op: BinaryOp, terms: seq<TermId>, width: nat) returns (r: TermId)
      requires Ready() && (op.OpAdd? || op.OpMul?) && ValidWidth(width) && AllBv(arena.nodes, terms, width)
      modifies arena
      ensures Ready() && Extended(old(arena.nodes), arena.nodes) && IsBv(arena.nodes, |arena.nodes|, r)
      ensures Width(arena.nodes, r) == width
      ensures forall env: Env {:trigger Eval(arena.nodes, env)} ::
                BvAt(Eval(arena.nodes, env), r) == FromInt(TotalOf(op, Eval(old(arena.nodes), env), terms), width)
    {
      hide Eval, WellFormed, NormalForm, Builds, Arena.Valid, SortOf, Denotes, Extended, Normalized;
      hide AllZero, OneBytes, FromInt, TotalOf, ConstantBytes, SumOf, ProductOf;
      ghost var was := arena.nodes;
      if terms == [] {
        r := ConstantTotal(op, width);
        return;
      }
      var sorted := SortIds(terms);
      SortedShape(was, terms, width);
      r := sorted[0];
      PrefixIsExtended(was, was);
      ChainStart(was, op, sorted, width);
      for i := 1 to |sorted|
        invariant Ready() && Extended(was, arena.nodes) && IsBv(arena.nodes, |arena.nodes|, r)
        invariant Width(arena.nodes, r) == width
        invariant forall env: Env {:trigger Eval(arena.nodes, env)} ::
                    BvAt(Eval(arena.nodes, env), r) == FromInt(TotalOf(op, Eval(was, env), sorted[..i]), width)
      {
        ghost var mid, cur := arena.nodes, r;
        ExtendedPrefix(was, mid);
        PrefixIsExtended(mid, mid);
        var next := AddChainNode(mid, op, r, sorted[i]);
        BinaryOk(mid, arena.nodes, next, op, r, sorted[i]);
        ChainStep(was, mid, arena.nodes, op, sorted, i, width, cur, next.value);
        ExtendedAgain(was, mid, arena.nodes);
        r := next.value;
      }
      ChainEnd(was, arena.nodes, op, terms, width, r);
    }

    /** The empty sum is zero, the empty product one. */
    method ConstantTotal(op: BinaryOp, width: nat) returns (r: TermId)
      requires Ready() && (op.OpAdd? || op.OpMul?) && ValidWidth(width)
      modifies arena
      ensures Ready() && Extended(old(arena.nodes), arena.nodes) && IsBv(arena.nodes, |arena.nodes|, r)
      ensures Width(arena.nodes, r) == width
      ensures forall env: Env {:trigger Eval(arena.nodes, env)} ::
                BvAt(Eval(arena.nodes, env), r) == FromInt(TotalOf(op, Eval(old(arena.nodes), env), []), width)
    {
      hide Eval, WellFormed, NormalForm, Builds, Arena.Valid, SortOf, Denotes, Extended, Normalized;
      hide Decoded, OneBytes, FromInt, ConstantBytes, AllZero;
      ghost var was := arena.nodes;
      OneBytesValue(width);
      ConstantBits(width, false);
      ValZeros(width);
      var bytes := if op.OpAdd? then ConstantBytes(width, false) else OneBytes(width);
      r := AddConst(bytes, width);
    }

    method AddConst(bytes: seq<Byte>, width: nat) returns (r: TermId)
      requires Ready() && ValidWidth(width) && Normalized(bytes, width)
      modifies arena
      ensures Ready() && Extended(old(arena.nodes), arena.nodes) && IsBv(arena.nodes, |arena.nodes|, r)
      ensures Width(arena.nodes, r) == width
      ensures IsConst(arena.nodes, r) && ConstBytesOf(arena.nodes, r) == bytes
      ensures forall env: Env {:trigger Eval(arena.nodes, env)} ::
                BvAt(Eval(arena.nodes, env), r) == Decoded(bytes, width)
    {
      hide Eval, WellFormed, NormalForm, Builds, Arena.Valid, SortOf, Denotes, Extended, Normalized, Decoded;
      ghost var was, k := arena.nodes, ConstBv(width, bytes);
      ConstSort(was, bytes, width);
      var added := AddNode(ConstBv(width, bytes));
      r := added.value;
      VectorOk(was, arena.nodes, added, k, width);
      forall env: Env ensures BvAt(Eval(arena.nodes, env), r) == Decoded(bytes, width) {
        ConstValue(arena.nodes, env, r);
      }
    }

    /** Emits `coefficient * base`: nothing for zero, the base itself for one. */
    method EmitScaled(base: TermId, coefficient: seq<Byte>, width: nat) returns (terms: seq<TermId>)
      requires Ready() && ValidWidth(width) && Normalized(coefficient, width) && IsBv(arena.nodes, |arena.nodes|, base)
      requires Width(arena.nodes, base) == width
      modifies arena
      ensures Ready() && Extended(old(arena.nodes), arena.nodes) && AllBv(arena.nodes, terms, width)
      ensures forall env: Env {:trigger Eval(arena.nodes, env)} ::
                Same(SumOf(Eval(arena.nodes, env), terms),
                     BytesVal(coefficient) * Val(BvAt(Eval(arena.nodes, env), base)), width)
    {
      hide Eval, WellFormed, NormalForm, Builds, Arena.Valid, SortOf, Denotes, Extended, Normalized;
      hide Decoded, AllZero, Same, Val, BytesVal, SumOf, FromInt, IsOneBytes;
      PrefixIsExtended(arena.nodes, arena.nodes);
      forall env: Env
        ensures SumOf(Eval(arena.nodes, env), []) == 0
        ensures SumOf(Eval(arena.nodes, env), [base]) == Val(BvAt(Eval(arena.nodes, env), base))
      {
        SingleSum(Eval(arena.nodes, env), base);
      }
      if AllZero(coefficient) {
        ZeroCoefficient(coefficient);
        SameRefl(width);
        return [];
      }
      if IsOneBytes(coefficient) {
        OneBytesVal(coefficient);
        SameRefl(width);
        return [base];
      }
      ghost var n0 := arena.nodes;
      var c := AddConst(coefficient, width);
      ghost var n1 := arena.nodes;
      SameLater(n0, n1, base, base);
      var product := MakeMul(base, c);
      BinaryOk(n1, arena.nodes, product, OpMul, base, c);
      terms := [product.value];
      ExtendedAgain(n0, n1, arena.nodes);
      EmittedProduct(n0, n1, arena.nodes, base, coefficient, c, product.value, width);
    }

    /** Sums coefficients of equal bases, in the order of the sorted terms. */
    method GroupTerms(scaled: seq<Scaled>, width: nat) returns (grouped: seq<TermId>, merged: bool)
      requires Ready() && ValidWidth(width) && ScaledOk(arena.nodes, scaled, width)
      modifies arena
      ensures Ready() && Extended(old(arena.nodes), arena.nodes) && AllBv(arena.nodes, grouped, width)
      ensures forall env: Env {:trigger Eval(arena.nodes, env)} ::
                Same(SumOf(Eval(arena.nodes, env), grouped), ScaledSum(Eval(old(arena.nodes), env), scaled), width)
    {
      hide Eval, WellFormed, NormalForm, Builds, Arena.Valid, SortOf, Extended, Normalized, Decoded;
      hide Same, Val, BytesVal, SumOf, ScaledSum, FromInt;
      ghost var was := arena.nodes;
      PrefixIsExtended(was, was);
      grouped, merged := [], false;
      var index := 0;
      forall env: Env
        ensures Same(SumOf(Eval(was, env), []) + ScaledSum(Eval(was, env), scaled[0..]),
                     ScaledSum(Eval(was, env), scaled), width)
      {
        EmptyTotal(Eval(was, env));
        assert scaled[0..] == scaled;
        SameRefl(width);
      }
      while index < |scaled|
        invariant Ready() && 0 <= index <= |scaled| && Extended(was, arena.nodes) && AllBv(arena.nodes, grouped, width)
        invariant forall env: Env {:trigger Eval(arena.nodes, env)} ::
                    Same(SumOf(Eval(arena.nodes, env), grouped) + ScaledSum(Eval(was, env), scaled[index..]),
                         ScaledSum(Eval(was, env), scaled), width)
        decreases |scaled| - index
      {
        ghost var mid, done, from := arena.nodes, grouped, index;
        var base := scaled[index].base;
        var coefficient, count := GroupOne(was, scaled, index, width);
        merged := merged || count > 1;
        SameLater(was, mid, base, base);
        var terms := EmitScaled(base, coefficient, width);
        GroupStep(was, mid, arena.nodes, scaled, from, from + count, done, terms, base, coefficient, width);
        ExtendedAgain(was, mid, arena.nodes);
        grouped := grouped + terms;
        index := index + count;
      }
      forall env: Env ensures Same(SumOf(Eval(arena.nodes, env), grouped), ScaledSum(Eval(was, env), scaled), width) {
        EmptyTotal(Eval(was, env));
        assert scaled[index..] == [];
      }
    }

    /** Adds the folded constant to the chain, unless it is neutral. */
    method AppendConstant(op: BinaryOp, terms: seq<TermId>, constant: seq<Byte>, width: nat) returns (all: seq<TermId>)
      requires Ready() && (op.OpAdd? || op.OpMul?) && ValidWidth(width) && Normalized(constant, width)
      requires AllBv(arena.nodes, terms, width)
      modifies arena
      ensures Ready() && Extended(old(arena.nodes), arena.nodes) && AllBv(arena.nodes, all, width)
      ensures forall env: Env {:trigger Eval(arena.nodes, env)} ::
                TotalOf(op, Eval(arena.nodes, env), all) ==
                  Combined(op, BytesVal(constant), TotalOf(op, Eval(old(arena.nodes), env), terms))
    {
      hide Eval, WellFormed, NormalForm, Arena.Valid, SortOf, Extended, Normalized, Decoded, Val;
      hide BytesVal, AllZero, IsOneBytes, TotalOf, AllBv, Combined;
      ghost var was := arena.nodes;
      PrefixIsExtended(was, was);
      if if op.OpAdd? then AllZero(constant) else IsOneBytes(constant) {
        NeutralConstant(op, constant);
        return terms;
      }
      var c := AddConst(constant, width);
      ConstantAppended(was, arena.nodes, op, terms, constant, c, width);
      all := terms + [c];
    }

    /** Flattens, folds the constants, groups equal terms and rebuilds; None when nothing changed. */
    method CanonicalAdd(a: TermId, b: TermId, width: nat) returns (r: Option<TermId>)
      requires Ready() && SameBv(arena.nodes, |arena.nodes|, a, b) && Width(arena.nodes, a) == width
      requires ValidWidth(width)
      modifies arena
      ensures Ready() && Extended(old(arena.nodes), arena.nodes)
      ensures r.Some? ==> Denotes(old(arena.nodes), arena.nodes, r.value, BinaryBv(OpAdd, a, b))
    {
      hide Eval, WellFormed, NormalForm, Arena.Valid, SortOf, Extended, Normalized, Decoded, Same;
      hide Val, BytesVal, SumOf, ScaledSum, FromInt, Flattened, Denotes, TotalOf, SortScaled, AllBv;
      hide ScaledOk, Combined;
      var was := arena.nodes;
      var terms := Flattened(was, OpAdd, a) + Flattened(was, OpAdd, b);
      FlattenedPair(was, OpAdd, a, b);
      var constant, nonConst := SplitConstants(was, terms, width);
      var scaled := ScaleTerms(was, nonConst, width);
      SortScaledShape(was, scaled, width);
      var grouped, merged := GroupTerms(SortScaled(scaled), width);
      ghost var mid := arena.nodes;
      var all := AppendConstant(OpAdd, grouped, constant, width);
      ghost var late := arena.nodes;
      ExtendedAgain(was, mid, late);
      if |terms| <= 2 && !merged { return None; }
      var sum := RebuildChain(OpAdd, all, width);
      ExtendedAgain(mid, late, arena.nodes);
      ExtendedAgain(was, late, arena.nodes);
      CanonicalSum(was, mid, late, arena.nodes, a, b, terms, constant, nonConst, scaled, grouped, all, sum, width);
      r := Some(sum);
    }

    /** Flattens, multiplies the constants and rebuilds; None when there are only two factors. */
    method CanonicalMul(a: TermId, b: TermId, width: nat) returns (r: Option<TermId>)
      requires Ready() && SameBv(arena.nodes, |arena.nodes|, a, b) && Width(arena.nodes, a) == width
      requires ValidWidth(width)
      modifies arena
      ensures Ready() && Extended(old(arena.nodes), arena.nodes)
      ensures r.Some? ==> Denotes(old(arena.nodes), arena.nodes, r.value, BinaryBv(OpMul, a, b))
    {
      hide Eval, WellFormed, NormalForm, Arena.Valid, SortOf, Extended, Normalized, Decoded, Same;
      hide Val, BytesVal, ProductOf, FromInt, Flattened, Denotes, TotalOf, AllBv, Always, Combined;
      hide Builds;
      var was := arena.nodes;
      PrefixIsExtended(was, was);
      var terms := Flattened(was, OpMul, a) + Flattened(was, OpMul, b);
      if |terms| <= 2 { return None; }
      FlattenedPair(was, OpMul, a, b);
      var zero, constant, factors := SplitFactors(was, terms, width);
      if zero {
        ZeroProduct(was, a, b, terms, width);
        BinarySort(was, OpMul, a, b);
        var result := FoldConstant(BinaryBv(OpMul, a, b), false, width);
        BuildsParts(was, arena.nodes, result, BinaryBv(OpMul, a, b));
        return Some(result.value);
      }
      var all := AppendConstant(OpMul, factors, constant, width);
      ghost var late := arena.nodes;
      var product := RebuildChain(OpMul, all, width);
      ExtendedAgain(was, late, arena.nodes);
      CanonicalProduct(was, late, arena.nodes, a, b, terms, constant, factors, all, product, width);
      r := Some(product);
    }

    method MakeMul(x: TermId, y: TermId) returns (r: Result<TermId>)
      requires Ready()
      modifies arena
      ensures Ready() && Builds(old(arena.nodes), arena.nodes, r, BinaryBv(OpMul, x, y))
      decreases x + y, 1
    {
      hide Builds, Arena.Valid, WellFormed, NormalForm;
      var (a, b) := OrderPair(x, y);
      ghost var was := arena.nodes;
      r := MulOrdered(a, b);
      Ordered(was, arena.nodes, r, OpMul, x, y);
    }

    method MulOrdered(a: TermId, b: TermId) returns (r: Result<TermId>)
      requires Ready()
      modifies arena
      ensures Ready() && Builds(old(arena.nodes), arena.nodes, r, BinaryBv(OpMul, a, b))
      decreases a + b, 0
    {
      hide Eval, WellFormed, NormalForm, Builds, Arena.Valid, Decoded, Normalized, SortOf, Always;
      hide Denotes, AllZero, Equivalent, Extended, IsOneBytes, ConstantBytes;
      var k, nodes := BinaryBv(OpMul, a, b), arena.nodes;
      BinarySort(nodes, OpMul, a, b);
      if !SameBv(nodes, |nodes|, a, b) { BuildsRefused(nodes, k); return Err(Invalid); }
      var width := Width(nodes, a);
      WidthPositive(nodes, a);
      if IsZero(nodes, a) || IsZero(nodes, b) {
        ZeroRule(nodes, OpMul, if IsZero(nodes, a) then a else b, if IsZero(nodes, a) then b else a);
        r := FoldConstant(k, false, width);
        return;
      }
      if IsOne(nodes, a) || IsOne(nodes, b) {
        var o, other := if IsOne(nodes, a) then a else b, if IsOne(nodes, a) then b else a;
        MulOne(nodes, o, other);
        BuildsExisting(nodes, other, k);
        return Ok(other);
      }
      if IsAllOnes(nodes, a) || IsAllOnes(nodes, b) {
        var o, other := if IsAllOnes(nodes, a) then a else b, if IsAllOnes(nodes, a) then b else a;
        OnesRule(nodes, OpMul, o, other);
        r := MakeUnary(OpNeg, other);
        BuildsEquivalent(nodes, arena.nodes, r, UnaryBv(OpNeg, other), k);
        return;
      }
      if IsNeg(nodes, a) { r := MulNegated(a, b, true); return; }
      if IsNeg(nodes, b) { r := MulNegated(a, b, false); return; }
      if IsConst(nodes, a) && IsConst(nodes, b) {
        r := FoldBinary(OpMul, a, b);
        return;
      }
      if IsBinary(nodes, a, OpShl) { r := MulShifted(a, b, true); return; }
      if IsBinary(nodes, b, OpShl) { r := MulShifted(a, b, false); return; }
      var canonical := CanonicalMul(a, b, width);
      if canonical.Some? {
        r := Ok(canonical.value);
        CanonicalBuilds(nodes, arena.nodes, canonical.value, k);
        return;
      }
      r := AddChainNode(nodes, OpMul, a, b);
    }

    /** The product of a negated operand: negate the product. */
    method MulNegated(a: TermId, b: TermId, left: bool) returns (r: Result<TermId>)
      requires Ready() && SameBv(arena.nodes, |arena.nodes|, a, b) && IsNeg(arena.nodes, if left then a else b)
      modifies arena
      ensures Ready() && Builds(old(arena.nodes), arena.nodes, r, BinaryBv(OpMul, a, b))
      decreases a + b, 0, 0
    {
      hide Eval, WellFormed, NormalForm, Builds, Arena.Valid, SortOf, BvMul, BvNeg;
      ghost var n0 := arena.nodes;
      var inner := arena.nodes[if left then a else b].kind.x;
      MulNegRule(n0, a, b, left);
      NegBelow(n0, if left then a else b);
      var x, y := if left then inner else a, if left then b else inner;
      var product := MakeMul(x, y);
      ghost var n1 := arena.nodes;
      BinaryOk(n0, n1, product, OpMul, x, y);
      r := MakeUnary(OpNeg, product.value);
      BinarySort(n0, OpMul, a, b);
      BinarySort(n0, OpMul, x, y);
      ThenUnary(n0, n1, arena.nodes, OpMul, x, y, product.value, OpNeg, r, BinaryBv(OpMul, a, b));
    }

    /** The product of a shifted operand: shift the product. */
    method MulShifted(a: TermId, b: TermId, left: bool) returns (r: Result<TermId>)
      requires Ready() && SameBv(arena.nodes, |arena.nodes|, a, b)
      requires IsBinary(arena.nodes, if left then a else b, OpShl)
      modifies arena
      ensures Ready() && Builds(old(arena.nodes), arena.nodes, r, BinaryBv(OpMul, a, b))
      decreases a + b, 0, 0
    {
      hide Eval, WellFormed, NormalForm, Builds, Arena.Valid, SortOf, BvMul, BvShl;
      ghost var n0 := arena.nodes;
      var k := arena.nodes[if left then a else b].kind;
      MulShlRule(n0, a, b, left);
      OperandsBelow(n0, if left then a else b);
      var x, y := if left then k.a else a, if left then b else k.a;
      var product := MakeMul(x, y);
      ghost var n1 := arena.nodes;
      BinaryOk(n0, n1, product, OpMul, x, y);
      SameLater(n0, n1, x, k.b);
      r := MakeShl(product.value, k.b);
      BinarySort(n0, OpMul, a, b);
      BinarySort(n0, OpMul, x, y);
      ThenBinary(n0, n1, arena.nodes, OpMul, x, y, product.value, OpShl, k.b, r, BinaryBv(OpMul, a, b));
    }

    method MakeSub(a: TermId, b: TermId) returns (r: Result<TermId>)
      requires Ready()
      modifies arena
      ensures Ready() && Builds(old(arena.nodes), arena.nodes, r, BinaryBv(OpSub, a, b))
    {
      hide Eval, WellFormed, NormalForm, Builds, Arena.Valid, Decoded, Normalized, SortOf, Always, Denotes, AllZero;
      var k, nodes := BinaryBv(OpSub, a, b), arena.nodes;
      BinarySort(nodes, OpSub, a, b);
      if !SameBv(nodes, |nodes|, a, b) { BuildsRefused(nodes, k); return Err(Invalid); }
      var width := Width(nodes, a);
      WidthPositive(nodes, a);
      if a == b || (IsZero(nodes, a) && IsZero(nodes, b)) {
        XorSelf(nodes, a);
        if a != b { SubZero(nodes, a, b); }
        r := FoldConstant(k, false, width);
        return;
      }
      if IsZero(nodes, b) { SubZero(nodes, a, b); BuildsExisting(nodes, a, k); return Ok(a); }
      if IsConst(nodes, a) && IsConst(nodes, b) {
        r := FoldBinary(OpSub, a, b);
        return;
      }
      r := AddNode(k);
    }

    method MakeUDiv(a: TermId, b: TermId) returns (r: Result<TermId>)
      requires Ready()
      modifies arena
      ensures Ready() && Builds(old(arena.nodes), arena.nodes, r, BinaryBv(OpUDiv, a, b))
    {
      hide Eval, WellFormed, NormalForm, Builds, Arena.Valid, SortOf, Always, Denotes, AllZero, IsOneBytes;
      var k, nodes := BinaryBv(OpUDiv, a, b), arena.nodes;
      BinarySort(nodes, OpUDiv, a, b);
      if !SameBv(nodes, |nodes|, a, b) { BuildsRefused(nodes, k); return Err(Invalid); }
      WidthPositive(nodes, a);
      DivisionRule(nodes, a, b);
      if IsZero(nodes, b) { r := FoldConstant(k, true, Width(nodes, a)); return; }
      if IsOne(nodes, b) { BuildsExisting(nodes, a, k); return Ok(a); }
      if IsZero(nodes, a) && IsConst(nodes, b) { r := FoldConstant(k, false, Width(nodes, a)); return; }
      r := AddNode(k);
    }

    method MakeURem(a: TermId, b: TermId) returns (r: Result<TermId>)
      requires Ready()
      modifies arena
      ensures Ready() && Builds(old(arena.nodes), arena.nodes, r, BinaryBv(OpURem, a, b))
    {
      hide Eval, WellFormed, NormalForm, Builds, Arena.Valid, SortOf, Always, Denotes, AllZero, IsOneBytes;
      var k, nodes := BinaryBv(OpURem, a, b), arena.nodes;
      BinarySort(nodes, OpURem, a, b);
      if !SameBv(nodes, |nodes|, a, b) { BuildsRefused(nodes, k); return Err(Invalid); }
      WidthPositive(nodes, a);
      DivisionRule(nodes, a, b);
      if IsZero(nodes, a) || IsOne(nodes, b) { r := FoldConstant(k, false, Width(nodes, a)); return; }
      if IsZero(nodes, b) { BuildsExisting(nodes, a, k); return Ok(a); }
      r := AddNode(k);
    }

    // -------------------------------------------------------------------------- shifts

    method MakeShl(a: TermId, b: TermId) returns (r: Result<TermId>)
      requires Ready()
      modifies arena
      ensures Ready() && Builds(old(arena.nodes), arena.nodes, r, BinaryBv(OpShl, a, b))
      decreases a
    {
      hide Eval, WellFormed, NormalForm, Builds, Arena.Valid, Decoded, Normalized, SortOf, Always;
      hide Denotes, AllZero, BvShl, BvNeg, AmountIs;
      var k, nodes := BinaryBv(OpShl, a, b), arena.nodes;
      BinarySort(nodes, OpShl, a, b);
      if !SameBv(nodes, |nodes|, a, b) { BuildsRefused(nodes, k); return Err(Invalid); }
      var width := Width(nodes, a);
      WidthPositive(nodes, a);
      if IsZero(nodes, a) { ShiftOfZero(nodes, OpShl, a, b); r := FoldConstant(k, false, width); return; }
      var amount := ConstShiftAmount(nodes, b, width);
      if amount.Some? {
        assert AmountIs(nodes, b, width, amount.value) by { AmountFact(nodes, b, width, amount.value); }
        ShiftByConst(nodes, OpShl, a, b, amount.value);
        if amount.value == 0 { BuildsExisting(nodes, a, k); return Ok(a); }
        if amount.value >= width { r := FoldConstant(k, false, width); return; }
        if IsConst(nodes, a) { r := FoldShift(OpShl, a, b, amount.value, width); return; }
      }
      if IsNeg(nodes, a) {
        var inner := nodes[a].kind.x;
        ShlNegRule(nodes, a, b);
        NegBelow(nodes, a);
        var shifted := MakeShl(inner, b);
        ghost var n1 := arena.nodes;
        BinaryOk(nodes, n1, shifted, OpShl, inner, b);
        r := MakeUnary(OpNeg, shifted.value);
        BinarySort(nodes, OpShl, inner, b);
        ThenUnary(nodes, n1, arena.nodes, OpShl, inner, b, shifted.value, OpNeg, r, k);
        return;
      }
      r := AddNode(k);
    }

    /** Folds the shift of a constant by a constant. */
    method FoldShift(op: BinaryOp, a: TermId, b: TermId, amount: nat, width: nat) returns (r: Result<TermId>)
      requires Ready() && IsShift(op) && SameBv(arena.nodes, |arena.nodes|, a, b) && IsConst(arena.nodes, a)
      requires Width(arena.nodes, a) == width
      requires AmountIs(arena.nodes, b, width, amount)
      modifies arena
      ensures Ready() && Builds(old(arena.nodes), arena.nodes, r, BinaryBv(op, a, b)) && r.Ok?
      ensures IsConst(arena.nodes, r.value)
    {
      hide Eval, WellFormed, NormalForm, Builds, Arena.Valid, Decoded, Normalized, SortOf, Always;
      hide AmountIs, Shifted, ShiftedRight, Msb;
      ghost var k, env: Env := BinaryBv(op, a, b), Env(_ => false, _ => 0);
      ConstValue(arena.nodes, env, a);
      BinarySort(arena.nodes, op, a, b);
      var bytes;
      match op {
        case OpShl => bytes := ShlBytes(ConstBytesOf(arena.nodes, a), width, amount);
        case OpLShr => bytes := LShrBytes(ConstBytesOf(arena.nodes, a), width, amount);
        case OpAShr => bytes := AShrBytes(ConstBytesOf(arena.nodes, a), width, amount);
      }
      FoldedShift(arena.nodes, op, a, b, amount, bytes);
      r := Fold(k, bytes, width);
    }

    /** Nested right shifts are kept in the order of their amounts. */
    method MakeLShr(a: TermId, b: TermId) returns (r: Result<TermId>)
      requires Ready()
      modifies arena
      ensures Ready() && Builds(old(arena.nodes), arena.nodes, r, BinaryBv(OpLShr, a, b))
      ensures r.Ok? ==>
                LShrAmount(arena.nodes, r.value) <=
                  if b < LShrAmount(old(arena.nodes), a) then LShrAmount(old(arena.nodes), a) else b
      decreases if LShrAmount(arena.nodes, a) > b then 1 else 0, a
    {
      hide Eval, WellFormed, NormalForm, Builds, Arena.Valid, Decoded, Normalized, SortOf, Always;
      hide Denotes, AllZero, BvLShr, AmountIs;
      var k, nodes := BinaryBv(OpLShr, a, b), arena.nodes;
      BinarySort(nodes, OpLShr, a, b);
      if !SameBv(nodes, |nodes|, a, b) { BuildsRefused(nodes, k); return Err(Invalid); }
      var width := Width(nodes, a);
      WidthPositive(nodes, a);
      if a == b || IsZero(nodes, a) {
        XorSelf(nodes, a);
        if a != b { ShiftOfZero(nodes, OpLShr, a, b); }
        r := FoldConstant(k, false, width);
        return;
      }
      var amount := ConstShiftAmount(nodes, b, width);
      if amount.Some? {
        assert AmountIs(nodes, b, width, amount.value) by { AmountFact(nodes, b, width, amount.value); }
        ShiftByConst(nodes, OpLShr, a, b, amount.value);
        if amount.value == 0 { BuildsExisting(nodes, a, k); return Ok(a); }
        if amount.value >= width { r := FoldConstant(k, false, width); return; }
        if IsConst(nodes, a) { r := FoldShift(OpLShr, a, b, amount.value, width); return; }
      }
      if IsBinary(nodes, a, OpLShr) && b < nodes[a].kind.b {
        var inner, innerAmount := nodes[a].kind.a, nodes[a].kind.b;
        LShrSwapRule(nodes, a, b);
        OperandsBelow(nodes, a);
        NormalAt(nodes, a);
        var shifted := MakeLShr(inner, b);
        ghost var n1 := arena.nodes;
        BinaryOk(nodes, n1, shifted, OpLShr, inner, b);
        SameLater(nodes, n1, inner, innerAmount);
        r := MakeLShr(shifted.value, innerAmount);
        BinarySort(nodes, OpLShr, inner, b);
        ThenBinary(nodes, n1, arena.nodes, OpLShr, inner, b, shifted.value, OpLShr, innerAmount, r, k);
        return;
      }
      r := AddNode(k);
    }

    method MakeAShr(a: TermId, b: TermId) returns (r: Result<TermId>)
      requires Ready()
      modifies arena
      ensures Ready() && Builds(old(arena.nodes), arena.nodes, r, BinaryBv(OpAShr, a, b))
    {
      hide Eval, WellFormed, NormalForm, Builds, Arena.Valid, Decoded, Normalized, SortOf, Always, Denotes, AmountIs;
      var k, nodes := BinaryBv(OpAShr, a, b), arena.nodes;
      BinarySort(nodes, OpAShr, a, b);
      if !SameBv(nodes, |nodes|, a, b) { BuildsRefused(nodes, k); return Err(Invalid); }
      var width := Width(nodes, a);
      WidthPositive(nodes, a);
      var amount := ConstShiftAmount(nodes, b, width);
      if amount.Some? {
        assert AmountIs(nodes, b, width, amount.value) by { AmountFact(nodes, b, width, amount.value); }
        ShiftByConst(nodes, OpAShr, a, b, amount.value);
        if amount.value == 0 { BuildsExisting(nodes, a, k); return Ok(a); }
        if IsConst(nodes, a) { r := FoldShift(OpAShr, a, b, amount.value, width); return; }
      }
      r := AddNode(k);
    }

    // ------------------------------------------------------------------ slices and joins

    /** Slices are pushed through slices and joins, so only other terms are ever sliced. */
    method MakeExtract(child: TermId, high: nat, low: nat) returns (r: Result<TermId>)
      requires Ready()
      modifies arena
      ensures Ready() && Builds(old(arena.nodes), arena.nodes, r, ExtractBv(child, high, low))
      decreases ExtractRank(arena.nodes, child), 1
    {
      hide Eval, WellFormed, NormalForm, Builds, Arena.Valid, SortOf, Always, Denotes, Equivalent, Normalized;
      var k, nodes := ExtractBv(child, high, low), arena.nodes;
      ExtractSort(nodes, child, high, low);
      if !(IsBv(nodes, |nodes|, child) && low <= high < Width(nodes, child)) {
        BuildsRefused(nodes, k);
        return Err(Invalid);
      }
      if low == 0 && high + 1 == Width(nodes, child) {
        TrivialWiring(nodes, k);
        BuildsExisting(nodes, child, k);
        return Ok(child);
      }
      if IsConst(nodes, child) { r := FoldWiring(k); return; }
      if nodes[child].kind.ExtractBv? {
        var inner, innerLow := nodes[child].kind.child, nodes[child].kind.low;
        ExtractExtractRule(nodes, child, high, low);
        NormalAt(nodes, child);
        r := MakeExtract(inner, innerLow + high, innerLow + low);
        BuildsEquivalent(nodes, arena.nodes, r, ExtractBv(inner, innerLow + high, innerLow + low), k);
        return;
      }
      if nodes[child].kind.ConcatBv? {
        r := ExtractOfJoin(child, high, low);
        return;
      }
      r := AddNode(k);
    }

    method ExtractOfJoin(child: TermId, high: nat, low: nat) returns (r: Result<TermId>)
      requires Ready() && IsBv(arena.nodes, |arena.nodes|, child) && low <= high < Width(arena.nodes, child)
      requires arena.nodes[child].kind.ConcatBv?
      modifies arena
      ensures Ready() && Builds(old(arena.nodes), arena.nodes, r, ExtractBv(child, high, low))
      decreases child + 2, 0
    {
      hide Eval, WellFormed, NormalForm, Builds, Arena.Valid, SortOf, Equivalent, Extended, Denotes;
      var k, n0 := ExtractBv(child, high, low), arena.nodes;
      var highChild, lowChild := n0[child].kind.highPart, n0[child].kind.lowPart;
      var lowWidth := Width(n0, lowChild);
      ExtractConcatRule(n0, child, high, low);
      ConcatNode(n0, Env(_ => false, _ => 0), child);
      if high < lowWidth {
        r := MakeExtract(lowChild, high, low);
        BuildsEquivalent(n0, arena.nodes, r, ExtractBv(lowChild, high, low), k);
        return;
      }
      if low >= lowWidth {
        r := MakeExtract(highChild, high - lowWidth, low - lowWidth);
        BuildsEquivalent(n0, arena.nodes, r, ExtractBv(highChild, high - lowWidth, low - lowWidth), k);
        return;
      }
      ExtractSort(n0, lowChild, lowWidth - 1, low);
      var lowPart := MakeExtract(lowChild, lowWidth - 1, low);
      ghost var n1 := arena.nodes;
      VectorOk(n0, n1, lowPart, ExtractBv(lowChild, lowWidth - 1, low), lowWidth - low);
      SameLater(n0, n1, highChild, highChild);
      ExtractSort(n1, highChild, high - lowWidth, 0);
      var highPart := MakeExtract(highChild, high - lowWidth, 0);
      ghost var n2 := arena.nodes;
      VectorOk(n1, n2, highPart, ExtractBv(highChild, high - lowWidth, 0), high - lowWidth + 1);
      SameLater(n1, n2, lowPart.value, lowPart.value);
      ConcatSort(n2, highPart.value, lowPart.value);
      r := MakeConcat(highPart.value, lowPart.value);
      VectorOk(n2, arena.nodes, r, ConcatBv(highPart.value, lowPart.value), high - low + 1);
      ExtractAcross(n0, n1, n2, arena.nodes, child, high, low, lowPart.value, highPart.value, r.value);
    }

    method MakeConcat(high: TermId, low: TermId) returns (r: Result<TermId>)
      requires Ready()
      modifies arena
      ensures Ready() && Builds(old(arena.nodes), arena.nodes, r, ConcatBv(high, low))
      decreases 1, 0
    {
      hide Eval, WellFormed, NormalForm, Builds, Arena.Valid, SortOf, Always, Denotes, Equivalent, Normalized, Decoded;
      var k, nodes := ConcatBv(high, low), arena.nodes;
      ConcatSort(nodes, high, low);
      if !(IsBv(nodes, |nodes|, high) && IsBv(nodes, |nodes|, low)
           && ValidWidth(Width(nodes, high) + Width(nodes, low))) {
        BuildsRefused(nodes, k);
        return Err(Invalid);
      }
      if IsConst(nodes, high) && IsConst(nodes, low) {
        var bytes := ConcatBytes(ConstBytesOf(nodes, high), Width(nodes, high), ConstBytesOf(nodes, low),
                                 Width(nodes, low));
        FoldedConcat(nodes, high, low, bytes);
        r := Fold(k, bytes, Width(nodes, high) + Width(nodes, low));
        return;
      }
      if nodes[high].kind.ExtractBv? && nodes[low].kind.ExtractBv? {
        var h, l := nodes[high].kind, nodes[low].kind;
        if h.child == l.child && l.high + 1 == h.low {
          ConcatExtractsRule(nodes, high, low);
          NormalAt(nodes, high);
          r := MakeExtract(h.child, h.high, l.low);
          BuildsEquivalent(nodes, arena.nodes, r, ExtractBv(h.child, h.high, l.low), k);
          return;
        }
      }
      r := AddNode(k);
    }

    /** Folds a slice, extension, repetition or rotation of a constant. */
    method FoldWiring(k: NodeKind) returns (r: Result<TermId>)
      requires Ready() && IsWiring(k) && SortOf(arena.nodes, |arena.nodes|, k).Some? && IsConst(arena.nodes, k.child)
      modifies arena
      ensures Ready() && Builds(old(arena.nodes), arena.nodes, r, k) && r.Ok? && IsConst(arena.nodes, r.value)
    {
      hide Eval, WellFormed, NormalForm, Builds, Arena.Valid, Always, Normalized, Decoded, WiredValue;
      var nodes := arena.nodes;
      ConstValue(nodes, Env(_ => false, _ => 0), k.child);
      var bytes, width := EvalWiring(k, ConstBytesOf(nodes, k.child), Width(nodes, k.child));
      WiredSort(nodes, k, Decoded(ConstBytesOf(nodes, k.child), Width(nodes, k.child)));
      FoldedWiring(nodes, k, bytes, width);
      r := Fold(k, bytes, width);
    }

    /** Extensions and repetitions: trivial ones vanish, constants fold. */
    method MakeExtension(k: NodeKind) returns (r: Result<TermId>)
      requires Ready() && (k.ExtendBv? || k.RepeatBv?)
      modifies arena
      ensures Ready() && Builds(old(arena.nodes), arena.nodes, r, k)
    {
      hide Eval, WellFormed, NormalForm, Builds, Arena.Valid, SortOf, Denotes;
      var nodes := arena.nodes;
      if SortOf(nodes, |nodes|, k).None? { BuildsRefused(nodes, k); return Err(Invalid); }
      if if k.ExtendBv? then k.extra == 0 else k.count == 1 {
        TrivialWiring(nodes, k);
        BuildsExisting(nodes, k.child, k);
        return Ok(k.child);
      }
      if IsConst(nodes, k.child) { r := FoldWiring(k); return; }
      r := AddNode(k);
    }

    /** Rotations by a multiple of the width vanish; the node keeps the reduced amount. */
    method MakeRotate(left: bool, child: TermId, amount: nat) returns (r: Result<TermId>)
      requires Ready()
      modifies arena
      ensures Ready() && Builds(old(arena.nodes), arena.nodes, r, RotateBv(left, child, amount))
    {
      hide Eval, WellFormed, NormalForm, Builds, Arena.Valid, Denotes, Equivalent;
      var nodes := arena.nodes;
      if !IsBv(nodes, |nodes|, child) { BuildsRefused(nodes, RotateBv(left, child, amount)); return Err(Invalid); }
      RotateAmount(nodes, left, child, amount);
      var k := RotateBv(left, child, amount % Width(nodes, child));
      if amount % Width(nodes, child) == 0 {
        TrivialWiring(nodes, k);
        BuildsExisting(nodes, child, k);
        r := Ok(child);
      } else if IsConst(nodes, child) {
        r := FoldWiring(k);
      } else {
        r := AddNode(k);
      }
      BuildsEquivalent(nodes, arena.nodes, r, k, RotateBv(left, child, amount));
    }

    // ----------------------------------------------------------------- choices, connectives

    /** `ite` over vectors or Bools. */
    method MakeIte(k: NodeKind) returns (r: Result<TermId>)
      requires Ready() && (k.IteBv? || k.IteBool?)
      modifies arena
      ensures Ready() && Builds(old(arena.nodes), arena.nodes, r, k)
    {
      hide Eval, WellFormed, NormalForm, Builds, Arena.Valid, SortOf, Denotes;
      var nodes := arena.nodes;
      if SortOf(nodes, |nodes|, k).None? { BuildsRefused(nodes, k); return Err(Invalid); }
      if k.thenValue == k.elseValue {
        IteRule(nodes, k, k.thenValue);
        BuildsExisting(nodes, k.thenValue, k);
        return Ok(k.thenValue);
      }
      if IsBoolConst(nodes, k.cond) {
        var chosen := if nodes[k.cond].kind.value then k.thenValue else k.elseValue;
        IteRule(nodes, k, chosen);
        BuildsExisting(nodes, chosen, k);
        return Ok(chosen);
      }
      r := AddNode(k);
    }

    /** Requests that are never rewritten: selections, signed divisions, overflow tests. */
    method MakeRaw(k: NodeKind) returns (r: Result<TermId>)
      requires Ready() && IsRaw(k)
      modifies arena
      ensures Ready() && Builds(old(arena.nodes), arena.nodes, r, k)
    {
      hide Eval, WellFormed, NormalForm, Builds, Arena.Valid, SortOf;
      if SortOf(arena.nodes, |arena.nodes|, k).None? { BuildsRefused(arena.nodes, k); return Err(Invalid); }
      r := AddNode(k);
    }

    method MakeBoolNot(x: TermId) returns (r: Result<TermId>)
      requires Ready()
      modifies arena
      ensures Ready() && Builds(old(arena.nodes), arena.nodes, r, NotBool(x))
    {
      hide Eval, WellFormed, NormalForm, Builds, Arena.Valid, SortOf, Denotes, Always;
      var k, nodes := NotBool(x), arena.nodes;
      ConnectiveSort(nodes, BoolAnd, x, x);
      if !IsBool(nodes, |nodes|, x) { BuildsRefused(nodes, k); return Err(Invalid); }
      NotRule(nodes, x);
      if IsBoolConst(nodes, x) { r := FoldBool(k, !nodes[x].kind.value); return; }
      if nodes[x].kind.NotBool? { BuildsExisting(nodes, nodes[x].kind.x, k); return Ok(nodes[x].kind.x); }
      r := AddNode(k);
    }

    /** Conjunction and disjunction order their operands first, equality only for the node. */
    method MakeBoolBinary(op: BoolOp, x: TermId, y: TermId) returns (r: Result<TermId>)
      requires Ready()
      modifies arena
      ensures Ready() && Builds(old(arena.nodes), arena.nodes, r, BinaryBool(op, x, y))
    {
      hide Eval, WellFormed, NormalForm, Builds, Arena.Valid, SortOf, Denotes, Always, Equivalent, Simplified;
      var nodes := arena.nodes;
      var (a, b) := if op.BoolAnd? || op.BoolOr? then OrderPair(x, y) else (x, y);
      if SymmetricBool(op) { BoolCommutes(nodes, op, y, x); }
      r := ConnectOrdered(op, a, b);
      if a != x || b != y { BuildsEquivalent(nodes, arena.nodes, r, BinaryBool(op, a, b), BinaryBool(op, x, y)); }
    }

    method ConnectOrdered(op: BoolOp, a: TermId, b: TermId) returns (r: Result<TermId>)
      requires Ready()
      modifies arena
      ensures Ready() && Builds(old(arena.nodes), arena.nodes, r, BinaryBool(op, a, b))
    {
      hide Eval, WellFormed, NormalForm, Builds, Arena.Valid, SortOf, Denotes, Always, Equivalent, Simplified;
      var k, nodes := BinaryBool(op, a, b), arena.nodes;
      ConnectiveSort(nodes, op, a, b);
      if !IsBool(nodes, |nodes|, a) || !IsBool(nodes, |nodes|, b) { BuildsRefused(nodes, k); return Err(Invalid); }
      var outcome := Simplified(nodes, op, a, b);
      if outcome.Some? {
        SimplifiedRule(nodes, op, a, b);
        match outcome.value {
          case IsTruth(v) => r := FoldBool(k, v);
          case IsTerm(id) => BuildsExisting(nodes, id, k); r := Ok(id);
          case IsNegated(id) =>
            r := MakeBoolNot(id);
            BuildsEquivalent(nodes, arena.nodes, r, NotBool(id), k);
        }
        return;
      }
      if !op.BoolEq? { r := AddNode(k); return; }
      var (c, d) := OrderPair(a, b);
      ConnectiveSort(nodes, op, c, d);
      BoolCommutes(nodes, op, b, a);
      r := AddNode(BinaryBool(op, c, d));
      if c != a || d != b { BuildsEquivalent(nodes, arena.nodes, r, BinaryBool(op, c, d), k); }
    }

    /** Exclusive or is the negation of equality. */
    method MakeBoolXor(a: TermId, b: TermId) returns (r: Result<TermId>)
      requires Ready()
      modifies arena
      ensures Ready() && Extended(old(arena.nodes), arena.nodes)
      ensures r.Ok? <==>
                IsBool(old(arena.nodes), |old(arena.nodes)|, a) && IsBool(old(arena.nodes), |old(arena.nodes)|, b)
      ensures r.Ok? ==> forall env: Env {:trigger Eval(arena.nodes, env)} ::
                r.value < |arena.nodes|
                  && Eval(arena.nodes, env)[r.value] ==
                    BoolValue(BoolAt(Eval(old(arena.nodes), env), a) != BoolAt(Eval(old(arena.nodes), env), b))
    {
      hide Eval, WellFormed, NormalForm, Builds, Arena.Valid, SortOf, Denotes, Extended;
      ghost var n0 := arena.nodes;
      ConnectiveSort(n0, BoolEq, a, b);
      var eq := MakeBoolBinary(BoolEq, a, b);
      ghost var n1 := arena.nodes;
      BuildsShape(n0, n1, eq, BinaryBool(BoolEq, a, b));
      if eq.Err? { return Err(eq.error); }
      r := MakeBoolNot(eq.value);
      NegatedRequest(n0, n1, arena.nodes, eq, r, BinaryBool(BoolEq, a, b));
    }

    // ----------------------------------------------------------------------- comparisons

    method MakeEq(a: TermId, b: TermId) returns (r: Result<TermId>)
      requires Ready()
      modifies arena
      ensures Ready() && Builds(old(arena.nodes), arena.nodes, r, CompareBv(CmpEq, a, b))
      decreases CompareWeight(arena.nodes, a) + CompareWeight(arena.nodes, b), 1
    {
      hide Eval, WellFormed, NormalForm, Builds, Arena.Valid, SortOf, Always, Denotes, Equivalent;
      hide Extended, OneBitIte, Decoded, Normalized;
      var k, nodes := CompareBv(CmpEq, a, b), arena.nodes;
      CompareSort(nodes, CmpEq, a, b);
      EqCommutes(nodes, b, a);
      if !SameBv(nodes, |nodes|, a, b) { BuildsRefused(nodes, k); return Err(Invalid); }
      if a == b { SelfCompareRule(nodes, a); r := FoldBool(k, true); return; }
      if IsNegationPair(nodes, a, b) { ComplementEqRule(nodes, a, b); r := FoldBool(k, false); return; }
      if OneBitIte(nodes, a, b) { r := EqOfChoice(a, b); return; }
      if OneBitIte(nodes, b, a) {
        r := EqOfChoice(b, a);
        BuildsEquivalent(nodes, arena.nodes, r, CompareBv(CmpEq, b, a), k);
        return;
      }
      if ExtendedAgainst(nodes, a, b) { r := EqOfExtension(a, b); return; }
      if ExtendedAgainst(nodes, b, a) {
        r := EqOfExtension(b, a);
        BuildsEquivalent(nodes, arena.nodes, r, CompareBv(CmpEq, b, a), k);
        return;
      }
      if IsConst(nodes, a) && IsConst(nodes, b) {
        var value := ConstBytesOf(nodes, a) == ConstBytesOf(nodes, b);
        SameConstants(nodes, a, b);
        FoldedCompare(nodes, CmpEq, a, b, value);
        r := FoldBool(k, value);
        return;
      }
      var decided := PolynomialEquality(nodes, a, b);
      if decided.Some? {
        DecidedEq(nodes, a, b, decided.value);
        r := FoldBool(k, decided.value);
        return;
      }
      var (c, d) := OrderPair(a, b);
      CompareSort(nodes, CmpEq, c, d);
      r := AddNode(CompareBv(CmpEq, c, d));
      if c != a { BuildsEquivalent(nodes, arena.nodes, r, CompareBv(CmpEq, c, d), k); }
    }

    /** A one-bit choice between constants, compared with a constant. */
    method EqOfChoice(ite: TermId, constant: TermId) returns (r: Result<TermId>)
      requires Ready() && OneBitIte(arena.nodes, ite, constant)
      modifies arena
      ensures Ready() && Builds(old(arena.nodes), arena.nodes, r, CompareBv(CmpEq, ite, constant))
    {
      hide Eval, WellFormed, NormalForm, Builds, Arena.Valid, SortOf, Always, Denotes, Equivalent, OneBit;
      var k, nodes := CompareBv(CmpEq, ite, constant), arena.nodes;
      var choice, expected := nodes[ite].kind, OneBit(nodes, constant);
      var thenHit, elseHit := OneBit(nodes, choice.thenValue) == expected, OneBit(nodes, choice.elseValue) == expected;
      OneBitIteRule(nodes, ite, constant);
      CompareSort(nodes, CmpEq, ite, constant);
      if thenHit && !elseHit {
        BuildsExisting(nodes, choice.cond, k);
        return Ok(choice.cond);
      }
      if !thenHit && elseHit {
        r := MakeBoolNot(choice.cond);
        BuildsEquivalent(nodes, arena.nodes, r, NotBool(choice.cond), k);
        return;
      }
      r := FoldBool(k, thenHit);
    }

    /** An extension equals a constant when the constant is in range and its low part equals the child. */
    method EqOfExtension(x: TermId, constant: TermId) returns (r: Result<TermId>)
      requires Ready() && ExtendedAgainst(arena.nodes, x, constant)
      modifies arena
      ensures Ready() && Builds(old(arena.nodes), arena.nodes, r, CompareBv(CmpEq, x, constant))
      decreases CompareWeight(arena.nodes, x) + CompareWeight(arena.nodes, constant), 0
    {
      hide Eval, WellFormed, NormalForm, Builds, Arena.Valid, SortOf, Always, Denotes, Equivalent;
      hide Extended, Decoded, Normalized, BvSignExtend, GetBit;
      var k, nodes := CompareBv(CmpEq, x, constant), arena.nodes;
      var e, bytes, width := nodes[x].kind, ConstBytesOf(nodes, constant), nodes[constant].kind.width;
      var child, childWidth := e.child, Width(nodes, e.child);
      ExtendNode(nodes, Env(_ => false, _ => 0), x);
      ConstValue(nodes, Env(_ => false, _ => 0), constant);
      CompareSort(nodes, CmpEq, x, constant);
      var low := LowPart(bytes, childWidth, width);
      var inRange := InRangeBytes(bytes, low, e.signed, childWidth, e.extra);
      if !inRange {
        OutOfRange(nodes, x, constant, low);
        r := FoldBool(k, false);
        return;
      }
      var lowConst := AddConst(low, childWidth);
      ghost var n1 := arena.nodes;
      ExtendedPrefix(nodes, n1);
      SameLater(nodes, n1, child, child);
      ExtensionEqEquivalent(n1, x, constant, lowConst, true);
      r := MakeEq(child, lowConst);
      BuildsEquivalent(n1, arena.nodes, r, CompareBv(CmpEq, child, lowConst), k);
      BuildsRebased(nodes, n1, arena.nodes, r, k);
    }

    method MakeCompare(op: CompareOp, a: TermId, b: TermId) returns (r: Result<TermId>)
      requires Ready() && IsOrder(op)
      modifies arena
      ensures Ready() && Builds(old(arena.nodes), arena.nodes, r, CompareBv(op, a, b))
      decreases CompareWeight(arena.nodes, a) + CompareWeight(arena.nodes, b), 1
    {
      hide Eval, WellFormed, NormalForm, Builds, Arena.Valid, SortOf, Always, Denotes, CompareValue;
      hide Decoded, Normalized;
      var k, nodes := CompareBv(op, a, b), arena.nodes;
      CompareSort(nodes, op, a, b);
      if !SameBv(nodes, |nodes|, a, b) { BuildsRefused(nodes, k); return Err(Invalid); }
      if a == b { SelfCompareRule(nodes, a); r := FoldBool(k, op.CmpUle? || op.CmpSle?); return; }
      if IsUnsignedOrder(op) {
        if ExtendedAgainst(nodes, a, b) && !nodes[a].kind.signed { r := CompareExtension(op, a, b, true); return; }
        if ExtendedAgainst(nodes, b, a) && !nodes[b].kind.signed { r := CompareExtension(op, b, a, false); return; }
      }
      if IsConst(nodes, a) && IsConst(nodes, b) {
        ConstValue(nodes, Env(_ => false, _ => 0), a);
        ConstValue(nodes, Env(_ => false, _ => 0), b);
        var value := CompareBytes(op, ConstBytesOf(nodes, a), ConstBytesOf(nodes, b), Width(nodes, a));
        FoldedCompare(nodes, op, a, b, value.value);
        r := FoldBool(k, value.value);
        return;
      }
      r := AddNode(k);
    }

    /** Compares a zero extension `x` with a constant, on the left or on the right. */
    method CompareExtension(op: CompareOp, x: TermId, constant: TermId, onLeft: bool) returns (r: Result<TermId>)
      requires Ready() && IsUnsignedOrder(op) && ExtendedAgainst(arena.nodes, x, constant)
      requires !arena.nodes[x].kind.signed
      modifies arena
      ensures Ready()
      ensures Builds(old(arena.nodes), arena.nodes, r,
                     if onLeft then CompareBv(op, x, constant) else CompareBv(op, constant, x))
      decreases CompareWeight(arena.nodes, x) + CompareWeight(arena.nodes, constant), 0
    {
      hide Eval, WellFormed, NormalForm, Builds, Arena.Valid, SortOf, Always, Denotes, Equivalent;
      hide Extended, Decoded, Normalized, GetBit, AllZero, ConstantBytes;
      var nodes, strict := arena.nodes, op.CmpUlt?;
      ghost var k := if onLeft then CompareBv(op, x, constant) else CompareBv(op, constant, x);
      var e, bytes, width := nodes[x].kind, ConstBytesOf(nodes, constant), nodes[constant].kind.width;
      var child, childWidth := e.child, Width(nodes, e.child);
      ExtendNode(nodes, Env(_ => false, _ => 0), x);
      ConstValue(nodes, Env(_ => false, _ => 0), constant);
      CompareSort(nodes, op, x, constant);
      CompareSort(nodes, op, constant, x);
      var highZero := HighBitsZero(bytes, childWidth, width);
      HighBitsAreZero(bytes, childWidth, width);
      var low := LowPart(bytes, childWidth, width);
      var lowConst := AddConst(low, childWidth);
      ghost var n1 := arena.nodes;
      ExtendedPrefix(nodes, n1);
      SameLater(nodes, n1, child, child);
      ExtensionOrderEquivalent(n1, op, x, constant, lowConst, highZero);
      CompareSort(n1, op, x, constant);
      CompareSort(n1, op, constant, x);
      var constZero := AllZero(bytes);
      if onLeft {
        if strict && constZero {
          r := FoldBool(k, false);
        } else if !highZero {
          r := FoldBool(k, true);
        } else {
          r := MakeCompare(op, child, lowConst);
          BuildsEquivalent(n1, arena.nodes, r, CompareBv(op, child, lowConst), k);
        }
      } else if !highZero {
        r := FoldBool(k, false);
      } else if strict && IsAllOnes(arena.nodes, lowConst) {
        r := FoldBool(k, false);
      } else if !strict && constZero {
        r := FoldBool(k, true);
      } else {
        r := MakeCompare(op, lowConst, child);
        BuildsEquivalent(n1, arena.nodes, r, CompareBv(op, lowConst, child), k);
      }
      BuildsRebased(nodes, n1, arena.nodes, r, k);
    }

    /** Disequality is the negation of equality. */
    method MakeNe(a: TermId, b: TermId) returns (r: Result<TermId>)
      requires Ready()
      modifies arena
      ensures Ready() && Extended(old(arena.nodes), arena.nodes)
      ensures r.Ok? <==> SameBv(old(arena.nodes), |old(arena.nodes)|, a, b)
      ensures r.Ok? ==> forall env: Env {:trigger Eval(arena.nodes, env)} ::
                r.value < |arena.nodes|
                  && Eval(arena.nodes, env)[r.value] ==
                    BoolValue(BvAt(Eval(old(arena.nodes), env), a) != BvAt(Eval(old(arena.nodes), env), b))
    {
      hide Eval, WellFormed, NormalForm, Builds, Arena.Valid, SortOf, Denotes, Extended;
      ghost var n0 := arena.nodes;
      CompareSort(n0, CmpEq, a, b);
      var eq := MakeEq(a, b);
      ghost var n1 := arena.nodes;
      BuildsShape(n0, n1, eq, CompareBv(CmpEq, a, b));
      if eq.Err? { return Err(eq.error); }
      r := MakeBoolNot(eq.value);
      NegatedRequest(n0, n1, arena.nodes, eq, r, CompareBv(CmpEq, a, b));
    }

    // -------------------------------------------------------------------------- variables

    /** A variable is the node itself; its value is whatever the assignment gives its id. */
    method MakeVariable(k: NodeKind) returns (r: Result<TermId>)
      requires Ready() && IsVariable(k)
      modifies arena
      ensures Ready() && Grown(old(arena.nodes), arena.nodes)
      ensures r.Ok? <==> k.VarBool? || ValidWidth(k.width)
      ensures r.Ok? ==> r.value < |arena.nodes| && arena.nodes[r.value].kind == k
      ensures arena.nodes == old(arena.nodes)
              || (|arena.nodes| == |old(arena.nodes)| + 1 && r == Ok(|old(arena.nodes)|))
    {
      hide Eval, WellFormed, NormalForm, KindValue, Grown, NodeNormal;
      ghost var was := arena.nodes;
      PrefixIsGrown(was, was);
      if k.VarBv? && !ValidWidth(k.width) { return Err(Invalid); }
      var sort := SortOf(arena.nodes, |arena.nodes|, k).value;
      VariableNormal(was, k);
      NormalSnoc(was, Node(k, sort));
      r := arena.Add(k, sort);
      PrefixIsGrown(was, arena.nodes);
    }

    // ------------------------------------------------------------------- building a query

    /** The query under construction is well sorted and its scopes are nested. */
    ghost predicate Valid()
      reads this, arena
    {
      && Ready()
      && (forall i :: 0 <= i < |assertions| ==> IsBool(arena.nodes, |arena.nodes|, assertions[i].root))
      && (forall i :: 0 <= i < |assumptions| ==> IsBool(arena.nodes, |arena.nodes|, assumptions[i]))
      && (target.Some? ==> IsBv(arena.nodes, |arena.nodes|, target.value))
      && (forall i :: 0 <= i < |scopes| ==> scopes[i] <= |assertions|)
      && (forall i, j :: 0 <= i < j < |scopes| ==> scopes[i] <= scopes[j])
    }

    /** Asserts a Bool term; anything else is refused. */
    method Assert(root: TermId, name: Option<string>) returns (ok: bool)
      requires Valid()
      modifies this`assertions
      ensures Valid() && ok == IsBool(arena.nodes, |arena.nodes|, root)
      ensures assertions == old(assertions) + if ok then [Assertion(root, name)] else []
    {
      hide Arena.Valid, WellFormed, NormalForm;
      ok := IsBool(arena.nodes, |arena.nodes|, root);
      if ok { assertions := assertions + [Assertion(root, name)]; }
    }

    method Assume(root: TermId) returns (ok: bool)
      requires Valid()
      modifies this`assumptions
      ensures Valid() && ok == IsBool(arena.nodes, |arena.nodes|, root)
      ensures assumptions == old(assumptions) + if ok then [root] else []
    {
      hide Arena.Valid, WellFormed, NormalForm;
      ok := IsBool(arena.nodes, |arena.nodes|, root);
      if ok { assumptions := assumptions + [root]; }
    }

    method Push()
      requires Valid()
      modifies this`scopes
      ensures Valid() && scopes == old(scopes) + [|assertions|]
    {
      hide Arena.Valid, WellFormed, NormalForm;
      scopes := scopes + [|assertions|];
    }

    /** Drops every assertion made since the matching push, and only those. */
    method Pop() returns (ok: bool)
      requires Valid()
      modifies this`scopes, this`assertions
      ensures Valid() && ok == (old(scopes) != [])
      ensures ok ==>
                scopes == old(scopes)[..|old(scopes)| - 1]
                  && assertions == old(assertions)[..old(scopes)[|old(scopes)| - 1]]
      ensures !ok ==> scopes == old(scopes) && assertions == old(assertions)
    {
      hide Arena.Valid, WellFormed, NormalForm;
      if scopes == [] { return false; }
      var n := |scopes| - 1;
      assertions := assertions[..scopes[n]];
      scopes := scopes[..n];
      ok := true;
    }

    method SetCommand(kind: Command)
      requires Valid()
      modifies this`command
      ensures Valid() && command == kind
    {
      hide Arena.Valid, WellFormed, NormalForm;
      command := kind;
    }

    method SetOptimization(kind: Command, goal: TermId, isSigned: bool) returns (ok: bool)
      requires Valid()
      modifies this`command, this`target, this`signed
      ensures Valid() && ok == ((kind.Minimize? || kind.Maximize?) && IsBv(arena.nodes, |arena.nodes|, goal))
      ensures if ok then command == kind && target == Some(goal) && signed == isSigned
              else command == old(command) && target == old(target) && signed == old(signed)
    {
      hide Arena.Valid, WellFormed, NormalForm;
      ok := (kind.Minimize? || kind.Maximize?) && IsBv(arena.nodes, |arena.nodes|, goal);
      if ok { command, target, signed := kind, Some(goal), isSigned; }
    }

    /** The finished query is one the solver accepts. */
    method Finish(wantModel: bool, wantCore: bool) returns (r: Result<Query>)
      requires Valid()
      ensures r.Err? <==> (command.Minimize? || command.Maximize?) && target.None?
      ensures r.Ok? ==>
                r.value.Valid()
                  && r.value == Query(arena, assertions, assumptions, command, target, signed, wantModel, wantCore)
    {
      hide Arena.Valid, WellFormed, NormalForm;
      if (command.Minimize? || command.Maximize?) && target.None? { return Err(Invalid); }
      r := Ok(Query(arena, assertions, assumptions, command, target, signed, wantModel, wantCore));
    }

    /** Building more terms keeps the query valid. */
    twostate lemma StaysValid()
      requires old(Valid()) && Ready() && Grown(old(arena.nodes), arena.nodes)
      requires unchanged(this)
      ensures Valid()
    {
      hide Eval, WellFormed, NormalForm, Arena.Valid;
    }
  }

  lemma {:induction false} AddedBuilds(was: seq<Node>, now: seq<Node>, id: TermId, k: NodeKind)
    requires was <= now && WellFormed(was) && WellFormed(now) && NoNewVariables(was, now)
    requires id < |now| && now[id].kind == k && !IsVariable(k)
    requires SortOf(was, |was|, k) == Some(now[id].sort)
    ensures Builds(was, now, Ok(id), k)
  {
    hide Eval, WellFormed, SortOf, KindValue;
    PrefixIsExtended(was, now);
    PrefixIsExtended(now, now);
    NodeDenotes(now, id);
    DenotesEarlier(was, now, now, id, k);
  }

  lemma {:induction false} FoldEquivalent(nodes: seq<Node>, k: NodeKind, bytes: seq<Byte>, width: nat)
    requires SortOf(nodes, |nodes|, k) == Some(BvSort(width)) && Always(nodes, k, BvValue(Decoded(bytes, width)))
    requires Normalized(bytes, width) && ValidWidth(width)
    ensures Equivalent(nodes, ConstBv(width, bytes), k)
  {
    hide Eval, Decoded, Normalized;
  }

  lemma {:induction false} FoldBoolEquivalent(nodes: seq<Node>, k: NodeKind, value: bool)
    requires SortOf(nodes, |nodes|, k) == Some(BoolSort) && Always(nodes, k, BoolValue(value))
    ensures Equivalent(nodes, ConstBool(value), k)
  {
    hide Eval;
  }

  // ------------------------------------------------------------------ facts about results

  lemma {:induction false} ConstSort(nodes: seq<Node>, bytes: seq<Byte>, width: nat)
    requires Normalized(bytes, width) && ValidWidth(width)
    ensures SortOf(nodes, |nodes|, ConstBv(width, bytes)) == Some(BvSort(width))
  {}

  lemma {:induction false} VectorOk(was: seq<Node>, now: seq<Node>, r: Result<TermId>, k: NodeKind, width: nat)
    requires Builds(was, now, r, k) && SortOf(was, |was|, k) == Some(BvSort(width))
    ensures r.Ok? && Extended(was, now) && was <= now && IsBv(now, |now|, r.value) && Width(now, r.value) == width
  {
    hide Eval, WellFormed, SortOf, KindValue;
  }

  lemma {:induction false} BinaryOk(was: seq<Node>, now: seq<Node>, r: Result<TermId>, op: BinaryOp, x: TermId,
                                    y: TermId)
    requires Builds(was, now, r, BinaryBv(op, x, y)) && SameBv(was, |was|, x, y)
    ensures r.Ok? && Extended(was, now) && was <= now && WellFormed(now) && SameBv(now, |now|, x, r.value)
    ensures Width(now, r.value) == Width(was, x)
  {
    hide Eval, WellFormed;
    BinarySort(was, op, x, y);
  }

  lemma {:induction false} SameLater(was: seq<Node>, now: seq<Node>, x: TermId, y: TermId)
    requires Extended(was, now) && SameBv(was, |was|, x, y)
    ensures was <= now && SameBv(now, |now|, x, y) && Width(now, x) == Width(was, x)
  {
    hide Eval, WellFormed;
  }

  lemma {:induction false} NeverSelfShift(nodes: seq<Node>, a: TermId, b: TermId)
    requires NormalForm(nodes) && ShiftOfConst(nodes, a) && ShiftOfConst(nodes, b)
    ensures !SelfShiftPair(nodes, a, b)
  {
    if a < |nodes| { NormalAt(nodes, a); }
    if b < |nodes| { NormalAt(nodes, b); }
  }

  lemma {:induction false} CanonicalBuilds(was: seq<Node>, now: seq<Node>, id: TermId, k: NodeKind)
    requires Extended(was, now) && Denotes(was, now, id, k)
    ensures Builds(was, now, Ok(id), k)
  {
    hide Eval, WellFormed, SortOf, KindValue, Extended;
  }

  lemma {:induction false} BuildsParts(was: seq<Node>, now: seq<Node>, r: Result<TermId>, k: NodeKind)
    requires Builds(was, now, r, k) && r.Ok?
    ensures Extended(was, now) && Denotes(was, now, r.value, k)
  {}

  lemma {:induction false} NegBelow(nodes: seq<Node>, x: TermId)
    requires WellFormed(nodes) && IsNeg(nodes, x)
    ensures nodes[x].kind.x < x
  {
    assert SortOf(nodes, x, nodes[x].kind) == Some(nodes[x].sort);
  }

  lemma {:induction false} AmountFact(nodes: seq<Node>, b: TermId, width: nat, amount: nat)
    requires forall env: Env {:trigger Eval(nodes, env)} ::
               amount == if Val(BvAt(Eval(nodes, env), b)) < width then Val(BvAt(Eval(nodes, env), b)) else width
    ensures AmountIs(nodes, b, width, amount)
  {}

  // ---------------------------------------------------------------------------- chains

  ghost function TotalOf(op: BinaryOp, vals: seq<Value>, terms: seq<TermId>): int {
    if op.OpAdd? then SumOf(vals, terms) else ProductOf(vals, terms)
  }

  ghost function Combined(op: BinaryOp, c: int, total: int): int { if op.OpAdd? then total + c else total * c }

  lemma {:induction false} ChainStart(nodes: seq<Node>, op: BinaryOp, terms: seq<TermId>, width: nat)
    requires WellFormed(nodes) && AllBv(nodes, terms, width) && terms != [] && (op.OpAdd? || op.OpMul?)
    ensures forall env: Env {:trigger Eval(nodes, env)} ::
              BvAt(Eval(nodes, env), terms[0]) == FromInt(TotalOf(op, Eval(nodes, env), terms[..1]), width)
  {
    hide Eval, WellFormed, FromInt, Val;
    forall env: Env
      ensures BvAt(Eval(nodes, env), terms[0]) == FromInt(TotalOf(op, Eval(nodes, env), terms[..1]), width)
    {
      assert terms[..1] == [] + [terms[0]];
      SumSnoc(Eval(nodes, env), [], terms[0]);
      VectorValue(nodes, env, terms[0]);
      FromIntVal(BvAt(Eval(nodes, env), terms[0]));
    }
  }

  lemma {:induction false} ChainStep(was: seq<Node>, mid: seq<Node>, now: seq<Node>, op: BinaryOp, terms: seq<TermId>,
                                     i: nat, width: nat, cur: TermId, next: TermId)
    requires Extended(was, mid) && AllBv(was, terms, width) && i < |terms| && (op.OpAdd? || op.OpMul?)
    requires Builds(mid, now, Ok(next), BinaryBv(op, cur, terms[i])) && SameBv(mid, |mid|, cur, terms[i])
    requires Width(mid, cur) == width
    requires forall env: Env {:trigger Eval(mid, env)} ::
               BvAt(Eval(mid, env), cur) == FromInt(TotalOf(op, Eval(was, env), terms[..i]), width)
    ensures forall env: Env {:trigger Eval(now, env)} ::
              BvAt(Eval(now, env), next) == FromInt(TotalOf(op, Eval(was, env), terms[..i + 1]), width)
  {
    hide Eval, WellFormed, FromInt, Val, SortOf;
    forall env: Env ensures BvAt(Eval(now, env), next) == FromInt(TotalOf(op, Eval(was, env), terms[..i + 1]), width) {
      var vals := Eval(was, env);
      assert Eval(now, env)[next] == KindValue(BinaryBv(op, cur, terms[i]), 0, env, Eval(mid, env));
      assert vals <= Eval(mid, env);
      assert terms[..i + 1] == terms[..i] + [terms[i]];
      SumSnoc(vals, terms[..i], terms[i]);
      VectorValue(was, env, terms[i]);
      FromIntVal(BvAt(vals, terms[i]));
      ResidueOps(TotalOf(op, vals, terms[..i]), Val(BvAt(vals, terms[i])), width);
    }
  }

  lemma {:induction false} ChainEnd(was: seq<Node>, now: seq<Node>, op: BinaryOp, terms: seq<TermId>, width: nat,
                                    r: TermId)
    requires forall env: Env {:trigger Eval(now, env)} ::
               BvAt(Eval(now, env), r) ==
                 FromInt(TotalOf(op, Eval(was, env), SortIds(terms)[..|SortIds(terms)|]), width)
    ensures forall env: Env {:trigger Eval(now, env)} ::
              BvAt(Eval(now, env), r) == FromInt(TotalOf(op, Eval(was, env), terms), width)
  {
    hide Eval, FromInt;
    forall env: Env ensures BvAt(Eval(now, env), r) == FromInt(TotalOf(op, Eval(was, env), terms), width) {
      SortKeeps(Eval(was, env), terms);
      assert SortIds(terms)[..|SortIds(terms)|] == SortIds(terms);
    }
  }

  lemma {:induction false} SameRefl(w: nat)
    ensures forall n: int :: Same(n, n, w)
  {}

  lemma {:induction false} SingleSum(vals: seq<Value>, t: TermId)
    ensures SumOf(vals, []) == 0 && SumOf(vals, [t]) == Val(BvAt(vals, t))
  {
    assert [t][1..] == [];
  }

  lemma {:induction false} EmptyTotal(vals: seq<Value>)
    ensures SumOf(vals, []) == 0 && ScaledSum(vals, []) == 0
  {}

  lemma {:induction false} NeutralConstant(op: BinaryOp, bytes: seq<Byte>)
    requires if op.OpAdd? then AllZero(bytes) else IsOneBytes(bytes)
    ensures forall total: int :: Combined(op, BytesVal(bytes), total) == total
  {
    if op.OpAdd? { ZeroCoefficient(bytes); } else { OneBytesVal(bytes); }
  }

  lemma {:induction false} ConstantAppended(was: seq<Node>, now: seq<Node>, op: BinaryOp, terms: seq<TermId>,
                                            constant: seq<Byte>, c: TermId, width: nat)
    requires Extended(was, now) && AllBv(was, terms, width) && Normalized(constant, width)
    requires IsBv(now, |now|, c) && Width(now, c) == width
    requires forall env: Env {:trigger Eval(now, env)} :: BvAt(Eval(now, env), c) == Decoded(constant, width)
    ensures AllBv(now, terms + [c], width)
    ensures forall env: Env {:trigger Eval(now, env)} ::
              TotalOf(op, Eval(now, env), terms + [c]) ==
                Combined(op, BytesVal(constant), TotalOf(op, Eval(was, env), terms))
  {
    hide Eval, WellFormed, Normalized, Decoded, Val, BytesVal, SumOf, ProductOf;
    NormalizedVal(constant, width);
    forall env: Env
      ensures TotalOf(op, Eval(now, env), terms + [c]) ==
                Combined(op, BytesVal(constant), TotalOf(op, Eval(was, env), terms))
    {
      SumSnoc(Eval(now, env), terms, c);
      SumKept(Eval(was, env), Eval(now, env), terms);
    }
  }

  lemma {:induction false} EmittedProduct(n0: seq<Node>, n1: seq<Node>, n2: seq<Node>, base: TermId,
                                          coefficient: seq<Byte>, c: TermId, p: TermId, width: nat)
    requires Extended(n0, n1) && Builds(n1, n2, Ok(p), BinaryBv(OpMul, base, c)) && IsBv(n0, |n0|, base)
    requires Width(n0, base) == width
    requires SameBv(n1, |n1|, base, c) && Normalized(coefficient, width)
    requires forall env: Env {:trigger Eval(n1, env)} :: BvAt(Eval(n1, env), c) == Decoded(coefficient, width)
    ensures forall env: Env {:trigger Eval(n2, env)} ::
              Same(SumOf(Eval(n2, env), [p]), BytesVal(coefficient) * Val(BvAt(Eval(n2, env), base)), width)
  {
    hide Eval, WellFormed, SortOf, Normalized, Decoded, Val, BytesVal, FromInt, SumOf;
    NormalizedVal(coefficient, width);
    forall env: Env
      ensures Same(SumOf(Eval(n2, env), [p]), BytesVal(coefficient) * Val(BvAt(Eval(n2, env), base)), width)
    {
      SingleSum(Eval(n2, env), p);
      assert Eval(n2, env)[p] == KindValue(BinaryBv(OpMul, base, c), 0, env, Eval(n1, env));
      VectorValue(n1, env, base);
      var u, v := BvAt(Eval(n1, env), base), BvAt(Eval(n1, env), c);
      assert BvAt(Eval(n2, env), base) == u;
      assert Val(u) * Val(v) == Val(v) * Val(u);
      FromIntVal(BvAt(Eval(n2, env), p));
    }
  }

  // ------------------------------------------------------------------------ canonical sums

  /** Separates the constants of a sum, added up, from the other terms. */
  method SplitConstants(nodes: seq<Node>, terms: seq<TermId>, width: nat)
      returns (constant: seq<Byte>, nonConst: seq<TermId>)
    requires WellFormed(nodes) && AllBv(nodes, terms, width)
    ensures Normalized(constant, width) && AllBv(nodes, nonConst, width)
    ensures forall env: Env {:trigger Eval(nodes, env)} ::
              Same(BytesVal(constant) + SumOf(Eval(nodes, env), nonConst), SumOf(Eval(nodes, env), terms), width)
  {
    hide Eval, WellFormed, Normalized, Decoded, Val, BytesVal, FromInt, SumOf, Same, ConstantBytes, ProductOf;
    ConstantBits(width, false);
    constant, nonConst := ConstantBytes(width, false), [];
    SplitStart(nodes, terms, constant, width);
    for i := 0 to |terms|
      invariant Normalized(constant, width) && AllBv(nodes, nonConst, width)
      invariant forall env: Env {:trigger Eval(nodes, env)} ::
                  Same(BytesVal(constant) + SumOf(Eval(nodes, env), nonConst), SumOf(Eval(nodes, env), terms[..i]),
                       width)
    {
      ghost var was, before := constant, nonConst;
      if IsConst(nodes, terms[i]) {
        ConstNormalized(nodes, terms[i]);
        constant := AddBytes(constant, ConstBytesOf(nodes, terms[i]), width) by { NormalizedSized(constant, width); }
        CoefficientSum(was, ConstBytesOf(nodes, terms[i]), constant, width);
        forall env: Env
          ensures Same(BytesVal(constant) + SumOf(Eval(nodes, env), nonConst), SumOf(Eval(nodes, env), terms[..i + 1]),
                       width)
        {
          SplitConst(nodes, terms, i, width, was, constant, nonConst, env);
        }
      } else {
        nonConst := nonConst + [terms[i]];
        forall env: Env
          ensures Same(BytesVal(constant) + SumOf(Eval(nodes, env), nonConst), SumOf(Eval(nodes, env), terms[..i + 1]),
                       width)
        {
          SplitOther(nodes, terms, i, width, constant, before, env);
        }
      }
    }
    assert terms[..|terms|] == terms;
  }

  lemma {:induction false} ConstNormalized(nodes: seq<Node>, x: TermId)
    requires WellFormed(nodes) && IsConst(nodes, x)
    ensures Normalized(ConstBytesOf(nodes, x), Width(nodes, x)) && Sized(ConstBytesOf(nodes, x), Width(nodes, x))
  {
    hide Decoded, GetBit;
    ConstValue(nodes, Env(_ => false, _ => 0), x);
  }

  lemma {:induction false} SplitStart(nodes: seq<Node>, terms: seq<TermId>, constant: seq<Byte>, width: nat)
    requires Normalized(constant, width) && Decoded(constant, width) == Zeros(width)
    ensures forall env: Env {:trigger Eval(nodes, env)} ::
              Same(BytesVal(constant) + SumOf(Eval(nodes, env), []), SumOf(Eval(nodes, env), terms[..0]), width)
  {
    hide Eval, Normalized, Decoded, FromInt, Val, BytesVal;
    NormalizedVal(constant, width);
    ValZeros(width);
  }

  lemma {:induction false} SplitConst(nodes: seq<Node>, terms: seq<TermId>, i: nat, width: nat, was: seq<Byte>,
                                      now: seq<Byte>, nonConst: seq<TermId>, env: Env)
    requires WellFormed(nodes) && i < |terms| && IsConst(nodes, terms[i]) && Width(nodes, terms[i]) == width
    requires Same(BytesVal(was) + SumOf(Eval(nodes, env), nonConst), SumOf(Eval(nodes, env), terms[..i]), width)
    requires Same(BytesVal(now), BytesVal(was) + BytesVal(ConstBytesOf(nodes, terms[i])), width)
    ensures Same(BytesVal(now) + SumOf(Eval(nodes, env), nonConst), SumOf(Eval(nodes, env), terms[..i + 1]), width)
  {
    hide Eval, WellFormed, Normalized, Decoded, Val, BytesVal, FromInt, SumOf;
    var vals := Eval(nodes, env);
    ConstValue(nodes, env, terms[i]);
    NormalizedVal(ConstBytesOf(nodes, terms[i]), width);
    assert terms[..i + 1] == terms[..i] + [terms[i]];
    SumSnoc(vals, terms[..i], terms[i]);
    var c, s := BytesVal(ConstBytesOf(nodes, terms[i])), SumOf(vals, nonConst);
    SameAdd(BytesVal(now), BytesVal(was) + c, s, s, width);
    SameAdd(BytesVal(was) + s, SumOf(vals, terms[..i]), c, c, width);
  }

  lemma {:induction false} SplitOther(nodes: seq<Node>, terms: seq<TermId>, i: nat, width: nat, constant: seq<Byte>,
                                      before: seq<TermId>, env: Env)
    requires i < |terms|
    requires Same(BytesVal(constant) + SumOf(Eval(nodes, env), before), SumOf(Eval(nodes, env), terms[..i]), width)
    ensures Same(BytesVal(constant) + SumOf(Eval(nodes, env), before + [terms[i]]),
                 SumOf(Eval(nodes, env), terms[..i + 1]), width)
  {
    hide Eval, Val, BytesVal, FromInt, SumOf;
    var vals := Eval(nodes, env);
    assert terms[..i + 1] == terms[..i] + [terms[i]];
    SumSnoc(vals, terms[..i], terms[i]);
    SumSnoc(vals, before, terms[i]);
    var v := Val(BvAt(vals, terms[i]));
    SameAdd(BytesVal(constant) + SumOf(vals, before), SumOf(vals, terms[..i]), v, v, width);
  }

  method ScaleTerms(nodes: seq<Node>, terms: seq<TermId>, width: nat) returns (scaled: seq<Scaled>)
    requires WellFormed(nodes) && AllBv(nodes, terms, width) && ValidWidth(width)
    ensures ScaledOk(nodes, scaled, width)
    ensures forall env: Env {:trigger Eval(nodes, env)} ::
              Same(ScaledSum(Eval(nodes, env), scaled), SumOf(Eval(nodes, env), terms), width)
  {
    hide Eval, WellFormed, Normalized, Decoded, Val, BytesVal, FromInt, SumOf, Same, ScaledSum, ScaledTerm, ProductOf;
    scaled := [];
    SameRefl(width);
    forall env: Env ensures Same(ScaledSum(Eval(nodes, env), []), SumOf(Eval(nodes, env), terms[..0]), width) {
      EmptyTotal(Eval(nodes, env));
    }
    for i := 0 to |terms|
      invariant ScaledOk(nodes, scaled, width)
      invariant forall env: Env {:trigger Eval(nodes, env)} ::
                  Same(ScaledSum(Eval(nodes, env), scaled), SumOf(Eval(nodes, env), terms[..i]), width)
    {
      ghost var was := scaled;
      var s := ScaledTerm(nodes, terms[i], width);
      ScaledTermValue(nodes, terms[i], width, Env(_ => false, _ => 0));
      ScaledOkSnoc(nodes, was, s, width);
      scaled := scaled + [s];
      forall env: Env
        ensures Same(ScaledSum(Eval(nodes, env), scaled), SumOf(Eval(nodes, env), terms[..i + 1]), width)
      {
        ScaleStep(nodes, terms, i, was, width, env);
      }
    }
    assert terms[..|terms|] == terms;
  }

  lemma {:induction false} ScaledOkSnoc(nodes: seq<Node>, terms: seq<Scaled>, s: Scaled, width: nat)
    requires ScaledOk(nodes, terms, width) && ScaledOk(nodes, [s], width)
    ensures ScaledOk(nodes, terms + [s], width)
  {
    hide Normalized;
    assert [s][0] == s;
  }

  lemma {:induction false} ScaleStep(nodes: seq<Node>, terms: seq<TermId>, i: nat, was: seq<Scaled>, width: nat,
                                     env: Env)
    requires WellFormed(nodes) && i < |terms| && IsBv(nodes, |nodes|, terms[i]) && Width(nodes, terms[i]) == width > 0
    requires Same(ScaledSum(Eval(nodes, env), was), SumOf(Eval(nodes, env), terms[..i]), width)
    ensures Same(ScaledSum(Eval(nodes, env), was + [ScaledTerm(nodes, terms[i], width)]),
                 SumOf(Eval(nodes, env), terms[..i + 1]), width)
  {
    hide Eval, WellFormed, Val, BytesVal, FromInt, SumOf, ScaledSum, ScaledTerm, ScaledOk;
    var vals, s := Eval(nodes, env), ScaledTerm(nodes, terms[i], width);
    ScaledTermValue(nodes, terms[i], width, env);
    assert terms[..i + 1] == terms[..i] + [terms[i]];
    SumSnoc(vals, terms[..i], terms[i]);
    ScaledSnoc(vals, was, s);
    SameAdd(ScaledSum(vals, was), SumOf(vals, terms[..i]), BytesVal(s.coefficient) * Val(BvAt(vals, s.base)),
            Val(BvAt(vals, terms[i])), width);
  }

  /** Adds up the coefficients of the run of equal bases that starts at `index`. */
  method GroupOne(ghost nodes: seq<Node>, scaled: seq<Scaled>, index: nat, width: nat)
      returns (coefficient: seq<Byte>, count: nat)
    requires ScaledOk(nodes, scaled, width) && index < |scaled|
    ensures 1 <= count && index + count <= |scaled| && Normalized(coefficient, width)
    ensures forall k :: index <= k < index + count ==> scaled[k].base == scaled[index].base
    ensures index + count < |scaled| ==> scaled[index + count].base != scaled[index].base
    ensures forall vals: seq<Value> {:trigger ScaledSum(vals, scaled[index..])} ::
              Same(BytesVal(coefficient) * Val(BvAt(vals, scaled[index].base)) +
                   ScaledSum(vals, scaled[index + count..]), ScaledSum(vals, scaled[index..]), width)
  {
    hide Normalized, Decoded, Val, BytesVal, FromInt, Same, ScaledSum, ConstantBytes;
    ConstantBits(width, false);
    coefficient, count := ConstantBytes(width, false), 0;
    var base := scaled[index].base;
    GroupStart(coefficient, base, width);
    SameRefl(width);
    while index + count < |scaled| && scaled[index + count].base == base
      invariant index + count <= |scaled| && Normalized(coefficient, width)
      invariant count == 0 ==> scaled[index].base == base
      invariant forall k :: index <= k < index + count ==> scaled[k].base == base
      invariant forall vals: seq<Value> {:trigger ScaledSum(vals, scaled[index..])} ::
                  Same(BytesVal(coefficient) * Val(BvAt(vals, base)) + ScaledSum(vals, scaled[index + count..]),
                       ScaledSum(vals, scaled[index..]), width)
    {
      ghost var was := coefficient;
      var term := scaled[index + count];
      coefficient := AddBytes(coefficient, term.coefficient, width) by {
        NormalizedSized(coefficient, width);
        NormalizedSized(term.coefficient, width);
      }
      CoefficientSum(was, term.coefficient, coefficient, width);
      forall vals: seq<Value>
        ensures Same(BytesVal(coefficient) * Val(BvAt(vals, base)) + ScaledSum(vals, scaled[index + count + 1..]),
                     ScaledSum(vals, scaled[index..]), width)
      {
        RunStep(vals, scaled, index + count, was, coefficient, width);
        assert Same(BytesVal(was) * Val(BvAt(vals, base)) + ScaledSum(vals, scaled[index + count..]),
                    ScaledSum(vals, scaled[index..]), width);
        SameTrans(BytesVal(coefficient) * Val(BvAt(vals, base)) + ScaledSum(vals, scaled[index + count + 1..]),
                  BytesVal(was) * Val(BvAt(vals, base)) + ScaledSum(vals, scaled[index + count..]),
                  ScaledSum(vals, scaled[index..]), width);
      }
      count := count + 1;
    }
  }

  lemma {:induction false} SameTrans(a: int, b: int, c: int, w: nat)
    requires Same(a, b, w) && Same(b, c, w)
    ensures Same(a, c, w)
  {}

  lemma {:induction false} GroupStart(coefficient: seq<Byte>, base: TermId, width: nat)
    requires Normalized(coefficient, width) && Decoded(coefficient, width) == Zeros(width)
    ensures forall v: int :: BytesVal(coefficient) * v == 0
  {
    hide Normalized, Decoded, Val, BytesVal;
    NormalizedVal(coefficient, width);
    ValZeros(width);
  }

  lemma {:induction false} ScaledHead(vals: seq<Value>, scaled: seq<Scaled>, i: nat)
    requires i < |scaled|
    ensures ScaledSum(vals, scaled[i..]) == BytesVal(scaled[i].coefficient) * Val(BvAt(vals, scaled[i].base)) +
              ScaledSum(vals, scaled[i + 1..])
  {
    hide Val, BytesVal;
    assert scaled[i..][1..] == scaled[i + 1..];
  }

  lemma {:induction false} RunStep(vals: seq<Value>, scaled: seq<Scaled>, i: nat, was: seq<Byte>, now: seq<Byte>,
                                   width: nat)
    requires i < |scaled| && Same(BytesVal(now), BytesVal(was) + BytesVal(scaled[i].coefficient), width)
    ensures var v := Val(BvAt(vals, scaled[i].base));
            Same(BytesVal(now) * v + ScaledSum(vals, scaled[i + 1..]), BytesVal(was) * v + ScaledSum(vals, scaled[i..]),
                 width)
  {
    hide Val, BytesVal, FromInt, ScaledSum;
    ScaledHead(vals, scaled, i);
    var v, rest := Val(BvAt(vals, scaled[i].base)), ScaledSum(vals, scaled[i + 1..]);
    SameMul(BytesVal(now), BytesVal(was) + BytesVal(scaled[i].coefficient), v, v, width);
    SameAdd(BytesVal(now) * v, (BytesVal(was) + BytesVal(scaled[i].coefficient)) * v, rest, rest, width);
    Distribute(BytesVal(was), BytesVal(scaled[i].coefficient), v);
  }

  lemma {:induction false} GroupStep(was: seq<Node>, mid: seq<Node>, now: seq<Node>, scaled: seq<Scaled>, from: nat,
                                     to: nat, done: seq<TermId>, terms: seq<TermId>, base: TermId,
                                     coefficient: seq<Byte>, width: nat)
    requires Extended(was, mid) && Extended(mid, now) && AllBv(mid, done, width) && AllBv(now, terms, width)
    requires from <= to <= |scaled| && base < |was|
    requires forall env: Env {:trigger Eval(mid, env)} ::
               Same(SumOf(Eval(mid, env), done) + ScaledSum(Eval(was, env), scaled[from..]),
                    ScaledSum(Eval(was, env), scaled), width)
    requires forall vals: seq<Value> {:trigger ScaledSum(vals, scaled[from..])} ::
               Same(BytesVal(coefficient) * Val(BvAt(vals, base)) + ScaledSum(vals, scaled[to..]),
                    ScaledSum(vals, scaled[from..]), width)
    requires forall env: Env {:trigger Eval(now, env)} ::
               Same(SumOf(Eval(now, env), terms), BytesVal(coefficient) * Val(BvAt(Eval(now, env), base)), width)
    ensures AllBv(now, done + terms, width)
    ensures forall env: Env {:trigger Eval(now, env)} ::
              Same(SumOf(Eval(now, env), done + terms) + ScaledSum(Eval(was, env), scaled[to..]),
                   ScaledSum(Eval(was, env), scaled), width)
  {
    hide Eval, WellFormed, Val, BytesVal, FromInt, SumOf, ScaledSum, ProductOf;
    forall env: Env
      ensures Same(SumOf(Eval(now, env), done + terms) + ScaledSum(Eval(was, env), scaled[to..]),
                   ScaledSum(Eval(was, env), scaled), width)
    {
      var vals := Eval(was, env);
      assert vals <= Eval(mid, env) && Eval(mid, env) <= Eval(now, env);
      SumAppend(Eval(now, env), done, terms);
      SumKept(Eval(mid, env), Eval(now, env), done);
      var d, e, c :=
          SumOf(Eval(mid, env), done), SumOf(Eval(now, env), terms), BytesVal(coefficient) * Val(BvAt(vals, base));
      var r1, r2 := ScaledSum(vals, scaled[from..]), ScaledSum(vals, scaled[to..]);
      assert BvAt(Eval(now, env), base) == BvAt(vals, base);
      SameAdd(e, c, r2, r2, width);
      SameAdd(d, d, e + r2, r1, width);
    }
  }

  lemma {:induction false} FlattenedPair(nodes: seq<Node>, op: BinaryOp, a: TermId, b: TermId)
    requires WellFormed(nodes) && SameBv(nodes, |nodes|, a, b)
    ensures var terms := Flattened(nodes, op, a) + Flattened(nodes, op, b);
            && AllBv(nodes, terms, Width(nodes, a))
            && (op.OpAdd? ==> forall env: Env {:trigger Eval(nodes, env)} ::
                  FromInt(SumOf(Eval(nodes, env), terms), Width(nodes, a)) ==
                    BvAdd(BvAt(Eval(nodes, env), a), BvAt(Eval(nodes, env), b)))
            && (op.OpMul? ==> forall env: Env {:trigger Eval(nodes, env)} ::
                  FromInt(ProductOf(Eval(nodes, env), terms), Width(nodes, a)) ==
                    BvMul(BvAt(Eval(nodes, env), a), BvAt(Eval(nodes, env), b)))
  {
    hide Eval, WellFormed, FromInt, Val, SumOf, ProductOf, Flattened;
    FlattenedShape(nodes, op, a);
    FlattenedShape(nodes, op, b);
    var s, t := Flattened(nodes, op, a), Flattened(nodes, op, b);
    forall env: Env
      ensures op.OpAdd? ==>
                FromInt(SumOf(Eval(nodes, env), s + t), Width(nodes, a)) ==
                  BvAdd(BvAt(Eval(nodes, env), a), BvAt(Eval(nodes, env), b))
      ensures op.OpMul? ==>
                FromInt(ProductOf(Eval(nodes, env), s + t), Width(nodes, a)) ==
                  BvMul(BvAt(Eval(nodes, env), a), BvAt(Eval(nodes, env), b))
    {
      var vals := Eval(nodes, env);
      FlattenedValue(nodes, op, a, env);
      FlattenedValue(nodes, op, b, env);
      SumAppend(vals, s, t);
      ResidueOps(SumOf(vals, s), SumOf(vals, t), Width(nodes, a));
      ResidueOps(ProductOf(vals, s), ProductOf(vals, t), Width(nodes, a));
    }
  }

  lemma {:induction false} CanonicalSum(was: seq<Node>, mid: seq<Node>, late: seq<Node>, now: seq<Node>, a: TermId,
                                        b: TermId, terms: seq<TermId>, constant: seq<Byte>, nonConst: seq<TermId>,
                                        scaled: seq<Scaled>, grouped: seq<TermId>, all: seq<TermId>, sum: TermId,
                                        width: nat)
    requires WellFormed(was) && WellFormed(now) && SameBv(was, |was|, a, b) && Width(was, a) == width
    requires IsBv(now, |now|, sum) && Width(now, sum) == width
    requires forall env: Env {:trigger Eval(was, env)} ::
               FromInt(SumOf(Eval(was, env), terms), width) == BvAdd(BvAt(Eval(was, env), a), BvAt(Eval(was, env), b))
    requires forall env: Env {:trigger Eval(was, env)} ::
               Same(BytesVal(constant) + SumOf(Eval(was, env), nonConst), SumOf(Eval(was, env), terms), width)
    requires forall env: Env {:trigger Eval(was, env)} ::
               Same(ScaledSum(Eval(was, env), scaled), SumOf(Eval(was, env), nonConst), width)
    requires forall env: Env {:trigger Eval(mid, env)} ::
               Same(SumOf(Eval(mid, env), grouped), ScaledSum(Eval(was, env), SortScaled(scaled)), width)
    requires forall env: Env {:trigger Eval(late, env)} ::
               TotalOf(OpAdd, Eval(late, env), all) ==
                 Combined(OpAdd, BytesVal(constant), TotalOf(OpAdd, Eval(mid, env), grouped))
    requires forall env: Env {:trigger Eval(now, env)} ::
               BvAt(Eval(now, env), sum) == FromInt(TotalOf(OpAdd, Eval(late, env), all), width)
    ensures Denotes(was, now, sum, BinaryBv(OpAdd, a, b))
  {
    hide Eval, WellFormed, FromInt, Val, SumOf, ScaledSum, SortScaled, BytesVal, BvAdd;
    forall env: Env ensures Eval(now, env)[sum] == KindValue(BinaryBv(OpAdd, a, b), 0, env, Eval(was, env)) {
      VectorValue(now, env, sum);
      SortScaledKeeps(Eval(was, env), scaled);
      var g, s, n, c :=
          SumOf(Eval(mid, env), grouped), ScaledSum(Eval(was, env), scaled), SumOf(Eval(was, env), nonConst),
          BytesVal(constant);
      assert Same(g, s, width) && Same(s, n, width);
      SameAdd(g, n, c, c, width);
      assert TotalOf(OpAdd, Eval(late, env), all) == g + c;
    }
  }

  // --------------------------------------------------------------------- canonical products

  /** Separates the constant factors, multiplied, from the others; stops at a zero. */
  method SplitFactors(nodes: seq<Node>, terms: seq<TermId>, width: nat)
      returns (zero: bool, constant: seq<Byte>, factors: seq<TermId>)
    requires WellFormed(nodes) && AllBv(nodes, terms, width) && ValidWidth(width)
    ensures zero ==> forall env: Env {:trigger Eval(nodes, env)} :: ProductOf(Eval(nodes, env), terms) == 0
    ensures !zero ==> Normalized(constant, width) && AllBv(nodes, factors, width)
    ensures !zero ==> forall env: Env {:trigger Eval(nodes, env)} ::
              Same(ProductOf(Eval(nodes, env), factors) * BytesVal(constant), ProductOf(Eval(nodes, env), terms), width)
  {
    hide Eval, WellFormed, Normalized, Decoded, Val, BytesVal, FromInt, ProductOf, Same, OneBytes, AllZero, SumOf;
    OneBytesValue(width);
    zero, constant, factors := false, OneBytes(width), [];
    FactorStart(nodes, terms, constant, width);
    for i := 0 to |terms|
      invariant Normalized(constant, width) && AllBv(nodes, factors, width)
      invariant forall env: Env {:trigger Eval(nodes, env)} ::
                  Same(ProductOf(Eval(nodes, env), factors) * BytesVal(constant),
                       ProductOf(Eval(nodes, env), terms[..i]), width)
    {
      ghost var was, before := constant, factors;
      if IsConst(nodes, terms[i]) {
        ConstNormalized(nodes, terms[i]);
        if AllZero(ConstBytesOf(nodes, terms[i])) {
          forall env: Env ensures ProductOf(Eval(nodes, env), terms) == 0 { ZeroFactor(nodes, terms, i, env); }
          return true, constant, factors;
        }
        constant := MulBytes(constant, ConstBytesOf(nodes, terms[i]), width) by { NormalizedSized(constant, width); }
        CoefficientProduct(was, ConstBytesOf(nodes, terms[i]), constant, width);
        forall env: Env
          ensures Same(ProductOf(Eval(nodes, env), factors) * BytesVal(constant),
                       ProductOf(Eval(nodes, env), terms[..i + 1]), width)
        {
          FactorConst(nodes, terms, i, width, was, constant, factors, env);
        }
      } else {
        factors := factors + [terms[i]];
        forall env: Env
          ensures Same(ProductOf(Eval(nodes, env), factors) * BytesVal(constant),
                       ProductOf(Eval(nodes, env), terms[..i + 1]), width)
        {
          FactorOther(nodes, terms, i, width, constant, before, env);
        }
      }
    }
    assert terms[..|terms|] == terms;
  }

  lemma {:induction false} FactorStart(nodes: seq<Node>, terms: seq<TermId>, constant: seq<Byte>, width: nat)
    requires BytesVal(constant) == 1
    ensures forall env: Env {:trigger Eval(nodes, env)} ::
              Same(ProductOf(Eval(nodes, env), []) * BytesVal(constant), ProductOf(Eval(nodes, env), terms[..0]), width)
  {
    hide Eval, FromInt, Val, BytesVal;
  }

  lemma {:induction false} ZeroFactor(nodes: seq<Node>, terms: seq<TermId>, i: nat, env: Env)
    requires WellFormed(nodes) && i < |terms| && IsZero(nodes, terms[i])
    ensures ProductOf(Eval(nodes, env), terms) == 0
  {
    hide Eval, WellFormed, Val, AllZero;
    var vals := Eval(nodes, env);
    ZeroTerm(nodes, env, terms[i]);
    assert terms == terms[..i] + ([terms[i]] + terms[i + 1..]);
    SumAppend(vals, terms[..i], [terms[i]] + terms[i + 1..]);
    SumAppend(vals, [terms[i]], terms[i + 1..]);
    SumSnoc(vals, [], terms[i]);
    assert [] + [terms[i]] == [terms[i]];
    hide ProductOf;
    Selected(ProductOf(vals, [terms[i]]), ProductOf(vals, terms[i + 1..]));
    assert ProductOf(vals, terms[..i]) * 0 == 0;
  }

  lemma {:induction false} FactorConst(nodes: seq<Node>, terms: seq<TermId>, i: nat, width: nat, was: seq<Byte>,
                                       now: seq<Byte>, factors: seq<TermId>, env: Env)
    requires WellFormed(nodes) && i < |terms| && IsConst(nodes, terms[i]) && Width(nodes, terms[i]) == width
    requires Same(ProductOf(Eval(nodes, env), factors) * BytesVal(was), ProductOf(Eval(nodes, env), terms[..i]), width)
    requires Same(BytesVal(now), BytesVal(was) * BytesVal(ConstBytesOf(nodes, terms[i])), width)
    ensures Same(ProductOf(Eval(nodes, env), factors) * BytesVal(now), ProductOf(Eval(nodes, env), terms[..i + 1]),
                 width)
  {
    hide Eval, WellFormed, Normalized, Decoded, Val, BytesVal, FromInt, ProductOf;
    var vals := Eval(nodes, env);
    ConstValue(nodes, env, terms[i]);
    NormalizedVal(ConstBytesOf(nodes, terms[i]), width);
    assert terms[..i + 1] == terms[..i] + [terms[i]];
    SumSnoc(vals, terms[..i], terms[i]);
    var c, p := BytesVal(ConstBytesOf(nodes, terms[i])), ProductOf(vals, factors);
    SameMul(p, p, BytesVal(now), BytesVal(was) * c, width);
    SameMul(p * BytesVal(was), ProductOf(vals, terms[..i]), c, c, width);
    Associate(p, BytesVal(was), c);
  }

  lemma {:induction false} FactorOther(nodes: seq<Node>, terms: seq<TermId>, i: nat, width: nat, constant: seq<Byte>,
                                       before: seq<TermId>, env: Env)
    requires i < |terms|
    requires Same(ProductOf(Eval(nodes, env), before) * BytesVal(constant), ProductOf(Eval(nodes, env), terms[..i]),
                  width)
    ensures Same(ProductOf(Eval(nodes, env), before + [terms[i]]) * BytesVal(constant),
                 ProductOf(Eval(nodes, env), terms[..i + 1]), width)
  {
    hide Eval, Val, BytesVal, FromInt, ProductOf;
    var vals := Eval(nodes, env);
    assert terms[..i + 1] == terms[..i] + [terms[i]];
    SumSnoc(vals, terms[..i], terms[i]);
    SumSnoc(vals, before, terms[i]);
    var v, p, c := Val(BvAt(vals, terms[i])), ProductOf(vals, before), BytesVal(constant);
    SameMul(p * c, ProductOf(vals, terms[..i]), v, v, width);
    assert (p * v) * c == (p * c) * v by { Associate(p, v, c); Associate(p, c, v); assert v * c == c * v; }
  }

  lemma {:induction false} ZeroProduct(nodes: seq<Node>, a: TermId, b: TermId, terms: seq<TermId>, width: nat)
    requires SameBv(nodes, |nodes|, a, b)
    requires forall env: Env {:trigger Eval(nodes, env)} ::
               FromInt(ProductOf(Eval(nodes, env), terms), width) ==
                 BvMul(BvAt(Eval(nodes, env), a), BvAt(Eval(nodes, env), b))
    requires forall env: Env {:trigger Eval(nodes, env)} :: ProductOf(Eval(nodes, env), terms) == 0
    ensures Always(nodes, BinaryBv(OpMul, a, b), BvValue(Zeros(width)))
  {
    hide Eval, FromInt, BvMul, ProductOf;
    ValZeros(width);
  }

  lemma {:induction false} CanonicalProduct(was: seq<Node>, late: seq<Node>, now: seq<Node>, a: TermId, b: TermId,
                                            terms: seq<TermId>, constant: seq<Byte>, factors: seq<TermId>,
                                            all: seq<TermId>, product: TermId, width: nat)
    requires WellFormed(was) && WellFormed(now) && SameBv(was, |was|, a, b) && Width(was, a) == width
    requires IsBv(now, |now|, product) && Width(now, product) == width
    requires forall env: Env {:trigger Eval(was, env)} ::
               FromInt(ProductOf(Eval(was, env), terms), width) ==
                 BvMul(BvAt(Eval(was, env), a), BvAt(Eval(was, env), b))
    requires forall env: Env {:trigger Eval(was, env)} ::
               Same(ProductOf(Eval(was, env), factors) * BytesVal(constant), ProductOf(Eval(was, env), terms), width)
    requires forall env: Env {:trigger Eval(late, env)} ::
               TotalOf(OpMul, Eval(late, env), all) ==
                 Combined(OpMul, BytesVal(constant), TotalOf(OpMul, Eval(was, env), factors))
    requires forall env: Env {:trigger Eval(now, env)} ::
               BvAt(Eval(now, env), product) == FromInt(TotalOf(OpMul, Eval(late, env), all), width)
    ensures Denotes(was, now, product, BinaryBv(OpMul, a, b))
  {
    hide Eval, WellFormed, FromInt, ProductOf, BytesVal, BvMul;
    forall env: Env ensures Eval(now, env)[product] == KindValue(BinaryBv(OpMul, a, b), 0, env, Eval(was, env)) {
      VectorValue(now, env, product);
      assert TotalOf(OpMul, Eval(late, env), all) == ProductOf(Eval(was, env), factors) * BytesVal(constant);
    }
  }

  lemma {:induction false} ShiftedSameSteps(first: seq<Node>, n0: seq<Node>, n1: seq<Node>, n2: seq<Node>,
                                            n3: seq<Node>, n4: seq<Node>, shiftedTerm: TermId, value: TermId,
                                            amount: TermId, width: nat, one: TermId, shifted: TermId, factor: TermId,
                                            r: TermId)
    requires Extended(first, n0) && ValidWidth(width) && IsBv(first, |first|, value) && Width(first, value) == width
    requires shiftedTerm < |first| && first[shiftedTerm].kind == BinaryBv(OpShl, value, amount)
    requires Builds(n0, n1, Ok(one), ConstBv(width, OneBytes(width)))
    requires Builds(n1, n2, Ok(shifted), BinaryBv(OpShl, one, amount))
    requires Builds(n2, n3, Ok(factor), BinaryBv(OpAdd, one, shifted))
    requires Builds(n3, n4, Ok(r), BinaryBv(OpMul, value, factor))
    requires IsBv(n4, |n4|, r) && Width(n4, r) == width
    ensures Builds(first, n4, Ok(r), BinaryBv(OpAdd, value, shiftedTerm))
  {
    hide Eval, WellFormed, SortOf, OneBytes, Decoded, FromInt, Val, BvShl, BvAdd, BvMul;
    ExtendedAgain(first, n0, n1);
    ExtendedAgain(first, n1, n2);
    ExtendedAgain(first, n2, n3);
    ExtendedAgain(first, n3, n4);
    ExtendedAgain(n1, n2, n3);
    ghost var env0: Env := Env(_ => false, _ => 0);
    BinaryTermValue(first, env0, shiftedTerm);
    BinarySort(first, OpAdd, value, shiftedTerm);
    OneBytesValue(width);
    forall env: Env
      ensures Eval(n4, env)[r] == KindValue(BinaryBv(OpAdd, value, shiftedTerm), 0, env, Eval(first, env))
    {
      var e0, e1, e2, e3, e4 := Eval(first, env), Eval(n1, env), Eval(n2, env), Eval(n3, env), Eval(n4, env);
      assert e0 <= e1 <= e2 <= e3 <= e4;
      assert e1[one] == KindValue(ConstBv(width, OneBytes(width)), 0, env, Eval(n0, env));
      assert e2[shifted] == KindValue(BinaryBv(OpShl, one, amount), 0, env, e1);
      assert e3[factor] == KindValue(BinaryBv(OpAdd, one, shifted), 0, env, e2);
      assert e4[r] == KindValue(BinaryBv(OpMul, value, factor), 0, env, e3);
      BinaryTermValue(first, env, shiftedTerm);
      Identities.ShiftedSame(BvAt(e0, value), BvAt(e0, amount), BvAt(e1, one));
    }
  }

  // --------------------------------------------------------------- slices and comparisons

  function ExtractRank(nodes: seq<Node>, x: TermId): nat {
    if x < |nodes| && (nodes[x].kind.ExtractBv? || nodes[x].kind.ConcatBv?) then x + 2 else 0
  }

  /** The sort of a wiring request fits the width of its value. */
  lemma {:induction false} WiredSort(nodes: seq<Node>, k: NodeKind, x: Bv)
    requires WellFormed(nodes) && IsWiring(k) && SortOf(nodes, |nodes|, k).Some? && |x| == Width(nodes, k.child)
    ensures SortOf(nodes, |nodes|, k) == Some(BvSort(|WiredValue(k, x)|)) && ValidWidth(|WiredValue(k, x)|)
  {
    hide WellFormed;
    WidthPositive(nodes, k.child);
  }

  /** Requests the builder passes on unchanged. */
  predicate IsRaw(k: NodeKind) {
    match k
    case SelectBv(_, _) => true
    case NegOverflows(_) => true
    case CompareBv(op, _, _) => !op.CmpEq? && !IsOrder(op)
    case BinaryBv(op, _, _) => op.OpSDiv? || op.OpSRem? || op.OpSMod?
    case _ => false
  }

  predicate IsOrder(op: CompareOp) { op.CmpUlt? || op.CmpUle? || op.CmpSlt? || op.CmpSle? }

  lemma {:induction false} BuildsShape(was: seq<Node>, now: seq<Node>, r: Result<TermId>, k: NodeKind)
    requires Builds(was, now, r, k)
    ensures Extended(was, now) && (r.Ok? <==> SortOf(was, |was|, k).Some?) && (r.Ok? ==> r.value < |now|)
  {}

  /** Negating the answer to a Bool request. */
  lemma {:induction false} NegatedRequest(n0: seq<Node>, n1: seq<Node>, n2: seq<Node>, eq: Result<TermId>,
                                          r: Result<TermId>, k: NodeKind)
    requires Builds(n0, n1, eq, k) && eq.Ok? && SortOf(n0, |n0|, k) == Some(BoolSort)
    requires Builds(n1, n2, r, NotBool(eq.value))
    requires k.CompareBv? || k.BinaryBool?
    ensures r.Ok? && Extended(n0, n2) && r.value < |n2|
    ensures forall env: Env {:trigger Eval(n2, env)} ::
              Eval(n2, env)[r.value] == BoolValue(!(KindValue(k, 0, env, Eval(n0, env)).b))
  {
    hide Eval, WellFormed;
    ExtendedAgain(n0, n1, n2);
    ConnectiveSort(n1, BoolAnd, eq.value, eq.value);
    forall env: Env ensures Eval(n2, env)[r.value] == BoolValue(!(KindValue(k, 0, env, Eval(n0, env)).b)) {
      assert Eval(n1, env)[eq.value] == KindValue(k, 0, env, Eval(n0, env));
      assert Eval(n2, env)[r.value] == KindValue(NotBool(eq.value), 0, env, Eval(n1, env));
    }
  }

  /** Constants weigh nothing, so comparing the child of an extension with a new constant is less work. */
  function CompareWeight(nodes: seq<Node>, x: TermId): nat { if IsConst(nodes, x) then 0 else x + 1 }

  lemma {:induction false} SameConstants(nodes: seq<Node>, a: TermId, b: TermId)
    requires WellFormed(nodes) && SameBv(nodes, |nodes|, a, b) && IsConst(nodes, a) && IsConst(nodes, b)
    ensures var w := Width(nodes, a);
            ConstBytesOf(nodes, a) == ConstBytesOf(nodes, b) <==>
            CompareValue(CmpEq, Decoded(ConstBytesOf(nodes, a), w), Decoded(ConstBytesOf(nodes, b), w))
  {
    hide Eval, WellFormed, Normalized, Decoded;
    ConstValue(nodes, Env(_ => false, _ => 0), a);
    ConstValue(nodes, Env(_ => false, _ => 0), b);
    ComparedVectors(ConstBytesOf(nodes, a), ConstBytesOf(nodes, b), Width(nodes, a));
  }

  lemma {:induction false} DecidedEq(nodes: seq<Node>, a: TermId, b: TermId, value: bool)
    requires value ==>
               forall env: Env {:trigger Eval(nodes, env)} :: BvAt(Eval(nodes, env), a) == BvAt(Eval(nodes, env), b)
    requires !value ==>
               forall env: Env {:trigger Eval(nodes, env)} :: BvAt(Eval(nodes, env), a) != BvAt(Eval(nodes, env), b)
    ensures Always(nodes, CompareBv(CmpEq, a, b), BoolValue(value))
  {
    hide Eval;
  }

  /** The low bits of a constant, as a constant of the child's width. */
  method LowPart(bytes: seq<Byte>, childWidth: nat, width: nat) returns (low: seq<Byte>)
    requires 0 < childWidth <= width
    ensures Normalized(low, childWidth) && Decoded(low, childWidth) == Decoded(bytes, width)[..childWidth]
  {
    hide Normalized, Decoded, GetBit;
    low := ExtractBytes(bytes, 0, childWidth);
  }

  method InRangeBytes(bytes: seq<Byte>, low: seq<Byte>, signed: bool, childWidth: nat, extra: nat)
      returns (inRange: bool)
    requires childWidth > 0 && Normalized(bytes, childWidth + extra) && Normalized(low, childWidth)
    requires Decoded(low, childWidth) == Decoded(bytes, childWidth + extra)[..childWidth]
    ensures var full := Decoded(bytes, childWidth + extra);
            inRange == if signed then BvSignExtend(full[..childWidth], extra) == full
                       else full[childWidth..] == Zeros(extra)
  {
    hide Normalized, Decoded, GetBit, BvSignExtend;
    if signed {
      var extended := SextBytes(low, childWidth, extra);
      ComparedVectors(extended, bytes, childWidth + extra);
      inRange := extended == bytes;
    } else {
      HighBitsAreZero(bytes, childWidth, childWidth + extra);
      inRange := HighBitsZero(bytes, childWidth, childWidth + extra);
    }
  }

  lemma {:induction false} OutOfRange(nodes: seq<Node>, x: TermId, c: TermId, low: seq<Byte>)
    requires WellFormed(nodes) && ExtendedAgainst(nodes, x, c)
    requires var (k, cw, w) := (nodes[x].kind, Width(nodes, nodes[x].kind.child), nodes[c].kind.width);
             var full := Decoded(ConstBytesOf(nodes, c), w);
             && |full| == w && cw <= w && Decoded(low, cw) == full[..cw]
             && !(if k.signed then BvSignExtend(full[..cw], k.extra) == full else full[cw..] == Zeros(k.extra))
    ensures Always(nodes, CompareBv(CmpEq, x, c), BoolValue(false))
  {
    hide Eval, WellFormed, Decoded, BvSignExtend;
    ExtensionEqRule(nodes, x, c, low, false);
  }

  lemma {:induction false} VariableNormal(nodes: seq<Node>, k: NodeKind)
    requires IsVariable(k)
    ensures NodeNormal(nodes, k)
  {}
}
