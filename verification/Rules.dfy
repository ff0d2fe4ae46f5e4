/** The rewrite rules of the term builder, each with the reason it preserves meaning. */
module Rules {
  import opened BitVectors
  import opened Bytes
  import opened ByteOps
  import opened Wrappers
  import opened Ir
  import opened Terms
  import opened Identities
  import opened CircuitLemmas
  import opened Masks

  // ------------------------------------------------------------------- recognised terms

  predicate IsZero(nodes: seq<Node>, x: TermId) { IsConst(nodes, x) && AllZero(ConstBytesOf(nodes, x)) }

  predicate IsOneBytes(bytes: seq<Byte>) { bytes != [] && bytes[0] == 1 && AllZero(bytes[1..]) }

  predicate IsOne(nodes: seq<Node>, x: TermId) { IsConst(nodes, x) && IsOneBytes(ConstBytesOf(nodes, x)) }

  predicate IsAllOnes(nodes: seq<Node>, x: TermId) {
    IsConst(nodes, x) && ConstBytesOf(nodes, x) == ConstantBytes(nodes[x].kind.width, true)
  }

  predicate IsNotOf(nodes: seq<Node>, x: TermId, y: TermId) { x < |nodes| && nodes[x].kind == UnaryBv(OpNot, y) }

  predicate IsNegationPair(nodes: seq<Node>, a: TermId, b: TermId) { IsNotOf(nodes, a, b) || IsNotOf(nodes, b, a) }

  predicate IsBinary(nodes: seq<Node>, x: TermId, op: BinaryOp) {
    x < |nodes| && nodes[x].kind.BinaryBv? && nodes[x].kind.bop == op
  }

  /** `x` is an application of `op` with `y` as an operand. */
  predicate Contains(nodes: seq<Node>, op: BinaryOp, x: TermId, y: TermId) {
    IsBinary(nodes, x, op) && (nodes[x].kind.a == y || nodes[x].kind.b == y)
  }

  /** One operand is the other, shifted left by itself. */
  predicate SelfShiftPair(nodes: seq<Node>, a: TermId, b: TermId) {
    (a < |nodes| && nodes[a].kind == BinaryBv(OpShl, b, b)) || (b < |nodes| && nodes[b].kind == BinaryBv(OpShl, a, a))
  }

  predicate IsNeg(nodes: seq<Node>, x: TermId) { x < |nodes| && nodes[x].kind.UnaryBv? && nodes[x].kind.uop == OpNeg }

  // -------------------------------------------------------------- values of recognised terms

  lemma {:induction false} ZeroTerm(nodes: seq<Node>, env: Env, x: TermId)
    requires WellFormed(nodes) && IsZero(nodes, x)
    ensures var v := BvAt(Eval(nodes, env), x); v == Zeros(Width(nodes, x)) && Val(v) == 0
  {
    hide Eval, Normalized, Decoded, Val, AllZero;
    ConstValue(nodes, env, x);
    ZeroBytesVal(ConstBytesOf(nodes, x), Width(nodes, x));
    ValZeros(Width(nodes, x));
    ValInjective(BvAt(Eval(nodes, env), x), Zeros(Width(nodes, x)));
  }

  lemma {:induction false} NonzeroTerm(nodes: seq<Node>, env: Env, x: TermId)
    requires WellFormed(nodes) && IsConst(nodes, x) && !IsZero(nodes, x)
    ensures Val(BvAt(Eval(nodes, env), x)) != 0
  {
    hide Eval, Normalized, Decoded, Val, AllZero;
    ConstValue(nodes, env, x);
    ZeroBytesVal(ConstBytesOf(nodes, x), Width(nodes, x));
  }

  lemma {:induction false} OneTerm(nodes: seq<Node>, env: Env, x: TermId)
    requires WellFormed(nodes) && IsOne(nodes, x)
    ensures Val(BvAt(Eval(nodes, env), x)) == 1
  {
    hide Eval, Normalized, Decoded, Val;
    ConstValue(nodes, env, x);
    OneBytesVal(ConstBytesOf(nodes, x));
    NormalizedVal(ConstBytesOf(nodes, x), Width(nodes, x));
  }

  lemma {:induction false} OneBytesVal(bytes: seq<Byte>)
    requires IsOneBytes(bytes)
    ensures BytesVal(bytes) == 1
  {
    ZeroVal(|bytes| - 1);
    assert bytes[1..] == seq(|bytes| - 1, _ => 0);
  }

  lemma {:induction false} AllOnesTerm(nodes: seq<Node>, env: Env, x: TermId)
    requires WellFormed(nodes) && IsAllOnes(nodes, x)
    ensures BvAt(Eval(nodes, env), x) == Ones(Width(nodes, x))
  {
    hide Eval, Normalized, Decoded, ConstantBytes;
    ConstValue(nodes, env, x);
    ConstantBits(Width(nodes, x), true);
  }

  lemma {:induction false} UnaryTermValue(nodes: seq<Node>, env: Env, x: TermId)
    requires WellFormed(nodes) && x < |nodes| && nodes[x].kind.UnaryBv?
    ensures var (k, vals) := (nodes[x].kind, Eval(nodes, env));
            && IsBv(nodes, x, k.x) && IsBv(nodes, |nodes|, x) && Width(nodes, x) == Width(nodes, k.x)
            && BvAt(vals, x) == UnaryValue(k.uop, BvAt(vals, k.x))
            && |BvAt(vals, k.x)| == |BvAt(vals, x)| == Width(nodes, x) > 0
  {
    hide Eval, WellFormed, UnaryValue;
    NodeValue(nodes, env, x);
    VectorValue(nodes, env, x);
    VectorValue(nodes, env, nodes[x].kind.x);
  }

  lemma {:induction false} BinaryTermValue(nodes: seq<Node>, env: Env, x: TermId)
    requires WellFormed(nodes) && x < |nodes| && nodes[x].kind.BinaryBv?
    ensures var (k, vals) := (nodes[x].kind, Eval(nodes, env));
            && SameBv(nodes, x, k.a, k.b) && IsBv(nodes, |nodes|, x) && Width(nodes, x) == Width(nodes, k.a)
            && BvAt(vals, x) == BinaryValue(k.bop, BvAt(vals, k.a), BvAt(vals, k.b))
            && |BvAt(vals, k.a)| == |BvAt(vals, k.b)| == |BvAt(vals, x)| == Width(nodes, x) > 0
  {
    hide Eval, WellFormed, BinaryValue;
    NodeValue(nodes, env, x);
    VectorValue(nodes, env, x);
    VectorValue(nodes, env, nodes[x].kind.a);
    VectorValue(nodes, env, nodes[x].kind.b);
  }

  lemma {:induction false} OperandValues(nodes: seq<Node>, env: Env, a: TermId, b: TermId)
    requires WellFormed(nodes) && SameBv(nodes, |nodes|, a, b)
    ensures |BvAt(Eval(nodes, env), a)| == |BvAt(Eval(nodes, env), b)| == Width(nodes, a) && ValidWidth(Width(nodes, a))
  {
    hide Eval, WellFormed;
    VectorValue(nodes, env, a);
    VectorValue(nodes, env, b);
  }

  // ---------------------------------------------------------------- results of requests

  /** A vector term with the right value is the requested term. */
  lemma {:induction false} BinaryResult(nodes: seq<Node>, op: BinaryOp, a: TermId, b: TermId, id: TermId)
    requires WellFormed(nodes) && SameBv(nodes, |nodes|, a, b) && SameBv(nodes, |nodes|, a, id)
    requires forall env: Env {:trigger Eval(nodes, env)} ::
               BvAt(Eval(nodes, env), id) == BinaryValue(op, BvAt(Eval(nodes, env), a), BvAt(Eval(nodes, env), b))
    ensures Denotes(nodes, nodes, id, BinaryBv(op, a, b))
  {
    hide Eval, WellFormed, BinaryValue;
    forall env: Env ensures Eval(nodes, env)[id] == KindValue(BinaryBv(op, a, b), 0, env, Eval(nodes, env)) {
      VectorValue(nodes, env, id);
    }
  }

  lemma {:induction false} BinarySort(nodes: seq<Node>, op: BinaryOp, a: TermId, b: TermId)
    ensures SortOf(nodes, |nodes|, BinaryBv(op, a, b)) ==
              if SameBv(nodes, |nodes|, a, b) then Some(BvSort(Width(nodes, a))) else None
  {}

  lemma {:induction false} UnarySort(nodes: seq<Node>, op: UnaryOp, x: TermId)
    ensures SortOf(nodes, |nodes|, UnaryBv(op, x)) ==
              if IsBv(nodes, |nodes|, x) then Some(BvSort(Width(nodes, x))) else None
  {}

  predicate Commutative(op: BinaryOp) { op.OpAnd? || op.OpOr? || op.OpXor? || op.OpAdd? || op.OpMul? }

  lemma {:induction false} Commutes(nodes: seq<Node>, op: BinaryOp, a: TermId, b: TermId)
    requires WellFormed(nodes) && Commutative(op)
    ensures Equivalent(nodes, BinaryBv(op, a, b), BinaryBv(op, b, a))
  {
    hide Eval, WellFormed, BvAnd, BvOr, BvXor, BvAdd, BvMul;
    if SameBv(nodes, |nodes|, a, b) {
      forall env: Env
        ensures BinaryValue(op, BvAt(Eval(nodes, env), a), BvAt(Eval(nodes, env), b)) ==
                  BinaryValue(op, BvAt(Eval(nodes, env), b), BvAt(Eval(nodes, env), a))
      {
        OperandValues(nodes, env, a, b);
        BitwiseCommutes(BvAt(Eval(nodes, env), a), BvAt(Eval(nodes, env), b));
        ArithmeticCommutes(BvAt(Eval(nodes, env), a), BvAt(Eval(nodes, env), b));
      }
    }
  }

  /** Folding two constants. */
  lemma {:induction false} FoldedBinary(nodes: seq<Node>, op: BinaryOp, a: TermId, b: TermId, bytes: seq<Byte>)
    requires WellFormed(nodes) && SameBv(nodes, |nodes|, a, b) && IsConst(nodes, a) && IsConst(nodes, b)
    requires var w := Width(nodes, a);
             Decoded(bytes, w) ==
               BinaryValue(op, Decoded(ConstBytesOf(nodes, a), w), Decoded(ConstBytesOf(nodes, b), w))
    ensures Always(nodes, BinaryBv(op, a, b), BvValue(Decoded(bytes, Width(nodes, a))))
  {
    hide Eval, WellFormed, BinaryValue, Decoded, Normalized;
    forall env: Env
      ensures KindValue(BinaryBv(op, a, b), 0, env, Eval(nodes, env)) == BvValue(Decoded(bytes, Width(nodes, a)))
    {
      ConstValue(nodes, env, a);
      ConstValue(nodes, env, b);
    }
  }

  lemma {:induction false} FoldedUnary(nodes: seq<Node>, op: UnaryOp, x: TermId, bytes: seq<Byte>)
    requires WellFormed(nodes) && IsConst(nodes, x)
    requires Decoded(bytes, Width(nodes, x)) == UnaryValue(op, Decoded(ConstBytesOf(nodes, x), Width(nodes, x)))
    ensures Always(nodes, UnaryBv(op, x), BvValue(Decoded(bytes, Width(nodes, x))))
  {
    hide Eval, WellFormed, UnaryValue, Decoded, Normalized;
    forall env: Env
      ensures KindValue(UnaryBv(op, x), 0, env, Eval(nodes, env)) == BvValue(Decoded(bytes, Width(nodes, x)))
    {
      ConstValue(nodes, env, x);
    }
  }

  // ------------------------------------------------------------------------- unary rules

  lemma {:induction false} DoubleUnary(nodes: seq<Node>, op: UnaryOp, x: TermId)
    requires WellFormed(nodes) && x < |nodes| && nodes[x].kind.UnaryBv? && nodes[x].kind.uop == op
    ensures IsBv(nodes, |nodes|, x) && Denotes(nodes, nodes, nodes[x].kind.x, UnaryBv(op, x))
  {
    hide Eval, WellFormed, BvNeg;
    ghost var env0: Env := Env(_ => false, _ => 0);
    UnaryTermValue(nodes, env0, x);
    var inner := nodes[x].kind.x;
    forall env: Env ensures Eval(nodes, env)[inner] == KindValue(UnaryBv(op, x), 0, env, Eval(nodes, env)) {
      UnaryTermValue(nodes, env, x);
      VectorValue(nodes, env, inner);
      BitwiseSelf(BvAt(Eval(nodes, env), inner));
      NegNeg(BvAt(Eval(nodes, env), inner));
    }
  }

  // ----------------------------------------------------------------------- bitwise rules

  /** `x & x`, `x | x`. */
  lemma {:induction false} SelfRule(nodes: seq<Node>, op: BinaryOp, a: TermId)
    requires WellFormed(nodes) && IsBv(nodes, |nodes|, a) && (op.OpAnd? || op.OpOr?)
    ensures Denotes(nodes, nodes, a, BinaryBv(op, a, a))
  {
    hide Eval, WellFormed, BvAnd, BvOr;
    forall env: Env
      ensures BvAt(Eval(nodes, env), a) == BinaryValue(op, BvAt(Eval(nodes, env), a), BvAt(Eval(nodes, env), a))
    {
      BitwiseSelf(BvAt(Eval(nodes, env), a));
    }
    BinaryResult(nodes, op, a, a, a);
  }

  /** An operand that is constantly zero. */
  lemma {:induction false} ZeroRule(nodes: seq<Node>, op: BinaryOp, z: TermId, x: TermId)
    requires WellFormed(nodes) && SameBv(nodes, |nodes|, z, x) && IsZero(nodes, z)
    requires op.OpAnd? || op.OpOr? || op.OpXor? || op.OpAdd? || op.OpMul?
    ensures op.OpAnd? ==> Denotes(nodes, nodes, z, BinaryBv(op, z, x)) && Denotes(nodes, nodes, z, BinaryBv(op, x, z))
    ensures op.OpOr? || op.OpXor? || op.OpAdd? ==>
              Denotes(nodes, nodes, x, BinaryBv(op, z, x)) && Denotes(nodes, nodes, x, BinaryBv(op, x, z))
    ensures op.OpMul? ==>
              Always(nodes, BinaryBv(op, z, x), BvValue(Zeros(Width(nodes, x))))
                && Always(nodes, BinaryBv(op, x, z), BvValue(Zeros(Width(nodes, x))))
  {
    hide Eval, WellFormed, BvAnd, BvOr, BvXor, BvAdd, BvMul, BvSub, Val, AllZero;
    forall env: Env
      ensures var (u, v) := (BvAt(Eval(nodes, env), z), BvAt(Eval(nodes, env), x));
              var r := BinaryValue(op, u, v);
              r == BinaryValue(op, v, u) && (op.OpAnd? ==> r == u) && (op.OpOr? || op.OpXor? || op.OpAdd? ==> r == v)
              && (op.OpMul? ==> r == Zeros(Width(nodes, x)))
    {
      var u, v := BvAt(Eval(nodes, env), z), BvAt(Eval(nodes, env), x);
      OperandValues(nodes, env, z, x);
      ZeroTerm(nodes, env, z);
      BitwiseCommutes(u, v);
      ArithmeticCommutes(u, v);
      BitwiseUnits(v);
      ArithmeticUnits(u, v);
    }
    var id := if op.OpAnd? then z else x;
    if !op.OpMul? {
      BinaryResult(nodes, op, z, x, id);
      BinaryResult(nodes, op, x, z, id);
    }
  }

  /** An operand with all bits set. */
  lemma {:induction false} OnesRule(nodes: seq<Node>, op: BinaryOp, o: TermId, x: TermId)
    requires WellFormed(nodes) && SameBv(nodes, |nodes|, o, x) && IsAllOnes(nodes, o)
    requires op.OpAnd? || op.OpOr? || op.OpMul?
    ensures op.OpAnd? ==> Denotes(nodes, nodes, x, BinaryBv(op, o, x)) && Denotes(nodes, nodes, x, BinaryBv(op, x, o))
    ensures op.OpOr? ==> Denotes(nodes, nodes, o, BinaryBv(op, o, x)) && Denotes(nodes, nodes, o, BinaryBv(op, x, o))
    ensures op.OpMul? ==>
              Equivalent(nodes, UnaryBv(OpNeg, x), BinaryBv(op, o, x))
                && Equivalent(nodes, UnaryBv(OpNeg, x), BinaryBv(op, x, o))
  {
    hide Eval, WellFormed, BvAnd, BvOr, BvXor, BvAdd, BvMul, BvNeg, BvSub, ConstantBytes;
    forall env: Env
      ensures var (u, v) := (BvAt(Eval(nodes, env), o), BvAt(Eval(nodes, env), x));
              var r := BinaryValue(op, u, v);
              r == BinaryValue(op, v, u) && (op.OpAnd? ==> r == v) && (op.OpOr? ==> r == u)
                && (op.OpMul? ==> r == BvNeg(v))
    {
      var u, v := BvAt(Eval(nodes, env), o), BvAt(Eval(nodes, env), x);
      OperandValues(nodes, env, o, x);
      AllOnesTerm(nodes, env, o);
      BitwiseCommutes(u, v);
      ArithmeticCommutes(u, v);
      BitwiseUnits(v);
      OnesMul(v);
    }
    var id := if op.OpAnd? then x else o;
    if !op.OpMul? {
      BinaryResult(nodes, op, o, x, id);
      BinaryResult(nodes, op, x, o, id);
    }
  }

  /** A term and its complement. */
  lemma {:induction false} ComplementRule(nodes: seq<Node>, op: BinaryOp, a: TermId, b: TermId)
    requires WellFormed(nodes) && SameBv(nodes, |nodes|, a, b) && IsNegationPair(nodes, a, b)
    requires op.OpAnd? || op.OpOr? || op.OpXor?
    ensures Always(nodes, BinaryBv(op, a, b),
                   BvValue(if op.OpAnd? then Zeros(Width(nodes, a)) else Ones(Width(nodes, a))))
  {
    hide Eval, WellFormed, BvAnd, BvOr, BvXor, BvNot;
    forall env: Env
      ensures BinaryValue(op, BvAt(Eval(nodes, env), a), BvAt(Eval(nodes, env), b)) ==
                if op.OpAnd? then Zeros(Width(nodes, a)) else Ones(Width(nodes, a))
    {
      var u, v := BvAt(Eval(nodes, env), a), BvAt(Eval(nodes, env), b);
      OperandValues(nodes, env, a, b);
      BitwiseCommutes(u, v);
      if IsNotOf(nodes, a, b) {
        UnaryTermValue(nodes, env, a);
        BitwiseSelf(v);
      } else {
        UnaryTermValue(nodes, env, b);
        BitwiseSelf(u);
      }
    }
  }

  /** Terms that never share a bit. */
  lemma {:induction false} DisjointRule(nodes: seq<Node>, a: TermId, b: TermId)
    requires WellFormed(nodes) && SameBv(nodes, |nodes|, a, b) && NeverShare(nodes, a, b)
    ensures Always(nodes, BinaryBv(OpAnd, a, b), BvValue(Zeros(Width(nodes, a))))
    ensures Equivalent(nodes, BinaryBv(OpOr, a, b), BinaryBv(OpXor, a, b))
    ensures Equivalent(nodes, BinaryBv(OpOr, a, b), BinaryBv(OpAdd, a, b))
    ensures Equivalent(nodes, BinaryBv(OpAdd, a, b), BinaryBv(OpOr, a, b))
  {
    hide Eval, WellFormed, BvAnd, BvOr, BvXor, BvAdd, Disjoint;
    forall env: Env
      ensures var (u, v) := (BvAt(Eval(nodes, env), a), BvAt(Eval(nodes, env), b));
              BvAnd(u, v) == Zeros(Width(nodes, a)) && BvOr(u, v) == BvXor(u, v) == BvAdd(u, v)
    {
      OperandValues(nodes, env, a, b);
      DisjointAndXor(BvAt(Eval(nodes, env), a), BvAt(Eval(nodes, env), b));
      DisjointAdd(BvAt(Eval(nodes, env), a), BvAt(Eval(nodes, env), b));
    }
  }

  /** `(y | c) & y` and `(y & c) | y`. */
  lemma {:induction false} AbsorptionRule(nodes: seq<Node>, op: BinaryOp, x: TermId, y: TermId)
    requires WellFormed(nodes) && SameBv(nodes, |nodes|, x, y)
    requires (op.OpAnd? && Contains(nodes, OpOr, x, y)) || (op.OpOr? && Contains(nodes, OpAnd, x, y))
    ensures Denotes(nodes, nodes, y, BinaryBv(op, x, y)) && Denotes(nodes, nodes, y, BinaryBv(op, y, x))
  {
    hide Eval, WellFormed, BvAnd, BvOr;
    var k := nodes[x].kind;
    var other := if k.a == y then k.b else k.a;
    forall env: Env
      ensures var (u, v) := (BvAt(Eval(nodes, env), x), BvAt(Eval(nodes, env), y));
              v == BinaryValue(op, u, v) == BinaryValue(op, v, u)
    {
      var u, v, c := BvAt(Eval(nodes, env), x), BvAt(Eval(nodes, env), y), BvAt(Eval(nodes, env), other);
      BinaryTermValue(nodes, env, x);
      BitwiseCommutes(c, v);
      BitwiseCommutes(u, v);
      Absorption(v, c);
    }
    BinaryResult(nodes, op, x, y, y);
    BinaryResult(nodes, op, y, x, y);
  }

  lemma {:induction false} XorSelf(nodes: seq<Node>, a: TermId)
    requires WellFormed(nodes) && IsBv(nodes, |nodes|, a)
    ensures Always(nodes, BinaryBv(OpXor, a, a), BvValue(Zeros(Width(nodes, a))))
    ensures Always(nodes, BinaryBv(OpSub, a, a), BvValue(Zeros(Width(nodes, a))))
    ensures Always(nodes, BinaryBv(OpLShr, a, a), BvValue(Zeros(Width(nodes, a))))
  {
    hide Eval, WellFormed, BvXor, BvSub, BvLShr, BvAdd, BvMul;
    forall env: Env
      ensures var u := BvAt(Eval(nodes, env), a); BvXor(u, u) == BvSub(u, u) == BvLShr(u, u) == Zeros(Width(nodes, a))
    {
      var u := BvAt(Eval(nodes, env), a);
      OperandValues(nodes, env, a, a);
      BitwiseSelf(u);
      ArithmeticUnits(u, u);
      SelfShiftRight(u);
    }
  }

  /** x and x << x never share a bit, so their disjunction is their sum. */
  lemma {:induction false} SelfShiftRule(nodes: seq<Node>, a: TermId, b: TermId)
    requires WellFormed(nodes) && SameBv(nodes, |nodes|, a, b) && SelfShiftPair(nodes, a, b)
    ensures NeverShare(nodes, a, b)
  {
    hide Eval, WellFormed, BvShl, Disjoint;
    forall env: Env ensures Disjoint(BvAt(Eval(nodes, env), a), BvAt(Eval(nodes, env), b)) {
      if nodes[a].kind == BinaryBv(OpShl, b, b) {
        BinaryTermValue(nodes, env, a);
        SelfShiftDisjoint(BvAt(Eval(nodes, env), b));
      } else {
        BinaryTermValue(nodes, env, b);
        SelfShiftDisjoint(BvAt(Eval(nodes, env), a));
      }
    }
  }

  // -------------------------------------------------------------------- arithmetic rules

  lemma {:induction false} SubZero(nodes: seq<Node>, a: TermId, z: TermId)
    requires WellFormed(nodes) && SameBv(nodes, |nodes|, a, z) && IsZero(nodes, z)
    ensures Denotes(nodes, nodes, a, BinaryBv(OpSub, a, z))
    ensures IsZero(nodes, a) ==> Always(nodes, BinaryBv(OpSub, a, z), BvValue(Zeros(Width(nodes, a))))
  {
    hide Eval, WellFormed, BvSub, BvAdd, BvMul, AllZero;
    forall env: Env
      ensures var (u, v) := (BvAt(Eval(nodes, env), a), BvAt(Eval(nodes, env), z)); u == BvSub(u, v)
    {
      OperandValues(nodes, env, a, z);
      ZeroTerm(nodes, env, z);
      ArithmeticUnits(BvAt(Eval(nodes, env), z), BvAt(Eval(nodes, env), a));
    }
    BinaryResult(nodes, OpSub, a, z, a);
    if IsZero(nodes, a) {
      forall env: Env ensures BvAt(Eval(nodes, env), a) == Zeros(Width(nodes, a)) { ZeroTerm(nodes, env, a); }
    }
  }

  lemma {:induction false} MulOne(nodes: seq<Node>, o: TermId, x: TermId)
    requires WellFormed(nodes) && SameBv(nodes, |nodes|, o, x) && IsOne(nodes, o)
    ensures Denotes(nodes, nodes, x, BinaryBv(OpMul, o, x)) && Denotes(nodes, nodes, x, BinaryBv(OpMul, x, o))
  {
    hide Eval, WellFormed, BvMul, BvAdd, BvSub, IsOneBytes;
    forall env: Env
      ensures var (u, v) := (BvAt(Eval(nodes, env), o), BvAt(Eval(nodes, env), x)); v == BvMul(u, v) == BvMul(v, u)
    {
      OperandValues(nodes, env, o, x);
      OneTerm(nodes, env, o);
      ArithmeticUnits(BvAt(Eval(nodes, env), o), BvAt(Eval(nodes, env), x));
      ArithmeticCommutes(BvAt(Eval(nodes, env), o), BvAt(Eval(nodes, env), x));
    }
    BinaryResult(nodes, OpMul, o, x, x);
    BinaryResult(nodes, OpMul, x, o, x);
  }

  /** A two-step result: `outer` applied to the value of an inner request. */
  lemma {:induction false} ThenUnary(first: seq<Node>, mid: seq<Node>, last: seq<Node>, op: BinaryOp, x: TermId,
                                     y: TermId, p: TermId, outer: UnaryOp, r: Result<TermId>, k: NodeKind)
    requires Builds(first, mid, Ok(p), BinaryBv(op, x, y)) && Builds(mid, last, r, UnaryBv(outer, p))
    requires SortOf(first, |first|, k) == SortOf(first, |first|, BinaryBv(op, x, y))
    requires forall env: Env {:trigger Eval(first, env)} ::
               KindValue(k, 0, env, Eval(first, env)) ==
                 BvValue(UnaryValue(outer, BinaryValue(op, BvAt(Eval(first, env), x), BvAt(Eval(first, env), y))))
    ensures r.Ok? && Builds(first, last, r, k)
  {
    hide Eval, WellFormed, UnaryValue, BinaryValue;
    ExtendedAgain(first, mid, last);
    forall env: Env ensures Eval(last, env)[r.value] == KindValue(k, 0, env, Eval(first, env)) {
      assert Eval(mid, env)[p] == KindValue(BinaryBv(op, x, y), 0, env, Eval(first, env));
      assert Eval(last, env)[r.value] == KindValue(UnaryBv(outer, p), 0, env, Eval(mid, env));
    }
  }

  lemma {:induction false} ThenBinary(first: seq<Node>, mid: seq<Node>, last: seq<Node>, op: BinaryOp, x: TermId,
                                      y: TermId, p: TermId, outer: BinaryOp, z: TermId, r: Result<TermId>, k: NodeKind)
    requires Builds(first, mid, Ok(p), BinaryBv(op, x, y)) && Builds(mid, last, r, BinaryBv(outer, p, z))
    requires SameBv(first, |first|, x, z)
    requires SortOf(first, |first|, k) == SortOf(first, |first|, BinaryBv(op, x, y))
    requires forall env: Env {:trigger Eval(first, env)} ::
               KindValue(k, 0, env, Eval(first, env)) ==
               BvValue(BinaryValue(outer, BinaryValue(op, BvAt(Eval(first, env), x), BvAt(Eval(first, env), y)),
                                   BvAt(Eval(first, env), z)))
    ensures r.Ok? && Builds(first, last, r, k)
  {
    hide Eval, WellFormed, BinaryValue;
    ExtendedAgain(first, mid, last);
    forall env: Env ensures r.Ok? && Eval(last, env)[r.value] == KindValue(k, 0, env, Eval(first, env)) {
      assert Eval(mid, env)[p] == KindValue(BinaryBv(op, x, y), 0, env, Eval(first, env));
      assert Eval(last, env) == Eval(last, env);
      EvalKept(first, mid, env);
    }
  }

  /** -x * y is -(x * y), on either side. */
  lemma {:induction false} MulNegRule(nodes: seq<Node>, a: TermId, b: TermId, left: bool)
    requires WellFormed(nodes) && SameBv(nodes, |nodes|, a, b) && IsNeg(nodes, if left then a else b)
    ensures var inner := nodes[if left then a else b].kind.x;
            && SameBv(nodes, |nodes|, a, inner)
            && forall env: Env {:trigger Eval(nodes, env)} ::
                 var (u, v, i) := (BvAt(Eval(nodes, env), a), BvAt(Eval(nodes, env), b), BvAt(Eval(nodes, env), inner));
                 BvMul(u, v) == BvNeg(if left then BvMul(i, v) else BvMul(u, i))
  {
    hide Eval, WellFormed, BvMul, BvNeg, BvAdd;
    var x := if left then a else b;
    var inner := nodes[x].kind.x;
    ghost var env0: Env := Env(_ => false, _ => 0);
    UnaryTermValue(nodes, env0, x);
    forall env: Env
      ensures var (u, v, i) := (BvAt(Eval(nodes, env), a), BvAt(Eval(nodes, env), b), BvAt(Eval(nodes, env), inner));
              BvMul(u, v) == BvNeg(if left then BvMul(i, v) else BvMul(u, i))
    {
      var u, v, i := BvAt(Eval(nodes, env), a), BvAt(Eval(nodes, env), b), BvAt(Eval(nodes, env), inner);
      OperandValues(nodes, env, a, b);
      UnaryTermValue(nodes, env, x);
      MulOfNeg(i, if left then v else u);
      ArithmeticCommutes(u, v);
      ArithmeticCommutes(u, i);
    }
  }

  /** (x << k) * y is (x * y) << k, on either side. */
  lemma {:induction false} MulShlRule(nodes: seq<Node>, a: TermId, b: TermId, left: bool)
    requires WellFormed(nodes) && SameBv(nodes, |nodes|, a, b) && IsBinary(nodes, if left then a else b, OpShl)
    ensures var k := nodes[if left then a else b].kind;
            && SameBv(nodes, |nodes|, a, k.a) && SameBv(nodes, |nodes|, a, k.b)
            && forall env: Env {:trigger Eval(nodes, env)} ::
                 var (u, v, i, j) :=
                     (BvAt(Eval(nodes, env), a), BvAt(Eval(nodes, env), b), BvAt(Eval(nodes, env), k.a),
                      BvAt(Eval(nodes, env), k.b));
                 BvMul(u, v) == BvShl(if left then BvMul(i, v) else BvMul(u, i), j)
  {
    hide Eval, WellFormed, BvMul, BvShl, BvAdd;
    var x := if left then a else b;
    var k := nodes[x].kind;
    ghost var env0: Env := Env(_ => false, _ => 0);
    BinaryTermValue(nodes, env0, x);
    forall env: Env
      ensures var (u, v, i, j) :=
                (BvAt(Eval(nodes, env), a), BvAt(Eval(nodes, env), b), BvAt(Eval(nodes, env), k.a),
                 BvAt(Eval(nodes, env), k.b));
              BvMul(u, v) == BvShl(if left then BvMul(i, v) else BvMul(u, i), j)
    {
      var u, v, i, j :=
          BvAt(Eval(nodes, env), a), BvAt(Eval(nodes, env), b), BvAt(Eval(nodes, env), k.a),
          BvAt(Eval(nodes, env), k.b);
      OperandValues(nodes, env, a, b);
      BinaryTermValue(nodes, env, x);
      MulOfShl(i, j, if left then v else u);
      ArithmeticCommutes(u, v);
      ArithmeticCommutes(u, i);
    }
  }

  lemma {:induction false} DivisionRule(nodes: seq<Node>, a: TermId, b: TermId)
    requires WellFormed(nodes) && SameBv(nodes, |nodes|, a, b)
    ensures IsZero(nodes, b) ==>
              Always(nodes, BinaryBv(OpUDiv, a, b), BvValue(Ones(Width(nodes, a))))
                && Denotes(nodes, nodes, a, BinaryBv(OpURem, a, b))
    ensures IsOne(nodes, b) ==>
              Denotes(nodes, nodes, a, BinaryBv(OpUDiv, a, b))
                && Always(nodes, BinaryBv(OpURem, a, b), BvValue(Zeros(Width(nodes, a))))
    ensures IsZero(nodes, a) ==> Always(nodes, BinaryBv(OpURem, a, b), BvValue(Zeros(Width(nodes, a))))
    ensures IsZero(nodes, a) && IsConst(nodes, b) && !IsZero(nodes, b) ==>
              Always(nodes, BinaryBv(OpUDiv, a, b), BvValue(Zeros(Width(nodes, a))))
  {
    hide Eval, WellFormed, BvUDiv, BvURem, IsOneBytes, AllZero, Val;
    forall env: Env
      ensures var (u, v) := (BvAt(Eval(nodes, env), a), BvAt(Eval(nodes, env), b));
              && (IsZero(nodes, b) ==> BvUDiv(u, v) == Ones(Width(nodes, a)) && BvURem(u, v) == u)
              && (IsOne(nodes, b) ==> BvUDiv(u, v) == u && BvURem(u, v) == Zeros(Width(nodes, a)))
              && (IsZero(nodes, a) ==> BvURem(u, v) == Zeros(Width(nodes, a)))
              && (IsZero(nodes, a) && IsConst(nodes, b) && !IsZero(nodes, b) ==> BvUDiv(u, v) == Zeros(Width(nodes, a)))
    {
      var u, v := BvAt(Eval(nodes, env), a), BvAt(Eval(nodes, env), b);
      OperandValues(nodes, env, a, b);
      if IsZero(nodes, b) { ZeroTerm(nodes, env, b); }
      if IsZero(nodes, a) { ZeroTerm(nodes, env, a); }
      if IsOne(nodes, b) { OneTerm(nodes, env, b); }
      if IsConst(nodes, b) && !IsZero(nodes, b) { NonzeroTerm(nodes, env, b); }
      DivisionUnits(u, v);
    }
    if IsZero(nodes, b) { BinaryResult(nodes, OpURem, a, b, a); }
    if IsOne(nodes, b) { BinaryResult(nodes, OpUDiv, a, b, a); }
  }

  // ------------------------------------------------------------------------- shift rules

  predicate IsShift(op: BinaryOp) { op.OpShl? || op.OpLShr? || op.OpAShr? }

  lemma {:induction false} ShiftOfZero(nodes: seq<Node>, op: BinaryOp, a: TermId, b: TermId)
    requires WellFormed(nodes) && SameBv(nodes, |nodes|, a, b) && IsZero(nodes, a) && (op.OpShl? || op.OpLShr?)
    ensures Always(nodes, BinaryBv(op, a, b), BvValue(Zeros(Width(nodes, a))))
  {
    hide Eval, WellFormed, BvShl, BvLShr, BvAShr, AllZero, Val;
    forall env: Env
      ensures BinaryValue(op, BvAt(Eval(nodes, env), a), BvAt(Eval(nodes, env), b)) == Zeros(Width(nodes, a))
    {
      OperandValues(nodes, env, a, b);
      ZeroTerm(nodes, env, a);
      ShiftUnits(BvAt(Eval(nodes, env), a), BvAt(Eval(nodes, env), b));
    }
  }

  /** What `ConstShiftAmount` returns. */
  ghost predicate AmountIs(nodes: seq<Node>, b: TermId, width: nat, amount: nat) {
    forall env: Env {:trigger Eval(nodes, env)} ::
      amount == if Val(BvAt(Eval(nodes, env), b)) < width then Val(BvAt(Eval(nodes, env), b)) else width
  }

  lemma {:induction false} ShiftByConst(nodes: seq<Node>, op: BinaryOp, a: TermId, b: TermId, amount: nat)
    requires WellFormed(nodes) && SameBv(nodes, |nodes|, a, b) && IsShift(op)
    requires AmountIs(nodes, b, Width(nodes, a), amount)
    ensures amount == 0 ==> Denotes(nodes, nodes, a, BinaryBv(op, a, b))
    ensures amount >= Width(nodes, a) && !op.OpAShr? ==>
              Always(nodes, BinaryBv(op, a, b), BvValue(Zeros(Width(nodes, a))))
  {
    hide Eval, WellFormed, BvShl, BvLShr, BvAShr, Val;
    ghost var env0: Env := Env(_ => false, _ => 0);
    OperandValues(nodes, env0, a, b);
    forall env: Env
      ensures var (u, v) := (BvAt(Eval(nodes, env), a), BvAt(Eval(nodes, env), b));
              && (amount == 0 ==> BinaryValue(op, u, v) == u)
              && (amount >= Width(nodes, a) && !op.OpAShr? ==> BinaryValue(op, u, v) == Zeros(Width(nodes, a)))
    {
      OperandValues(nodes, env, a, b);
      ShiftUnits(BvAt(Eval(nodes, env), a), BvAt(Eval(nodes, env), b));
    }
    if amount == 0 { BinaryResult(nodes, op, a, b, a); }
  }

  /** Shifting a constant by a constant, given the shifted bytes. */
  lemma {:induction false} FoldedShift(nodes: seq<Node>, op: BinaryOp, a: TermId, b: TermId, amount: nat,
                                       bytes: seq<Byte>)
    requires WellFormed(nodes) && SameBv(nodes, |nodes|, a, b) && IsShift(op)
    requires AmountIs(nodes, b, Width(nodes, a), amount) && IsConst(nodes, a)
    requires var (w, x) := (Width(nodes, a), Decoded(ConstBytesOf(nodes, a), Width(nodes, a)));
             Decoded(bytes, w) == match op
                                  case OpShl => Shifted(x, amount, w)
                                  case OpLShr => ShiftedRight(x, amount, false)
                                  case _ => ShiftedRight(x, amount, Msb(x))
    ensures Always(nodes, BinaryBv(op, a, b), BvValue(Decoded(bytes, Width(nodes, a))))
  {
    hide Eval, WellFormed, BvShl, BvLShr, BvAShr, Val, Shifted, ShiftedRight, Decoded, Normalized, Msb;
    forall env: Env
      ensures BinaryValue(op, BvAt(Eval(nodes, env), a), BvAt(Eval(nodes, env), b)) == Decoded(bytes, Width(nodes, a))
    {
      var x, y := BvAt(Eval(nodes, env), a), BvAt(Eval(nodes, env), b);
      OperandValues(nodes, env, a, b);
      ConstValue(nodes, env, a);
      ShlBits(x, y);
      LShrBits(x, y);
      AShrBits(x, y);
      if Val(y) >= |x| {
        Saturated(x, Val(y), amount, false);
        Saturated(x, Val(y), amount, Msb(x));
      }
    }
  }

  /** -x << k is -(x << k). */
  lemma {:induction false} ShlNegRule(nodes: seq<Node>, a: TermId, b: TermId)
    requires WellFormed(nodes) && SameBv(nodes, |nodes|, a, b) && IsNeg(nodes, a)
    ensures var inner := nodes[a].kind.x;
            && SameBv(nodes, |nodes|, inner, b)
            && forall env: Env {:trigger Eval(nodes, env)} ::
                 var (u, v, i) := (BvAt(Eval(nodes, env), a), BvAt(Eval(nodes, env), b), BvAt(Eval(nodes, env), inner));
                 BvShl(u, v) == BvNeg(BvShl(i, v))
  {
    hide Eval, WellFormed, BvShl, BvNeg;
    ghost var env0: Env := Env(_ => false, _ => 0);
    UnaryTermValue(nodes, env0, a);
    var inner := nodes[a].kind.x;
    forall env: Env
      ensures var (u, v, i) := (BvAt(Eval(nodes, env), a), BvAt(Eval(nodes, env), b), BvAt(Eval(nodes, env), inner));
              BvShl(u, v) == BvNeg(BvShl(i, v))
    {
      UnaryTermValue(nodes, env, a);
      ShlOfNeg(BvAt(Eval(nodes, env), inner), BvAt(Eval(nodes, env), b));
    }
  }

  /** Nested right shifts may be reordered. */
  lemma {:induction false} LShrSwapRule(nodes: seq<Node>, a: TermId, b: TermId)
    requires WellFormed(nodes) && SameBv(nodes, |nodes|, a, b) && IsBinary(nodes, a, OpLShr)
    ensures var k := nodes[a].kind;
            && SameBv(nodes, |nodes|, k.a, b) && SameBv(nodes, |nodes|, k.a, k.b)
            && forall env: Env {:trigger Eval(nodes, env)} ::
                 BvLShr(BvAt(Eval(nodes, env), a), BvAt(Eval(nodes, env), b)) ==
                 BvLShr(BvLShr(BvAt(Eval(nodes, env), k.a), BvAt(Eval(nodes, env), b)), BvAt(Eval(nodes, env), k.b))
  {
    hide Eval, WellFormed, BvLShr;
    ghost var env0: Env := Env(_ => false, _ => 0);
    BinaryTermValue(nodes, env0, a);
    var k := nodes[a].kind;
    forall env: Env
      ensures BvLShr(BvAt(Eval(nodes, env), a), BvAt(Eval(nodes, env), b)) ==
              BvLShr(BvLShr(BvAt(Eval(nodes, env), k.a), BvAt(Eval(nodes, env), b)), BvAt(Eval(nodes, env), k.b))
    {
      BinaryTermValue(nodes, env, a);
      LShrCommutes(BvAt(Eval(nodes, env), k.a), BvAt(Eval(nodes, env), k.b), BvAt(Eval(nodes, env), b));
    }
  }

  /** `shifted` is `value << k` for some k, and `value` is not a constant. */
  predicate ShiftedSamePair(nodes: seq<Node>, value: TermId, shifted: TermId) {
    shifted < |nodes| && IsBinary(nodes, shifted, OpShl) && nodes[shifted].kind.a == value && !IsConst(nodes, value)
  }
}
