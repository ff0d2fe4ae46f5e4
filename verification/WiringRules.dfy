/** Rewrite rules for slices, joins, extensions, choices, connectives and comparisons. */
module WiringRules {
  import opened BitVectors
  import opened Bytes
  import opened ByteOps
  import opened Wrappers
  import opened Ir
  import opened Terms
  import opened Rules
  import opened Identities
  import opened CircuitLemmas
  import opened Evaluator

  predicate IsWiring(k: NodeKind) { k.ExtractBv? || k.ExtendBv? || k.RepeatBv? || k.RotateBv? }

  lemma {:induction false} WiringValue(k: NodeKind, env: Env, vals: seq<Value>)
    requires IsWiring(k)
    ensures KindValue(k, 0, env, vals) == BvValue(WiredValue(k, BvAt(vals, k.child)))
  {}

  /** Slicing, extending, repeating or rotating a constant. */
  lemma {:induction false} FoldedWiring(nodes: seq<Node>, k: NodeKind, bytes: seq<Byte>, width: nat)
    requires WellFormed(nodes) && IsWiring(k) && IsConst(nodes, k.child)
    requires Decoded(bytes, width) == WiredValue(k, Decoded(ConstBytesOf(nodes, k.child), Width(nodes, k.child)))
    ensures Always(nodes, k, BvValue(Decoded(bytes, width)))
  {
    hide Eval, WellFormed, Decoded, Normalized, WiredValue;
    forall env: Env ensures KindValue(k, 0, env, Eval(nodes, env)) == BvValue(Decoded(bytes, width)) {
      WiringValue(k, env, Eval(nodes, env));
      ConstValue(nodes, env, k.child);
    }
  }

  /** Full slices and trivial extensions, repetitions and rotations change nothing. */
  lemma {:induction false} TrivialWiring(nodes: seq<Node>, k: NodeKind)
    requires WellFormed(nodes) && IsWiring(k) && SortOf(nodes, |nodes|, k).Some?
    requires match k
             case ExtractBv(c, high, low) => low == 0 && high + 1 == Width(nodes, c)
             case ExtendBv(_, _, extra) => extra == 0
             case RepeatBv(_, count) => count == 1
             case RotateBv(_, c, amount) => Width(nodes, c) > 0 && amount % Width(nodes, c) == 0
             case _ => false
    ensures Denotes(nodes, nodes, k.child, k)
  {
    hide Eval, WellFormed, BvExtract, BvSignExtend, BvZeroExtend, BvRepeat, BvRotateLeft, BvRotateRight;
    forall env: Env ensures Eval(nodes, env)[k.child] == KindValue(k, 0, env, Eval(nodes, env)) {
      VectorValue(nodes, env, k.child);
      var x := BvAt(Eval(nodes, env), k.child);
      WiringValue(k, env, Eval(nodes, env));
      ExtractAll(x);
      TrivialResizing(x);
      if k.RotateBv? { TrivialRotation(x, k.amount); }
    }
  }

  lemma {:induction false} RotateAmount(nodes: seq<Node>, left: bool, child: TermId, amount: nat)
    requires WellFormed(nodes) && IsBv(nodes, |nodes|, child)
    ensures Width(nodes, child) > 0
    ensures Equivalent(nodes, RotateBv(left, child, amount % Width(nodes, child)), RotateBv(left, child, amount))
  {
    hide Eval, WellFormed, BvRotateLeft, BvRotateRight;
    WidthPositive(nodes, child);
    forall env: Env
      ensures KindValue(RotateBv(left, child, amount % Width(nodes, child)), 0, env, Eval(nodes, env)) ==
                KindValue(RotateBv(left, child, amount), 0, env, Eval(nodes, env))
    {
      VectorValue(nodes, env, child);
      AmountModulo(BvAt(Eval(nodes, env), child), amount);
    }
  }

  // ------------------------------------------------------------------- slices and joins

  lemma {:induction false} ExtractSort(nodes: seq<Node>, c: TermId, high: nat, low: nat)
    ensures SortOf(nodes, |nodes|, ExtractBv(c, high, low)) ==
            if IsBv(nodes, |nodes|, c) && low <= high < Width(nodes, c) then Some(BvSort(high - low + 1)) else None
  {}

  lemma {:induction false} ConcatSort(nodes: seq<Node>, h: TermId, l: TermId)
    ensures SortOf(nodes, |nodes|, ConcatBv(h, l)) ==
            if IsBv(nodes, |nodes|, h) && IsBv(nodes, |nodes|, l) && ValidWidth(Width(nodes, h) + Width(nodes, l))
            then Some(BvSort(Width(nodes, h) + Width(nodes, l))) else None
  {}

  lemma {:induction false} ExtractNode(nodes: seq<Node>, env: Env, x: TermId)
    requires WellFormed(nodes) && x < |nodes| && nodes[x].kind.ExtractBv?
    ensures var (k, vals) := (nodes[x].kind, Eval(nodes, env));
            && IsBv(nodes, x, k.child) && k.low <= k.high < Width(nodes, k.child) && IsBv(nodes, |nodes|, x)
            && Width(nodes, x) == k.high - k.low + 1 && |BvAt(vals, k.child)| == Width(nodes, k.child)
            && BvAt(vals, x) == BvExtract(BvAt(vals, k.child), k.high, k.low)
  {
    hide Eval, WellFormed, BvExtract;
    NodeValue(nodes, env, x);
    VectorValue(nodes, env, nodes[x].kind.child);
  }

  lemma {:induction false} ConcatNode(nodes: seq<Node>, env: Env, x: TermId)
    requires WellFormed(nodes) && x < |nodes| && nodes[x].kind.ConcatBv?
    ensures var (k, vals) := (nodes[x].kind, Eval(nodes, env));
            && IsBv(nodes, x, k.highPart) && IsBv(nodes, x, k.lowPart) && IsBv(nodes, |nodes|, x)
            && ValidWidth(Width(nodes, x))
            && Width(nodes, x) == Width(nodes, k.highPart) + Width(nodes, k.lowPart)
            && |BvAt(vals, k.highPart)| == Width(nodes, k.highPart)
            && |BvAt(vals, k.lowPart)| == Width(nodes, k.lowPart) > 0
            && BvAt(vals, x) == BvConcat(BvAt(vals, k.highPart), BvAt(vals, k.lowPart))
  {
    hide Eval, WellFormed, BvConcat;
    NodeValue(nodes, env, x);
    VectorValue(nodes, env, nodes[x].kind.highPart);
    VectorValue(nodes, env, nodes[x].kind.lowPart);
  }

  /** A slice of a slice is one slice. */
  lemma {:induction false} ExtractExtractRule(nodes: seq<Node>, child: TermId, high: nat, low: nat)
    requires WellFormed(nodes) && IsBv(nodes, |nodes|, child) && low <= high < Width(nodes, child)
    requires nodes[child].kind.ExtractBv?
    ensures var k := nodes[child].kind;
            IsBv(nodes, child, k.child)
              && Equivalent(nodes, ExtractBv(k.child, k.low + high, k.low + low), ExtractBv(child, high, low))
  {
    hide Eval, WellFormed, BvExtract;
    var k := nodes[child].kind;
    ExtractNode(nodes, Env(_ => false, _ => 0), child);
    ExtractSort(nodes, child, high, low);
    ExtractSort(nodes, k.child, k.low + high, k.low + low);
    forall env: Env
      ensures KindValue(ExtractBv(k.child, k.low + high, k.low + low), 0, env, Eval(nodes, env)) ==
                KindValue(ExtractBv(child, high, low), 0, env, Eval(nodes, env))
    {
      ExtractNode(nodes, env, child);
      ExtractOfExtract(BvAt(Eval(nodes, env), k.child), k.high, k.low, high, low);
    }
  }

  /** A slice of a join that stays on one side is a slice of that side. */
  lemma {:induction false} ExtractConcatRule(nodes: seq<Node>, child: TermId, high: nat, low: nat)
    requires WellFormed(nodes) && IsBv(nodes, |nodes|, child) && low <= high < Width(nodes, child)
    requires nodes[child].kind.ConcatBv?
    ensures var (k, lw) := (nodes[child].kind, Width(nodes, nodes[child].kind.lowPart));
            && k.highPart < child && k.lowPart < child
            && (high < lw ==> Equivalent(nodes, ExtractBv(k.lowPart, high, low), ExtractBv(child, high, low)))
            && (low >= lw ==>
                  Equivalent(nodes, ExtractBv(k.highPart, high - lw, low - lw), ExtractBv(child, high, low)))
  {
    hide Eval, WellFormed, BvExtract, BvConcat;
    var k := nodes[child].kind;
    var lw := Width(nodes, k.lowPart);
    ConcatNode(nodes, Env(_ => false, _ => 0), child);
    ExtractSort(nodes, child, high, low);
    forall env: Env
      ensures high < lw ==>
                KindValue(ExtractBv(k.lowPart, high, low), 0, env, Eval(nodes, env)) ==
                  KindValue(ExtractBv(child, high, low), 0, env, Eval(nodes, env))
      ensures low >= lw ==>
                KindValue(ExtractBv(k.highPart, high - lw, low - lw), 0, env, Eval(nodes, env)) ==
                  KindValue(ExtractBv(child, high, low), 0, env, Eval(nodes, env))
    {
      ConcatNode(nodes, env, child);
      ExtractOfConcat(BvAt(Eval(nodes, env), k.highPart), BvAt(Eval(nodes, env), k.lowPart), high, low);
    }
    if high < lw { ExtractSort(nodes, k.lowPart, high, low); }
    if low >= lw { ExtractSort(nodes, k.highPart, high - lw, low - lw); }
  }

  /** A slice across the seam joins two slices. */
  lemma {:induction false} ExtractAcross(n0: seq<Node>, n1: seq<Node>, n2: seq<Node>, n3: seq<Node>, child: TermId,
                                         high: nat, low: nat, lowPart: TermId, highPart: TermId, r: TermId)
    requires WellFormed(n0) && IsBv(n0, |n0|, child) && low <= high < Width(n0, child) && n0[child].kind.ConcatBv?
    requires low < Width(n0, n0[child].kind.lowPart) <= high
    requires Builds(n0, n1, Ok(lowPart), ExtractBv(n0[child].kind.lowPart, Width(n0, n0[child].kind.lowPart) - 1, low))
    requires Builds(n1, n2, Ok(highPart),
                    ExtractBv(n0[child].kind.highPart, high - Width(n0, n0[child].kind.lowPart), 0))
    requires Builds(n2, n3, Ok(r), ConcatBv(highPart, lowPart)) && IsBv(n3, |n3|, r) && Width(n3, r) == high - low + 1
    ensures Builds(n0, n3, Ok(r), ExtractBv(child, high, low))
  {
    hide Eval, WellFormed, BvExtract, BvConcat, SortOf;
    var k := n0[child].kind;
    ExtendedAgain(n0, n1, n2);
    ExtendedAgain(n0, n2, n3);
    ExtractSort(n0, child, high, low);
    ConcatNode(n0, Env(_ => false, _ => 0), child);
    forall env: Env ensures Eval(n3, env)[r] == KindValue(ExtractBv(child, high, low), 0, env, Eval(n0, env)) {
      ConcatNode(n0, env, child);
      var e0, e1, e2, e3 := Eval(n0, env), Eval(n1, env), Eval(n2, env), Eval(n3, env);
      assert e0 <= e1 <= e2 <= e3;
      ExtractOfConcat(BvAt(e0, k.highPart), BvAt(e0, k.lowPart), high, low);
    }
  }

  /** Joining adjacent slices of one term. */
  lemma {:induction false} ConcatExtractsRule(nodes: seq<Node>, h: TermId, l: TermId)
    requires WellFormed(nodes) && h < |nodes| && l < |nodes| && nodes[h].kind.ExtractBv? && nodes[l].kind.ExtractBv?
    requires nodes[h].kind.child == nodes[l].kind.child && nodes[l].kind.high + 1 == nodes[h].kind.low
    requires SortOf(nodes, |nodes|, ConcatBv(h, l)).Some?
    ensures Equivalent(nodes, ExtractBv(nodes[h].kind.child, nodes[h].kind.high, nodes[l].kind.low), ConcatBv(h, l))
  {
    hide Eval, WellFormed, BvExtract, BvConcat;
    var (c, high, mid, low) := (nodes[h].kind.child, nodes[h].kind.high, nodes[l].kind.high, nodes[l].kind.low);
    ExtractNode(nodes, Env(_ => false, _ => 0), h);
    ExtractNode(nodes, Env(_ => false, _ => 0), l);
    ExtractSort(nodes, c, high, low);
    forall env: Env
      ensures KindValue(ExtractBv(c, high, low), 0, env, Eval(nodes, env)) ==
                KindValue(ConcatBv(h, l), 0, env, Eval(nodes, env))
    {
      ExtractNode(nodes, env, h);
      ExtractNode(nodes, env, l);
      ConcatOfExtracts(BvAt(Eval(nodes, env), c), high, mid, low);
    }
  }

  lemma {:induction false} FoldedConcat(nodes: seq<Node>, h: TermId, l: TermId, bytes: seq<Byte>)
    requires WellFormed(nodes) && IsConst(nodes, h) && IsConst(nodes, l)
    requires var (hw, lw) := (Width(nodes, h), Width(nodes, l));
             Decoded(bytes, hw + lw) ==
               BvConcat(Decoded(ConstBytesOf(nodes, h), hw), Decoded(ConstBytesOf(nodes, l), lw))
    ensures Always(nodes, ConcatBv(h, l), BvValue(Decoded(bytes, Width(nodes, h) + Width(nodes, l))))
  {
    hide Eval, WellFormed, Decoded, Normalized, BvConcat;
    forall env: Env
      ensures KindValue(ConcatBv(h, l), 0, env, Eval(nodes, env)) ==
                BvValue(Decoded(bytes, Width(nodes, h) + Width(nodes, l)))
    {
      ConstValue(nodes, env, h);
      ConstValue(nodes, env, l);
    }
  }

  // ----------------------------------------------------------------- choices, connectives

  predicate IsBoolConst(nodes: seq<Node>, x: TermId) { x < |nodes| && nodes[x].kind.ConstBool? }

  predicate IsBoolNot(nodes: seq<Node>, x: TermId, y: TermId) { x < |nodes| && nodes[x].kind == NotBool(y) }

  predicate IsBoolNegationPair(nodes: seq<Node>, a: TermId, b: TermId) {
    IsBoolNot(nodes, a, b) || IsBoolNot(nodes, b, a)
  }

  lemma {:induction false} BoolConstTruth(nodes: seq<Node>, env: Env, x: TermId)
    requires WellFormed(nodes) && IsBoolConst(nodes, x)
    ensures BoolAt(Eval(nodes, env), x) == nodes[x].kind.value && Eval(nodes, env)[x] == BoolValue(nodes[x].kind.value)
  {
    hide Eval, WellFormed;
    NodeValue(nodes, env, x);
  }

  lemma {:induction false} BoolNotTruth(nodes: seq<Node>, env: Env, x: TermId)
    requires WellFormed(nodes) && x < |nodes| && nodes[x].kind.NotBool?
    ensures IsBool(nodes, x, nodes[x].kind.x)
    ensures BoolAt(Eval(nodes, env), x) == !BoolAt(Eval(nodes, env), nodes[x].kind.x)
  {
    hide Eval, WellFormed;
    NodeValue(nodes, env, x);
  }

  /** A Bool term with the right truth value is the requested term. */
  lemma {:induction false} BoolResult(nodes: seq<Node>, id: TermId, k: NodeKind)
    requires WellFormed(nodes) && IsBool(nodes, |nodes|, id) && SortOf(nodes, |nodes|, k) == Some(BoolSort)
    requires forall env: Env {:trigger Eval(nodes, env)} ::
               KindValue(k, 0, env, Eval(nodes, env)) == BoolValue(BoolAt(Eval(nodes, env), id))
    ensures Denotes(nodes, nodes, id, k)
  {
    hide Eval, WellFormed, SortOf, KindValue;
    forall env: Env ensures Eval(nodes, env)[id] == KindValue(k, 0, env, Eval(nodes, env)) {
      TruthValue(nodes, env, id);
    }
  }

  lemma {:induction false} IteRule(nodes: seq<Node>, k: NodeKind, chosen: TermId)
    requires WellFormed(nodes) && (k.IteBv? || k.IteBool?) && SortOf(nodes, |nodes|, k).Some?
    requires (k.thenValue == k.elseValue == chosen)
             || (IsBoolConst(nodes, k.cond) && chosen == if nodes[k.cond].kind.value then k.thenValue else k.elseValue)
    ensures Denotes(nodes, nodes, chosen, k)
  {
    hide Eval, WellFormed;
    forall env: Env ensures Eval(nodes, env)[chosen] == KindValue(k, 0, env, Eval(nodes, env)) {
      if IsBoolConst(nodes, k.cond) { BoolConstTruth(nodes, env, k.cond); }
      if k.IteBv? { VectorValue(nodes, env, chosen); } else { TruthValue(nodes, env, chosen); }
    }
  }

  /** When every constant operand, repetition and complement is accounted for, the connective is a
      fixed truth value or one of its operands, possibly negated. */
  datatype BoolOutcome = IsTruth(value: bool) | IsTerm(id: TermId) | IsNegated(id: TermId)

  ghost predicate OutcomeHolds(nodes: seq<Node>, env: Env, o: BoolOutcome, truth: bool) {
    match o
    case IsTruth(v) => truth == v
    case IsTerm(id) => truth == BoolAt(Eval(nodes, env), id)
    case IsNegated(id) => truth == !BoolAt(Eval(nodes, env), id)
  }

  /** The simplifications of a connective, in the order they are tried. */
  function Simplified(nodes: seq<Node>, op: BoolOp, a: TermId, b: TermId): Option<BoolOutcome> {
    match op
    case BoolAnd =>
      if a == b then Some(IsTerm(a))
      else if IsBoolNegationPair(nodes, a, b) then Some(IsTruth(false))
      else if IsBoolConst(nodes, a) then Some(IsTerm(if nodes[a].kind.value then b else a))
      else if IsBoolConst(nodes, b) then Some(IsTerm(if nodes[b].kind.value then a else b))
      else None
    case BoolOr =>
      if a == b then Some(IsTerm(a))
      else if IsBoolNegationPair(nodes, a, b) then Some(IsTruth(true))
      else if IsBoolConst(nodes, a) then Some(IsTerm(if nodes[a].kind.value then a else b))
      else if IsBoolConst(nodes, b) then Some(IsTerm(if nodes[b].kind.value then b else a))
      else None
    case BoolImplies =>
      if a == b then Some(IsTruth(true))
      else if IsBoolConst(nodes, a) then Some(if nodes[a].kind.value then IsTerm(b) else IsTruth(true))
      else if IsBoolConst(nodes, b) then Some(if nodes[b].kind.value then IsTruth(true) else IsNegated(a))
      else None
    case BoolEq =>
      if a == b then Some(IsTruth(true))
      else if IsBoolNegationPair(nodes, a, b) then Some(IsTruth(false))
      else if IsBoolConst(nodes, a) && IsBoolConst(nodes, b)
      then Some(IsTruth(nodes[a].kind.value == nodes[b].kind.value))
      else None
  }

  lemma {:induction false} SimplifiedHolds(nodes: seq<Node>, op: BoolOp, a: TermId, b: TermId, env: Env)
    requires WellFormed(nodes) && IsBool(nodes, |nodes|, a) && IsBool(nodes, |nodes|, b)
    requires Simplified(nodes, op, a, b).Some?
    ensures OutcomeHolds(nodes, env, Simplified(nodes, op, a, b).value,
                         BoolOpValue(op, BoolAt(Eval(nodes, env), a), BoolAt(Eval(nodes, env), b)))
    ensures Simplified(nodes, op, a, b).value.IsTerm? || Simplified(nodes, op, a, b).value.IsNegated? ==>
              Simplified(nodes, op, a, b).value.id in {a, b}
  {
    hide Eval, WellFormed;
    if IsBoolConst(nodes, a) { BoolConstTruth(nodes, env, a); }
    if IsBoolConst(nodes, b) { BoolConstTruth(nodes, env, b); }
    if IsBoolNot(nodes, a, b) { BoolNotTruth(nodes, env, a); }
    if IsBoolNot(nodes, b, a) { BoolNotTruth(nodes, env, b); }
  }

  lemma {:induction false} ConnectiveSort(nodes: seq<Node>, op: BoolOp, a: TermId, b: TermId)
    ensures SortOf(nodes, |nodes|, BinaryBool(op, a, b)) ==
              if IsBool(nodes, |nodes|, a) && IsBool(nodes, |nodes|, b) then Some(BoolSort) else None
    ensures SortOf(nodes, |nodes|, NotBool(a)) == if IsBool(nodes, |nodes|, a) then Some(BoolSort) else None
  {}

  /** A simplified connective is the constant, the operand or its negation. */
  lemma {:induction false} SimplifiedRule(nodes: seq<Node>, op: BoolOp, a: TermId, b: TermId)
    requires WellFormed(nodes) && IsBool(nodes, |nodes|, a) && IsBool(nodes, |nodes|, b)
    requires Simplified(nodes, op, a, b).Some?
    ensures match Simplified(nodes, op, a, b).value
            case IsTruth(v) => Always(nodes, BinaryBool(op, a, b), BoolValue(v))
            case IsTerm(id) => Denotes(nodes, nodes, id, BinaryBool(op, a, b))
            case IsNegated(id) => Equivalent(nodes, NotBool(id), BinaryBool(op, a, b))
  {
    hide Eval, WellFormed, Simplified, BoolOpValue;
    ConnectiveSort(nodes, op, a, b);
    forall env: Env
      ensures OutcomeHolds(nodes, env, Simplified(nodes, op, a, b).value,
                           BoolOpValue(op, BoolAt(Eval(nodes, env), a), BoolAt(Eval(nodes, env), b)))
    {
      SimplifiedHolds(nodes, op, a, b, env);
    }
    SimplifiedHolds(nodes, op, a, b, Env(_ => false, _ => 0));
    var o := Simplified(nodes, op, a, b).value;
    if o.IsTerm? { BoolResult(nodes, o.id, BinaryBool(op, a, b)); }
    if o.IsNegated? { ConnectiveSort(nodes, op, o.id, o.id); }
  }

  predicate SymmetricBool(op: BoolOp) { !op.BoolImplies? }

  lemma {:induction false} BoolCommutes(nodes: seq<Node>, op: BoolOp, a: TermId, b: TermId)
    requires SymmetricBool(op)
    ensures Equivalent(nodes, BinaryBool(op, a, b), BinaryBool(op, b, a))
  {
    hide Eval;
  }

  lemma {:induction false} NotRule(nodes: seq<Node>, x: TermId)
    requires WellFormed(nodes) && IsBool(nodes, |nodes|, x)
    ensures IsBoolConst(nodes, x) ==> Always(nodes, NotBool(x), BoolValue(!nodes[x].kind.value))
    ensures nodes[x].kind.NotBool? ==> Denotes(nodes, nodes, nodes[x].kind.x, NotBool(x))
  {
    hide Eval, WellFormed;
    ConnectiveSort(nodes, BoolAnd, x, x);
    if IsBoolConst(nodes, x) {
      forall env: Env ensures BoolAt(Eval(nodes, env), x) == nodes[x].kind.value { BoolConstTruth(nodes, env, x); }
    }
    if nodes[x].kind.NotBool? {
      BoolNotTruth(nodes, Env(_ => false, _ => 0), x);
      forall env: Env
        ensures BoolAt(Eval(nodes, env), x) == !BoolAt(Eval(nodes, env), nodes[x].kind.x)
      {
        BoolNotTruth(nodes, env, x);
      }
      BoolResult(nodes, nodes[x].kind.x, NotBool(x));
    }
  }

  // ----------------------------------------------------------------------- comparisons

  lemma {:induction false} CompareSort(nodes: seq<Node>, op: CompareOp, a: TermId, b: TermId)
    ensures SortOf(nodes, |nodes|, CompareBv(op, a, b)) == if SameBv(nodes, |nodes|, a, b) then Some(BoolSort) else None
  {}

  /** A term compared with itself, or tested for equality with its complement. */
  lemma {:induction false} SelfCompareRule(nodes: seq<Node>, a: TermId)
    requires WellFormed(nodes) && IsBv(nodes, |nodes|, a)
    ensures Always(nodes, CompareBv(CmpEq, a, a), BoolValue(true))
    ensures Always(nodes, CompareBv(CmpUle, a, a), BoolValue(true))
    ensures Always(nodes, CompareBv(CmpSle, a, a), BoolValue(true))
    ensures Always(nodes, CompareBv(CmpUlt, a, a), BoolValue(false))
    ensures Always(nodes, CompareBv(CmpSlt, a, a), BoolValue(false))
  {
    hide Eval, WellFormed;
  }

  lemma {:induction false} ComplementEqRule(nodes: seq<Node>, a: TermId, b: TermId)
    requires WellFormed(nodes) && SameBv(nodes, |nodes|, a, b) && IsNegationPair(nodes, a, b)
    ensures Always(nodes, CompareBv(CmpEq, a, b), BoolValue(false))
  {
    hide Eval, WellFormed;
    forall env: Env ensures BvAt(Eval(nodes, env), a) != BvAt(Eval(nodes, env), b) {
      var u, v := BvAt(Eval(nodes, env), a), BvAt(Eval(nodes, env), b);
      if IsNotOf(nodes, a, b) { UnaryTermValue(nodes, env, a); } else { UnaryTermValue(nodes, env, b); }
      assert u[0] != v[0];
    }
  }

  lemma {:induction false} FoldedCompare(nodes: seq<Node>, op: CompareOp, a: TermId, b: TermId, value: bool)
    requires WellFormed(nodes) && SameBv(nodes, |nodes|, a, b) && IsConst(nodes, a) && IsConst(nodes, b)
    requires var w := Width(nodes, a);
             value <==> CompareValue(op, Decoded(ConstBytesOf(nodes, a), w), Decoded(ConstBytesOf(nodes, b), w))
    ensures Always(nodes, CompareBv(op, a, b), BoolValue(value))
  {
    hide Eval, WellFormed, Decoded, Normalized, CompareValue;
    forall env: Env ensures KindValue(CompareBv(op, a, b), 0, env, Eval(nodes, env)) == BoolValue(value) {
      ConstValue(nodes, env, a);
      ConstValue(nodes, env, b);
    }
  }

  lemma {:induction false} EqCommutes(nodes: seq<Node>, a: TermId, b: TermId)
    ensures Equivalent(nodes, CompareBv(CmpEq, a, b), CompareBv(CmpEq, b, a))
  {
    hide Eval;
  }

  predicate OneBitConst(nodes: seq<Node>, x: TermId) { IsConst(nodes, x) && nodes[x].kind.width == 1 }

  function OneBit(nodes: seq<Node>, x: TermId): bool
    requires IsConst(nodes, x)
  {
    GetBit(ConstBytesOf(nodes, x), 0)
  }

  lemma {:induction false} OneBitValueOf(nodes: seq<Node>, env: Env, x: TermId)
    requires WellFormed(nodes) && OneBitConst(nodes, x)
    ensures BvAt(Eval(nodes, env), x) == [OneBit(nodes, x)] && IsBv(nodes, |nodes|, x) && Width(nodes, x) == 1
  {
    hide Eval, WellFormed, GetBit, Normalized;
    ConstValue(nodes, env, x);
  }

  predicate OneBitIte(nodes: seq<Node>, ite: TermId, c: TermId) {
    && OneBitConst(nodes, c) && ite < |nodes| && nodes[ite].kind.IteBv?
    && OneBitConst(nodes, nodes[ite].kind.thenValue) && OneBitConst(nodes, nodes[ite].kind.elseValue)
  }

  /** A one-bit choice between constants, compared with a constant: the condition, its negation, or
      a fixed truth value. */
  lemma {:induction false} OneBitIteRule(nodes: seq<Node>, ite: TermId, c: TermId)
    requires WellFormed(nodes) && OneBitIte(nodes, ite, c)
    ensures var (k, expected) := (nodes[ite].kind, OneBit(nodes, c));
            var (t, e) := (OneBit(nodes, k.thenValue) == expected, OneBit(nodes, k.elseValue) == expected);
            && IsBool(nodes, |nodes|, k.cond) && SameBv(nodes, |nodes|, ite, c)
            && (t && !e ==> Denotes(nodes, nodes, k.cond, CompareBv(CmpEq, ite, c)))
            && (!t && e ==> Equivalent(nodes, NotBool(k.cond), CompareBv(CmpEq, ite, c)))
            && (t == e ==> Always(nodes, CompareBv(CmpEq, ite, c), BoolValue(t)))
  {
    hide Eval, WellFormed, GetBit, OneBit;
    var k, expected := nodes[ite].kind, OneBit(nodes, c);
    var t, e := OneBit(nodes, k.thenValue) == expected, OneBit(nodes, k.elseValue) == expected;
    IteOperands(nodes, ite);
    OneBitValueOf(nodes, Env(_ => false, _ => 0), c);
    OneBitValueOf(nodes, Env(_ => false, _ => 0), k.thenValue);
    forall env: Env
      ensures (BvAt(Eval(nodes, env), ite) == BvAt(Eval(nodes, env), c)) ==
                if BoolAt(Eval(nodes, env), k.cond) then t else e
    {
      NodeValue(nodes, env, ite);
      OneBitValueOf(nodes, env, c);
      OneBitValueOf(nodes, env, k.thenValue);
      OneBitValueOf(nodes, env, k.elseValue);
    }
    CompareSort(nodes, CmpEq, ite, c);
    if t && !e { BoolResult(nodes, k.cond, CompareBv(CmpEq, ite, c)); }
  }

  lemma {:induction false} IteOperands(nodes: seq<Node>, ite: TermId)
    requires WellFormed(nodes) && ite < |nodes| && nodes[ite].kind.IteBv?
    ensures var k := nodes[ite].kind;
            && IsBool(nodes, |nodes|, k.cond) && SameBv(nodes, |nodes|, k.thenValue, k.elseValue)
            && IsBv(nodes, |nodes|, ite) && Width(nodes, ite) == Width(nodes, k.thenValue)
  {
    assert SortOf(nodes, ite, nodes[ite].kind) == Some(nodes[ite].sort);
  }

  // --------------------------------------------------------- extensions against constants

  /** `x` extends its child, `c` is a constant of the same width. */
  predicate ExtendedAgainst(nodes: seq<Node>, x: TermId, c: TermId) {
    IsConst(nodes, c) && x < |nodes| && nodes[x].kind.ExtendBv?
      && nodes[c].kind.width == Width(nodes, nodes[x].kind.child) + nodes[x].kind.extra
  }

  lemma {:induction false} ExtendNode(nodes: seq<Node>, env: Env, x: TermId)
    requires WellFormed(nodes) && x < |nodes| && nodes[x].kind.ExtendBv?
    ensures var (k, vals) := (nodes[x].kind, Eval(nodes, env));
            && IsBv(nodes, x, k.child) && IsBv(nodes, |nodes|, x) && Width(nodes, x) == Width(nodes, k.child) + k.extra
            && ValidWidth(Width(nodes, k.child)) && |BvAt(vals, k.child)| == Width(nodes, k.child)
            && BvAt(vals, x) ==
                 if k.signed then BvSignExtend(BvAt(vals, k.child), k.extra)
                 else BvZeroExtend(BvAt(vals, k.child), k.extra)
  {
    hide Eval, WellFormed, BvSignExtend, BvZeroExtend;
    NodeValue(nodes, env, x);
    VectorValue(nodes, env, nodes[x].kind.child);
  }

  lemma {:induction false} HighBitsAreZero(bytes: seq<Byte>, low: nat, width: nat)
    requires low <= width
    ensures HighBitsZero(bytes, low, width) <==> Decoded(bytes, width)[low..] == Zeros(width - low)
  {
    hide GetBit;
    var high := Decoded(bytes, width)[low..];
    assert forall i :: 0 <= i < |high| ==> high[i] == GetBit(bytes, low + i);
    if high == Zeros(width - low) {
      forall bit | low <= bit < width ensures !GetBit(bytes, bit) {
        assert high[bit - low] == Zeros(width - low)[bit - low];
      }
    }
  }

  /** Equality of an extension with a constant: the constant must be in range, and then the child
      equals its low bits. */
  lemma {:induction false} ExtensionEqRule(nodes: seq<Node>, x: TermId, c: TermId, low: seq<Byte>, inRange: bool)
    requires WellFormed(nodes) && ExtendedAgainst(nodes, x, c)
    requires var (k, cw, w) := (nodes[x].kind, Width(nodes, nodes[x].kind.child), nodes[c].kind.width);
             var full := Decoded(ConstBytesOf(nodes, c), w);
             && |full| == w && cw <= w && Decoded(low, cw) == full[..cw]
             && inRange == if k.signed then BvSignExtend(full[..cw], k.extra) == full else full[cw..] == Zeros(k.extra)
    ensures SameBv(nodes, |nodes|, x, c)
    ensures !inRange ==> Always(nodes, CompareBv(CmpEq, x, c), BoolValue(false))
    ensures inRange ==> forall env: Env {:trigger Eval(nodes, env)} ::
              (BvAt(Eval(nodes, env), x) == BvAt(Eval(nodes, env), c)) ==
                (BvAt(Eval(nodes, env), nodes[x].kind.child) == Decoded(low, Width(nodes, nodes[x].kind.child)))
  {
    hide Eval, WellFormed, Decoded, Normalized, BvSignExtend, BvZeroExtend;
    var k := nodes[x].kind;
    ExtendNode(nodes, Env(_ => false, _ => 0), x);
    ConstValue(nodes, Env(_ => false, _ => 0), c);
    forall env: Env
      ensures (BvAt(Eval(nodes, env), x) == BvAt(Eval(nodes, env), c)) ==
                (inRange && BvAt(Eval(nodes, env), k.child) == Decoded(low, Width(nodes, k.child)))
    {
      ExtendNode(nodes, env, x);
      ConstValue(nodes, env, c);
      var v, full := BvAt(Eval(nodes, env), k.child), BvAt(Eval(nodes, env), c);
      if k.signed { SignExtendedEq(v, k.extra, full); } else { ZeroExtendedEq(v, k.extra, full); }
    }
  }

  /** Unsigned order of a zero extension and a constant. */
  lemma {:induction false} ExtensionOrderRule(nodes: seq<Node>, x: TermId, c: TermId, low: seq<Byte>, highZero: bool)
    requires WellFormed(nodes) && ExtendedAgainst(nodes, x, c) && !nodes[x].kind.signed
    requires var (k, cw, w) := (nodes[x].kind, Width(nodes, nodes[x].kind.child), nodes[c].kind.width);
             var full := Decoded(ConstBytesOf(nodes, c), w);
             |full| == w && cw <= w && Decoded(low, cw) == full[..cw] && highZero == (full[cw..] == Zeros(k.extra))
    ensures SameBv(nodes, |nodes|, x, c)
    ensures forall env: Env {:trigger Eval(nodes, env)} ::
              var (u, v, full) :=
                  (BvAt(Eval(nodes, env), nodes[x].kind.child), BvAt(Eval(nodes, env), x), BvAt(Eval(nodes, env), c));
              && Val(v) == Val(u)
              && (highZero ==> Val(full) == Val(Decoded(low, Width(nodes, nodes[x].kind.child))))
              && (!highZero ==> Val(full) > Val(v))
              && Val(u) < Pow2(Width(nodes, nodes[x].kind.child))
  {
    hide Eval, WellFormed, Decoded, Normalized, BvSignExtend, BvZeroExtend, Pow2, Val;
    var k := nodes[x].kind;
    ExtendNode(nodes, Env(_ => false, _ => 0), x);
    ConstValue(nodes, Env(_ => false, _ => 0), c);
    forall env: Env
      ensures var (u, v, full) :=
                (BvAt(Eval(nodes, env), k.child), BvAt(Eval(nodes, env), x), BvAt(Eval(nodes, env), c));
              && Val(v) == Val(u) && (highZero ==> Val(full) == Val(Decoded(low, Width(nodes, k.child))))
              && (!highZero ==> Val(full) > Val(v))
              && Val(u) < Pow2(Width(nodes, k.child))
    {
      ExtendNode(nodes, env, x);
      ConstValue(nodes, env, c);
      ZeroExtendedOrder(BvAt(Eval(nodes, env), k.child), k.extra, BvAt(Eval(nodes, env), c));
    }
  }

  /** In range, the comparison may be made on the child. */
  lemma {:induction false} ExtensionEqEquivalent(nodes: seq<Node>, x: TermId, c: TermId, low: TermId, inRange: bool)
    requires WellFormed(nodes) && ExtendedAgainst(nodes, x, c) && IsConst(nodes, low)
    requires Width(nodes, low) == Width(nodes, nodes[x].kind.child)
    requires var (k, cw, w) := (nodes[x].kind, Width(nodes, nodes[x].kind.child), nodes[c].kind.width);
             var full := Decoded(ConstBytesOf(nodes, c), w);
             && |full| == w && cw <= w && Decoded(ConstBytesOf(nodes, low), cw) == full[..cw]
             && inRange == if k.signed then BvSignExtend(full[..cw], k.extra) == full else full[cw..] == Zeros(k.extra)
    ensures SameBv(nodes, |nodes|, x, c) && SameBv(nodes, |nodes|, nodes[x].kind.child, low)
    ensures !inRange ==> Always(nodes, CompareBv(CmpEq, x, c), BoolValue(false))
    ensures inRange ==> Equivalent(nodes, CompareBv(CmpEq, nodes[x].kind.child, low), CompareBv(CmpEq, x, c))
  {
    hide Eval, WellFormed, Decoded, Normalized, BvSignExtend, BvZeroExtend;
    var child := nodes[x].kind.child;
    ExtensionEqRule(nodes, x, c, ConstBytesOf(nodes, low), inRange);
    ExtendNode(nodes, Env(_ => false, _ => 0), x);
    ConstValue(nodes, Env(_ => false, _ => 0), low);
    CompareSort(nodes, CmpEq, x, c);
    CompareSort(nodes, CmpEq, child, low);
    if inRange {
      forall env: Env
        ensures (BvAt(Eval(nodes, env), child) == BvAt(Eval(nodes, env), low)) ==
                  (BvAt(Eval(nodes, env), x) == BvAt(Eval(nodes, env), c))
      {
        ConstValue(nodes, env, low);
      }
    }
  }

  predicate IsUnsignedOrder(op: CompareOp) { op.CmpUlt? || op.CmpUle? }

  /** Unsigned order may be decided on the child, or is fixed by the constant. */
  lemma {:induction false} ExtensionOrderEquivalent(nodes: seq<Node>, op: CompareOp, x: TermId, c: TermId, low: TermId,
                                                    highZero: bool)
    requires WellFormed(nodes) && ExtendedAgainst(nodes, x, c) && !nodes[x].kind.signed && IsUnsignedOrder(op)
    requires IsConst(nodes, low) && Width(nodes, low) == Width(nodes, nodes[x].kind.child)
    requires var (k, cw, w) := (nodes[x].kind, Width(nodes, nodes[x].kind.child), nodes[c].kind.width);
             var full := Decoded(ConstBytesOf(nodes, c), w);
             |full| == w && cw <= w && Decoded(ConstBytesOf(nodes, low), cw) == full[..cw]
               && highZero == (full[cw..] == Zeros(k.extra))
    ensures SameBv(nodes, |nodes|, x, c) && SameBv(nodes, |nodes|, nodes[x].kind.child, low)
    ensures highZero ==> Equivalent(nodes, CompareBv(op, nodes[x].kind.child, low), CompareBv(op, x, c))
    ensures highZero ==> Equivalent(nodes, CompareBv(op, low, nodes[x].kind.child), CompareBv(op, c, x))
    ensures !highZero ==>
              Always(nodes, CompareBv(op, x, c), BoolValue(true))
                && Always(nodes, CompareBv(op, c, x), BoolValue(false))
    ensures IsZero(nodes, c) && op.CmpUlt? ==> Always(nodes, CompareBv(op, x, c), BoolValue(false))
    ensures IsZero(nodes, c) && op.CmpUle? ==> Always(nodes, CompareBv(op, c, x), BoolValue(true))
    ensures highZero && IsAllOnes(nodes, low) && op.CmpUlt? ==> Always(nodes, CompareBv(op, c, x), BoolValue(false))
  {
    hide Eval, WellFormed, Decoded, Normalized, Val, Pow2, AllZero, ConstantBytes;
    var child := nodes[x].kind.child;
    ExtensionOrderRule(nodes, x, c, ConstBytesOf(nodes, low), highZero);
    ExtendNode(nodes, Env(_ => false, _ => 0), x);
    ConstValue(nodes, Env(_ => false, _ => 0), low);
    CompareSort(nodes, op, x, c);
    CompareSort(nodes, op, c, x);
    CompareSort(nodes, op, child, low);
    CompareSort(nodes, op, low, child);
    ValOnes(Width(nodes, child));
    forall env: Env
      ensures var (u, v, full, l) :=
                (BvAt(Eval(nodes, env), child), BvAt(Eval(nodes, env), x), BvAt(Eval(nodes, env), c),
                 BvAt(Eval(nodes, env), low));
              && Val(v) == Val(u) && (highZero ==> Val(full) == Val(l)) && (!highZero ==> Val(full) > Val(v))
              && (IsZero(nodes, c) ==> Val(full) == 0) && (highZero && IsAllOnes(nodes, low) ==> Val(full) >= Val(v))
    {
      ConstValue(nodes, env, low);
      if IsZero(nodes, c) { ZeroTerm(nodes, env, c); }
      if IsAllOnes(nodes, low) { AllOnesTerm(nodes, env, low); }
    }
  }
}
