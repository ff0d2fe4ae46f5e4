/** Bit-blasting: from the terms of a query to gates that compute their values. */
module Blast {
  import opened BitVectors
  import opened Bytes
  import opened Wrappers
  import opened Gates
  import opened Ir
  import opened Queries
  import Circuits
  import CircuitLemmas

  datatype BlastedValue = BlastedBool(gate: GateId) | BlastedBv(bits: seq<GateId>)

  datatype BlastedVariable = BlastedVariable(term: TermId, name: string, external: Option<nat>, sort: Sort,
                                             bits: seq<GateId>)

  datatype BlastResult = BlastResult(gates: GateArena, assertion: GateId, variables: seq<BlastedVariable>)

  /** A deadline or a cancellation token may stop the work at any poll; without either, never. */
  method CheckLimits(limited: bool) returns (ok: bool)
    ensures !limited ==> ok
  {
    if limited {
      ok := *;
    } else {
      ok := true;
    }
  }

  // ------------------------------------------------------------------ reachability

  ghost predicate Closed(nodes: seq<Node>, terms: set<TermId>) {
    forall i, j {:trigger Children(nodes[i].kind)[j]} ::
      i in terms && i < |nodes| && 0 <= j < |Children(nodes[i].kind)| ==> Children(nodes[i].kind)[j] in terms
  }

  ghost function Marked(reachable: seq<bool>): set<TermId> { set i | 0 <= i < |reachable| && reachable[i] }

  ghost function SeqSet(s: seq<TermId>): set<TermId> { set x | x in s }

  /** The starting points of the traversal: the roots and the optimisation target. */
  function StartTerms(query: Query): seq<TermId> {
    query.Roots() + if query.target.Some? then [query.target.value] else []
  }

  /** Marks the least set of terms that holds the roots and the target and is closed under operands. */
  method ReachableTerms(query: Query, limited: bool) returns (r: Result<seq<bool>>)
    requires query.Valid()
    ensures r.Err? ==> limited && r.error == Timeout
    ensures r.Ok? ==> |r.value| == |query.arena.nodes|
    ensures r.Ok? ==> SeqSet(StartTerms(query)) <= Marked(r.value) && Closed(query.arena.nodes, Marked(r.value))
    ensures r.Ok? ==> LeastAbove(query.arena.nodes, SeqSet(StartTerms(query)), Marked(r.value))
  {
    hide Traversing;
    var nodes := query.arena.nodes;
    var reachable := new bool[|nodes|](_ => false);
    var stack: seq<TermId> := StartTerms(query);
    ghost var start := SeqSet(stack);
    TraversalStarts(query, reachable[..]);
    var steps := 0;
    while stack != []
      invariant reachable.Length == |nodes|
      invariant Traversing(nodes, start, reachable[..], stack)
      decreases Unmarked(reachable[..]), |stack|
    {
      TraversalStep(nodes, start, reachable[..], stack);
      var id := stack[|stack| - 1];
      stack := stack[..|stack| - 1];
      if steps % 4096 == 0 {
        var ok := CheckLimits(limited);
        if !ok { return Err(Timeout); }
      }
      steps := steps + 1;
      if reachable[id] {
        continue;
      }
      ghost var was := reachable[..];
      reachable[id] := true;
      assert reachable[..] == was[id := true];
      stack := stack + Children(nodes[id].kind);
    }
    TraversalEnds(nodes, start, reachable[..]);
    r := Ok(reachable[..]);
  }

  ghost function Unmarked(reachable: seq<bool>): set<TermId> { set i | 0 <= i < |reachable| && !reachable[i] }

  /** Every operand-closed set that contains `start` contains `terms`. */
  ghost predicate LeastAbove(nodes: seq<Node>, start: set<TermId>, terms: set<TermId>) {
    forall least: set<TermId> :: start <= least && Closed(nodes, least) ==> terms <= least
  }

  /** The starting terms are marked or waiting, operands of marked terms too, and nothing else is. */
  ghost predicate Traversing(nodes: seq<Node>, start: set<TermId>, reachable: seq<bool>, stack: seq<TermId>) {
    && |reachable| == |nodes|
    && (forall i :: 0 <= i < |stack| ==> stack[i] < |nodes|)
    && start <= Marked(reachable) + SeqSet(stack)
    && Pending(nodes, Marked(reachable), SeqSet(stack))
    && LeastAbove(nodes, start, Marked(reachable) + SeqSet(stack))
  }

  /** Operands of a marked term are marked or still waiting. */
  ghost predicate Pending(nodes: seq<Node>, marked: set<TermId>, waiting: set<TermId>) {
    forall i, j {:trigger Children(nodes[i].kind)[j]} ::
      i in marked && i < |nodes| && 0 <= j < |Children(nodes[i].kind)| ==>
        Children(nodes[i].kind)[j] in marked + waiting
  }

  lemma {:induction false} TraversalStarts(query: Query, reachable: seq<bool>)
    requires query.Valid() && |reachable| == |query.arena.nodes| && forall i :: 0 <= i < |reachable| ==> !reachable[i]
    ensures Traversing(query.arena.nodes, SeqSet(StartTerms(query)), reachable, StartTerms(query))
  {
    RootsAreBool(query);
    assert Marked(reachable) == {};
  }

  lemma {:induction false} TraversalStep(nodes: seq<Node>, start: set<TermId>, reachable: seq<bool>, stack: seq<TermId>)
    requires WellFormed(nodes) && stack != [] && Traversing(nodes, start, reachable, stack)
    ensures var (id, rest) := (stack[|stack| - 1], stack[..|stack| - 1]);
            && id < |nodes| == |reachable|
            && (reachable[id] ==> Traversing(nodes, start, reachable, rest))
            && (!reachable[id] ==>
                  && Traversing(nodes, start, reachable[id := true], rest + Children(nodes[id].kind))
                  && Unmarked(reachable[id := true]) == Unmarked(reachable) - {id} && id in Unmarked(reachable))
  {
    hide Children;
    var id, rest := stack[|stack| - 1], stack[..|stack| - 1];
    var marked := Marked(reachable);
    assert SeqSet(stack) == SeqSet(rest) + {id} by { assert stack == rest + [id]; }
    if reachable[id] {
      assert marked + SeqSet(rest) == marked + SeqSet(stack);
    } else {
      ChildrenBelow(nodes, id);
      var children := Children(nodes[id].kind);
      assert Marked(reachable[id := true]) == marked + {id};
      assert SeqSet(rest + children) == SeqSet(rest) + SeqSet(children);
      forall least: set<TermId> | start <= least && Closed(nodes, least)
        ensures marked + {id} + SeqSet(rest + children) <= least
      {
        assert marked + SeqSet(stack) <= least && id in least;
      }
    }
  }

  lemma {:induction false} TraversalEnds(nodes: seq<Node>, start: set<TermId>, reachable: seq<bool>)
    requires Traversing(nodes, start, reachable, [])
    ensures start <= Marked(reachable) && Closed(nodes, Marked(reachable))
    ensures LeastAbove(nodes, start, Marked(reachable))
  {
    hide Children;
    assert Marked(reachable) + SeqSet([]) == Marked(reachable);
  }

  // -------------------------------------------------------- gates that show a value

  /** The gates of `b` carry the value `v`. */
  ghost predicate Shows(g: seq<GateKind>, inp: Inputs, b: BlastedValue, v: Value) {
    match b
    case BlastedBool(gate) => v == BoolValue(Gate(g, inp, gate))
    case BlastedBv(bits) => v == BvValue(Carried(g, inp, bits))
  }

  ghost predicate Shaped(g: seq<GateKind>, b: BlastedValue, sort: Sort) {
    match sort
    case BoolSort => b.BlastedBool? && b.gate < |g|
    case BvSort(w) => b.BlastedBv? && |b.bits| == w && InRange(g, b.bits)
  }

  lemma {:induction false} ShowsKept(g: seq<GateKind>, h: seq<GateKind>, inp: Inputs, b: BlastedValue, sort: Sort)
    requires Grown(g, h) && Shaped(g, b, sort)
    ensures Shaped(h, b, sort)
    ensures forall v :: Shows(h, inp, b, v) <==> Shows(g, inp, b, v)
  {
    hide Gate;
  }

  /** Whether few set bits, or all of them, make a constant multiplier worthwhile. */
  method UseConstantMultiplier(bytes: seq<Byte>, width: nat) returns (use: bool)
    ensures use <==> CountOnes(Decoded(bytes, width)) <= 2 || Decoded(bytes, width) == Ones(width)
  {
    hide GetBit;
    ghost var x := Decoded(bytes, width);
    var ones := 0;
    for bit := 0 to width
      invariant ones == CountOnes(x[..bit]) <= 2
    {
      assert x[..bit + 1][..bit] == x[..bit] && x[bit] == GetBit(bytes, bit);
      if GetBit(bytes, bit) {
        ones := ones + 1;
        if ones > 2 {
          CountMonotone(x, bit + 1);
          break;
        }
      }
    }
    assert x[..width] == x;
    assert Circuits.ConstIsAllOnes(bytes, width) <==> x == Ones(width) by {
      assert forall bit :: 0 <= bit < width ==> x[bit] == GetBit(bytes, bit);
      assert x == Ones(width) ==> forall bit :: 0 <= bit < width ==> x[bit];
    }
    use := ones <= 2 || Circuits.ConstIsAllOnes(bytes, width);
  }

  function CountOnes(x: Bv): nat {
    if x == [] then 0 else CountOnes(x[..|x| - 1]) + if x[|x| - 1] then 1 else 0
  }

  lemma {:induction false} CountMonotone(x: Bv, n: nat)
    requires n <= |x|
    ensures CountOnes(x[..n]) <= CountOnes(x)
  {
    if n < |x| {
      CountMonotone(x[..|x| - 1], n);
      assert x[..|x| - 1][..n] == x[..n];
    } else {
      assert x[..n] == x;
    }
  }

  method BlastUnary(g: GateArena, op: UnaryOp, x: Circuits.Bits) returns (out: Circuits.Bits)
    requires Circuits.Ready(g, x)
    modifies g`gates, g`ids
    ensures Circuits.Drives(g, out) && |out| == |x|
    ensures forall inp: Inputs {:trigger Carried(g.gates, inp, out)} ::
              Carried(g.gates, inp, out) == UnaryValue(op, Carried(g.gates, inp, x))
  {
    hide Gate, GateArena.Valid, Carried, BvNot, BvNeg;
    match op
    case OpNot => out := Circuits.BitwiseNot(g, x);
    case OpNeg => out := Circuits.Neg(g, x);
  }

  /** Every binary operator except multiplication, whose circuit depends on its operands. */
  method BlastBinary(g: GateArena, op: BinaryOp, a: Circuits.Bits, b: Circuits.Bits) returns (out: Circuits.Bits)
    requires Circuits.Ready(g, a) && Circuits.Ready(g, b) && 0 < |a| == |b| <= MAX_BV_WIDTH && op != OpMul
    modifies g`gates, g`ids
    ensures Circuits.Drives(g, out) && |out| == |a|
    ensures forall inp: Inputs {:trigger Carried(g.gates, inp, out)} ::
              Carried(g.gates, inp, out) == BinaryValue(op, Carried(g.gates, inp, a), Carried(g.gates, inp, b))
  {
    hide Gate, GateArena.Valid, Carried, BvAnd, BvOr, BvXor, BvAdd, BvSub, BvUDiv, BvURem, BvSDiv;
    hide BvSRem, BvSMod, BvShl, BvLShr, BvAShr;
    match op
    case OpAnd => out := Circuits.BitwiseBinary(g, Circuits.Both, a, b);
    case OpOr => out := Circuits.BitwiseBinary(g, Circuits.Either, a, b);
    case OpXor => out := Circuits.BitwiseBinary(g, Circuits.Differ, a, b);
    case OpAdd => out := Circuits.Add(g, a, b);
    case OpSub => out := Circuits.Sub(g, a, b);
    case OpUDiv => var r; out, r := Circuits.UDivURem(g, a, b);
    case OpURem => var q; q, out := Circuits.UDivURem(g, a, b);
    case OpSDiv => out := Circuits.SDiv(g, a, b);
    case OpSRem => out := Circuits.SRem(g, a, b);
    case OpSMod => out := Circuits.SMod(g, a, b);
    case OpShl => out := Circuits.Shl(g, a, b);
    case OpLShr => out := Circuits.LShr(g, a, b);
    case OpAShr => out := Circuits.AShr(g, a, b);
  }

  method BlastCompare(g: GateArena, op: CompareOp, a: Circuits.Bits, b: Circuits.Bits) returns (out: GateId)
    requires Circuits.Ready(g, a) && Circuits.Ready(g, b) && 0 < |a| == |b|
    modifies g`gates, g`ids
    ensures Circuits.Grew(g) && out < |g.gates|
    ensures forall inp: Inputs {:trigger Gate(g.gates, inp, out)} ::
              Gate(g.gates, inp, out) == CompareValue(op, Carried(g.gates, inp, a), Carried(g.gates, inp, b))
  {
    hide Gate, GateArena.Valid, Carried, Val, BvUle, BvSlt, BvSle, UAddOverflow, SAddOverflow;
    hide SSubOverflow, UMulOverflow, SMulOverflow, SDivOverflow;
    match op
    case CmpEq => out := Circuits.EqBits(g, a, b);
    case CmpUlt => out := Circuits.Ult(g, a, b);
    case CmpUle => out := Circuits.Ule(g, a, b);
    case CmpSlt => out := Circuits.Slt(g, a, b);
    case CmpSle => out := Circuits.Sle(g, a, b);
    case OvfUAdd => out := Circuits.UAddOverflows(g, a, b);
    case OvfSAdd => out := Circuits.SAddOverflows(g, a, b);
    case OvfUSub => out := Circuits.Ult(g, a, b);
    case OvfSSub => out := Circuits.SSubOverflows(g, a, b);
    case OvfUMul => out := Circuits.UMulOverflows(g, a, b);
    case OvfSMul => out := Circuits.SMulOverflows(g, a, b);
    case OvfSDiv => out := Circuits.SDivOverflows(g, a, b);
  }

  method BlastBool(g: GateArena, op: BoolOp, a: GateId, b: GateId) returns (out: GateId)
    requires g.Valid() && a < |g.gates| && b < |g.gates|
    modifies g`gates, g`ids
    ensures Circuits.Grew(g) && out < |g.gates|
    ensures forall inp: Inputs {:trigger Gate(g.gates, inp, out)} ::
              Gate(g.gates, inp, out) == BoolOpValue(op, Gate(g.gates, inp, a), Gate(g.gates, inp, b))
  {
    hide Gate, GateArena.Valid;
    match op
    case BoolAnd => out := g.Conjoin(a, b);
    case BoolOr => out := g.Disjoin(a, b);
    case BoolImplies => out := g.Implies(a, b);
    case BoolEq => out := g.Xnor(a, b);
  }

  // ------------------------------------------------------------------ blasting a node

  type Values = seq<Option<BlastedValue>>

  ghost predicate ShapedValues(nodes: seq<Node>, g: seq<GateKind>, values: Values) {
    && |values| == |nodes|
    && forall i {:trigger values[i]} :: 0 <= i < |values| && values[i].Some? ==>
         Shaped(g, values[i].value, nodes[i].sort)
  }

  /** Term `c` has been blasted and its gates show its value. */
  ghost predicate Shown(nodes: seq<Node>, g: seq<GateKind>, values: Values, env: Env, inp: Inputs, c: TermId) {
    c < |values| && c < |nodes| && values[c].Some? && Shows(g, inp, values[c].value, Eval(nodes, env)[c])
  }

  ghost predicate OperandsShown(nodes: seq<Node>, g: seq<GateKind>, values: Values, env: Env, inp: Inputs, k: NodeKind)
  {
    forall c :: c in Children(k) ==> Shown(nodes, g, values, env, inp, c)
  }

  /** The operands of node `i` have been blasted. */
  ghost predicate OperandsBlasted(nodes: seq<Node>, g: seq<GateKind>, values: Values, i: TermId) {
    && WellFormed(nodes) && i < |nodes| && ShapedValues(nodes, g, values)
    && forall c :: c in Children(nodes[i].kind) ==> c < |values| && values[c].Some?
  }

  /** `value` is a right result for node `i`: it shows the node's value whenever its operands show theirs. */
  ghost predicate Blasted(nodes: seq<Node>, g: seq<GateKind>, values: Values, i: TermId, value: BlastedValue) {
    && i < |nodes| && Shaped(g, value, nodes[i].sort)
    && forall env: Env, inp: Inputs {:trigger OperandsShown(nodes, g, values, env, inp, nodes[i].kind)} ::
         OperandsShown(nodes, g, values, env, inp, nodes[i].kind) ==> Shows(g, inp, value, Eval(nodes, env)[i])
  }

  function BvOf(values: Values, x: TermId): Circuits.Bits {
    if x < |values| && values[x].Some? && values[x].value.BlastedBv? then values[x].value.bits else []
  }

  function BoolOf(values: Values, x: TermId): GateId {
    if x < |values| && values[x].Some? && values[x].value.BlastedBool? then values[x].value.gate else 0
  }

  lemma {:induction false} OperandShown(nodes: seq<Node>, g: seq<GateKind>, values: Values, env: Env, inp: Inputs,
                                        k: NodeKind, c: TermId)
    requires OperandsShown(nodes, g, values, env, inp, k) && c in Children(k) && ShapedValues(nodes, g, values)
    ensures nodes[c].sort.BvSort? ==> BvAt(Eval(nodes, env), c) == Carried(g, inp, BvOf(values, c))
    ensures nodes[c].sort.BoolSort? ==> BoolAt(Eval(nodes, env), c) == Gate(g, inp, BoolOf(values, c))
  {
    hide Gate, Carried, Eval;
    assert Shown(nodes, g, values, env, inp, c);
  }

  lemma {:induction false} BvOperand(nodes: seq<Node>, g: seq<GateKind>, values: Values, i: TermId, c: TermId)
    requires OperandsBlasted(nodes, g, values, i) && c in Children(nodes[i].kind) && nodes[c].sort.BvSort?
    ensures InRange(g, BvOf(values, c)) && |BvOf(values, c)| == Width(nodes, c) && ValidWidth(Width(nodes, c))
  {
    WidthPositive(nodes, c);
  }

  /** Constants become constant gates. */
  method BlastConst(g: GateArena, nodes: seq<Node>, values: Values, i: TermId) returns (value: BlastedValue)
    requires g.Valid() && OperandsBlasted(nodes, g.gates, values, i)
    requires nodes[i].kind.ConstBv? || nodes[i].kind.ConstBool?
    ensures Blasted(nodes, g.gates, values, i, value)
  {
    hide Gate, GateArena.Valid, GetBit, Eval;
    var k := nodes[i].kind;
    assert SortOf(nodes, i, k) == Some(nodes[i].sort);
    match k
    case ConstBool(v) =>
      value := BlastedBool(g.ConstGate(v));
      forall env: Env ensures Eval(nodes, env)[i] == BoolValue(v) { EvalAt(nodes, env, i); }
    case ConstBv(width, bytes) =>
      var zero, one := g.ConstGate(false), g.ConstGate(true);
      var bits := seq(width, bit requires 0 <= bit => if GetBit(bytes, bit) then one else zero);
      value := BlastedBv(bits);
      forall env: Env ensures Eval(nodes, env)[i] == BvValue(Decoded(bytes, width)) { EvalAt(nodes, env, i); }
      assert forall inp: Inputs :: Carried(g.gates, inp, bits) == Decoded(bytes, width);
  }

  lemma {:induction false} MulCommutes(x: Bv, y: Bv)
    requires |x| == |y|
    ensures BvMul(x, y) == BvMul(y, x)
  {
    hide Val, FromInt;
    assert Val(x) * Val(y) == Val(y) * Val(x);
  }

  /** A product with a constant operand may use the constant multiplier. */
  method BlastMul(g: GateArena, nodes: seq<Node>, values: Values, i: TermId) returns (value: BlastedValue)
    requires g.Valid() && OperandsBlasted(nodes, g.gates, values, i)
    requires nodes[i].kind.BinaryBv? && nodes[i].kind.bop == OpMul
    modifies g`gates, g`ids
    ensures Circuits.Grew(g) && Blasted(nodes, g.gates, values, i, value)
  {
    hide Gate, GateArena.Valid, Carried, Eval, BvMul, OperandsShown, Decoded;
    var a, b := nodes[i].kind.a, nodes[i].kind.b;
    assert SortOf(nodes, i, nodes[i].kind) == Some(nodes[i].sort);
    BvOperand(nodes, g.gates, values, i, a);
    BvOperand(nodes, g.gates, values, i, b);
    var av, bv := BvOf(values, a), BvOf(values, b);
    var out;
    if nodes[a].kind.ConstBv? {
      out := MulByConstant(g, nodes[a].kind.bytes, av, bv, true);
    } else if nodes[b].kind.ConstBv? {
      out := MulByConstant(g, nodes[b].kind.bytes, bv, av, false);
    } else {
      out := Circuits.Mul(g, av, bv);
    }
    value := BlastedBv(out);
    forall env: Env, inp: Inputs | OperandsShown(nodes, g.gates, values, env, inp, nodes[i].kind)
      ensures Shows(g.gates, inp, value, Eval(nodes, env)[i])
    {
      EvalAt(nodes, env, i);
      OperandShownIn(nodes, g, values, env, inp, i, a);
      OperandShownIn(nodes, g, values, env, inp, i, b);
      MulCommutes(Carried(g.gates, inp, av), Carried(g.gates, inp, bv));
      if nodes[a].kind.ConstBv? {
        ConstOperand(nodes, env, a);
      } else if nodes[b].kind.ConstBv? {
        ConstOperand(nodes, env, b);
      }
    }
  }

  lemma {:induction false} ConstOperand(nodes: seq<Node>, env: Env, c: TermId)
    requires WellFormed(nodes) && c < |nodes| && nodes[c].kind.ConstBv?
    ensures BvAt(Eval(nodes, env), c) == Decoded(nodes[c].kind.bytes, Width(nodes, c))
  {
    hide Eval, Decoded;
    assert SortOf(nodes, c, nodes[c].kind) == Some(nodes[c].sort);
    EvalAt(nodes, env, c);
  }

  /** `constant` times `other`: `own` are the constant's gates, used when the constant has many set bits. */
  method MulByConstant(g: GateArena, constant: seq<Byte>, own: Circuits.Bits, other: Circuits.Bits, first: bool)
    returns (out: Circuits.Bits)
    requires Circuits.Ready(g, own) && Circuits.Ready(g, other) && |own| == |other| > 0
    modifies g`gates, g`ids
    ensures Circuits.Drives(g, out) && |out| == |own|
    ensures forall inp: Inputs {:trigger Carried(g.gates, inp, out)} ::
              Carried(g.gates, inp, own) == Decoded(constant, |own|) ==>
                Carried(g.gates, inp, out) == BvMul(Carried(g.gates, inp, other), Carried(g.gates, inp, own))
  {
    hide Gate, GateArena.Valid, Carried, BvMul, Decoded;
    var use := UseConstantMultiplier(constant, |other|);
    if use {
      out := Circuits.MulConst(g, other, constant);
    } else if first {
      out := Circuits.Mul(g, own, other);
      forall inp: Inputs
        ensures Carried(g.gates, inp, out) == BvMul(Carried(g.gates, inp, other), Carried(g.gates, inp, own))
      {
        CarriedLength(g.gates, inp, own);
        CarriedLength(g.gates, inp, other);
        MulCommutes(Carried(g.gates, inp, own), Carried(g.gates, inp, other));
      }
    } else {
      out := Circuits.Mul(g, other, own);
    }
  }

  lemma {:induction false} CarriedLength(g: seq<GateKind>, inp: Inputs, bits: Circuits.Bits)
    ensures |Carried(g, inp, bits)| == |bits|
  {}

  lemma {:induction false} OperandShownIn(nodes: seq<Node>, g: GateArena, values: Values, env: Env, inp: Inputs,
                                          i: TermId, c: TermId)
    requires i < |nodes| && OperandsShown(nodes, g.gates, values, env, inp, nodes[i].kind)
    requires ShapedValues(nodes, g.gates, values) && c in Children(nodes[i].kind)
    ensures nodes[c].sort.BvSort? ==> BvAt(Eval(nodes, env), c) == Carried(g.gates, inp, BvOf(values, c))
    ensures nodes[c].sort.BoolSort? ==> BoolAt(Eval(nodes, env), c) == Gate(g.gates, inp, BoolOf(values, c))
    ensures |Carried(g.gates, inp, BvOf(values, c))| == |BvOf(values, c)|
  {
    hide Gate, Carried, Eval;
    CarriedLength(g.gates, inp, BvOf(values, c));
    OperandShown(nodes, g.gates, values, env, inp, nodes[i].kind, c);
  }

  /** Operators that only rearrange their operand's gates. */
  method BlastWiring(g: GateArena, nodes: seq<Node>, values: Values, i: TermId) returns (value: BlastedValue)
    requires g.Valid() && OperandsBlasted(nodes, g.gates, values, i)
    requires var k := nodes[i].kind; k.ExtractBv? || k.ExtendBv? || k.RepeatBv? || k.RotateBv?
    ensures Blasted(nodes, g.gates, values, i, value)
  {
    hide Gate, GateArena.Valid, Eval, OperandsShown, BvSignExtend, BvZeroExtend, BvExtract;
    hide BvRepeat, BvRotateLeft, BvRotateRight;
    var k := nodes[i].kind;
    var c := k.child;
    assert SortOf(nodes, i, k) == Some(nodes[i].sort);
    BvOperand(nodes, g.gates, values, i, c);
    var bits := BvOf(values, c);
    var out: Circuits.Bits;
    match k {
      case ExtractBv(_, high, low) => out := Circuits.Extract(bits, high, low);
      case ExtendBv(true, _, extra) => out := Circuits.SignExtend(bits, extra);
      case ExtendBv(false, _, extra) => out := Circuits.ZeroExtend(g, bits, extra);
      case RepeatBv(_, count) => out := Circuits.Repeat(bits, count);
      case RotateBv(true, _, amount) => out := Circuits.RotateLeft(bits, amount);
      case RotateBv(false, _, amount) => out := Circuits.RotateRight(bits, amount);
    }
    value := BlastedBv(out);
    forall env: Env, inp: Inputs
      ensures OperandsShown(nodes, g.gates, values, env, inp, k) ==> Shows(g.gates, inp, value, Eval(nodes, env)[i])
    {
      WiringShows(g.gates, inp, bits, k);
      EvalAt(nodes, env, i);
      if OperandsShown(nodes, g.gates, values, env, inp, k) {
        OperandShownIn(nodes, g, values, env, inp, i, c);
      }
    }
    WiringShaped(g.gates, bits, k);
  }

  lemma {:induction false} WiringShows(g: seq<GateKind>, inp: Inputs, bits: Circuits.Bits, k: NodeKind)
    requires bits != []
    ensures k.ExtractBv? && k.low <= k.high < |bits| ==>
              Carried(g, inp, Circuits.Extract(bits, k.high, k.low)) == BvExtract(Carried(g, inp, bits), k.high, k.low)
    ensures k.ExtendBv? ==>
              Carried(g, inp, Circuits.SignExtend(bits, k.extra)) == BvSignExtend(Carried(g, inp, bits), k.extra)
    ensures k.RepeatBv? ==> Carried(g, inp, Circuits.Repeat(bits, k.count)) == BvRepeat(Carried(g, inp, bits), k.count)
    ensures k.RotateBv? ==>
              && Carried(g, inp, Circuits.RotateLeft(bits, k.amount)) == BvRotateLeft(Carried(g, inp, bits), k.amount)
              && Carried(g, inp, Circuits.RotateRight(bits, k.amount)) == BvRotateRight(Carried(g, inp, bits), k.amount)
  {
    match k
    case ExtractBv(_, high, low) => Circuits.WiringCarries(g, inp, bits, [], high, low);
    case ExtendBv(_, _, extra) => Circuits.SignExtendCarries(g, inp, bits, extra);
    case RepeatBv(_, count) => Circuits.RepeatCarries(g, inp, bits, count);
    case RotateBv(_, _, amount) => Circuits.RotateCarries(g, inp, bits, amount);
    case _ =>
  }

  lemma {:induction false} WiringShaped(g: seq<GateKind>, bits: Circuits.Bits, k: NodeKind)
    requires bits != [] && InRange(g, bits)
    ensures k.ExtractBv? && k.low <= k.high < |bits| ==> InRange(g, Circuits.Extract(bits, k.high, k.low))
    ensures k.ExtendBv? ==> InRange(g, Circuits.SignExtend(bits, k.extra))
    ensures k.RepeatBv? ==>
              InRange(g, Circuits.Repeat(bits, k.count)) && |Circuits.Repeat(bits, k.count)| == |bits| * k.count
    ensures k.RotateBv? ==>
              InRange(g, Circuits.RotateLeft(bits, k.amount)) && InRange(g, Circuits.RotateRight(bits, k.amount))
  {
    var inp: Inputs := _ => false;
    WiringShows(g, inp, bits, k);
    if k.RepeatBv? {
      Circuits.RepeatCarries(g, inp, bits, k.count);
    } else if k.RotateBv? {
      Circuits.RotateCarries(g, inp, bits, k.amount);
    }
  }

  method BlastConcat(g: GateArena, nodes: seq<Node>, values: Values, i: TermId) returns (value: BlastedValue)
    requires g.Valid() && OperandsBlasted(nodes, g.gates, values, i) && nodes[i].kind.ConcatBv?
    ensures Blasted(nodes, g.gates, values, i, value)
  {
    hide Gate, GateArena.Valid, Eval, OperandsShown;
    var h, l := nodes[i].kind.highPart, nodes[i].kind.lowPart;
    assert SortOf(nodes, i, nodes[i].kind) == Some(nodes[i].sort);
    BvOperand(nodes, g.gates, values, i, h);
    BvOperand(nodes, g.gates, values, i, l);
    var out := Circuits.Concat(BvOf(values, h), BvOf(values, l));
    value := BlastedBv(out);
    forall env: Env, inp: Inputs | OperandsShown(nodes, g.gates, values, env, inp, nodes[i].kind)
      ensures Shows(g.gates, inp, value, Eval(nodes, env)[i])
    {
      EvalAt(nodes, env, i);
      OperandShownIn(nodes, g, values, env, inp, i, h);
      OperandShownIn(nodes, g, values, env, inp, i, l);
      Circuits.WiringCarries(g.gates, inp, BvOf(values, h), BvOf(values, l), 0, 0);
    }
  }

  method BlastOperator(g: GateArena, nodes: seq<Node>, values: Values, i: TermId) returns (value: BlastedValue)
    requires g.Valid() && OperandsBlasted(nodes, g.gates, values, i)
    requires var k := nodes[i].kind; k.UnaryBv? || (k.BinaryBv? && k.bop != OpMul)
    modifies g`gates, g`ids
    ensures Circuits.Grew(g) && Blasted(nodes, g.gates, values, i, value)
  {
    hide Gate, GateArena.Valid, Carried, Eval, OperandsShown, UnaryValue, BinaryValue;
    var k := nodes[i].kind;
    assert SortOf(nodes, i, k) == Some(nodes[i].sort);
    if k.UnaryBv? {
      BvOperand(nodes, g.gates, values, i, k.x);
      var out := BlastUnary(g, k.uop, BvOf(values, k.x));
      value := BlastedBv(out);
      forall env: Env, inp: Inputs | OperandsShown(nodes, g.gates, values, env, inp, k)
        ensures Shows(g.gates, inp, value, Eval(nodes, env)[i])
      {
        EvalAt(nodes, env, i);
        OperandShownIn(nodes, g, values, env, inp, i, k.x);
      }
    } else {
      BvOperand(nodes, g.gates, values, i, k.a);
      BvOperand(nodes, g.gates, values, i, k.b);
      var out := BlastBinary(g, k.bop, BvOf(values, k.a), BvOf(values, k.b));
      value := BlastedBv(out);
      forall env: Env, inp: Inputs | OperandsShown(nodes, g.gates, values, env, inp, k)
        ensures Shows(g.gates, inp, value, Eval(nodes, env)[i])
      {
        EvalAt(nodes, env, i);
        OperandShownIn(nodes, g, values, env, inp, i, k.a);
        OperandShownIn(nodes, g, values, env, inp, i, k.b);
      }
    }
  }

  method BlastIte(g: GateArena, nodes: seq<Node>, values: Values, i: TermId) returns (value: BlastedValue)
    requires g.Valid() && OperandsBlasted(nodes, g.gates, values, i) && (nodes[i].kind.IteBv? || nodes[i].kind.IteBool?)
    modifies g`gates, g`ids
    ensures Circuits.Grew(g) && Blasted(nodes, g.gates, values, i, value)
  {
    hide Gate, GateArena.Valid, Carried, Eval, OperandsShown;
    var k := nodes[i].kind;
    assert SortOf(nodes, i, k) == Some(nodes[i].sort);
    var c, t, e := k.cond, k.thenValue, k.elseValue;
    if k.IteBv? {
      BvOperand(nodes, g.gates, values, i, t);
      BvOperand(nodes, g.gates, values, i, e);
      var out := Circuits.MuxBits(g, BoolOf(values, c), BvOf(values, t), BvOf(values, e));
      value := BlastedBv(out);
    } else {
      var out := g.Choose(BoolOf(values, c), BoolOf(values, t), BoolOf(values, e));
      value := BlastedBool(out);
    }
    forall env: Env, inp: Inputs | OperandsShown(nodes, g.gates, values, env, inp, k)
      ensures Shows(g.gates, inp, value, Eval(nodes, env)[i])
    {
      EvalAt(nodes, env, i);
      OperandShownIn(nodes, g, values, env, inp, i, c);
      OperandShownIn(nodes, g, values, env, inp, i, t);
      OperandShownIn(nodes, g, values, env, inp, i, e);
    }
  }

  /** The selection is built from the default backwards, so that the first true selector wins. */
  method BlastSelect(g: GateArena, nodes: seq<Node>, values: Values, i: TermId) returns (value: BlastedValue)
    requires g.Valid() && OperandsBlasted(nodes, g.gates, values, i) && nodes[i].kind.SelectBv?
    modifies g`gates, g`ids
    ensures Circuits.Grew(g) && Blasted(nodes, g.gates, values, i, value)
  {
    hide Gate, GateArena.Valid, Carried, Eval, OperandsShown;
    PrefixIsGrown(g.gates, g.gates);
    var k := nodes[i].kind;
    var cases, default := k.cases, k.default;
    assert SortOf(nodes, i, k) == Some(nodes[i].sort);
    BvOperand(nodes, g.gates, values, i, default);
    var result := BvOf(values, default);
    forall env: Env, inp: Inputs | OperandsShown(nodes, g.gates, values, env, inp, k)
      ensures SelectedSoFar(nodes, g.gates, env, inp, cases[|cases|..], default, result)
    {
      OperandShownIn(nodes, g, values, env, inp, i, default);
    }
    var n := |cases|;
    while n > 0
      invariant 0 <= n <= |cases|
      invariant Circuits.Drives(g, result) && |result| == Width(nodes, default)
      invariant ShapedValues(nodes, g.gates, values)
      invariant forall env: Env, inp: Inputs {:trigger OperandsShown(nodes, g.gates, values, env, inp, k)} ::
                  OperandsShown(nodes, g.gates, values, env, inp, k) ==>
                    SelectedSoFar(nodes, g.gates, env, inp, cases[n..], default, result)
    {
      n := n - 1;
      CaseOperands(nodes, g.gates, values, i, n);
      var selector, chosen := cases[n].0, cases[n].1;
      ghost var was, before := g.gates, result;
      result := Circuits.MuxBits(g, BoolOf(values, selector), BvOf(values, chosen), result);
      forall env: Env, inp: Inputs | OperandsShown(nodes, g.gates, values, env, inp, k)
        ensures SelectedSoFar(nodes, g.gates, env, inp, cases[n..], default, result)
      {
        OperandsShownBack(nodes, was, g.gates, values, env, inp, k);
        assert SelectedSoFar(nodes, was, env, inp, cases[n + 1..], default, before);
        assert cases[n..][0] == cases[n] && cases[n..][1..] == cases[n + 1..];
        OperandShownIn(nodes, g, values, env, inp, i, selector);
        OperandShownIn(nodes, g, values, env, inp, i, chosen);
      }
    }
    value := BlastedBv(result);
    forall env: Env, inp: Inputs | OperandsShown(nodes, g.gates, values, env, inp, k)
      ensures Shows(g.gates, inp, value, Eval(nodes, env)[i])
    {
      assert cases[0..] == cases;
      EvalAt(nodes, env, i);
    }
  }

  ghost predicate SelectedSoFar(nodes: seq<Node>, g: seq<GateKind>, env: Env, inp: Inputs,
                                rest: seq<(TermId, TermId)>, default: TermId, result: Circuits.Bits)
  {
    Carried(g, inp, result) == BvAt(Eval(nodes, env), SelectAt(Eval(nodes, env), rest, default))
  }

  lemma {:induction false} CaseOperands(nodes: seq<Node>, g: seq<GateKind>, values: Values, i: TermId, n: nat)
    requires OperandsBlasted(nodes, g, values, i) && nodes[i].kind.SelectBv? && n < |nodes[i].kind.cases|
    ensures var (s, c) := nodes[i].kind.cases[n];
            && s in Children(nodes[i].kind) && c in Children(nodes[i].kind)
            && IsBool(nodes, i, s) && SameBv(nodes, i, c, nodes[i].kind.default)
            && BoolOf(values, s) < |g| && InRange(g, BvOf(values, c))
            && |BvOf(values, c)| == Width(nodes, nodes[i].kind.default)
  {
    hide Children;
    var k := nodes[i].kind;
    assert SortOf(nodes, i, k) == Some(nodes[i].sort);
    CaseInChildren(k, n);
    BvOperand(nodes, g, values, i, k.cases[n].1);
  }

  lemma {:induction false} OperandsShownBack(nodes: seq<Node>, was: seq<GateKind>, g: seq<GateKind>, values: Values,
                                             env: Env, inp: Inputs, k: NodeKind)
    requires Grown(was, g) && ShapedValues(nodes, was, values) && OperandsShown(nodes, g, values, env, inp, k)
    ensures OperandsShown(nodes, was, values, env, inp, k) && ShapedValues(nodes, g, values)
  {
    hide Gate, Carried, Eval;
  }

  method BlastPredicate(g: GateArena, nodes: seq<Node>, values: Values, i: TermId) returns (value: BlastedValue)
    requires g.Valid() && OperandsBlasted(nodes, g.gates, values, i)
    requires var k := nodes[i].kind; k.CompareBv? || k.NegOverflows?
    modifies g`gates, g`ids
    ensures Circuits.Grew(g) && Blasted(nodes, g.gates, values, i, value)
  {
    hide Gate, GateArena.Valid, Carried, Eval, OperandsShown, CompareValue, NegOverflow;
    var k := nodes[i].kind;
    assert SortOf(nodes, i, k) == Some(nodes[i].sort);
    var out;
    if k.CompareBv? {
      BvOperand(nodes, g.gates, values, i, k.a);
      BvOperand(nodes, g.gates, values, i, k.b);
      out := BlastCompare(g, k.cop, BvOf(values, k.a), BvOf(values, k.b));
    } else {
      BvOperand(nodes, g.gates, values, i, k.x);
      out := Circuits.NegOverflows(g, BvOf(values, k.x));
    }
    value := BlastedBool(out);
    forall env: Env, inp: Inputs | OperandsShown(nodes, g.gates, values, env, inp, k)
      ensures Shows(g.gates, inp, value, Eval(nodes, env)[i])
    {
      EvalAt(nodes, env, i);
      if k.CompareBv? {
        OperandShownIn(nodes, g, values, env, inp, i, k.a);
        OperandShownIn(nodes, g, values, env, inp, i, k.b);
      } else {
        OperandShownIn(nodes, g, values, env, inp, i, k.x);
      }
    }
  }

  method BlastConnective(g: GateArena, nodes: seq<Node>, values: Values, i: TermId) returns (value: BlastedValue)
    requires g.Valid() && OperandsBlasted(nodes, g.gates, values, i)
    requires var k := nodes[i].kind; k.NotBool? || k.BinaryBool?
    modifies g`gates, g`ids
    ensures Circuits.Grew(g) && Blasted(nodes, g.gates, values, i, value)
  {
    hide Gate, GateArena.Valid, Carried, Eval, OperandsShown, BoolOpValue;
    var k := nodes[i].kind;
    assert SortOf(nodes, i, k) == Some(nodes[i].sort);
    var out;
    if k.NotBool? {
      assert k.x in Children(k);
      out := g.Negate(BoolOf(values, k.x));
    } else {
      assert k.a in Children(k) && k.b in Children(k);
      out := BlastBool(g, k.lop, BoolOf(values, k.a), BoolOf(values, k.b));
    }
    value := BlastedBool(out);
    forall env: Env, inp: Inputs | OperandsShown(nodes, g.gates, values, env, inp, k)
      ensures Shows(g.gates, inp, value, Eval(nodes, env)[i])
    {
      EvalAt(nodes, env, i);
      if k.NotBool? {
        OperandShownIn(nodes, g, values, env, inp, i, k.x);
      } else {
        OperandShownIn(nodes, g, values, env, inp, i, k.a);
        OperandShownIn(nodes, g, values, env, inp, i, k.b);
      }
    }
  }

  /** Blasts one node whose operands have been blasted. */
  method BlastNode(g: GateArena, nodes: seq<Node>, values: Values, i: TermId) returns (value: BlastedValue)
    requires g.Valid() && OperandsBlasted(nodes, g.gates, values, i) && !IsVariable(nodes[i].kind)
    modifies g`gates, g`ids
    ensures Circuits.Grew(g) && Blasted(nodes, g.gates, values, i, value)
  {
    hide Gate, GateArena.Valid, Carried, Eval, OperandsShown, Blasted;
    PrefixIsGrown(g.gates, g.gates);
    var k := nodes[i].kind;
    if k.ConstBv? || k.ConstBool? {
      value := BlastConst(g, nodes, values, i);
    } else if k.BinaryBv? && k.bop == OpMul {
      value := BlastMul(g, nodes, values, i);
    } else if k.UnaryBv? || k.BinaryBv? {
      value := BlastOperator(g, nodes, values, i);
    } else if k.ExtractBv? || k.ExtendBv? || k.RepeatBv? || k.RotateBv? {
      value := BlastWiring(g, nodes, values, i);
    } else if k.ConcatBv? {
      value := BlastConcat(g, nodes, values, i);
    } else if k.IteBv? || k.IteBool? {
      value := BlastIte(g, nodes, values, i);
    } else if k.SelectBv? {
      value := BlastSelect(g, nodes, values, i);
    } else if k.CompareBv? || k.NegOverflows? {
      value := BlastPredicate(g, nodes, values, i);
    } else {
      value := BlastConnective(g, nodes, values, i);
    }
  }

  // --------------------------------------------------------------------- variables

  function TotalBits(variables: seq<BlastedVariable>): nat {
    if variables == [] then 0 else
      var n := |variables| - 1;
      TotalBits(variables[..n]) + |variables[n].bits|
  }

  /** The bits an assignment gives a variable. */
  function VariableBits(v: BlastedVariable, env: Env): Bv {
    match v.sort
    case BoolSort => [env.bools(v.term)]
    case BvSort(w) => FromInt(env.bvs(v.term), w)
  }

  ghost predicate DescribesVariable(nodes: seq<Node>, v: BlastedVariable) {
    && v.term < |nodes| && v.sort == nodes[v.term].sort
    && |v.bits| == (if v.sort.BvSort? then v.sort.width else 1)
    && match nodes[v.term].kind
       case VarBv(_, name, external) => v.name == name && v.external == external
       case VarBool(name, external) => v.name == name && v.external == external
       case _ => false
  }

  /** Blasted variables are variable nodes in increasing order, and their bits are the inputs
      numbered consecutively over all of them. */
  ghost predicate VariablesOk(nodes: seq<Node>, g: seq<GateKind>, variables: seq<BlastedVariable>) {
    && AllDescribe(nodes, variables)
    && (forall v {:trigger variables[v]} :: 0 <= v < |variables| ==>
          InputsFrom(g, variables[v].bits, TotalBits(variables[..v])))
    && (forall u, v {:trigger variables[u], variables[v]} :: 0 <= u < v < |variables| ==>
          variables[u].term < variables[v].term)
  }

  ghost predicate InputsFrom(g: seq<GateKind>, bits: Circuits.Bits, base: nat) {
    forall j :: 0 <= j < |bits| ==> bits[j] < |g| && g[bits[j]] == Input(base + j)
  }

  /** Gate inputs and assignment give every blasted variable the same bits. */
  ghost predicate Agrees(g: seq<GateKind>, variables: seq<BlastedVariable>, env: Env, inp: Inputs) {
    forall v {:trigger variables[v]} :: 0 <= v < |variables| ==>
      Carried(g, inp, variables[v].bits) == VariableBits(variables[v], env)
  }

  function AllBits(variables: seq<BlastedVariable>, env: Env): Bv {
    if variables == [] then [] else
      var n := |variables| - 1;
      AllBits(variables[..n], env) + VariableBits(variables[n], env)
  }

  /** The gate inputs that carry an assignment. */
  function InputsOf(variables: seq<BlastedVariable>, env: Env): Inputs {
    var bits := AllBits(variables, env);
    (k: nat) => k < |bits| && bits[k]
  }

  ghost predicate AllDescribe(nodes: seq<Node>, variables: seq<BlastedVariable>) {
    forall u {:trigger variables[u]} :: 0 <= u < |variables| ==> DescribesVariable(nodes, variables[u])
  }

  lemma {:induction false} VariableBitsLength(nodes: seq<Node>, v: BlastedVariable, env: Env)
    requires DescribesVariable(nodes, v)
    ensures |VariableBits(v, env)| == |v.bits|
  {}

  lemma {:induction false} AllBitsLength(nodes: seq<Node>, variables: seq<BlastedVariable>, env: Env)
    requires AllDescribe(nodes, variables)
    ensures |AllBits(variables, env)| == TotalBits(variables)
  {
    hide DescribesVariable, VariableBits;
    if variables != [] {
      var n := |variables| - 1;
      assert AllDescribe(nodes, variables[..n]);
      AllBitsLength(nodes, variables[..n], env);
      VariableBitsLength(nodes, variables[n], env);
    }
  }

  lemma {:induction false} AllBitsAt(nodes: seq<Node>, variables: seq<BlastedVariable>, env: Env, v: nat)
    requires AllDescribe(nodes, variables) && v < |variables|
    ensures var base := TotalBits(variables[..v]);
            && base + |variables[v].bits| <= |AllBits(variables, env)|
            && AllBits(variables, env)[base..base + |variables[v].bits|] == VariableBits(variables[v], env)
    decreases |variables|
  {
    hide DescribesVariable, VariableBits;
    var n := |variables| - 1;
    var init := variables[..n];
    assert AllDescribe(nodes, init);
    AllBitsLength(nodes, init, env);
    VariableBitsLength(nodes, variables[v], env);
    if v < n {
      AllBitsAt(nodes, init, env, v);
      assert init[..v] == variables[..v];
    }
  }

  /** Every assignment is carried by some gate inputs. */
  lemma {:induction false} InputsAgree(nodes: seq<Node>, g: seq<GateKind>, variables: seq<BlastedVariable>, env: Env)
    requires VariablesOk(nodes, g, variables)
    ensures Agrees(g, variables, env, InputsOf(variables, env))
  {
    hide DescribesVariable, VariableBits, AllBits, TotalBits, InputsOf, InputsFrom, Carried;
    var inp := InputsOf(variables, env);
    forall v | 0 <= v < |variables|
      ensures Carried(g, inp, variables[v].bits) == VariableBits(variables[v], env)
    {
      var base := TotalBits(variables[..v]);
      VariableBitsLength(nodes, variables[v], env);
      AllBitsAt(nodes, variables, env, v);
      InputsCarry(g, variables, env, variables[v].bits, base);
    }
  }

  lemma {:induction false} InputsCarry(g: seq<GateKind>, variables: seq<BlastedVariable>, env: Env, bits: Circuits.Bits,
                                       base: nat)
    requires InputsFrom(g, bits, base) && base + |bits| <= |AllBits(variables, env)|
    ensures Carried(g, InputsOf(variables, env), bits) == AllBits(variables, env)[base..base + |bits|]
  {
    hide AllBits;
    forall j | 0 <= j < |bits|
      ensures Gate(g, InputsOf(variables, env), bits[j]) == AllBits(variables, env)[base + j]
    {
      assert g[bits[j]] == Input(base + j);
    }
  }

  function LookUp(variables: seq<BlastedVariable>, term: TermId): Option<BlastedVariable> {
    if variables == [] then None
    else if variables[0].term == term then Some(variables[0])
    else LookUp(variables[1..], term)
  }

  /** The assignment that gate inputs stand for. */
  function EnvOf(g: seq<GateKind>, variables: seq<BlastedVariable>, inp: Inputs): Env {
    Env((t: TermId) => var v := LookUp(variables, t); v.Some? && v.value.bits != [] && Gate(g, inp, v.value.bits[0]),
        (t: TermId) => var v := LookUp(variables, t); if v.Some? then Val(Carried(g, inp, v.value.bits)) else 0)
  }

  lemma {:induction false} LookUpFinds(variables: seq<BlastedVariable>, v: nat)
    requires v < |variables|
    requires forall u, w {:trigger variables[u], variables[w]} :: 0 <= u < w < |variables| ==>
               variables[u].term < variables[w].term
    ensures LookUp(variables, variables[v].term) == Some(variables[v])
  {
    if v > 0 {
      LookUpFinds(variables[1..], v - 1);
    }
  }

  /** Every choice of gate inputs stands for an assignment. */
  lemma {:induction false} EnvAgrees(nodes: seq<Node>, g: seq<GateKind>, variables: seq<BlastedVariable>, inp: Inputs)
    requires VariablesOk(nodes, g, variables)
    ensures Agrees(g, variables, EnvOf(g, variables, inp), inp)
  {
    var env := EnvOf(g, variables, inp);
    forall v | 0 <= v < |variables|
      ensures Carried(g, inp, variables[v].bits) == VariableBits(variables[v], env)
    {
      LookUpFinds(variables, v);
      assert DescribesVariable(nodes, variables[v]);
      FromIntVal(Carried(g, inp, variables[v].bits));
    }
  }

  // ----------------------------------------------------------------- the whole query

  /** Whenever inputs and assignment agree, every blasted term shows its value. */
  ghost predicate AllShown(nodes: seq<Node>, g: seq<GateKind>, variables: seq<BlastedVariable>, values: Values) {
    forall env: Env, inp: Inputs {:trigger Agrees(g, variables, env, inp)} :: Agrees(g, variables, env, inp) ==>
      forall c {:trigger values[c]} :: 0 <= c < |values| && values[c].Some? ==> Shown(nodes, g, values, env, inp, c)
  }

  predicate Included(nodes: seq<Node>, reachable: seq<bool>, wantModel: bool, j: TermId)
    requires j < |nodes| == |reachable|
  {
    reachable[j] || (wantModel && IsVariable(nodes[j].kind))
  }

  ghost predicate Covers(nodes: seq<Node>, variables: seq<BlastedVariable>, values: Values) {
    forall c {:trigger values[c]} ::
      0 <= c < |values| && c < |nodes| && values[c].Some? && IsVariable(nodes[c].kind) ==>
        exists v :: 0 <= v < |variables| && variables[v].term == c
  }

  /** What holds after the first `n` nodes: the loop invariant of the blaster. */
  ghost predicate BlastedUpTo(nodes: seq<Node>, g: seq<GateKind>, inputs: nat, reachable: seq<bool>, wantModel: bool,
                              n: nat, values: Values, variables: seq<BlastedVariable>)
  {
    && n <= |nodes| == |reachable|
    && ShapedValues(nodes, g, values)
    && VariablesOk(nodes, g, variables) && inputs == TotalBits(variables)
    && (forall v {:trigger variables[v]} :: 0 <= v < |variables| ==> variables[v].term < n)
    && (forall j {:trigger values[j]} :: 0 <= j < n && Included(nodes, reachable, wantModel, j) ==> values[j].Some?)
    && Covers(nodes, variables, values)
    && AllShown(nodes, g, variables, values)
  }

  lemma {:induction false} AgreesBack(nodes: seq<Node>, g: seq<GateKind>, h: seq<GateKind>,
                                      variables: seq<BlastedVariable>, more: seq<BlastedVariable>, env: Env,
                                      inp: Inputs)
    requires Grown(g, h) && VariablesOk(nodes, g, variables) && variables <= more && Agrees(h, more, env, inp)
    ensures Agrees(g, variables, env, inp)
  {
    hide Gate, Carried, VariableBits, DescribesVariable;
    forall v | 0 <= v < |variables|
      ensures Carried(g, inp, variables[v].bits) == VariableBits(variables[v], env)
    {
      assert more[v] == variables[v];
      assert InputsFrom(g, variables[v].bits, TotalBits(variables[..v]));
    }
  }

  lemma {:induction false} VariablesKept(nodes: seq<Node>, g: seq<GateKind>, h: seq<GateKind>,
                                         variables: seq<BlastedVariable>)
    requires Grown(g, h) && VariablesOk(nodes, g, variables)
    ensures VariablesOk(nodes, h, variables)
  {
    hide Gate, Carried, DescribesVariable, TotalBits;
    forall v | 0 <= v < |variables| ensures InputsFrom(h, variables[v].bits, TotalBits(variables[..v])) {
      assert InputsFrom(g, variables[v].bits, TotalBits(variables[..v]));
    }
  }

  lemma {:induction false} ShapedKept(nodes: seq<Node>, g: seq<GateKind>, h: seq<GateKind>, values: Values)
    requires Grown(g, h) && ShapedValues(nodes, g, values)
    ensures ShapedValues(nodes, h, values)
  {
    hide Gate, Carried;
  }

  /** Growing the arena and adding a value that is shown keeps everything shown. */
  lemma {:induction false} AllShownStep(nodes: seq<Node>, g: seq<GateKind>, h: seq<GateKind>,
                                        variables: seq<BlastedVariable>, more: seq<BlastedVariable>, values: Values,
                                        i: TermId, value: BlastedValue)
    requires Grown(g, h) && ShapedValues(nodes, g, values) && VariablesOk(nodes, g, variables) && variables <= more
    requires AllShown(nodes, g, variables, values) && i < |nodes|
    requires forall env: Env, inp: Inputs {:trigger Agrees(h, more, env, inp)} :: Agrees(h, more, env, inp) ==>
               (forall c {:trigger values[c]} :: 0 <= c < |values| && values[c].Some? ==>
                  Shown(nodes, h, values, env, inp, c)) ==>
                 Shows(h, inp, value, Eval(nodes, env)[i])
    ensures AllShown(nodes, h, more, values[i := Some(value)])
  {
    hide Gate, Carried, Eval, VariablesOk, Agrees;
    var next := values[i := Some(value)];
    forall env: Env, inp: Inputs | Agrees(h, more, env, inp)
      ensures forall c {:trigger next[c]} :: 0 <= c < |next| && next[c].Some? ==> Shown(nodes, h, next, env, inp, c)
    {
      AgreesBack(nodes, g, h, variables, more, env, inp);
      forall c {:trigger values[c]} | 0 <= c < |values| && values[c].Some?
        ensures Shown(nodes, h, values, env, inp, c)
      {
        assert Shown(nodes, g, values, env, inp, c);
        ShowsKept(g, h, inp, values[c].value, nodes[c].sort);
      }
      assert Shows(h, inp, value, Eval(nodes, env)[i]);
      forall c {:trigger next[c]} | 0 <= c < |next| && next[c].Some? ensures Shown(nodes, h, next, env, inp, c) {
        if c != i { assert Shown(nodes, h, values, env, inp, c) && next[c] == values[c]; }
      }
    }
  }

  /** Blasting an operator node keeps the invariant. */
  lemma {:induction false} NodeStep(nodes: seq<Node>, g: seq<GateKind>, h: seq<GateKind>, inputs: nat,
                                    reachable: seq<bool>, wantModel: bool, i: nat, values: Values,
                                    variables: seq<BlastedVariable>, value: BlastedValue)
    requires WellFormed(nodes) && i < |nodes|
    requires BlastedUpTo(nodes, g, inputs, reachable, wantModel, i, values, variables)
    requires OperandsBlasted(nodes, g, values, i) && !IsVariable(nodes[i].kind)
    requires Grown(g, h) && Blasted(nodes, h, values, i, value)
    ensures BlastedUpTo(nodes, h, inputs, reachable, wantModel, i + 1, values[i := Some(value)], variables)
  {
    hide Gate, Carried, Eval, VariablesOk, Agrees, Shows, TotalBits, Children;
    VariablesKept(nodes, g, h, variables);
    ShapedKept(nodes, g, h, values);
    forall env: Env, inp: Inputs | Agrees(h, variables, env, inp)
      && forall c {:trigger values[c]} :: 0 <= c < |values| && values[c].Some? ==> Shown(nodes, h, values, env, inp, c)
      ensures Shows(h, inp, value, Eval(nodes, env)[i])
    {
      assert OperandsShown(nodes, h, values, env, inp, nodes[i].kind);
    }
    AllShownStep(nodes, g, h, variables, variables, values, i, value);
  }

  /** The operands of an included node come first and are included. */
  lemma {:induction false} OperandsReady(nodes: seq<Node>, g: seq<GateKind>, inputs: nat, reachable: seq<bool>,
                                         wantModel: bool, i: nat, values: Values, variables: seq<BlastedVariable>)
    requires WellFormed(nodes) && i < |nodes|
    requires BlastedUpTo(nodes, g, inputs, reachable, wantModel, i, values, variables)
    requires Closed(nodes, Marked(reachable)) && reachable[i]
    ensures OperandsBlasted(nodes, g, values, i)
  {
    hide Gate, Carried, VariablesOk, AllShown, Covers, Shaped, Children;
    ChildrenBelow(nodes, i);
    assert i in Marked(reachable);
    forall c | c in Children(nodes[i].kind) ensures c < |values| && values[c].Some? {
      var j :| 0 <= j < |Children(nodes[i].kind)| && Children(nodes[i].kind)[j] == c;
      assert c in Marked(reachable);
      assert Included(nodes, reachable, wantModel, c);
    }
  }

  /** A variable's bits are fresh inputs. */
  method NewInputs(g: GateArena, count: nat) returns (bits: Circuits.Bits)
    requires g.Valid()
    modifies g
    ensures Circuits.Drives(g, bits) && |bits| == count
    ensures g.inputCount == old(g.inputCount) + count && InputsFrom(g.gates, bits, old(g.inputCount))
  {
    hide Gate, Carried, GateArena.Valid;
    PrefixIsGrown(g.gates, g.gates);
    bits := [];
    for j := 0 to count
      invariant Circuits.Drives(g, bits) && |bits| == j
      invariant g.inputCount == old(g.inputCount) + j && InputsFrom(g.gates, bits, old(g.inputCount))
    {
      var bit := g.NewInput();
      bits := bits + [bit];
    }
  }

  /** The value and the record of variable node `i` over the input gates `bits`. */
  function VariableOf(nodes: seq<Node>, i: TermId, bits: Circuits.Bits): BlastedVariable
    requires i < |nodes| && IsVariable(nodes[i].kind)
  {
    BlastedVariable(i, nodes[i].kind.name, nodes[i].kind.external, nodes[i].sort, bits)
  }

  function VariableValue(nodes: seq<Node>, i: TermId, bits: Circuits.Bits): BlastedValue
    requires i < |nodes| && bits != []
  {
    if nodes[i].kind.VarBv? then BlastedBv(bits) else BlastedBool(bits[0])
  }

  function InputWidth(k: NodeKind): nat { if k.VarBv? then k.width else 1 }

  lemma {:induction false} VariableShown(nodes: seq<Node>, h: seq<GateKind>, i: TermId, bits: Circuits.Bits, env: Env,
                                         inp: Inputs)
    requires WellFormed(nodes) && i < |nodes| && IsVariable(nodes[i].kind) && |bits| == InputWidth(nodes[i].kind)
    ensures bits != [] && DescribesVariable(nodes, VariableOf(nodes, i, bits))
    ensures InRange(h, bits) ==> Shaped(h, VariableValue(nodes, i, bits), nodes[i].sort)
    ensures Carried(h, inp, bits) == VariableBits(VariableOf(nodes, i, bits), env) ==>
              Shows(h, inp, VariableValue(nodes, i, bits), Eval(nodes, env)[i])
  {
    hide Gate, Eval;
    assert SortOf(nodes, i, nodes[i].kind) == Some(nodes[i].sort);
    EvalAt(nodes, env, i);
    if nodes[i].kind.VarBool? {
      assert Carried(h, inp, bits)[0] == Gate(h, inp, bits[0]);
    }
  }

  lemma {:induction false} VariablesPushed(nodes: seq<Node>, g: seq<GateKind>, h: seq<GateKind>,
                                           variables: seq<BlastedVariable>, v: BlastedVariable)
    requires Grown(g, h) && VariablesOk(nodes, g, variables) && DescribesVariable(nodes, v)
    requires InputsFrom(h, v.bits, TotalBits(variables))
    requires forall u {:trigger variables[u]} :: 0 <= u < |variables| ==> variables[u].term < v.term
    ensures VariablesOk(nodes, h, variables + [v]) && TotalBits(variables + [v]) == TotalBits(variables) + |v.bits|
  {
    hide Gate, Carried, DescribesVariable, InputsFrom;
    VariablesKept(nodes, g, h, variables);
    var more := variables + [v];
    assert more[..|variables|] == variables;
    forall u | 0 <= u < |more| ensures InputsFrom(h, more[u].bits, TotalBits(more[..u])) {
      if u < |variables| { assert more[..u] == variables[..u] && more[u] == variables[u]; }
    }
  }

  /** Blasting a variable node keeps the invariant. */
  lemma {:induction false} VariableStep(nodes: seq<Node>, g: seq<GateKind>, h: seq<GateKind>, inputs: nat,
                                        reachable: seq<bool>, wantModel: bool, i: nat, values: Values,
                                        variables: seq<BlastedVariable>, bits: Circuits.Bits)
    requires WellFormed(nodes) && i < |nodes|
    requires BlastedUpTo(nodes, g, inputs, reachable, wantModel, i, values, variables)
    requires IsVariable(nodes[i].kind) && |bits| == InputWidth(nodes[i].kind) > 0
    requires Grown(g, h) && InRange(h, bits) && InputsFrom(h, bits, inputs)
    ensures BlastedUpTo(nodes, h, inputs + |bits|, reachable, wantModel, i + 1,
                        values[i := Some(VariableValue(nodes, i, bits))], variables + [VariableOf(nodes, i, bits)])
  {
    hide Gate, Carried, Eval, VariablesOk, Shows, TotalBits, VariableOf, VariableValue, DescribesVariable, InputsFrom;
    var v, value := VariableOf(nodes, i, bits), VariableValue(nodes, i, bits);
    assert v.term == i && v.bits == bits by { VariableFields(nodes, i, bits); }
    var more, next := variables + [v], values[i := Some(value)];
    VariableShown(nodes, h, i, bits, Env(_ => false, _ => 0), _ => false);
    VariablesPushed(nodes, g, h, variables, v);
    ShapedKept(nodes, g, h, values);
    forall env: Env, inp: Inputs | Agrees(h, more, env, inp)
      ensures Shows(h, inp, value, Eval(nodes, env)[i])
    {
      assert more[|variables|] == v;
      VariableShown(nodes, h, i, bits, env, inp);
    }
    AllShownStep(nodes, g, h, variables, more, values, i, value);
    CoversStep(nodes, values, variables, i, v, value);
  }

  lemma {:induction false} CoversStep(nodes: seq<Node>, values: Values, variables: seq<BlastedVariable>, i: TermId,
                                      v: BlastedVariable, value: BlastedValue)
    requires Covers(nodes, variables, values) && i < |values| && v.term == i
    ensures Covers(nodes, variables + [v], values[i := Some(value)])
  {
    var more, next := variables + [v], values[i := Some(value)];
    forall c {:trigger next[c]} | 0 <= c < |next| && c < |nodes| && next[c].Some? && IsVariable(nodes[c].kind)
      ensures exists u :: 0 <= u < |more| && more[u].term == c
    {
      if c == i {
        assert more[|variables|].term == c;
      } else {
        assert next[c] == values[c];
        var u :| 0 <= u < |variables| && variables[u].term == c;
        assert more[u].term == c;
      }
    }
  }

  lemma {:induction false} VariableFields(nodes: seq<Node>, i: TermId, bits: Circuits.Bits)
    requires i < |nodes| && IsVariable(nodes[i].kind)
    ensures VariableOf(nodes, i, bits).term == i && VariableOf(nodes, i, bits).bits == bits
  {}

  /** The blasted query computes satisfaction: under inputs that carry an assignment, the assertion
      gate is true exactly when the assignment satisfies every root. */
  ghost predicate Faithful(nodes: seq<Node>, roots: seq<TermId>, g: seq<GateKind>, assertion: GateId,
                           variables: seq<BlastedVariable>)
  {
    && assertion < |g| && VariablesOk(nodes, g, variables)
    && forall env: Env, inp: Inputs {:trigger Agrees(g, variables, env, inp)} ::
         Agrees(g, variables, env, inp) ==> (Gate(g, inp, assertion) <==> Satisfied(nodes, roots, env))
  }

  method BlastQuery(query: Query, limited: bool) returns (r: Result<BlastResult>)
    requires query.Valid()
    ensures r.Err? ==> limited && r.error == Timeout
    ensures r.Ok? ==> fresh(r.value.gates) && r.value.gates.Valid()
    ensures r.Ok? ==>
              Faithful(query.arena.nodes, query.Roots(), r.value.gates.gates, r.value.assertion, r.value.variables)
    ensures r.Ok? && query.wantModel ==> forall i {:trigger query.arena.nodes[i]} ::
                0 <= i < |query.arena.nodes| && IsVariable(query.arena.nodes[i].kind) ==>
                  exists v :: 0 <= v < |r.value.variables| && r.value.variables[v].term == i
  {
    hide Gate, Carried, Eval, GateArena.Valid, BlastedUpTo, OperandsBlasted, Blasted, SortOf, InputsFrom, Children;
    var nodes := query.arena.nodes;
    var g := new GateArena();
    var values: Values := seq(|nodes|, _ => None);
    var variables: seq<BlastedVariable> := [];
    var reached := ReachableTerms(query, limited);
    if reached.Err? { return Err(reached.error); }
    var reachable := reached.value;
    BlastStarts(nodes, g.gates, reachable, query.wantModel, values);
    for index := 0 to |nodes|
      invariant fresh(g) && g.Valid()
      invariant BlastedUpTo(nodes, g.gates, g.inputCount, reachable, query.wantModel, index, values, variables)
    {
      if index % 1024 == 0 {
        var ok := CheckLimits(limited);
        if !ok { return Err(Timeout); }
      }
      ghost var was, inputs := g.gates, g.inputCount;
      UpToLength(nodes, g.gates, g.inputCount, reachable, query.wantModel, index, values, variables);
      if !Included(nodes, reachable, query.wantModel, index) {
        SkipStep(nodes, g.gates, g.inputCount, reachable, query.wantModel, index, values, variables);
        continue;
      }
      if IsVariable(nodes[index].kind) {
        var bits := NewInputs(g, InputWidth(nodes[index].kind));
        InputWidthPositive(nodes, index);
        VariableStep(nodes, was, g.gates, inputs, reachable, query.wantModel, index, values, variables, bits);
        variables := variables + [VariableOf(nodes, index, bits)];
        values := values[index := Some(VariableValue(nodes, index, bits))];
      } else {
        OperandsReady(nodes, g.gates, g.inputCount, reachable, query.wantModel, index, values, variables);
        var value := BlastNode(g, nodes, values, index);
        NodeStep(nodes, was, g.gates, inputs, reachable, query.wantModel, index, values, variables, value);
        values := values[index := Some(value)];
      }
    }
    RootsReady(query, g.gates, g.inputCount, reachable, values, variables);
    var bits := seq(|query.Roots()|, i requires 0 <= i < |query.Roots()| => BoolOf(values, query.Roots()[i]));
    ghost var was := g.gates;
    var assertion := g.ConjoinAll(bits);
    AssertionFaithful(query, was, g.gates, g.inputCount, reachable, values, variables, bits, assertion);
    r := Ok(BlastResult(g, assertion, variables));
  }

  lemma {:induction false} BlastStarts(nodes: seq<Node>, g: seq<GateKind>, reachable: seq<bool>, wantModel: bool,
                                       values: Values)
    requires |reachable| == |nodes| == |values| && forall i :: 0 <= i < |values| ==> values[i] == None
    ensures BlastedUpTo(nodes, g, 0, reachable, wantModel, 0, values, [])
  {
    hide Gate, Carried, Eval;
  }

  lemma {:induction false} UpToLength(nodes: seq<Node>, g: seq<GateKind>, inputs: nat, reachable: seq<bool>,
                                      wantModel: bool, n: nat, values: Values, variables: seq<BlastedVariable>)
    requires BlastedUpTo(nodes, g, inputs, reachable, wantModel, n, values, variables)
    ensures |values| == |nodes| == |reachable| && inputs == TotalBits(variables)
  {}

  lemma {:induction false} SkipStep(nodes: seq<Node>, g: seq<GateKind>, inputs: nat, reachable: seq<bool>,
                                    wantModel: bool, n: nat, values: Values, variables: seq<BlastedVariable>)
    requires BlastedUpTo(nodes, g, inputs, reachable, wantModel, n, values, variables)
    requires n < |nodes| == |reachable| && !Included(nodes, reachable, wantModel, n)
    ensures BlastedUpTo(nodes, g, inputs, reachable, wantModel, n + 1, values, variables)
  {
    hide Gate, Carried, Eval, AllShown, VariablesOk, Covers, ShapedValues;
  }

  lemma {:induction false} InputWidthPositive(nodes: seq<Node>, i: TermId)
    requires WellFormed(nodes) && i < |nodes|
    ensures InputWidth(nodes[i].kind) > 0 || !IsVariable(nodes[i].kind)
  {
    assert SortOf(nodes, i, nodes[i].kind) == Some(nodes[i].sort);
  }

  lemma {:induction false} RootsReady(query: Query, g: seq<GateKind>, inputs: nat, reachable: seq<bool>, values: Values,
                                      variables: seq<BlastedVariable>)
    requires query.Valid() && SeqSet(StartTerms(query)) <= Marked(reachable)
    requires BlastedUpTo(query.arena.nodes, g, inputs, reachable, query.wantModel, |query.arena.nodes|, values,
                         variables)
    ensures forall i :: 0 <= i < |query.Roots()| ==>
              query.Roots()[i] < |values| && values[query.Roots()[i]].Some? && BoolOf(values, query.Roots()[i]) < |g|
  {
    hide Gate, Carried, Eval, AllShown, VariablesOk, Covers;
    RootsAreBool(query);
    var roots := query.Roots();
    forall i | 0 <= i < |roots| ensures roots[i] < |values| && values[roots[i]].Some? {
      assert StartTerms(query)[i] == roots[i] && roots[i] in SeqSet(StartTerms(query));
      assert Included(query.arena.nodes, reachable, query.wantModel, roots[i]);
    }
  }

  lemma {:induction false} AssertionFaithful(query: Query, g: seq<GateKind>, h: seq<GateKind>, inputs: nat,
                                             reachable: seq<bool>, values: Values, variables: seq<BlastedVariable>,
                                             bits: Circuits.Bits, assertion: GateId)
    requires query.Valid() && Grown(g, h) && assertion < |h|
    requires BlastedUpTo(query.arena.nodes, g, inputs, reachable, query.wantModel, |query.arena.nodes|, values,
                         variables)
    requires |bits| == |query.Roots()| && forall i :: 0 <= i < |bits| ==>
               query.Roots()[i] < |values| && values[query.Roots()[i]].Some?
                 && bits[i] == BoolOf(values, query.Roots()[i]) < |g|
    requires forall inp: Inputs :: Gate(h, inp, assertion) <==> forall i :: 0 <= i < |bits| ==> Gate(h, inp, bits[i])
    ensures Faithful(query.arena.nodes, query.Roots(), h, assertion, variables)
    ensures query.wantModel ==> forall i {:trigger query.arena.nodes[i]} ::
              0 <= i < |query.arena.nodes| && IsVariable(query.arena.nodes[i].kind) ==>
                exists v :: 0 <= v < |variables| && variables[v].term == i
  {
    hide Gate, Carried, Eval, VariablesOk, Agrees;
    var nodes, roots := query.arena.nodes, query.Roots();
    VariablesKept(nodes, g, h, variables);
    RootsAreBool(query);
    forall env: Env, inp: Inputs | Agrees(h, variables, env, inp)
      ensures Gate(h, inp, assertion) <==> Satisfied(nodes, roots, env)
    {
      AgreesBack(nodes, g, h, variables, variables, env, inp);
      forall i | 0 <= i < |bits| ensures Gate(h, inp, bits[i]) == BoolAt(Eval(nodes, env), roots[i]) {
        assert Shown(nodes, g, values, env, inp, roots[i]);
      }
    }
    forall i {:trigger nodes[i]} | query.wantModel && 0 <= i < |nodes| && IsVariable(nodes[i].kind)
      ensures exists v :: 0 <= v < |variables| && variables[v].term == i
    {
      assert Included(nodes, reachable, query.wantModel, i) && values[i].Some?;
    }
  }
}
