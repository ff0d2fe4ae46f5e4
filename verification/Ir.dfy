/** Terms: the hash-consed arena, the sorts of its nodes and the value of every node. */
module Ir {
  import opened BitVectors
  import opened Bytes
  import opened Wrappers

  const MAX_BV_WIDTH: nat := 65536

  type TermId = nat

  datatype Sort = BoolSort | BvSort(width: nat)

  datatype UnaryOp = OpNot | OpNeg

  datatype BinaryOp =
    | OpAnd | OpOr | OpXor | OpAdd | OpSub | OpMul
    | OpUDiv | OpURem | OpSDiv | OpSRem | OpSMod | OpShl | OpLShr | OpAShr

  datatype CompareOp =
    | CmpEq | CmpUlt | CmpUle | CmpSlt | CmpSle
    | OvfUAdd | OvfSAdd | OvfUSub | OvfSSub | OvfUMul | OvfSMul | OvfSDiv

  datatype BoolOp = BoolAnd | BoolOr | BoolImplies | BoolEq

  /** One node, its operators grouped by the sorts of their operands and result. */
  datatype NodeKind =
    | ConstBv(width: nat, bytes: seq<Byte>)
    | VarBv(width: nat, name: string, external: Option<nat>)
    | ConstBool(value: bool)
    | VarBool(name: string, external: Option<nat>)
    | UnaryBv(uop: UnaryOp, x: TermId)
    | BinaryBv(bop: BinaryOp, a: TermId, b: TermId)
    | ExtractBv(child: TermId, high: nat, low: nat)
    | ConcatBv(highPart: TermId, lowPart: TermId)
    | ExtendBv(signed: bool, child: TermId, extra: nat)
    | RepeatBv(child: TermId, count: nat)
    | RotateBv(left: bool, child: TermId, amount: nat)
    | IteBv(cond: TermId, thenValue: TermId, elseValue: TermId)
    | SelectBv(cases: seq<(TermId, TermId)>, default: TermId)
    | NotBool(x: TermId)
    | BinaryBool(lop: BoolOp, a: TermId, b: TermId)
    | IteBool(cond: TermId, thenValue: TermId, elseValue: TermId)
    | CompareBv(cop: CompareOp, a: TermId, b: TermId)
    | NegOverflows(x: TermId)

  datatype Node = Node(kind: NodeKind, sort: Sort)

  predicate IsVariable(k: NodeKind) { k.VarBv? || k.VarBool? }

  // ------------------------------------------------------------------------- sorts

  predicate ValidWidth(width: nat) { 1 <= width <= MAX_BV_WIDTH }

  predicate ValidSort(sort: Sort) { sort.BvSort? ==> ValidWidth(sort.width) }

  /** Term `x` is one of the first `n` nodes and a vector, or a Bool. */
  predicate IsBv(nodes: seq<Node>, n: nat, x: TermId) { x < n <= |nodes| && nodes[x].sort.BvSort? }
  predicate IsBool(nodes: seq<Node>, n: nat, x: TermId) { x < n <= |nodes| && nodes[x].sort.BoolSort? }

  function Width(nodes: seq<Node>, x: TermId): nat {
    if x < |nodes| && nodes[x].sort.BvSort? then nodes[x].sort.width else 0
  }

  predicate SameBv(nodes: seq<Node>, n: nat, a: TermId, b: TermId) {
    IsBv(nodes, n, a) && IsBv(nodes, n, b) && Width(nodes, a) == Width(nodes, b)
  }

  predicate CasesOk(nodes: seq<Node>, n: nat, cases: seq<(TermId, TermId)>, default: TermId) {
    forall i {:trigger cases[i]} :: 0 <= i < |cases| ==>
        IsBool(nodes, n, cases[i].0) && SameBv(nodes, n, cases[i].1, default)
  }

  function Sorted(ok: bool, sort: Sort): Option<Sort> { if ok then Some(sort) else None }

  function SizedBv(ok: bool, width: nat): Option<Sort> { Sorted(ok && ValidWidth(width), BvSort(width)) }

  /** The sort of `k` when its operands are among the first `n` nodes and have the sorts the
      operator demands. */
  function SortOf(nodes: seq<Node>, n: nat, k: NodeKind): Option<Sort> {
    match k
    case ConstBv(w, bytes) => SizedBv(Normalized(bytes, w), w)
    case VarBv(w, _, _) => SizedBv(true, w)
    case ConstBool(_) => Some(BoolSort)
    case VarBool(_, _) => Some(BoolSort)
    case UnaryBv(_, x) => Sorted(IsBv(nodes, n, x), BvSort(Width(nodes, x)))
    case BinaryBv(_, a, b) => Sorted(SameBv(nodes, n, a, b), BvSort(Width(nodes, a)))
    case ExtractBv(c, high, low) =>
      Sorted(IsBv(nodes, n, c) && low <= high < Width(nodes, c), BvSort(if low <= high then high - low + 1 else 0))
    case ConcatBv(h, l) => SizedBv(IsBv(nodes, n, h) && IsBv(nodes, n, l), Width(nodes, h) + Width(nodes, l))
    case ExtendBv(_, c, extra) => SizedBv(IsBv(nodes, n, c), Width(nodes, c) + extra)
    case RepeatBv(c, count) => SizedBv(IsBv(nodes, n, c) && count > 0, Width(nodes, c) * count)
    case RotateBv(_, c, _) => Sorted(IsBv(nodes, n, c), BvSort(Width(nodes, c)))
    case IteBv(c, t, e) => Sorted(IsBool(nodes, n, c) && SameBv(nodes, n, t, e), BvSort(Width(nodes, t)))
    case SelectBv(cases, d) => Sorted(IsBv(nodes, n, d) && CasesOk(nodes, n, cases, d), BvSort(Width(nodes, d)))
    case NotBool(x) => Sorted(IsBool(nodes, n, x), BoolSort)
    case BinaryBool(_, a, b) => Sorted(IsBool(nodes, n, a) && IsBool(nodes, n, b), BoolSort)
    case IteBool(c, t, e) => Sorted(IsBool(nodes, n, c) && IsBool(nodes, n, t) && IsBool(nodes, n, e), BoolSort)
    case CompareBv(_, a, b) => Sorted(SameBv(nodes, n, a, b), BoolSort)
    case NegOverflows(x) => Sorted(IsBv(nodes, n, x), BoolSort)
  }

  /** Operands precede their users and every node has the sort of its operator. */
  predicate WellFormed(nodes: seq<Node>) {
    forall i {:trigger nodes[i]} :: 0 <= i < |nodes| ==> SortOf(nodes, i, nodes[i].kind) == Some(nodes[i].sort)
  }

  /** Sorts depend only on the nodes below the bound, and stay as the bound grows. */
  lemma {:induction false} SortKept(nodes: seq<Node>, more: seq<Node>, n: nat, m: nat, k: NodeKind)
    requires nodes <= more && n <= |nodes| && n <= m <= |more|
    ensures SortOf(nodes, n, k).Some? ==> SortOf(more, m, k) == SortOf(nodes, n, k)
    ensures n == m ==> SortOf(more, m, k) == SortOf(nodes, n, k)
  {
    if k.SelectBv? {
      assert CasesOk(nodes, n, k.cases, k.default) ==> CasesOk(more, m, k.cases, k.default);
    }
  }

  lemma {:induction false} WellFormedPrefix(nodes: seq<Node>, n: nat)
    requires WellFormed(nodes) && n <= |nodes|
    ensures WellFormed(nodes[..n])
  {
    forall i | 0 <= i < n ensures SortOf(nodes[..n], i, nodes[i].kind) == Some(nodes[i].sort) {
      assert nodes[i].sort == nodes[..n][i].sort;
      SortKept(nodes[..n], nodes, i, i, nodes[i].kind);
    }
  }

  lemma {:induction false} WellFormedSnoc(nodes: seq<Node>, node: Node)
    requires WellFormed(nodes) && SortOf(nodes, |nodes|, node.kind) == Some(node.sort)
    ensures WellFormed(nodes + [node])
  {
    var more := nodes + [node];
    forall i | 0 <= i < |more| ensures SortOf(more, i, more[i].kind) == Some(more[i].sort) {
      SortKept(nodes, more, i, i, more[i].kind);
    }
  }

  /** Vectors are never empty. */
  lemma {:induction false} WidthPositive(nodes: seq<Node>, x: TermId)
    requires WellFormed(nodes) && IsBv(nodes, |nodes|, x)
    ensures ValidWidth(Width(nodes, x))
    decreases x
  {
    assert SortOf(nodes, x, nodes[x].kind) == Some(nodes[x].sort);
    match nodes[x].kind
    case UnaryBv(_, c) => WidthPositive(nodes, c);
    case BinaryBv(_, a, _) => WidthPositive(nodes, a);
    case ExtractBv(c, _, _) => WidthPositive(nodes, c);
    case RotateBv(_, c, _) => WidthPositive(nodes, c);
    case IteBv(_, t, _) => WidthPositive(nodes, t);
    case SelectBv(_, d) => WidthPositive(nodes, d);
    case _ =>
  }

  // ------------------------------------------------------------------------ values

  datatype Value = BoolValue(b: bool) | BvValue(bits: Bv)

  /** A total assignment, keyed by the term id of the variable. */
  datatype Env = Env(bools: TermId -> bool, bvs: TermId -> int)

  function BvAt(vals: seq<Value>, x: TermId): Bv { if x < |vals| && vals[x].BvValue? then vals[x].bits else [] }
  predicate BoolAt(vals: seq<Value>, x: TermId) { x < |vals| && vals[x].BoolValue? && vals[x].b }

  function UnaryValue(op: UnaryOp, x: Bv): Bv {
    match op
    case OpNot => BvNot(x)
    case OpNeg => BvNeg(x)
  }

  function BinaryValue(op: BinaryOp, x: Bv, y: Bv): Bv {
    match op
    case OpAnd => BvAnd(x, y)
    case OpOr => BvOr(x, y)
    case OpXor => BvXor(x, y)
    case OpAdd => BvAdd(x, y)
    case OpSub => BvSub(x, y)
    case OpMul => BvMul(x, y)
    case OpUDiv => BvUDiv(x, y)
    case OpURem => BvURem(x, y)
    case OpSDiv => BvSDiv(x, y)
    case OpSRem => BvSRem(x, y)
    case OpSMod => BvSMod(x, y)
    case OpShl => BvShl(x, y)
    case OpLShr => BvLShr(x, y)
    case OpAShr => BvAShr(x, y)
  }

  predicate CompareValue(op: CompareOp, x: Bv, y: Bv) {
    match op
    case CmpEq => x == y
    case CmpUlt => BvUlt(x, y)
    case CmpUle => BvUle(x, y)
    case CmpSlt => BvSlt(x, y)
    case CmpSle => BvSle(x, y)
    case OvfUAdd => UAddOverflow(x, y)
    case OvfSAdd => SAddOverflow(x, y)
    case OvfUSub => USubOverflow(x, y)
    case OvfSSub => SSubOverflow(x, y)
    case OvfUMul => UMulOverflow(x, y)
    case OvfSMul => SMulOverflow(x, y)
    case OvfSDiv => SDivOverflow(x, y)
  }

  predicate BoolOpValue(op: BoolOp, p: bool, q: bool) {
    match op
    case BoolAnd => p && q
    case BoolOr => p || q
    case BoolImplies => p ==> q
    case BoolEq => p == q
  }

  /** The first case whose selector holds, or the default. */
  function SelectAt(vals: seq<Value>, cases: seq<(TermId, TermId)>, default: TermId): TermId {
    if cases == [] then default
    else if BoolAt(vals, cases[0].0) then cases[0].1
    else SelectAt(vals, cases[1..], default)
  }

  /** The value of a node of kind `k` and id `id`, given the values of earlier nodes. */
  function KindValue(k: NodeKind, id: TermId, env: Env, vals: seq<Value>): Value {
    match k
    case ConstBv(w, bytes) => BvValue(Decoded(bytes, w))
    case VarBv(w, _, _) => BvValue(FromInt(env.bvs(id), w))
    case ConstBool(v) => BoolValue(v)
    case VarBool(_, _) => BoolValue(env.bools(id))
    case UnaryBv(op, x) => BvValue(UnaryValue(op, BvAt(vals, x)))
    case BinaryBv(op, a, b) => BvValue(BinaryValue(op, BvAt(vals, a), BvAt(vals, b)))
    case ExtractBv(c, high, low) => BvValue(BvExtract(BvAt(vals, c), high, low))
    case ConcatBv(h, l) => BvValue(BvConcat(BvAt(vals, h), BvAt(vals, l)))
    case ExtendBv(signed, c, extra) =>
      BvValue(if signed then BvSignExtend(BvAt(vals, c), extra) else BvZeroExtend(BvAt(vals, c), extra))
    case RepeatBv(c, count) => BvValue(BvRepeat(BvAt(vals, c), count))
    case RotateBv(left, c, amount) =>
      BvValue(if left then BvRotateLeft(BvAt(vals, c), amount) else BvRotateRight(BvAt(vals, c), amount))
    case IteBv(c, t, e) => BvValue(if BoolAt(vals, c) then BvAt(vals, t) else BvAt(vals, e))
    case SelectBv(cases, d) => BvValue(BvAt(vals, SelectAt(vals, cases, d)))
    case NotBool(x) => BoolValue(!BoolAt(vals, x))
    case BinaryBool(op, a, b) => BoolValue(BoolOpValue(op, BoolAt(vals, a), BoolAt(vals, b)))
    case IteBool(c, t, e) => BoolValue(if BoolAt(vals, c) then BoolAt(vals, t) else BoolAt(vals, e))
    case CompareBv(op, a, b) => BoolValue(CompareValue(op, BvAt(vals, a), BvAt(vals, b)))
    case NegOverflows(x) => BoolValue(NegOverflow(BvAt(vals, x)))
  }

  /** The values of all nodes, in order. */
  function Eval(nodes: seq<Node>, env: Env): (vals: seq<Value>)
    ensures |vals| == |nodes|
  {
    if nodes == [] then [] else
      var n := |nodes| - 1;
      var vals := Eval(nodes[..n], env);
      vals + [KindValue(nodes[n].kind, n, env, vals)]
  }

  /** A set of Bool terms holds under an assignment. */
  predicate Satisfied(nodes: seq<Node>, roots: seq<TermId>, env: Env) {
    forall i :: 0 <= i < |roots| ==> BoolAt(Eval(nodes, env), roots[i])
  }

  lemma {:induction false} EvalPrefix(nodes: seq<Node>, n: nat, env: Env)
    requires n <= |nodes|
    ensures Eval(nodes[..n], env) == Eval(nodes, env)[..n]
    decreases |nodes| - n
  {
    if n == |nodes| {
      assert nodes[..n] == nodes;
    } else {
      EvalPrefix(nodes, n + 1, env);
      assert nodes[..n + 1][..n] == nodes[..n];
    }
  }

  /** Appending nodes changes no value already defined. */
  lemma {:induction false} EvalKept(nodes: seq<Node>, more: seq<Node>, env: Env)
    requires nodes <= more
    ensures Eval(nodes, env) <= Eval(more, env)
  {
    EvalPrefix(more, |nodes|, env);
    assert more[..|nodes|] == nodes;
  }

  /** A kind's value depends only on the values of its operands. */
  lemma {:induction false} KindValueLocal(nodes: seq<Node>, n: nat, k: NodeKind, id: TermId, env: Env, vals: seq<Value>,
                                          more: seq<Value>)
    requires SortOf(nodes, n, k).Some? && n <= |vals| && vals <= more
    ensures KindValue(k, id, env, vals) == KindValue(k, id, env, more)
  {
    if k.SelectBv? {
      SelectLocal(nodes, n, k.cases, k.default, vals, more);
    }
  }

  lemma {:induction false} SelectLocal(nodes: seq<Node>, n: nat, cases: seq<(TermId, TermId)>, default: TermId,
                                       vals: seq<Value>, more: seq<Value>)
    requires CasesOk(nodes, n, cases, default) && IsBv(nodes, n, default) && n <= |vals| && vals <= more
    ensures SelectAt(vals, cases, default) == SelectAt(more, cases, default)
    ensures SameBv(nodes, n, SelectAt(vals, cases, default), default)
  {
    if cases != [] {
      assert IsBool(nodes, n, cases[0].0);
      SelectLocal(nodes, n, cases[1..], default, vals, more);
    }
  }

  /** Every node's value is the meaning of its operator on the values of all nodes. */
  lemma {:induction false} EvalAt(nodes: seq<Node>, env: Env, i: TermId)
    requires WellFormed(nodes) && i < |nodes|
    ensures Eval(nodes, env)[i] == KindValue(nodes[i].kind, i, env, Eval(nodes, env))
  {
    hide KindValue, SortOf;
    EvalPrefix(nodes, i, env);
    EvalPrefix(nodes, i + 1, env);
    assert nodes[..i + 1][..i] == nodes[..i];
    KindValueLocal(nodes, i, nodes[i].kind, i, env, Eval(nodes[..i], env), Eval(nodes, env));
  }

  /** Values depend only on what the assignment gives the variables. */
  lemma {:induction false} SameAssignment(nodes: seq<Node>, e: Env, f: Env)
    requires forall i {:trigger nodes[i]} :: 0 <= i < |nodes| && IsVariable(nodes[i].kind) ==>
               e.bools(i) == f.bools(i) && e.bvs(i) == f.bvs(i)
    ensures Eval(nodes, e) == Eval(nodes, f)
  {
    if nodes != [] {
      SameAssignment(nodes[..|nodes| - 1], e, f);
    }
  }

  predicate HasSort(v: Value, s: Sort) {
    match s
    case BoolSort => v.BoolValue?
    case BvSort(w) => v.BvValue? && |v.bits| == w
  }

  /** Values have the sorts of their nodes. */
  ghost predicate ValuesSorted(nodes: seq<Node>, vals: seq<Value>) {
    |vals| <= |nodes| && forall i {:trigger vals[i]} :: 0 <= i < |vals| ==> HasSort(vals[i], nodes[i].sort)
  }

  lemma {:induction false} KindValueSorted(nodes: seq<Node>, n: nat, k: NodeKind, id: TermId, env: Env,
                                           vals: seq<Value>)
    requires SortOf(nodes, n, k).Some? && n <= |vals| && ValuesSorted(nodes, vals)
    ensures HasSort(KindValue(k, id, env, vals), SortOf(nodes, n, k).value)
  {
    if k.SelectBv? {
      SelectLocal(nodes, n, k.cases, k.default, vals, vals);
    }
  }

  lemma {:induction false} EvalSorted(nodes: seq<Node>, env: Env)
    requires WellFormed(nodes)
    ensures ValuesSorted(nodes, Eval(nodes, env))
  {
    hide KindValue, SortOf;
    if nodes != [] {
      var n := |nodes| - 1;
      WellFormedPrefix(nodes, n);
      EvalSorted(nodes[..n], env);
      KindValueSorted(nodes, n, nodes[n].kind, n, env, Eval(nodes[..n], env));
    }
  }

  // ------------------------------------------------------------------------- arena

  class Arena {
    var nodes: seq<Node>
    var ids: map<Node, TermId>

    /** `ids` is the inverse of `nodes`. */
    ghost predicate Interned()
      reads this
    {
      && (forall i {:trigger nodes[i]} :: 0 <= i < |nodes| ==> nodes[i] in ids && ids[nodes[i]] == i)
      && (forall k :: k in ids ==> ids[k] < |nodes| && nodes[ids[k]] == k)
    }

    ghost predicate Valid()
      reads this
    {
      WellFormed(nodes) && Interned()
    }

    constructor ()
      ensures Valid() && nodes == []
    {
      nodes, ids := [], map[];
    }

    constructor Clone(other: Arena)
      requires other.Valid()
      ensures Valid() && nodes == other.nodes && ids == other.ids
    {
      nodes, ids := other.nodes, other.ids;
    }

    /** Returns the id of the node, appending it only when it is new.  Only the sort is checked;
        a node that has the sort of its operator keeps the arena well formed. */
    method Add(kind: NodeKind, sort: Sort) returns (r: Result<TermId>)
      requires Interned()
      modifies this
      ensures Interned() && (r.Ok? <==> ValidSort(sort))
      ensures nodes == if r.Err? || Node(kind, sort) in old(ids) then old(nodes) else old(nodes) + [Node(kind, sort)]
      ensures r.Ok? ==> r.value < |nodes| && nodes[r.value] == Node(kind, sort)
      ensures r.Ok? && Node(kind, sort) !in old(ids) ==> r.value == |old(nodes)|
      ensures old(Valid()) && SortOf(old(nodes), |old(nodes)|, kind) == Some(sort) ==> r.Ok? && Valid()
    {
      ghost var was := nodes;
      hide WellFormed, SortOf;
      if WellFormed(was) && SortOf(was, |was|, kind) == Some(sort) { SortAdmits(was, Node(kind, sort)); }
      if !ValidSort(sort) { return Err(Invalid); }
      var key := Node(kind, sort);
      if key in ids { return Ok(ids[key]); }
      r := Ok(|nodes|);
      nodes := nodes + [key];
      ids := ids[key := r.value];
    }
  }

  /** The sort of a well-sorted operator is one the arena admits. */
  lemma {:induction false} SortAdmits(nodes: seq<Node>, node: Node)
    requires WellFormed(nodes) && SortOf(nodes, |nodes|, node.kind) == Some(node.sort)
    ensures ValidSort(node.sort) && WellFormed(nodes + [node])
  {
    hide SortOf, WellFormed;
    WellFormedSnoc(nodes, node);
    if node.sort.BvSort? { WidthPositive(nodes + [node], |nodes|); }
  }
}
