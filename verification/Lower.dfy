/** From a wire request to a query: every node of the expression is requested from the builder, and
    the query asks about the terms what the request asks about the nodes. */
module Lowering {
  import opened BitVectors
  import opened Bytes
  import opened Wrappers
  import opened Ir
  import opened Terms
  import opened Queries
  import opened Builders
  import opened Requests
  import Compaction
  import Solver

  // --------------------------------------------------------------- nodes and their terms

  function TermAt(terms: seq<TermId>, i: nat): TermId { if i < |terms| then terms[i] else 0 }

  function TermsAt(terms: seq<TermId>, refs: seq<nat>): (r: seq<TermId>)
    ensures |r| == |refs|
  {
    seq(|refs|, i requires 0 <= i < |refs| => TermAt(terms, refs[i]))
  }

  /** The operator over the terms of its children. */
  function Moved(k: NodeKind, terms: seq<TermId>): NodeKind {
    match k
    case ConstBv(_, _) => k
    case VarBv(_, _, _) => k
    case ConstBool(_) => k
    case VarBool(_, _) => k
    case UnaryBv(op, x) => UnaryBv(op, TermAt(terms, x))
    case BinaryBv(op, a, b) => BinaryBv(op, TermAt(terms, a), TermAt(terms, b))
    case ExtractBv(c, high, low) => ExtractBv(TermAt(terms, c), high, low)
    case ConcatBv(h, l) => ConcatBv(TermAt(terms, h), TermAt(terms, l))
    case ExtendBv(signed, c, extra) => ExtendBv(signed, TermAt(terms, c), extra)
    case RepeatBv(c, count) => RepeatBv(TermAt(terms, c), count)
    case RotateBv(left, c, amount) => RotateBv(left, TermAt(terms, c), amount)
    case IteBv(c, t, e) => IteBv(TermAt(terms, c), TermAt(terms, t), TermAt(terms, e))
    case SelectBv(cases, d) => SelectBv(MovedCases(cases, terms), TermAt(terms, d))
    case NotBool(x) => NotBool(TermAt(terms, x))
    case BinaryBool(op, a, b) => BinaryBool(op, TermAt(terms, a), TermAt(terms, b))
    case IteBool(c, t, e) => IteBool(TermAt(terms, c), TermAt(terms, t), TermAt(terms, e))
    case CompareBv(op, a, b) => CompareBv(op, TermAt(terms, a), TermAt(terms, b))
    case NegOverflows(x) => NegOverflows(TermAt(terms, x))
  }

  function MovedCases(cases: seq<(TermId, TermId)>, terms: seq<TermId>): (r: seq<(TermId, TermId)>)
    ensures |r| == |cases|
  {
    seq(|cases|, i requires 0 <= i < |cases| => (TermAt(terms, cases[i].0), TermAt(terms, cases[i].1)))
  }

  /** All children are among the first `n` nodes. */
  predicate InReach(k: NodeKind, n: nat) { forall j :: 0 <= j < |Children(k)| ==> Children(k)[j] < n }

  /** Terms have the sorts of their nodes. */
  predicate SameSorts(typed: seq<Node>, terms: seq<TermId>, nodes: seq<Node>) {
    |terms| == |typed| && forall i {:trigger terms[i]} :: 0 <= i < |terms| ==>
      terms[i] < |nodes| && nodes[terms[i]].sort == typed[i].sort
  }

  /** Terms have the values of their nodes. */
  predicate SameValues(vals: seq<Value>, terms: seq<TermId>, all: seq<Value>) {
    |terms| == |vals| && forall i {:trigger terms[i]} :: 0 <= i < |terms| ==>
      terms[i] < |all| && all[terms[i]] == vals[i]
  }

  lemma {:induction false} MovedOperand(typed: seq<Node>, terms: seq<TermId>, nodes: seq<Node>, x: nat)
    requires SameSorts(typed, terms, nodes) && x < |typed|
    ensures IsBv(nodes, |nodes|, TermAt(terms, x)) == IsBv(typed, |typed|, x)
    ensures IsBool(nodes, |nodes|, TermAt(terms, x)) == IsBool(typed, |typed|, x)
    ensures Width(nodes, TermAt(terms, x)) == Width(typed, x)
  {
    assert terms[x] < |nodes|;
  }

  lemma {:induction false} MovedSort(typed: seq<Node>, terms: seq<TermId>, nodes: seq<Node>, k: NodeKind)
    requires SameSorts(typed, terms, nodes) && InReach(k, |typed|)
    ensures SortOf(nodes, |nodes|, Moved(k, terms)) == SortOf(typed, |typed|, k)
  {
    hide SameSorts, TermAt, IsBv, IsBool, Width, Normalized;
    forall x | x in Children(k)
      ensures IsBv(nodes, |nodes|, TermAt(terms, x)) == IsBv(typed, |typed|, x)
      ensures IsBool(nodes, |nodes|, TermAt(terms, x)) == IsBool(typed, |typed|, x)
      ensures Width(nodes, TermAt(terms, x)) == Width(typed, x)
    {
      MovedOperand(typed, terms, nodes, x);
    }
    if k.SelectBv? {
      hide Children;
      DefaultInChildren(k);
      forall i | 0 <= i < |k.cases|
        ensures MovedCases(k.cases, terms)[i] == (TermAt(terms, k.cases[i].0), TermAt(terms, k.cases[i].1))
        ensures k.cases[i].0 in Children(k) && k.cases[i].1 in Children(k)
      {
        CaseInChildren(k, i);
      }
      MovedCasesOk(typed, terms, nodes, k);
    }
  }

  lemma {:induction false} DefaultInChildren(k: NodeKind)
    requires k.SelectBv?
    ensures k.default in Children(k)
  {}

  lemma {:induction false} MovedCasesOk(typed: seq<Node>, terms: seq<TermId>, nodes: seq<Node>, k: NodeKind)
    requires k.SelectBv?
    requires var moved := MovedCases(k.cases, terms);
             forall i {:trigger moved[i]} :: 0 <= i < |moved| ==>
               && IsBool(nodes, |nodes|, moved[i].0) == IsBool(typed, |typed|, k.cases[i].0)
               && SameBv(nodes, |nodes|, moved[i].1, TermAt(terms, k.default)) ==
                    SameBv(typed, |typed|, k.cases[i].1, k.default)
    ensures CasesOk(nodes, |nodes|, MovedCases(k.cases, terms), TermAt(terms, k.default)) ==
              CasesOk(typed, |typed|, k.cases, k.default)
  {
    hide IsBool, SameBv, TermAt;
    var moved := MovedCases(k.cases, terms);
    if CasesOk(nodes, |nodes|, moved, TermAt(terms, k.default)) {
      forall i | 0 <= i < |k.cases|
        ensures IsBool(typed, |typed|, k.cases[i].0) && SameBv(typed, |typed|, k.cases[i].1, k.default)
      {
        assert moved[i] == moved[i];
      }
    }
  }

  lemma {:induction false} MovedValue(vals: seq<Value>, terms: seq<TermId>, all: seq<Value>, k: NodeKind, id: TermId,
                                      env: Env, n: nat, e: Env)
    requires SameValues(vals, terms, all) && InReach(k, |vals|) && !IsVariable(k)
    ensures KindValue(Moved(k, terms), id, env, all) == KindValue(k, n, e, vals)
  {
    if k.SelectBv? {
      forall i | 0 <= i < |k.cases| ensures k.cases[i].0 < |vals| && k.cases[i].1 < |vals| { CaseInChildren(k, i); }
      assert k.default in Children(k);
      MovedSelection(vals, terms, all, k.cases, k.default);
    } else {
      forall x | x in Children(k)
        ensures BvAt(all, TermAt(terms, x)) == BvAt(vals, x) && BoolAt(all, TermAt(terms, x)) == BoolAt(vals, x)
      {
        assert x < |vals| && TermAt(terms, x) == terms[x];
      }
    }
  }

  lemma {:induction false} MovedSelection(vals: seq<Value>, terms: seq<TermId>, all: seq<Value>,
                                          cases: seq<(TermId, TermId)>, default: TermId)
    requires SameValues(vals, terms, all) && default < |vals|
    requires forall i {:trigger cases[i]} :: 0 <= i < |cases| ==> cases[i].0 < |vals| && cases[i].1 < |vals|
    ensures SelectAt(vals, cases, default) < |vals|
    ensures SelectAt(all, MovedCases(cases, terms), TermAt(terms, default)) == terms[SelectAt(vals, cases, default)]
  {
    if cases != [] {
      assert terms[cases[0].0] < |all|;
      assert MovedCases(cases, terms)[1..] == MovedCases(cases[1..], terms);
      MovedSelection(vals, terms, all, cases[1..], default);
    }
  }

  // --------------------------------------------------------------------- lowered so far

  /** The assignment of the nodes that an assignment of their terms amounts to. */
  function Pull(env: Env, terms: seq<TermId>): Env {
    Env((i: TermId) => i < |terms| && env.bools(terms[i]), (i: TermId) => if i < |terms| then env.bvs(terms[i]) else 0)
  }

  /** Variables keep their symbols, and nodes with the same symbol share their term. */
  predicate SameSymbols(typed: seq<Node>, terms: seq<TermId>, nodes: seq<Node>) {
    && |terms| == |typed|
    && (forall i {:trigger terms[i]} :: 0 <= i < |terms| && IsVariable(typed[i].kind) ==>
          terms[i] < |nodes| && SameSymbol(nodes[terms[i]].kind, typed[i].kind))
    && (forall i, j {:trigger terms[i], terms[j]} ::
          0 <= i < |terms| && 0 <= j < |terms| && SameSymbol(typed[i].kind, typed[j].kind) ==>
            terms[i] == terms[j])
  }

  /** The nodes have been built: under every assignment each term has the value of its node. */
  ghost predicate Lowered(typed: seq<Node>, terms: seq<TermId>, nodes: seq<Node>) {
    && WellFormed(typed) && WellFormed(nodes) && SameSorts(typed, terms, nodes) && SameSymbols(typed, terms, nodes)
    && forall env: Env {:trigger Eval(nodes, env)} :: SameValues(Eval(typed, Pull(env, terms)), terms, Eval(nodes, env))
  }

  lemma {:induction false} LoweredGrown(typed: seq<Node>, terms: seq<TermId>, was: seq<Node>, now: seq<Node>)
    requires Lowered(typed, terms, was) && Grown(was, now)
    ensures Lowered(typed, terms, now)
  {
    hide Eval, WellFormed;
    forall env: Env ensures SameValues(Eval(typed, Pull(env, terms)), terms, Eval(now, env)) {
      assert Eval(was, env) <= Eval(now, env);
    }
  }

  /** One more node with its term. */
  lemma {:induction false} LoweredMore(typed: seq<Node>, terms: seq<TermId>, nodes: seq<Node>, node: Node, id: TermId)
    requires Lowered(typed, terms, nodes) && SortOf(typed, |typed|, node.kind) == Some(node.sort)
    requires SameSorts(typed + [node], terms + [id], nodes) && SameSymbols(typed + [node], terms + [id], nodes)
    requires forall env: Env {:trigger Eval(nodes, env)} ::
               id < |Eval(nodes, env)|
                 && Eval(nodes, env)[id] ==
                   KindValue(node.kind, |typed|, Pull(env, terms + [id]), Eval(typed, Pull(env, terms)))
    ensures Lowered(typed + [node], terms + [id], nodes)
  {
    hide WellFormed, SortOf, KindValue, SameSorts, SameSymbols, Eval;
    WellFormedSnoc(typed, node);
    assert |terms| == |typed| by {
      assert SameValues(Eval(typed, Pull(Env(_ => false, _ => 0), terms)), terms, Eval(nodes, Env(_ => false, _ => 0)));
    }
    forall env: Env ensures SameValues(Eval(typed + [node], Pull(env, terms + [id])), terms + [id], Eval(nodes, env)) {
      EvalSnoc(typed, node, Pull(env, terms + [id]));
      SameAssignment(typed, Pull(env, terms), Pull(env, terms + [id]));
    }
  }

  lemma {:induction false} EvalSnoc(nodes: seq<Node>, node: Node, env: Env)
    ensures Eval(nodes + [node], env) == Eval(nodes, env) + [KindValue(node.kind, |nodes|, env, Eval(nodes, env))]
  {
    hide KindValue;
    assert (nodes + [node])[..|nodes|] == nodes;
  }

  /** A node that is not a variable, built over the terms of its children. */
  lemma {:induction false} LoweredOperator(typed: seq<Node>, terms: seq<TermId>, was: seq<Node>, now: seq<Node>,
                                           node: Node, id: TermId)
    requires Lowered(typed, terms, was) && InReach(node.kind, |typed|) && !IsVariable(node.kind)
    requires SortOf(typed, |typed|, node.kind) == Some(node.sort) && Builds(was, now, Ok(id), Moved(node.kind, terms))
    ensures Lowered(typed + [node], terms + [id], now)
  {
    hide WellFormed, SortOf, KindValue, Eval, Moved;
    LoweredGrown(typed, terms, was, now);
    MovedSort(typed, terms, was, node.kind);
    forall env: Env
      ensures Eval(now, env)[id] ==
                KindValue(node.kind, |typed|, Pull(env, terms + [id]), Eval(typed, Pull(env, terms)))
    {
      MovedValue(Eval(typed, Pull(env, terms)), terms, Eval(was, env), node.kind, 0, env, |typed|,
                 Pull(env, terms + [id]));
    }
    LoweredMore(typed, terms, now, node, id);
  }

  /** A variable: its first occurrence, or the term of an earlier one. */
  lemma {:induction false} LoweredVariable(typed: seq<Node>, terms: seq<TermId>, nodes: seq<Node>, node: Node,
                                           id: TermId)
    requires Lowered(typed, terms, nodes) && id < |nodes| && IsVariable(node.kind)
    requires SortOf(typed, |typed|, node.kind) == Some(node.sort)
    requires SameSymbol(nodes[id].kind, node.kind)
    requires forall i {:trigger terms[i]} :: 0 <= i < |typed| == |terms| && SameSymbol(typed[i].kind, node.kind) ==>
               terms[i] == id
    ensures Lowered(typed + [node], terms + [id], nodes)
  {
    hide WellFormed, KindValue, Eval;
    assert SortOf(nodes, id, nodes[id].kind) == Some(nodes[id].sort) by { NodeSort(nodes, id); }
    forall env: Env
      ensures Eval(nodes, env)[id] ==
                KindValue(node.kind, |typed|, Pull(env, terms + [id]), Eval(typed, Pull(env, terms)))
    {
      EvalAt(nodes, env, id);
      VariableValue(nodes[id].kind, id, env, Eval(nodes, env), node.kind, |typed|, Pull(env, terms + [id]),
                    Eval(typed, Pull(env, terms)));
    }
    LoweredMore(typed, terms, nodes, node, id);
  }

  lemma {:induction false} NodeSort(nodes: seq<Node>, id: TermId)
    requires WellFormed(nodes) && id < |nodes|
    ensures SortOf(nodes, id, nodes[id].kind) == Some(nodes[id].sort)
  {}

  lemma {:induction false} VariableValue(j: NodeKind, i: TermId, e: Env, vals: seq<Value>, k: NodeKind, n: TermId,
                                         f: Env, more: seq<Value>)
    requires SameSymbol(j, k) && e.bools(i) == f.bools(n) && e.bvs(i) == f.bvs(n)
    ensures KindValue(j, i, e, vals) == KindValue(k, n, f, more)
  {}

  // ------------------------------------------------------------------ references to nodes

  /** The term of some variable of the request. */
  predicate OfVariable(typed: seq<Node>, terms: seq<TermId>, t: TermId) {
    exists i {:trigger terms[i]} :: 0 <= i < |terms| == |typed| && IsVariable(typed[i].kind) && terms[i] == t
  }

  /** `raw` is the reference, with the sort of `k`, to the first node that is the variable `k`. */
  predicate FirstOccurrence(typed: seq<Node>, k: NodeKind, raw: nat) {
    var first := Compaction.FromRaw(raw);
    && first.index < |typed| && SameSymbol(typed[first.index].kind, k)
    && first.sort == (if k.VarBv? then Compaction.WireBv else Compaction.WireBool)
    && forall h :: 0 <= h < first.index ==> !SameSymbol(typed[h].kind, k)
  }

  /** The variable records where the request mentions it first. */
  predicate ReferredTo(typed: seq<Node>, k: NodeKind) {
    IsVariable(k) && k.external.Some? && FirstOccurrence(typed, k, k.external.value)
  }

  /** All variables of the arena are variables of the request, and record their first occurrence. */
  ghost predicate Referred(typed: seq<Node>, terms: seq<TermId>, nodes: seq<Node>) {
    forall t {:trigger nodes[t]} :: 0 <= t < |nodes| && IsVariable(nodes[t].kind) ==>
      OfVariable(typed, terms, t) && ReferredTo(typed, nodes[t].kind)
  }

  lemma {:induction false} StillReferred(typed: seq<Node>, terms: seq<TermId>, k: NodeKind, t: TermId, node: Node,
                                         id: TermId)
    requires |terms| == |typed| && OfVariable(typed, terms, t) && ReferredTo(typed, k)
    ensures OfVariable(typed + [node], terms + [id], t) && ReferredTo(typed + [node], k)
  {
    var more, ids := typed + [node], terms + [id];
    var i :| 0 <= i < |terms| && IsVariable(typed[i].kind) && terms[i] == t;
    assert ids[i] == t && more[i] == typed[i];
    var first := Compaction.FromRaw(k.external.value);
    assert forall h :: 0 <= h <= first.index ==> more[h] == typed[h];
  }

  /** One more node that brings no variable, or an old one. */
  lemma {:induction false} ReferredMore(typed: seq<Node>, terms: seq<TermId>, was: seq<Node>, now: seq<Node>,
                                        node: Node, id: TermId)
    requires |terms| == |typed| && Referred(typed, terms, was) && was <= now && NoNewVariables(was, now)
    ensures Referred(typed + [node], terms + [id], now)
  {
    hide OfVariable, ReferredTo;
    forall t | 0 <= t < |now| && IsVariable(now[t].kind)
      ensures OfVariable(typed + [node], terms + [id], t) && ReferredTo(typed + [node], now[t].kind)
    {
      assert was[t] == now[t];
      StillReferred(typed, terms, now[t].kind, t, node, id);
    }
  }

  /** One more node that is a new variable. */
  lemma {:induction false} ReferredFirst(typed: seq<Node>, terms: seq<TermId>, was: seq<Node>, now: seq<Node>,
                                         table: map<Symbol, TermId>, node: Node, id: TermId, raw: nat)
    requires |terms| == |typed| && Referred(typed, terms, was) && was <= now && id < |now|
    requires Recorded(typed, terms, was, table) && IsVariable(node.kind) && SymbolOf(node.kind) !in table
    requires now == was || (|now| == |was| + 1 && id == |was|)
    requires SameSymbol(now[id].kind, node.kind) && now[id].kind.external == Some(raw)
    requires Compaction.FromRaw(raw) == Compaction.NodeRef(RefSort(node.kind), |typed|)
    ensures Referred(typed + [node], terms + [id], now)
  {
    var more, ids := typed + [node], terms + [id];
    forall t | 0 <= t < |now| && IsVariable(now[t].kind)
      ensures OfVariable(more, ids, t) && ReferredTo(more, now[t].kind)
    {
      if t == id {
        assert ids[|typed|] == id && more[|typed|] == node;
        forall h | 0 <= h < |typed| ensures !SameSymbol(more[h].kind, now[id].kind) {
          assert more[h] == typed[h];
          if IsVariable(typed[h].kind) {
            var term := terms[h];
            assert SymbolOf(typed[h].kind) in table;
          }
        }
      } else {
        assert was[t] == now[t];
        StillReferred(typed, terms, now[t].kind, t, node, id);
      }
    }
  }

  function RefSort(k: NodeKind): Compaction.WireSort { if k.VarBv? then Compaction.WireBv else Compaction.WireBool }

  // ---------------------------------------------------------------------------- building

  /** The table of variables made so far. */
  ghost predicate Recorded(typed: seq<Node>, terms: seq<TermId>, nodes: seq<Node>, table: map<Symbol, TermId>) {
    && |terms| == |typed|
    && (forall s :: s in table ==>
          table[s] < |nodes| && IsVariable(nodes[table[s]].kind) && SymbolOf(nodes[table[s]].kind) == s)
    && (forall i {:trigger terms[i]} :: 0 <= i < |terms| && IsVariable(typed[i].kind) ==>
          SymbolOf(typed[i].kind) in table && table[SymbolOf(typed[i].kind)] == terms[i])
  }

  /** The term of a child. */
  function Child(node: WireNode, n: nat, terms: seq<TermId>): TermId {
    if n < |node.children| then TermAt(terms, node.children[n]) else 0
  }

  predicate IsArithmetic(tag: Tag) {
    match tag
    case TagBvAnd | TagBvOr | TagBvXor | TagBvAdd | TagBvSub | TagBvMul => true
    case TagBvUDiv | TagBvURem | TagBvSDiv | TagBvSRem | TagBvSMod | TagBvShl | TagBvLShr | TagBvAShr => true
    case _ => false
  }

  predicate IsTruth(tag: Tag) {
    match tag
    case TagBoolTrue | TagBoolFalse | TagBoolNot | TagBoolAnd | TagBoolOr | TagBoolImplies => true
    case TagBvEq | TagBvUlt | TagBvUle | TagBvSlt | TagBvSle => true
    case TagUAddOvf | TagSAddOvf | TagUSubOvf | TagSSubOvf | TagUMulOvf | TagSMulOvf | TagNegOvf | TagSDivOvf => true
    case _ => false
  }

  /** The operators on two vectors of one width. */
  method RequestArithmetic(b: Builder, node: WireNode, terms: seq<TermId>) returns (r: Result<TermId>)
    requires b.Ready() && ArityOk(node) && IsArithmetic(node.tag)
    modifies b.arena
    ensures b.Ready() && Builds(old(b.arena.nodes), b.arena.nodes, r, Cleaned(Moved(OperatorOf(node), terms)))
  {
    hide Eval, WellFormed, NormalForm, Builds, Arena.Valid, SortOf, Denotes, MaskUnusedHighBits, Normalized, TermAt;
    var x, y := Child(node, 0, terms), Child(node, 1, terms);
    match node.tag {
      case TagBvAnd => r := b.MakeAnd(x, y);
      case TagBvOr => r := b.MakeOr(x, y);
      case TagBvXor => r := b.MakeXor(x, y);
      case TagBvAdd => r := b.MakeAdd(x, y);
      case TagBvSub => r := b.MakeSub(x, y);
      case TagBvMul => r := b.MakeMul(x, y);
      case TagBvUDiv => r := b.MakeUDiv(x, y);
      case TagBvURem => r := b.MakeURem(x, y);
      case TagBvSDiv => r := b.MakeRaw(BinaryBv(OpSDiv, x, y));
      case TagBvSRem => r := b.MakeRaw(BinaryBv(OpSRem, x, y));
      case TagBvSMod => r := b.MakeRaw(BinaryBv(OpSMod, x, y));
      case TagBvShl => r := b.MakeShl(x, y);
      case TagBvLShr => r := b.MakeLShr(x, y);
      case TagBvAShr => r := b.MakeAShr(x, y);
    }
  }

  /** The operators with a Bool result. */
  method RequestTruth(b: Builder, node: WireNode, terms: seq<TermId>) returns (r: Result<TermId>)
    requires b.Ready() && ArityOk(node) && IsTruth(node.tag)
    modifies b.arena
    ensures b.Ready() && Builds(old(b.arena.nodes), b.arena.nodes, r, Cleaned(Moved(OperatorOf(node), terms)))
  {
    hide Eval, WellFormed, NormalForm, Builds, Arena.Valid, SortOf, Denotes, MaskUnusedHighBits, Normalized, TermAt;
    var x, y := Child(node, 0, terms), Child(node, 1, terms);
    match node.tag {
      case TagBoolTrue => r := b.MakeBoolConst(true);
      case TagBoolFalse => r := b.MakeBoolConst(false);
      case TagBoolNot => r := b.MakeBoolNot(x);
      case TagBoolAnd => r := b.MakeBoolBinary(BoolAnd, x, y);
      case TagBoolOr => r := b.MakeBoolBinary(BoolOr, x, y);
      case TagBoolImplies => r := b.MakeBoolBinary(BoolImplies, x, y);
      case TagBvEq => r := b.MakeEq(x, y);
      case TagBvUlt => r := b.MakeCompare(CmpUlt, x, y);
      case TagBvUle => r := b.MakeCompare(CmpUle, x, y);
      case TagBvSlt => r := b.MakeCompare(CmpSlt, x, y);
      case TagBvSle => r := b.MakeCompare(CmpSle, x, y);
      case TagUAddOvf => r := b.MakeRaw(CompareBv(OvfUAdd, x, y));
      case TagSAddOvf => r := b.MakeRaw(CompareBv(OvfSAdd, x, y));
      case TagUSubOvf => r := b.MakeRaw(CompareBv(OvfUSub, x, y));
      case TagSSubOvf => r := b.MakeRaw(CompareBv(OvfSSub, x, y));
      case TagUMulOvf => r := b.MakeRaw(CompareBv(OvfUMul, x, y));
      case TagSMulOvf => r := b.MakeRaw(CompareBv(OvfSMul, x, y));
      case TagNegOvf => r := b.MakeRaw(NegOverflows(x));
      case TagSDivOvf => r := b.MakeRaw(CompareBv(OvfSDiv, x, y));
    }
  }

  /** Requests the operator of a node over the terms of its children from the builder. */
  method RequestTerm(b: Builder, node: WireNode, terms: seq<TermId>) returns (r: Result<TermId>)
    requires b.Valid() && ArityOk(node) && !IsVariable(OperatorOf(node))
    modifies b.arena
    ensures b.Valid() && Builds(old(b.arena.nodes), b.arena.nodes, r, Cleaned(Moved(OperatorOf(node), terms)))
  {
    hide Eval, WellFormed, NormalForm, Builds, Arena.Valid, SortOf, Denotes, MaskUnusedHighBits, Normalized, TermAt;
    var x, y, z := Child(node, 0, terms), Child(node, 1, terms), Child(node, 2, terms);
    if IsArithmetic(node.tag) {
      r := RequestArithmetic(b, node, terms);
    } else if IsTruth(node.tag) {
      r := RequestTruth(b, node, terms);
    } else {
      match node.tag {
        case TagBvConst =>
          r := b.MakeConstBytes(node.bytes, node.width);
          if r.Err? {
            BadConstant(b.arena.nodes, OperatorOf(node));
            r := Err(Invalid);
          }
        case TagBvNot => r := b.MakeUnary(OpNot, x);
        case TagBvNeg => r := b.MakeUnary(OpNeg, x);
        case TagBvExtract => r := b.MakeExtract(x, node.auxHi, node.auxLo);
        case TagBvConcat => r := b.MakeConcat(x, y);
        case TagBvZExt => r := b.MakeExtension(ExtendBv(false, x, node.auxHi));
        case TagBvSExt => r := b.MakeExtension(ExtendBv(true, x, node.auxHi));
        case TagBvIte => r := b.MakeIte(IteBv(x, y, z));
        case TagBvSelect =>
          var cases: seq<(TermId, TermId)> := [];
          for pair := 0 to node.auxHi
            invariant cases == MovedCases(CasesOf(node)[..pair], terms)
            invariant unchanged(b.arena)
          {
            cases := cases + [(Child(node, pair * 2, terms), Child(node, pair * 2 + 1, terms))];
          }
          assert CasesOf(node)[..node.auxHi] == CasesOf(node);
          r := b.MakeRaw(SelectBv(cases, Child(node, node.auxHi * 2, terms)));
      }
    }
    BuildsShape(old(b.arena.nodes), b.arena.nodes, r, Cleaned(Moved(OperatorOf(node), terms)));
    ExtendedGrows(old(b.arena.nodes), b.arena.nodes);
    b.StaysValid();
  }

  lemma {:induction false} ExtendedGrows(was: seq<Node>, now: seq<Node>)
    requires Extended(was, now)
    ensures Grown(was, now) && NoNewVariables(was, now)
  {}

  lemma {:induction false} BadConstant(nodes: seq<Node>, k: NodeKind)
    requires WellFormed(nodes) && k.ConstBv? && !(ValidWidth(k.width) && |k.bytes| == BytesFor(k.width))
    ensures Builds(nodes, nodes, Err(Invalid), Cleaned(k))
  {
    hide WellFormed, Eval, MaskUnusedHighBits;
    BuildsRefused(nodes, Cleaned(k));
  }

  /** Builds the nodes in order.  It fails exactly when one of them is not accepted. */
  method LowerNodes(b: Builder, wire: seq<WireNode>) returns (r: Result<seq<TermId>>)
    requires b.Valid() && b.arena.nodes == [] && |wire| <= MAX_NODE_COUNT
    modifies b.arena
    ensures b.Valid() && (r.Ok? <==> Typed(wire).Some?)
    ensures r.Ok? ==> Lowered(Typed(wire).value, r.value, b.arena.nodes)
    ensures r.Ok? ==> Referred(Typed(wire).value, r.value, b.arena.nodes)
  {
    hide Eval, WellFormed, NormalForm, Arena.Valid, SortOf, Builder.Valid, Lowered, Recorded, Referred;
    hide OperatorOf, Cleaned, Typed, Children;
    var terms: seq<TermId>, table: map<Symbol, TermId> := [], map[];
    assert wire[..0] == [];
    NothingLowered(b.arena.nodes, table) by { ReadyParts(b); }
    for index := 0 to |wire|
      invariant b.Valid() && Typed(wire[..index]).Some?
      invariant Lowered(Typed(wire[..index]).value, terms, b.arena.nodes)
      invariant Recorded(Typed(wire[..index]).value, terms, b.arena.nodes, table)
      invariant Referred(Typed(wire[..index]).value, terms, b.arena.nodes)
    {
      ghost var typed, was := Typed(wire[..index]).value, b.arena.nodes;
      TypedStep(wire, index);
      if Typed(wire).Some? { TypedPrefix(wire, index + 1); }
      LoweredParts(typed, terms, was);
      var node := wire[index];
      if !ArityOk(node) { return Err(Invalid); }
      MovedTag(OperatorOf(node), terms);
      var id;
      if node.tag.TagBvVar? || node.tag.TagBoolVar? {
        VariableTag(node);
        id, table := LowerVariable(b, typed, terms, table, node, index);
      } else {
        VariableTag(node);
        if exists c :: 0 <= c < |node.children| && node.children[c] >= index {
          NotInReach(typed, index, node);
          return Err(Invalid);
        }
        AllInReach(node, index);
        id := LowerOperator(b, typed, terms, node);
        if id.Ok? {
          OperatorRecorded(typed, terms, was, b.arena.nodes, table,
                           Node(KindOf(node), SortOf(typed, index, KindOf(node)).value), id.value);
        }
      }
      if id.Err? { return Err(id.error); }
      terms := terms + [id.value];
    }
    assert wire[..|wire|] == wire;
    r := Ok(terms);
  }

  lemma {:induction false} VariableTag(node: WireNode)
    requires ArityOk(node)
    ensures IsVariable(OperatorOf(node)) <==> node.tag.TagBvVar? || node.tag.TagBoolVar?
    ensures IsVariable(OperatorOf(node)) ==>
              KindOf(node) ==
                if node.tag.TagBvVar? then VarBv(node.width, node.name, None) else VarBool(node.name, None)
  {}

  /** The operands of the operator are the children of the node. */
  lemma {:induction false} AllInReach(node: WireNode, n: nat)
    requires ArityOk(node)
    ensures InReach(OperatorOf(node), n) <==> forall c :: 0 <= c < |node.children| ==> node.children[c] < n
  {
    var k := OperatorOf(node);
    if k.SelectBv? {
      SelectInReach(node, n);
    } else {
      hide Cleaned;
      assert Children(k) == node.children;
    }
  }

  lemma {:induction false} SelectInReach(node: WireNode, n: nat)
    requires ArityOk(node) && node.tag.TagBvSelect?
    ensures InReach(OperatorOf(node), n) <==> forall c :: 0 <= c < |node.children| ==> node.children[c] < n
  {
    var k, cases, m := OperatorOf(node), CasesOf(node), 2 * node.auxHi;
    assert k == SelectBv(cases, node.children[m]);
    hide OperatorOf;
    var flat := CaseTerms(cases);
    assert Children(k) == [k.default] + flat;
    forall c | 0 <= c < m ensures node.children[c] == Children(k)[c + 1] {
      assert cases[c / 2] == (node.children[2 * (c / 2)], node.children[2 * (c / 2) + 1]);
      assert c == 2 * (c / 2) || c == 2 * (c / 2) + 1;
    }
    hide Children, CaseTerms, CasesOf;
    forall c | 0 <= c < |node.children| ensures node.children[c] == Children(k)[if c < m then c + 1 else 0] {}
    assert forall j :: 0 <= j < |Children(k)| ==> Children(k)[j] == node.children[if j == 0 then m else j - 1];
  }

  /** A variable is made at its first occurrence, and found again at later ones. */
  method LowerVariable(b: Builder, ghost typed: seq<Node>, ghost terms: seq<TermId>, table: map<Symbol, TermId>,
                       node: WireNode, index: nat)
    returns (r: Result<TermId>, now: map<Symbol, TermId>)
    requires b.Valid() && ArityOk(node) && IsVariable(KindOf(node)) && index == |typed| < MAX_NODE_COUNT
    requires Lowered(typed, terms, b.arena.nodes) && Recorded(typed, terms, b.arena.nodes, table)
    requires Referred(typed, terms, b.arena.nodes)
    modifies b.arena
    ensures b.Valid() && (r.Ok? <==> SortOf(typed, index, KindOf(node)).Some?)
    ensures r.Ok? ==> var n := Node(KindOf(node), SortOf(typed, index, KindOf(node)).value);
                      && Lowered(typed + [n], terms + [r.value], b.arena.nodes)
                      && Recorded(typed + [n], terms + [r.value], b.arena.nodes, now)
                      && Referred(typed + [n], terms + [r.value], b.arena.nodes)
  {
    hide Eval, WellFormed, NormalForm, Arena.Valid, Lowered, Recorded, Referred;
    ghost var k, was := KindOf(node), b.arena.nodes;
    LoweredParts(typed, terms, was);
    var symbol := if node.tag.TagBvVar? then BvSymbol(node.name, node.width) else BoolSymbol(node.name);
    VariableTag(node);
    now := table;
    if symbol in table {
      r := Ok(table[symbol]);
      FoundAgain(typed, terms, was, table, k);
      ReferredMore(typed, terms, was, was, Node(k, SortOf(typed, |typed|, k).value), r.value);
      return;
    }
    var reference := Compaction.NodeRef(if node.tag.TagBvVar? then Compaction.WireBv else Compaction.WireBool, index);
    var raw := Compaction.Raw(reference);
    Compaction.RawRoundTrip(reference);
    if node.tag.TagBvVar? {
      r := b.MakeVariable(VarBv(node.width, node.name, Some(raw)));
    } else {
      r := b.MakeVariable(VarBool(node.name, Some(raw)));
    }
    b.StaysValid();
    if r.Ok? {
      now := table[symbol := r.value];
      ghost var n := Node(k, SortOf(typed, |typed|, k).value);
      MadeFirst(typed, terms, was, b.arena.nodes, table, k, r.value);
      ReferredFirst(typed, terms, was, b.arena.nodes, table, n, r.value, raw);
    }
  }

  lemma {:induction false} FoundAgain(typed: seq<Node>, terms: seq<TermId>, nodes: seq<Node>,
                                      table: map<Symbol, TermId>, k: NodeKind)
    requires Lowered(typed, terms, nodes) && Recorded(typed, terms, nodes, table) && IsVariable(k)
    requires SymbolOf(k) in table
    ensures SortOf(typed, |typed|, k).Some?
    ensures var node := Node(k, SortOf(typed, |typed|, k).value);
            && Lowered(typed + [node], terms + [table[SymbolOf(k)]], nodes)
            && Recorded(typed + [node], terms + [table[SymbolOf(k)]], nodes, table)
  {
    hide Eval, WellFormed, KindValue;
    var id := table[SymbolOf(k)];
    NodeSort(nodes, id) by { LoweredParts(typed, terms, nodes); }
    hide Lowered;
    LoweredVariable(typed, terms, nodes, Node(k, SortOf(typed, |typed|, k).value), id);
    RecordedMore(typed, terms, nodes, nodes, table, table, Node(k, SortOf(typed, |typed|, k).value), id);
  }

  lemma {:induction false} MadeFirst(typed: seq<Node>, terms: seq<TermId>, was: seq<Node>, now: seq<Node>,
                                     table: map<Symbol, TermId>, k: NodeKind, id: TermId)
    requires Lowered(typed, terms, was) && Recorded(typed, terms, was, table) && Grown(was, now)
    requires IsVariable(k) && SymbolOf(k) !in table && id < |now| && SameSymbol(now[id].kind, k)
    requires SortOf(typed, |typed|, k).Some?
    ensures var node := Node(k, SortOf(typed, |typed|, k).value);
            && Lowered(typed + [node], terms + [id], now)
            && Recorded(typed + [node], terms + [id], now, table[SymbolOf(k) := id])
  {
    hide Eval, WellFormed, KindValue, SortOf;
    LoweredGrown(typed, terms, was, now);
    hide Lowered;
    LoweredVariable(typed, terms, now, Node(k, SortOf(typed, |typed|, k).value), id);
    hide Recorded;
    RecordedMore(typed, terms, was, now, table, table[SymbolOf(k) := id], Node(k, SortOf(typed, |typed|, k).value), id);
  }

  lemma {:induction false} LoweredParts(typed: seq<Node>, terms: seq<TermId>, nodes: seq<Node>)
    requires Lowered(typed, terms, nodes)
    ensures WellFormed(typed) && WellFormed(nodes) && |terms| == |typed| && SameSorts(typed, terms, nodes)
  {}

  /** An operator is requested over the terms of its children. */
  method LowerOperator(b: Builder, ghost typed: seq<Node>, terms: seq<TermId>, node: WireNode)
    returns (r: Result<TermId>)
    requires b.Valid() && ArityOk(node) && !IsVariable(OperatorOf(node)) && InReach(OperatorOf(node), |typed|)
    requires Lowered(typed, terms, b.arena.nodes) && Referred(typed, terms, b.arena.nodes)
    modifies b.arena
    ensures b.Valid() && Extended(old(b.arena.nodes), b.arena.nodes)
    ensures r.Ok? <==> SortOf(typed, |typed|, KindOf(node)).Some?
    ensures r.Ok? ==> var n := Node(KindOf(node), SortOf(typed, |typed|, KindOf(node)).value);
                      && Lowered(typed + [n], terms + [r.value], b.arena.nodes)
                      && Referred(typed + [n], terms + [r.value], b.arena.nodes)
  {
    hide Eval, WellFormed, NormalForm, Builds, Arena.Valid, SortOf, Builder.Valid, Lowered;
    hide Referred, Children, KindValue;
    hide OperatorOf, Extended;
    ghost var was, k := b.arena.nodes, KindOf(node);
    LoweredParts(typed, terms, was);
    MovedTag(OperatorOf(node), terms);
    MovedSort(typed, terms, was, k);
    r := RequestTerm(b, node, terms);
    BuildsShape(was, b.arena.nodes, r, Moved(k, terms));
    if r.Ok? {
      LoweredOperator(typed, terms, was, b.arena.nodes, Node(k, SortOf(typed, |typed|, k).value), r.value);
      ExtendedGrows(was, b.arena.nodes);
      ReferredMore(typed, terms, was, b.arena.nodes, Node(k, SortOf(typed, |typed|, k).value), r.value);
    }
  }

  lemma {:induction false} MovedTag(k: NodeKind, terms: seq<TermId>)
    ensures IsVariable(Moved(k, terms)) == IsVariable(k) && IsVariable(Cleaned(k)) == IsVariable(k)
    ensures Cleaned(Moved(k, terms)) == Moved(Cleaned(k), terms) && Children(Cleaned(k)) == Children(k)
  {}

  lemma {:induction false} NotInReach(nodes: seq<Node>, n: nat, node: WireNode)
    requires ArityOk(node) && exists c :: 0 <= c < |node.children| && node.children[c] >= n
    ensures !Accepted(nodes, n, node)
  {
    hide SortOf, OperatorOf, InReach;
    MovedTag(OperatorOf(node), []);
    AllInReach(node, n);
    if Accepted(nodes, n, node) {
      ChildrenInReach(nodes, n, KindOf(node));
      SameReach(OperatorOf(node), n);
    }
  }

  lemma {:induction false} SameReach(k: NodeKind, n: nat)
    requires forall j :: 0 <= j < |Children(Cleaned(k))| ==> Children(Cleaned(k))[j] < n
    ensures InReach(k, n)
  {
    MovedTag(k, []);
  }

  lemma {:induction false} OperatorRecorded(typed: seq<Node>, terms: seq<TermId>, was: seq<Node>, now: seq<Node>,
                                            table: map<Symbol, TermId>, node: Node, id: TermId)
    requires Recorded(typed, terms, was, table) && Extended(was, now) && !IsVariable(node.kind)
    ensures Recorded(typed + [node], terms + [id], now, table)
  {
    hide Recorded;
    ExtendedPrefix(was, now);
    RecordedMore(typed, terms, was, now, table, table, node, id);
  }

  /** The table with at most one more variable serves one more node. */
  lemma {:induction false} RecordedMore(typed: seq<Node>, terms: seq<TermId>, was: seq<Node>, now: seq<Node>,
                                        table: map<Symbol, TermId>, more: map<Symbol, TermId>, node: Node, id: TermId)
    requires Recorded(typed, terms, was, table) && was <= now
    requires forall s :: s in table ==> s in more && more[s] == table[s]
    requires forall s :: s in more && s !in table ==>
               more[s] == id < |now| && IsVariable(now[id].kind) && SymbolOf(now[id].kind) == s
    requires IsVariable(node.kind) ==> SymbolOf(node.kind) in more && more[SymbolOf(node.kind)] == id
    ensures Recorded(typed + [node], terms + [id], now, more)
  {
    var nodes, ids := typed + [node], terms + [id];
    forall s | s in more
      ensures more[s] < |now| && IsVariable(now[more[s]].kind) && SymbolOf(now[more[s]].kind) == s
    {
      if s in table { assert table[s] < |was|; }
    }
    forall i | 0 <= i < |ids| && IsVariable(nodes[i].kind)
      ensures SymbolOf(nodes[i].kind) in more && more[SymbolOf(nodes[i].kind)] == ids[i]
    {
      if i < |terms| { assert ids[i] == terms[i] && nodes[i] == typed[i]; }
    }
  }

  lemma {:induction false} ReadyParts(b: Builder)
    requires b.Valid()
    ensures WellFormed(b.arena.nodes)
  {}

  lemma {:induction false} NothingLowered(nodes: seq<Node>, table: map<Symbol, TermId>)
    requires WellFormed(nodes) && table == map[] && nodes == []
    ensures Typed([]) == Some([]) && Lowered([], [], nodes) && Recorded([], [], nodes, table) && Referred([], [], nodes)
  {}

  // ------------------------------------------------------------------------- the request

  /** The query asks about the terms what the request asks about the nodes, under the same names. */
  ghost predicate Translates(q: Request, terms: seq<TermId>, query: Query)
    reads query.arena
    requires RequestOk(q)
  {
    && Lowered(Typed(q.nodes).value, terms, query.arena.nodes)
    && Referred(Typed(q.nodes).value, terms, query.arena.nodes)
    && AssertionsOf(q, terms, query.assertions, |q.assertions|)
    && query.assumptions == TermsAt(terms, q.assumptions)
    && query.command == q.command && query.wantModel == q.wantModel && query.wantCore == q.wantCore
    && (q.Optimizes() ==> query.target == Some(TermAt(terms, q.target.value)) && query.signed == q.signed)
  }

  /** The first `n` assertions are for the terms of the roots; assertion i is named `names[i]` exactly
      when there are that many names. */
  predicate AssertionsOf(q: Request, terms: seq<TermId>, assertions: seq<Assertion>, n: nat) {
    && |assertions| == n <= |q.assertions|
    && forall i {:trigger assertions[i]} :: 0 <= i < n ==>
         && assertions[i].root == TermAt(terms, q.assertions[i])
         && (i < |q.names| ==> assertions[i].name == Some(q.names[i]))
         && (i >= |q.names| ==> assertions[i].name == None)
  }

  /** The query of a request, refused exactly when the request is too large or some part of it is
      not well sorted. */
  method QueryFromWire(q: Request) returns (r: Result<Query>, ghost terms: seq<TermId>)
    ensures r.Ok? <==> RequestOk(q)
    ensures r.Ok? ==> fresh(r.value.arena) && r.value.Valid() && Translates(q, terms, r.value)
  {
    hide Eval, WellFormed, NormalForm, Arena.Valid, Lowered, Typed, Referred;
    terms := [];
    if |q.nodes| > MAX_NODE_COUNT { return Err(Invalid), terms; }
    var b := new Builder();
    var lowered := LowerNodes(b, q.nodes);
    if lowered.Err? { return Err(lowered.error), terms; }
    terms := lowered.value;
    ghost var typed := Typed(q.nodes).value;
    LoweredParts(typed, terms, b.arena.nodes);
    var ok := true;
    if q.Optimizes() {
      if q.target.None? || q.target.value >= |lowered.value| { return Err(Invalid), terms; }
      ok := b.SetOptimization(q.command, lowered.value[q.target.value], q.signed);
      if !ok { return Err(Invalid), terms; }
    } else {
      b.SetCommand(q.command);
    }
    ok := AddAssertions(b, typed, lowered.value, q);
    if !ok { return Err(Invalid), terms; }
    ok := AddAssumptions(b, typed, lowered.value, q.assumptions);
    if !ok { return Err(Invalid), terms; }
    r := b.Finish(q.wantModel, q.wantCore);
  }

  /** Asserts the terms of the assertion roots; the first ones have names. */
  method AddAssertions(b: Builder, ghost typed: seq<Node>, terms: seq<TermId>, q: Request) returns (ok: bool)
    requires b.Valid() && b.assertions == [] && SameSorts(typed, terms, b.arena.nodes)
    modifies b`assertions
    ensures b.Valid() && (ok <==> forall i :: 0 <= i < |q.assertions| ==> IsBool(typed, |typed|, q.assertions[i]))
    ensures ok ==> AssertionsOf(q, terms, b.assertions, |q.assertions|)
  {
    hide Builder.Valid;
    for i := 0 to |q.assertions|
      invariant b.Valid() && AssertionsOf(q, terms, b.assertions, i)
      invariant forall j :: 0 <= j < i ==> IsBool(typed, |typed|, q.assertions[j])
    {
      if q.assertions[i] >= |terms| { return false; }
      ok := b.Assert(terms[q.assertions[i]], if i < |q.names| then Some(q.names[i]) else None);
      if !ok { return; }
    }
    ok := true;
  }

  method AddAssumptions(b: Builder, ghost typed: seq<Node>, terms: seq<TermId>, roots: seq<nat>) returns (ok: bool)
    requires b.Valid() && b.assumptions == [] && SameSorts(typed, terms, b.arena.nodes)
    modifies b`assumptions
    ensures b.Valid() && (ok <==> forall i :: 0 <= i < |roots| ==> IsBool(typed, |typed|, roots[i]))
    ensures ok ==> b.assumptions == TermsAt(terms, roots)
  {
    hide Builder.Valid;
    for i := 0 to |roots|
      invariant b.Valid() && b.assumptions == TermsAt(terms, roots[..i])
      invariant forall j :: 0 <= j < i ==> IsBool(typed, |typed|, roots[j])
    {
      if roots[i] >= |terms| { return false; }
      ok := b.Assume(terms[roots[i]]);
      if !ok { return; }
    }
    assert roots[..|roots|] == roots;
    ok := true;
  }

  // ------------------------------------------------------------------- the same meaning

  /** The values of the terms and the values of the names are the same for every variable. */
  ghost predicate Matches(typed: seq<Node>, terms: seq<TermId>, env: Env, w: Names) {
    && |terms| == |typed|
    && forall i {:trigger terms[i]} :: 0 <= i < |terms| && IsVariable(typed[i].kind) ==>
         env.bools(terms[i]) == w.bools(SymbolOf(typed[i].kind)) && env.bvs(terms[i]) == w.bvs(SymbolOf(typed[i].kind))
  }

  /** The first node with the symbol. */
  function Find(typed: seq<Node>, s: Symbol): (i: nat)
    ensures i <= |typed|
    ensures i < |typed| ==> IsVariable(typed[i].kind) && SymbolOf(typed[i].kind) == s
    ensures forall j :: 0 <= j < i ==> !(IsVariable(typed[j].kind) && SymbolOf(typed[j].kind) == s)
  {
    if typed == [] then 0
    else if IsVariable(typed[0].kind) && SymbolOf(typed[0].kind) == s then 0
    else
      var i := Find(typed[1..], s);
      assert forall j :: 1 <= j < |typed| ==> typed[j] == typed[1..][j - 1];
      i + 1
  }

  /** What an assignment of the terms gives the names. */
  function NamesFrom(typed: seq<Node>, terms: seq<TermId>, env: Env): Names {
    Names(s => env.bools(TermAt(terms, Find(typed, s))), s => env.bvs(TermAt(terms, Find(typed, s))))
  }

  lemma {:induction false} NamesFromMatch(typed: seq<Node>, terms: seq<TermId>, nodes: seq<Node>, env: Env)
    requires Lowered(typed, terms, nodes)
    ensures Matches(typed, terms, env, NamesFrom(typed, terms, env))
  {
    hide WellFormed, Eval, SameValues;
    forall i | 0 <= i < |terms| && IsVariable(typed[i].kind)
      ensures terms[i] == TermAt(terms, Find(typed, SymbolOf(typed[i].kind)))
    {
      var j := Find(typed, SymbolOf(typed[i].kind));
      assert terms[i] == terms[j];
    }
  }

  lemma {:induction false} NamedEnvMatches(typed: seq<Node>, terms: seq<TermId>, nodes: seq<Node>, w: Names)
    requires Lowered(typed, terms, nodes)
    ensures Matches(typed, terms, NamedEnv(nodes, w), w)
  {
    hide WellFormed, Eval, SameValues;
    forall i | 0 <= i < |terms| && IsVariable(typed[i].kind)
      ensures NamedEnv(nodes, w).bools(terms[i]) == w.bools(SymbolOf(typed[i].kind))
      ensures NamedEnv(nodes, w).bvs(terms[i]) == w.bvs(SymbolOf(typed[i].kind))
    {
      SymbolsAgree(nodes[terms[i]].kind, typed[i].kind);
    }
  }

  lemma {:induction false} MatchedValues(typed: seq<Node>, terms: seq<TermId>, nodes: seq<Node>, env: Env, w: Names)
    requires Lowered(typed, terms, nodes) && Matches(typed, terms, env, w)
    ensures SameValues(Eval(typed, NamedEnv(typed, w)), terms, Eval(nodes, env))
  {
    hide WellFormed, Eval, SameValues, SameSymbols, SameSorts;
    assert SameValues(Eval(typed, Pull(env, terms)), terms, Eval(nodes, env));
    forall i | 0 <= i < |typed| && IsVariable(typed[i].kind)
      ensures NamedEnv(typed, w).bools(i) == Pull(env, terms).bools(i)
      ensures NamedEnv(typed, w).bvs(i) == Pull(env, terms).bvs(i)
    {
      assert env.bvs(terms[i]) == w.bvs(SymbolOf(typed[i].kind));
    }
    SameAssignment(typed, NamedEnv(typed, w), Pull(env, terms));
  }

  lemma {:induction false} SameTruth(vals: seq<Value>, terms: seq<TermId>, all: seq<Value>, refs: seq<nat>)
    requires SameValues(vals, terms, all) && forall i :: 0 <= i < |refs| ==> refs[i] < |terms|
    ensures forall i :: 0 <= i < |refs| ==> BoolAt(all, TermAt(terms, refs[i])) == BoolAt(vals, refs[i])
  {
    forall i | 0 <= i < |refs| ensures BoolAt(all, TermAt(terms, refs[i])) == BoolAt(vals, refs[i]) {
      assert terms[refs[i]] < |all|;
    }
  }

  /** Under matching values, every assertion and assumption of the query is as true as that of the
      request. */
  lemma {:induction false} SameRoots(q: Request, terms: seq<TermId>, query: Query, env: Env, w: Names)
    requires RequestOk(q) && Translates(q, terms, query) && Matches(Typed(q.nodes).value, terms, env, w)
    ensures |query.assertions| == |q.assertions| && |query.assumptions| == |q.assumptions|
    ensures forall i {:trigger query.assertions[i]} :: 0 <= i < |q.assertions| ==>
              BoolAt(Eval(query.arena.nodes, env), query.assertions[i].root) ==
                BoolAt(RequestValues(q, w), q.assertions[i])
    ensures forall i {:trigger query.assumptions[i]} :: 0 <= i < |q.assumptions| ==>
              BoolAt(Eval(query.arena.nodes, env), query.assumptions[i]) ==
                BoolAt(RequestValues(q, w), q.assumptions[i])
  {
    hide Lowered, Eval, Typed, Referred, BoolAt, NamedEnv;
    var typed, nodes := Typed(q.nodes).value, query.arena.nodes;
    MatchedValues(typed, terms, nodes, env, w);
    SameTruth(RequestValues(q, w), terms, Eval(nodes, env), q.assertions);
    SameTruth(RequestValues(q, w), terms, Eval(nodes, env), q.assumptions);
  }

  /** Query and request hold for the same values of the variables, and give the target the same value. */
  lemma {:induction false} SameMeaning(q: Request, terms: seq<TermId>, query: Query, env: Env, w: Names)
    requires RequestOk(q) && Translates(q, terms, query) && Matches(Typed(q.nodes).value, terms, env, w)
    ensures query.Holds(env) <==> RequestHolds(q, w)
    ensures q.Optimizes() ==> Solver.TargetOf(query.arena.nodes, query.target.value, env) == RequestTarget(q, w)
  {
    hide Lowered, Eval, Typed, Referred, NamedEnv;
    var typed, nodes := Typed(q.nodes).value, query.arena.nodes;
    SameRoots(q, terms, query, env, w);
    MatchedValues(typed, terms, nodes, env, w);
    hide BoolAt;
    RootsHold(query, env);
    if query.Holds(env) {
      forall i | 0 <= i < |q.assertions| ensures BoolAt(RequestValues(q, w), q.assertions[i]) {
        assert BoolAt(Eval(nodes, env), query.assertions[i].root);
      }
      forall i | 0 <= i < |q.assumptions| ensures BoolAt(RequestValues(q, w), q.assumptions[i]) {
        assert BoolAt(Eval(nodes, env), query.assumptions[i]);
      }
    }
  }

  lemma {:induction false} RootsHold(query: Query, env: Env)
    ensures query.Holds(env) <==>
              && (forall i :: 0 <= i < |query.assertions| ==>
                    BoolAt(Eval(query.arena.nodes, env), query.assertions[i].root))
              && (forall i :: 0 <= i < |query.assumptions| ==>
                    BoolAt(Eval(query.arena.nodes, env), query.assumptions[i]))
  {
    hide Eval, BoolAt;
    var roots, n := query.Roots(), |query.assertions|;
    if query.Holds(env) {
      forall i | 0 <= i < |query.assumptions| ensures BoolAt(Eval(query.arena.nodes, env), query.assumptions[i]) {
        assert roots[n + i] == query.assumptions[i];
      }
      forall i | 0 <= i < n ensures BoolAt(Eval(query.arena.nodes, env), query.assertions[i].root) {
        assert roots[i] == query.assertions[i].root;
      }
    } else {
      var i :| 0 <= i < |roots| && !BoolAt(Eval(query.arena.nodes, env), roots[i]);
      if i >= n { assert roots[i] == query.assumptions[i - n]; }
    }
  }

  /** Some values of the names make the request hold exactly when the query is satisfiable. */
  lemma {:induction false} SameSatisfiability(q: Request, terms: seq<TermId>, query: Query)
    requires RequestOk(q) && Translates(q, terms, query)
    ensures Solver.Satisfiable(query.arena.nodes, query.Roots()) <==> exists w :: RequestHolds(q, w)
  {
    hide Lowered, Eval, Typed, RequestHolds, NamedEnv, NamesFrom, Satisfied;
    var typed, nodes := Typed(q.nodes).value, query.arena.nodes;
    if env: Env :| Satisfied(nodes, query.Roots(), env) {
      NamesFromMatch(typed, terms, nodes, env);
      SameMeaning(q, terms, query, env, NamesFrom(typed, terms, env));
    }
    if w: Names :| RequestHolds(q, w) {
      NamedEnvMatches(typed, terms, nodes, w);
      SameMeaning(q, terms, query, NamedEnv(nodes, w), w);
    }
  }

  /** `best` is attained by values of the names that make the request hold, and none do better. */
  ghost predicate IsBest(q: Request, best: Bv)
    requires RequestOk(q) && q.Optimizes()
  {
    && (exists w :: RequestHolds(q, w) && RequestTarget(q, w) == best)
    && forall w :: RequestHolds(q, w) ==>
         var other := RequestTarget(q, w);
         match (q.signed, q.command)
         case (false, Minimize) => Val(best) <= Val(other)
         case (false, _) => Val(other) <= Val(best)
         case (true, Minimize) => Signed(best) <= Signed(other)
         case (true, _) => Signed(other) <= Signed(best)
  }

  lemma {:induction false} SameOptimum(q: Request, terms: seq<TermId>, query: Query, best: Bv)
    requires RequestOk(q) && Translates(q, terms, query) && q.Optimizes()
    requires Solver.IsOptimum(query.arena.nodes, query.Roots(), query.target.value, q.signed, q.command.Minimize?, best)
    ensures IsBest(q, best) && exists w :: RequestHolds(q, w)
  {
    hide Lowered, Eval, Typed, RequestHolds, NamedEnv, NamesFrom, Satisfied, RequestTarget, Referred;
    hide Solver.TargetOf, Val, Signed;
    var typed, nodes := Typed(q.nodes).value, query.arena.nodes;
    var env: Env :| Satisfied(nodes, query.Roots(), env) && Solver.TargetOf(nodes, query.target.value, env) == best;
    NamesFromMatch(typed, terms, nodes, env);
    SameMeaning(q, terms, query, env, NamesFrom(typed, terms, env));
    forall w | RequestHolds(q, w)
      ensures Satisfied(nodes, query.Roots(), NamedEnv(nodes, w))
      ensures Solver.TargetOf(nodes, query.target.value, NamedEnv(nodes, w)) == RequestTarget(q, w)
    {
      NamedEnvMatches(typed, terms, nodes, w);
      SameMeaning(q, terms, query, NamedEnv(nodes, w), w);
    }
  }
}
