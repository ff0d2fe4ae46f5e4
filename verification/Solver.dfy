/** The drivers: one oracle call, bit-by-bit optimisation and deletion-based unsat cores.
    Budgets and cancellation are a flag that lets any call give up; shortcuts are disabled. */
module Solver {
  import opened BitVectors
  import opened Bytes
  import opened ByteOps
  import opened Wrappers
  import opened Ir
  import opened Queries
  import opened Gates
  import opened Cnf
  import opened Blast
  import opened Models
  import Sat

  datatype SolveStatus = StatusSat | StatusUnsat | StatusUnknown | StatusSimplified

  datatype SolveResult = SolveResult(
    status: SolveStatus,
    model: Option<Model>,
    core: Option<seq<string>>,
    optimum: Option<ScalarValue>)

  function Plain(status: SolveStatus): SolveResult { SolveResult(status, None, None, None) }

  /** A model of a set of roots: it can be extended to a total assignment, and every extension
      satisfies them. */
  ghost predicate TrueModel(nodes: seq<Node>, roots: seq<TermId>, model: Model) {
    && (exists env: Env :: Extends(env, model))
    && (forall env: Env {:trigger Extends(env, model)} :: Extends(env, model) ==> Satisfied(nodes, roots, env))
  }

  ghost predicate Satisfiable(nodes: seq<Node>, roots: seq<TermId>) { exists env: Env :: Satisfied(nodes, roots, env) }

  /** The model has an entry for every variable of the arena. */
  ghost predicate CoversVariables(nodes: seq<Node>, model: Model) {
    forall i {:trigger nodes[i]} :: 0 <= i < |nodes| && IsVariable(nodes[i].kind) ==>
        exists e :: 0 <= e < |model| && model[e].term == i
  }

  /** The entry is for a variable of the arena, with its name and a value of its sort. */
  predicate EntryNamed(nodes: seq<Node>, e: ModelEntry) {
    && e.term < |nodes|
    && match nodes[e.term].kind
       case VarBv(w, name, external) =>
         e.name == name && e.external == external && e.value.ScalarBv? && e.value.width == w
           && Normalized(e.value.bytes, w)
       case VarBool(name, external) => e.name == name && e.external == external && e.value.ScalarBool?
       case _ => false
  }

  /** One entry at most for each variable, in the order of their ids. */
  ghost predicate EntriesNamed(nodes: seq<Node>, model: Model) {
    && (forall e {:trigger model[e]} :: 0 <= e < |model| ==> EntryNamed(nodes, model[e]))
    && (forall d, e {:trigger model[d], model[e]} :: 0 <= d < e < |model| ==> model[d].term < model[e].term)
  }

  /** What an answer to a satisfaction query means. */
  ghost predicate Answers(nodes: seq<Node>, roots: seq<TermId>, wantModel: bool, limited: bool, r: SolveResult) {
    && r.core == None && r.optimum == None
    && match r.status
       case StatusSat =>
         && Satisfiable(nodes, roots)
         && (r.model.Some? <==> wantModel) && (r.model.Some? ==> TrueModel(nodes, roots, r.model.value))
       case StatusUnsat => !Satisfiable(nodes, roots) && r.model == None
       case StatusUnknown => limited && r.model == None
       case StatusSimplified => false
  }

  /** Blast, encode, search.  The answer is right; only limits make it unknown. */
  method SolveCore(query: Query, wantModel: bool, limited: bool) returns (r: SolveResult)
    requires query.Valid()
    ensures Answers(query.arena.nodes, query.Roots(), wantModel, limited, r)
    ensures r.model.Some? && query.wantModel ==> CoversVariables(query.arena.nodes, r.model.value)
    ensures r.model.Some? ==> EntriesNamed(query.arena.nodes, r.model.value)
  {
    hide Satisfied, GateArena.Valid, Consistent, ClausesOk, AllHold, TotalBits, Faithful, TrueModel;
    hide Satisfiable, DescribesAll;
    var ok := CheckLimits(limited);
    if !ok { return Plain(StatusUnknown); }
    var blasted := BlastQuery(query, limited);
    if blasted.Err? { return Plain(StatusUnknown); }
    var b := blasted.value;
    ArenaShape(query.arena.nodes, query.Roots(), b);
    var cnf := Encode(b.gates.gates, b.assertion, limited);
    if cnf.Err? { return Plain(StatusUnknown); }
    var sat := Sat.SolveCnf(cnf.value.numVars, cnf.value.clauses, [], limited);
    match sat {
      case Sat(values) =>
        assert AllHold(values, cnf.value.clauses);
        var model := BuildModel(query.arena.nodes, b.gates.gates, b.variables, values);
        ModelIsTrue(query.arena.nodes, query.Roots(), b, values, model);
        EntriesCover(query.arena.nodes, b.variables, values, model);
        EntriesAreNamed(query.arena.nodes, query.Roots(), b, values, model);
        r := SolveResult(StatusSat, if wantModel then Some(model) else None, None, None);
      case Unsat =>
        NoAssignment(query.arena.nodes, query.Roots(), b, cnf.value);
        r := Plain(StatusUnsat);
      case Unknown => r := Plain(StatusUnknown);
    }
  }

  lemma {:induction false} ArenaShape(nodes: seq<Node>, roots: seq<TermId>, b: BlastResult)
    requires b.gates.Valid() && Faithful(nodes, roots, b.gates.gates, b.assertion, b.variables)
    ensures Topological(b.gates.gates) && b.assertion < |b.gates.gates|
    ensures VariablesOk(nodes, b.gates.gates, b.variables)
  {}

  /** A satisfying gate assignment describes inputs under which the assertion gate is true. */
  lemma {:induction false} ModelIsTrue(nodes: seq<Node>, roots: seq<TermId>, b: BlastResult, values: seq<bool>,
                                       model: Model)
    requires b.gates.Valid() && Faithful(nodes, roots, b.gates.gates, b.assertion, b.variables)
    requires |values| == |b.gates.gates| && Consistent(b.gates.gates, values, |b.gates.gates|) && values[b.assertion]
    requires DescribesAll(model, b.variables, values)
    ensures TrueModel(nodes, roots, model) && Satisfiable(nodes, roots)
  {
    hide Satisfied, GateArena.Valid, Consistent, Gate, InputsIn, EnvOf, Agrees, Extends, DescribesAll, VariablesOk;
    var g := b.gates.gates;
    var inp := InputsIn(b.gates.ids, values);
    ConsistentIsEvaluation(b.gates, values, b.assertion);
    forall env: Env ensures Extends(env, model) ==> Satisfied(nodes, roots, env) {
      ExtendsIffAgrees(nodes, b.gates, b.variables, values, model, env);
    }
    var env := EnvOf(g, b.variables, inp);
    EnvAgrees(nodes, g, b.variables, inp);
    ExtendsIffAgrees(nodes, b.gates, b.variables, values, model, env);
    assert Extends(env, model);
  }

  lemma {:induction false} NoAssignment(nodes: seq<Node>, roots: seq<TermId>, b: BlastResult, cnf: Formula)
    requires b.gates.Valid() && Faithful(nodes, roots, b.gates.gates, b.assertion, b.variables)
    requires forall total: seq<bool> {:trigger AllHold(total, cnf.clauses)} :: |total| == |b.gates.gates| ==>
               !AllHold(total, cnf.clauses)
    requires forall total: seq<bool> {:trigger AllHold(total, cnf.clauses)} :: |total| == |b.gates.gates| ==>
               (AllHold(total, cnf.clauses) <==>
                  Consistent(b.gates.gates, total, |b.gates.gates|) && total[b.assertion])
    ensures !Satisfiable(nodes, roots)
  {
    hide Satisfied, Consistent, Gate, InputsOf, Agrees, VariablesOk, AllHold, TotalBits;
    var g := b.gates.gates;
    forall env: Env ensures !Satisfied(nodes, roots, env) {
      var inp := InputsOf(b.variables, env);
      InputsAgree(nodes, g, b.variables, env);
      EvaluationIsConsistent(g, inp);
      assert !AllHold(Evaluation(g, inp), cnf.clauses);
    }
  }

  lemma {:induction false} EntriesCover(nodes: seq<Node>, variables: seq<BlastedVariable>, values: seq<bool>,
                                        model: Model)
    requires DescribesAll(model, variables, values)
    ensures (forall i {:trigger nodes[i]} :: 0 <= i < |nodes| && IsVariable(nodes[i].kind) ==>
               exists v :: 0 <= v < |variables| && variables[v].term == i) ==> CoversVariables(nodes, model)
  {
    hide Describes;
    if forall i {:trigger nodes[i]} :: 0 <= i < |nodes| && IsVariable(nodes[i].kind) ==>
         exists v :: 0 <= v < |variables| && variables[v].term == i
    {
      forall i | 0 <= i < |nodes| && IsVariable(nodes[i].kind)
        ensures exists e :: 0 <= e < |model| && model[e].term == i
      {
        var v :| 0 <= v < |variables| && variables[v].term == i;
        EntryTerm(model[v], variables[v], values);
      }
    }
  }

  lemma {:induction false} EntriesAreNamed(nodes: seq<Node>, roots: seq<TermId>, b: BlastResult, values: seq<bool>,
                                           model: Model)
    requires WellFormed(nodes) && Faithful(nodes, roots, b.gates.gates, b.assertion, b.variables)
    requires DescribesAll(model, b.variables, values)
    ensures EntriesNamed(nodes, model)
  {
    hide TotalBits, InputsFrom, Satisfied, Gate, Agrees, Decoded, Normalized, GetBit;
    forall e | 0 <= e < |model| ensures EntryNamed(nodes, model[e]) {
      var v := b.variables[e];
      assert Describes(model[e], v, values);
      assert DescribesVariable(nodes, v);
      assert SortOf(nodes, v.term, nodes[v.term].kind) == Some(nodes[v.term].sort);
    }
    forall d, e | 0 <= d < e < |model| ensures model[d].term < model[e].term {
      assert Describes(model[d], b.variables[d], values) && Describes(model[e], b.variables[e], values);
      assert b.variables[d].term < b.variables[e].term;
    }
  }

  lemma {:induction false} EntryTerm(e: ModelEntry, v: BlastedVariable, values: seq<bool>)
    requires Describes(e, v, values)
    ensures e.term == v.term
  {}

  /** One oracle call: simplification requests are only acknowledged, optimisation is refused. */
  method SolveOnce(query: Query, wantModel: bool, limited: bool) returns (r: Result<SolveResult>)
    requires query.Valid()
    ensures r.Ok? && query.command.Solve? ==> Answers(query.arena.nodes, query.Roots(), wantModel, limited, r.value)
    ensures r.Ok? && r.value.model.Some? && query.wantModel ==> CoversVariables(query.arena.nodes, r.value.model.value)
    ensures r.Ok? && r.value.model.Some? ==> EntriesNamed(query.arena.nodes, r.value.model.value)
    ensures r.Ok? && query.command.Simplify? ==>
              || r.value == SolveResult(StatusSimplified, None, None, None)
              || (limited && r.value == SolveResult(StatusUnknown, None, None, None))
    ensures query.command.Minimize? || query.command.Maximize? ==>
              r.Err? || (limited && r.value == Plain(StatusUnknown))
    ensures query.command.Solve? || query.command.Simplify? ==> r.Ok?
  {
    hide Satisfied, Satisfiable, TrueModel;
    var ok := CheckLimits(limited);
    if !ok { return Ok(Plain(StatusUnknown)); }
    match query.command {
      case Simplify => return Ok(Plain(StatusSimplified));
      case Minimize => return Err(Invalid);
      case Maximize => return Err(Invalid);
      case Solve =>
    }
    ok := CheckLimits(limited);
    if !ok { return Ok(Plain(StatusUnknown)); }
    var answer := SolveCore(query, wantModel, limited);
    r := Ok(answer);
  }

  // -------------------------------------------------------------------- optimisation

  /** The target's bits under an assignment. */
  ghost function TargetOf(nodes: seq<Node>, target: TermId, env: Env): Bv { BvAt(Eval(nodes, env), target) }

  /** The number that is compared: the signed or unsigned reading. */
  function Key(x: Bv, signed: bool): int { if signed then Signed(x) else Val(x) }

  /** `x` is at least as good as `y`. */
  predicate AsGood(x: Bv, y: Bv, signed: bool, minimize: bool) {
    if minimize then Key(x, signed) <= Key(y, signed) else Key(x, signed) >= Key(y, signed)
  }

  /** `best` is attained by some satisfying assignment, and no other does better. */
  ghost predicate IsOptimum(nodes: seq<Node>, roots: seq<TermId>, target: TermId, signed: bool, minimize: bool,
                            best: Bv)
  {
    && (exists env: Env :: Satisfied(nodes, roots, env) && TargetOf(nodes, target, env) == best)
    && (forall env: Env :: Satisfied(nodes, roots, env) ==>
          var other := TargetOf(nodes, target, env);
          match (signed, minimize)
          case (false, true) => Val(best) <= Val(other)
          case (false, false) => Val(other) <= Val(best)
          case (true, true) => Signed(best) <= Signed(other)
          case (true, false) => Signed(other) <= Signed(best))
  }

  function PreferOne(signed: bool, minimize: bool, top: bool): bool {
    match (signed, minimize, top)
    case (false, true, _) => false
    case (false, false, _) => true
    case (true, true, true) => true
    case (true, true, false) => false
    case (true, false, true) => false
    case (true, false, false) => true
  }

  /** Prepending a lower bit doubles the key and adds the bit; alone, a sign bit counts negatively. */
  lemma {:induction false} KeyStep(b: bool, s: Bv, signed: bool)
    ensures Key([b] + s, signed) == if s == [] && signed then -Bit(b) else Bit(b) + 2 * Key(s, signed)
  {
    assert ([b] + s)[1..] == s;
    if s == [] {
      assert [b] + s == [b];
      assert Pow2(1) == 2;
    }
  }

  lemma {:induction false} KeyInjective(s: Bv, t: Bv, signed: bool)
    requires |s| == |t| && Key(s, signed) == Key(t, signed)
    ensures s == t
  {
    hide Val, FromInt;
    if signed {
      FromIntSigned(s);
      FromIntSigned(t);
    } else {
      ValInjective(s, t);
    }
  }

  /** A choice that is best on the upper bits stays best when it prefers the right lower bit. */
  lemma {:induction false} BestStep(p: bool, s: Bv, q: bool, t: Bv, signed: bool, minimize: bool)
    requires |s| == |t| && AsGood(s, t, signed, minimize)
    requires s == t ==> p == q || p == PreferOne(signed, minimize, s == [])
    ensures AsGood([p] + s, [q] + t, signed, minimize)
  {
    hide Key;
    KeyStep(p, s, signed);
    KeyStep(q, t, signed);
    if Key(s, signed) == Key(t, signed) {
      KeyInjective(s, t, signed);
    }
  }

  /** The roots `fixed` hold exactly when `roots` hold and the target's bits from `b` up are `bits`. */
  ghost predicate Fixes(nodes: seq<Node>, roots: seq<TermId>, target: TermId, fixedNodes: seq<Node>, fixed: seq<TermId>,
                        b: nat, bits: Bv)
  {
    forall env: Env {:trigger Satisfied(fixedNodes, fixed, env)} {:trigger Satisfied(nodes, roots, env)} ::
      Satisfied(fixedNodes, fixed, env) <==>
        Satisfied(nodes, roots, env) && b <= |TargetOf(nodes, target, env)| && TargetOf(nodes, target, env)[b..] == bits
  }

  /** No satisfying assignment beats `bits` on the target's bits from `b` up. */
  ghost predicate BestFrom(nodes: seq<Node>, roots: seq<TermId>, target: TermId, signed: bool, minimize: bool, b: nat,
                           bits: Bv)
  {
    forall env: Env {:trigger Satisfied(nodes, roots, env)} :: Satisfied(nodes, roots, env) ==>
      && b <= |TargetOf(nodes, target, env)| && |TargetOf(nodes, target, env)[b..]| == |bits|
      && AsGood(bits, TargetOf(nodes, target, env)[b..], signed, minimize)
  }

  /** `more` adds the requirement that target bit `b` is `value`. */
  ghost predicate AddsBit(nodes: seq<Node>, roots: seq<TermId>, moreNodes: seq<Node>, more: seq<TermId>, target: TermId,
                          b: nat, value: bool)
  {
    forall env: Env {:trigger Satisfied(moreNodes, more, env)} {:trigger Satisfied(nodes, roots, env)} ::
      Satisfied(moreNodes, more, env) <==>
        Satisfied(nodes, roots, env) && b < |TargetOf(nodes, target, env)| && TargetOf(nodes, target, env)[b] == value
  }

  lemma {:induction false} AssertionAdded(nodes: seq<Node>, moreNodes: seq<Node>, assertions: seq<Assertion>,
                                          assumptions: seq<TermId>, a: Assertion, env: Env)
    requires nodes <= moreNodes && WellFormed(nodes)
    requires forall i :: 0 <= i < |assertions| ==> IsBool(nodes, |nodes|, assertions[i].root)
    requires forall i :: 0 <= i < |assumptions| ==> IsBool(nodes, |nodes|, assumptions[i])
    ensures Satisfied(moreNodes, AssertionRoots(assertions + [a]) + assumptions, env) <==>
            Satisfied(nodes, AssertionRoots(assertions) + assumptions, env) && BoolAt(Eval(moreNodes, env), a.root)
  {
    hide Eval;
    EvalKept(nodes, moreNodes, env);
    var was := AssertionRoots(assertions) + assumptions;
    var now := AssertionRoots(assertions + [a]) + assumptions;
    var n := |assertions|;
    assert forall i :: 0 <= i < |was| ==> now[if i < n then i else i + 1] == was[i];
    assert now[n] == a.root;
    assert forall i :: 0 <= i < |was| ==> BoolAt(Eval(nodes, env), was[i]) == BoolAt(Eval(moreNodes, env), was[i]);
    if Satisfied(moreNodes, now, env) {
      forall i | 0 <= i < |was| ensures BoolAt(Eval(nodes, env), was[i]) {
        assert BoolAt(Eval(moreNodes, env), now[if i < n then i else i + 1]);
      }
    }
    if Satisfied(nodes, was, env) && BoolAt(Eval(moreNodes, env), a.root) {
      forall i | 0 <= i < |now| ensures BoolAt(Eval(moreNodes, env), now[i]) {
        assert i == n || now[i] == was[if i < n then i else i - 1];
      }
    }
  }

  /** The value of the comparison that pins one bit. */
  lemma {:induction false} PinnedBit(nodes: seq<Node>, env: Env, target: TermId, bit: nat, value: bool,
                                     extracted: TermId, constant: TermId, eq: TermId)
    requires WellFormed(nodes) && IsBv(nodes, |nodes|, target) && bit < Width(nodes, target)
    requires extracted < |nodes| && nodes[extracted].kind == ExtractBv(target, bit, bit)
    requires constant < |nodes| && nodes[constant].kind == ConstBv(1, [if value then 1 else 0])
    requires eq < |nodes| && nodes[eq].kind == CompareBv(CmpEq, extracted, constant)
    ensures |TargetOf(nodes, target, env)| == Width(nodes, target)
    ensures BoolAt(Eval(nodes, env), eq) <==> TargetOf(nodes, target, env)[bit] == value
  {
    hide SortOf, Eval, WellFormed;
    EvalAt(nodes, env, extracted);
    EvalAt(nodes, env, constant);
    EvalAt(nodes, env, eq);
    EvalSorted(nodes, env);
    hide ValuesSorted;
    var x := TargetOf(nodes, target, env);
    assert HasSort(Eval(nodes, env)[target], nodes[target].sort) by { TargetSorted(nodes, env, target); }
    OneBitConstant(value);
    assert BvExtract(x, bit, bit) == [x[bit]];
  }

  lemma {:induction false} TargetSorted(nodes: seq<Node>, env: Env, target: TermId)
    requires WellFormed(nodes) && target < |nodes|
    ensures HasSort(Eval(nodes, env)[target], nodes[target].sort)
  {
    EvalSorted(nodes, env);
  }

  lemma {:induction false} OneBitConstant(value: bool)
    ensures Decoded([if value then 1 else 0], 1) == [value] && Normalized([if value then 1 else 0], 1)
  {
    var b: Byte := if value then 1 else 0;
    assert FromInt(b, 8) == [value] + FromInt(0, 7);
    ValZeros(7);
  }

  lemma {:induction false} PinSorts(nodes: seq<Node>, target: TermId, bit: nat, value: bool)
    requires IsBv(nodes, |nodes|, target) && bit < Width(nodes, target)
    ensures SortOf(nodes, |nodes|, ExtractBv(target, bit, bit)) == Some(BvSort(1))
    ensures SortOf(nodes, |nodes|, ConstBv(1, [if value then 1 else 0])) == Some(BvSort(1))
  {
    OneBitConstant(value);
  }

  lemma {:induction false} PinTestSort(nodes: seq<Node>, a: TermId, b: TermId)
    requires a < |nodes| && b < |nodes| && nodes[a].sort == nodes[b].sort == BvSort(1)
    ensures SortOf(nodes, |nodes|, CompareBv(CmpEq, a, b)) == Some(BoolSort)
  {}

  /** Only operators and constants were appended. */
  ghost predicate SameVariables(nodes: seq<Node>, more: seq<Node>) {
    nodes <= more && forall i {:trigger more[i]} :: |nodes| <= i < |more| ==> !IsVariable(more[i].kind)
  }

  /** A model of the larger arena is one of the smaller: its entries are for the same variables. */
  lemma {:induction false} NamedBefore(nodes: seq<Node>, more: seq<Node>, model: Model)
    requires SameVariables(nodes, more) && EntriesNamed(more, model)
    ensures EntriesNamed(nodes, model)
  {
    hide Normalized;
    forall e | 0 <= e < |model| ensures EntryNamed(nodes, model[e]) {
      assert EntryNamed(more, model[e]);
    }
  }

  /** The term that compares one bit of the target with a constant. */
  method AddBitTest(arena: Arena, target: TermId, bit: nat, value: bool)
      returns (eq: TermId, ghost extracted: TermId, ghost constant: TermId)
    requires arena.Valid() && IsBv(arena.nodes, |arena.nodes|, target) && bit < Width(arena.nodes, target)
    modifies arena
    ensures arena.Valid() && old(arena.nodes) <= arena.nodes
    ensures extracted < |arena.nodes| && arena.nodes[extracted].kind == ExtractBv(target, bit, bit)
    ensures constant < |arena.nodes| && arena.nodes[constant].kind == ConstBv(1, [if value then 1 else 0])
    ensures eq < |arena.nodes| && arena.nodes[eq] == Node(CompareBv(CmpEq, extracted, constant), BoolSort)
    ensures SameVariables(old(arena.nodes), arena.nodes)
  {
    hide SortOf, WellFormed, Arena.Interned;
    PinSorts(arena.nodes, target, bit, value);
    var e := arena.Add(ExtractBv(target, bit, bit), BvSort(1));
    PinSorts(arena.nodes, target, bit, value);
    var c := arena.Add(ConstBv(1, [if value then 1 else 0]), BvSort(1));
    PinTestSort(arena.nodes, e.value, c.value);
    var test := arena.Add(CompareBv(CmpEq, e.value, c.value), BoolSort);
    extracted, constant, eq := e.value, c.value, test.value;
  }

  lemma {:induction false} ArenaWellFormed(arena: Arena)
    requires arena.Valid()
    ensures WellFormed(arena.nodes)
  {}

  /** Adds the assertion that one bit of the target has the given value, in place. */
  method AssertTargetBit(query: Query, target: TermId, bit: nat, value: bool) returns (out: Query)
    requires query.Valid() && IsBv(query.arena.nodes, |query.arena.nodes|, target)
    requires bit < Width(query.arena.nodes, target)
    modifies query.arena
    ensures out.Valid() && old(query.arena.nodes) <= query.arena.nodes
    ensures out.assertions != []
    ensures out == query.(assertions := query.assertions + [Assertion(out.assertions[|out.assertions| - 1].root, None)])
    ensures AddsBit(old(query.arena.nodes), query.Roots(), query.arena.nodes, out.Roots(), target, bit, value)
    ensures SameVariables(old(query.arena.nodes), query.arena.nodes)
  {
    hide WellFormed, Satisfied, Eval, FromInt, SortOf, Arena.Valid;
    ghost var was := query.arena.nodes;
    var arena := query.arena;
    ArenaWellFormed(arena);
    var eq, extracted, constant := AddBitTest(arena, target, bit, value);
    ArenaWellFormed(arena);
    out := query.(assertions := query.assertions + [Assertion(eq, None)]);
    forall env: Env
      ensures Satisfied(arena.nodes, out.Roots(), env) <==>
              Satisfied(was, query.Roots(), env) && bit < |TargetOf(was, target, env)|
                && TargetOf(was, target, env)[bit] == value
    {
      PinnedBit(arena.nodes, env, target, bit, value, extracted, constant, eq);
      EvalKept(was, arena.nodes, env);
      AssertionAdded(was, arena.nodes, query.assertions, query.assumptions, Assertion(eq, None), env);
    }
  }

  /** The loop invariant of the optimiser: the fixed query is satisfiable, pins the upper target
      bits to `bits`, and nothing beats them. */
  ghost predicate Chosen(nodes: seq<Node>, roots: seq<TermId>, target: TermId, signed: bool, minimize: bool,
                         fixedNodes: seq<Node>, fixed: seq<TermId>, b: nat, bits: Bv)
  {
    && nodes <= fixedNodes && Satisfiable(fixedNodes, fixed)
    && Fixes(nodes, roots, target, fixedNodes, fixed, b, bits)
    && BestFrom(nodes, roots, target, signed, minimize, b, bits)
  }

  lemma {:induction false} TargetWidth(nodes: seq<Node>, env: Env, target: TermId)
    requires WellFormed(nodes) && IsBv(nodes, |nodes|, target)
    ensures |TargetOf(nodes, target, env)| == Width(nodes, target)
  {
    hide SortOf, Eval, WellFormed;
    TargetSorted(nodes, env, target);
  }

  lemma {:induction false} TargetKept(nodes: seq<Node>, more: seq<Node>, env: Env, target: TermId)
    requires nodes <= more && target < |nodes|
    ensures TargetOf(more, target, env) == TargetOf(nodes, target, env)
  {
    hide Eval;
    EvalKept(nodes, more, env);
  }

  lemma {:induction false} ChosenStart(nodes: seq<Node>, roots: seq<TermId>, target: TermId, signed: bool,
                                       minimize: bool, bits: Bv)
    requires WellFormed(nodes) && IsBv(nodes, |nodes|, target) && Satisfiable(nodes, roots) && bits == []
    ensures Chosen(nodes, roots, target, signed, minimize, nodes, roots, Width(nodes, target), bits)
  {
    hide Satisfied, TargetOf, WellFormed, Key;
    forall env: Env ensures |TargetOf(nodes, target, env)| == Width(nodes, target) {
      TargetWidth(nodes, env, target);
    }
  }

  /** Fixing one more bit keeps the invariant, when the bit is preferred or forced. */
  lemma {:induction false} ChosenStep(nodes: seq<Node>, roots: seq<TermId>, target: TermId, signed: bool,
                                      minimize: bool, fixedNodes: seq<Node>, fixed: seq<TermId>, b: nat, bits: Bv,
                                      moreNodes: seq<Node>, more: seq<TermId>, p: bool)
    requires target < |nodes|
    requires Chosen(nodes, roots, target, signed, minimize, fixedNodes, fixed, b + 1, bits)
    requires fixedNodes <= moreNodes && AddsBit(fixedNodes, fixed, moreNodes, more, target, b, p)
    requires Satisfiable(moreNodes, more)
    requires p == PreferOne(signed, minimize, bits == [])
             || forall env: Env :: Satisfied(fixedNodes, fixed, env) ==>
                  b < |TargetOf(fixedNodes, target, env)| && TargetOf(fixedNodes, target, env)[b] == p
    ensures Chosen(nodes, roots, target, signed, minimize, moreNodes, more, b, [p] + bits)
  {
    hide Satisfied, TargetOf, Key, PreferOne, Satisfiable, AsGood;
    forall env: Env ensures TargetOf(fixedNodes, target, env) == TargetOf(nodes, target, env) {
      TargetKept(nodes, fixedNodes, env, target);
    }
    forall env: Env
      ensures Satisfied(moreNodes, more, env) <==>
              Satisfied(nodes, roots, env) && b <= |TargetOf(nodes, target, env)|
                && TargetOf(nodes, target, env)[b..] == [p] + bits
    {
      SuffixSplit(TargetOf(nodes, target, env), b, p, bits);
    }
    forall env: Env | Satisfied(nodes, roots, env)
      ensures var x := TargetOf(nodes, target, env);
              b <= |x| && |x[b..]| == |[p] + bits| && AsGood([p] + bits, x[b..], signed, minimize)
    {
      var x := TargetOf(nodes, target, env);
      assert x[b..] == [x[b]] + x[b + 1..];
      assert bits == x[b + 1..] ==> Satisfied(fixedNodes, fixed, env);
      BestStep(p, bits, x[b], x[b + 1..], signed, minimize);
    }
  }

  lemma {:induction false} SuffixSplit(x: Bv, b: nat, p: bool, bits: Bv)
    ensures (b + 1 <= |x| && x[b + 1..] == bits && x[b] == p) <==> (b <= |x| && x[b..] == [p] + bits)
  {
    if b < |x| {
      assert x[b..] == [x[b]] + x[b + 1..];
      assert ([p] + bits)[1..] == bits && x[b..][1..] == x[b + 1..];
    }
  }

  lemma {:induction false} ChosenEnd(nodes: seq<Node>, roots: seq<TermId>, target: TermId, signed: bool, minimize: bool,
                                     fixedNodes: seq<Node>, fixed: seq<TermId>, best: Bv)
    requires Chosen(nodes, roots, target, signed, minimize, fixedNodes, fixed, 0, best)
    ensures IsOptimum(nodes, roots, target, signed, minimize, best)
    ensures forall env: Env {:trigger Satisfied(fixedNodes, fixed, env)} :: Satisfied(fixedNodes, fixed, env) ==>
              Satisfied(nodes, roots, env) && TargetOf(nodes, target, env) == best
  {
    hide Satisfied, TargetOf, Val, Signed;
    forall env: Env
      ensures Satisfied(nodes, roots, env) ==> AsGood(best, TargetOf(nodes, target, env), signed, minimize)
      ensures Satisfied(fixedNodes, fixed, env) ==> Satisfied(nodes, roots, env) && TargetOf(nodes, target, env) == best
    {
      var x := TargetOf(nodes, target, env);
      assert x[0..] == x;
    }
    var env: Env :| Satisfied(fixedNodes, fixed, env);
    assert Satisfied(nodes, roots, env) && TargetOf(nodes, target, env) == best;
  }

  /** A model whose every extension satisfies the query and attains the value. */
  ghost predicate AttainedBy(nodes: seq<Node>, roots: seq<TermId>, target: TermId, best: Bv, model: Model) {
    && TrueModel(nodes, roots, model)
    && forall env: Env {:trigger Extends(env, model)} :: Extends(env, model) ==> TargetOf(nodes, target, env) == best
  }

  /** What the answer to an optimisation query means. */
  ghost predicate Optimizes(nodes: seq<Node>, roots: seq<TermId>, target: TermId, signed: bool, minimize: bool,
                            wantModel: bool, limited: bool, r: SolveResult)
  {
    && r.core == None
    && match r.status
       case StatusSat =>
         && r.optimum.Some? && r.optimum.value.ScalarBv? && r.optimum.value.width == Width(nodes, target)
         && Normalized(r.optimum.value.bytes, Width(nodes, target))
         && var best := Decoded(r.optimum.value.bytes, Width(nodes, target));
            && IsOptimum(nodes, roots, target, signed, minimize, best)
            && (r.model.Some? <==> wantModel)
            && (r.model.Some? ==> AttainedBy(nodes, roots, target, best, r.model.value))
            && (r.model.Some? ==> EntriesNamed(nodes, r.model.value))
       case StatusUnsat => !Satisfiable(nodes, roots) && r.model == None && r.optimum == None
       case StatusUnknown => limited && r.model == None && r.optimum == None
       case StatusSimplified => false
  }

  lemma {:induction false} ModelAttains(nodes: seq<Node>, roots: seq<TermId>, target: TermId, best: Bv,
                                        fixedNodes: seq<Node>, fixed: seq<TermId>, model: Model)
    requires TrueModel(fixedNodes, fixed, model)
    requires forall env: Env {:trigger Satisfied(fixedNodes, fixed, env)} :: Satisfied(fixedNodes, fixed, env) ==>
               Satisfied(nodes, roots, env) && TargetOf(nodes, target, env) == best
    ensures AttainedBy(nodes, roots, target, best, model)
  {
    hide Satisfied, TargetOf, Extends;
  }

  /** Asks for the preferred value of one bit and fixes the value the answer allows. */
  method DecideBit(fixed: Query, target: TermId, bit: nat, signed: bool, minimize: bool, limited: bool,
                   ghost nodes: seq<Node>, ghost roots: seq<TermId>, ghost bits: Bv)
    returns (known: bool, next: Query, one: bool)
    requires fixed.Valid() && fixed.command == Solve && target < |nodes| && nodes <= fixed.arena.nodes
    requires IsBv(nodes, |nodes|, target) && |bits| + bit + 1 == Width(nodes, target)
    requires Chosen(nodes, roots, target, signed, minimize, fixed.arena.nodes, fixed.Roots(), bit + 1, bits)
    modifies fixed.arena
    ensures !known ==> limited
    ensures known ==>
              next.Valid() && next.command == Solve && (next.arena == fixed.arena || fresh(next.arena))
                && nodes <= next.arena.nodes
    ensures known ==> SameVariables(old(fixed.arena.nodes), next.arena.nodes)
    ensures known ==> Chosen(nodes, roots, target, signed, minimize, next.arena.nodes, next.Roots(), bit, [one] + bits)
  {
    hide Satisfiable, Chosen, WellFormed, Arena.Valid, TrueModel, Satisfied, PreferOne, AddsBit;
    ghost var fixedNodes, fixedRoots := fixed.arena.nodes, fixed.Roots();
    one := PreferOne(signed, minimize, bit == Width(fixed.arena.nodes, target) - 1);
    ghost var preferred := one;
    var trialArena := new Arena.Clone(fixed.arena);
    var trial := AssertTargetBit(fixed.(arena := trialArena), target, bit, one);
    var answer := SolveOnce(trial, false, limited);
    known, next := answer.value.status != StatusUnknown, trial;
    if answer.value.status == StatusUnsat {
      one := !one;
      next := AssertTargetBit(fixed, target, bit, one);
      ForcedBit(fixedNodes, fixedRoots, trial.arena.nodes, trial.Roots(), next.arena.nodes, next.Roots(), target, bit,
                preferred,
                nodes, roots, signed, minimize, bits);
    }
    if known {
      ChosenStep(nodes, roots, target, signed, minimize, fixedNodes, fixedRoots, bit, bits, next.arena.nodes,
                 next.Roots(), one);
    }
  }

  /** Decides the target's bits from the top down, asking for the preferred value first. */
  method Optimize(query: Query, limited: bool) returns (r: Result<SolveResult>)
    requires query.Valid()
    ensures r.Err? <==> query.target.None?
    ensures r.Ok? ==>
              Optimizes(query.arena.nodes, query.Roots(), query.target.value, query.signed, query.command == Minimize,
                                query.wantModel, limited, r.value)
  {
    hide Satisfiable, Chosen, WellFormed, Arena.Valid, TrueModel, AttainedBy, IsOptimum, GetBit;
    hide Satisfied, Decoded, SetBit, AddsBit;
    if query.target.None? { return Err(Invalid); }
    var target := query.target.value;
    ghost var nodes, roots := query.arena.nodes, query.Roots();
    ArenaWellFormed(query.arena);
    var width := Width(query.arena.nodes, target);
    var minimize := query.command == Minimize;
    var base := new Arena.Clone(query.arena);
    var fixed := query.(arena := base, command := Solve, wantModel := false, wantCore := false, target := None);
    var first := SolveOnce(fixed, false, limited);
    if first.value.status != StatusSat { return Ok(Plain(first.value.status)); }
    var optimum := ZeroOptimum(width);
    var bit := width;
    ChosenStart(nodes, roots, target, query.signed, minimize, Decoded(optimum, width)[width..]);
    while bit > 0
      invariant 0 <= bit <= width && Normalized(optimum, width)
      invariant forall k :: 0 <= k < bit ==> !Decoded(optimum, width)[k]
      invariant fresh(fixed.arena) && fixed.Valid() && fixed.command == Solve
      invariant SameVariables(nodes, fixed.arena.nodes)
      invariant Chosen(nodes, roots, target, query.signed, minimize, fixed.arena.nodes, fixed.Roots(), bit,
                       Decoded(optimum, width)[bit..])
    {
      bit := bit - 1;
      var known, one;
      BitChosen(optimum, bit, width, false);
      BitChosen(optimum, bit, width, true);
      known, fixed, one :=
        DecideBit(fixed, target, bit, query.signed, minimize, limited, nodes, roots,
                  Decoded(optimum, width)[bit + 1..]);
      if !known { return Ok(Plain(StatusUnknown)); }
      if one { optimum := SetBit(optimum, bit); }
    }
    assert Decoded(optimum, width)[0..] == Decoded(optimum, width);
    r := AttainOptimum(query, fixed, target, width, optimum, limited);
  }

  /** The final answer, with a model of the fixed query when one is wanted. */
  method AttainOptimum(query: Query, fixed: Query, target: TermId, width: nat, optimum: seq<Byte>, limited: bool)
    returns (r: Result<SolveResult>)
    requires fixed.Valid() && fixed.command == Solve && Normalized(optimum, width)
    requires SameVariables(query.arena.nodes, fixed.arena.nodes)
    requires width == Width(query.arena.nodes, target)
    requires Chosen(query.arena.nodes, query.Roots(), target, query.signed, query.command == Minimize,
                    fixed.arena.nodes, fixed.Roots(), 0, Decoded(optimum, width))
    ensures r.Ok?
    ensures Optimizes(query.arena.nodes, query.Roots(), target, query.signed, query.command == Minimize,
                      query.wantModel, limited, r.value)
  {
    hide Satisfiable, Chosen, TrueModel, AttainedBy, IsOptimum, GetBit, Satisfied, Decoded;
    hide Normalized, Arena.Valid, Query.Valid;
    ghost var nodes, roots, best := query.arena.nodes, query.Roots(), Decoded(optimum, width);
    ChosenEnd(nodes, roots, target, query.signed, query.command == Minimize, fixed.arena.nodes, fixed.Roots(), best);
    var model := None;
    if query.wantModel {
      var answer := SolveOnce(fixed, true, limited);
      ChosenSatisfiable(nodes, roots, target, query.signed, query.command == Minimize, fixed.arena.nodes, fixed.Roots(),
                        0, best);
      if answer.value.status != StatusSat { return Ok(Plain(StatusUnknown)); }
      model := answer.value.model;
      ModelAttains(nodes, roots, target, best, fixed.arena.nodes, fixed.Roots(), model.value);
      NamedBefore(nodes, fixed.arena.nodes, model.value);
    }
    r := Ok(SolveResult(StatusSat, model, None, Some(ScalarBv(width, optimum))));
  }

  method ZeroOptimum(width: nat) returns (bytes: seq<Byte>)
    ensures Normalized(bytes, width) && forall k :: 0 <= k < width ==> !Decoded(bytes, width)[k]
  {
    hide GetBit;
    bytes := seq(BytesFor(width), _ => 0);
    forall j: nat ensures !GetBit(bytes, j) { ZeroBytes(BytesFor(width), j); }
  }

  lemma {:induction false} ChosenSatisfiable(nodes: seq<Node>, roots: seq<TermId>, target: TermId, signed: bool,
                                             minimize: bool, fixedNodes: seq<Node>, fixed: seq<TermId>, b: nat,
                                             bits: Bv)
    requires Chosen(nodes, roots, target, signed, minimize, fixedNodes, fixed, b, bits)
    ensures Satisfiable(fixedNodes, fixed)
  {}

  /** Choosing the value of a clear bit, as the bytes record it. */
  lemma {:induction false} BitChosen(bytes: seq<Byte>, bit: nat, width: nat, one: bool)
    requires Normalized(bytes, width) && bit < width && forall k :: 0 <= k <= bit ==> !Decoded(bytes, width)[k]
    ensures var out := if one then SetBit(bytes, bit) else bytes;
            && Normalized(out, width) && Decoded(out, width)[bit..] == [one] + Decoded(bytes, width)[bit + 1..]
            && forall k :: 0 <= k < bit ==> !Decoded(out, width)[k]
  {
    hide GetBit, SetBit, Decoded;
    SetBitDecoded(bytes, bit, width);
    var x := Decoded(bytes, width);
    assert x[bit..] == [x[bit]] + x[bit + 1..];
    var y := x[bit := true];
    assert y[bit..] == [true] + x[bit + 1..];
  }

  /** When no assignment of the fixed query has the preferred bit, all of them have the other. */
  lemma {:induction false} ForcedBit(fixedNodes: seq<Node>, fixed: seq<TermId>, trialNodes: seq<Node>,
                                     trial: seq<TermId>, moreNodes: seq<Node>, more: seq<TermId>, target: TermId,
                                     b: nat, preferred: bool, nodes: seq<Node>, roots: seq<TermId>, signed: bool,
                                     minimize: bool, bits: Bv)
    requires target < |nodes| && Chosen(nodes, roots, target, signed, minimize, fixedNodes, fixed, b + 1, bits)
    requires AddsBit(fixedNodes, fixed, trialNodes, trial, target, b, preferred) && !Satisfiable(trialNodes, trial)
    requires AddsBit(fixedNodes, fixed, moreNodes, more, target, b, !preferred)
    ensures Satisfiable(moreNodes, more)
    ensures forall env: Env :: Satisfied(fixedNodes, fixed, env) ==>
              b < |TargetOf(fixedNodes, target, env)| && TargetOf(fixedNodes, target, env)[b] == !preferred
  {
    hide Satisfied, TargetOf, BestFrom;
    forall env: Env | Satisfied(fixedNodes, fixed, env)
      ensures b < |TargetOf(fixedNodes, target, env)| && TargetOf(fixedNodes, target, env)[b] == !preferred
    {
      TargetKept(nodes, fixedNodes, env, target);
      assert !Satisfied(trialNodes, trial, env);
    }
    var env: Env :| Satisfied(fixedNodes, fixed, env);
    assert Satisfied(moreNodes, more, env);
  }

  // --------------------------------------------------------------------- unsat cores

  /** The indices of the named assertions, in order. */
  function NamedIndices(assertions: seq<Assertion>): (r: seq<nat>)
    ensures forall k :: 0 <= k < |r| ==> r[k] < |assertions| && assertions[r[k]].name.Some?
    ensures forall i :: 0 <= i < |assertions| && assertions[i].name.Some? ==> i in r
    ensures forall k, l :: 0 <= k < l < |r| ==> r[k] < r[l]
  {
    if assertions == [] then [] else
      var n := |assertions| - 1;
      NamedIndices(assertions[..n]) + if assertions[n].name.Some? then [n] else []
  }

  /** Without one index. */
  function Without(active: seq<nat>, candidate: nat): (r: seq<nat>)
    ensures forall x :: x in r <==> x in active && x != candidate
  {
    if active == [] then [] else
      var n := |active| - 1;
      var rest := Without(active[..n], candidate);
      assert forall x :: x in active <==> x in active[..n] || x == active[n];
      rest + if active[n] == candidate then [] else [active[n]]
  }

  /** The unnamed assertions and those whose index is active. */
  function KeptAssertions(assertions: seq<Assertion>, active: seq<nat>): (r: seq<Assertion>)
    ensures forall a :: a in r ==> a in assertions
  {
    if assertions == [] then [] else
      var n := |assertions| - 1;
      KeptAssertions(assertions[..n], active)
        + if assertions[n].name.None? || n in active then [assertions[n]] else []
  }

  /** The unnamed assertions, the active ones and the assumptions hold. */
  ghost predicate SubsetHolds(nodes: seq<Node>, assertions: seq<Assertion>, assumptions: seq<TermId>, active: seq<nat>,
                              env: Env)
  {
    && (forall i {:trigger assertions[i]} :: 0 <= i < |assertions| && (assertions[i].name.None? || i in active) ==>
          BoolAt(Eval(nodes, env), assertions[i].root))
    && (forall i :: 0 <= i < |assumptions| ==> BoolAt(Eval(nodes, env), assumptions[i]))
  }

  ghost predicate SubsetSatisfiable(query: Query, active: seq<nat>)
    reads query.arena
  {
    exists env: Env :: SubsetHolds(query.arena.nodes, query.assertions, query.assumptions, active, env)
  }

  lemma {:induction false} KeptRoots(nodes: seq<Node>, assertions: seq<Assertion>, active: seq<nat>, env: Env)
    ensures Satisfied(nodes, AssertionRoots(KeptAssertions(assertions, active)), env) <==>
              SubsetHolds(nodes, assertions, [], active, env)
  {
    hide Eval;
    if assertions != [] {
      var n := |assertions| - 1;
      var init := assertions[..n];
      KeptRoots(nodes, init, active, env);
      var kept, all := KeptAssertions(init, active), KeptAssertions(assertions, active);
      assert forall i :: 0 <= i < |kept| ==> AssertionRoots(all)[i] == AssertionRoots(kept)[i];
      assert forall i :: 0 <= i < n ==> init[i] == assertions[i];
      if Satisfied(nodes, AssertionRoots(all), env) {
        assert forall i :: 0 <= i < |kept| ==> BoolAt(Eval(nodes, env), AssertionRoots(all)[i]);
        if assertions[n].name.None? || n in active {
          assert BoolAt(Eval(nodes, env), AssertionRoots(all)[|kept|]);
        }
      }
    }
  }

  /** What `query_with_named_subset` asks. */
  function WithNamedSubset(query: Query, active: seq<nat>): Query {
    query.(assertions := KeptAssertions(query.assertions, active), wantModel := false, wantCore := false)
  }

  lemma {:induction false} SubsetQuery(query: Query, active: seq<nat>)
    requires query.Valid()
    ensures WithNamedSubset(query, active).Valid()
    ensures Satisfiable(query.arena.nodes, WithNamedSubset(query, active).Roots()) <==> SubsetSatisfiable(query, active)
  {
    hide Eval, KeptAssertions, Arena.Valid, AssertionRoots;
    KeptAreBool(query, active);
    forall env: Env
      ensures Satisfied(query.arena.nodes, WithNamedSubset(query, active).Roots(), env)
              <==> SubsetHolds(query.arena.nodes, query.assertions, query.assumptions, active, env)
    {
      KeptRoots(query.arena.nodes, query.assertions, active, env);
      SatisfiedConcat(query.arena.nodes, AssertionRoots(KeptAssertions(query.assertions, active)), query.assumptions,
                      env);
    }
  }

  lemma {:induction false} KeptAreBool(query: Query, active: seq<nat>)
    requires query.Valid()
    ensures forall i :: 0 <= i < |KeptAssertions(query.assertions, active)| ==>
              IsBool(query.arena.nodes, |query.arena.nodes|, KeptAssertions(query.assertions, active)[i].root)
  {
    hide Arena.Valid, KeptAssertions;
    var kept := KeptAssertions(query.assertions, active);
    forall i | 0 <= i < |kept| ensures IsBool(query.arena.nodes, |query.arena.nodes|, kept[i].root) {
      assert kept[i] in query.assertions;
    }
  }

  lemma {:induction false} SatisfiedConcat(nodes: seq<Node>, a: seq<TermId>, b: seq<TermId>, env: Env)
    ensures Satisfied(nodes, a + b, env) <==>
              Satisfied(nodes, a, env) && forall i :: 0 <= i < |b| ==> BoolAt(Eval(nodes, env), b[i])
  {
    hide Eval;
    var roots := a + b;
    if Satisfied(nodes, roots, env) {
      forall i | 0 <= i < |a| ensures BoolAt(Eval(nodes, env), a[i]) {
        assert BoolAt(Eval(nodes, env), roots[i]);
      }
      forall i | 0 <= i < |b| ensures BoolAt(Eval(nodes, env), b[i]) {
        assert BoolAt(Eval(nodes, env), roots[|a| + i]);
      }
    }
  }

  lemma {:induction false} FewerAssertions(query: Query, fewer: seq<nat>, more: seq<nat>)
    requires forall x :: x in fewer ==> x in more
    ensures SubsetSatisfiable(query, more) ==> SubsetSatisfiable(query, fewer)
  {
    hide Eval;
    if SubsetSatisfiable(query, more) {
      var env: Env :| SubsetHolds(query.arena.nodes, query.assertions, query.assumptions, more, env);
      assert SubsetHolds(query.arena.nodes, query.assertions, query.assumptions, fewer, env);
    }
  }

  /** All named assertions active is the query itself. */
  lemma {:induction false} AllActive(query: Query)
    requires query.Valid()
    ensures Satisfiable(query.arena.nodes, query.Roots()) <==> SubsetSatisfiable(query, NamedIndices(query.assertions))
  {
    SubsetQuery(query, NamedIndices(query.assertions));
    AllKept(query.assertions, NamedIndices(query.assertions));
  }

  lemma {:induction false} AllKept(assertions: seq<Assertion>, active: seq<nat>)
    requires forall i :: 0 <= i < |assertions| && assertions[i].name.Some? ==> i in active
    ensures KeptAssertions(assertions, active) == assertions
  {
    if assertions != [] {
      AllKept(assertions[..|assertions| - 1], active);
    }
  }

  /** The names are those of the active assertions, one for each, in order. */
  ghost predicate Names(assertions: seq<Assertion>, active: seq<nat>, names: seq<string>) {
    |names| == |active|
    && forall k {:trigger active[k]} {:trigger names[k]} :: 0 <= k < |active| ==>
         active[k] < |assertions| && assertions[active[k]].name == Some(names[k])
  }

  /** The unnamed assertions, the assumptions and every assertion with one of the names hold. */
  ghost predicate NamedHold(nodes: seq<Node>, assertions: seq<Assertion>, assumptions: seq<TermId>,
                            names: seq<string>, env: Env)
  {
    && (forall i {:trigger assertions[i]} :: 0 <= i < |assertions| ==>
          (match assertions[i].name
           case None => true
           case Some(name) => name in names) ==> BoolAt(Eval(nodes, env), assertions[i].root))
    && (forall i :: 0 <= i < |assumptions| ==> BoolAt(Eval(nodes, env), assumptions[i]))
  }

  lemma {:induction false} ActiveHold(query: Query, active: seq<nat>, names: seq<string>, env: Env)
    requires IsActive(query.assertions, active) && Names(query.assertions, active, names)
    requires NamedHold(query.arena.nodes, query.assertions, query.assumptions, names, env)
    ensures SubsetHolds(query.arena.nodes, query.assertions, query.assumptions, active, env)
  {
    hide Eval;
    forall i | 0 <= i < |query.assertions| && (query.assertions[i].name.None? || i in active)
      ensures BoolAt(Eval(query.arena.nodes, env), query.assertions[i].root)
    {
      if i in active {
        var k :| 0 <= k < |active| && active[k] == i;
        assert names[k] in names;
      }
    }
  }

  /** Nothing satisfies the assertions with the reported names together with the rest. */
  lemma {:induction false} NamesRefuted(query: Query, active: seq<nat>, names: seq<string>)
    requires IsActive(query.assertions, active) && Names(query.assertions, active, names)
    requires !SubsetSatisfiable(query, active)
    ensures forall env: Env :: !NamedHold(query.arena.nodes, query.assertions, query.assumptions, names, env)
  {
    hide NamedHold, SubsetHolds, IsActive, Names;
    forall env: Env ensures !NamedHold(query.arena.nodes, query.assertions, query.assumptions, names, env) {
      if NamedHold(query.arena.nodes, query.assertions, query.assumptions, names, env) {
        ActiveHold(query, active, names, env);
      }
    }
  }

  /** Increasing indices of named assertions. */
  ghost predicate IsActive(assertions: seq<Assertion>, active: seq<nat>) {
    && (forall k :: 0 <= k < |active| ==> active[k] < |assertions| && assertions[active[k]].name.Some?)
    && (forall k, l :: 0 <= k < l < |active| ==> active[k] < active[l])
  }

  /** Every active assertion before `pos` is needed. */
  ghost predicate NeededUpTo(query: Query, active: seq<nat>, pos: nat)
    reads query.arena
  {
    forall k {:trigger active[k]} :: 0 <= k < pos && k < |active| ==>
        SubsetSatisfiable(query, Without(active, active[k]))
  }

  lemma {:induction false} NeededDropped(query: Query, active: seq<nat>, pos: nat)
    requires IsActive(query.assertions, active) && pos < |active| && NeededUpTo(query, active, pos)
    ensures var next := Without(active, active[pos]);
            |next| == |active| - 1 && pos <= |next| && IsActive(query.assertions, next) && NeededUpTo(query, next, pos)
  {
    hide SubsetSatisfiable;
    var next := Without(active, active[pos]);
    WithoutAt(active, pos);
    forall k | 0 <= k < pos ensures SubsetSatisfiable(query, Without(next, next[k])) {
      assert next[k] == active[k];
      FewerAssertions(query, Without(next, next[k]), Without(active, active[k]));
    }
    forall k | 0 <= k < |next| ensures next[k] < |query.assertions| && query.assertions[next[k]].name.Some? {
      assert next[k] in active;
    }
  }

  lemma {:induction false} WithoutAt(active: seq<nat>, pos: nat)
    requires pos < |active| && forall k, l :: 0 <= k < l < |active| ==> active[k] < active[l]
    ensures Without(active, active[pos]) == active[..pos] + active[pos + 1..]
  {
    var n := |active| - 1;
    if pos < n {
      WithoutAt(active[..n], pos);
      assert active[..n][..pos] == active[..pos] && active[..n][pos + 1..] + [active[n]] == active[pos + 1..];
    } else {
      WithoutNone(active[..n], active[pos]);
    }
  }

  lemma {:induction false} WithoutNone(active: seq<nat>, candidate: nat)
    requires forall k :: 0 <= k < |active| ==> active[k] != candidate
    ensures Without(active, candidate) == active
  {
    if active != [] {
      var n := |active| - 1;
      WithoutNone(active[..n], candidate);
    }
  }

  /** Tries to drop each named assertion once.  `active` are the indices of the reported core,
      `calls` counts the oracle calls and `gaveUp` says that some call did not decide. */
  method ExtractNamedCore(query: Query, limited: bool)
    returns (r: Result<seq<string>>, ghost active: seq<nat>, ghost calls: nat, ghost gaveUp: bool)
    requires query.Valid() && query.command == Solve && !Satisfiable(query.arena.nodes, query.Roots())
    ensures r.Err? ==> limited && r.error == Timeout
    ensures r.Ok? ==> IsActive(query.assertions, active) && Names(query.assertions, active, r.value)
    ensures r.Ok? ==> forall env: Env ::
              !NamedHold(query.arena.nodes, query.assertions, query.assumptions, r.value, env)
    ensures r.Ok? ==> !SubsetSatisfiable(query, active) && calls == |NamedIndices(query.assertions)|
    ensures r.Ok? && !gaveUp ==> NeededUpTo(query, active, |active|)
    ensures gaveUp ==> limited
  {
    hide Satisfiable, SubsetSatisfiable, NamedIndices, Without, KeptAssertions, Arena.Valid;
    hide TrueModel, Query.Valid, WithNamedSubset;
    AllActive(query);
    var current := NamedIndices(query.assertions);
    var pos := 0;
    calls, gaveUp := 0, false;
    active := current;
    NamedAreActive(query.assertions);
    while pos < |current|
      invariant 0 <= pos <= |current| && active == current && IsActive(query.assertions, current)
      invariant !SubsetSatisfiable(query, current) && calls + |current| == |NamedIndices(query.assertions)| + pos
      invariant !gaveUp ==> NeededUpTo(query, current, pos)
      invariant gaveUp ==> limited
      decreases |current| - pos
    {
      var ok := CheckLimits(limited);
      if !ok { return Err(Timeout), active, calls, gaveUp; }
      var trialActive := Without(current, current[pos]);
      SubsetQuery(query, trialActive);
      var trial := WithNamedSubset(query, trialActive);
      TrialFields(query, trialActive);
      var answer := SolveOnce(trial, false, limited);
      calls := calls + 1;
      DroppedIsActive(query.assertions, current, pos);
      if answer.value.status == StatusUnsat {
        if !gaveUp { NeededDropped(query, current, pos); }
        current := trialActive;
        active := current;
      } else {
        gaveUp := gaveUp || answer.value.status == StatusUnknown;
        pos := pos + 1;
      }
    }
    var names: seq<string> := [];
    for k := 0 to |current|
      invariant |names| == k && forall j :: 0 <= j < k ==> query.assertions[current[j]].name == Some(names[j])
    {
      names := names + [query.assertions[current[k]].name.value];
    }
    NamesRefuted(query, current, names);
    r := Ok(names);
  }

  lemma {:induction false} NamedAreActive(assertions: seq<Assertion>)
    ensures IsActive(assertions, NamedIndices(assertions))
  {}

  lemma {:induction false} TrialFields(query: Query, active: seq<nat>)
    ensures var trial := WithNamedSubset(query, active);
            trial.arena == query.arena && trial.command == query.command
  {}

  lemma {:induction false} DroppedIsActive(assertions: seq<Assertion>, active: seq<nat>, pos: nat)
    requires IsActive(assertions, active) && pos < |active|
    ensures var next := Without(active, active[pos]); |next| == |active| - 1 && IsActive(assertions, next)
  {
    WithoutAt(active, pos);
  }

  // ------------------------------------------------------------------------- queries

  /** What a reported core means: names of assertions that cannot hold together with the unnamed
      assertions and the assumptions, none of them superfluous unless a limit was reached. */
  ghost predicate IsCore(query: Query, names: seq<string>, limited: bool)
    reads query.arena
  {
    && (forall env: Env :: !NamedHold(query.arena.nodes, query.assertions, query.assumptions, names, env))
    && exists active: seq<nat> ::
         IsActive(query.assertions, active) && Names(query.assertions, active, names)
         && (!limited ==> NeededUpTo(query, active, |active|))
  }

  lemma {:induction false} CoreReported(query: Query, names: seq<string>, active: seq<nat>, limited: bool)
    requires forall env: Env :: !NamedHold(query.arena.nodes, query.assertions, query.assumptions, names, env)
    requires IsActive(query.assertions, active) && Names(query.assertions, active, names)
    requires !limited ==> NeededUpTo(query, active, |active|)
    ensures IsCore(query, names, limited)
  {}

  /** The public entry point. */
  method SolveQuery(query: Query, limited: bool) returns (r: Result<SolveResult>)
    requires query.Valid()
    ensures r.Err? ==> query.target.None? && (query.command.Minimize? || query.command.Maximize?)
    ensures query.target.None? && (query.command.Minimize? || query.command.Maximize?) && !limited ==> r.Err?
    ensures r.Ok? && query.command.Solve? ==>
              Answers(query.arena.nodes, query.Roots(), query.wantModel, limited, r.value.(core := None))
    ensures r.Ok? && r.value.core.Some? ==>
              r.value.status.StatusUnsat? && query.wantCore && IsCore(query, r.value.core.value, limited)
    ensures r.Ok? && query.command.Solve? && r.value.status.StatusUnsat? && query.wantCore ==> r.value.core.Some?
    ensures r.Ok? && r.value.model.Some? && query.command.Solve? ==>
              CoversVariables(query.arena.nodes, r.value.model.value)
                && EntriesNamed(query.arena.nodes, r.value.model.value)
    ensures r.Ok? && (query.command.Minimize? || query.command.Maximize?) && r.value.status != StatusUnknown ==>
              query.target.Some? && Optimizes(query.arena.nodes, query.Roots(), query.target.value, query.signed,
                                              query.command == Minimize, query.wantModel, limited, r.value)
    ensures r.Ok? && r.value.status == StatusUnknown ==>
              limited && r.value == SolveResult(StatusUnknown, None, None, None)
    ensures r.Ok? && r.value.status == StatusSimplified ==> query.command.Simplify?
    ensures r.Ok? && query.command.Simplify? ==>
              || r.value == SolveResult(StatusSimplified, None, None, None)
              || (limited && r.value == SolveResult(StatusUnknown, None, None, None))
  {
    hide Satisfiable, TrueModel, SubsetSatisfiable, CoversVariables, Arena.Valid, IsOptimum;
    hide AttainedBy, NeededUpTo, Query.Valid, IsActive, IsCore, NamedHold, Names, EntriesNamed, Satisfied;
    hide Normalized, Decoded;
    var ok := CheckLimits(limited);
    if !ok { return Ok(Plain(StatusUnknown)); }
    if query.command.Minimize? || query.command.Maximize? {
      r := Optimize(query, limited);
      return;
    }
    var answer := SolveOnce(query, query.wantModel, limited);
    if answer.value.status == StatusUnsat && query.wantCore {
      var core, active, calls, gaveUp := ExtractNamedCore(query, limited);
      if core.Err? { return Ok(Plain(StatusUnknown)); }
      CoreReported(query, core.value, active, limited);
      return Ok(answer.value.(core := Some(core.value)));
    }
    r := answer;
  }
}
