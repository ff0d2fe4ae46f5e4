/** Tseitin encoding: clauses satisfied exactly by the evaluations that make the assertion true. */
module Cnf {
  import opened Wrappers
  import opened Gates
  import opened Blast

  /** DIMACS literals: variable v is gate v - 1, a negative number its negation. */
  type Clause = seq<int>

  datatype Formula = Formula(numVars: nat, clauses: seq<Clause>)

  function VarOf(lit: int): nat { if lit < 0 then -lit else lit }

  /** The literal holds; variables outside the assignment satisfy nothing. */
  predicate LitIsSatisfied(assignment: seq<bool>, lit: int) {
    var v := VarOf(lit);
    v != 0 && v <= |assignment| && (if lit > 0 then assignment[v - 1] else !assignment[v - 1])
  }

  predicate ClauseHolds(assignment: seq<bool>, clause: Clause) {
    exists i :: 0 <= i < |clause| && LitIsSatisfied(assignment, clause[i])
  }

  predicate AllHold(assignment: seq<bool>, clauses: seq<Clause>) {
    forall c :: 0 <= c < |clauses| ==> ClauseHolds(assignment, clauses[c])
  }

  predicate LitsOk(clause: Clause, numVars: nat) {
    forall i :: 0 <= i < |clause| ==> clause[i] != 0 && VarOf(clause[i]) <= numVars
  }

  predicate ClausesOk(clauses: seq<Clause>, numVars: nat) {
    forall c :: 0 <= c < |clauses| ==> LitsOk(clauses[c], numVars)
  }

  function Lit(gate: GateId): int { gate + 1 }

  // ---------------------------------------------------------- clause normalisation

  predicate SortedByVar(clause: Clause) {
    forall i, j :: 0 <= i < j < |clause| ==> VarOf(clause[i]) <= VarOf(clause[j])
  }

  /** Inserts a literal before the first one with a larger variable. */
  function Insert(lit: int, clause: Clause): (r: Clause)
    ensures |r| == |clause| + 1
    ensures forall x :: x in r <==> x == lit || x in clause
    ensures SortedByVar(clause) ==> SortedByVar(r)
  {
    if clause == [] || VarOf(lit) <= VarOf(clause[0]) then
      [lit] + clause
    else
      var rest := Insert(lit, clause[1..]);
      assert forall i :: 0 <= i < |rest| ==> rest[i] in rest;
      [clause[0]] + rest
  }

  /** The clause sorted by variable. */
  function SortClause(clause: Clause): (r: Clause)
    ensures |r| == |clause| && (forall x :: x in r <==> x in clause) && SortedByVar(r)
  {
    if clause == [] then [] else Insert(clause[0], SortClause(clause[1..]))
  }

  /** Drops literals equal to their predecessor. */
  function Dedup(clause: Clause): (r: Clause)
    ensures forall x :: x in r <==> x in clause
    ensures SortedByVar(clause) ==> SortedByVar(r)
    ensures clause != [] ==> r != [] && r[0] == clause[0]
    ensures forall i :: 0 <= i < |r| - 1 ==> r[i] != r[i + 1]
  {
    if |clause| <= 1 then clause
    else if clause[0] == clause[1] then Dedup(clause[1..])
    else
      var rest := Dedup(clause[1..]);
      assert forall x :: x in rest ==> x in clause[1..];
      [clause[0]] + rest
  }

  predicate HasComplement(clause: Clause) {
    exists i :: 0 <= i < |clause| - 1 && VarOf(clause[i]) == VarOf(clause[i + 1]) && clause[i] == -clause[i + 1]
  }

  /** Normalises a clause and appends it, unless it is a tautology.  No assignment sees the difference,
      and a clause that is kept has the same literals, each variable once, in increasing order. */
  method PushClause(clauses: seq<Clause>, clause: Clause, numVars: nat) returns (out: seq<Clause>)
    requires LitsOk(clause, numVars)
    ensures forall assignment: seq<bool> :: |assignment| == numVars ==>
              (AllHold(assignment, out) <==> AllHold(assignment, clauses) && ClauseHolds(assignment, clause))
    ensures ClausesOk(clauses, numVars) ==> ClausesOk(out, numVars)
    ensures out == clauses || (|out| == |clauses| + 1 && clauses <= out && Normal(out[|clauses|])
                               && forall x :: x in out[|clauses|] <==> x in clause)
  {
    hide AllHold, ClauseHolds, Dedup, SortClause, HasComplement;
    var normal := Dedup(SortClause(clause));
    SameLiterals(clause, normal);
    LitsKept(clauses, clause, normal, numVars);
    if HasComplement(normal) {
      forall assignment: seq<bool> | |assignment| == numVars ensures ClauseHolds(assignment, clause) {
        TautologyHolds(assignment, normal, numVars);
        SameMeaning(assignment, clause, normal);
      }
      return clauses;
    }
    out := clauses + [normal];
    StrictlySorted(normal, numVars);
    forall assignment: seq<bool> | |assignment| == numVars
      ensures AllHold(assignment, out) <==> AllHold(assignment, clauses) && ClauseHolds(assignment, clause)
    {
      SameMeaning(assignment, clause, normal);
      AllHoldSnoc(assignment, clauses, normal);
    }
  }

  lemma {:induction false} LitsKept(clauses: seq<Clause>, clause: Clause, normal: Clause, numVars: nat)
    requires LitsOk(clause, numVars) && forall x :: x in normal <==> x in clause
    ensures LitsOk(normal, numVars)
    ensures ClausesOk(clauses, numVars) ==> ClausesOk(clauses + [normal], numVars)
  {
    forall i | 0 <= i < |normal| ensures normal[i] != 0 && VarOf(normal[i]) <= numVars {
      assert normal[i] in normal;
    }
  }

  predicate Normal(clause: Clause) { forall i, j :: 0 <= i < j < |clause| ==> VarOf(clause[i]) < VarOf(clause[j]) }

  lemma {:induction false} AllHoldSnoc(assignment: seq<bool>, clauses: seq<Clause>, clause: Clause)
    ensures AllHold(assignment, clauses + [clause]) <==> AllHold(assignment, clauses) && ClauseHolds(assignment, clause)
  {
    var more := clauses + [clause];
    assert more[|clauses|] == clause;
    assert forall c :: 0 <= c < |clauses| ==> more[c] == clauses[c];
  }

  lemma {:induction false} SameLiterals(clause: Clause, normal: Clause)
    requires normal == Dedup(SortClause(clause))
    ensures forall x :: x in normal <==> x in clause
    ensures SortedByVar(normal)
  {
  }

  lemma {:induction false} SameMeaning(assignment: seq<bool>, a: Clause, b: Clause)
    requires forall x :: x in a <==> x in b
    ensures ClauseHolds(assignment, a) <==> ClauseHolds(assignment, b)
  {
    if ClauseHolds(assignment, a) {
      var i :| 0 <= i < |a| && LitIsSatisfied(assignment, a[i]);
      assert a[i] in b;
    }
    if ClauseHolds(assignment, b) {
      var i :| 0 <= i < |b| && LitIsSatisfied(assignment, b[i]);
      assert b[i] in a;
    }
  }

  lemma {:induction false} TautologyHolds(assignment: seq<bool>, clause: Clause, numVars: nat)
    requires HasComplement(clause) && |assignment| == numVars && LitsOk(clause, numVars)
    ensures ClauseHolds(assignment, clause)
  {
    var i :| 0 <= i < |clause| - 1 && VarOf(clause[i]) == VarOf(clause[i + 1]) && clause[i] == -clause[i + 1];
    assert LitIsSatisfied(assignment, clause[i]) || LitIsSatisfied(assignment, clause[i + 1]);
  }

  /** Without equal or complementary neighbours, the sorted variables are distinct. */
  lemma {:induction false} StrictlySorted(clause: Clause, numVars: nat)
    requires SortedByVar(clause) && !HasComplement(clause)
    requires forall i :: 0 <= i < |clause| - 1 ==> clause[i] != clause[i + 1]
    ensures Normal(clause)
  {
    forall i, j | 0 <= i < j < |clause| ensures VarOf(clause[i]) < VarOf(clause[j]) {
      assert VarOf(clause[i]) != VarOf(clause[i + 1]);
      assert VarOf(clause[i]) <= VarOf(clause[i + 1]) && (i + 1 < j ==> VarOf(clause[i + 1]) <= VarOf(clause[j]));
    }
  }

  // ----------------------------------------------------------------------- encoding

  /** The assignment gives gate `i` the value its kind computes from its operands' values. */
  ghost predicate GateConsistent(g: seq<GateKind>, assignment: seq<bool>, i: GateId)
    requires i < |g| == |assignment|
  {
    Below(g[i], i) ==>
      match g[i]
      case Const(v) => assignment[i] == v
      case Input(_) => true
      case Not(x) => assignment[i] == !assignment[x]
      case And(a, b) => assignment[i] == (assignment[a] && assignment[b])
      case Or(a, b) => assignment[i] == (assignment[a] || assignment[b])
      case Xor(a, b) => assignment[i] == (assignment[a] != assignment[b])
      case Mux(s, t, f) => assignment[i] == if assignment[s] then assignment[t] else assignment[f]
  }

  lemma {:induction false} ShortClauses(assignment: seq<bool>, a: int, b: int, c: int)
    ensures ClauseHolds(assignment, [a]) <==> LitIsSatisfied(assignment, a)
    ensures ClauseHolds(assignment, [a, b]) <==> LitIsSatisfied(assignment, a) || LitIsSatisfied(assignment, b)
    ensures ClauseHolds(assignment, [a, b, c]) <==>
              LitIsSatisfied(assignment, a) || LitIsSatisfied(assignment, b) || LitIsSatisfied(assignment, c)
  {
    hide LitIsSatisfied;
    assert [a][0] == a;
    assert [a, b][0] == a && [a, b][1] == b;
    assert [a, b, c][0] == a && [a, b, c][1] == b && [a, b, c][2] == c;
  }

  /** The clauses of one gate say that it has the value its kind computes. */
  method EncodeGate(g: seq<GateKind>, index: GateId, before: seq<Clause>) returns (clauses: seq<Clause>)
    requires index < |g| && Below(g[index], index) && ClausesOk(before, |g|)
    ensures ClausesOk(clauses, |g|)
    ensures forall assignment: seq<bool> {:trigger AllHold(assignment, clauses)} :: |assignment| == |g| ==>
              (AllHold(assignment, clauses) <==> AllHold(assignment, before) && GateConsistent(g, assignment, index))
  {
    hide AllHold, ClauseHolds, ClausesOk, GateConsistent;
    clauses := before;
    var v := Lit(index);
    match g[index] {
      case Const(value) =>
        clauses := PushClause(clauses, [if value then v else -v], |g|);
      case Input(_) =>
      case Not(x) =>
        var a := Lit(x);
        clauses := PushClause(clauses, [v, a], |g|);
        clauses := PushClause(clauses, [-v, -a], |g|);
      case And(x, y) =>
        var a, b := Lit(x), Lit(y);
        clauses := PushClause(clauses, [-v, a], |g|);
        clauses := PushClause(clauses, [-v, b], |g|);
        clauses := PushClause(clauses, [v, -a, -b], |g|);
      case Or(x, y) =>
        var a, b := Lit(x), Lit(y);
        clauses := PushClause(clauses, [v, -a], |g|);
        clauses := PushClause(clauses, [v, -b], |g|);
        clauses := PushClause(clauses, [-v, a, b], |g|);
      case Xor(x, y) =>
        var a, b := Lit(x), Lit(y);
        clauses := PushClause(clauses, [-a, -b, -v], |g|);
        clauses := PushClause(clauses, [-a, b, v], |g|);
        clauses := PushClause(clauses, [a, -b, v], |g|);
        clauses := PushClause(clauses, [a, b, -v], |g|);
      case Mux(sel, whenTrue, whenFalse) =>
        var s, t, f := Lit(sel), Lit(whenTrue), Lit(whenFalse);
        clauses := PushClause(clauses, [-s, -t, v], |g|);
        clauses := PushClause(clauses, [-s, t, -v], |g|);
        clauses := PushClause(clauses, [s, -f, v], |g|);
        clauses := PushClause(clauses, [s, f, -v], |g|);
    }
    forall assignment: seq<bool> | |assignment| == |g|
      ensures AllHold(assignment, clauses) <==> AllHold(assignment, before) && GateConsistent(g, assignment, index)
    {
      GateClauses(g, assignment, index);
    }
  }

  lemma {:induction false} LitOfGate(assignment: seq<bool>, x: GateId)
    requires x < |assignment|
    ensures LitIsSatisfied(assignment, Lit(x)) == assignment[x]
    ensures LitIsSatisfied(assignment, -Lit(x)) == !assignment[x]
  {}

  lemma {:induction false} GateClauses(g: seq<GateKind>, assignment: seq<bool>, index: GateId)
    requires index < |g| == |assignment| && Below(g[index], index)
    ensures var v := Lit(index);
            GateConsistent(g, assignment, index) <==>
              match g[index]
              case Const(value) => ClauseHolds(assignment, [if value then v else -v])
              case Input(_) => true
              case Not(x) => ClauseHolds(assignment, [v, Lit(x)]) && ClauseHolds(assignment, [-v, -Lit(x)])
              case And(x, y) => ClauseHolds(assignment, [-v, Lit(x)]) && ClauseHolds(assignment, [-v, Lit(y)])
                                && ClauseHolds(assignment, [v, -Lit(x), -Lit(y)])
              case Or(x, y) => ClauseHolds(assignment, [v, -Lit(x)]) && ClauseHolds(assignment, [v, -Lit(y)])
                               && ClauseHolds(assignment, [-v, Lit(x), Lit(y)])
              case Xor(x, y) => ClauseHolds(assignment, [-Lit(x), -Lit(y), -v])
                                && ClauseHolds(assignment, [-Lit(x), Lit(y), v])
                                && ClauseHolds(assignment, [Lit(x), -Lit(y), v])
                                && ClauseHolds(assignment, [Lit(x), Lit(y), -v])
              case Mux(s, t, f) => ClauseHolds(assignment, [-Lit(s), -Lit(t), v])
                                   && ClauseHolds(assignment, [-Lit(s), Lit(t), -v])
                                   && ClauseHolds(assignment, [Lit(s), -Lit(f), v])
                                   && ClauseHolds(assignment, [Lit(s), Lit(f), -v])
  {
    hide ClauseHolds, LitIsSatisfied;
    var v := Lit(index);
    forall x: GateId | x < |g|
      ensures LitIsSatisfied(assignment, Lit(x)) == assignment[x]
      ensures LitIsSatisfied(assignment, -Lit(x)) == !assignment[x]
    {
      LitOfGate(assignment, x);
    }
    match g[index]
    case Const(value) => ShortClauses(assignment, if value then v else -v, 0, 0);
    case Input(_) =>
    case Not(x) =>
      ShortClauses(assignment, v, Lit(x), 0);
      ShortClauses(assignment, -v, -Lit(x), 0);
    case And(x, y) =>
      ShortClauses(assignment, -v, Lit(x), 0);
      ShortClauses(assignment, -v, Lit(y), 0);
      ShortClauses(assignment, v, -Lit(x), -Lit(y));
    case Or(x, y) =>
      ShortClauses(assignment, v, -Lit(x), 0);
      ShortClauses(assignment, v, -Lit(y), 0);
      ShortClauses(assignment, -v, Lit(x), Lit(y));
    case Xor(x, y) =>
      ShortClauses(assignment, -Lit(x), -Lit(y), -v);
      ShortClauses(assignment, -Lit(x), Lit(y), v);
      ShortClauses(assignment, Lit(x), -Lit(y), v);
      ShortClauses(assignment, Lit(x), Lit(y), -v);
    case Mux(s, t, f) =>
      ShortClauses(assignment, -Lit(s), -Lit(t), v);
      ShortClauses(assignment, -Lit(s), Lit(t), -v);
      ShortClauses(assignment, Lit(s), -Lit(f), v);
      ShortClauses(assignment, Lit(s), Lit(f), -v);
  }

  ghost predicate Consistent(g: seq<GateKind>, assignment: seq<bool>, n: nat)
    requires n <= |g| == |assignment|
  {
    forall i :: 0 <= i < n ==> GateConsistent(g, assignment, i)
  }

  /** The encoding is exact: an assignment satisfies the clauses iff every gate has the value its
      kind computes and the assertion gate is true. */
  method Encode(g: seq<GateKind>, assertion: GateId, limited: bool) returns (r: Result<Formula>)
    requires Topological(g) && assertion < |g|
    ensures r.Err? ==> limited && r.error == Timeout
    ensures r.Ok? ==> r.value.numVars == |g| && ClausesOk(r.value.clauses, |g|)
    ensures r.Ok? ==>
              forall assignment: seq<bool> {:trigger AllHold(assignment, r.value.clauses)} :: |assignment| == |g| ==>
                (AllHold(assignment, r.value.clauses) <==> Consistent(g, assignment, |g|) && assignment[assertion])
  {
    hide GateConsistent, ClauseHolds;
    var clauses: seq<Clause> := [];
    for index := 0 to |g|
      invariant ClausesOk(clauses, |g|)
      invariant forall assignment: seq<bool> {:trigger AllHold(assignment, clauses)} :: |assignment| == |g| ==>
                  (AllHold(assignment, clauses) <==> Consistent(g, assignment, index))
    {
      if index % 4096 == 0 {
        var ok := CheckLimits(limited);
        if !ok { return Err(Timeout); }
      }
      ghost var before := clauses;
      clauses := EncodeGate(g, index, clauses);
      forall assignment: seq<bool> | |assignment| == |g|
        ensures AllHold(assignment, clauses) <==> Consistent(g, assignment, index + 1)
      {
        assert AllHold(assignment, before) <==> Consistent(g, assignment, index);
      }
    }
    ghost var before := clauses;
    clauses := PushClause(clauses, [Lit(assertion)], |g|);
    forall assignment: seq<bool> | |assignment| == |g|
      ensures AllHold(assignment, clauses) <==> Consistent(g, assignment, |g|) && assignment[assertion]
    {
      assert AllHold(assignment, before) <==> Consistent(g, assignment, |g|);
      ShortClauses(assignment, Lit(assertion), 0, 0);
    }
    r := Ok(Formula(|g|, clauses));
  }

  // ------------------------------------------------------- assignments as evaluations

  /** The gate inputs an assignment describes. */
  function InputsIn(ids: map<GateKind, GateId>, assignment: seq<bool>): Inputs {
    (k: nat) => Input(k) in ids && ids[Input(k)] < |assignment| && assignment[ids[Input(k)]]
  }

  /** A consistent assignment is the evaluation of the gates under the inputs it describes. */
  lemma {:induction false} ConsistentIsEvaluation(arena: GateArena, assignment: seq<bool>, i: GateId)
    requires arena.Valid() && |assignment| == |arena.gates| && Consistent(arena.gates, assignment, |arena.gates|)
    requires i < |arena.gates|
    ensures Gate(arena.gates, InputsIn(arena.ids, assignment), i) == assignment[i]
    decreases i
  {
    var g := arena.gates;
    assert GateConsistent(g, assignment, i) && Below(g[i], i);
    match g[i]
    case Const(_) =>
    case Input(_) =>
    case Not(x) => ConsistentIsEvaluation(arena, assignment, x);
    case And(a, b) => ConsistentIsEvaluation(arena, assignment, a); ConsistentIsEvaluation(arena, assignment, b);
    case Or(a, b) => ConsistentIsEvaluation(arena, assignment, a); ConsistentIsEvaluation(arena, assignment, b);
    case Xor(a, b) => ConsistentIsEvaluation(arena, assignment, a); ConsistentIsEvaluation(arena, assignment, b);
    case Mux(s, t, f) =>
      ConsistentIsEvaluation(arena, assignment, s);
      ConsistentIsEvaluation(arena, assignment, t);
      ConsistentIsEvaluation(arena, assignment, f);
  }

  ghost function Evaluation(g: seq<GateKind>, inp: Inputs): (assignment: seq<bool>)
    ensures |assignment| == |g|
  {
    seq(|g|, i requires 0 <= i => Gate(g, inp, i))
  }

  /** Every evaluation is consistent. */
  lemma {:induction false} EvaluationIsConsistent(g: seq<GateKind>, inp: Inputs)
    requires Topological(g)
    ensures Consistent(g, Evaluation(g, inp), |g|)
  {
    forall i | 0 <= i < |g| ensures GateConsistent(g, Evaluation(g, inp), i) {
      assert Below(g[i], i);
    }
  }
}
