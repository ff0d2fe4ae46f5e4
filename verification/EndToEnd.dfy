/** Where the two semantics of a query meet: the circuit that is solved, and the evaluator that
    computes on bytes. */
module EndToEnd {
  import opened Wrappers
  import opened Ir
  import opened Gates
  import opened Blast
  import opened Evaluator
  import opened Models
  import Solver

  /** Under the inputs that carry an assignment, the assertion gate of a blasted query is true
      exactly when the byte evaluator finds every root true. */
  lemma {:induction false} CircuitMatchesEvaluator(nodes: seq<Node>, roots: seq<TermId>, g: seq<GateKind>,
                                                   assertion: GateId, variables: seq<BlastedVariable>,
                                                   assignment: EvalAssignment, values: seq<EvalValue>)
    requires WellFormed(nodes) && Faithful(nodes, roots, g, assertion, variables)
    requires forall i :: 0 <= i < |roots| ==> IsBool(nodes, |nodes|, roots[i])
    requires AllRepresent(values, Eval(nodes, AssignedEnv(assignment)))
    ensures Gate(g, InputsOf(variables, AssignedEnv(assignment)), assertion)
            <==> forall i :: 0 <= i < |roots| ==> ComputedTrue(values, roots[i])
  {
    hide Gate, Eval, AssignedEnv, InputsOf, Agrees, VariablesOk, WellFormed, KindValue, AllRepresent;
    var env := AssignedEnv(assignment);
    InputsAgree(nodes, g, variables, env);
    forall i | 0 <= i < |roots| ensures BoolAt(Eval(nodes, env), roots[i]) <==> ComputedTrue(values, roots[i]) {
      RootValue(nodes, env, values, roots[i]);
    }
  }

  /** The evaluator computed `true` for this term. */
  predicate ComputedTrue(values: seq<EvalValue>, root: TermId) { root < |values| && values[root] == EvalBool(true) }

  lemma {:induction false} RootValue(nodes: seq<Node>, env: Env, values: seq<EvalValue>, root: TermId)
    requires WellFormed(nodes) && IsBool(nodes, |nodes|, root) && AllRepresent(values, Eval(nodes, env))
    ensures BoolAt(Eval(nodes, env), root) <==> ComputedTrue(values, root)
  {
    hide Eval, WellFormed;
    EvalSorted(nodes, env);
    BoolOperand(nodes, |nodes|, values, Eval(nodes, env), root);
  }

  /** The evaluator confirms every answer: after Unsat some root is computed false, and under every
      assignment that extends a returned model all roots are computed true. */
  lemma {:induction false} EvaluatorConfirms(nodes: seq<Node>, roots: seq<TermId>, wantModel: bool, limited: bool,
                                             r: Solver.SolveResult, assignment: EvalAssignment, values: seq<EvalValue>)
    requires WellFormed(nodes) && Solver.Answers(nodes, roots, wantModel, limited, r)
    requires forall i :: 0 <= i < |roots| ==> IsBool(nodes, |nodes|, roots[i])
    requires AllRepresent(values, Eval(nodes, AssignedEnv(assignment)))
    ensures r.status.StatusUnsat? ==> exists i :: 0 <= i < |roots| && !ComputedTrue(values, roots[i])
    ensures r.model.Some? && Extends(AssignedEnv(assignment), r.model.value) ==>
              forall i :: 0 <= i < |roots| ==> ComputedTrue(values, roots[i])
  {
    hide Eval, AssignedEnv, WellFormed, AllRepresent, ComputedTrue;
    var env := AssignedEnv(assignment);
    forall i | 0 <= i < |roots| ensures BoolAt(Eval(nodes, env), roots[i]) <==> ComputedTrue(values, roots[i]) {
      RootValue(nodes, env, values, roots[i]);
    }
    if r.status.StatusUnsat? {
      assert !Satisfied(nodes, roots, env);
    }
  }
}
