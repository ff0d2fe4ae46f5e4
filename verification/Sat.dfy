/** The in-house DPLL solver: unit propagation and branching on the most frequent variable. */
module Sat {
  import opened Wrappers
  import opened Cnf
  import opened Blast

  datatype SatResult = Sat(values: seq<bool>) | Unsat | Unknown

  /** A partial assignment: entry v is the value of variable v, entry 0 is unused. */
  type Partial = seq<Option<bool>>

  function LitValue(p: Partial, lit: int): Option<bool>
    requires VarOf(lit) < |p|
  {
    match p[VarOf(lit)]
    case None => None
    case Some(v) => Some(if lit > 0 then v else !v)
  }

  predicate ClauseSatisfied(p: Partial, clause: Clause)
    requires |p| > 0 && LitsOk(clause, |p| - 1)
  {
    exists i :: 0 <= i < |clause| && LitValue(p, clause[i]) == Some(true)
  }

  /** Some clause literals are unassigned, and not just one of them. */
  predicate ClauseOpen(p: Partial, clause: Clause)
    requires |p| > 0 && LitsOk(clause, |p| - 1)
  {
    exists i, j :: 0 <= i < j < |clause| && LitValue(p, clause[i]) == None && LitValue(p, clause[j]) == None
  }

  predicate AllClausesSatisfied(p: Partial, clauses: seq<Clause>)
    requires |p| > 0 && ClausesOk(clauses, |p| - 1)
  {
    forall c :: 0 <= c < |clauses| ==> ClauseSatisfied(p, clauses[c])
  }

  ghost function Free(p: Partial): set<nat> { set v | 1 <= v < |p| && p[v] == None }

  /** Every value `p` has, `q` has. */
  ghost predicate Refines(q: Partial, p: Partial) {
    |q| == |p| && forall v {:trigger q[v]} :: 1 <= v < |p| && p[v].Some? ==> q[v] == p[v]
  }

  /** The total assignment agrees with the partial one. */
  ghost predicate Completes(total: seq<bool>, p: Partial) {
    |total| + 1 == |p| && forall v {:trigger p[v]} :: 1 <= v < |p| && p[v].Some? ==> p[v].value == total[v - 1]
  }

  /** A total assignment that satisfies the clauses and completes `p`. */
  ghost predicate Solves(total: seq<bool>, clauses: seq<Clause>, p: Partial) {
    Completes(total, p) && AllHold(total, clauses)
  }

  ghost predicate NoneSolve(clauses: seq<Clause>, p: Partial) {
    forall total: seq<bool> :: !Solves(total, clauses, p)
  }

  /** `q` refines `p` and loses no solution. */
  ghost predicate Propagated(clauses: seq<Clause>, p: Partial, q: Partial) {
    Refines(q, p) && forall total: seq<bool> :: Solves(total, clauses, p) ==> Completes(total, q)
  }

  lemma {:induction false} LitUnderCompletion(total: seq<bool>, p: Partial, lit: int)
    requires Completes(total, p) && lit != 0 && VarOf(lit) < |p|
    ensures LitValue(p, lit).Some? ==> LitIsSatisfied(total, lit) == LitValue(p, lit).value
  {}

  lemma {:induction false} RefinesFree(q: Partial, p: Partial)
    requires Refines(q, p)
    ensures Free(q) <= Free(p)
  {
    forall v | v in Free(q) ensures v in Free(p) {
      if p[v].Some? { assert q[v] == p[v]; }
    }
  }

  method AssignLit(a: array<Option<bool>>, lit: int) returns (ok: bool)
    requires lit != 0 && VarOf(lit) < a.Length
    modifies a
    ensures ok <==> old(a[VarOf(lit)]) != Some(lit <= 0)
    ensures a[..] == if ok then old(a[..])[VarOf(lit) := Some(lit > 0)] else old(a[..])
  {
    var v, value := VarOf(lit), lit > 0;
    if a[v].Some? && a[v].value != value {
      return false;
    }
    if a[v].None? {
      a[v] := Some(value);
    }
    ok := true;
  }

  /** `last` is the one unassigned literal of a clause whose other literals are false. */
  ghost predicate UnitIn(p: Partial, clause: Clause, last: int)
    requires |p| > 0 && LitsOk(clause, |p| - 1)
  {
    exists k :: 0 <= k < |clause| && clause[k] == last && LitValue(p, last) == None
                && forall i :: 0 <= i < |clause| && i != k ==> LitValue(p, clause[i]) == Some(false)
  }

  /** What one scan over a clause finds. */
  method ScanClause(p: array<Option<bool>>, clause: Clause) returns (satisfied: bool, unassigned: nat, last: int)
    requires p.Length > 0 && LitsOk(clause, p.Length - 1)
    ensures satisfied <==> ClauseSatisfied(p[..], clause)
    ensures !satisfied && unassigned == 0 ==>
              forall i :: 0 <= i < |clause| ==> LitValue(p[..], clause[i]) == Some(false)
    ensures !satisfied && unassigned == 1 ==> UnitIn(p[..], clause, last)
    ensures !satisfied && unassigned >= 2 ==> ClauseOpen(p[..], clause)
  {
    satisfied, unassigned, last := false, 0, 0;
    ghost var first, second := 0, 0;
    for i := 0 to |clause|
      invariant !satisfied && forall k :: 0 <= k < i ==> LitValue(p[..], clause[k]) != Some(true)
      invariant unassigned == 0 ==> forall k :: 0 <= k < i ==> LitValue(p[..], clause[k]) == Some(false)
      invariant unassigned >= 1 ==> 0 <= first < i && LitValue(p[..], clause[first]) == None
      invariant unassigned == 1 ==>
                  (clause[first] == last
                   && forall k :: 0 <= k < i && k != first ==> LitValue(p[..], clause[k]) == Some(false))
      invariant unassigned >= 2 ==> first < second < i && LitValue(p[..], clause[second]) == None
    {
      var value := LitValue(p[..], clause[i]);
      if value == Some(true) {
        satisfied := true;
        break;
      }
      if value == None {
        if unassigned == 0 { first := i; } else if unassigned == 1 { second := i; }
        unassigned := unassigned + 1;
        last := clause[i];
      }
    }
  }

  class DpllSolver {
    const numVars: nat
    const clauses: seq<Clause>
    const scores: seq<nat>
    const limited: bool

    ghost predicate Valid() { ClausesOk(clauses, numVars) && |scores| == numVars + 1 }

    /** Scores a variable by the number of its occurrences. */
    constructor (numVars: nat, clauses: seq<Clause>, limited: bool)
      requires ClausesOk(clauses, numVars)
      ensures Valid() && this.numVars == numVars && this.clauses == clauses && this.limited == limited
      ensures forall v :: 0 <= v <= numVars ==> scores[v] == Occurrences(clauses, v)
    {
      var counts: seq<nat> := seq(numVars + 1, _ => 0);
      for c := 0 to |clauses|
        invariant |counts| == numVars + 1
        invariant forall v :: 0 <= v <= numVars ==> counts[v] == Occurrences(clauses[..c], v)
      {
        ghost var before := counts;
        for i := 0 to |clauses[c]|
          invariant |counts| == numVars + 1
          invariant forall v :: 0 <= v <= numVars ==> counts[v] == before[v] + CountVar(clauses[c][..i], v)
        {
          assert clauses[c][..i + 1][..i] == clauses[c][..i];
          var v := VarOf(clauses[c][i]);
          counts := counts[v := counts[v] + 1];
        }
        assert clauses[c][..|clauses[c]|] == clauses[c] && clauses[..c + 1][..c] == clauses[..c];
      }
      assert clauses[..|clauses|] == clauses;
      this.numVars, this.clauses, this.limited := numVars, clauses, limited;
      this.scores := counts;
    }

    /** Assigns the last literal of every unit clause until nothing changes; false is a conflict.
        No solution is lost, and afterwards no clause is falsified or unit. */
    method UnitPropagate(a: array<Option<bool>>) returns (r: Result<bool>)
      requires Valid() && a.Length == numVars + 1
      modifies a
      ensures r.Err? ==> limited
      ensures r.Ok? && !r.value ==> NoneSolve(clauses, old(a[..]))
      ensures r.Ok? && r.value ==> Propagated(clauses, old(a[..]), a[..])
      ensures r.Ok? && r.value ==>
                forall c :: 0 <= c < |clauses| ==> ClauseSatisfied(a[..], clauses[c]) || ClauseOpen(a[..], clauses[c])
    {
      ghost var start := a[..];
      while true
        invariant Propagated(clauses, start, a[..])
        decreases Free(a[..])
      {
        var ok := CheckLimits(limited);
        if !ok { return Err(Timeout); }
        ghost var round := a[..];
        var changed := false;
        for c := 0 to |clauses|
          invariant Propagated(clauses, start, a[..]) && Refines(a[..], round)
          invariant !changed ==> a[..] == round
          invariant !changed ==>
                      forall d :: 0 <= d < c ==> ClauseSatisfied(a[..], clauses[d]) || ClauseOpen(a[..], clauses[d])
          invariant changed ==> Free(a[..]) < Free(round)
        {
          assert LitsOk(clauses[c], numVars);
          var satisfied, unassigned, last := ScanClause(a, clauses[c]);
          if satisfied {
            continue;
          }
          if unassigned == 0 {
            NoSolution(clauses, start, a[..], c);
            return Ok(false);
          }
          if unassigned == 1 {
            ghost var before := a[..];
            UnitStep(clauses, start, round, before, c, last);
            // The literal is unassigned, so assigning it cannot conflict.
            var consistent := AssignLit(a, last);
            assert consistent;
            changed := true;
          }
        }
        if !changed {
          return Ok(true);
        }
      }
    }

    function ChooseUpTo(p: Partial, n: nat): (r: Option<nat>)
      requires |p| == |scores| && n < |p|
      ensures r.None? ==> forall v :: 1 <= v <= n ==> p[v].Some?
      ensures r.Some? ==> 1 <= r.value <= n && p[r.value].None?
                          && forall v :: 1 <= v <= n && p[v].None? ==>
                               scores[v] <= scores[r.value] && (scores[v] == scores[r.value] ==> v <= r.value)
    {
      if n == 0 then None else
        var best := ChooseUpTo(p, n - 1);
        if p[n].None? && (best.None? || scores[n] >= scores[best.value]) then Some(n) else best
    }

    /** The unassigned variable with the highest score, the last one among equals. */
    function ChooseVar(p: Partial): (r: Option<nat>)
      requires Valid() && |p| == numVars + 1
      ensures r.None? ==> forall v :: 1 <= v <= numVars ==> p[v].Some?
      ensures r.Some? ==> 1 <= r.value <= numVars && p[r.value].None?
                          && forall v :: 1 <= v <= numVars && p[v].None? ==>
                               scores[v] <= scores[r.value] && (scores[v] == scores[r.value] ==> v <= r.value)
    {
      ChooseUpTo(p, numVars)
    }

    /** A model refines the assignment and satisfies every clause; none means none exists. */
    method Search(a: array<Option<bool>>) returns (r: Result<Option<array<Option<bool>>>>)
      requires Valid() && a.Length == numVars + 1
      modifies a
      ensures r.Err? ==> limited
      ensures r.Ok? && r.value.Some? ==> r.value.value.Length == numVars + 1
      ensures r.Ok? && r.value.Some? ==>
                Refines(r.value.value[..], old(a[..])) && AllClausesSatisfied(r.value.value[..], clauses)
      ensures r.Ok? && r.value.None? ==> NoneSolve(clauses, old(a[..]))
      decreases Free(a[..])
    {
      ghost var start := a[..];
      var ok := CheckLimits(limited);
      if !ok { return Err(Timeout); }
      var propagated := UnitPropagate(a);
      if propagated.Err? { return Err(propagated.error); }
      if !propagated.value { return Ok(None); }
      ghost var p := a[..];
      if AllClausesSatisfied(a[..], clauses) { return Ok(Some(a)); }
      var choice := ChooseVar(a[..]);
      // Some clause is not satisfied, hence open: the exit for "nothing left to choose" is never taken.
      SomethingOpen(p, clauses);
      var v := choice.value;
      RefinesFree(p, start);
      BranchShrinks(p, v, true);
      BranchShrinks(p, v, false);

      var trueBranch := new Option<bool>[a.Length](i requires 0 <= i < a.Length reads a => a[i]);
      trueBranch[v] := Some(true);
      assert trueBranch[..] == p[v := Some(true)];
      r := Search(trueBranch);
      if r.Err? { return; }
      if r.value.Some? {
        BranchRefines(start, p, r.value.value[..], v, true);
        return;
      }

      a[v] := Some(false);
      assert a[..] == p[v := Some(false)];
      r := Search(a);
      if r.Ok? && r.value.Some? {
        BranchRefines(start, p, r.value.value[..], v, false);
      } else if r.Ok? {
        Exhausted(clauses, start, p, v);
      }
    }

    /** Sat comes with values that satisfy every clause and assumption; Unsat means there are none;
        only a limit makes the answer unknown. */
    method Solve(assumptions: seq<int>) returns (r: SatResult)
      requires Valid() && LitsOk(assumptions, numVars)
      ensures r.Sat? ==> |r.values| == numVars && AllHold(r.values, clauses)
                         && forall i :: 0 <= i < |assumptions| ==> LitIsSatisfied(r.values, assumptions[i])
      ensures r.Unsat? ==> forall total: seq<bool> :: |total| == numVars && AllHold(total, clauses) ==>
                exists i :: 0 <= i < |assumptions| && !LitIsSatisfied(total, assumptions[i])
      ensures r.Unknown? ==> limited
    {
      var a := new Option<bool>[numVars + 1](_ => None);
      for i := 0 to |assumptions|
        invariant Assumed(assumptions[..i], a[..])
      {
        ghost var before := a[..];
        var ok := AssignLit(a, assumptions[i]);
        if !ok {
          Contradiction(clauses, assumptions, before, i);
          return Unsat;
        }
        AssumeStep(assumptions, before, i);
      }
      assert assumptions[..|assumptions|] == assumptions;
      ghost var start := a[..];
      var found := Search(a);
      if found.Err? { return Unknown; }
      if found.value.None? {
        AssumptionsComplete(clauses, assumptions, start);
        return Unsat;
      }
      var model := found.value.value;
      var values :=
          seq(numVars, i requires 0 <= i < numVars reads model =>
              if model[i + 1].Some? then model[i + 1].value else false);
      ModelHolds(clauses, assumptions, start, model[..], values);
      r := Sat(values);
    }
  }

  function CountVar(clause: Clause, v: nat): nat {
    if clause == [] then 0 else CountVar(clause[..|clause| - 1], v) + if VarOf(clause[|clause| - 1]) == v then 1 else 0
  }

  function Occurrences(clauses: seq<Clause>, v: nat): nat {
    if clauses == [] then 0 else Occurrences(clauses[..|clauses| - 1], v) + CountVar(clauses[|clauses| - 1], v)
  }

  // ------------------------------------------------------------------- propagation

  lemma {:induction false} NoSolution(clauses: seq<Clause>, start: Partial, p: Partial, c: nat)
    requires |p| > 0 && ClausesOk(clauses, |p| - 1) && c < |clauses| && Propagated(clauses, start, p)
    requires forall i :: 0 <= i < |clauses[c]| ==> LitValue(p, clauses[c][i]) == Some(false)
    ensures NoneSolve(clauses, start)
  {
    forall total: seq<bool> | Solves(total, clauses, start) ensures false {
      assert ClauseHolds(total, clauses[c]);
      var i :| 0 <= i < |clauses[c]| && LitIsSatisfied(total, clauses[c][i]);
      LitUnderCompletion(total, p, clauses[c][i]);
    }
  }

  /** A unit clause forces its last literal. */
  lemma {:induction false} UnitStep(clauses: seq<Clause>, start: Partial, round: Partial, p: Partial, c: nat, last: int)
    requires |p| > 0 && ClausesOk(clauses, |p| - 1) && c < |clauses| && Propagated(clauses, start, p)
    requires Refines(p, round)
    requires UnitIn(p, clauses[c], last)
    ensures last != 0 && VarOf(last) < |p| && p[VarOf(last)] == None
    ensures var q := p[VarOf(last) := Some(last > 0)];
            Propagated(clauses, start, q) && Refines(q, round) && Free(q) < Free(round)
  {
    var k :| 0 <= k < |clauses[c]| && clauses[c][k] == last && LitValue(p, last) == None
                && forall i :: 0 <= i < |clauses[c]| && i != k ==> LitValue(p, clauses[c][i]) == Some(false);
    var v := VarOf(last);
    assert LitsOk(clauses[c], |p| - 1);
    var q := p[v := Some(last > 0)];
    RefinesFree(p, round);
    assert Free(q) == Free(p) - {v} && v in Free(p);
    forall total: seq<bool> | Solves(total, clauses, start) ensures Completes(total, q) {
      assert ClauseHolds(total, clauses[c]);
      var i :| 0 <= i < |clauses[c]| && LitIsSatisfied(total, clauses[c][i]);
      LitUnderCompletion(total, p, clauses[c][i]);
      assert i == k;
    }
  }

  // ------------------------------------------------------------------------- search

  lemma {:induction false} SomethingOpen(p: Partial, clauses: seq<Clause>)
    requires |p| > 0 && ClausesOk(clauses, |p| - 1) && !AllClausesSatisfied(p, clauses)
    requires forall c :: 0 <= c < |clauses| ==> ClauseSatisfied(p, clauses[c]) || ClauseOpen(p, clauses[c])
    ensures exists v :: 1 <= v < |p| && p[v].None?
  {
    var c :| 0 <= c < |clauses| && !ClauseSatisfied(p, clauses[c]);
    var i, j :| 0 <= i < j < |clauses[c]| && LitValue(p, clauses[c][i]) == None && LitValue(p, clauses[c][j]) == None;
    assert LitsOk(clauses[c], |p| - 1);
    assert p[VarOf(clauses[c][i])].None?;
  }

  lemma {:induction false} BranchShrinks(p: Partial, v: nat, value: bool)
    requires 1 <= v < |p| && p[v].None?
    ensures Free(p[v := Some(value)]) < Free(p)
  {
    assert v in Free(p) && Free(p[v := Some(value)]) == Free(p) - {v};
  }

  lemma {:induction false} BranchRefines(start: Partial, p: Partial, q: Partial, v: nat, value: bool)
    requires Refines(p, start) && 1 <= v < |p| && p[v].None? && Refines(q, p[v := Some(value)])
    ensures Refines(q, start)
  {
    forall u {:trigger q[u]} | 1 <= u < |start| && start[u].Some? ensures q[u] == start[u] {
      assert p[u] == start[u] && p[v := Some(value)][u] == p[u];
    }
  }

  /** A solution takes one of the two branches. */
  lemma {:induction false} BranchesCover(clauses: seq<Clause>, start: Partial, p: Partial, v: nat)
    requires Propagated(clauses, start, p) && 1 <= v < |p| && p[v].None?
    ensures forall total: seq<bool> :: Solves(total, clauses, start) ==>
              Solves(total, clauses, p[v := Some(true)]) || Solves(total, clauses, p[v := Some(false)])
  {
    forall total: seq<bool> | Solves(total, clauses, start)
      ensures Solves(total, clauses, p[v := Some(true)]) || Solves(total, clauses, p[v := Some(false)])
    {
      assert Completes(total, p);
      assert Solves(total, clauses, p[v := Some(total[v - 1])]);
    }
  }

  /** When neither branch has a solution, there is none. */
  lemma {:induction false} Exhausted(clauses: seq<Clause>, start: Partial, p: Partial, v: nat)
    requires Propagated(clauses, start, p) && 1 <= v < |p| && p[v].None?
    requires NoneSolve(clauses, p[v := Some(true)])
    requires NoneSolve(clauses, p[v := Some(false)])
    ensures NoneSolve(clauses, start)
  {
    BranchesCover(clauses, start, p, v);
  }

  // -------------------------------------------------------------------- assumptions

  /** The partial assignment holds exactly the assumed literals. */
  ghost predicate Assumed(assumptions: seq<int>, p: Partial) {
    && (forall i :: 0 <= i < |assumptions| ==>
          VarOf(assumptions[i]) < |p| && p[VarOf(assumptions[i])] == Some(assumptions[i] > 0))
    && (forall v {:trigger p[v]} :: 1 <= v < |p| && p[v].Some? ==>
          exists i :: 0 <= i < |assumptions| && VarOf(assumptions[i]) == v)
  }

  lemma {:induction false} AssumeStep(assumptions: seq<int>, p: Partial, i: nat)
    requires i < |assumptions| && Assumed(assumptions[..i], p) && VarOf(assumptions[i]) < |p|
    requires p[VarOf(assumptions[i])] != Some(assumptions[i] <= 0)
    ensures Assumed(assumptions[..i + 1], p[VarOf(assumptions[i]) := Some(assumptions[i] > 0)])
  {
    var more, v := assumptions[..i + 1], VarOf(assumptions[i]);
    var q := p[v := Some(assumptions[i] > 0)];
    forall u {:trigger q[u]} | 1 <= u < |q| && q[u].Some?
      ensures exists k :: 0 <= k < |more| && VarOf(more[k]) == u
    {
      if u == v {
        assert VarOf(more[i]) == u;
      } else {
        var k :| 0 <= k < i && VarOf(assumptions[..i][k]) == u;
        assert VarOf(more[k]) == u;
      }
    }
    forall k | 0 <= k < |more| ensures q[VarOf(more[k])] == Some(more[k] > 0) {
      if k < i { assert more[k] == assumptions[..i][k]; }
    }
  }

  lemma {:induction false} Contradiction(clauses: seq<Clause>, assumptions: seq<int>, p: Partial, i: nat)
    requires |p| > 0 && i < |assumptions| && LitsOk(assumptions, |p| - 1) && Assumed(assumptions[..i], p)
    requires p[VarOf(assumptions[i])] == Some(assumptions[i] <= 0)
    ensures forall total: seq<bool> :: |total| == |p| - 1 ==>
              exists k :: 0 <= k < |assumptions| && !LitIsSatisfied(total, assumptions[k])
  {
    var v := VarOf(assumptions[i]);
    assert p[v].Some?;
    var k :| 0 <= k < i && VarOf(assumptions[..i][k]) == v;
    assert p[VarOf(assumptions[..i][k])] == Some(assumptions[k] > 0);
    forall total: seq<bool> | |total| == |p| - 1
      ensures exists k :: 0 <= k < |assumptions| && !LitIsSatisfied(total, assumptions[k])
    {
      assert !LitIsSatisfied(total, assumptions[k]) || !LitIsSatisfied(total, assumptions[i]);
    }
  }

  /** A total assignment that meets every assumption completes the assumed one. */
  lemma {:induction false} AssumptionsComplete(clauses: seq<Clause>, assumptions: seq<int>, p: Partial)
    requires |p| > 0 && LitsOk(assumptions, |p| - 1) && Assumed(assumptions, p)
    requires NoneSolve(clauses, p)
    ensures forall total: seq<bool> :: |total| == |p| - 1 && AllHold(total, clauses) ==>
              exists i :: 0 <= i < |assumptions| && !LitIsSatisfied(total, assumptions[i])
  {
    forall total: seq<bool> | |total| == |p| - 1 && AllHold(total, clauses)
      ensures exists i :: 0 <= i < |assumptions| && !LitIsSatisfied(total, assumptions[i])
    {
      assert !Solves(total, clauses, p);
      var v :| 1 <= v < |p| && p[v].Some? && p[v].value != total[v - 1];
      var i :| 0 <= i < |assumptions| && VarOf(assumptions[i]) == v;
      assert !LitIsSatisfied(total, assumptions[i]);
    }
  }

  lemma {:induction false} ModelHolds(clauses: seq<Clause>, assumptions: seq<int>, start: Partial, model: Partial,
                                      values: seq<bool>)
    requires |model| > 0 && ClausesOk(clauses, |model| - 1) && LitsOk(assumptions, |model| - 1)
    requires Assumed(assumptions, start) && Refines(model, start) && AllClausesSatisfied(model, clauses)
    requires |values| == |model| - 1
    requires forall i :: 0 <= i < |values| ==> values[i] == if model[i + 1].Some? then model[i + 1].value else false
    ensures AllHold(values, clauses) && forall i :: 0 <= i < |assumptions| ==> LitIsSatisfied(values, assumptions[i])
  {
    assert Completes(values, model);
    forall c | 0 <= c < |clauses| ensures ClauseHolds(values, clauses[c]) {
      assert LitsOk(clauses[c], |model| - 1);
      assert ClauseSatisfied(model, clauses[c]);
      var i :| 0 <= i < |clauses[c]| && LitValue(model, clauses[c][i]) == Some(true);
      LitUnderCompletion(values, model, clauses[c][i]);
    }
    forall i | 0 <= i < |assumptions| ensures LitIsSatisfied(values, assumptions[i]) {
      assert model[VarOf(assumptions[i])] == start[VarOf(assumptions[i])];
    }
  }

  // --------------------------------------------------------------------- the backend

  predicate SatAssignmentSatisfies(clauses: seq<Clause>, assumptions: seq<int>, assignment: seq<bool>) {
    (forall i :: 0 <= i < |assumptions| ==> LitIsSatisfied(assignment, assumptions[i])) && AllHold(assignment, clauses)
  }

  /** Runs the solver.  The re-check of a satisfying assignment never rejects it. */
  method SolveCnf(numVars: nat, clauses: seq<Clause>, assumptions: seq<int>, limited: bool) returns (r: SatResult)
    requires ClausesOk(clauses, numVars) && LitsOk(assumptions, numVars)
    ensures r.Sat? ==> |r.values| == numVars && SatAssignmentSatisfies(clauses, assumptions, r.values)
    ensures r.Unsat? ==>
              forall total: seq<bool> :: |total| == numVars ==> !SatAssignmentSatisfies(clauses, assumptions, total)
    ensures r.Unknown? ==> limited
  {
    var ok := CheckLimits(limited);
    if !ok { return Unknown; }
    var solver := new DpllSolver(numVars, clauses, limited);
    r := solver.Solve(assumptions);
    assert r.Sat? ==> SatAssignmentSatisfies(clauses, assumptions, r.values);
  }
}
