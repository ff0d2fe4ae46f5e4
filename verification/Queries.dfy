/** Queries: an arena, the Bool terms to satisfy and what is asked about them. */
module Queries {
  import opened Wrappers
  import opened Ir

  datatype Command = Solve | Simplify | Minimize | Maximize

  datatype Assertion = Assertion(root: TermId, name: Option<string>)

  datatype Query = Query(
    arena: Arena,
    assertions: seq<Assertion>,
    assumptions: seq<TermId>,
    command: Command,
    target: Option<TermId>,
    signed: bool,
    wantModel: bool,
    wantCore: bool)
  {
    /** The roots of all assertions, then all assumptions. */
    function Roots(): (roots: seq<TermId>)
      ensures |roots| == |assertions| + |assumptions|
      ensures forall i :: 0 <= i < |assertions| ==> roots[i] == assertions[i].root
      ensures forall i :: 0 <= i < |assumptions| ==> roots[|assertions| + i] == assumptions[i]
    {
      AssertionRoots(assertions) + assumptions
    }

    /** What the builder guarantees: a valid arena, Bool roots and a vector target. */
    ghost predicate Valid()
      reads arena
    {
      && arena.Valid()
      && (forall i :: 0 <= i < |assertions| ==> IsBool(arena.nodes, |arena.nodes|, assertions[i].root))
      && (forall i :: 0 <= i < |assumptions| ==> IsBool(arena.nodes, |arena.nodes|, assumptions[i]))
      && (target.Some? ==> IsBv(arena.nodes, |arena.nodes|, target.value))
    }

    /** All assertions and assumptions hold under `env`. */
    ghost predicate Holds(env: Env)
      reads arena
    {
      Satisfied(arena.nodes, Roots(), env)
    }
  }

  function AssertionRoots(assertions: seq<Assertion>): (roots: seq<TermId>)
    ensures |roots| == |assertions|
    ensures forall i :: 0 <= i < |assertions| ==> roots[i] == assertions[i].root
  {
    seq(|assertions|, i requires 0 <= i < |assertions| => assertions[i].root)
  }

  lemma {:induction false} RootsAreBool(q: Query)
    requires q.Valid()
    ensures forall i :: 0 <= i < |q.Roots()| ==> IsBool(q.arena.nodes, |q.arena.nodes|, q.Roots()[i])
  {}

  /** The operands of a node, in the order they are visited. */
  function Children(k: NodeKind): seq<TermId> {
    match k
    case ConstBv(_, _) => []
    case VarBv(_, _, _) => []
    case ConstBool(_) => []
    case VarBool(_, _) => []
    case UnaryBv(_, x) => [x]
    case BinaryBv(_, a, b) => [a, b]
    case ExtractBv(c, _, _) => [c]
    case ConcatBv(h, l) => [h, l]
    case ExtendBv(_, c, _) => [c]
    case RepeatBv(c, _) => [c]
    case RotateBv(_, c, _) => [c]
    case IteBv(c, t, e) => [c, t, e]
    case SelectBv(cases, d) => [d] + CaseTerms(cases)
    case NotBool(x) => [x]
    case BinaryBool(_, a, b) => [a, b]
    case IteBool(c, t, e) => [c, t, e]
    case CompareBv(_, a, b) => [a, b]
    case NegOverflows(x) => [x]
  }

  function CaseTerms(cases: seq<(TermId, TermId)>): (r: seq<TermId>)
    ensures |r| == 2 * |cases|
    ensures forall i :: 0 <= i < |cases| ==> r[2 * i] == cases[i].0 && r[2 * i + 1] == cases[i].1
  {
    if cases == [] then [] else
      var n := |cases| - 1;
      CaseTerms(cases[..n]) + [cases[n].0, cases[n].1]
  }

  lemma {:induction false} CaseInChildren(k: NodeKind, n: nat)
    requires k.SelectBv? && n < |k.cases|
    ensures k.cases[n].0 in Children(k) && k.cases[n].1 in Children(k)
  {
    var terms := CaseTerms(k.cases);
    assert terms[2 * n] in terms && terms[2 * n + 1] in terms;
    assert Children(k) == [k.default] + terms;
  }

  /** A well-sorted operator has its operands among the first `n` nodes. */
  lemma {:induction false} ChildrenInReach(nodes: seq<Node>, n: nat, k: NodeKind)
    requires SortOf(nodes, n, k).Some?
    ensures forall j :: 0 <= j < |Children(k)| ==> Children(k)[j] < n
  {
    if k.SelectBv? {
      var terms := CaseTerms(k.cases);
      forall j | 0 <= j < |terms| ensures terms[j] < n {
        var c := j / 2;
        assert IsBool(nodes, n, k.cases[c].0) && SameBv(nodes, n, k.cases[c].1, k.default);
        assert j == 2 * c || j == 2 * c + 1;
      }
    }
  }

  lemma {:induction false} ChildrenBelow(nodes: seq<Node>, i: TermId)
    requires WellFormed(nodes) && i < |nodes|
    ensures forall j :: 0 <= j < |Children(nodes[i].kind)| ==> Children(nodes[i].kind)[j] < i
  {
    hide SortOf, Children;
    assert SortOf(nodes, i, nodes[i].kind) == Some(nodes[i].sort);
    ChildrenInReach(nodes, i, nodes[i].kind);
  }
}
