/** What a term built in an arena means, and how meanings survive while the arena grows. */
module Terms {
  import opened BitVectors
  import opened Bytes
  import opened Wrappers
  import opened Ir

  /** `now` continues `was`, and every earlier term keeps its value under every assignment. */
  ghost predicate Grown(was: seq<Node>, now: seq<Node>) {
    && was <= now && WellFormed(was) && WellFormed(now)
    && forall env: Env {:trigger Eval(now, env)} :: Eval(was, env) <= Eval(now, env)
  }

  /** All later terms are operators or constants. */
  ghost predicate NoNewVariables(was: seq<Node>, now: seq<Node>) {
    forall i {:trigger now[i]} :: |was| <= i < |now| ==> !IsVariable(now[i].kind)
  }

  /** What a constructor does to the arena: it grows, and not by variables. */
  ghost predicate Extended(was: seq<Node>, now: seq<Node>) {
    Grown(was, now) && NoNewVariables(was, now)
  }

  /** Term `id` of `now` has the sort and, under every assignment, the value of kind `k` over `was`. */
  ghost predicate Denotes(was: seq<Node>, now: seq<Node>, id: TermId, k: NodeKind) {
    && id < |now| && SortOf(was, |was|, k) == Some(now[id].sort)
    && forall env: Env {:trigger Eval(now, env)} :: Eval(now, env)[id] == KindValue(k, 0, env, Eval(was, env))
  }

  /** The contract of every constructor: the request succeeds exactly when it is well sorted, the
      arena only grows, and the returned term means what was requested. */
  ghost predicate Builds(was: seq<Node>, now: seq<Node>, r: Result<TermId>, k: NodeKind) {
    && Extended(was, now)
    && (r.Ok? <==> SortOf(was, |was|, k).Some?)
    && (r.Err? ==> r.error == Invalid && now == was)
    && (r.Ok? ==> Denotes(was, now, r.value, k))
  }

  /** Two kinds that mean the same over the arena. */
  ghost predicate Equivalent(nodes: seq<Node>, j: NodeKind, k: NodeKind) {
    && SortOf(nodes, |nodes|, j) == SortOf(nodes, |nodes|, k)
    && (SortOf(nodes, |nodes|, j).Some? ==>
          forall env: Env {:trigger Eval(nodes, env)} ::
              KindValue(j, 0, env, Eval(nodes, env)) == KindValue(k, 0, env, Eval(nodes, env)))
  }

  /** Kind `k` always has the value `v`. */
  ghost predicate Always(nodes: seq<Node>, k: NodeKind, v: Value) {
    forall env: Env {:trigger Eval(nodes, env)} :: KindValue(k, 0, env, Eval(nodes, env)) == v
  }

  // --------------------------------------------------------------------- growth

  lemma {:induction false} PrefixIsExtended(was: seq<Node>, now: seq<Node>)
    requires was <= now && WellFormed(was) && WellFormed(now) && NoNewVariables(was, now)
    ensures Extended(was, now)
  {
    hide Eval, WellFormed;
    PrefixIsGrown(was, now);
  }

  lemma {:induction false} PrefixIsGrown(was: seq<Node>, now: seq<Node>)
    requires was <= now && WellFormed(was) && WellFormed(now)
    ensures Grown(was, now)
  {
    hide Eval, WellFormed;
    forall env: Env ensures Eval(was, env) <= Eval(now, env) {
      EvalKept(was, now, env);
    }
  }

  lemma {:induction false} ExtendedAgain(a: seq<Node>, b: seq<Node>, c: seq<Node>)
    requires Extended(a, b) && Extended(b, c)
    ensures Extended(a, c)
  {
    hide Eval, WellFormed;
    PrefixIsExtended(a, c);
  }

  /** A request over a smaller arena may be read over a larger one. */
  lemma {:induction false} DenotesEarlier(first: seq<Node>, was: seq<Node>, now: seq<Node>, id: TermId, k: NodeKind)
    requires Extended(first, was) && Extended(was, now) && Denotes(was, now, id, k) && SortOf(first, |first|, k).Some?
    ensures Extended(first, now) && Denotes(first, now, id, k)
  {
    hide Eval, WellFormed, SortOf, KindValue;
    ExtendedAgain(first, was, now);
    SortKept(first, was, |first|, |was|, k);
    forall env: Env ensures Eval(now, env)[id] == KindValue(k, 0, env, Eval(first, env)) {
      EvalKept(first, was, env);
      KindValueLocal(first, |first|, k, 0, env, Eval(first, env), Eval(was, env));
    }
  }

  /** Rewriting the request before building it. */
  lemma {:induction false} BuildsEquivalent(was: seq<Node>, now: seq<Node>, r: Result<TermId>, j: NodeKind, k: NodeKind)
    requires Builds(was, now, r, j) && Equivalent(was, j, k)
    ensures Builds(was, now, r, k)
  {
    hide Eval, WellFormed, SortOf, KindValue;
    if r.Ok? {
      forall env: Env ensures Eval(now, env)[r.value] == KindValue(k, 0, env, Eval(was, env)) {
        assert Eval(was, env) <= Eval(now, env);
      }
    }
  }

  /** Building the request over an arena that has grown meanwhile. */
  lemma {:induction false} BuildsRebased(first: seq<Node>, was: seq<Node>, now: seq<Node>, r: Result<TermId>,
                                         k: NodeKind)
    requires Extended(first, was) && Builds(was, now, r, k) && SortOf(first, |first|, k).Some?
    ensures r.Ok? && Builds(first, now, r, k)
  {
    hide Eval, WellFormed, SortOf, KindValue, Extended, Denotes;
    SortKept(first, was, |first|, |was|, k) by { assert first <= was by { ExtendedPrefix(first, was); } }
    DenotesEarlier(first, was, now, r.value, k);
  }

  lemma {:induction false} ExtendedPrefix(was: seq<Node>, now: seq<Node>)
    requires Extended(was, now)
    ensures was <= now && WellFormed(was) && WellFormed(now)
  {}

  /** Returning a term that already means the request. */
  lemma {:induction false} BuildsExisting(nodes: seq<Node>, id: TermId, k: NodeKind)
    requires WellFormed(nodes) && Denotes(nodes, nodes, id, k)
    ensures Builds(nodes, nodes, Ok(id), k)
  {
    hide Eval, WellFormed, SortOf, KindValue, Denotes;
    PrefixIsExtended(nodes, nodes);
    DenotesSort(nodes, nodes, id, k);
  }

  lemma {:induction false} DenotesSort(was: seq<Node>, now: seq<Node>, id: TermId, k: NodeKind)
    requires Denotes(was, now, id, k)
    ensures id < |now| && SortOf(was, |was|, k) == Some(now[id].sort)
  {}

  lemma {:induction false} BuildsRefused(nodes: seq<Node>, k: NodeKind)
    requires WellFormed(nodes) && SortOf(nodes, |nodes|, k).None?
    ensures Builds(nodes, nodes, Err(Invalid), k)
  {
    hide Eval, WellFormed, SortOf;
    PrefixIsExtended(nodes, nodes);
  }

  // ----------------------------------------------------------------- values of terms

  /** A node that is not a variable denotes its own kind. */
  lemma {:induction false} NodeDenotes(nodes: seq<Node>, id: TermId)
    requires WellFormed(nodes) && id < |nodes| && !IsVariable(nodes[id].kind)
    ensures Denotes(nodes, nodes, id, nodes[id].kind)
  {
    hide Eval, SortOf;
    assert SortOf(nodes, id, nodes[id].kind) == Some(nodes[id].sort);
    SortKept(nodes, nodes, id, |nodes|, nodes[id].kind);
    forall env: Env ensures Eval(nodes, env)[id] == KindValue(nodes[id].kind, 0, env, Eval(nodes, env)) {
      EvalAt(nodes, env, id);
    }
  }

  /** The value of a vector term is a vector of its width, never empty. */
  lemma {:induction false} VectorValue(nodes: seq<Node>, env: Env, x: TermId)
    requires WellFormed(nodes) && IsBv(nodes, |nodes|, x)
    ensures Eval(nodes, env)[x] == BvValue(BvAt(Eval(nodes, env), x))
    ensures |BvAt(Eval(nodes, env), x)| == Width(nodes, x) && ValidWidth(Width(nodes, x))
  {
    hide Eval, SortOf, WellFormed;
    EvalSorted(nodes, env);
    WidthPositive(nodes, x);
    assert HasSort(Eval(nodes, env)[x], nodes[x].sort);
  }

  lemma {:induction false} TruthValue(nodes: seq<Node>, env: Env, x: TermId)
    requires WellFormed(nodes) && IsBool(nodes, |nodes|, x)
    ensures Eval(nodes, env)[x] == BoolValue(BoolAt(Eval(nodes, env), x))
  {
    hide Eval, SortOf, WellFormed;
    EvalSorted(nodes, env);
    assert HasSort(Eval(nodes, env)[x], nodes[x].sort);
  }

  /** The value of an operator node in terms of its operands. */
  lemma {:induction false} NodeValue(nodes: seq<Node>, env: Env, id: TermId)
    requires WellFormed(nodes) && id < |nodes| && !IsVariable(nodes[id].kind)
    ensures Eval(nodes, env)[id] == KindValue(nodes[id].kind, 0, env, Eval(nodes, env))
    ensures SortOf(nodes, |nodes|, nodes[id].kind) == Some(nodes[id].sort)
    ensures SortOf(nodes, id, nodes[id].kind) == Some(nodes[id].sort)
  {
    hide Eval, SortOf, KindValue;
    NodeDenotes(nodes, id);
    assert SortOf(nodes, id, nodes[id].kind) == Some(nodes[id].sort);
  }

  // ------------------------------------------------------------------------ constants

  predicate IsConst(nodes: seq<Node>, x: TermId) { x < |nodes| && nodes[x].kind.ConstBv? }

  function ConstBytesOf(nodes: seq<Node>, x: TermId): seq<Byte>
    requires IsConst(nodes, x)
  {
    nodes[x].kind.bytes
  }

  lemma {:induction false} ConstValue(nodes: seq<Node>, env: Env, x: TermId)
    requires WellFormed(nodes) && IsConst(nodes, x)
    ensures var w := Width(nodes, x);
            && IsBv(nodes, |nodes|, x) && ValidWidth(w) && nodes[x].kind.width == w
            && Normalized(ConstBytesOf(nodes, x), w) && BvAt(Eval(nodes, env), x) == Decoded(ConstBytesOf(nodes, x), w)
  {
    hide Eval, Normalized, Decoded;
    NodeValue(nodes, env, x);
  }
}
