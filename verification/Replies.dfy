/** What is sent back for a wire request: models by node reference, optima, cores by name. */
module Replies {
  import opened BitVectors
  import opened Bytes
  import opened Wrappers
  import opened Ir
  import opened Queries
  import opened Models
  import opened Requests
  import opened Lowering
  import Compaction
  import Solver

  /** A value for the variable a reference names. */
  datatype WireEntry = WireEntry(ref: Compaction.NodeRef, value: ScalarValue)

  datatype Reply =
    | ReplySat(model: Option<seq<WireEntry>>)
    | ReplyOptimum(optimum: ScalarValue, model: Option<seq<WireEntry>>)
    | ReplyUnsat(core: Option<seq<string>>)
    | ReplyUnknown

  // --------------------------------------------------------------- reading models by name

  function EntrySymbol(e: ModelEntry): Symbol {
    match e.value
    case ScalarBool(_) => BoolSymbol(e.name)
    case ScalarBv(width, _) => BvSymbol(e.name, width)
  }

  /** The symbol has the value. */
  predicate ValueRead(v: ScalarValue, s: Symbol, w: Names) {
    match v
    case ScalarBool(b) => w.bools(s) == b
    case ScalarBv(width, bytes) => FromInt(w.bvs(s), width) == Decoded(bytes, width)
  }

  ghost predicate ModelRead(model: Model, w: Names) {
    forall e {:trigger model[e]} :: 0 <= e < |model| ==> ValueRead(model[e].value, EntrySymbol(model[e]), w)
  }

  /** The entry is for a variable of the request. */
  lemma {:induction false} EntryNode(typed: seq<Node>, terms: seq<TermId>, nodes: seq<Node>, e: ModelEntry)
    returns (i: nat)
    requires Lowered(typed, terms, nodes) && Referred(typed, terms, nodes) && Solver.EntryNamed(nodes, e)
    ensures i < |typed| == |terms| && IsVariable(typed[i].kind) && terms[i] == e.term
    ensures SymbolOf(typed[i].kind) == EntrySymbol(e)
  {
    hide Eval, WellFormed, SameValues, ReferredTo;
    i :| 0 <= i < |terms| == |typed| && IsVariable(typed[i].kind) && terms[i] == e.term;
    SymbolsAgree(nodes[terms[i]].kind, typed[i].kind);
  }

  /** Names that read a model extend it, and some names do. */
  lemma {:induction false} ReadingExtends(typed: seq<Node>, terms: seq<TermId>, nodes: seq<Node>, model: Model,
                                          w: Names)
    requires Lowered(typed, terms, nodes) && Solver.EntriesNamed(nodes, model) && ModelRead(model, w)
    ensures Extends(NamedEnv(nodes, w), model)
  {
    hide Eval, WellFormed, SameValues, FromInt, Decoded, Lowered;
    forall e: nat | e < |model| ensures EntryHolds(model[e], NamedEnv(nodes, w)) {
      assert Solver.EntryNamed(nodes, model[e]) && ValueRead(model[e].value, EntrySymbol(model[e]), w);
      EntryKind(nodes, model[e]);
    }
  }

  lemma {:induction false} ExtensionReads(typed: seq<Node>, terms: seq<TermId>, nodes: seq<Node>, model: Model,
                                          env: Env)
    requires Lowered(typed, terms, nodes) && Referred(typed, terms, nodes)
    requires Solver.EntriesNamed(nodes, model) && Extends(env, model)
    ensures ModelRead(model, NamesFrom(typed, terms, env))
  {
    hide FromInt, Decoded, NamesFrom, Lowered, Referred;
    var w := NamesFrom(typed, terms, env);
    NamesFromMatch(typed, terms, nodes, env);
    forall e: nat | e < |model| ensures ValueRead(model[e].value, EntrySymbol(model[e]), w) {
      assert EntryHolds(model[e], env) && Solver.EntryNamed(nodes, model[e]);
      var i := EntryNode(typed, terms, nodes, model[e]);
      assert env.bools(terms[i]) == w.bools(SymbolOf(typed[i].kind));
    }
  }

  /** A model of the query, read by name, makes the request hold and gives the target its value. */
  lemma {:induction false} SameModel(q: Request, terms: seq<TermId>, query: Query, model: Model)
    requires RequestOk(q) && Translates(q, terms, query)
    requires Solver.TrueModel(query.arena.nodes, query.Roots(), model)
    requires Solver.EntriesNamed(query.arena.nodes, model)
    ensures exists w :: ModelRead(model, w)
    ensures forall w {:trigger ModelRead(model, w)} :: ModelRead(model, w) ==>
              Extends(NamedEnv(query.arena.nodes, w), model) && RequestHolds(q, w)
    ensures q.Optimizes() ==> forall w {:trigger ModelRead(model, w)} :: ModelRead(model, w) ==>
              Solver.TargetOf(query.arena.nodes, query.target.value, NamedEnv(query.arena.nodes, w)) ==
                RequestTarget(q, w)
  {
    hide Typed, Eval, RequestHolds, Satisfied, Lowered, Referred, NamesFrom, NamedEnv, ModelRead, Extends;
    hide RequestTarget, Solver.TargetOf, Solver.EntriesNamed;
    var typed, nodes := Typed(q.nodes).value, query.arena.nodes;
    var env: Env :| Extends(env, model);
    ExtensionReads(typed, terms, nodes, model, env);
    forall w | ModelRead(model, w)
      ensures Extends(NamedEnv(nodes, w), model) && RequestHolds(q, w)
      ensures q.Optimizes() ==>
                Solver.TargetOf(nodes, query.target.value, NamedEnv(nodes, w)) == RequestTarget(q, w)
    {
      ReadingExtends(typed, terms, nodes, model, w);
      NamedEnvMatches(typed, terms, nodes, w);
      SameMeaning(q, terms, query, NamedEnv(nodes, w), w);
    }
  }

  // ------------------------------------------------------------------------ models on the wire

  /** The value is one of the variable's sort. */
  predicate ValueFits(k: NodeKind, v: ScalarValue) {
    match k
    case VarBv(w, _, _) => v.ScalarBv? && v.width == w && Normalized(v.bytes, w)
    case VarBool(_, _) => v.ScalarBool?
    case _ => false
  }

  /** The entry refers, by sort and index, to a variable of the request and has a value of its sort. */
  predicate EntryOk(typed: seq<Node>, e: WireEntry) {
    && e.ref.index < |typed| && ValueFits(typed[e.ref.index].kind, e.value)
    && e.ref.sort == (if e.value.ScalarBv? then Compaction.WireBv else Compaction.WireBool)
  }

  /** Every referenced variable has its value. */
  ghost predicate WireRead(typed: seq<Node>, entries: seq<WireEntry>, w: Names) {
    forall e {:trigger entries[e]} :: 0 <= e < |entries| && EntryOk(typed, entries[e]) ==>
      ValueRead(entries[e].value, SymbolOf(typed[entries[e].ref.index].kind), w)
  }

  /** The entries are for variables of the request, they are consistent, and whatever else the
      variables stand for, the request holds. */
  ghost predicate WireAnswers(q: Request, entries: seq<WireEntry>)
    requires RequestOk(q)
  {
    var typed := Typed(q.nodes).value;
    && (forall e {:trigger entries[e]} :: 0 <= e < |entries| ==> EntryOk(typed, entries[e]))
    && (exists w :: WireRead(typed, entries, w))
    && (forall w {:trigger WireRead(typed, entries, w)} :: WireRead(typed, entries, w) ==> RequestHolds(q, w))
  }

  /** The target has this value whenever the variables have theirs. */
  ghost predicate WireAttains(q: Request, entries: seq<WireEntry>, best: Bv)
    requires RequestOk(q) && q.Optimizes()
  {
    var typed := Typed(q.nodes).value;
    forall w {:trigger WireRead(typed, entries, w)} :: WireRead(typed, entries, w) ==> RequestTarget(q, w) == best
  }

  /** Every variable of the request has an entry. */
  ghost predicate WireCovers(typed: seq<Node>, entries: seq<WireEntry>) {
    forall i {:trigger typed[i]} :: 0 <= i < |typed| && IsVariable(typed[i].kind) ==>
      exists k :: 0 <= k < |entries| && entries[k].ref.index == i
  }

  /** The entries as external references. */
  function External(model: Model): (entries: seq<WireEntry>)
  {
    if model == [] then [] else
      var n := |model| - 1;
      External(model[..n])
        + if model[n].external.None? then []
          else [WireEntry(Compaction.FromRaw(model[n].external.value), model[n].value)]
  }

  /** The entries of a model by the references their variables record. */
  method ModelToWire(model: Model) returns (entries: seq<WireEntry>)
    ensures entries == External(model)
  {
    entries := [];
    for n := 0 to |model|
      invariant entries == External(model[..n])
    {
      assert model[..n + 1][..n] == model[..n];
      if model[n].external.None? {
        continue;
      }
      entries := entries + [WireEntry(Compaction.FromRaw(model[n].external.value), model[n].value)];
    }
    assert model[..|model|] == model;
  }

  /** Every entry records a reference to the first node of its variable. */
  lemma {:induction false} EntryReference(typed: seq<Node>, terms: seq<TermId>, nodes: seq<Node>, e: ModelEntry)
    requires Lowered(typed, terms, nodes) && Referred(typed, terms, nodes) && Solver.EntryNamed(nodes, e)
    ensures e.external.Some?
    ensures var first := Compaction.FromRaw(e.external.value);
            && EntryOk(typed, WireEntry(first, e.value)) && SymbolOf(typed[first.index].kind) == EntrySymbol(e)
            && forall h :: 0 <= h < first.index && IsVariable(typed[h].kind) ==>
                 SymbolOf(typed[h].kind) != EntrySymbol(e)
  {
    hide Eval, WellFormed, SameValues, Normalized, OfVariable, Lowered;
    var k := nodes[e.term].kind;
    assert ReferredTo(typed, k);
    var first := Compaction.FromRaw(e.external.value);
    SymbolsAgree(typed[first.index].kind, k);
    forall h | 0 <= h < first.index && IsVariable(typed[h].kind) ensures SymbolOf(typed[h].kind) != EntrySymbol(e) {
      SymbolsAgree(typed[h].kind, k);
    }
  }

  lemma {:induction false} ExternalAt(model: Model)
    requires forall e :: 0 <= e < |model| ==> model[e].external.Some?
    ensures |External(model)| == |model|
    ensures forall e {:trigger External(model)[e]} {:trigger model[e]} :: 0 <= e < |model| ==>
              External(model)[e] == WireEntry(Compaction.FromRaw(model[e].external.value), model[e].value)
  {
    if model != [] {
      ExternalAt(model[..|model| - 1]);
    }
  }

  /** Reading the references is reading the names. */
  lemma {:induction false} ExternalReads(typed: seq<Node>, terms: seq<TermId>, nodes: seq<Node>, model: Model, w: Names)
    requires Lowered(typed, terms, nodes) && Referred(typed, terms, nodes) && Solver.EntriesNamed(nodes, model)
    ensures forall e :: 0 <= e < |External(model)| ==> EntryOk(typed, External(model)[e])
    ensures WireRead(typed, External(model), w) <==> ModelRead(model, w)
  {
    hide Lowered, Referred, ValueRead, EntryOk, External, EntrySymbol;
    forall e | 0 <= e < |model|
      ensures model[e].external.Some?
      ensures var first := Compaction.FromRaw(model[e].external.value);
              first.index < |typed| && EntryOk(typed, WireEntry(first, model[e].value))
              && IsVariable(typed[first.index].kind) && SymbolOf(typed[first.index].kind) == EntrySymbol(model[e])
    {
      assert Solver.EntryNamed(nodes, model[e]);
      EntryReference(typed, terms, nodes, model[e]);
      EntryVariable(typed, WireEntry(Compaction.FromRaw(model[e].external.value), model[e].value));
    }
    ExternalAt(model);
    var entries := External(model);
    if WireRead(typed, entries, w) {
      forall e | 0 <= e < |model| ensures ValueRead(model[e].value, EntrySymbol(model[e]), w) {
        assert EntryOk(typed, entries[e]);
      }
    }
  }

  lemma {:induction false} EntryVariable(typed: seq<Node>, e: WireEntry)
    requires EntryOk(typed, e)
    ensures e.ref.index < |typed| && IsVariable(typed[e.ref.index].kind)
  {}

  /** The references recorded in a model of the query give a model of the request. */
  lemma {:induction false} ExternalAnswers(q: Request, terms: seq<TermId>, query: Query, model: Model)
    requires RequestOk(q) && Translates(q, terms, query)
    requires Solver.TrueModel(query.arena.nodes, query.Roots(), model)
    requires Solver.EntriesNamed(query.arena.nodes, model)
    ensures WireAnswers(q, External(model))
  {
    hide Typed, RequestHolds, Satisfied, Lowered, Referred, WireRead, ModelRead, EntryOk, External, Extends;
    hide Solver.TrueModel, Solver.EntriesNamed;
    var typed := Typed(q.nodes).value;
    SameModel(q, terms, query, model);
    forall w ensures WireRead(typed, External(model), w) <==> ModelRead(model, w) {
      ExternalReads(typed, terms, query.arena.nodes, model, w);
    }
    var w :| ModelRead(model, w);
    ExternalReads(typed, terms, query.arena.nodes, model, w);
  }

  // -------------------------------------------------------------- models for every mention

  /** Values of the wrong length or with unused bits set are refused. */
  function ScalarToWire(v: ScalarValue): (r: Result<ScalarValue>) {
    if v.ScalarBv? && !Normalized(v.bytes, v.width) then Err(Invalid) else Ok(v)
  }

  predicate IsVariableTag(tag: Tag) { tag.TagBvVar? || tag.TagBoolVar? }

  function NodeSymbol(node: WireNode): Symbol {
    if node.tag.TagBvVar? then BvSymbol(node.name, node.width) else BoolSymbol(node.name)
  }

  /** The table holds exactly the values of the first `n` entries, by symbol. */
  ghost predicate ValuesOf(model: Model, n: nat, values: map<Symbol, ScalarValue>) {
    && n <= |model|
    && (forall e {:trigger model[e]} :: 0 <= e < n ==>
          EntrySymbol(model[e]) in values && values[EntrySymbol(model[e])] == model[e].value)
    && (forall s :: s in values ==> exists e :: 0 <= e < n && EntrySymbol(model[e]) == s)
  }

  /** The entries are those of the variable nodes among the first `n` that have a value. */
  ghost predicate Mentions(wire: seq<WireNode>, n: nat, values: map<Symbol, ScalarValue>, entries: seq<WireEntry>) {
    && n <= |wire|
    && (forall k {:trigger entries[k]} :: 0 <= k < |entries| ==> Mention(wire, n, values, entries[k]))
    && (forall i {:trigger wire[i]} :: 0 <= i < n && IsVariableTag(wire[i].tag) && NodeSymbol(wire[i]) in values ==>
          exists k :: 0 <= k < |entries| && entries[k].ref.index == i)
  }

  predicate Mention(wire: seq<WireNode>, n: nat, values: map<Symbol, ScalarValue>, e: WireEntry) {
    && e.ref.index < n <= |wire| && IsVariableTag(wire[e.ref.index].tag) && NodeSymbol(wire[e.ref.index]) in values
    && e.value == values[NodeSymbol(wire[e.ref.index])]
    && e.ref.sort == (if wire[e.ref.index].tag.TagBvVar? then Compaction.WireBv else Compaction.WireBool)
  }

  /** One entry for every node that mentions a variable of the model; it fails when two entries
      disagree on a symbol, or a value is not normalised. */
  method ModelToWireForRequest(wire: seq<WireNode>, model: Model)
    returns (r: Result<seq<WireEntry>>, ghost values: map<Symbol, ScalarValue>)
    ensures r.Ok? <==>
              && (forall e {:trigger model[e]} :: 0 <= e < |model| ==> ScalarToWire(model[e].value).Ok?)
              && (forall d, e {:trigger model[d], model[e]} :: 0 <= d < e < |model| ==>
                    (EntrySymbol(model[d]) == EntrySymbol(model[e]) ==> model[d].value == model[e].value))
    ensures r.Ok? ==> ValuesOf(model, |model|, values) && Mentions(wire, |wire|, values, r.value)
  {
    hide ScalarToWire, EntrySymbol, NodeSymbol, IsVariableTag;
    var table: map<Symbol, ScalarValue> := map[];
    values := table;
    for n := 0 to |model|
      invariant ValuesOf(model, n, table) && forall e :: 0 <= e < n ==> ScalarToWire(model[e].value).Ok?
      invariant forall d, e {:trigger model[d], model[e]} :: 0 <= d < e < n ==>
                  (EntrySymbol(model[d]) == EntrySymbol(model[e]) ==> model[d].value == model[e].value)
    {
      var value := ScalarToWire(model[n].value);
      if value.Err? { return Err(value.error), table; }
      ScalarKept(model[n].value);
      var key := EntrySymbol(model[n]);
      if key in table && table[key] != value.value {
        var e :| 0 <= e < n && EntrySymbol(model[e]) == key;
        return Err(Invalid), table;
      }
      ghost var was := table;
      table := table[key := value.value];
      ValuesStep(model, n, was, table);
    }
    values := table;
    var entries: seq<WireEntry> := [];
    for index := 0 to |wire|
      invariant Mentions(wire, index, table, entries)
    {
      ghost var before := entries;
      if IsVariableTag(wire[index].tag) && NodeSymbol(wire[index]) in table {
        var sort := if wire[index].tag.TagBvVar? then Compaction.WireBv else Compaction.WireBool;
        entries := entries + [WireEntry(Compaction.NodeRef(sort, index), table[NodeSymbol(wire[index])])];
      }
      MentionsStep(wire, index, table, before, entries);
    }
    r := Ok(entries);
  }

  lemma {:induction false} ScalarKept(v: ScalarValue)
    requires ScalarToWire(v).Ok?
    ensures ScalarToWire(v).value == v
  {}

  lemma {:induction false} ValuesStep(model: Model, n: nat, was: map<Symbol, ScalarValue>,
                                      now: map<Symbol, ScalarValue>)
    requires n < |model| && ValuesOf(model, n, was) && now == was[EntrySymbol(model[n]) := model[n].value]
    requires EntrySymbol(model[n]) in was ==> was[EntrySymbol(model[n])] == model[n].value
    ensures ValuesOf(model, n + 1, now)
  {
    hide EntrySymbol;
    forall s | s in now ensures exists e :: 0 <= e < n + 1 && EntrySymbol(model[e]) == s {
      if s in was {
        var e :| 0 <= e < n && EntrySymbol(model[e]) == s;
      }
    }
  }

  lemma {:induction false} MentionsStep(wire: seq<WireNode>, n: nat, values: map<Symbol, ScalarValue>,
                                        was: seq<WireEntry>, now: seq<WireEntry>)
    requires n < |wire| && Mentions(wire, n, values, was) && was <= now
    requires if IsVariableTag(wire[n].tag) && NodeSymbol(wire[n]) in values
             then |now| == |was| + 1 && now[|was|].ref.index == n && Mention(wire, n + 1, values, now[|was|])
             else now == was
    ensures Mentions(wire, n + 1, values, now)
  {
    hide IsVariableTag, NodeSymbol;
    forall k | 0 <= k < |now| ensures Mention(wire, n + 1, values, now[k]) {
      if k < |was| { assert Mention(wire, n, values, was[k]); }
    }
    forall i | 0 <= i < n + 1 && IsVariableTag(wire[i].tag) && NodeSymbol(wire[i]) in values
      ensures exists k :: 0 <= k < |now| && now[k].ref.index == i
    {
      if i < n {
        var k :| 0 <= k < |was| && was[k].ref.index == i;
        assert now[k] == was[k];
      } else {
        assert now[|was|].ref.index == i;
      }
    }
  }

  /** The operators of accepted nodes. */
  lemma {:induction false} TypedKind(wire: seq<WireNode>, i: nat)
    requires Typed(wire).Some? && i < |wire|
    ensures ArityOk(wire[i]) && Typed(wire).value[i].kind == KindOf(wire[i])
    decreases |wire|
  {
    hide KindOf, SortOf;
    if i < |wire| - 1 {
      TypedKind(wire[..|wire| - 1], i);
    }
  }

  lemma {:induction false} NodeVariable(wire: seq<WireNode>, i: nat)
    requires Typed(wire).Some? && i < |wire|
    ensures var k := Typed(wire).value[i].kind;
            && (IsVariable(k) <==> IsVariableTag(wire[i].tag)) && (IsVariable(k) ==> SymbolOf(k) == NodeSymbol(wire[i]))
            && (wire[i].tag.TagBvVar? <==> k.VarBv?)
  {
    hide Typed;
    TypedKind(wire, i);
  }

  /** No two entries of a model of the query are for one symbol. */
  lemma {:induction false} OneEntryPerSymbol(typed: seq<Node>, terms: seq<TermId>, nodes: seq<Node>, model: Model,
                                             d: nat, e: nat)
    requires Lowered(typed, terms, nodes) && Referred(typed, terms, nodes) && Solver.EntriesNamed(nodes, model)
    requires d < e < |model|
    ensures EntrySymbol(model[d]) != EntrySymbol(model[e]) && ScalarToWire(model[e].value).Ok?
    ensures ScalarToWire(model[d].value).Ok?
  {
    hide Eval, WellFormed, SameValues, Referred, Normalized;
    assert Solver.EntryNamed(nodes, model[d]) && Solver.EntryNamed(nodes, model[e]);
    var i := EntryNode(typed, terms, nodes, model[d]);
    var j := EntryNode(typed, terms, nodes, model[e]);
    assert model[d].term < model[e].term;
    SymbolsAgree(typed[i].kind, typed[j].kind);
  }

  /** Reading every mention is reading the names. */
  lemma {:induction false} MentionsRead(q: Request, terms: seq<TermId>, nodes: seq<Node>, model: Model,
                                        values: map<Symbol, ScalarValue>, entries: seq<WireEntry>, w: Names)
    requires RequestOk(q) && Lowered(Typed(q.nodes).value, terms, nodes) && Referred(Typed(q.nodes).value, terms, nodes)
    requires Solver.EntriesNamed(nodes, model)
    requires ValuesOf(model, |model|, values) && Mentions(q.nodes, |q.nodes|, values, entries)
    ensures forall k :: 0 <= k < |entries| ==> EntryOk(Typed(q.nodes).value, entries[k])
    ensures WireRead(Typed(q.nodes).value, entries, w) <==> ModelRead(model, w)
  {
    hide Typed, Lowered, Referred, ValueRead, NodeSymbol, IsVariableTag;
    var typed := Typed(q.nodes).value;
    forall k | 0 <= k < |entries|
      ensures EntryOk(typed, entries[k]) && IsVariable(typed[entries[k].ref.index].kind)
      ensures exists e :: 0 <= e < |model| && EntrySymbol(model[e]) == SymbolOf(typed[entries[k].ref.index].kind)
                          && model[e].value == entries[k].value
    {
      var x := entries[k];
      assert Mention(q.nodes, |q.nodes|, values, x);
      NodeVariable(q.nodes, x.ref.index);
      var s := NodeSymbol(q.nodes[x.ref.index]);
      var e :| 0 <= e < |model| && EntrySymbol(model[e]) == s;
      assert Solver.EntryNamed(nodes, model[e]) && model[e].value == values[s];
      MentionOk(typed, nodes, model[e], x);
    }
    hide EntryOk;
    if WireRead(typed, entries, w) {
      forall e | 0 <= e < |model| ensures ValueRead(model[e].value, EntrySymbol(model[e]), w) {
        assert Solver.EntryNamed(nodes, model[e]);
        var i := EntryNode(typed, terms, nodes, model[e]);
        NodeVariable(q.nodes, i);
        assert EntrySymbol(model[e]) in values && q.nodes[i] == q.nodes[i];
        var k :| 0 <= k < |entries| && entries[k].ref.index == i;
        assert Mention(q.nodes, |q.nodes|, values, entries[k]);
      }
    }
  }

  /** A value of a model entry fits every node with the entry's symbol. */
  lemma {:induction false} MentionOk(typed: seq<Node>, nodes: seq<Node>, e: ModelEntry, x: WireEntry)
    requires Solver.EntryNamed(nodes, e) && x.value == e.value && x.ref.index < |typed|
    requires IsVariable(typed[x.ref.index].kind) && SymbolOf(typed[x.ref.index].kind) == EntrySymbol(e)
    requires x.ref.sort == if typed[x.ref.index].kind.VarBv? then Compaction.WireBv else Compaction.WireBool
    ensures EntryOk(typed, x)
  {
    hide Normalized;
  }

  /** The mentions of a model of the query give a model of the request. */
  lemma {:induction false} MentionsAnswer(q: Request, terms: seq<TermId>, query: Query, model: Model,
                                          values: map<Symbol, ScalarValue>, entries: seq<WireEntry>)
    requires RequestOk(q) && Translates(q, terms, query)
    requires Solver.TrueModel(query.arena.nodes, query.Roots(), model)
    requires Solver.EntriesNamed(query.arena.nodes, model)
    requires ValuesOf(model, |model|, values) && Mentions(q.nodes, |q.nodes|, values, entries)
    ensures WireAnswers(q, entries)
    ensures forall w {:trigger WireRead(Typed(q.nodes).value, entries, w)} ::
              WireRead(Typed(q.nodes).value, entries, w) ==> ModelRead(model, w)
  {
    hide Typed, RequestHolds, Satisfied, Lowered, Referred, WireRead, ModelRead, EntryOk, Extends, ValuesOf, Mentions;
    hide Solver.TrueModel, Solver.EntriesNamed;
    var typed := Typed(q.nodes).value;
    SameModel(q, terms, query, model);
    forall w ensures WireRead(typed, entries, w) <==> ModelRead(model, w) {
      MentionsRead(q, terms, query.arena.nodes, model, values, entries, w);
    }
    var w :| ModelRead(model, w);
    MentionsRead(q, terms, query.arena.nodes, model, values, entries, w);
  }

  /** When the model has a value for every variable of the arena, every mention gets one. */
  lemma {:induction false} MentionsCover(q: Request, terms: seq<TermId>, nodes: seq<Node>, model: Model,
                                         values: map<Symbol, ScalarValue>, entries: seq<WireEntry>)
    requires RequestOk(q) && Lowered(Typed(q.nodes).value, terms, nodes) && Referred(Typed(q.nodes).value, terms, nodes)
    requires Solver.EntriesNamed(nodes, model) && Solver.CoversVariables(nodes, model)
    requires ValuesOf(model, |model|, values) && Mentions(q.nodes, |q.nodes|, values, entries)
    ensures WireCovers(Typed(q.nodes).value, entries)
  {
    hide Typed, Eval, WellFormed, SameValues, NodeSymbol, IsVariableTag;
    var typed := Typed(q.nodes).value;
    forall i | 0 <= i < |typed| && IsVariable(typed[i].kind)
      ensures exists k :: 0 <= k < |entries| && entries[k].ref.index == i
    {
      assert SameSymbol(nodes[terms[i]].kind, typed[i].kind);
      SymbolsAgree(nodes[terms[i]].kind, typed[i].kind);
      var e :| 0 <= e < |model| && model[e].term == terms[i];
      assert Solver.EntryNamed(nodes, model[e]);
      EntryKind(nodes, model[e]);
      NodeVariable(q.nodes, i);
      assert NodeSymbol(q.nodes[i]) in values;
    }
  }

  lemma {:induction false} EntryKind(nodes: seq<Node>, e: ModelEntry)
    requires Solver.EntryNamed(nodes, e)
    ensures IsVariable(nodes[e.term].kind) && SymbolOf(nodes[e.term].kind) == EntrySymbol(e)
  {}

  // -------------------------------------------------------------------------------- cores

  /** The unnamed assertions, those with an index in `active`, and the assumptions are true. */
  ghost predicate SubsetTrue(q: Request, active: seq<nat>, w: Names)
    requires RequestOk(q)
  {
    && (forall i {:trigger q.assertions[i]} :: 0 <= i < |q.assertions| && (i >= |q.names| || i in active) ==>
          BoolAt(RequestValues(q, w), q.assertions[i]))
    && (forall i :: 0 <= i < |q.assumptions| ==> BoolAt(RequestValues(q, w), q.assumptions[i]))
  }

  /** The unnamed assertions, those with one of the names, and the assumptions are true. */
  ghost predicate NamesTrue(q: Request, names: seq<string>, w: Names)
    requires RequestOk(q)
  {
    && (forall i {:trigger q.assertions[i]} ::
          0 <= i < |q.assertions| && (i >= |q.names| || q.names[i] in names) ==>
            BoolAt(RequestValues(q, w), q.assertions[i]))
    && (forall i :: 0 <= i < |q.assumptions| ==> BoolAt(RequestValues(q, w), q.assumptions[i]))
  }

  /** No values of the variables make the assertions with these names true together with the rest;
      they are the names of distinct assertions, each needed unless a limit was reached. */
  ghost predicate IsRequestCore(q: Request, names: seq<string>, limited: bool)
    requires RequestOk(q)
  {
    && (forall w :: !NamesTrue(q, names, w))
    && exists active: seq<nat> :: CoreFrom(q, names, active, limited)
  }

  /** The names are those of the assertions `active`, in order, each needed unless a limit was reached. */
  ghost predicate CoreFrom(q: Request, names: seq<string>, active: seq<nat>, limited: bool)
    requires RequestOk(q)
  {
    && |active| == |names|
    && (forall k {:trigger active[k]} :: 0 <= k < |active| ==>
          active[k] < |q.names| && active[k] < |q.assertions| && q.names[active[k]] == names[k])
    && (forall j, k {:trigger active[j], active[k]} :: 0 <= j < k < |active| ==> active[j] < active[k])
    && (!limited ==> forall k :: 0 <= k < |active| ==> IsNeeded(q, active, k))
  }

  /** Without this assertion the others can be true. */
  ghost predicate IsNeeded(q: Request, active: seq<nat>, k: nat)
    requires RequestOk(q) && k < |active|
  {
    exists w :: SubsetTrue(q, Solver.Without(active, active[k]), w)
  }

  lemma {:induction false} SameSubset(q: Request, terms: seq<TermId>, query: Query, active: seq<nat>, env: Env,
                                      w: Names)
    requires RequestOk(q) && Translates(q, terms, query) && Matches(Typed(q.nodes).value, terms, env, w)
    ensures Solver.SubsetHolds(query.arena.nodes, query.assertions, query.assumptions, active, env) ==>
              SubsetTrue(q, active, w)
  {
    hide Typed, Lowered, Referred, Eval, BoolAt, RequestValues, Matches;
    SameRoots(q, terms, query, env, w);
    if Solver.SubsetHolds(query.arena.nodes, query.assertions, query.assumptions, active, env) {
      forall i | 0 <= i < |q.assertions| && (i >= |q.names| || i in active)
        ensures BoolAt(RequestValues(q, w), q.assertions[i])
      {
        assert query.assertions[i].name.None? || i in active;
      }
      forall i | 0 <= i < |q.assumptions| ensures BoolAt(RequestValues(q, w), q.assumptions[i]) {
        assert BoolAt(Eval(query.arena.nodes, env), query.assumptions[i]);
      }
    }
  }

  lemma {:induction false} SameNamed(q: Request, terms: seq<TermId>, query: Query, names: seq<string>, env: Env,
                                     w: Names)
    requires RequestOk(q) && Translates(q, terms, query) && Matches(Typed(q.nodes).value, terms, env, w)
    ensures NamesTrue(q, names, w) ==>
              Solver.NamedHold(query.arena.nodes, query.assertions, query.assumptions, names, env)
  {
    hide Typed, Lowered, Referred, Eval, BoolAt, RequestValues, Matches;
    SameRoots(q, terms, query, env, w);
    if NamesTrue(q, names, w) {
      forall i | 0 <= i < |query.assertions|
          && (match query.assertions[i].name case None => true case Some(name) => name in names)
        ensures BoolAt(Eval(query.arena.nodes, env), query.assertions[i].root)
      {
        assert i >= |q.names| || q.names[i] in names;
        assert BoolAt(RequestValues(q, w), q.assertions[i]);
      }
      forall i | 0 <= i < |query.assumptions| ensures BoolAt(Eval(query.arena.nodes, env), query.assumptions[i]) {
        assert BoolAt(RequestValues(q, w), q.assumptions[i]);
      }
    }
  }

  /** What is needed in the query is needed in the request. */
  lemma {:induction false} SameNeed(q: Request, terms: seq<TermId>, query: Query, active: seq<nat>)
    requires RequestOk(q) && Translates(q, terms, query) && Solver.SubsetSatisfiable(query, active)
    ensures exists w :: SubsetTrue(q, active, w)
  {
    hide Typed, Lowered, Referred, Eval, SubsetTrue, NamesFrom, Matches, Solver.SubsetHolds;
    var env: Env :|
      Solver.SubsetHolds(query.arena.nodes, query.assertions, query.assumptions, active, env);
    NamesFromMatch(Typed(q.nodes).value, terms, query.arena.nodes, env);
    SameSubset(q, terms, query, active, env, NamesFrom(Typed(q.nodes).value, terms, env));
  }

  /** The active assertions of the query are assertions of the request with the same names. */
  lemma {:induction false} SameActive(q: Request, terms: seq<TermId>, query: Query, active: seq<nat>,
                                      names: seq<string>)
    requires RequestOk(q) && Translates(q, terms, query)
    requires Solver.IsActive(query.assertions, active) && Solver.Names(query.assertions, active, names)
    ensures |active| == |names|
    ensures forall k {:trigger active[k]} :: 0 <= k < |active| ==>
              active[k] < |q.names| && active[k] < |q.assertions| && q.names[active[k]] == names[k]
    ensures forall j, k {:trigger active[j], active[k]} :: 0 <= j < k < |active| ==> active[j] < active[k]
  {
    hide Typed, Lowered, Referred;
    forall k | 0 <= k < |active|
      ensures active[k] < |q.names| && active[k] < |q.assertions| && q.names[active[k]] == names[k]
    {
      assert query.assertions[active[k]].name == Some(names[k]);
    }
  }

  /** A core of the query is a core of the request. */
  lemma {:induction false} SameCore(q: Request, terms: seq<TermId>, query: Query, names: seq<string>, limited: bool)
    requires RequestOk(q) && Translates(q, terms, query) && Solver.IsCore(query, names, limited)
    ensures IsRequestCore(q, names, limited)
  {
    hide Typed, Lowered, Referred, NamesTrue, SubsetTrue, NamedEnv, Matches;
    hide Solver.NamedHold, Solver.SubsetSatisfiable, Solver.IsActive, Solver.Names, Solver.Without;
    var typed, nodes := Typed(q.nodes).value, query.arena.nodes;
    forall w ensures !NamesTrue(q, names, w) {
      NamedEnvMatches(typed, terms, nodes, w);
      SameNamed(q, terms, query, names, NamedEnv(nodes, w), w);
    }
    var active: seq<nat> :|
      Solver.IsActive(query.assertions, active) && Solver.Names(query.assertions, active, names)
      && (!limited ==> Solver.NeededUpTo(query, active, |active|));
    hide Translates;
    SameActive(q, terms, query, active, names);
    if !limited {
      forall k | 0 <= k < |active| ensures IsNeeded(q, active, k) {
        SameNeed(q, terms, query, Solver.Without(active, active[k]));
      }
    }
    assert CoreFrom(q, names, active, limited);
  }

  // ------------------------------------------------------------------------------ replies

  /** What a reply says about the request. */
  ghost predicate Answered(q: Request, limited: bool, r: Reply)
    requires RequestOk(q)
  {
    match r
    case ReplyUnsat(core) =>
      && (forall w :: !RequestHolds(q, w))
      && (core.Some? <==> q.command.Solve? && q.wantCore)
      && (core.Some? ==> IsRequestCore(q, core.value, limited))
    case ReplySat(model) =>
      && q.command.Solve? && (exists w :: RequestHolds(q, w))
      && (model.Some? <==> q.wantModel)
      && (model.Some? ==> WireAnswers(q, model.value) && WireCovers(Typed(q.nodes).value, model.value))
    case ReplyOptimum(optimum, model) =>
      && q.Optimizes() && optimum.ScalarBv? && Normalized(optimum.bytes, optimum.width)
      && optimum.width == Width(Typed(q.nodes).value, q.target.value)
      && IsBest(q, Decoded(optimum.bytes, optimum.width))
      && (model.Some? <==> q.wantModel)
      && (model.Some? ==>
            WireAnswers(q, model.value) && WireAttains(q, model.value, Decoded(optimum.bytes, optimum.width)))
    case ReplyUnknown => limited || q.command.Simplify?
  }

  /** The model of an answer, for the nodes of the request. */
  method ReplyModel(q: Request, ghost terms: seq<TermId>, query: Query, model: Option<Model>)
    returns (entries: Option<seq<WireEntry>>, ghost values: map<Symbol, ScalarValue>)
    requires RequestOk(q) && Translates(q, terms, query)
    requires model.Some? ==> Solver.EntriesNamed(query.arena.nodes, model.value)
    ensures entries.Some? <==> model.Some?
    ensures model.Some? ==> ValuesOf(model.value, |model.value|, values)
    ensures model.Some? ==> Mentions(q.nodes, |q.nodes|, values, entries.value)
  {
    hide RequestOk, Translates, ValuesOf, Mentions, ScalarToWire, EntrySymbol;
    values := map[];
    if model.None? { return None, values; }
    var r;
    r, values := ModelToWireForRequest(q.nodes, model.value);
    NoConflict(q, terms, query, model.value);
    entries := Some(r.value);
  }

  lemma {:induction false} NoConflict(q: Request, terms: seq<TermId>, query: Query, model: Model)
    requires RequestOk(q) && Translates(q, terms, query) && Solver.EntriesNamed(query.arena.nodes, model)
    ensures forall e {:trigger model[e]} :: 0 <= e < |model| ==> ScalarToWire(model[e].value).Ok?
    ensures forall d, e {:trigger model[d], model[e]} :: 0 <= d < e < |model| ==>
              EntrySymbol(model[d]) != EntrySymbol(model[e])
  {
    hide Typed, Lowered, Referred, EntrySymbol, Normalized;
    forall e | 0 <= e < |model| ensures ScalarToWire(model[e].value).Ok? {
      assert Solver.EntryNamed(query.arena.nodes, model[e]);
    }
    forall d, e | 0 <= d < e < |model| ensures EntrySymbol(model[d]) != EntrySymbol(model[e]) {
      OneEntryPerSymbol(Typed(q.nodes).value, terms, query.arena.nodes, model, d, e);
    }
  }

  lemma {:induction false} SolveAnswered(q: Request, terms: seq<TermId>, query: Query, limited: bool,
                                         r: Solver.SolveResult, values: map<Symbol, ScalarValue>,
                                         entries: Option<seq<WireEntry>>)
    requires RequestOk(q) && Translates(q, terms, query) && q.command.Solve?
    requires Solver.Answers(query.arena.nodes, query.Roots(), query.wantModel, limited, r.(core := None))
    requires r.core.Some? ==> query.wantCore && r.status.StatusUnsat? && Solver.IsCore(query, r.core.value, limited)
    requires r.status.StatusUnsat? && query.wantCore ==> r.core.Some?
    requires r.model.Some? ==> Solver.EntriesNamed(query.arena.nodes, r.model.value)
    requires r.model.Some? ==> Solver.CoversVariables(query.arena.nodes, r.model.value)
    requires entries.Some? <==> r.model.Some?
    requires r.model.Some? ==> ValuesOf(r.model.value, |r.model.value|, values)
    requires r.model.Some? ==> Mentions(q.nodes, |q.nodes|, values, entries.value)
    ensures r.status.StatusSat? ==> Answered(q, limited, ReplySat(entries))
    ensures r.status.StatusUnsat? ==> Answered(q, limited, ReplyUnsat(r.core))
    ensures r.status.StatusUnknown? ==> limited
    ensures !r.status.StatusSimplified? && r.optimum == None
  {
    hide Lowered, Referred, Eval, Typed, RequestHolds, RequestOk, Satisfied, Query.Roots, IsRequestCore, WireAnswers;
    hide ValuesOf, Mentions, WireCovers;
    hide Solver.Satisfiable, Solver.TrueModel, Solver.EntriesNamed, Solver.CoversVariables, Solver.IsCore;
    SameSatisfiability(q, terms, query);
    if r.core.Some? { SameCore(q, terms, query, r.core.value, limited); }
    if r.model.Some? {
      MentionsAnswer(q, terms, query, r.model.value, values, entries.value);
      MentionsCover(q, terms, query.arena.nodes, r.model.value, values, entries.value);
    }
  }

  lemma {:induction false} OptimumAnswered(q: Request, terms: seq<TermId>, query: Query, limited: bool,
                                           r: Solver.SolveResult, values: map<Symbol, ScalarValue>,
                                           entries: Option<seq<WireEntry>>)
    requires RequestOk(q) && Translates(q, terms, query) && q.Optimizes()
    requires Solver.Optimizes(query.arena.nodes, query.Roots(), query.target.value, query.signed,
                              query.command == Minimize, query.wantModel, limited, r)
    requires entries.Some? <==> r.model.Some?
    requires r.model.Some? ==> ValuesOf(r.model.value, |r.model.value|, values)
    requires r.model.Some? ==> Mentions(q.nodes, |q.nodes|, values, entries.value)
    ensures r.status.StatusSat? ==> r.optimum.Some? && Answered(q, limited, ReplyOptimum(r.optimum.value, entries))
    ensures r.status.StatusUnsat? ==> Answered(q, limited, ReplyUnsat(r.core))
    ensures r.status.StatusUnknown? ==> limited
    ensures !r.status.StatusSimplified?
  {
    hide Lowered, Referred, Eval, Typed, RequestHolds, IsBest, Satisfied, Query.Roots, Decoded, Normalized, WireAnswers;
    hide ValuesOf, Mentions, WireAttains;
    hide Solver.Satisfiable, Solver.IsOptimum, Solver.AttainedBy, Solver.EntriesNamed;
    SameSatisfiability(q, terms, query);
    if r.status.StatusSat? {
      var best := Decoded(r.optimum.value.bytes, r.optimum.value.width);
      SameOptimum(q, terms, query, best);
      TargetSized(q, terms, query);
      if r.model.Some? { OptimumModel(q, terms, query, r.model.value, values, entries.value, best); }
    }
  }

  lemma {:induction false} TargetSized(q: Request, terms: seq<TermId>, query: Query)
    requires RequestOk(q) && Translates(q, terms, query) && q.Optimizes()
    ensures Width(query.arena.nodes, query.target.value) == Width(Typed(q.nodes).value, q.target.value)
  {
    hide Typed, Eval, WellFormed, SameValues, Referred;
    assert terms[q.target.value] < |query.arena.nodes|;
  }

  /** The model of an optimum attains it. */
  lemma {:induction false} OptimumModel(q: Request, terms: seq<TermId>, query: Query, model: Model,
                                        values: map<Symbol, ScalarValue>, entries: seq<WireEntry>, best: Bv)
    requires RequestOk(q) && Translates(q, terms, query) && q.Optimizes()
    requires Solver.AttainedBy(query.arena.nodes, query.Roots(), query.target.value, best, model)
    requires Solver.EntriesNamed(query.arena.nodes, model)
    requires ValuesOf(model, |model|, values) && Mentions(q.nodes, |q.nodes|, values, entries)
    ensures WireAnswers(q, entries) && WireAttains(q, entries, best)
  {
    hide Typed, RequestHolds, Satisfied, Lowered, Referred, WireRead, ModelRead, EntryOk, Extends, ValuesOf, Mentions;
    hide WireAnswers, RequestTarget, Solver.TargetOf, Solver.EntriesNamed, Solver.TrueModel, NamedEnv;
    SameModel(q, terms, query, model);
    MentionsAnswer(q, terms, query, model, values, entries);
    forall w | WireRead(Typed(q.nodes).value, entries, w) ensures RequestTarget(q, w) == best {
      assert ModelRead(model, w);
      assert Extends(NamedEnv(query.arena.nodes, w), model);
    }
  }

  /** The reply to a request: errors and simplifications are reported as unknown. */
  method AnswerRequest(q: Request, limited: bool) returns (r: Reply)
    ensures if RequestOk(q) then Answered(q, limited, r) else r == ReplyUnknown
    ensures q.command.Simplify? ==> r == ReplyUnknown
  {
    hide Translates, Answered, RequestOk, Query.Valid, Query.Roots, ValuesOf, Mentions;
    hide Solver.Answers, Solver.Optimizes, Solver.IsCore, Solver.EntriesNamed, Solver.CoversVariables;
    var query, terms := QueryFromWire(q);
    if query.Err? { return ReplyUnknown; }
    SameShape(q, terms, query.value);
    var answer := Solver.SolveQuery(query.value, limited);
    if answer.Err? || answer.value.status == Solver.StatusSimplified || answer.value.status == Solver.StatusUnknown {
      UnknownAnswered(q, limited);
      return ReplyUnknown;
    }
    OptimizedEntries(query.value, limited, answer.value);
    var entries, values := ReplyModel(q, terms, query.value, answer.value.model);
    if q.command.Solve? {
      SolveAnswered(q, terms, query.value, limited, answer.value, values, entries);
    } else {
      OptimumAnswered(q, terms, query.value, limited, answer.value, values, entries);
    }
    match answer.value.status {
      case StatusSat =>
        match answer.value.optimum {
          case Some(optimum) => r := ReplyOptimum(optimum, entries);
          case None => r := ReplySat(entries);
        }
      case StatusUnsat => r := ReplyUnsat(answer.value.core);
    }
  }

  /** Optimisation answers have models of the arena's variables, too. */
  lemma {:induction false} OptimizedEntries(query: Query, limited: bool, r: Solver.SolveResult)
    requires query.target.Some? && (query.command.Minimize? || query.command.Maximize?) ==>
               Solver.Optimizes(query.arena.nodes, query.Roots(), query.target.value, query.signed,
                                query.command == Minimize, query.wantModel, limited, r)
    ensures query.target.Some? && (query.command.Minimize? || query.command.Maximize?) && r.model.Some? ==>
              Solver.EntriesNamed(query.arena.nodes, r.model.value)
  {
    hide Query.Roots, Solver.Satisfiable, Solver.IsOptimum, Solver.AttainedBy, Solver.EntriesNamed, Decoded, Normalized;
  }

  lemma {:induction false} UnknownAnswered(q: Request, limited: bool)
    requires RequestOk(q) && (limited || q.command.Simplify?)
    ensures Answered(q, limited, ReplyUnknown)
  {}

  lemma {:induction false} SameShape(q: Request, terms: seq<TermId>, query: Query)
    requires RequestOk(q) && Translates(q, terms, query)
    ensures query.command == q.command && query.wantModel == q.wantModel && query.wantCore == q.wantCore
    ensures q.Optimizes() ==> query.target.Some? && query.signed == q.signed
  {}
}
