/** Models: the values a satisfying assignment gives the variables of a query. */
module Models {
  import opened BitVectors
  import opened Bytes
  import opened Wrappers
  import opened Ir
  import opened Gates
  import opened Cnf
  import opened Blast

  datatype ScalarValue = ScalarBool(value: bool) | ScalarBv(width: nat, bytes: seq<Byte>)

  datatype ModelEntry = ModelEntry(term: TermId, name: string, external: Option<nat>, value: ScalarValue)

  type Model = seq<ModelEntry>

  /** The first entry with the name. */
  function Get(model: Model, name: string): (r: Option<ScalarValue>)
    ensures r.None? <==> forall i :: 0 <= i < |model| ==> model[i].name != name
    ensures r.Some? ==> exists i :: 0 <= i < |model| && model[i].name == name && model[i].value == r.value
                                    && forall j :: 0 <= j < i ==> model[j].name != name
  {
    if model == [] then None
    else if model[0].name == name then Some(model[0].value)
    else
      var r := Get(model[1..], name);
      assert forall i :: 1 <= i < |model| ==> model[i] == model[1..][i - 1];
      r
  }

  /** The assignment gives the entry's variable the entry's value. */
  predicate EntryHolds(e: ModelEntry, env: Env) {
    match e.value
    case ScalarBool(b) => env.bools(e.term) == b
    case ScalarBv(w, bytes) => FromInt(env.bvs(e.term), w) == Decoded(bytes, w)
  }

  /** A total assignment that agrees with every entry of the model. */
  ghost predicate Extends(env: Env, model: Model) {
    forall i {:trigger model[i]} :: 0 <= i < |model| ==> EntryHolds(model[i], env)
  }

  /** The bits a gate assignment gives a variable. */
  function AssignedBits(bits: seq<GateId>, assignment: seq<bool>): Bv {
    seq(|bits|, i requires 0 <= i < |bits| => bits[i] < |assignment| && assignment[bits[i]])
  }

  /** The entry names the variable and holds its assigned bits, normalised. */
  predicate Describes(e: ModelEntry, v: BlastedVariable, assignment: seq<bool>) {
    && e.term == v.term && e.name == v.name && e.external == v.external
    && match v.sort
       case BoolSort => v.bits != [] && e.value == ScalarBool(AssignedBits(v.bits, assignment)[0])
       case BvSort(w) =>
         && e.value.ScalarBv? && e.value.width == w
         && Normalized(e.value.bytes, w) && Decoded(e.value.bytes, w) == AssignedBits(v.bits, assignment)
  }

  ghost predicate DescribesAll(model: Model, variables: seq<BlastedVariable>, assignment: seq<bool>) {
    |model| == |variables| && forall v {:trigger variables[v]} {:trigger model[v]} :: 0 <= v < |model| ==>
      Describes(model[v], variables[v], assignment)
  }

  method BuildModel(ghost nodes: seq<Node>, ghost g: seq<GateKind>, variables: seq<BlastedVariable>,
                    assignment: seq<bool>)
    returns (model: Model)
    requires VariablesOk(nodes, g, variables) && |assignment| == |g|
    ensures DescribesAll(model, variables, assignment)
  {
    hide TotalBits, InputsFrom, GetBit;
    model := [];
    for n := 0 to |variables|
      invariant |model| == n
      invariant forall v {:trigger model[v]} :: 0 <= v < n ==> Describes(model[v], variables[v], assignment)
    {
      var variable := variables[n];
      assert DescribesVariable(nodes, variable);
      var value;
      match variable.sort {
        case BoolSort => value := ScalarBool(AssignedBits(variable.bits, assignment)[0]);
        case BvSort(w) =>
          var bits := AssignedBits(variable.bits, assignment);
          var bytes := GatherBits(w, (i: nat) => i < |bits| && bits[i]);
          assert Decoded(bytes, w) == bits;
          value := ScalarBv(w, bytes);
      }
      model := model + [ModelEntry(variable.term, variable.name, variable.external, value)];
    }
  }

  /** Extending the model is the same as agreeing with the gate inputs it was read from. */
  lemma {:induction false} ExtendsIffAgrees(nodes: seq<Node>, arena: GateArena, variables: seq<BlastedVariable>,
                                            assignment: seq<bool>, model: Model, env: Env)
    requires arena.Valid() && VariablesOk(nodes, arena.gates, variables) && DescribesAll(model, variables, assignment)
    requires |assignment| == |arena.gates| && Consistent(arena.gates, assignment, |arena.gates|)
    ensures Extends(env, model) <==> Agrees(arena.gates, variables, env, InputsIn(arena.ids, assignment))
  {
    hide GateArena.Valid, Consistent, InputsIn, Gate, TotalBits, GetBit, FromInt, DescribesVariable;
    hide Describes, EntryHolds, VariableBits, Carried;
    var inp := InputsIn(arena.ids, assignment);
    forall v | 0 <= v < |variables|
      ensures EntryHolds(model[v], env) <==>
                Carried(arena.gates, inp, variables[v].bits) == VariableBits(variables[v], env)
    {
      assert Describes(model[v], variables[v], assignment);
      assert DescribesVariable(nodes, variables[v]);
      AssignedIsCarried(nodes, arena, variables, assignment, v);
      SameEntry(nodes, variables[v], model[v], assignment, env);
    }
  }

  lemma {:induction false} AssignedIsCarried(nodes: seq<Node>, arena: GateArena, variables: seq<BlastedVariable>,
                                             assignment: seq<bool>, v: nat)
    requires arena.Valid() && VariablesOk(nodes, arena.gates, variables) && v < |variables|
    requires |assignment| == |arena.gates| && Consistent(arena.gates, assignment, |arena.gates|)
    ensures Carried(arena.gates, InputsIn(arena.ids, assignment), variables[v].bits) ==
              AssignedBits(variables[v].bits, assignment)
  {
    hide GateArena.Valid, Consistent, InputsIn, Gate, TotalBits;
    var bits := variables[v].bits;
    assert InputsFrom(arena.gates, bits, TotalBits(variables[..v]));
    forall i | 0 <= i < |bits|
      ensures Gate(arena.gates, InputsIn(arena.ids, assignment), bits[i]) == assignment[bits[i]]
    {
      ConsistentIsEvaluation(arena, assignment, bits[i]);
    }
  }

  lemma {:induction false} SameEntry(nodes: seq<Node>, v: BlastedVariable, e: ModelEntry, assignment: seq<bool>,
                                     env: Env)
    requires DescribesVariable(nodes, v) && Describes(e, v, assignment)
    ensures EntryHolds(e, env) <==> AssignedBits(v.bits, assignment) == VariableBits(v, env)
  {
    hide GetBit, FromInt;
  }
}
