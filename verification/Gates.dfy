/** The hash-consed gate arena and what its gates compute. */
module Gates {
  import opened BitVectors

  type GateId = nat
  type Inputs = nat -> bool

  datatype GateKind =
    | Const(value: bool)
    | Input(index: nat)
    | Not(x: GateId)
    | And(a: GateId, b: GateId)
    | Or(a: GateId, b: GateId)
    | Xor(a: GateId, b: GateId)
    | Mux(sel: GateId, t: GateId, f: GateId)

  /** Every operand of `k` lies below `n`. */
  predicate Below(k: GateKind, n: nat) {
    match k
    case Const(_) => true
    case Input(_) => true
    case Not(x) => x < n
    case And(a, b) => a < n && b < n
    case Or(a, b) => a < n && b < n
    case Xor(a, b) => a < n && b < n
    case Mux(s, t, f) => s < n && t < n && f < n
  }

  predicate Topological(g: seq<GateKind>) { forall i {:trigger g[i]} :: 0 <= i < |g| ==> Below(g[i], i) }

  /** The value of gate `i` when input `k` carries `inp(k)`. */
  function Gate(g: seq<GateKind>, inp: Inputs, i: GateId): bool
    decreases i
  {
    if i >= |g| || !Below(g[i], i) then false else
      match g[i]
      case Const(v) => v
      case Input(k) => inp(k)
      case Not(x) => !Gate(g, inp, x)
      case And(a, b) => Gate(g, inp, a) && Gate(g, inp, b)
      case Or(a, b) => Gate(g, inp, a) || Gate(g, inp, b)
      case Xor(a, b) => Gate(g, inp, a) != Gate(g, inp, b)
      case Mux(s, t, f) => if Gate(g, inp, s) then Gate(g, inp, t) else Gate(g, inp, f)
  }

  predicate InRange(g: seq<GateKind>, bits: seq<GateId>) { forall i :: 0 <= i < |bits| ==> bits[i] < |g| }

  /** The bit vector a list of gates carries. */
  function Carried(g: seq<GateKind>, inp: Inputs, bits: seq<GateId>): (v: Bv)
    ensures |v| == |bits|
  {
    seq(|bits|, i requires 0 <= i < |bits| => Gate(g, inp, bits[i]))
  }

  /** `h` extends `g`, and nothing `g` computed has changed. */
  ghost predicate Grown(g: seq<GateKind>, h: seq<GateKind>) {
    && g <= h
    && (forall inp: Inputs, i: GateId {:trigger Gate(h, inp, i)} :: i < |g| ==> Gate(h, inp, i) == Gate(g, inp, i))
    && (forall inp: Inputs, bits {:trigger Carried(h, inp, bits)} ::
          InRange(g, bits) ==> Carried(h, inp, bits) == Carried(g, inp, bits))
  }

  lemma {:induction false} GateKept(g: seq<GateKind>, h: seq<GateKind>, inp: Inputs, i: GateId)
    requires g <= h && i < |g|
    ensures Gate(h, inp, i) == Gate(g, inp, i)
    decreases i
  {
    if Below(g[i], i) {
      match g[i]
      case Const(_) =>
      case Input(_) =>
      case Not(x) => GateKept(g, h, inp, x);
      case And(a, b) => GateKept(g, h, inp, a); GateKept(g, h, inp, b);
      case Or(a, b) => GateKept(g, h, inp, a); GateKept(g, h, inp, b);
      case Xor(a, b) => GateKept(g, h, inp, a); GateKept(g, h, inp, b);
      case Mux(s, t, f) => GateKept(g, h, inp, s); GateKept(g, h, inp, t); GateKept(g, h, inp, f);
    }
  }

  /** Appending gates changes no value already computed. */
  lemma {:induction false} PrefixIsGrown(g: seq<GateKind>, h: seq<GateKind>)
    requires g <= h
    ensures Grown(g, h)
  {
    forall inp: Inputs, i: GateId | i < |g|
      ensures Gate(h, inp, i) == Gate(g, inp, i)
    {
      GateKept(g, h, inp, i);
    }
    forall inp: Inputs, bits | InRange(g, bits)
      ensures Carried(h, inp, bits) == Carried(g, inp, bits)
    {
      forall i | 0 <= i < |bits| ensures Gate(h, inp, bits[i]) == Gate(g, inp, bits[i]) {
        GateKept(g, h, inp, bits[i]);
      }
    }
  }

  function OrderPair(a: GateId, b: GateId): (GateId, GateId) { if a <= b then (a, b) else (b, a) }

  class GateArena {
    var gates: seq<GateKind>
    var ids: map<GateKind, GateId>
    var falseId: GateId
    var trueId: GateId
    var inputCount: nat

    /** Operands come first, `ids` is the inverse of `gates`, the constants sit at ids 0 and 1,
        and inputs are numbered below `inputCount`. */
    ghost predicate Valid()
      reads this
    {
      && Consed()
      && 2 <= |gates| && falseId == 0 && trueId == 1
      && gates[0] == Const(false) && gates[1] == Const(true)
    }

    ghost predicate Consed()
      reads this
    {
      && Topological(gates)
      && (forall i {:trigger gates[i]} :: 0 <= i < |gates| ==> gates[i] in ids && ids[gates[i]] == i)
      && (forall k :: k in ids ==> ids[k] < |gates| && gates[ids[k]] == k)
      && (forall i {:trigger gates[i]} :: 0 <= i < |gates| && gates[i].Input? ==> gates[i].index < inputCount)
    }

    constructor ()
      ensures Valid() && inputCount == 0 && gates == [Const(false), Const(true)]
    {
      gates, ids, falseId, trueId, inputCount := [], map[], 0, 1, 0;
      new;
      var f := AddRaw(Const(false));
      var t := AddRaw(Const(true));
      falseId, trueId := f, t;
    }

    /** Returns the id of `kind`, appending it only when it is new. */
    method AddRaw(kind: GateKind) returns (id: GateId)
      requires Consed() && Below(kind, |gates|)
      requires kind.Input? ==> kind.index < inputCount
      modifies this`gates, this`ids
      ensures Consed()
      ensures gates == if kind in old(ids) then old(gates) else old(gates) + [kind]
      ensures kind !in old(ids) ==> id == |old(gates)|
      ensures Grown(old(gates), gates) && id < |gates| && gates[id] == kind
    {
      PrefixIsGrown(gates, gates);
      if kind in ids {
        return ids[kind];
      }
      id := |gates|;
      PrefixIsGrown(gates, gates + [kind]);
      gates := gates + [kind];
      ids := ids[kind := id];
    }

    /** A fresh input gets the next input number and a new gate. */
    method NewInput() returns (id: GateId)
      requires Valid()
      modifies this
      ensures Valid() && Grown(old(gates), gates)
      ensures inputCount == old(inputCount) + 1
      ensures id == |old(gates)| && gates == old(gates) + [Input(old(inputCount))]
    {
      var index := inputCount;
      inputCount := inputCount + 1;
      id := AddRaw(Input(index));
    }

    function ConstGate(value: bool): (id: GateId)
      requires Valid()
      reads this
      ensures id < |gates| && forall inp: Inputs :: Gate(gates, inp, id) == value
    {
      if value then trueId else falseId
    }

    method Negate(x: GateId) returns (id: GateId)
      requires Valid() && x < |gates|
      modifies this`gates, this`ids
      ensures Valid() && Grown(old(gates), gates) && id < |gates|
      ensures forall inp: Inputs :: Gate(gates, inp, id) == !Gate(gates, inp, x)
    {
      PrefixIsGrown(gates, gates);
      if x == falseId { return trueId; }
      if x == trueId { return falseId; }
      if gates[x].Not? { return gates[x].x; }
      id := AddRaw(Not(x));
    }

    predicate IsNegationPair(a: GateId, b: GateId)
      requires Valid() && a < |gates| && b < |gates|
      reads this
      ensures IsNegationPair(a, b) ==> forall inp: Inputs :: Gate(gates, inp, a) == !Gate(gates, inp, b)
    {
      gates[a] == Not(b) || gates[b] == Not(a)
    }

    method Conjoin(x: GateId, y: GateId) returns (id: GateId)
      requires Valid() && x < |gates| && y < |gates|
      modifies this`gates, this`ids
      ensures Valid() && Grown(old(gates), gates) && id < |gates|
      ensures forall inp: Inputs :: Gate(gates, inp, id) == (Gate(gates, inp, x) && Gate(gates, inp, y))
    {
      PrefixIsGrown(gates, gates);
      var (a, b) := OrderPair(x, y);
      if a == falseId || b == falseId { return falseId; }
      if a == trueId { return b; }
      if b == trueId || a == b { return a; }
      if IsNegationPair(a, b) { return falseId; }
      id := AddRaw(And(a, b));
    }

    method Disjoin(x: GateId, y: GateId) returns (id: GateId)
      requires Valid() && x < |gates| && y < |gates|
      modifies this`gates, this`ids
      ensures Valid() && Grown(old(gates), gates) && id < |gates|
      ensures forall inp: Inputs :: Gate(gates, inp, id) == (Gate(gates, inp, x) || Gate(gates, inp, y))
    {
      PrefixIsGrown(gates, gates);
      var (a, b) := OrderPair(x, y);
      if a == trueId || b == trueId { return trueId; }
      if a == falseId { return b; }
      if b == falseId || a == b { return a; }
      if IsNegationPair(a, b) { return trueId; }
      id := AddRaw(Or(a, b));
    }

    method ExclusiveOr(x: GateId, y: GateId) returns (id: GateId)
      requires Valid() && x < |gates| && y < |gates|
      modifies this`gates, this`ids
      ensures Valid() && Grown(old(gates), gates) && id < |gates|
      ensures forall inp: Inputs :: Gate(gates, inp, id) == (Gate(gates, inp, x) != Gate(gates, inp, y))
    {
      PrefixIsGrown(gates, gates);
      var (a, b) := OrderPair(x, y);
      if a == falseId { return b; }
      if b == falseId { return a; }
      if a == b { return falseId; }
      if a == trueId {
        id := Negate(b);
      } else {
        // The operands are ordered, so the remaining test `b == true` can never succeed.
        assert b != trueId;
        id := AddRaw(Xor(a, b));
      }
    }

    method Xnor(a: GateId, b: GateId) returns (id: GateId)
      requires Valid() && a < |gates| && b < |gates|
      modifies this`gates, this`ids
      ensures Valid() && Grown(old(gates), gates) && id < |gates|
      ensures forall inp: Inputs :: Gate(gates, inp, id) == (Gate(gates, inp, a) == Gate(gates, inp, b))
    {
      var differ := ExclusiveOr(a, b);
      id := Negate(differ);
    }

    method Choose(sel: GateId, t: GateId, f: GateId) returns (id: GateId)
      requires Valid() && sel < |gates| && t < |gates| && f < |gates|
      modifies this`gates, this`ids
      ensures Valid() && Grown(old(gates), gates) && id < |gates|
      ensures forall inp: Inputs ::
                Gate(gates, inp, id) == if Gate(gates, inp, sel) then Gate(gates, inp, t) else Gate(gates, inp, f)
    {
      PrefixIsGrown(gates, gates);
      if sel == trueId { return t; }
      if sel == falseId { return f; }
      if t == f { return t; }
      if t == trueId && f == falseId { return sel; }
      if t == falseId && f == trueId {
        id := Negate(sel);
      } else {
        id := AddRaw(Mux(sel, t, f));
      }
    }

    method Implies(a: GateId, b: GateId) returns (id: GateId)
      requires Valid() && a < |gates| && b < |gates|
      modifies this`gates, this`ids
      ensures Valid() && Grown(old(gates), gates) && id < |gates|
      ensures forall inp: Inputs :: Gate(gates, inp, id) == (Gate(gates, inp, a) ==> Gate(gates, inp, b))
    {
      var notA := Negate(a);
      id := Disjoin(notA, b);
    }

    /** Conjunction of a list; it stops as soon as the result is known to be false. */
    method ConjoinAll(xs: seq<GateId>) returns (out: GateId)
      requires Valid() && InRange(gates, xs)
      modifies this`gates, this`ids
      ensures Valid() && Grown(old(gates), gates) && out < |gates|
      ensures forall inp: Inputs :: Gate(gates, inp, out) <==> forall i :: 0 <= i < |xs| ==> Gate(gates, inp, xs[i])
    {
      hide Gate, Valid;
      PrefixIsGrown(gates, gates);
      out := ConstGate(true);
      for n := 0 to |xs|
        invariant Valid() && Grown(old(gates), gates) && out < |gates|
        invariant forall inp: Inputs :: Gate(gates, inp, out) <==> forall i :: 0 <= i < n ==> Gate(gates, inp, xs[i])
      {
        out := Conjoin(out, xs[n]);
        if out == ConstGate(false) { break; }
      }
    }

    method DisjoinAll(xs: seq<GateId>) returns (out: GateId)
      requires Valid() && InRange(gates, xs)
      modifies this`gates, this`ids
      ensures Valid() && Grown(old(gates), gates) && out < |gates|
      ensures forall inp: Inputs :: Gate(gates, inp, out) <==> exists i :: 0 <= i < |xs| && Gate(gates, inp, xs[i])
    {
      hide Gate, Valid;
      PrefixIsGrown(gates, gates);
      out := ConstGate(false);
      for n := 0 to |xs|
        invariant Valid() && Grown(old(gates), gates) && out < |gates|
        invariant forall inp: Inputs :: Gate(gates, inp, out) <==> exists i :: 0 <= i < n && Gate(gates, inp, xs[i])
      {
        out := Disjoin(out, xs[n]);
        if out == ConstGate(true) { break; }
      }
    }
  }
}
