/** Flattened sums and products of terms: what regrouping and sorting them preserves. */
module Sums {
  import opened BitVectors
  import opened Bytes
  import opened ByteOps
  import opened Wrappers
  import opened Ir
  import opened Terms
  import opened Rules
  import opened Polynomials

  /** A term and the coefficient it is scaled by. */
  datatype Scaled = Scaled(base: TermId, coefficient: seq<Byte>)

  function SumOf(vals: seq<Value>, terms: seq<TermId>): int {
    if terms == [] then 0 else Val(BvAt(vals, terms[0])) + SumOf(vals, terms[1..])
  }

  function ProductOf(vals: seq<Value>, terms: seq<TermId>): int {
    if terms == [] then 1 else Val(BvAt(vals, terms[0])) * ProductOf(vals, terms[1..])
  }

  function ScaledSum(vals: seq<Value>, terms: seq<Scaled>): int {
    if terms == [] then 0
    else BytesVal(terms[0].coefficient) * Val(BvAt(vals, terms[0].base)) + ScaledSum(vals, terms[1..])
  }

  // --------------------------------------------------------------------------- appending

  lemma {:induction false} SumAppend(vals: seq<Value>, a: seq<TermId>, b: seq<TermId>)
    ensures SumOf(vals, a + b) == SumOf(vals, a) + SumOf(vals, b)
    ensures ProductOf(vals, a + b) == ProductOf(vals, a) * ProductOf(vals, b)
  {
    if a == [] {
      assert a + b == b;
    } else {
      assert (a + b)[1..] == a[1..] + b;
      SumAppend(vals, a[1..], b);
      hide Val;
      Associate(Val(BvAt(vals, a[0])), ProductOf(vals, a[1..]), ProductOf(vals, b));
    }
  }

  lemma {:induction false} SumSnoc(vals: seq<Value>, a: seq<TermId>, t: TermId)
    ensures SumOf(vals, a + [t]) == SumOf(vals, a) + Val(BvAt(vals, t))
    ensures ProductOf(vals, a + [t]) == ProductOf(vals, a) * Val(BvAt(vals, t))
  {
    SumAppend(vals, a, [t]);
    assert [t][1..] == [];
  }

  lemma {:induction false} ScaledSnoc(vals: seq<Value>, a: seq<Scaled>, t: Scaled)
    ensures ScaledSum(vals, a + [t]) == ScaledSum(vals, a) + BytesVal(t.coefficient) * Val(BvAt(vals, t.base))
  {
    if a == [] {
      assert (a + [t])[1..] == [];
    } else {
      assert (a + [t])[1..] == a[1..] + [t];
      ScaledSnoc(vals, a[1..], t);
    }
  }

  // ---------------------------------------------------------------------------- flattening

  /** The leaves of a nest of `op`, from left to right. */
  function Flattened(nodes: seq<Node>, op: BinaryOp, id: TermId): (terms: seq<TermId>)
    requires WellFormed(nodes) && IsBv(nodes, |nodes|, id)
    decreases id
  {
    if IsBinary(nodes, id, op) then
      OperandsBelow(nodes, id);
      Flattened(nodes, op, nodes[id].kind.a) + Flattened(nodes, op, nodes[id].kind.b)
    else [id]
  }

  lemma {:induction false} OperandsBelow(nodes: seq<Node>, id: TermId)
    requires WellFormed(nodes) && id < |nodes| && nodes[id].kind.BinaryBv?
    ensures SameBv(nodes, id, nodes[id].kind.a, nodes[id].kind.b) && IsBv(nodes, |nodes|, id)
    ensures Width(nodes, id) == Width(nodes, nodes[id].kind.a)
  {
    assert SortOf(nodes, id, nodes[id].kind) == Some(nodes[id].sort);
  }

  /** Vectors of one width. */
  predicate AllBv(nodes: seq<Node>, terms: seq<TermId>, width: nat) {
    forall i :: 0 <= i < |terms| ==> IsBv(nodes, |nodes|, terms[i]) && Width(nodes, terms[i]) == width
  }

  lemma {:induction false} FlattenedShape(nodes: seq<Node>, op: BinaryOp, id: TermId)
    requires WellFormed(nodes) && IsBv(nodes, |nodes|, id)
    ensures AllBv(nodes, Flattened(nodes, op, id), Width(nodes, id)) && |Flattened(nodes, op, id)| >= 1
    decreases id
  {
    if IsBinary(nodes, id, op) {
      OperandsBelow(nodes, id);
      FlattenedShape(nodes, op, nodes[id].kind.a);
      FlattenedShape(nodes, op, nodes[id].kind.b);
    }
  }

  /** Flattening keeps the value modulo 2^w, whatever the nesting. */
  lemma {:induction false} FlattenedValue(nodes: seq<Node>, op: BinaryOp, id: TermId, env: Env)
    requires WellFormed(nodes) && IsBv(nodes, |nodes|, id)
    ensures var (vals, terms) := (Eval(nodes, env), Flattened(nodes, op, id));
            && (op.OpAdd? ==> FromInt(SumOf(vals, terms), Width(nodes, id)) == BvAt(vals, id))
            && (op.OpMul? ==> FromInt(ProductOf(vals, terms), Width(nodes, id)) == BvAt(vals, id))
    decreases id
  {
    hide Eval, WellFormed, FromInt, Val, SumOf, ProductOf;
    var vals := Eval(nodes, env);
    if IsBinary(nodes, id, op) {
      OperandsBelow(nodes, id);
      var a, b := nodes[id].kind.a, nodes[id].kind.b;
      FlattenedValue(nodes, op, a, env);
      FlattenedValue(nodes, op, b, env);
      FlattenedJoin(nodes, op, id, env, Flattened(nodes, op, a), Flattened(nodes, op, b));
    } else {
      VectorValue(nodes, env, id);
      FromIntVal(BvAt(vals, id));
      SingleTotal(vals, id);
    }
  }

  lemma {:induction false} SingleTotal(vals: seq<Value>, t: TermId)
    ensures SumOf(vals, [t]) == ProductOf(vals, [t]) == Val(BvAt(vals, t))
  {
    assert [t][1..] == [];
  }

  lemma {:induction false} FlattenedJoin(nodes: seq<Node>, op: BinaryOp, id: TermId, env: Env, s: seq<TermId>,
                                         t: seq<TermId>)
    requires WellFormed(nodes) && IsBinary(nodes, id, op)
    requires var (vals, k) := (Eval(nodes, env), nodes[id].kind);
             && (op.OpAdd? ==>
                   FromInt(SumOf(vals, s), Width(nodes, k.a)) == BvAt(vals, k.a)
                     && FromInt(SumOf(vals, t), Width(nodes, k.b)) == BvAt(vals, k.b))
             && (op.OpMul? ==>
                   FromInt(ProductOf(vals, s), Width(nodes, k.a)) == BvAt(vals, k.a)
                     && FromInt(ProductOf(vals, t), Width(nodes, k.b)) == BvAt(vals, k.b))
    ensures op.OpAdd? ==> FromInt(SumOf(Eval(nodes, env), s + t), Width(nodes, id)) == BvAt(Eval(nodes, env), id)
    ensures op.OpMul? ==> FromInt(ProductOf(Eval(nodes, env), s + t), Width(nodes, id)) == BvAt(Eval(nodes, env), id)
  {
    hide Eval, WellFormed, FromInt, Val, SumOf, ProductOf;
    var vals := Eval(nodes, env);
    BinaryTermValue(nodes, env, id);
    SumAppend(vals, s, t);
    ResidueOps(SumOf(vals, s), SumOf(vals, t), Width(nodes, id));
    ResidueOps(ProductOf(vals, s), ProductOf(vals, t), Width(nodes, id));
  }

  // -------------------------------------------------------------------------------- sorting

  function InsertId(t: TermId, terms: seq<TermId>): seq<TermId> {
    if terms == [] || t <= terms[0] then [t] + terms else [terms[0]] + InsertId(t, terms[1..])
  }

  function SortIds(terms: seq<TermId>): seq<TermId> {
    if terms == [] then [] else InsertId(terms[0], SortIds(terms[1..]))
  }

  lemma {:induction false} InsertKeeps(vals: seq<Value>, t: TermId, terms: seq<TermId>)
    ensures multiset(InsertId(t, terms)) == multiset(terms) + multiset{t}
    ensures SumOf(vals, InsertId(t, terms)) == Val(BvAt(vals, t)) + SumOf(vals, terms)
    ensures ProductOf(vals, InsertId(t, terms)) == Val(BvAt(vals, t)) * ProductOf(vals, terms)
  {
    var r := InsertId(t, terms);
    if terms == [] || t <= terms[0] {
      assert r[1..] == terms;
    } else {
      InsertKeeps(vals, t, terms[1..]);
      assert r[1..] == InsertId(t, terms[1..]);
      assert terms == [terms[0]] + terms[1..];
      hide Val;
      Associate(Val(BvAt(vals, terms[0])), Val(BvAt(vals, t)), ProductOf(vals, terms[1..]));
    }
  }

  /** Sorting permutes the terms, so it keeps their sum and product. */
  lemma {:induction false} SortKeeps(vals: seq<Value>, terms: seq<TermId>)
    ensures multiset(SortIds(terms)) == multiset(terms)
    ensures SumOf(vals, SortIds(terms)) == SumOf(vals, terms)
    ensures ProductOf(vals, SortIds(terms)) == ProductOf(vals, terms)
  {
    hide InsertId, Val, BvAt;
    if terms != [] {
      SortKeeps(vals, terms[1..]);
      InsertKeeps(vals, terms[0], SortIds(terms[1..]));
      assert terms == [terms[0]] + terms[1..];
    }
  }

  lemma {:induction false} SortedShape(nodes: seq<Node>, terms: seq<TermId>, width: nat)
    requires AllBv(nodes, terms, width)
    ensures AllBv(nodes, SortIds(terms), width) && |SortIds(terms)| == |terms|
  {
    SortKeeps([], terms);
    var r := SortIds(terms);
    assert |r| == |multiset(r)| == |multiset(terms)| == |terms|;
    forall i | 0 <= i < |r| ensures IsBv(nodes, |nodes|, r[i]) && Width(nodes, r[i]) == width {
      assert r[i] in multiset(r);
      assert r[i] in terms;
    }
  }

  function InsertScaled(t: Scaled, terms: seq<Scaled>): seq<Scaled> {
    if terms == [] || t.base <= terms[0].base then [t] + terms else [terms[0]] + InsertScaled(t, terms[1..])
  }

  function SortScaled(terms: seq<Scaled>): seq<Scaled> {
    if terms == [] then [] else InsertScaled(terms[0], SortScaled(terms[1..]))
  }

  predicate ScaledOk(nodes: seq<Node>, terms: seq<Scaled>, width: nat) {
    forall i {:trigger terms[i]} :: 0 <= i < |terms| ==>
      IsBv(nodes, |nodes|, terms[i].base) && Width(nodes, terms[i].base) == width
        && Normalized(terms[i].coefficient, width)
  }

  lemma {:induction false} InsertScaledKeeps(vals: seq<Value>, t: Scaled, terms: seq<Scaled>)
    ensures ScaledSum(vals, InsertScaled(t, terms)) == BytesVal(t.coefficient) * Val(BvAt(vals, t.base)) +
              ScaledSum(vals, terms)
  {
    var r := InsertScaled(t, terms);
    if terms == [] || t.base <= terms[0].base {
      assert r[1..] == terms;
    } else {
      InsertScaledKeeps(vals, t, terms[1..]);
      assert r[1..] == InsertScaled(t, terms[1..]);
    }
  }

  lemma {:induction false} SortScaledKeeps(vals: seq<Value>, terms: seq<Scaled>)
    ensures ScaledSum(vals, SortScaled(terms)) == ScaledSum(vals, terms)
  {
    if terms != [] {
      SortScaledKeeps(vals, terms[1..]);
      InsertScaledKeeps(vals, terms[0], SortScaled(terms[1..]));
    }
  }

  lemma {:induction false} InsertScaledShape(nodes: seq<Node>, t: Scaled, terms: seq<Scaled>, width: nat)
    requires ScaledOk(nodes, [t], width) && ScaledOk(nodes, terms, width)
    ensures ScaledOk(nodes, InsertScaled(t, terms), width)
  {
    hide Normalized;
    assert [t][0] == t;
    if !(terms == [] || t.base <= terms[0].base) {
      InsertScaledShape(nodes, t, terms[1..], width);
    }
  }

  lemma {:induction false} SortScaledShape(nodes: seq<Node>, terms: seq<Scaled>, width: nat)
    requires ScaledOk(nodes, terms, width)
    ensures ScaledOk(nodes, SortScaled(terms), width)
  {
    hide Normalized;
    if terms != [] {
      SortScaledShape(nodes, terms[1..], width);
      assert ScaledOk(nodes, [terms[0]], width);
      InsertScaledShape(nodes, terms[0], SortScaled(terms[1..]), width);
    }
  }

  // -------------------------------------------------------------------------- coefficients

  /** Reads `c * x` and `x * c` as a scaled term, anything else as itself times one. */
  function ScaledTerm(nodes: seq<Node>, term: TermId, width: nat): Scaled
    requires width > 0
  {
    if !IsBinary(nodes, term, OpMul) then Scaled(term, OneBytes(width))
    else if IsConst(nodes, nodes[term].kind.a) then Scaled(nodes[term].kind.b, ConstBytesOf(nodes, nodes[term].kind.a))
    else if IsConst(nodes, nodes[term].kind.b) then Scaled(nodes[term].kind.a, ConstBytesOf(nodes, nodes[term].kind.b))
    else Scaled(term, OneBytes(width))
  }

  lemma {:induction false} ScaledTermValue(nodes: seq<Node>, term: TermId, width: nat, env: Env)
    requires WellFormed(nodes) && IsBv(nodes, |nodes|, term) && Width(nodes, term) == width > 0
    ensures var (s, vals) := (ScaledTerm(nodes, term, width), Eval(nodes, env));
            && ScaledOk(nodes, [s], width)
            && Same(BytesVal(s.coefficient) * Val(BvAt(vals, s.base)), Val(BvAt(vals, term)), width)
  {
    hide Eval, WellFormed, FromInt, Val, Normalized, Decoded, BytesVal, OneBytes, AllZero;
    var s, vals := ScaledTerm(nodes, term, width), Eval(nodes, env);
    OneBytesValue(width);
    assert [s][0] == s;
    if IsBinary(nodes, term, OpMul) && (IsConst(nodes, nodes[term].kind.a) || IsConst(nodes, nodes[term].kind.b)) {
      var k := nodes[term].kind;
      BinaryTermValue(nodes, env, term);
      var c := if IsConst(nodes, k.a) then k.a else k.b;
      ConstValue(nodes, env, c);
      NormalizedVal(ConstBytesOf(nodes, c), width);
      var u, v := Val(BvAt(vals, k.a)), Val(BvAt(vals, k.b));
      assert u * v == v * u;
      FromIntVal(BvAt(vals, term));
    } else {
      assert 1 * Val(BvAt(vals, term)) == Val(BvAt(vals, term));
    }
  }

  /** Values of older terms are the same in an extended arena. */
  lemma {:induction false} SumKept(vals: seq<Value>, more: seq<Value>, terms: seq<TermId>)
    requires vals <= more && forall i :: 0 <= i < |terms| ==> terms[i] < |vals|
    ensures SumOf(more, terms) == SumOf(vals, terms) && ProductOf(more, terms) == ProductOf(vals, terms)
  {
    if terms != [] {
      SumKept(vals, more, terms[1..]);
    }
  }
}
