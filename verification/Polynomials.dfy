/** Terms as polynomials over Z/2^w, and the equality test built on them. */
module Polynomials {
  import opened BitVectors
  import opened Bytes
  import opened ByteOps
  import opened Wrappers
  import opened Ir
  import opened Terms
  import opened Identities
  import opened Masks

  const MAX_POLYNOMIAL_WIDTH: nat := 128
  const POLYNOMIAL_BUDGET: nat := 512
  const MAX_MONOMIAL_LENGTH: nat := 16
  const MAX_POLYNOMIAL_LENGTH: nat := 512

  /** A product of terms, in increasing order. */
  type Monomial = seq<TermId>

  /** Nonzero normalised coefficients of distinct monomials. */
  type Polynomial = map<Monomial, seq<Byte>>

  predicate PolyOk(p: Polynomial, width: nat) {
    forall m :: m in p ==> Normalized(p[m], width) && !AllZero(p[m])
  }

  /** The same residue modulo 2^w. */
  predicate Same(m: int, n: int, w: nat) { FromInt(m, w) == FromInt(n, w) }

  ghost function MonomialValue(vals: seq<Value>, m: Monomial): int {
    if m == [] then 1 else Val(BvAt(vals, m[0])) * MonomialValue(vals, m[1..])
  }

  ghost function Term(vals: seq<Value>, p: Polynomial, m: Monomial): int
    requires m in p
  {
    BytesVal(p[m]) * MonomialValue(vals, m)
  }

  ghost function Sum(vals: seq<Value>, p: Polynomial, keys: set<Monomial>): int
    requires keys <= p.Keys
  {
    if keys == {} then 0 else
      var m :| m in keys;
      Term(vals, p, m) + Sum(vals, p, keys - {m})
  }

  /** The integer the polynomial has under the values of the terms. */
  ghost function PolyValue(vals: seq<Value>, p: Polynomial): int { Sum(vals, p, p.Keys) }

  // -------------------------------------------------------------------------- residues

  lemma {:induction false} SameAdd(a: int, b: int, c: int, d: int, w: nat)
    requires Same(a, b, w) && Same(c, d, w)
    ensures Same(a + c, b + d, w)
  {
    hide FromInt, Val;
    FromIntAdd(a, c, w);
    FromIntAdd(b, d, w);
  }

  lemma {:induction false} SameMul(a: int, b: int, c: int, d: int, w: nat)
    requires Same(a, b, w) && Same(c, d, w)
    ensures Same(a * c, b * d, w)
  {
    hide FromInt, Val;
    FromIntMul(a, c, w);
    FromIntMul(b, d, w);
  }

  lemma {:induction false} BytesResidue(bytes: seq<Byte>, n: int, width: nat)
    requires Normalized(bytes, width) && Decoded(bytes, width) == FromInt(n, width)
    ensures Same(BytesVal(bytes), n, width)
  {
    hide FromInt, Val, Decoded, BytesVal;
    BytesForBounds(width);
    DecodedIsLowBits(bytes, width);
  }

  // ----------------------------------------------------------------------------- sums

  lemma {:induction false} SumTake(vals: seq<Value>, p: Polynomial, keys: set<Monomial>, m: Monomial)
    requires keys <= p.Keys && m in keys
    ensures Sum(vals, p, keys) == Term(vals, p, m) + Sum(vals, p, keys - {m})
    decreases keys
  {
    hide Term;
    var k :| m in keys && k in keys && Sum(vals, p, keys) == Term(vals, p, k) + Sum(vals, p, keys - {k});
    if k != m {
      SumTake(vals, p, keys - {k}, m);
      SumTake(vals, p, keys - {m}, k);
      assert keys - {k} - {m} == keys - {m} - {k};
    }
  }

  lemma {:induction false} SumSame(vals: seq<Value>, p: Polynomial, q: Polynomial, keys: set<Monomial>)
    requires keys <= p.Keys && keys <= q.Keys && forall m :: m in keys ==> p[m] == q[m]
    ensures Sum(vals, p, keys) == Sum(vals, q, keys)
    decreases keys
  {
    if keys != {} {
      var m :| m in keys;
      SumTake(vals, p, keys, m);
      SumTake(vals, q, keys, m);
      SumSame(vals, p, q, keys - {m});
    }
  }

  lemma {:induction false} SumWith(vals: seq<Value>, p: Polynomial, m: Monomial, c: seq<Byte>)
    ensures PolyValue(vals, p[m := c]) == BytesVal(c) * MonomialValue(vals, m) + PolyValue(vals, p - {m})
    ensures m in p ==> PolyValue(vals, p) == Term(vals, p, m) + PolyValue(vals, p - {m})
    ensures m !in p ==> PolyValue(vals, p) == PolyValue(vals, p - {m})
  {
    var q := p[m := c];
    SumTake(vals, q, q.Keys, m);
    assert q.Keys - {m} == (p - {m}).Keys;
    SumSame(vals, q, p - {m}, q.Keys - {m});
    if m in p {
      SumTake(vals, p, p.Keys, m);
      assert p.Keys - {m} == (p - {m}).Keys;
      SumSame(vals, p, p - {m}, p.Keys - {m});
    } else {
      assert p - {m} == p;
    }
  }

  // --------------------------------------------------------------- adding a coefficient

  method AddAssign(p: Polynomial, monomial: Monomial, coefficient: seq<Byte>, width: nat) returns (out: Polynomial)
    requires PolyOk(p, width) && Normalized(coefficient, width)
    ensures PolyOk(out, width)
    ensures forall vals: seq<Value> {:trigger PolyValue(vals, out)} ::
              Same(PolyValue(vals, out), PolyValue(vals, p) + BytesVal(coefficient) * MonomialValue(vals, monomial),
                   width)
  {
    hide FromInt, Val, Decoded, BytesVal, GetBit, PolyValue, MonomialValue, Normalized;
    if AllZero(coefficient) {
      ZeroCoefficient(coefficient);
      return p;
    }
    var updated := coefficient;
    if monomial in p {
      updated := AddBytes(p[monomial], coefficient, width) by {
        NormalizedSized(p[monomial], width);
        NormalizedSized(coefficient, width);
      }
      CoefficientSum(p[monomial], coefficient, updated, width);
    }
    if AllZero(updated) {
      ZeroCoefficient(updated);
      out := p - {monomial};
    } else {
      out := p[monomial := updated];
    }
    forall vals: seq<Value>
      ensures Same(PolyValue(vals, out), PolyValue(vals, p) + BytesVal(coefficient) * MonomialValue(vals, monomial),
                   width)
    {
      SumWith(vals, p, monomial, updated);
      var v, rest := MonomialValue(vals, monomial), PolyValue(vals, p - {monomial});
      if monomial in p {
        var was := BytesVal(p[monomial]);
        SameMul(BytesVal(updated), was + BytesVal(coefficient), v, v, width);
        SameAdd(BytesVal(updated) * v, (was + BytesVal(coefficient)) * v, rest, rest, width);
        Distribute(was, BytesVal(coefficient), v);
      }
      assert AllZero(updated) ==> BytesVal(updated) * v == 0;
    }
  }

  lemma {:induction false} NormalizedSized(bytes: seq<Byte>, width: nat)
    requires Normalized(bytes, width)
    ensures Sized(bytes, width)
  {}

  lemma {:induction false} ZeroCoefficient(bytes: seq<Byte>)
    requires AllZero(bytes)
    ensures BytesVal(bytes) == 0 && forall v: int :: BytesVal(bytes) * v == 0
  {
    assert bytes == seq(|bytes|, _ => 0);
    ZeroVal(|bytes|);
  }

  lemma {:induction false} CoefficientSum(a: seq<Byte>, b: seq<Byte>, sum: seq<Byte>, width: nat)
    requires Normalized(a, width) && Normalized(b, width) && Normalized(sum, width)
    requires Decoded(sum, width) == BvAdd(Decoded(a, width), Decoded(b, width))
    ensures Same(BytesVal(sum), BytesVal(a) + BytesVal(b), width)
  {
    hide FromInt, Val, Decoded, BytesVal, GetBit, Normalized;
    NormalizedVal(a, width);
    NormalizedVal(b, width);
    BytesResidue(sum, BytesVal(a) + BytesVal(b), width);
  }

  lemma {:induction false} CoefficientProduct(a: seq<Byte>, b: seq<Byte>, product: seq<Byte>, width: nat)
    requires Normalized(a, width) && Normalized(b, width) && Normalized(product, width)
    requires Decoded(product, width) == BvMul(Decoded(a, width), Decoded(b, width))
    ensures Same(BytesVal(product), BytesVal(a) * BytesVal(b), width)
  {
    hide FromInt, Val, Decoded, BytesVal, GetBit, Normalized;
    NormalizedVal(a, width);
    NormalizedVal(b, width);
    BytesResidue(product, BytesVal(a) * BytesVal(b), width);
  }

  lemma {:induction false} CoefficientNeg(a: seq<Byte>, neg: seq<Byte>, width: nat)
    requires Normalized(a, width) && Normalized(neg, width)
    requires Decoded(neg, width) == BvNeg(Decoded(a, width))
    ensures Same(BytesVal(neg), -BytesVal(a), width)
  {
    hide FromInt, Val, Decoded, BytesVal, GetBit, Normalized;
    NormalizedVal(a, width);
    BytesResidue(neg, -BytesVal(a), width);
  }

  // ------------------------------------------------------------------------ ring operations

  /** How a coefficient is changed on its way into another polynomial. */
  datatype Transform = Keep | Negate | ScaleBy(factor: seq<Byte>)

  function FactorOf(t: Transform): int {
    match t
    case Keep => 1
    case Negate => -1
    case ScaleBy(factor) => BytesVal(factor)
  }

  method TransformBytes(t: Transform, bytes: seq<Byte>, width: nat) returns (out: seq<Byte>)
    requires Normalized(bytes, width) && (t.ScaleBy? ==> Normalized(t.factor, width))
    ensures Normalized(out, width) && Same(BytesVal(out), FactorOf(t) * BytesVal(bytes), width)
  {
    hide FromInt, Val, Decoded, BytesVal, GetBit;
    match t {
      case Keep => out := bytes;
      case Negate =>
        out := NegBytes(bytes, width);
        CoefficientNeg(bytes, out, width);
        assert -1 * BytesVal(bytes) == -BytesVal(bytes);
      case ScaleBy(factor) =>
        out := MulBytes(bytes, factor, width);
        CoefficientProduct(bytes, factor, out, width);
        assert BytesVal(bytes) * BytesVal(factor) == BytesVal(factor) * BytesVal(bytes);
    }
  }

  /** Adds every term of `p`, transformed, to `start`: the loop of sum, difference, negation and
      scaling.  The order of the terms does not matter. */
  method Accumulate(start: Polynomial, p: Polynomial, t: Transform, width: nat) returns (out: Polynomial)
    requires PolyOk(start, width) && PolyOk(p, width) && (t.ScaleBy? ==> Normalized(t.factor, width))
    ensures PolyOk(out, width)
    ensures forall vals: seq<Value> {:trigger PolyValue(vals, out)} ::
              Same(PolyValue(vals, out), PolyValue(vals, start) + FactorOf(t) * PolyValue(vals, p), width)
  {
    hide FromInt, Val, Decoded, BytesVal, GetBit, MonomialValue, Normalized, PolyValue, Sum, FactorOf, PolyOk;
    out := start;
    var keys := p.Keys;
    forall vals: seq<Value> ensures Sum(vals, p, keys) == PolyValue(vals, p) { WholeSum(vals, p); }
    ghost var f := FactorOf(t);
    while keys != {}
      invariant keys <= p.Keys && PolyOk(out, width)
      invariant forall vals: seq<Value> {:trigger PolyValue(vals, out)} ::
                  Same(PolyValue(vals, out) + f * Sum(vals, p, keys), PolyValue(vals, start) + f * PolyValue(vals, p),
                       width)
      decreases |keys|
    {
      ghost var was, before := out, keys;
      var m :| m in keys;
      OkAt(p, m, width);
      var coefficient := TransformBytes(t, p[m], width);
      out := AddAssign(out, m, coefficient, width);
      keys := keys - {m};
      forall vals: seq<Value>
        ensures Same(PolyValue(vals, out) + f * Sum(vals, p, keys), PolyValue(vals, start) + f * PolyValue(vals, p),
                     width)
      {
        SumTake(vals, p, before, m);
        TermMoved(PolyValue(vals, out), PolyValue(vals, was), BytesVal(coefficient), BytesVal(p[m]), f,
                  MonomialValue(vals, m),
                  Sum(vals, p, keys), Sum(vals, p, before), width);
      }
    }
    forall vals: seq<Value> ensures Same(PolyValue(vals, out), PolyValue(vals, start) + f * PolyValue(vals, p), width) {
      EmptySum(vals, p);
    }
  }

  lemma {:induction false} OkAt(p: Polynomial, m: Monomial, width: nat)
    requires PolyOk(p, width) && m in p
    ensures Normalized(p[m], width) && !AllZero(p[m])
  {}

  lemma {:induction false} WholeSum(vals: seq<Value>, p: Polynomial)
    ensures Sum(vals, p, p.Keys) == PolyValue(vals, p)
  {}

  lemma {:induction false} EmptySum(vals: seq<Value>, p: Polynomial)
    ensures Sum(vals, p, {}) == 0
  {}

  lemma {:induction false} TermMoved(now: int, was: int, moved: int, c: int, f: int, v: int, rest: int, before: int,
                                     w: nat)
    requires Same(now, was + moved * v, w) && Same(moved, f * c, w) && before == c * v + rest
    ensures Same(now + f * rest, was + f * before, w)
  {
    hide FromInt;
    SameMul(moved, f * c, v, v, w);
    SameAdd(was, was, moved * v, f * c * v, w);
    SameAdd(now, was + f * c * v, f * rest, f * rest, w);
    Distribute(c * v, rest, f);
    Associate(f, c, v);
  }

  method PolyAdd(left: Polynomial, right: Polynomial, width: nat) returns (out: Polynomial)
    requires PolyOk(left, width) && PolyOk(right, width)
    ensures PolyOk(out, width)
    ensures forall vals: seq<Value> {:trigger PolyValue(vals, out)} ::
              Same(PolyValue(vals, out), PolyValue(vals, left) + PolyValue(vals, right), width)
  {
    hide PolyValue, PolyOk, FromInt;
    out := Accumulate(left, right, Keep, width);
  }

  method PolySub(left: Polynomial, right: Polynomial, width: nat) returns (out: Polynomial)
    requires PolyOk(left, width) && PolyOk(right, width)
    ensures PolyOk(out, width)
    ensures forall vals: seq<Value> {:trigger PolyValue(vals, out)} ::
              Same(PolyValue(vals, out), PolyValue(vals, left) - PolyValue(vals, right), width)
  {
    hide PolyValue, PolyOk, FromInt;
    out := Accumulate(left, right, Negate, width);
  }

  method PolyNeg(p: Polynomial, width: nat) returns (out: Polynomial)
    requires PolyOk(p, width)
    ensures PolyOk(out, width)
    ensures forall vals: seq<Value> {:trigger PolyValue(vals, out)} ::
              Same(PolyValue(vals, out), -PolyValue(vals, p), width)
  {
    hide PolyValue, FromInt;
    forall vals: seq<Value> ensures PolyValue(vals, map[]) == 0 { EmptyPolynomial(vals); }
    out := Accumulate(map[], p, Negate, width);
  }

  lemma {:induction false} EmptyPolynomial(vals: seq<Value>)
    ensures PolyValue(vals, map[]) == 0
  {
    var p: Polynomial := map[];
    assert p.Keys == {};
  }

  method PolyScale(p: Polynomial, factor: seq<Byte>, width: nat) returns (out: Polynomial)
    requires PolyOk(p, width) && Normalized(factor, width)
    ensures PolyOk(out, width)
    ensures forall vals: seq<Value> {:trigger PolyValue(vals, out)} ::
              Same(PolyValue(vals, out), BytesVal(factor) * PolyValue(vals, p), width)
  {
    hide PolyValue, FromInt, BytesVal, Normalized;
    forall vals: seq<Value> ensures PolyValue(vals, map[]) == 0 { EmptyPolynomial(vals); }
    if AllZero(factor) {
      ZeroCoefficient(factor);
      return map[];
    }
    out := Accumulate(map[], p, ScaleBy(factor), width);
  }

  // -------------------------------------------------------------------------- products

  function InsertTerm(t: TermId, m: Monomial): Monomial {
    if m == [] || t <= m[0] then [t] + m else [m[0]] + InsertTerm(t, m[1..])
  }

  function SortMonomial(m: Monomial): (r: Monomial) {
    if m == [] then [] else InsertTerm(m[0], SortMonomial(m[1..]))
  }

  lemma {:induction false} InsertedValue(vals: seq<Value>, t: TermId, m: Monomial)
    ensures |InsertTerm(t, m)| == |m| + 1
    ensures MonomialValue(vals, InsertTerm(t, m)) == Val(BvAt(vals, t)) * MonomialValue(vals, m)
  {
    var r := InsertTerm(t, m);
    if m == [] || t <= m[0] {
      assert r[1..] == m;
    } else {
      InsertedValue(vals, t, m[1..]);
      assert r[1..] == InsertTerm(t, m[1..]);
      hide Val;
      Associate(Val(BvAt(vals, m[0])), Val(BvAt(vals, t)), MonomialValue(vals, m[1..]));
    }
  }

  /** Sorting a monomial keeps its value. */
  lemma {:induction false} SortedValue(vals: seq<Value>, m: Monomial)
    ensures |SortMonomial(m)| == |m| && MonomialValue(vals, SortMonomial(m)) == MonomialValue(vals, m)
  {
    if m != [] {
      SortedValue(vals, m[1..]);
      InsertedValue(vals, m[0], SortMonomial(m[1..]));
    }
  }

  lemma {:induction false} JoinedValue(vals: seq<Value>, l: Monomial, m: Monomial)
    ensures MonomialValue(vals, l + m) == MonomialValue(vals, l) * MonomialValue(vals, m)
  {
    if l == [] {
      assert l + m == m;
    } else {
      assert (l + m)[1..] == l[1..] + m;
      JoinedValue(vals, l[1..], m);
      hide Val;
      Associate(Val(BvAt(vals, l[0])), MonomialValue(vals, l[1..]), MonomialValue(vals, m));
    }
  }

  /** Multiplies one term of the left factor with all terms of the right one. */
  method PolyMulRow(start: Polynomial, l: Monomial, c: seq<Byte>, right: Polynomial, width: nat)
      returns (r: Option<Polynomial>)
    requires PolyOk(start, width) && PolyOk(right, width) && Normalized(c, width)
    ensures r.Some? ==> PolyOk(r.value, width)
    ensures r.Some? ==> forall vals: seq<Value> {:trigger PolyValue(vals, r.value)} ::
              Same(PolyValue(vals, r.value),
                   PolyValue(vals, start) + BytesVal(c) * MonomialValue(vals, l) * PolyValue(vals, right), width)
  {
    hide FromInt, Val, Decoded, BytesVal, GetBit, MonomialValue, Normalized, PolyValue, Sum, PolyOk;
    var out := start;
    var keys := right.Keys;
    forall vals: seq<Value> ensures Sum(vals, right, keys) == PolyValue(vals, right) { WholeSum(vals, right); }
    while keys != {}
      invariant keys <= right.Keys && PolyOk(out, width)
      invariant forall vals: seq<Value> {:trigger PolyValue(vals, out)} ::
                  var f := BytesVal(c) * MonomialValue(vals, l);
                  Same(PolyValue(vals, out) + f * Sum(vals, right, keys),
                       PolyValue(vals, start) + f * PolyValue(vals, right), width)
      decreases |keys|
    {
      ghost var was, before := out, keys;
      var m :| m in keys;
      OkAt(right, m, width);
      var monomial := SortMonomial(l + m);
      if |monomial| > MAX_MONOMIAL_LENGTH { return None; }
      var coefficient := MulBytes(c, right[m], width) by {
        NormalizedSized(c, width);
        NormalizedSized(right[m], width);
      }
      CoefficientProduct(c, right[m], coefficient, width);
      out := AddAssign(out, monomial, coefficient, width);
      if |out| > MAX_POLYNOMIAL_LENGTH { return None; }
      keys := keys - {m};
      forall vals: seq<Value>
        ensures var f := BytesVal(c) * MonomialValue(vals, l);
                Same(PolyValue(vals, out) + f * Sum(vals, right, keys),
                     PolyValue(vals, start) + f * PolyValue(vals, right), width)
      {
        SumTake(vals, right, before, m);
        SortedValue(vals, l + m);
        JoinedValue(vals, l, m);
        ProductMoved(PolyValue(vals, out), PolyValue(vals, was), BytesVal(coefficient), BytesVal(c), BytesVal(right[m]),
                     MonomialValue(vals, l), MonomialValue(vals, m), Sum(vals, right, keys), Sum(vals, right, before),
                     width);
      }
    }
    forall vals: seq<Value>
      ensures Same(PolyValue(vals, out),
                   PolyValue(vals, start) + BytesVal(c) * MonomialValue(vals, l) * PolyValue(vals, right), width)
    {
      EmptySum(vals, right);
    }
    r := Some(out);
  }

  lemma {:induction false} ProductMoved(now: int, was: int, moved: int, c: int, d: int, u: int, v: int, rest: int,
                                        before: int, w: nat)
    requires Same(now, was + moved * (u * v), w) && Same(moved, c * d, w) && before == d * v + rest
    ensures Same(now + (c * u) * rest, was + (c * u) * before, w)
  {
    hide FromInt;
    SameMul(moved, c * d, u * v, u * v, w);
    SameAdd(was, was, moved * (u * v), (c * d) * (u * v), w);
    SameAdd(now, was + (c * d) * (u * v), (c * u) * rest, (c * u) * rest, w);
    Distribute(d * v, rest, c * u);
    Rearrange(c, d, u, v);
    Rearrange(c, u, d, v);
    assert d * u == u * d;
  }

  /** The product, unless a monomial or the polynomial grows too long. */
  method PolyMul(left: Polynomial, right: Polynomial, width: nat) returns (r: Option<Polynomial>)
    requires PolyOk(left, width) && PolyOk(right, width)
    ensures r.Some? ==> PolyOk(r.value, width)
    ensures r.Some? ==> forall vals: seq<Value> {:trigger PolyValue(vals, r.value)} ::
              Same(PolyValue(vals, r.value), PolyValue(vals, left) * PolyValue(vals, right), width)
  {
    hide FromInt, Val, Decoded, BytesVal, GetBit, MonomialValue, Normalized, PolyValue, Sum, PolyOk;
    var out: Polynomial := map[];
    EmptyOk(width);
    var keys := left.Keys;
    forall vals: seq<Value> ensures Sum(vals, left, keys) == PolyValue(vals, left) { WholeSum(vals, left); }
    forall vals: seq<Value> ensures PolyValue(vals, out) == 0 { EmptyPolynomial(vals); }
    while keys != {}
      invariant keys <= left.Keys && PolyOk(out, width)
      invariant forall vals: seq<Value> {:trigger PolyValue(vals, out)} ::
                  Same(PolyValue(vals, out) + Sum(vals, left, keys) * PolyValue(vals, right),
                       PolyValue(vals, left) * PolyValue(vals, right), width)
      decreases |keys|
    {
      ghost var was, before := out, keys;
      var m :| m in keys;
      OkAt(left, m, width);
      var row := PolyMulRow(out, m, left[m], right, width);
      if row.None? { return None; }
      out := row.value;
      keys := keys - {m};
      forall vals: seq<Value>
        ensures Same(PolyValue(vals, out) + Sum(vals, left, keys) * PolyValue(vals, right),
                     PolyValue(vals, left) * PolyValue(vals, right), width)
      {
        SumTake(vals, left, before, m);
        var t, q := Term(vals, left, m), PolyValue(vals, right);
        Distribute(t, Sum(vals, left, keys), q);
        SameAdd(PolyValue(vals, out), PolyValue(vals, was) + t * q, Sum(vals, left, keys) * q,
                Sum(vals, left, keys) * q, width);
      }
    }
    forall vals: seq<Value> ensures Same(PolyValue(vals, out), PolyValue(vals, left) * PolyValue(vals, right), width) {
      EmptySum(vals, left);
    }
    r := Some(out);
  }

  lemma {:induction false} EmptyOk(width: nat)
    ensures PolyOk(map[], width)
  {}

  // ---------------------------------------------------------------- terms as polynomials

  /** The polynomial has the term's value under every assignment. */
  ghost predicate PolynomialOf(nodes: seq<Node>, term: TermId, width: nat, p: Polynomial) {
    && IsBv(nodes, |nodes|, term) && Width(nodes, term) == width && PolyOk(p, width)
    && forall env: Env {:trigger Eval(nodes, env)} ::
         FromInt(PolyValue(Eval(nodes, env), p), width) == BvAt(Eval(nodes, env), term)
  }

  method ConstantPolynomial(bytes: seq<Byte>, width: nat) returns (p: Polynomial)
    requires Normalized(bytes, width)
    ensures PolyOk(p, width)
    ensures forall vals: seq<Value> {:trigger PolyValue(vals, p)} :: PolyValue(vals, p) == BytesVal(bytes)
  {
    hide BytesVal, Normalized, PolyValue;
    p := map[];
    forall vals: seq<Value> ensures PolyValue(vals, p) == 0 { EmptyPolynomial(vals); }
    if AllZero(bytes) {
      ZeroCoefficient(bytes);
    } else {
      forall vals: seq<Value>
        ensures PolyValue(vals, map[[] := bytes]) == BytesVal(bytes)
      {
        SingleTerm(vals, [], bytes);
      }
      p := map[[] := bytes];
    }
  }

  lemma {:induction false} SingleTerm(vals: seq<Value>, m: Monomial, c: seq<Byte>)
    ensures PolyValue(vals, map[m := c]) == BytesVal(c) * MonomialValue(vals, m)
  {
    hide BytesVal, MonomialValue, PolyValue;
    var empty: Polynomial := map[];
    SumWith(vals, empty, m, c);
    assert empty[m := c] == map[m := c] && empty - {m} == empty;
    EmptyPolynomial(vals);
  }

  /** The byte string of the number one. */
  function OneBytes(width: nat): (r: seq<Byte>)
    requires width > 0
  {
    seq(BytesFor(width), i => if i == 0 then 1 else 0)
  }

  lemma {:induction false} OneBytesValue(width: nat)
    requires width > 0
    ensures Normalized(OneBytes(width), width) && BytesVal(OneBytes(width)) == 1 && !AllZero(OneBytes(width))
    ensures Decoded(OneBytes(width), width) == FromInt(1, width) && Val(FromInt(1, width)) == 1
  {
    var one, n := OneBytes(width), BytesFor(width);
    assert one[0] == 1;
    assert one[1..] == seq(n - 1, _ => 0);
    ZeroVal(n - 1);
    hide Val, FromInt;
    forall i: nat ensures GetBit(one, i) == (i == 0) {
      if i / 8 < n { OneByteBit(i % 8); if i / 8 > 0 { ZeroBits(i % 8); } }
    }
    BytesForBounds(width);
    DecodedIsLowBits(one, width);
    Pow2Monotone(1, width);
    OneBelow();
    ValFromInt(1, width);
  }

  lemma {:induction false} OneBelow()
    ensures Pow2(1) == 2
  {}

  lemma {:induction false} OneByteBit(k: nat)
    requires k < 8
    ensures FromInt(1, 8)[k] == (k == 0)
  {
    ValZeros(7);
    assert FromInt(1, 8) == [true] + FromInt(0, 7);
  }

  method AtomPolynomial(nodes: seq<Node>, term: TermId, width: nat) returns (p: Polynomial)
    requires WellFormed(nodes) && IsBv(nodes, |nodes|, term) && Width(nodes, term) == width
    ensures PolynomialOf(nodes, term, width, p)
  {
    hide Eval, Val, FromInt, BytesVal, Normalized, WellFormed, PolyValue, OneBytes, AllZero;
    ghost var env0: Env := Env(_ => false, _ => 0);
    VectorValue(nodes, env0, term);
    OneBytesValue(width);
    p := map[[term] := OneBytes(width)];
    forall env: Env ensures FromInt(PolyValue(Eval(nodes, env), p), width) == BvAt(Eval(nodes, env), term) {
      var vals := Eval(nodes, env);
      SingleTerm(vals, [term], OneBytes(width));
      VectorValue(nodes, env, term);
      FromIntVal(BvAt(vals, term));
      assert [term][1..] == [];
    }
  }

  lemma {:induction false} ConstTerm(nodes: seq<Node>, term: TermId, width: nat, p: Polynomial)
    requires WellFormed(nodes) && IsConst(nodes, term) && Width(nodes, term) == width && PolyOk(p, width)
    requires forall vals: seq<Value> {:trigger PolyValue(vals, p)} ::
               PolyValue(vals, p) == BytesVal(ConstBytesOf(nodes, term))
    ensures PolynomialOf(nodes, term, width, p)
  {
    hide Eval, Val, FromInt, BytesVal, WellFormed, PolyValue, Decoded, Normalized, PolyOk;
    ghost var env0: Env := Env(_ => false, _ => 0);
    ConstValue(nodes, env0, term);
    forall env: Env ensures FromInt(PolyValue(Eval(nodes, env), p), width) == BvAt(Eval(nodes, env), term) {
      ConstValue(nodes, env, term);
      NormalizedVal(ConstBytesOf(nodes, term), width);
      FromIntVal(Decoded(ConstBytesOf(nodes, term), width));
    }
  }

  /** Sums, differences and products of polynomials are those of the terms. */
  lemma {:induction false} BinaryTerm(nodes: seq<Node>, term: TermId, width: nat, left: Polynomial, right: Polynomial,
                                      p: Polynomial)
    requires WellFormed(nodes) && term < |nodes| && nodes[term].kind.BinaryBv? && PolyOk(p, width)
    requires PolynomialOf(nodes, nodes[term].kind.a, width, left)
    requires PolynomialOf(nodes, nodes[term].kind.b, width, right)
    requires match nodes[term].kind.bop
             case OpAdd => forall vals: seq<Value> {:trigger PolyValue(vals, p)} ::
               Same(PolyValue(vals, p), PolyValue(vals, left) + PolyValue(vals, right), width)
             case OpSub => forall vals: seq<Value> {:trigger PolyValue(vals, p)} ::
               Same(PolyValue(vals, p), PolyValue(vals, left) - PolyValue(vals, right), width)
             case OpMul => forall vals: seq<Value> {:trigger PolyValue(vals, p)} ::
               Same(PolyValue(vals, p), PolyValue(vals, left) * PolyValue(vals, right), width)
             case _ => false
    ensures PolynomialOf(nodes, term, width, p)
  {
    hide Eval, Val, FromInt, WellFormed, PolyValue, PolyOk;
    var a, b := nodes[term].kind.a, nodes[term].kind.b;
    ShiftSort(nodes, term);
    forall env: Env ensures FromInt(PolyValue(Eval(nodes, env), p), width) == BvAt(Eval(nodes, env), term) {
      var vals := Eval(nodes, env);
      NodeValue(nodes, env, term);
      var l, r := PolyValue(vals, left), PolyValue(vals, right);
      assert FromInt(l, width) == BvAt(vals, a) && FromInt(r, width) == BvAt(vals, b);
      ResidueOps(l, r, width);
    }
  }

  lemma {:induction false} ResidueOps(l: int, r: int, width: nat)
    ensures var (x, y) := (FromInt(l, width), FromInt(r, width));
            BvAdd(x, y) == FromInt(l + r, width) && BvSub(x, y) == FromInt(l - r, width)
              && BvMul(x, y) == FromInt(l * r, width)
  {
    hide FromInt, Val;
    FromIntAdd(l, r, width);
    FromIntMul(l, r, width);
    FromIntMul(r, -1, width);
    var y := FromInt(r, width);
    FromIntAdd(l, -Val(y), width);
    FromIntNeg(r, width);
    FromIntAdd(l, -r, width);
    AddShift(l, -Val(y), width);
    assert FromInt(-Val(y), width) == FromInt(-r, width);
    AddShift(-Val(y), l, width);
    AddShift(-r, l, width);
  }

  lemma {:induction false} UnaryTerm(nodes: seq<Node>, term: TermId, width: nat, child: Polynomial, p: Polynomial)
    requires WellFormed(nodes) && term < |nodes| && nodes[term].kind.UnaryBv? && PolyOk(p, width)
    requires PolynomialOf(nodes, nodes[term].kind.x, width, child)
    requires match nodes[term].kind.uop
             case OpNeg => forall vals: seq<Value> {:trigger PolyValue(vals, p)} ::
               Same(PolyValue(vals, p), -PolyValue(vals, child), width)
             case OpNot => forall vals: seq<Value> {:trigger PolyValue(vals, p)} ::
               Same(PolyValue(vals, p), -PolyValue(vals, child) - 1, width)
    ensures PolynomialOf(nodes, term, width, p)
  {
    hide Eval, Val, FromInt, WellFormed, PolyValue, PolyOk;
    var x := nodes[term].kind.x;
    EvalSort(nodes, term);
    forall env: Env ensures FromInt(PolyValue(Eval(nodes, env), p), width) == BvAt(Eval(nodes, env), term) {
      var vals := Eval(nodes, env);
      NodeValue(nodes, env, term);
      var v := PolyValue(vals, child);
      assert FromInt(v, width) == BvAt(vals, x);
      FromIntNeg(v, width);
      NotIsNegMinusOne(BvAt(vals, x));
      AddShift(-v, -1, width);
      AddShift(-Val(BvAt(vals, x)), -1, width);
    }
  }

  /** A constant shift scales by a power of two, or clears everything. */
  lemma {:induction false} ShiftTerm(nodes: seq<Node>, term: TermId, width: nat, shift: nat, child: Polynomial,
                                     p: Polynomial)
    requires WellFormed(nodes) && term < |nodes| && nodes[term].kind.BinaryBv? && nodes[term].kind.bop == OpShl
    requires PolyOk(p, width)
    requires Width(nodes, term) == width
    requires forall env: Env {:trigger Eval(nodes, env)} ::
               shift == if Val(BvAt(Eval(nodes, env), nodes[term].kind.b)) < width
                 then Val(BvAt(Eval(nodes, env), nodes[term].kind.b)) else width
    requires shift >= width ==> p == map[]
    requires shift < width ==> PolynomialOf(nodes, nodes[term].kind.a, width, child)
    requires shift < width ==>
               forall vals: seq<Value> {:trigger PolyValue(vals, p)} ::
                 Same(PolyValue(vals, p), Pow2(shift) * PolyValue(vals, child), width)
    ensures PolynomialOf(nodes, term, width, p)
  {
    hide Eval, Val, FromInt, WellFormed, PolyValue, Pow2, PolyOk;
    var a, b := nodes[term].kind.a, nodes[term].kind.b;
    ShiftSort(nodes, term);
    forall env: Env ensures FromInt(PolyValue(Eval(nodes, env), p), width) == BvAt(Eval(nodes, env), term) {
      var vals := Eval(nodes, env);
      NodeValue(nodes, env, term);
      VectorValue(nodes, env, a);
      var x, y := BvAt(vals, a), BvAt(vals, b);
      if shift >= width {
        EmptyPolynomial(vals);
        ShiftUnits(x, y);
        ValZeros(width);
      } else {
        var v := PolyValue(vals, child);
        assert FromInt(v, width) == x;
        FromIntMul(v, Pow2(shift), width);
        assert v * Pow2(shift) == Pow2(shift) * v;
      }
    }
  }

  /** The polynomial of a term.  Each visited node costs one unit of the budget; running out, or a
      product that grows too long, gives no answer. */
  method PolynomialFor(nodes: seq<Node>, term: TermId, width: nat, budget: nat)
      returns (r: Option<Polynomial>, left: nat)
    requires WellFormed(nodes) && IsBv(nodes, |nodes|, term)
    ensures r.Some? ==> PolynomialOf(nodes, term, width, r.value)
    ensures left <= budget
    decreases term, 1
  {
    hide Eval, Val, FromInt, BytesVal, Normalized, WellFormed, PolyValue, PolyOk, PolynomialOf, SortOf, Decoded;
    left := budget;
    if budget == 0 { return None, left; }
    left := budget - 1;
    if Width(nodes, term) != width { return None, left; }
    var k := nodes[term].kind;
    EvalSort(nodes, term);
    match k {
      case ConstBv(_, bytes) =>
        ghost var env0: Env := Env(_ => false, _ => 0);
        ConstValue(nodes, env0, term);
        var p := ConstantPolynomial(bytes, width);
        ConstTerm(nodes, term, width, p);
        r := Some(p);
      case UnaryBv(op, x) =>
        OperandIsBv(nodes, term, x);
        var child;
        child, left := PolynomialFor(nodes, x, width, left);
        if child.None? { return None, left; }
        PolynomialShape(nodes, x, width, child.value);
        var p := PolyNeg(child.value, width);
        if op == OpNot {
          ghost var negated := p;
          p := MinusOne(p, nodes, x, width);
          forall vals: seq<Value> ensures Same(PolyValue(vals, p), -PolyValue(vals, child.value) - 1, width) {
            assert Same(PolyValue(vals, negated), -PolyValue(vals, child.value), width);
            SameAdd(PolyValue(vals, negated), -PolyValue(vals, child.value), -1, -1, width);
          }
        }
        UnaryTerm(nodes, term, width, child.value, p);
        r := Some(p);
      case BinaryBv(op, a, b) =>
        r, left := BinaryPolynomial(nodes, term, op, a, b, width, left);
      case _ =>
        var p := AtomPolynomial(nodes, term, width);
        r := Some(p);
    }
  }

  lemma {:induction false} OperandIsBv(nodes: seq<Node>, term: TermId, x: TermId)
    requires WellFormed(nodes) && term < |nodes| && nodes[term].kind.UnaryBv? && nodes[term].kind.x == x
    ensures IsBv(nodes, term, x)
  {
    assert SortOf(nodes, term, nodes[term].kind) == Some(nodes[term].sort);
  }

  lemma {:induction false} PolynomialShape(nodes: seq<Node>, term: TermId, width: nat, p: Polynomial)
    requires PolynomialOf(nodes, term, width, p)
    ensures PolyOk(p, width) && Width(nodes, term) == width && IsBv(nodes, |nodes|, term)
  {}

  method MinusOne(p: Polynomial, ghost nodes: seq<Node>, ghost x: TermId, width: nat) returns (out: Polynomial)
    requires WellFormed(nodes) && IsBv(nodes, |nodes|, x) && Width(nodes, x) == width && PolyOk(p, width)
    ensures PolyOk(out, width)
    ensures forall vals: seq<Value> {:trigger PolyValue(vals, out)} ::
              Same(PolyValue(vals, out), PolyValue(vals, p) - 1, width)
  {
    hide Eval, Val, FromInt, BytesVal, Normalized, WellFormed, PolyValue, PolyOk, Decoded, OneBytes, AllZero;
    ghost var env0: Env := Env(_ => false, _ => 0);
    VectorValue(nodes, env0, x);
    OneBytesValue(width);
    var minusOne := NegBytes(OneBytes(width), width) by { NormalizedSized(OneBytes(width), width); }
    CoefficientNeg(OneBytes(width), minusOne, width);
    out := AddAssign(p, [], minusOne, width);
    forall vals: seq<Value> ensures Same(PolyValue(vals, out), PolyValue(vals, p) - 1, width) {
      SameAdd(PolyValue(vals, p), PolyValue(vals, p), BytesVal(minusOne), -1, width);
    }
  }

  method BinaryPolynomial(nodes: seq<Node>, term: TermId, op: BinaryOp, a: TermId, b: TermId, width: nat, budget: nat)
    returns (r: Option<Polynomial>, left: nat)
    requires WellFormed(nodes) && term < |nodes| && nodes[term].kind == BinaryBv(op, a, b)
    requires Width(nodes, term) == width
    ensures r.Some? ==> PolynomialOf(nodes, term, width, r.value)
    ensures left <= budget
    decreases term, 0
  {
    hide Eval, Val, FromInt, BytesVal, Normalized, WellFormed, PolyValue, PolyOk, PolynomialOf, Decoded, SetBit, Pow2;
    left := budget;
    ShiftSort(nodes, term);
    if op == OpAdd || op == OpSub || op == OpMul {
      var l, m;
      l, left := PolynomialFor(nodes, a, width, left);
      if l.None? { return None, left; }
      m, left := PolynomialFor(nodes, b, width, left);
      if m.None? { return None, left; }
      PolynomialShape(nodes, a, width, l.value);
      PolynomialShape(nodes, b, width, m.value);
      if op == OpAdd {
        var p := PolyAdd(l.value, m.value, width);
        r := Some(p);
      } else if op == OpSub {
        var p := PolySub(l.value, m.value, width);
        r := Some(p);
      } else {
        r := PolyMul(l.value, m.value, width);
      }
      if r.Some? { BinaryTerm(nodes, term, width, l.value, m.value, r.value); }
      return;
    }
    if op != OpShl {
      var p := AtomPolynomial(nodes, term, width);
      return Some(p), left;
    }
    ghost var env0: Env := Env(_ => false, _ => 0);
    VectorValue(nodes, env0, a);
    var shift := ConstShiftAmount(nodes, b, width);
    if shift.None? {
      var p := AtomPolynomial(nodes, term, width);
      return Some(p), left;
    }
    EmptyOk(width);
    if shift.value >= width {
      ShiftTerm(nodes, term, width, shift.value, map[], map[]);
      return Some(map[]), left;
    }
    var child;
    child, left := PolynomialFor(nodes, a, width, left);
    if child.None? { return None, left; }
    PolynomialShape(nodes, a, width, child.value);
    var factor := PowerBytes(shift.value, width);
    var p := PolyScale(child.value, factor, width);
    ShiftTerm(nodes, term, width, shift.value, child.value, p);
    r := Some(p);
  }

  /** The byte string of 2^bit. */
  method PowerBytes(bit: nat, width: nat) returns (factor: seq<Byte>)
    requires bit < width
    ensures Normalized(factor, width) && BytesVal(factor) == Pow2(bit)
  {
    hide Val, FromInt, BytesVal, Decoded, SetBit, Pow2, ConstantBytes, GetBit;
    ConstantBits(width, false);
    var zeros := ConstantBytes(width, false);
    SetBitDecoded(zeros, bit, width);
    factor := SetBit(zeros, bit);
    NormalizedVal(factor, width);
    OneBitValue(bit, width);
  }

  lemma {:induction false} OneBitValue(bit: nat, width: nat)
    requires bit < width
    ensures Val(Zeros(width)[bit := true]) == Pow2(bit)
  {
    hide Val, Pow2;
    var x := Zeros(width)[bit := true];
    assert x == (Zeros(bit) + [true]) + Zeros(width - bit - 1);
    ValSnoc(Zeros(bit), true);
    ValZeros(bit);
    ValZeros(width - bit - 1);
    ValConcat(Zeros(bit) + [true], Zeros(width - bit - 1));
  }

  // ------------------------------------------------------------------------- equality

  /** Decides equality of two terms for all assignments, or gives no answer. */
  method PolynomialEquality(nodes: seq<Node>, a: TermId, b: TermId) returns (r: Option<bool>)
    requires WellFormed(nodes) && SameBv(nodes, |nodes|, a, b)
    ensures r == Some(true) ==>
              forall env: Env {:trigger Eval(nodes, env)} :: BvAt(Eval(nodes, env), a) == BvAt(Eval(nodes, env), b)
    ensures r == Some(false) ==>
              forall env: Env {:trigger Eval(nodes, env)} :: BvAt(Eval(nodes, env), a) != BvAt(Eval(nodes, env), b)
    ensures r.Some? ==> Width(nodes, a) <= MAX_POLYNOMIAL_WIDTH
  {
    hide Eval, Val, FromInt, BytesVal, Normalized, WellFormed, PolyValue, PolyOk, Decoded;
    var width := Width(nodes, a);
    if width > MAX_POLYNOMIAL_WIDTH { return None; }
    var left, budget := PolynomialFor(nodes, a, width, POLYNOMIAL_BUDGET);
    if left.None? { return None; }
    var right;
    right, budget := PolynomialFor(nodes, b, width, budget);
    if right.None? { return None; }
    if left == right { return Some(true); }
    var diff := PolySub(left.value, right.value, width);
    if diff == map[] {
      EqualWhenZero(nodes, a, b, width, left.value, right.value, diff);
      return Some(true);
    }
    if forall m :: m in diff ==> m == [] {
      DifferByConstant(nodes, a, b, width, left.value, right.value, diff);
      return Some(false);
    }
    r := None;
  }

  lemma {:induction false} EqualWhenZero(nodes: seq<Node>, a: TermId, b: TermId, width: nat, left: Polynomial,
                                         right: Polynomial, diff: Polynomial)
    requires PolynomialOf(nodes, a, width, left) && PolynomialOf(nodes, b, width, right) && diff == map[]
    requires forall vals: seq<Value> {:trigger PolyValue(vals, diff)} ::
               Same(PolyValue(vals, diff), PolyValue(vals, left) - PolyValue(vals, right), width)
    ensures forall env: Env {:trigger Eval(nodes, env)} :: BvAt(Eval(nodes, env), a) == BvAt(Eval(nodes, env), b)
  {
    hide Eval, FromInt, PolyValue, PolyOk;
    forall env: Env ensures BvAt(Eval(nodes, env), a) == BvAt(Eval(nodes, env), b) {
      var vals := Eval(nodes, env);
      var l, r := PolyValue(vals, left), PolyValue(vals, right);
      EmptyPolynomial(vals);
      assert Same(PolyValue(vals, diff), l - r, width);
      SameAdd(0, l - r, r, r, width);
    }
  }

  /** A difference that is a nonzero constant is never zero. */
  lemma {:induction false} DifferByConstant(nodes: seq<Node>, a: TermId, b: TermId, width: nat, left: Polynomial,
                                            right: Polynomial, diff: Polynomial)
    requires PolynomialOf(nodes, a, width, left) && PolynomialOf(nodes, b, width, right)
    requires PolyOk(diff, width) && diff != map[] && forall m :: m in diff ==> m == []
    requires forall vals: seq<Value> {:trigger PolyValue(vals, diff)} ::
               Same(PolyValue(vals, diff), PolyValue(vals, left) - PolyValue(vals, right), width)
    ensures forall env: Env {:trigger Eval(nodes, env)} :: BvAt(Eval(nodes, env), a) != BvAt(Eval(nodes, env), b)
  {
    hide Eval, FromInt, PolyValue, Val, BytesVal, Decoded, Normalized, AllZero;
    var m :| m in diff;
    var c := diff[[]];
    assert diff == map[[] := c] by { assert diff.Keys == {[]}; }
    NormalizedVal(c, width);
    ZeroBytesVal(c, width);
    forall env: Env ensures BvAt(Eval(nodes, env), a) != BvAt(Eval(nodes, env), b) {
      var vals := Eval(nodes, env);
      var l, r := PolyValue(vals, left), PolyValue(vals, right);
      SingleTerm(vals, [], c);
      assert Same(PolyValue(vals, diff), l - r, width);
      if FromInt(l, width) == FromInt(r, width) {
        SameAdd(l, r, -r, -r, width);
        ConstantResidue(c, width);
      }
    }
  }

  lemma {:induction false} ConstantResidue(c: seq<Byte>, width: nat)
    requires Normalized(c, width) && Val(Decoded(c, width)) != 0
    ensures !Same(BytesVal(c), 0, width)
  {
    hide FromInt, Val, Decoded, BytesVal;
    NormalizedVal(c, width);
    FromIntVal(Decoded(c, width));
    ValZeros(width);
  }
}
