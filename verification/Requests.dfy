/** Decoded wire requests: the nodes of an expression by tag, the roots to satisfy, and what a
    request means for values of its variables, which are known by name. */
module Requests {
  import opened BitVectors
  import opened Bytes
  import opened Wrappers
  import opened Ir
  import opened Queries

  /** An expression has at most this many nodes. */
  const MAX_NODE_COUNT: nat := 0x8000_0000

  datatype Tag =
    | TagBvVar | TagBvConst | TagBvNot | TagBvNeg | TagBvAnd | TagBvOr | TagBvXor | TagBvAdd | TagBvSub | TagBvMul
    | TagBvUDiv | TagBvURem | TagBvSDiv | TagBvSRem | TagBvSMod | TagBvShl | TagBvLShr | TagBvAShr
    | TagBvExtract | TagBvConcat | TagBvZExt | TagBvSExt | TagBvIte | TagBvSelect
    | TagBoolTrue | TagBoolFalse | TagBoolVar | TagBoolNot | TagBoolAnd | TagBoolOr | TagBoolImplies
    | TagBvEq | TagBvUlt | TagBvUle | TagBvSlt | TagBvSle
    | TagUAddOvf | TagSAddOvf | TagUSubOvf | TagSSubOvf | TagUMulOvf | TagSMulOvf | TagNegOvf | TagSDivOvf

  /** A node: its children by index, two auxiliary numbers, and the name of a variable or the bytes
      of a constant. */
  datatype WireNode = WireNode(
    tag: Tag,
    width: nat,
    children: seq<nat>,
    auxHi: nat,
    auxLo: nat,
    name: string,
    bytes: seq<Byte>)

  /** A node has as many children as its tag demands. */
  predicate ArityOk(node: WireNode) {
    match node.tag
    case TagBvVar | TagBvConst | TagBoolTrue | TagBoolFalse | TagBoolVar => |node.children| == 0
    case TagBvNot | TagBvNeg | TagBvExtract | TagBvZExt | TagBvSExt | TagBoolNot | TagNegOvf => |node.children| == 1
    case TagBvIte => |node.children| == 3
    case TagBvSelect => |node.children| == 2 * node.auxHi + 1
    case _ => |node.children| == 2
  }

  /** The selector and value pairs of a selection. */
  function CasesOf(node: WireNode): (cases: seq<(nat, nat)>)
    requires |node.children| >= 2 * node.auxHi
    ensures |cases| == node.auxHi
  {
    seq(node.auxHi, i requires 0 <= i < node.auxHi => (node.children[2 * i], node.children[2 * i + 1]))
  }

  /** The operator of a node over its children. */
  function OperatorOf(node: WireNode): NodeKind
    requires ArityOk(node)
  {
    match node.tag
    case TagBvVar => VarBv(node.width, node.name, None)
    case TagBvConst => ConstBv(node.width, node.bytes)
    case TagBvNot => UnaryBv(OpNot, node.children[0])
    case TagBvNeg => UnaryBv(OpNeg, node.children[0])
    case TagBvAnd => BinaryBv(OpAnd, node.children[0], node.children[1])
    case TagBvOr => BinaryBv(OpOr, node.children[0], node.children[1])
    case TagBvXor => BinaryBv(OpXor, node.children[0], node.children[1])
    case TagBvAdd => BinaryBv(OpAdd, node.children[0], node.children[1])
    case TagBvSub => BinaryBv(OpSub, node.children[0], node.children[1])
    case TagBvMul => BinaryBv(OpMul, node.children[0], node.children[1])
    case TagBvUDiv => BinaryBv(OpUDiv, node.children[0], node.children[1])
    case TagBvURem => BinaryBv(OpURem, node.children[0], node.children[1])
    case TagBvSDiv => BinaryBv(OpSDiv, node.children[0], node.children[1])
    case TagBvSRem => BinaryBv(OpSRem, node.children[0], node.children[1])
    case TagBvSMod => BinaryBv(OpSMod, node.children[0], node.children[1])
    case TagBvShl => BinaryBv(OpShl, node.children[0], node.children[1])
    case TagBvLShr => BinaryBv(OpLShr, node.children[0], node.children[1])
    case TagBvAShr => BinaryBv(OpAShr, node.children[0], node.children[1])
    case TagBvExtract => ExtractBv(node.children[0], node.auxHi, node.auxLo)
    case TagBvConcat => ConcatBv(node.children[0], node.children[1])
    case TagBvZExt => ExtendBv(false, node.children[0], node.auxHi)
    case TagBvSExt => ExtendBv(true, node.children[0], node.auxHi)
    case TagBvIte => IteBv(node.children[0], node.children[1], node.children[2])
    case TagBvSelect => SelectBv(CasesOf(node), node.children[2 * node.auxHi])
    case TagBoolTrue => ConstBool(true)
    case TagBoolFalse => ConstBool(false)
    case TagBoolVar => VarBool(node.name, None)
    case TagBoolNot => NotBool(node.children[0])
    case TagBoolAnd => BinaryBool(BoolAnd, node.children[0], node.children[1])
    case TagBoolOr => BinaryBool(BoolOr, node.children[0], node.children[1])
    case TagBoolImplies => BinaryBool(BoolImplies, node.children[0], node.children[1])
    case TagBvEq => CompareBv(CmpEq, node.children[0], node.children[1])
    case TagBvUlt => CompareBv(CmpUlt, node.children[0], node.children[1])
    case TagBvUle => CompareBv(CmpUle, node.children[0], node.children[1])
    case TagBvSlt => CompareBv(CmpSlt, node.children[0], node.children[1])
    case TagBvSle => CompareBv(CmpSle, node.children[0], node.children[1])
    case TagUAddOvf => CompareBv(OvfUAdd, node.children[0], node.children[1])
    case TagSAddOvf => CompareBv(OvfSAdd, node.children[0], node.children[1])
    case TagUSubOvf => CompareBv(OvfUSub, node.children[0], node.children[1])
    case TagSSubOvf => CompareBv(OvfSSub, node.children[0], node.children[1])
    case TagUMulOvf => CompareBv(OvfUMul, node.children[0], node.children[1])
    case TagSMulOvf => CompareBv(OvfSMul, node.children[0], node.children[1])
    case TagNegOvf => NegOverflows(node.children[0])
    case TagSDivOvf => CompareBv(OvfSDiv, node.children[0], node.children[1])
  }

  /** Constants of the right length have their unused bits cleared. */
  function Cleaned(k: NodeKind): NodeKind {
    if k.ConstBv? && |k.bytes| == BytesFor(k.width) then k.(bytes := MaskUnusedHighBits(k.bytes, k.width)) else k
  }

  function KindOf(node: WireNode): NodeKind
    requires ArityOk(node)
  {
    Cleaned(OperatorOf(node))
  }

  /** The node has the arity of its tag and its children, among the first `n`, have the right sorts. */
  predicate Accepted(typed: seq<Node>, n: nat, node: WireNode) {
    ArityOk(node) && SortOf(typed, n, KindOf(node)).Some?
  }

  /** The selectors are Bool and the values are vectors like the default. */
  predicate SelectionFits(typed: seq<Node>, n: nat, node: WireNode)
    requires |node.children| == 2 * node.auxHi + 1
  {
    forall i {:trigger node.children[2 * i]} :: 0 <= i < node.auxHi ==>
      IsBool(typed, n, node.children[2 * i])
        && SameBv(typed, n, node.children[2 * i + 1], node.children[2 * node.auxHi])
  }

  /** Tag by tag: the demands on the children, the width and the bytes of a node. */
  predicate FitsTag(typed: seq<Node>, n: nat, node: WireNode)
    requires ArityOk(node)
  {
    var c := node.children;
    match node.tag
    case TagBoolTrue | TagBoolFalse | TagBoolVar => true
    case TagBvVar => ValidWidth(node.width)
    case TagBvConst => ValidWidth(node.width) && |node.bytes| == BytesFor(node.width)
    case TagBvNot | TagBvNeg | TagNegOvf => IsBv(typed, n, c[0])
    case TagBoolNot => IsBool(typed, n, c[0])
    case TagBoolAnd | TagBoolOr | TagBoolImplies => IsBool(typed, n, c[0]) && IsBool(typed, n, c[1])
    case TagBvExtract => IsBv(typed, n, c[0]) && node.auxLo <= node.auxHi < Width(typed, c[0])
    case TagBvZExt | TagBvSExt => IsBv(typed, n, c[0]) && ValidWidth(Width(typed, c[0]) + node.auxHi)
    case TagBvConcat =>
      IsBv(typed, n, c[0]) && IsBv(typed, n, c[1]) && ValidWidth(Width(typed, c[0]) + Width(typed, c[1]))
    case TagBvIte => IsBool(typed, n, c[0]) && SameBv(typed, n, c[1], c[2])
    case TagBvSelect => IsBv(typed, n, c[2 * node.auxHi]) && SelectionFits(typed, n, node)
    case _ => SameBv(typed, n, c[0], c[1])
  }

  /** A node is accepted exactly when it meets the demands of its tag. */
  lemma {:induction false} AcceptedByTag(typed: seq<Node>, n: nat, node: WireNode)
    ensures Accepted(typed, n, node) <==> ArityOk(node) && FitsTag(typed, n, node)
  {
    hide MaskUnusedHighBits, Normalized, IsBv, IsBool, SameBv, Width, SelectionFits, CasesOk, CasesOf;
    if ArityOk(node) {
      match node.tag
      case TagBvConst =>
        if |node.bytes| == BytesFor(node.width) {
          MaskNormalizes(node.bytes, node.width);
        } else {
          WrongLength(node.bytes, node.width);
        }
      case TagBvSelect => SelectionAccepted(typed, n, node);
      case _ =>
    }
  }

  lemma {:induction false} WrongLength(bytes: seq<Byte>, width: nat)
    requires |bytes| != BytesFor(width)
    ensures !Normalized(bytes, width)
  {}

  lemma {:induction false} SelectionAccepted(typed: seq<Node>, n: nat, node: WireNode)
    requires |node.children| == 2 * node.auxHi + 1
    ensures CasesOk(typed, n, CasesOf(node), node.children[2 * node.auxHi]) <==> SelectionFits(typed, n, node)
  {
    hide IsBool, SameBv;
    var c, cases := node.children, CasesOf(node);
    if CasesOk(typed, n, cases, c[2 * node.auxHi]) {
      forall i | 0 <= i < node.auxHi
        ensures IsBool(typed, n, c[2 * i]) && SameBv(typed, n, c[2 * i + 1], c[2 * node.auxHi])
      {
        assert cases[i] == (c[2 * i], c[2 * i + 1]);
      }
    }
    if SelectionFits(typed, n, node) {
      forall i | 0 <= i < node.auxHi
        ensures IsBool(typed, n, cases[i].0) && SameBv(typed, n, cases[i].1, c[2 * node.auxHi])
      {
        assert c[2 * i] == cases[i].0;
      }
    }
  }

  /** The nodes with their operators and sorts, if all are accepted. */
  function Typed(wire: seq<WireNode>): (r: Option<seq<Node>>)
    ensures r.Some? ==> |r.value| == |wire|
  {
    if wire == [] then Some([]) else
      var n := |wire| - 1;
      var nodes := Typed(wire[..n]);
      if nodes.None? || !Accepted(nodes.value, n, wire[n]) then None
      else Some(nodes.value + [Node(KindOf(wire[n]), SortOf(nodes.value, n, KindOf(wire[n])).value)])
  }

  /** A prefix of an accepted expression is accepted. */
  lemma {:induction false} TypedPrefix(wire: seq<WireNode>, n: nat)
    requires n <= |wire| && Typed(wire).Some?
    ensures Typed(wire[..n]) == Some(Typed(wire).value[..n])
    decreases |wire|
  {
    hide SortOf, Accepted, KindOf;
    if n < |wire| {
      var m := |wire| - 1;
      TypedPrefix(wire[..m], n);
      assert wire[..m][..n] == wire[..n];
      assert Typed(wire).value[..n] == Typed(wire[..m]).value[..n];
    } else {
      assert wire[..n] == wire && Typed(wire).value[..n] == Typed(wire).value;
    }
  }

  lemma {:induction false} TypedStep(wire: seq<WireNode>, n: nat)
    requires n < |wire| && Typed(wire[..n]).Some?
    ensures var typed := Typed(wire[..n]).value;
            Typed(wire[..n + 1]) ==
              if Accepted(typed, n, wire[n])
              then Some(typed + [Node(KindOf(wire[n]), SortOf(typed, n, KindOf(wire[n])).value)])
              else None
  {
    hide SortOf, OperatorOf, Cleaned;
    assert wire[..n + 1][..n] == wire[..n];
  }

  // --------------------------------------------------------------------------- requests

  /** A decoded request.  The target and all roots refer to nodes by their index; the first
      assertions have names. */
  datatype Request = Request(
    nodes: seq<WireNode>,
    command: Command,
    target: Option<nat>,
    signed: bool,
    wantModel: bool,
    wantCore: bool,
    assertions: seq<nat>,
    names: seq<string>,
    assumptions: seq<nat>)
  {
    predicate Optimizes() { command.Minimize? || command.Maximize? }
  }

  /** All nodes are accepted, the roots are Bool and an optimisation has a vector target. */
  predicate RequestOk(q: Request) {
    var nodes := Typed(q.nodes);
    && |q.nodes| <= MAX_NODE_COUNT && nodes.Some?
    && (q.Optimizes() ==> q.target.Some? && IsBv(nodes.value, |nodes.value|, q.target.value))
    && (forall i :: 0 <= i < |q.assertions| ==> IsBool(nodes.value, |nodes.value|, q.assertions[i]))
    && (forall i :: 0 <= i < |q.assumptions| ==> IsBool(nodes.value, |nodes.value|, q.assumptions[i]))
  }

  /** What a variable is known by. */
  datatype Symbol = BvSymbol(name: string, width: nat) | BoolSymbol(name: string)

  function SymbolOf(k: NodeKind): Symbol
    requires IsVariable(k)
  {
    match k
    case VarBv(w, name, _) => BvSymbol(name, w)
    case VarBool(name, _) => BoolSymbol(name)
  }

  /** Both are the variable of one name, and of one width if they are vectors. */
  predicate SameSymbol(j: NodeKind, k: NodeKind) {
    match j
    case VarBv(w, name, _) => k.VarBv? && k.width == w && k.name == name
    case VarBool(name, _) => k.VarBool? && k.name == name
    case _ => false
  }

  lemma {:induction false} SymbolsAgree(j: NodeKind, k: NodeKind)
    ensures SameSymbol(j, k) <==> IsVariable(j) && IsVariable(k) && SymbolOf(j) == SymbolOf(k)
  {}

  /** An assignment of the request's variables: by name, not by node. */
  datatype Names = Names(bools: Symbol -> bool, bvs: Symbol -> int)

  /** The assignment of node ids that gives equal symbols equal values. */
  function NamedEnv(nodes: seq<Node>, w: Names): Env {
    Env((i: TermId) => i < |nodes| && IsVariable(nodes[i].kind) && w.bools(SymbolOf(nodes[i].kind)),
        (i: TermId) => if i < |nodes| && IsVariable(nodes[i].kind) then w.bvs(SymbolOf(nodes[i].kind)) else 0)
  }

  /** The values of all nodes when the variables have these values. */
  function RequestValues(q: Request, w: Names): seq<Value>
    requires RequestOk(q)
  {
    Eval(Typed(q.nodes).value, NamedEnv(Typed(q.nodes).value, w))
  }

  /** All assertions and assumptions of the request are true. */
  ghost predicate RequestHolds(q: Request, w: Names)
    requires RequestOk(q)
  {
    && (forall i :: 0 <= i < |q.assertions| ==> BoolAt(RequestValues(q, w), q.assertions[i]))
    && (forall i :: 0 <= i < |q.assumptions| ==> BoolAt(RequestValues(q, w), q.assumptions[i]))
  }

  ghost function RequestTarget(q: Request, w: Names): Bv
    requires RequestOk(q) && q.Optimizes()
  {
    BvAt(RequestValues(q, w), q.target.value)
  }
}
