/** The arena form of an expression: a list of nodes that point backwards (graph.rs). */
module Graph {
  import opened Words
  import opened DataTypes
  import opened Expr

  datatype Node =
    | VarNode(v: Variable)
    | ConstNode(val: Scalar)
    | BinNode(op: BinOp, l: nat, r: nat)
    | MatmulNode(a: nat, w: nat, m: nat, k: nat, n: nat)

  datatype Graph = Graph(nodes: seq<Node>, root: nat, isStabilized: bool)

  /** Operands lie in the arena before the node that uses them. */
  predicate Backward(nodes: seq<Node>) {
    forall i :: 0 <= i < |nodes| ==>
      match nodes[i]
      case BinNode(_, l, r) => l < i && r < i
      case MatmulNode(a, w, _, _, _) => a < i && w < i
      case _ => true
  }

  predicate WellFormed(g: Graph) {
    Backward(g.nodes) && g.root < |g.nodes|
  }

  function DataTypeOf(nodes: seq<Node>, id: nat): DataType
    requires Backward(nodes) && id < |nodes|
    decreases id
  {
    match nodes[id]
    case VarNode(v) => v.dtype
    case ConstNode(val) => val.DataType()
    case BinNode(_, l, _) => DataTypeOf(nodes, l)
    case MatmulNode(_, _, _, _, _) => Float(32)
  }

  /**
   * The arena holds the tree `e` in post-order, at indices lo..lo + e.Count():
   * left operand, right operand, then the operation itself.
   */
  ghost predicate Holds(nodes: seq<Node>, lo: nat, e: Expr)
    decreases e
  {
    var top := lo + e.Count() - 1;
    top < |nodes| &&
    match e
    case Var(v) => nodes[lo] == VarNode(v)
    case Const(val) => nodes[lo] == ConstNode(val)
    case Bin(op, l, r) =>
      var mid := lo + l.Count();
      Holds(nodes, lo, l) && Holds(nodes, mid, r) && nodes[top] == BinNode(op, mid - 1, top - 1)
    case DequantizeMatmul(a, w, m, k, n) =>
      var mid := lo + a.Count();
      Holds(nodes, lo, a) && Holds(nodes, mid, w) && nodes[top] == MatmulNode(mid - 1, top - 1, m, k, n)
  }

  /** `g` is the arena of `e`: the tree in post-order and nothing else. */
  ghost predicate IsArenaOf(g: Graph, e: Expr) {
    |g.nodes| == e.Count() && g.root == e.Count() - 1 && Holds(g.nodes, 0, e)
  }

  /** The pieces of a tree in the arena. */
  lemma HoldsParts(nodes: seq<Node>, lo: nat, e: Expr)
    requires Holds(nodes, lo, e)
    ensures lo + e.Count() <= |nodes|
    ensures e.Bin? ==> Holds(nodes, lo, e.left) && Holds(nodes, lo + e.left.Count(), e.right)
    ensures e.DequantizeMatmul? ==>
      Holds(nodes, lo, e.activations) && Holds(nodes, lo + e.activations.Count(), e.weights)
    ensures TopNode(nodes[lo + e.Count() - 1], lo, e)
  {
  }

  /** The node on top of a tree, given where the tree starts. */
  predicate TopNode(node: Node, lo: nat, e: Expr) {
    match e
    case Var(v) => node == VarNode(v)
    case Const(val) => node == ConstNode(val)
    case Bin(op, l, r) => node == BinNode(op, lo + l.Count() - 1, lo + l.Count() + r.Count() - 1)
    case DequantizeMatmul(a, w, m, k, n) =>
      node == MatmulNode(lo + a.Count() - 1, lo + a.Count() + w.Count() - 1, m, k, n)
  }

  lemma HoldsIntro(nodes: seq<Node>, lo: nat, e: Expr)
    requires lo + e.Count() <= |nodes| && TopNode(nodes[lo + e.Count() - 1], lo, e)
    requires e.Bin? ==> Holds(nodes, lo, e.left) && Holds(nodes, lo + e.left.Count(), e.right)
    requires e.DequantizeMatmul? ==>
      Holds(nodes, lo, e.activations) && Holds(nodes, lo + e.activations.Count(), e.weights)
    ensures Holds(nodes, lo, e)
  {
  }

  lemma {:induction false} HoldsExtend(nodes: seq<Node>, more: seq<Node>, lo: nat, e: Expr)
    requires Holds(nodes, lo, e) && nodes <= more
    ensures Holds(more, lo, e)
    decreases e
  {
    hide Holds, TopNode;
    HoldsParts(nodes, lo, e);
    match e {
      case Bin(_, l, r) =>
        HoldsExtend(nodes, more, lo, l);
        HoldsExtend(nodes, more, lo + l.Count(), r);
      case DequantizeMatmul(a, w, _, _, _) =>
        HoldsExtend(nodes, more, lo, a);
        HoldsExtend(nodes, more, lo + a.Count(), w);
      case _ =>
    }
    HoldsIntro(more, lo, e);
  }

  /** Two operand trees side by side, then the operation: that is the tree in post-order. */
  lemma HoldsBin(nodes: seq<Node>, all: seq<Node>, lo: nat, e: Expr, l: nat, r: nat)
    requires e.Bin? && Holds(nodes, lo, e.left) && Holds(nodes, lo + e.left.Count(), e.right)
    requires l == lo + e.left.Count() - 1 && r == |nodes| - 1 == l + e.right.Count()
    requires all == nodes + [BinNode(e.op, l, r)]
    ensures Holds(all, lo, e)
  {
    HoldsExtend(nodes, all, lo, e.left);
    HoldsExtend(nodes, all, lo + e.left.Count(), e.right);
  }

  lemma HoldsMatmul(nodes: seq<Node>, all: seq<Node>, lo: nat, e: Expr, a: nat, w: nat)
    requires e.DequantizeMatmul? && Holds(nodes, lo, e.activations)
    requires Holds(nodes, lo + e.activations.Count(), e.weights)
    requires a == lo + e.activations.Count() - 1 && w == |nodes| - 1 == a + e.weights.Count()
    requires all == nodes + [MatmulNode(a, w, e.m, e.k, e.n)]
    ensures Holds(all, lo, e)
  {
    HoldsExtend(nodes, all, lo, e.activations);
    HoldsExtend(nodes, all, lo + e.activations.Count(), e.weights);
  }

  lemma HoldsLeaf(nodes: seq<Node>, lo: nat, e: Expr)
    requires lo < |nodes| && ((e.Var? && nodes[lo] == VarNode(e.v)) || (e.Const? && nodes[lo] == ConstNode(e.val)))
    ensures Holds(nodes, lo, e)
  {
  }

  class Builder {
    var nodes: seq<Node>

    constructor ()
      ensures nodes == []
    {
      nodes := [];
    }

    method Push(node: Node) returns (id: nat)
      modifies this
      ensures id == |old(nodes)| && nodes == old(nodes) + [node]
    {
      id := |nodes|;
      nodes := nodes + [node];
    }

    /** Appends the tree of `e`; its root is the last node. */
    method Traverse(e: Expr) returns (id: nat)
      modifies this
      ensures old(nodes) <= nodes && |nodes| == |old(nodes)| + e.Count() && id == |nodes| - 1
      ensures Holds(nodes, |old(nodes)|, e)
      decreases e, 1
    {
      hide Holds;
      match e
      case Var(v) =>
        id := Push(VarNode(v));
        HoldsLeaf(nodes, |old(nodes)|, e);
      case Const(val) =>
        id := Push(ConstNode(val));
        HoldsLeaf(nodes, |old(nodes)|, e);
      case Bin(op, left, right) =>
        var l, r := TraverseOperands(left, right, e);
        ghost var operands := nodes;
        id := Push(BinNode(op, l, r));
        HoldsBin(operands, nodes, |old(nodes)|, e, l, r);
      case DequantizeMatmul(act, weights, m, k, n) =>
        var a, w := TraverseOperands(act, weights, e);
        ghost var operands := nodes;
        id := Push(MatmulNode(a, w, m, k, n));
        HoldsMatmul(operands, nodes, |old(nodes)|, e, a, w);
    }

    /** The two operand trees of an operation, left first. */
    method TraverseOperands(left: Expr, right: Expr, ghost e: Expr) returns (l: nat, r: nat)
      requires left < e && right < e
      modifies this
      ensures old(nodes) <= nodes && |nodes| == |old(nodes)| + left.Count() + right.Count()
      ensures Holds(nodes, |old(nodes)|, left) && Holds(nodes, |old(nodes)| + left.Count(), right)
      ensures l == |old(nodes)| + left.Count() - 1 && r == |nodes| - 1
      decreases e, 0
    {
      l := Traverse(left);
      ghost var before := nodes;
      r := Traverse(right);
      HoldsExtend(before, nodes, |old(nodes)|, left);
    }
  }

  method FromExpr(e: Expr) returns (g: Graph)
    ensures IsArenaOf(g, e) && !g.isStabilized
  {
    var b := new Builder();
    var root := b.Traverse(e);
    g := Graph(b.nodes, root, false);
  }

  /** Operands of a tree lie inside the tree's own range, before their user. */
  lemma {:induction false} HoldsBackward(nodes: seq<Node>, lo: nat, e: Expr)
    requires Holds(nodes, lo, e)
    ensures forall i :: lo <= i < lo + e.Count() ==>
      match nodes[i]
      case BinNode(_, l, r) => lo <= l < i && lo <= r < i
      case MatmulNode(a, w, _, _, _) => lo <= a < i && lo <= w < i
      case _ => true
    decreases e
  {
    match e
    case Bin(_, l, r) =>
      HoldsBackward(nodes, lo, l);
      HoldsBackward(nodes, lo + l.Count(), r);
    case DequantizeMatmul(a, w, _, _, _) =>
      HoldsBackward(nodes, lo, a);
      HoldsBackward(nodes, lo + a.Count(), w);
    case _ =>
  }

  lemma ArenaWellFormed(g: Graph, e: Expr)
    requires IsArenaOf(g, e)
    ensures WellFormed(g)
  {
    HoldsBackward(g.nodes, 0, e);
  }

  /** The arena has the root type of the tree. */
  lemma {:induction false} HoldsDataType(nodes: seq<Node>, lo: nat, e: Expr)
    requires Backward(nodes) && Holds(nodes, lo, e)
    ensures DataTypeOf(nodes, lo + e.Count() - 1) == e.DataType()
    decreases e
  {
    match e
    case Bin(_, l, _) => HoldsDataType(nodes, lo, l);
    case _ =>
  }

  function SizeOf(nodes: seq<Node>, id: nat): nat
    requires Backward(nodes) && id < |nodes|
    decreases id
  {
    match nodes[id]
    case VarNode(v) => v.size
    case ConstNode(_) => 1
    case BinNode(_, l, r) => Max(SizeOf(nodes, l), SizeOf(nodes, r))
    case MatmulNode(a, _, _, _, _) => SizeOf(nodes, a)
  }

  /** Without matrix products the arena has the size of the tree. */
  lemma {:induction false} HoldsSize(nodes: seq<Node>, lo: nat, e: Expr)
    requires Backward(nodes) && Holds(nodes, lo, e) && !e.HasMatmul()
    ensures SizeOf(nodes, lo + e.Count() - 1) == e.Size()
    decreases e
  {
    if e.Bin? {
      HoldsSize(nodes, lo, e.left);
      HoldsSize(nodes, lo + e.left.Count(), e.right);
    }
  }

  /** The variables of an arena, in the order of its nodes. */
  function VarsOf(nodes: seq<Node>): seq<Variable> {
    if nodes == [] then []
    else (if nodes[0].VarNode? then [nodes[0].v] else []) + VarsOf(nodes[1..])
  }

  lemma {:induction false} VarsOfConcat(a: seq<Node>, b: seq<Node>)
    ensures VarsOf(a + b) == VarsOf(a) + VarsOf(b)
  {
    if a == [] {
      assert a + b == b;
    } else {
      VarsOfConcat(a[1..], b);
      assert (a + b)[0] == a[0] && (a + b)[1..] == a[1..] + b;
      var first := if a[0].VarNode? then [a[0].v] else [];
      assert first + (VarsOf(a[1..]) + VarsOf(b)) == first + VarsOf(a[1..]) + VarsOf(b);
    }
  }

  /** They are the leaves of the tree, left to right. */
  lemma {:induction false} HoldsVars(nodes: seq<Node>, lo: nat, e: Expr)
    requires Holds(nodes, lo, e)
    ensures lo + e.Count() <= |nodes| && VarsOf(nodes[lo..lo + e.Count()]) == e.Leaves()
    decreases e.Count()
  {
    hide Holds, VarsOf;
    HoldsParts(nodes, lo, e);
    match e
    case Bin(_, l, r) => HoldsVarsOfTwo(nodes, lo, l, r);
    case DequantizeMatmul(a, w, _, _, _) => HoldsVarsOfTwo(nodes, lo, a, w);
    case _ =>
      OneNode(nodes[lo]);
      assert nodes[lo..lo + 1] == [nodes[lo]];
  }

  lemma {:induction false} HoldsVarsOfTwo(nodes: seq<Node>, lo: nat, l: Expr, r: Expr)
    requires Holds(nodes, lo, l) && Holds(nodes, lo + l.Count(), r)
    requires lo + l.Count() + r.Count() < |nodes| && !nodes[lo + l.Count() + r.Count()].VarNode?
    ensures VarsOf(nodes[lo..lo + l.Count() + r.Count() + 1]) == l.Leaves() + r.Leaves()
    decreases l.Count() + r.Count()
  {
    hide Holds, VarsOf;
    HoldsVars(nodes, lo, l);
    HoldsVars(nodes, lo + l.Count(), r);
    OperandsThenTop(nodes, lo, lo + l.Count(), lo + l.Count() + r.Count());
  }

  lemma OneNode(node: Node)
    ensures VarsOf([node]) == if node.VarNode? then [node.v] else []
  {
    assert [node][1..] == [];
  }

  lemma OperandsThenTop(nodes: seq<Node>, lo: nat, mid: nat, top: nat)
    requires lo <= mid <= top < |nodes| && !nodes[top].VarNode?
    ensures VarsOf(nodes[lo..top + 1]) == VarsOf(nodes[lo..mid]) + VarsOf(nodes[mid..top])
  {
    hide VarsOf;
    OneNode(nodes[top]);
    VarsOfConcat(nodes[lo..mid], nodes[mid..top]);
    VarsOfConcat(nodes[lo..mid] + nodes[mid..top], [nodes[top]]);
    assert nodes[lo..mid] + nodes[mid..top] + [nodes[top]] == nodes[lo..top + 1];
    assert VarsOf(nodes[lo..mid]) + VarsOf(nodes[mid..top]) + [] == VarsOf(nodes[lo..mid]) + VarsOf(nodes[mid..top]);
  }
}
