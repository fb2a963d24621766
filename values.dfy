/** IR nodes as objects with reference semantics: every node can be observed
    by the composite nodes that hold it in one of their slots. */
module Values {
  import opened Syntax

  /** The address a node was decompiled from (opaque, copied by clone). */
  datatype Address = Undefined | Address(at: nat)

  /** Attached metadata (opaque, copied by clone). */
  type Metadata = string

  const NoMetadata: Metadata := ""

  /** What a node is: an expression tree, or a statement together with the
      statements that follow it in its chain of successors. */
  datatype Shape = ExprShape(expr: Expr) | StmtShape(stmt: Stmt, successors: seq<Stmt>)

  function ShapeSize(s: Shape): nat
  {
    if s.ExprShape? then ExprSize(s.expr) else 0
  }

  /** Structural equality of nodes (isEqualTo): expressions compare as trees;
      a statement compares its own node, never its successors. */
  predicate ShapeEqual(a: Shape, b: Shape): (r: bool)
    ensures a == b ==> r
    ensures r ==> a.ExprShape? == b.ExprShape?
    ensures a.ExprShape? && b.ExprShape? ==> (r <==> a.expr == b.expr)
    ensures a.StmtShape? && b.StmtShape? ==> (r <==> a.stmt == b.stmt)
  {
    match a
    case ExprShape(e) =>
      if b.ExprShape? then ExprEqualIsEquality(e, b.expr); ExprEqual(e, b.expr) else false
    case StmtShape(s, _) => b.StmtShape? && s == b.stmt
  }

  lemma ShapeEqualReflexive(a: Shape)
    ensures ShapeEqual(a, a)
  {
    if a.ExprShape? {
      ExprEqualReflexive(a.expr);
    }
  }

  /** One level of agreement between a shape and the nodes held for its
      operands (statements outside the modelled classes hold none). */
  predicate OperandsMatch(shape: Shape, operands: seq<Value>)
  {
    match shape
    case ExprShape(e) =>
      |operands| == |Children(e)| &&
      forall i :: 0 <= i < |operands| ==> operands[i].shape == ExprShape(Children(e)[i])
    case StmtShape(_, _) => operands == []
  }

  /** A node of the IR graph. Its class and operands never change after
      creation; what changes is the set of nodes observing it. */
  class Value {
    const shape: Shape
    const operands: seq<Value>
    const metadata: Metadata
    ghost var observers: set<object>

    predicate IsExpression() { shape.ExprShape? }
    predicate IsStatement() { shape.StmtShape? }
    predicate IsCall() { shape.ExprShape? && shape.expr.Call? }

    /** The node and all nodes below it agree with its shape. */
    ghost predicate Coherent()
      decreases ShapeSize(shape)
    {
      OperandsMatch(shape, operands) &&
      forall i :: 0 <= i < |operands| ==> operands[i].Coherent()
    }

    /** The node observes each of its operands. */
    ghost predicate ObservesOperands()
      reads operands
    {
      forall i :: 0 <= i < |operands| ==> this in operands[i].observers
    }

    /** Creation of a node (each node class's create): the new node has no
        observers and registers itself as observer of every operand. */
    constructor Create(shape: Shape, operands: seq<Value>, metadata: Metadata)
      requires OperandsMatch(shape, operands)
      modifies operands
      ensures this.shape == shape && this.operands == operands && this.metadata == metadata
      ensures observers == {}
      ensures forall o :: o in operands ==> o.observers == old(o.observers) + {this}
      ensures ObservesOperands()
      ensures Coherent() <==> forall i :: 0 <= i < |operands| ==> operands[i].Coherent()
    {
      this.shape := shape;
      this.operands := operands;
      this.metadata := metadata;
      observers := {};
      new;
      forall o | o in operands {
        o.observers := o.observers + {this};
      }
    }

    /** Deep copy (clone): a fresh node of the same shape and metadata over
        fresh copies of the operands, observed by nobody. */
    method Clone() returns (c: Value)
      requires Coherent()
      ensures fresh(c) && c.shape == shape && c.metadata == metadata
      ensures c.observers == {} && c.Coherent() && c.ObservesOperands()
      ensures forall i :: 0 <= i < |c.operands| ==> fresh(c.operands[i])
      decreases ShapeSize(shape)
    {
      var clones: seq<Value> := [];
      for i := 0 to |operands|
        invariant |clones| == i
        invariant forall j :: 0 <= j < i ==>
          fresh(clones[j]) && clones[j].shape == operands[j].shape && clones[j].Coherent()
      {
        var oc := operands[i].Clone();
        clones := clones + [oc];
      }
      c := new Value.Create(shape, clones, metadata);
    }
  }
}
