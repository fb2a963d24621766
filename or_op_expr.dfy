/** The logical "or" operator node (OrOpExpr). */
module OrOpExprs {
  import opened Syntax
  import opened Values

  /** OrOpExpr::create: a fresh "or" node over two existing expressions,
      registered as observer of both and observed by nobody. */
  method CreateOrOp(op1: Value, op2: Value) returns (r: Value)
    requires op1.IsExpression() && op2.IsExpression()
    modifies op1, op2
    ensures fresh(r) && r.shape == ExprShape(Binary(OrOp, op1.shape.expr, op2.shape.expr))
    ensures r.operands == [op1, op2] && r.metadata == NoMetadata && r.observers == {}
    ensures op1.observers == old(op1.observers) + {r}
    ensures op2.observers == old(op2.observers) + {r}
    ensures r.Coherent() <==> op1.Coherent() && op2.Coherent()
  {
    r := new Value.Create(ExprShape(Binary(OrOp, op1.shape.expr, op2.shape.expr)), [op1, op2], NoMetadata);
  }

  /** OrOpExpr::clone: a fresh "or" node over fresh clones of both operands
      with the same metadata; it is structurally equal to the original. The
      steps are those of the deep copy of any node (Value.Clone): each operand
      is cloned, a node of the same class is created over the clones and the
      metadata is copied. */
  method CloneOrOp(e: Value) returns (c: Value)
    requires e.IsExpression() && e.shape.expr.Binary? && e.shape.expr.op == OrOp && e.Coherent()
    ensures fresh(c) && c.metadata == e.metadata && c.observers == {}
    ensures c.shape.ExprShape? && c.shape.expr.Binary? && c.shape.expr.op == OrOp
    ensures ExprEqual(c.shape.expr, e.shape.expr)
    ensures |c.operands| == 2 && fresh(c.operands[0]) && fresh(c.operands[1])
    ensures c.ObservesOperands() && c.Coherent()
  {
    c := e.Clone();
    assert Children(e.shape.expr) == [e.shape.expr.lhs, e.shape.expr.rhs];
    ExprEqualReflexive(e.shape.expr);
  }

  /** OrOpExpr::getType: the type of `x || y` is a 1-bit integer. */
  function OrOpType(e: Expr): (t: Type)
    requires e.Binary? && e.op == OrOp
    ensures t == IntType(1)
  {
    IntType(1)
  }

  /** OrOpExpr::isEqualTo: equal exactly to another "or" node whose first
      operands are equal and whose second operands are equal. */
  lemma OrOpIsEqualTo(a1: Expr, a2: Expr, other: Expr)
    ensures ExprEqual(Binary(OrOp, a1, a2), other) <==>
      other.Binary? && other.op == OrOp && ExprEqual(a1, other.lhs) && ExprEqual(a2, other.rhs)
  {
  }

  /** An "or" node is never equal to a node of another class, even one over
      the same operands. */
  lemma OrOpNeverEqualsOtherKind(a1: Expr, a2: Expr, other: Expr)
    requires !(other.Binary? && other.op == OrOp)
    ensures !ExprEqual(Binary(OrOp, a1, a2), other)
  {
  }

  /** Operand order matters: swapping two different operands gives a node
      that is not equal to the original. */
  lemma {:induction false} OrOpIsNotCommutative(a1: Expr, a2: Expr)
    requires a1 != a2
    ensures !ExprEqual(Binary(OrOp, a1, a2), Binary(OrOp, a2, a1))
  {
    ExprEqualIsEquality(a1, a2);
  }
}
