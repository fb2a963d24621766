/** The equality operator node (EqOpExpr). */
module EqOpExprs {
  import opened Syntax
  import opened Values

  /** EqOpExpr::create: a fresh "==" node over two existing expressions,
      registered as observer of both and observed by nobody. */
  method CreateEqOp(op1: Value, op2: Value) returns (r: Value)
    requires op1.IsExpression() && op2.IsExpression()
    modifies op1, op2
    ensures fresh(r) && r.shape == ExprShape(Binary(EqOp, op1.shape.expr, op2.shape.expr))
    ensures r.operands == [op1, op2] && r.metadata == NoMetadata && r.observers == {}
    ensures op1.observers == old(op1.observers) + {r}
    ensures op2.observers == old(op2.observers) + {r}
    ensures r.Coherent() <==> op1.Coherent() && op2.Coherent()
  {
    r := new Value.Create(ExprShape(Binary(EqOp, op1.shape.expr, op2.shape.expr)), [op1, op2], NoMetadata);
  }

  /** EqOpExpr::clone: a fresh "==" node over fresh clones of both operands
      with the same metadata; it is structurally equal to the original. The
      steps are those of the deep copy of any node (Value.Clone): each operand
      is cloned, a node of the same class is created over the clones and the
      metadata is copied. */
  method CloneEqOp(e: Value) returns (c: Value)
    requires e.IsExpression() && e.shape.expr.Binary? && e.shape.expr.op == EqOp && e.Coherent()
    ensures fresh(c) && c.metadata == e.metadata && c.observers == {}
    ensures c.shape.ExprShape? && c.shape.expr.Binary? && c.shape.expr.op == EqOp
    ensures ExprEqual(c.shape.expr, e.shape.expr)
    ensures |c.operands| == 2 && fresh(c.operands[0]) && fresh(c.operands[1])
    ensures c.ObservesOperands() && c.Coherent()
  {
    c := e.Clone();
    assert Children(e.shape.expr) == [e.shape.expr.lhs, e.shape.expr.rhs];
    ExprEqualReflexive(e.shape.expr);
  }

  /** EqOpExpr::getType: the type of `x == y` is a 1-bit integer. */
  function EqOpType(e: Expr): (t: Type)
    requires e.Binary? && e.op == EqOp
    ensures t == IntType(1)
  {
    IntType(1)
  }

  /** EqOpExpr::isEqualTo: equal exactly to another "==" node whose first
      operands are equal and whose second operands are equal. */
  lemma EqOpIsEqualTo(a1: Expr, a2: Expr, other: Expr)
    ensures ExprEqual(Binary(EqOp, a1, a2), other) <==>
      other.Binary? && other.op == EqOp && ExprEqual(a1, other.lhs) && ExprEqual(a2, other.rhs)
  {
  }

  /** An "==" node is never equal to a node of another class, even one over
      the same operands. */
  lemma EqOpNeverEqualsOtherKind(a1: Expr, a2: Expr, other: Expr)
    requires !(other.Binary? && other.op == EqOp)
    ensures !ExprEqual(Binary(EqOp, a1, a2), other)
  {
  }

  /** Operand order matters: swapping two different operands gives a node
      that is not equal to the original. */
  lemma {:induction false} EqOpIsNotCommutative(a1: Expr, a2: Expr)
    requires a1 != a2
    ensures !ExprEqual(Binary(EqOp, a1, a2), Binary(EqOp, a2, a1))
  {
    ExprEqualIsEquality(a1, a2);
  }
}
