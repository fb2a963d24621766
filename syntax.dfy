/** The structure of IR nodes as values: types, variables, expressions and
    statements of the high-level IR, and the structural equality that the
    nodes' isEqualTo implements. */
module Syntax {

  datatype Option<+T> = None | Some(value: T)

  /** Types that the modelled nodes mention. */
  datatype Type =
    | IntType(bits: nat)
    | PointerType(pointee: Type)
    | UnknownType

  /** A variable: its current name (renamers change it), the name it was
      created with, and its type. */
  datatype Variable = Variable(name: string, initialName: string, ty: Type)

  datatype BinaryOp =
    | AddOp | SubOp | MulOp | DivOp | ModOp
    | BitAndOp | BitOrOp | BitXorOp | BitShlOp | BitShrOp
    | LtOp | LtEqOp | GtOp | GtEqOp | EqOp | NeqOp
    | AndOp | OrOp
    | AssignOp | CommaOp

  /** One constructor per expression class of the IR (casts, array and
      struct indexing are not needed by the modelled code). */
  datatype Expr =
    | Var(v: Variable)
    | ConstBool(b: bool)
    | ConstInt(value: int, bits: nat)
    | ConstNullPointer(ty: Type)
    | Deref(operand: Expr)
    | AddressOf(operand: Expr)
    | Not(operand: Expr)
    | Neg(operand: Expr)
    | Binary(op: BinaryOp, lhs: Expr, rhs: Expr)
    | Ternary(cond: Expr, ifTrue: Expr, ifFalse: Expr)
    | Call(callee: Expr, args: seq<Expr>)

  /** Statements other than the two statement classes modelled as objects.
      A body is a statement together with its chain of successors. */
  datatype Stmt =
    | EmptyStmt
    | BreakStmt
    | ReturnStmt(retVal: Option<Expr>)
    | AssignStmt(lhs: Expr, rhs: Expr)
    | WhileLoopStmt(cond: Expr, body: seq<Stmt>)

  /** A global variable definition: the variable and its optional initializer. */
  datatype GlobalVarDef = GlobalVarDef(v: Variable, init: Option<Expr>)

  /** Number of expression nodes in a tree. */
  function ExprSize(e: Expr): (n: nat)
    ensures n >= 1
  {
    match e
    case Deref(x) => 1 + ExprSize(x)
    case AddressOf(x) => 1 + ExprSize(x)
    case Not(x) => 1 + ExprSize(x)
    case Neg(x) => 1 + ExprSize(x)
    case Binary(_, l, r) => 1 + ExprSize(l) + ExprSize(r)
    case Ternary(c, t, f) => 1 + ExprSize(c) + ExprSize(t) + ExprSize(f)
    case Call(c, args) => 1 + ExprSize(c) + ExprsSize(args)
    case _ => 1
  }

  function ExprsSize(es: seq<Expr>): nat
  {
    if es == [] then 0 else ExprSize(es[0]) + ExprsSize(es[1..])
  }

  lemma {:induction false} ExprsSizeAt(es: seq<Expr>, i: nat)
    requires i < |es|
    ensures ExprSize(es[i]) <= ExprsSize(es)
  {
    if i > 0 {
      ExprsSizeAt(es[1..], i - 1);
    }
  }

  /** The direct operands of an expression node, left to right. */
  function Children(e: Expr): (r: seq<Expr>)
    ensures forall i :: 0 <= i < |r| ==> ExprSize(r[i]) < ExprSize(e)
  {
    match e
    case Deref(x) => [x]
    case AddressOf(x) => [x]
    case Not(x) => [x]
    case Neg(x) => [x]
    case Binary(_, l, r) => [l, r]
    case Ternary(c, t, f) => [c, t, f]
    case Call(c, args) =>
      assert forall i :: 0 <= i < |args| ==> ExprSize(args[i]) <= ExprsSize(args) by {
        forall i | 0 <= i < |args| ensures ExprSize(args[i]) <= ExprsSize(args) {
          ExprsSizeAt(args, i);
        }
      }
      [c] + args
    case _ => []
  }

  /** Structural equality of expressions (each node class's isEqualTo):
      the same node class and, position by position, structurally equal
      operands. Leaves compare their contents. */
  predicate ExprEqual(a: Expr, b: Expr): (r: bool)
    ensures r ==> a == b
  {
    match a
    case Deref(x) => b.Deref? && ExprEqual(x, b.operand)
    case AddressOf(x) => b.AddressOf? && ExprEqual(x, b.operand)
    case Not(x) => b.Not? && ExprEqual(x, b.operand)
    case Neg(x) => b.Neg? && ExprEqual(x, b.operand)
    case Binary(op, l, r) => b.Binary? && b.op == op && ExprEqual(l, b.lhs) && ExprEqual(r, b.rhs)
    case Ternary(c, t, f) =>
      b.Ternary? && ExprEqual(c, b.cond) && ExprEqual(t, b.ifTrue) && ExprEqual(f, b.ifFalse)
    case Call(c, args) =>
      b.Call? && ExprEqual(c, b.callee) && |args| == |b.args| &&
      forall i :: 0 <= i < |args| ==> ExprEqual(args[i], b.args[i])
    case _ => a == b
  }

  /** Structural equality coincides with equality of the described trees:
      it is reflexive, and only identical trees are structurally equal. */
  lemma {:induction false} ExprEqualIsEquality(a: Expr, b: Expr)
    ensures ExprEqual(a, b) <==> a == b
  {
    match a
    case Deref(x) => if b.Deref? { ExprEqualIsEquality(x, b.operand); }
    case AddressOf(x) => if b.AddressOf? { ExprEqualIsEquality(x, b.operand); }
    case Not(x) => if b.Not? { ExprEqualIsEquality(x, b.operand); }
    case Neg(x) => if b.Neg? { ExprEqualIsEquality(x, b.operand); }
    case Binary(op, l, r) =>
      if b.Binary? {
        ExprEqualIsEquality(l, b.lhs);
        ExprEqualIsEquality(r, b.rhs);
      }
    case Ternary(c, t, f) =>
      if b.Ternary? {
        ExprEqualIsEquality(c, b.cond);
        ExprEqualIsEquality(t, b.ifTrue);
        ExprEqualIsEquality(f, b.ifFalse);
      }
    case Call(c, args) =>
      if b.Call? {
        ExprEqualIsEquality(c, b.callee);
        if |args| == |b.args| {
          forall i | 0 <= i < |args| ensures ExprEqual(args[i], b.args[i]) <==> args[i] == b.args[i] {
            ExprEqualIsEquality(args[i], b.args[i]);
          }
          if forall i :: 0 <= i < |args| ==> ExprEqual(args[i], b.args[i]) {
            assert args == b.args;
          }
        }
      }
    case _ =>
  }

  lemma ExprEqualReflexive(a: Expr)
    ensures ExprEqual(a, a)
  {
    ExprEqualIsEquality(a, a);
  }
}
