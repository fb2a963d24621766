/** Small structural helpers over IR expressions and statements
    (skipDerefs, skipAddresses and isWhileTrueLoop of the ir utilities). */
module IrUtils {
  import opened Syntax

  /** e under n dereference layers. */
  function WrapDerefs(e: Expr, n: nat): Expr
  {
    if n == 0 then e else Deref(WrapDerefs(e, n - 1))
  }

  /** The number of outer dereference layers of e. */
  function DerefDepth(e: Expr): nat
  {
    if e.Deref? then 1 + DerefDepth(e.operand) else 0
  }

  /** skipDerefs: the operand beneath all outer dereferences. The result is
      never a dereference, and putting the removed layers back gives e. */
  function SkipDerefs(e: Expr): (r: Expr)
    ensures !r.Deref?
    ensures !e.Deref? ==> r == e
    ensures WrapDerefs(r, DerefDepth(e)) == e
  {
    if e.Deref? then SkipDerefs(e.operand) else e
  }

  /** Stripping the dereferences put around a non-dereference gives it back,
      and the layers counted are exactly those added. */
  lemma {:induction false} SkipDerefsOfWrapped(x: Expr, n: nat)
    requires !x.Deref?
    ensures DerefDepth(WrapDerefs(x, n)) == n
    ensures SkipDerefs(WrapDerefs(x, n)) == x
  {
    if n > 0 {
      SkipDerefsOfWrapped(x, n - 1);
    }
  }

  /** e under n address-of layers. */
  function WrapAddresses(e: Expr, n: nat): Expr
  {
    if n == 0 then e else AddressOf(WrapAddresses(e, n - 1))
  }

  /** The number of outer address-of layers of e. */
  function AddressDepth(e: Expr): nat
  {
    if e.AddressOf? then 1 + AddressDepth(e.operand) else 0
  }

  /** skipAddresses: the operand beneath all outer address-of nodes. The
      result is never an address-of node, and putting the removed layers
      back gives e. */
  function SkipAddresses(e: Expr): (r: Expr)
    ensures !r.AddressOf?
    ensures !e.AddressOf? ==> r == e
    ensures WrapAddresses(r, AddressDepth(e)) == e
  {
    if e.AddressOf? then SkipAddresses(e.operand) else e
  }

  lemma {:induction false} SkipAddressesOfWrapped(x: Expr, n: nat)
    requires !x.AddressOf?
    ensures AddressDepth(WrapAddresses(x, n)) == n
    ensures SkipAddresses(WrapAddresses(x, n)) == x
  {
    if n > 0 {
      SkipAddressesOfWrapped(x, n - 1);
    }
  }

  /** isWhileTrueLoop: the loop's condition is literally the constant true;
      the body does not matter and no other condition counts, not even one
      that always evaluates to true. */
  function IsWhileTrueLoop(s: Stmt): (r: bool)
    requires s.WhileLoopStmt?
    ensures r <==> s.cond == ConstBool(true)
  {
    s.cond.ConstBool? && s.cond.b
  }

  // The scenarios of the helpers' unit tests.

  const VarX := Var(Variable("x", "x", IntType(32)))

  lemma SkipDerefsScenarios()
    ensures SkipDerefs(VarX) == VarX
    ensures SkipDerefs(Deref(VarX)) == VarX
    ensures SkipDerefs(Deref(Deref(VarX))) == VarX
    ensures SkipDerefs(AddressOf(Deref(VarX))) == AddressOf(Deref(VarX))
  {
  }

  lemma SkipAddressesScenarios()
    ensures SkipAddresses(VarX) == VarX
    ensures SkipAddresses(AddressOf(VarX)) == VarX
    ensures SkipAddresses(AddressOf(AddressOf(VarX))) == VarX
    ensures SkipAddresses(Deref(AddressOf(VarX))) == Deref(AddressOf(VarX))
  {
  }

  lemma IsWhileTrueLoopScenarios()
    ensures IsWhileTrueLoop(WhileLoopStmt(ConstBool(true), [EmptyStmt]))
    ensures !IsWhileTrueLoop(WhileLoopStmt(ConstBool(false), [EmptyStmt]))
    ensures !IsWhileTrueLoop(WhileLoopStmt(ConstInt(1, 32), [EmptyStmt]))
  {
  }
}
