/** The call statement (CallStmt): a statement wrapping a single call
    expression whose result is discarded. */
module CallStmts {
  import opened Syntax
  import opened Values

  class CallStmt {
    var call: Value
    var succ: Value?
    const address: Address
    var metadata: Metadata

    /** The wrapped node is a call, and the statement observes it. */
    ghost predicate Valid()
      reads this, call
    {
      call.IsCall() && this in call.observers
    }

    /** Among the nodes of U, the statement observes its call and nothing
        else. Valid() alone says only that the call is observed. */
    ghost predicate ObservesExactly(U: set<Value>)
      reads this, U
    {
      forall v :: v in U ==> (this in v.observers <==> v == call)
    }

    /** CallStmt::create: wraps a call and registers as its observer. */
    constructor Create(call: Value, succ: Value?, a: Address)
      requires call.IsCall()
      modifies call
      ensures this.call == call && this.succ == succ && address == a && metadata == NoMetadata
      ensures call.observers == old(call.observers) + {this}
      ensures Valid()
      ensures forall U: set<Value> :: old(allocated(U)) ==> ObservesExactly(U)
    {
      this.call := call;
      this.succ := succ;
      this.address := a;
      this.metadata := NoMetadata;
      new;
      call.observers := call.observers + {this};
    }

    /** setCall: the old call stops being observed, the new one is observed
        and wrapped. A statement holds one node only, so the result is
        always valid. */
    method SetCall(newCall: Value)
      requires newCall.IsCall()
      modifies this`call, call, newCall
      ensures call == newCall
      ensures newCall.observers == old(newCall.observers) + {this}
      ensures old(call) != newCall ==> old(call).observers == old(call.observers) - {this}
      ensures Valid()
      ensures forall U :: old(allocated(U)) && old(ObservesExactly(U)) ==> ObservesExactly(U)
    {
      call.observers := call.observers - {this};
      newCall.observers := newCall.observers + {this};
      call := newCall;
    }

    /** update(subject, arg): when the subject is the wrapped call and the
        argument is a call, the argument is wrapped instead; otherwise
        nothing changes. */
    method Update(subject: object, arg: Value)
      modifies this`call, call, arg
      ensures call == (if subject == old(call) && arg.IsCall() then arg else old(call))
      ensures subject == old(call) && arg.IsCall() ==>
        arg.observers == old(arg.observers) + {this} &&
        (old(call) != arg ==> old(call).observers == old(call.observers) - {this})
      ensures !(subject == old(call) && arg.IsCall()) ==>
        var c := old(call); c.observers == old(c.observers) && arg.observers == old(arg.observers)
      ensures old(Valid()) ==> Valid()
      ensures old(call.IsCall()) ==> call.IsCall()
      ensures forall U :: old(allocated(U)) && old(ObservesExactly(U)) ==> ObservesExactly(U)
    {
      if subject == call && arg.IsCall() {
        SetCall(arg);
      }
    }

    /** replace(oldExpr, newExpr): the wrapped call is swapped for newExpr
        when it is oldExpr and newExpr is a call; otherwise the request is
        handed to the wrapped call. What the call's own replace does beneath
        it is not modelled, so the observer sets stated here are the
        statement's own edges. */
    method Replace(oldExpr: Value?, newExpr: Value?) returns (ghost forwardedTo: seq<Value>)
      modifies this`call, call, newExpr
      ensures var swapped := oldExpr == old(call) && newExpr != null && newExpr.IsCall();
        call == (if swapped then newExpr else old(call)) &&
        forwardedTo == (if swapped then [] else [old(call)])
      ensures var swapped := oldExpr == old(call) && newExpr != null && newExpr.IsCall();
        swapped ==>
          newExpr.observers == old(newExpr.observers) + {this} &&
          (old(call) != newExpr ==> old(call).observers == old(call.observers) - {this})
      ensures var swapped := oldExpr == old(call) && newExpr != null && newExpr.IsCall();
        !swapped ==>
          old(call).observers == old(call.observers) &&
          (newExpr != null ==> newExpr.observers == old(newExpr.observers))
      ensures old(Valid()) ==> Valid()
      ensures old(call.IsCall()) ==> call.IsCall()
      ensures forall U :: old(allocated(U)) && old(ObservesExactly(U)) ==> ObservesExactly(U)
    {
      if oldExpr == call && newExpr != null && newExpr.IsCall() {
        SetCall(newExpr);
        forwardedTo := [];
      } else {
        forwardedTo := [call];
      }
    }

    /** asExpression: a call statement stands for its call. */
    function AsExpression(): (r: Value)
      reads this, call
      ensures r == call
      ensures Valid() ==> r.IsCall() && this in r.observers
    {
      call
    }

    /** isEqualTo: equal only to another call statement whose call is
        structurally equal; successor, address and metadata are ignored. */
    function IsEqualTo(other: object?): (r: bool)
      reads this, other
      ensures r ==> other is CallStmt
      ensures other == this ==> r
      ensures other is CallStmt && call.IsCall() && (other as CallStmt).call.IsCall() ==>
        (r <==> call.shape.expr == (other as CallStmt).call.shape.expr)
    {
      ShapeEqualReflexive(call.shape);
      other is CallStmt && ShapeEqual(call.shape, (other as CallStmt).call.shape)
    }

    /** clone: a fresh statement over a fresh clone of the call, with no
        successor and the same address and metadata. */
    method Clone() returns (c: CallStmt)
      requires call.IsCall() && call.Coherent()
      ensures fresh(c) && fresh(c.call)
      ensures c.succ == null && c.address == address && c.metadata == metadata
      ensures c.Valid() && c.IsEqualTo(this) && IsEqualTo(c)
    {
      var cc := call.Clone();
      c := new CallStmt.Create(cc, null, address);
      c.metadata := metadata;
      ShapeEqualReflexive(call.shape);
    }
  }

  /** Two call statements over the same call are equal, whatever their
      successors, addresses and metadata. */
  lemma IsEqualToIgnoresSuccessor(a: CallStmt, b: CallStmt)
    requires a.call == b.call
    ensures a.IsEqualTo(b) && b.IsEqualTo(a)
  {
    ShapeEqualReflexive(a.call.shape);
  }
}
