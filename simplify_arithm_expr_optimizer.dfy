/** The optimizer that simplifies arithmetical expressions
    (SimplifyArithmExprOptimizer): it walks the initializers of global
    variables and the bodies of defined functions, offers every node of the
    seventeen simplifiable classes to each of its sub-optimizers, and repeats
    the walk until a walk changes nothing. */
module SimplifyArithmExprOptimizers {
  import opened Syntax

  /** The evaluator of arithmetical expressions handed to sub-optimizers
      (its workings are not part of this model). */
  datatype ArithmExprEvaluator = ArithmExprEvaluator(id: string)

  /** A sub-optimizer: the id it was registered under and its evaluator. */
  datatype SubOptimizer = SubOptimizer(id: string, evaluator: ArithmExprEvaluator)

  /** What one sub-optimizer's tryOptimize did to the node it was offered.
      A sub-optimizer rewrites through the observers of the nodes it visits:
      it either changed nothing, or rewrote operands beneath the node (the
      node stays in the tree and now reads as `node`), or replaced the node
      itself in its parent (the node is detached and `replacement` stands in its
      place). */
  datatype Rewrite =
    | Unchanged
    | RewroteInPlace(node: Expr)
    | ReplacedNode(replacement: Expr)

  /** The behaviour of the sub-optimizers: what each does to a node. */
  type Rewriter = (SubOptimizer, Expr) -> Rewrite

  /** The state of one offering to the sub-optimizers: whether one of them
      reported a change, whether the offered node is still in the tree,
      what the offered node now reads as, and what stands in the tree
      where it stood. */
  datatype Offering = Offering(changed: bool, attached: bool, node: Expr, expr: Expr)

  datatype Outcome = Outcome(changed: bool, expr: Expr)

  datatype Outcomes = Outcomes(changed: bool, exprs: seq<Expr>)

  /** A function definition (declarations have no body and are skipped).
      The body is given as its expressions, in the order a walk meets them. */
  datatype FuncDef = FuncDef(name: string, body: Option<seq<Expr>>)

  /** The binary operators whose nodes the optimizer offers to its
      sub-optimizers. */
  predicate SimplifiableOp(op: BinaryOp)
  {
    op in {AddOp, SubOp, MulOp, DivOp, ModOp, BitAndOp, BitOrOp, BitXorOp,
           LtOp, LtEqOp, GtOp, GtEqOp, EqOp, NeqOp, OrOp}
  }

  /** The seventeen node classes with a visit override: fifteen binary
      operators, logical negation and the ternary operator. */
  predicate Simplifiable(e: Expr)
  {
    (e.Binary? && SimplifiableOp(e.op)) || e.Not? || e.Ternary?
  }

  /** One iteration of tryOptimizeInSubOptimizations: sub-optimizer x is
      handed the offered node as it now reads. Trees are unshared values, so
      once the node is detached nothing done to it reaches the tree. */
  function Offer(x: SubOptimizer, rw: Rewriter, o: Offering): (r: Offering)
    ensures r.changed == (o.changed || !rw(x, o.node).Unchanged?)
    ensures r.attached == (o.attached && !rw(x, o.node).ReplacedNode?)
    ensures !o.attached ==> r.expr == o.expr
  {
    match rw(x, o.node)
    case Unchanged => o
    case RewroteInPlace(n) => Offering(true, o.attached, n, if o.attached then n else o.expr)
    case ReplacedNode(n) => Offering(true, false, o.node, if o.attached then n else o.expr)
  }

  /** tryOptimizeInSubOptimizations on one node: the sub-optimizers are
      handed the same node in order, with no short cut. */
  function TryAll(subs: seq<SubOptimizer>, rw: Rewriter, e: Expr): (r: Offering)
    ensures !r.changed ==> r == Offering(false, true, e, e)
    ensures r.attached ==> r.expr == r.node
    decreases |subs|
  {
    if subs == [] then Offering(false, true, e, e)
    else Offer(subs[|subs| - 1], rw, TryAll(subs[..|subs| - 1], rw, e))
  }

  /** The node as sub-optimizer i is handed it: rewritten in place by the
      sub-optimizers before it. */
  function OfferedTo(subs: seq<SubOptimizer>, rw: Rewriter, e: Expr, i: nat): Expr
    requires i <= |subs|
  {
    TryAll(subs[..i], rw, e).node
  }

  /** Some sub-optimizer reports a change on node n as it is handed it. */
  predicate Rewritable(subs: seq<SubOptimizer>, rw: Rewriter, n: Expr)
  {
    exists i :: 0 <= i < |subs| && !rw(subs[i], OfferedTo(subs, rw, n, i)).Unchanged?
  }

  /** Sub-optimizer i replaces the node, and none before it did. */
  predicate IsFirstReplacement(subs: seq<SubOptimizer>, rw: Rewriter, e: Expr, i: nat)
    requires i < |subs|
  {
    rw(subs[i], OfferedTo(subs, rw, e, i)).ReplacedNode? &&
    forall j :: 0 <= j < i ==> !rw(subs[j], OfferedTo(subs, rw, e, j)).ReplacedNode?
  }

  /** Taking off the last sub-optimizer does not change what the others are
      handed. */
  lemma OfferedToPrefix(subs: seq<SubOptimizer>, rw: Rewriter, e: Expr, i: nat)
    requires i < |subs|
    ensures OfferedTo(subs[..|subs| - 1], rw, e, i) == OfferedTo(subs, rw, e, i)
  {
    assert subs[..|subs| - 1][..i] == subs[..i];
  }

  /** Some sub-optimizer of subs reports a change exactly when one before
      the last does, or the last one does. */
  lemma RewritableSnoc(subs: seq<SubOptimizer>, rw: Rewriter, e: Expr)
    requires subs != []
    ensures var n := |subs| - 1;
      Rewritable(subs, rw, e) <==>
        Rewritable(subs[..n], rw, e) || !rw(subs[n], OfferedTo(subs, rw, e, n)).Unchanged?
  {
    var n := |subs| - 1;
    var p := subs[..n];
    if Rewritable(p, rw, e) {
      var i :| 0 <= i < |p| && !rw(p[i], OfferedTo(p, rw, e, i)).Unchanged?;
      OfferedToPrefix(subs, rw, e, i);
      assert !rw(subs[i], OfferedTo(subs, rw, e, i)).Unchanged?;
    }
    if Rewritable(subs, rw, e) {
      var i :| 0 <= i < |subs| && !rw(subs[i], OfferedTo(subs, rw, e, i)).Unchanged?;
      if i < n {
        OfferedToPrefix(subs, rw, e, i);
        assert !rw(p[i], OfferedTo(p, rw, e, i)).Unchanged?;
      }
    }
  }

  /** The change flag is set exactly when some sub-optimizer reports a
      change. */
  lemma {:induction false} TryAllChangedIff(subs: seq<SubOptimizer>, rw: Rewriter, e: Expr)
    ensures TryAll(subs, rw, e).changed <==> Rewritable(subs, rw, e)
    decreases |subs|
  {
    if subs != [] {
      var n := |subs| - 1;
      var p := subs[..n];
      TryAllChangedIff(p, rw, e);
      assert OfferedTo(subs, rw, e, n) == TryAll(p, rw, e).node;
      RewritableSnoc(subs, rw, e);
    }
  }

  /** The node stays in the tree exactly when no sub-optimizer replaces it
      (and then what stands there is the node as last rewritten). */
  lemma {:induction false} TryAllAttachedIff(subs: seq<SubOptimizer>, rw: Rewriter, e: Expr)
    ensures TryAll(subs, rw, e).attached <==>
      forall i :: 0 <= i < |subs| ==> !rw(subs[i], OfferedTo(subs, rw, e, i)).ReplacedNode?
    decreases |subs|
  {
    if subs != [] {
      var n := |subs| - 1;
      var p := subs[..n];
      TryAllAttachedIff(p, rw, e);
      assert subs[..n] == p;
      assert OfferedTo(subs, rw, e, n) == TryAll(p, rw, e).node;
      if TryAll(subs, rw, e).attached {
        forall i | 0 <= i < |subs|
          ensures !rw(subs[i], OfferedTo(subs, rw, e, i)).ReplacedNode?
        {
          if i < n {
            OfferedToPrefix(subs, rw, e, i);
            assert !rw(p[i], OfferedTo(p, rw, e, i)).ReplacedNode?;
          }
        }
      } else if !TryAll(p, rw, e).attached {
        var i :| 0 <= i < |p| && rw(p[i], OfferedTo(p, rw, e, i)).ReplacedNode?;
        OfferedToPrefix(subs, rw, e, i);
        assert rw(subs[i], OfferedTo(subs, rw, e, i)).ReplacedNode?;
      }
    }
  }

  /** Once the node is replaced, the tree holds the replacement made by the
      first sub-optimizer that replaced it; later sub-optimizers act on the
      detached node only (with trees as unshared values, as in Offer). */
  lemma {:induction false} TryAllFirstReplacementWins(subs: seq<SubOptimizer>, rw: Rewriter, e: Expr)
    ensures !TryAll(subs, rw, e).attached ==>
      exists i :: 0 <= i < |subs| && IsFirstReplacement(subs, rw, e, i) &&
        rw(subs[i], OfferedTo(subs, rw, e, i)) == ReplacedNode(TryAll(subs, rw, e).expr)
    decreases |subs|
  {
    if subs != [] && !TryAll(subs, rw, e).attached {
      var n := |subs| - 1;
      var p := subs[..n];
      if TryAll(p, rw, e).attached {
        LastReplacesFirst(subs, rw, e);
      } else {
        TryAllFirstReplacementWins(p, rw, e);
        var i :| 0 <= i < |p| && IsFirstReplacement(p, rw, e, i) &&
          rw(p[i], OfferedTo(p, rw, e, i)) == ReplacedNode(TryAll(p, rw, e).expr);
        FirstReplacementInPrefix(subs, rw, e, i);
      }
    }
  }

  /** When the node survives all sub-optimizers but the last and the last
      replaces it, the last one made the first replacement. */
  lemma LastReplacesFirst(subs: seq<SubOptimizer>, rw: Rewriter, e: Expr)
    requires subs != []
    requires TryAll(subs[..|subs| - 1], rw, e).attached && !TryAll(subs, rw, e).attached
    ensures IsFirstReplacement(subs, rw, e, |subs| - 1)
    ensures rw(subs[|subs| - 1], OfferedTo(subs, rw, e, |subs| - 1)) == ReplacedNode(TryAll(subs, rw, e).expr)
  {
    var n := |subs| - 1;
    var p := subs[..n];
    assert subs[..n] == p;
    TryAllAttachedIff(p, rw, e);
    forall j | 0 <= j < n
      ensures !rw(subs[j], OfferedTo(subs, rw, e, j)).ReplacedNode?
    {
      OfferedToPrefix(subs, rw, e, j);
      assert p[j] == subs[j];
    }
  }

  /** A first replacement among all sub-optimizers but the last stays the
      first one when the last is added, and replaces with the same node. */
  lemma FirstReplacementInPrefix(subs: seq<SubOptimizer>, rw: Rewriter, e: Expr, i: nat)
    requires i < |subs| - 1
    requires IsFirstReplacement(subs[..|subs| - 1], rw, e, i)
    ensures IsFirstReplacement(subs, rw, e, i)
    ensures rw(subs[i], OfferedTo(subs, rw, e, i)) ==
      rw(subs[..|subs| - 1][i], OfferedTo(subs[..|subs| - 1], rw, e, i))
  {
    var p := subs[..|subs| - 1];
    forall j | 0 <= j <= i
      ensures rw(subs[j], OfferedTo(subs, rw, e, j)) == rw(p[j], OfferedTo(p, rw, e, j))
    {
      OfferedToPrefix(subs, rw, e, j);
    }
  }

  /** The node after each sub-optimizer in turn rewrote it in place, as a
      definition by the first sub-optimizer. */
  function InPlaceChain(subs: seq<SubOptimizer>, rw: Rewriter, e: Expr): Expr
    decreases |subs|
  {
    if subs == [] then e
    else
      match rw(subs[0], e)
      case RewroteInPlace(n) => InPlaceChain(subs[1..], rw, n)
      case _ => InPlaceChain(subs[1..], rw, e)
  }

  /** No sub-optimizer ever replaces the node it is handed as a whole. */
  ghost predicate OnlyInPlace(subs: seq<SubOptimizer>, rw: Rewriter)
  {
    forall i, n :: 0 <= i < |subs| ==> !rw(subs[i], n).ReplacedNode?
  }

  lemma {:induction false} InPlaceChainSnoc(subs: seq<SubOptimizer>, x: SubOptimizer, rw: Rewriter, e: Expr)
    ensures InPlaceChain(subs + [x], rw, e) ==
      var c := InPlaceChain(subs, rw, e);
      if rw(x, c).RewroteInPlace? then rw(x, c).node else c
    decreases |subs|
  {
    if subs != [] {
      assert (subs + [x])[1..] == subs[1..] + [x];
      match rw(subs[0], e)
      case RewroteInPlace(n) => InPlaceChainSnoc(subs[1..], x, rw, n);
      case _ => InPlaceChainSnoc(subs[1..], x, rw, e);
    }
  }

  /** When the sub-optimizers only rewrite beneath the node, every rewrite
      takes effect: each sub-optimizer sees the node as the ones before it
      left it, and the tree holds the node after all of them. */
  lemma {:induction false} TryAllComposesInPlaceRewrites(subs: seq<SubOptimizer>, rw: Rewriter, e: Expr)
    requires OnlyInPlace(subs, rw)
    ensures TryAll(subs, rw, e).attached
    ensures TryAll(subs, rw, e).expr == InPlaceChain(subs, rw, e)
    decreases |subs|
  {
    if subs != [] {
      var n := |subs| - 1;
      var p := subs[..n];
      assert OnlyInPlace(p, rw);
      TryAllComposesInPlaceRewrites(p, rw, e);
      assert p + [subs[n]] == subs;
      InPlaceChainSnoc(p, subs[n], rw, e);
    }
  }

  /** Two sub-optimizers that each fold beneath the node: the second works
      on the first one's result, and both rewrites stay in the tree. */
  lemma TwoInPlaceRewritesCompose(s0: SubOptimizer, s1: SubOptimizer, rw: Rewriter, e: Expr, n1: Expr, n2: Expr)
    requires rw(s0, e) == RewroteInPlace(n1) && rw(s1, n1) == RewroteInPlace(n2)
    ensures TryAll([s0, s1], rw, e) == Offering(true, true, n2, n2)
  {
    assert [s0, s1][..1] == [s0];
    assert [s0][..0] == [];
    assert TryAll([s0], rw, e) == Offer(s0, rw, Offering(false, true, e, e));
    assert TryAll([s0], rw, e) == Offering(true, true, n1, n1);
    assert TryAll([s0, s1], rw, e) == Offer(s1, rw, TryAll([s0], rw, e));
  }

  /** One walk over an expression: a node of a simplifiable class is offered
      to the sub-optimizers and its operands are not visited; any other node
      has its operands visited left to right. */
  function VisitExpr(subs: seq<SubOptimizer>, rw: Rewriter, e: Expr): (r: Outcome)
    ensures !r.changed ==> r.expr == e
  {
    if Simplifiable(e) then
      var o := TryAll(subs, rw, e);
      Outcome(o.changed, o.expr)
    else
      match e
      case Deref(x) =>
        var o := VisitExpr(subs, rw, x);
        Outcome(o.changed, Deref(o.expr))
      case AddressOf(x) =>
        var o := VisitExpr(subs, rw, x);
        Outcome(o.changed, AddressOf(o.expr))
      case Neg(x) =>
        var o := VisitExpr(subs, rw, x);
        Outcome(o.changed, Neg(o.expr))
      case Binary(op, l, rr) =>
        var ol := VisitExpr(subs, rw, l);
        var or := VisitExpr(subs, rw, rr);
        Outcome(ol.changed || or.changed, Binary(op, ol.expr, or.expr))
      case Call(c, args) =>
        var oc := VisitExpr(subs, rw, c);
        var oa := VisitExprs(subs, rw, args);
        Outcome(oc.changed || oa.changed, Call(oc.expr, oa.exprs))
      case _ => Outcome(false, e)
  }

  /** One walk over a list of expressions, in order. */
  function VisitExprs(subs: seq<SubOptimizer>, rw: Rewriter, es: seq<Expr>): (r: Outcomes)
    ensures |r.exprs| == |es|
    ensures !r.changed ==> r.exprs == es
  {
    if es == [] then Outcomes(false, [])
    else
      var o := VisitExpr(subs, rw, es[0]);
      var rest := VisitExprs(subs, rw, es[1..]);
      Outcomes(o.changed || rest.changed, [o.expr] + rest.exprs)
  }

  /** The nodes a walk offers to the sub-optimizers, in order: the topmost
      nodes of a simplifiable class. */
  function OfferedNodes(e: Expr): (r: seq<Expr>)
    ensures forall n :: n in r ==> Simplifiable(n)
  {
    if Simplifiable(e) then [e]
    else
      match e
      case Deref(x) => OfferedNodes(x)
      case AddressOf(x) => OfferedNodes(x)
      case Neg(x) => OfferedNodes(x)
      case Binary(_, l, rr) => OfferedNodes(l) + OfferedNodes(rr)
      case Call(c, args) => OfferedNodes(c) + OfferedNodesAll(args)
      case _ => []
  }

  function OfferedNodesAll(es: seq<Expr>): (r: seq<Expr>)
    ensures forall n :: n in r ==> Simplifiable(n)
  {
    if es == [] then [] else OfferedNodes(es[0]) + OfferedNodesAll(es[1..])
  }

  /** A walk reports a change exactly when some sub-optimizer rewrites some
      offered node. */
  lemma {:induction false} VisitChangedIff(subs: seq<SubOptimizer>, rw: Rewriter, e: Expr)
    ensures VisitExpr(subs, rw, e).changed <==> exists n :: n in OfferedNodes(e) && Rewritable(subs, rw, n)
  {
    if Simplifiable(e) {
      TryAllChangedIff(subs, rw, e);
    } else {
      match e
      case Deref(x) => VisitChangedIff(subs, rw, x);
      case AddressOf(x) => VisitChangedIff(subs, rw, x);
      case Neg(x) => VisitChangedIff(subs, rw, x);
      case Binary(_, l, rr) =>
        VisitChangedIff(subs, rw, l);
        VisitChangedIff(subs, rw, rr);
      case Call(c, args) =>
        VisitChangedIff(subs, rw, c);
        VisitsChangedIff(subs, rw, args);
      case _ =>
    }
  }

  lemma {:induction false} VisitsChangedIff(subs: seq<SubOptimizer>, rw: Rewriter, es: seq<Expr>)
    ensures VisitExprs(subs, rw, es).changed <==> exists n :: n in OfferedNodesAll(es) && Rewritable(subs, rw, n)
  {
    if es != [] {
      VisitChangedIff(subs, rw, es[0]);
      VisitsChangedIff(subs, rw, es[1..]);
    }
  }

  /** Without sub-optimizers a walk changes nothing. */
  lemma {:induction false} NoSubOptimizersNoChange(rw: Rewriter, e: Expr)
    ensures VisitExpr([], rw, e) == Outcome(false, e)
  {
    VisitChangedIff([], rw, e);
  }

  /** An expression without a node of a simplifiable class is left alone,
      whatever the sub-optimizers do. */
  lemma {:induction false} NothingOfferedNoChange(subs: seq<SubOptimizer>, rw: Rewriter, e: Expr)
    requires OfferedNodes(e) == []
    ensures VisitExpr(subs, rw, e) == Outcome(false, e)
  {
    VisitChangedIff(subs, rw, e);
  }

  /** k successive walks. */
  function Passes(subs: seq<SubOptimizer>, rw: Rewriter, e: Expr, k: nat): Expr
  {
    if k == 0 then e else VisitExpr(subs, rw, Passes(subs, rw, e, k - 1)).expr
  }

  function BodyPasses(subs: seq<SubOptimizer>, rw: Rewriter, es: seq<Expr>, k: nat): seq<Expr>
  {
    if k == 0 then es else VisitExprs(subs, rw, BodyPasses(subs, rw, es, k - 1)).exprs
  }

  /** Once a walk reports no change, every further walk returns the same
      expression and reports no change. */
  lemma {:induction false} FixpointIsStable(subs: seq<SubOptimizer>, rw: Rewriter, e: Expr, k: nat)
    requires !VisitExpr(subs, rw, e).changed
    ensures Passes(subs, rw, e, k) == e
  {
    if k > 0 {
      FixpointIsStable(subs, rw, e, k - 1);
    }
  }

  /** Each of the first n walks, starting from e, reports a change: a
      repetition given n walks of fuel uses them all. */
  ghost predicate WalksKeepChanging(subs: seq<SubOptimizer>, rw: Rewriter, e: Expr, n: nat)
  {
    forall j :: 0 <= j < n ==> VisitExpr(subs, rw, Passes(subs, rw, e, j)).changed
  }

  /** The same for the walks over a function body. */
  ghost predicate BodyWalksKeepChanging(subs: seq<SubOptimizer>, rw: Rewriter, es: seq<Expr>, n: nat)
  {
    forall j :: 0 <= j < n ==> VisitExprs(subs, rw, BodyPasses(subs, rw, es, j)).changed
  }

  /** The initializer of global j uses up all n walks. */
  ghost predicate InitKeepsChanging(subs: seq<SubOptimizer>, rw: Rewriter, globals: seq<GlobalVarDef>, j: int, n: nat)
  {
    0 <= j < |globals| && globals[j].init.Some? &&
    WalksKeepChanging(subs, rw, globals[j].init.value, n)
  }

  /** Some global's initializer uses up all n walks. */
  ghost predicate SomeInitKeepsChanging(subs: seq<SubOptimizer>, rw: Rewriter, globals: seq<GlobalVarDef>, n: nat)
  {
    exists j :: InitKeepsChanging(subs, rw, globals, j, n)
  }

  /** The body of function j uses up all n walks. */
  ghost predicate BodyKeepsChanging(subs: seq<SubOptimizer>, rw: Rewriter, funcs: seq<FuncDef>, j: int, n: nat)
  {
    0 <= j < |funcs| && funcs[j].body.Some? &&
    BodyWalksKeepChanging(subs, rw, funcs[j].body.value, n)
  }

  /** Some function definition's body uses up all n walks. */
  ghost predicate SomeBodyKeepsChanging(subs: seq<SubOptimizer>, rw: Rewriter, funcs: seq<FuncDef>, n: nat)
  {
    exists j :: BodyKeepsChanging(subs, rw, funcs, j, n)
  }

  /** Without sub-optimizers the first walk already reports no change, so a
      repetition with any fuel stops on its own. */
  lemma NoSubOptimizersStopAtOnce(rw: Rewriter, e: Expr, n: nat)
    requires n > 0
    ensures !WalksKeepChanging([], rw, e, n)
  {
    NoSubOptimizersNoChange(rw, e);
    assert Passes([], rw, e, 0) == e;
  }

  /** Every initializer of a global variable is a fixpoint of the walk. */
  ghost predicate GlobalsAtFixpoint(subs: seq<SubOptimizer>, rw: Rewriter, globals: seq<GlobalVarDef>)
  {
    forall j :: 0 <= j < |globals| && globals[j].init.Some? ==> !VisitExpr(subs, rw, globals[j].init.value).changed
  }

  /** Every body of a defined function is a fixpoint of the walk. */
  ghost predicate FuncsAtFixpoint(subs: seq<SubOptimizer>, rw: Rewriter, funcs: seq<FuncDef>)
  {
    forall j :: 0 <= j < |funcs| && funcs[j].body.Some? ==> !VisitExprs(subs, rw, funcs[j].body.value).changed
  }

  /** g is g0 after at most fuel walks of its initializer; the variable and
      the presence of an initializer are kept. */
  ghost predicate GlobalRewritten(subs: seq<SubOptimizer>, rw: Rewriter, g0: GlobalVarDef, g: GlobalVarDef, fuel: nat)
  {
    g.v == g0.v && g.init.Some? == g0.init.Some? &&
    (g.init.Some? ==> exists k :: 0 <= k <= fuel && g.init.value == Passes(subs, rw, g0.init.value, k))
  }

  /** f is f0 after at most fuel walks of its body; the name and the
      presence of a body are kept. */
  ghost predicate FuncRewritten(subs: seq<SubOptimizer>, rw: Rewriter, f0: FuncDef, f: FuncDef, fuel: nat)
  {
    f.name == f0.name && f.body.Some? == f0.body.Some? &&
    (f.body.Some? ==> exists k :: 0 <= k <= fuel && f.body.value == BodyPasses(subs, rw, f0.body.value, k))
  }

  /** Some function of the list has a body. */
  ghost predicate HasDefinition(funcs: seq<FuncDef>)
  {
    exists j :: 0 <= j < |funcs| && funcs[j].body.Some?
  }

  /** A longer prefix has a definition iff the shorter one has, or the
      function added is one. */
  lemma HasDefinitionPrefix(funcs: seq<FuncDef>, i: nat)
    requires i < |funcs|
    ensures HasDefinition(funcs[..i + 1]) <==> HasDefinition(funcs[..i]) || funcs[i].body.Some?
  {
    if HasDefinition(funcs[..i + 1]) {
      var j :| 0 <= j < i + 1 && funcs[..i + 1][j].body.Some?;
      if j < i {
        assert funcs[..i][j] == funcs[j];
      }
    }
    if HasDefinition(funcs[..i]) {
      var j :| 0 <= j < i && funcs[..i][j].body.Some?;
      assert funcs[..i + 1][j] == funcs[j];
    }
    if funcs[i].body.Some? {
      assert funcs[..i + 1][i] == funcs[i];
    }
  }

  /** The module being optimized: its global variables and its functions. */
  class Module {
    var globals: seq<GlobalVarDef>
    var funcs: seq<FuncDef>

    constructor (globals: seq<GlobalVarDef>, funcs: seq<FuncDef>)
      ensures this.globals == globals && this.funcs == funcs
    {
      this.globals := globals;
      this.funcs := funcs;
    }
  }

  class SimplifyArithmExprOptimizer {
    const irModule: Module
    var subOptims: seq<SubOptimizer>
    var codeChanged: bool
    /** The behaviour of the registered sub-optimizer classes. */
    const tryOptimize: Rewriter

    /** The constructor: one sub-optimizer per registered id, all sharing
        the given evaluator. The ids registered with the sub-optimizer
        factory and the behaviour of their classes are parameters. */
    constructor (irModule: Module, evaluator: ArithmExprEvaluator, registered: seq<string>, tryOptimize: Rewriter)
      ensures this.irModule == irModule && this.tryOptimize == tryOptimize
      ensures |subOptims| == |registered|
      ensures forall i :: 0 <= i < |registered| ==> subOptims[i] == SubOptimizer(registered[i], evaluator)
    {
      this.irModule := irModule;
      this.tryOptimize := tryOptimize;
      this.subOptims := [];
      this.codeChanged := false;
      new;
      CreateSubOptimizers(evaluator, registered);
    }

    /** createSubOptimizers: appends one sub-optimizer per registered id, in
        registration order. */
    method CreateSubOptimizers(evaluator: ArithmExprEvaluator, registered: seq<string>)
      modifies this`subOptims
      ensures |subOptims| == |old(subOptims)| + |registered|
      ensures subOptims[..|old(subOptims)|] == old(subOptims)
      ensures forall i :: 0 <= i < |registered| ==>
        subOptims[|old(subOptims)| + i] == SubOptimizer(registered[i], evaluator)
    {
      for i := 0 to |registered|
        invariant |subOptims| == |old(subOptims)| + i
        invariant subOptims[..|old(subOptims)|] == old(subOptims)
        invariant forall j :: 0 <= j < i ==> subOptims[|old(subOptims)| + j] == SubOptimizer(registered[j], evaluator)
      {
        subOptims := subOptims + [SubOptimizer(registered[i], evaluator)];
      }
    }

    /** tryOptimizeInSubOptimizations: offers the node to every
        sub-optimizer and ors their answers into codeChanged; returns the
        expression now standing where the node stood. */
    method TryOptimizeInSubOptimizations(e: Expr) returns (r: Expr)
      modifies this`codeChanged
      ensures var o := TryAll(subOptims, tryOptimize, e);
        r == o.expr && codeChanged == (old(codeChanged) || o.changed)
    {
      var o := Offering(false, true, e, e);
      for i := 0 to |subOptims|
        invariant TryAll(subOptims[..i], tryOptimize, e) == o
        invariant codeChanged == (old(codeChanged) || o.changed)
      {
        assert subOptims[..i + 1][..i] == subOptims[..i];
        var res := tryOptimize(subOptims[i], o.node);
        codeChanged := codeChanged || !res.Unchanged?;
        o := Offer(subOptims[i], tryOptimize, o);
      }
      assert subOptims[..|subOptims|] == subOptims;
      r := o.expr;
    }

    /** The seventeen visit overrides, each of which hands its node to
        tryOptimizeInSubOptimizations, together with the walk over the
        operands of every other node. */
    method Visit(e: Expr) returns (r: Expr)
      modifies this`codeChanged
      ensures var o := VisitExpr(subOptims, tryOptimize, e);
        r == o.expr && codeChanged == (old(codeChanged) || o.changed)
    {
      if Simplifiable(e) {
        r := TryOptimizeInSubOptimizations(e);
        return;
      }
      match e
      case Deref(x) =>
        var x' := Visit(x);
        r := Deref(x');
      case AddressOf(x) =>
        var x' := Visit(x);
        r := AddressOf(x');
      case Neg(x) =>
        var x' := Visit(x);
        r := Neg(x');
      case Binary(op, l, rr) =>
        var l' := Visit(l);
        var r' := Visit(rr);
        r := Binary(op, l', r');
      case Call(c, args) =>
        var c' := Visit(c);
        var args' := VisitAll(args);
        r := Call(c', args');
      case _ =>
        r := e;
    }

    method VisitAll(es: seq<Expr>) returns (rs: seq<Expr>)
      modifies this`codeChanged
      ensures var o := VisitExprs(subOptims, tryOptimize, es);
        rs == o.exprs && codeChanged == (old(codeChanged) || o.changed)
    {
      if es == [] {
        rs := [];
      } else {
        var first := Visit(es[0]);
        var rest := VisitAll(es[1..]);
        rs := [first] + rest;
      }
    }

    /** The do-while loop of doOptimization for one global initializer: the
        flag is cleared and the initializer walked, until a walk reports no
        change or fuel walks are done. */
    method RepeatOnInit(e0: Expr, fuel: nat) returns (e: Expr, fixed: bool)
      modifies this`codeChanged
      ensures exists k :: 0 <= k <= fuel && e == Passes(subOptims, tryOptimize, e0, k)
      ensures fixed ==> !VisitExpr(subOptims, tryOptimize, e).changed && !codeChanged
      ensures !fixed ==>
        e == Passes(subOptims, tryOptimize, e0, fuel) && WalksKeepChanging(subOptims, tryOptimize, e0, fuel)
    {
      e := e0;
      var passes := 0;
      var again := true;
      while again && passes < fuel
        modifies this`codeChanged
        invariant passes <= fuel
        invariant e == Passes(subOptims, tryOptimize, e0, passes)
        invariant !again ==> !VisitExpr(subOptims, tryOptimize, e).changed
        invariant again ==> WalksKeepChanging(subOptims, tryOptimize, e0, passes)
        invariant passes == 0 ==> again
        invariant passes > 0 ==> again == codeChanged
        decreases fuel - passes
      {
        codeChanged := false;
        e := Visit(e);
        passes := passes + 1;
        again := codeChanged;
      }
      fixed := !again;
    }

    /** The same do-while loop for the body of one function definition. */
    method RepeatOnBody(body0: seq<Expr>, fuel: nat) returns (body: seq<Expr>, fixed: bool)
      modifies this`codeChanged
      ensures exists k :: 0 <= k <= fuel && body == BodyPasses(subOptims, tryOptimize, body0, k)
      ensures fixed ==> !VisitExprs(subOptims, tryOptimize, body).changed && !codeChanged
      ensures !fixed ==>
        body == BodyPasses(subOptims, tryOptimize, body0, fuel) && BodyWalksKeepChanging(subOptims, tryOptimize, body0, fuel)
    {
      body := body0;
      var passes := 0;
      var again := true;
      while again && passes < fuel
        modifies this`codeChanged
        invariant passes <= fuel
        invariant body == BodyPasses(subOptims, tryOptimize, body0, passes)
        invariant !again ==> !VisitExprs(subOptims, tryOptimize, body).changed
        invariant again ==> BodyWalksKeepChanging(subOptims, tryOptimize, body0, passes)
        invariant passes == 0 ==> again
        invariant passes > 0 ==> again == codeChanged
        decreases fuel - passes
      {
        codeChanged := false;
        body := VisitAll(body);
        passes := passes + 1;
        again := codeChanged;
      }
      fixed := !again;
    }

    /** The first loop of doOptimization: each global initializer is walked
        again until a walk reports no change, at most fuel times. A global
        without an initializer takes one round that only clears the flag. */
    method OptimizeGlobals(fuel: nat) returns (converged: bool)
      modifies irModule`globals, this`codeChanged
      ensures |irModule.globals| == |old(irModule.globals)|
      ensures forall j :: 0 <= j < |irModule.globals| ==>
        GlobalRewritten(subOptims, tryOptimize, old(irModule.globals[j]), irModule.globals[j], fuel)
      ensures converged ==> GlobalsAtFixpoint(subOptims, tryOptimize, irModule.globals)
      ensures !converged ==> SomeInitKeepsChanging(subOptims, tryOptimize, old(irModule.globals), fuel)
      ensures |irModule.globals| > 0 ==> (converged ==> !codeChanged)
      ensures |irModule.globals| == 0 ==> converged && codeChanged == old(codeChanged)
    {
      converged := true;
      ghost var globals0 := irModule.globals;
      for i := 0 to |irModule.globals|
        invariant |irModule.globals| == |globals0|
        invariant forall j :: i <= j < |irModule.globals| ==> irModule.globals[j] == globals0[j]
        invariant forall j :: 0 <= j < i ==>
          GlobalRewritten(subOptims, tryOptimize, globals0[j], irModule.globals[j], fuel)
        invariant converged ==> GlobalsAtFixpoint(subOptims, tryOptimize, irModule.globals[..i])
        invariant i > 0 ==> (converged ==> !codeChanged)
        invariant i == 0 ==> converged && codeChanged == old(codeChanged)
        invariant !converged ==> SomeInitKeepsChanging(subOptims, tryOptimize, globals0, fuel)
      {
        var g := irModule.globals[i];
        if g.init.Some? {
          var e, fixed := RepeatOnInit(g.init.value, fuel);
          if !fixed {
            converged := false;
            assert InitKeepsChanging(subOptims, tryOptimize, globals0, i, fuel);
          }
          irModule.globals := irModule.globals[i := GlobalVarDef(g.v, Some(e))];
        } else {
          codeChanged := false;
        }
        assert irModule.globals[..i + 1] == irModule.globals[..i] + [irModule.globals[i]];
      }
      assert irModule.globals[..|irModule.globals|] == irModule.globals;
    }

    /** The second loop of doOptimization: each function definition's body
        is walked again until a walk reports no change, at most fuel times.
        Declarations are not visited. */
    method OptimizeFunctions(fuel: nat) returns (converged: bool)
      modifies irModule`funcs, this`codeChanged
      ensures |irModule.funcs| == |old(irModule.funcs)|
      ensures forall j :: 0 <= j < |irModule.funcs| ==>
        FuncRewritten(subOptims, tryOptimize, old(irModule.funcs[j]), irModule.funcs[j], fuel)
      ensures converged ==> FuncsAtFixpoint(subOptims, tryOptimize, irModule.funcs)
      ensures !converged ==> SomeBodyKeepsChanging(subOptims, tryOptimize, old(irModule.funcs), fuel)
      ensures HasDefinition(old(irModule.funcs)) ==> (converged ==> !codeChanged)
      ensures !HasDefinition(old(irModule.funcs)) ==> converged && codeChanged == old(codeChanged)
    {
      converged := true;
      ghost var funcs0 := irModule.funcs;
      for i := 0 to |irModule.funcs|
        invariant |irModule.funcs| == |funcs0|
        invariant forall j :: i <= j < |irModule.funcs| ==> irModule.funcs[j] == funcs0[j]
        invariant forall j :: 0 <= j < i ==>
          FuncRewritten(subOptims, tryOptimize, funcs0[j], irModule.funcs[j], fuel)
        invariant converged ==> FuncsAtFixpoint(subOptims, tryOptimize, irModule.funcs[..i])
        invariant HasDefinition(funcs0[..i]) ==> (converged ==> !codeChanged)
        invariant !HasDefinition(funcs0[..i]) ==> converged && codeChanged == old(codeChanged)
        invariant !converged ==> SomeBodyKeepsChanging(subOptims, tryOptimize, funcs0, fuel)
      {
        var f := irModule.funcs[i];
        HasDefinitionPrefix(funcs0, i);
        if f.body.Some? {
          var body, fixed := RepeatOnBody(f.body.value, fuel);
          if !fixed {
            converged := false;
            assert BodyKeepsChanging(subOptims, tryOptimize, funcs0, i, fuel);
          }
          irModule.funcs := irModule.funcs[i := FuncDef(f.name, Some(body))];
        }
        assert irModule.funcs[..i + 1] == irModule.funcs[..i] + [irModule.funcs[i]];
      }
      assert irModule.funcs[..|irModule.funcs|] == irModule.funcs;
      assert funcs0[..|funcs0|] == funcs0;
    }

    /** doOptimization: every global initializer, and then every function
        body, is walked repeatedly until a walk reports no change. Each
        repetition is bounded by fuel walks; the result says whether every
        repetition reached a walk without change, and then every
        initializer and every body is a fixpoint and the flag is left
        clear; otherwise some initializer or body used up all its walks,
        each of them reporting a change. */
    method DoOptimization(fuel: nat) returns (converged: bool)
      modifies irModule, this`codeChanged
      ensures |irModule.globals| == |old(irModule.globals)| && |irModule.funcs| == |old(irModule.funcs)|
      ensures forall j :: 0 <= j < |irModule.globals| ==>
        GlobalRewritten(subOptims, tryOptimize, old(irModule.globals[j]), irModule.globals[j], fuel)
      ensures forall j :: 0 <= j < |irModule.funcs| ==>
        FuncRewritten(subOptims, tryOptimize, old(irModule.funcs[j]), irModule.funcs[j], fuel)
      ensures converged ==> GlobalsAtFixpoint(subOptims, tryOptimize, irModule.globals)
      ensures converged ==> FuncsAtFixpoint(subOptims, tryOptimize, irModule.funcs)
      ensures converged && (|irModule.globals| > 0 || HasDefinition(old(irModule.funcs))) ==> !codeChanged
      ensures !converged ==>
        SomeInitKeepsChanging(subOptims, tryOptimize, old(irModule.globals), fuel) ||
        SomeBodyKeepsChanging(subOptims, tryOptimize, old(irModule.funcs), fuel)
    {
      var convergedGlobals := OptimizeGlobals(fuel);
      var convergedFuncs := OptimizeFunctions(fuel);
      converged := convergedGlobals && convergedFuncs;
    }
  }
}
