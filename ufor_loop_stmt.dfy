/** The universal for loop statement (UForLoopStmt): arbitrary init, cond
    and step expressions (each optional) and a body, plus a flag telling
    whether the init part defines the variable it assigns. */
module UForLoopStmts {
  import opened Syntax
  import opened Values

  /** The slots of a loop and its flag, taken together. */
  datatype Parts = Parts(init: Value?, cond: Value?, step: Value?, body: Value, initIsDefinition: bool)

  datatype Slot = InitSlot | CondSlot | StepSlot | BodySlot

  function SlotValue(p: Parts, s: Slot): Value?
  {
    match s
    case InitSlot => p.init
    case CondSlot => p.cond
    case StepSlot => p.step
    case BodySlot => p.body
  }

  function WithSlot(p: Parts, s: Slot, v: Value): Parts
  {
    match s
    case InitSlot => p.(init := v)
    case CondSlot => p.(cond := v)
    case StepSlot => p.(step := v)
    case BodySlot => p.(body := v)
  }

  /** The nodes a loop holds in its non-null slots. */
  function SlotSet(p: Parts): set<Value>
  {
    (if p.init != null then {p.init} else {}) +
    (if p.cond != null then {p.cond} else {}) +
    (if p.step != null then {p.step} else {}) +
    {p.body}
  }

  /** The slot that update(subject, arg) rewrites, if any: the body when the
      subject is the body and the argument a statement; otherwise, when the
      argument is an expression, the first of init, cond and step that holds
      the subject. */
  function UpdateTarget(p: Parts, subject: object, arg: Value?): (r: Option<Slot>)
    ensures r.Some? ==> arg != null && SlotValue(p, r.value) == subject
    ensures r == Some(BodySlot) <==> subject == p.body && arg != null && arg.IsStatement()
    ensures r.Some? && r.value != BodySlot ==> arg.IsExpression()
    ensures r == Some(CondSlot) ==> subject != p.init
    ensures r == Some(StepSlot) ==> subject != p.init && subject != p.cond
    ensures r.None? && arg != null && arg.IsExpression() ==>
      subject != p.init && subject != p.cond && subject != p.step
  {
    if subject == p.body && arg != null && arg.IsStatement() then Some(BodySlot)
    else if arg == null || !arg.IsExpression() then None
    else if subject == p.init then Some(InitSlot)
    else if subject == p.cond then Some(CondSlot)
    else if subject == p.step then Some(StepSlot)
    else None
  }

  /** The slots after replace(oldExpr, newExpr): init and step are set to
      newExpr when they hold oldExpr; cond is set to itself, so it keeps
      oldExpr; the body is never touched. */
  function ReplacedParts(p: Parts, oldExpr: Value?, newExpr: Value?): (q: Parts)
    requires p.init == oldExpr ==> newExpr != null
    requires p.step == oldExpr ==> newExpr != null
    ensures q.cond == p.cond && q.body == p.body && q.initIsDefinition == p.initIsDefinition
    ensures q.init == (if p.init == oldExpr then newExpr else p.init)
    ensures q.step == (if p.step == oldExpr then newExpr else p.step)
  {
    var p1 := if p.init == oldExpr then p.(init := newExpr) else p;
    if p.step == oldExpr then p1.(step := newExpr) else p1
  }

  /** The parts replace(oldExpr, newExpr) hands the request on to: each of
      init, cond and step that is present and does not hold oldExpr. */
  function ForwardedParts(p: Parts, oldExpr: Value?): (r: seq<Value>)
    ensures forall v :: v in r ==> v in SlotSet(p) && v != oldExpr
  {
    (if p.init != null && p.init != oldExpr then [p.init] else []) +
    (if p.cond != null && p.cond != oldExpr then [p.cond] else []) +
    (if p.step != null && p.step != oldExpr then [p.step] else [])
  }

  /** How many of the init, cond and step slots hold v. */
  function Occurrences(p: Parts, v: object): nat
  {
    (if p.init == v then 1 else 0) + (if p.cond == v then 1 else 0) + (if p.step == v then 1 else 0)
  }

  /** Structural equality of a present part with a possibly absent one. */
  predicate PartEqual(a: Value, b: Value?)
  {
    b != null && ShapeEqual(a.shape, b.shape)
  }

  class UForLoopStmt {
    var init: Value?
    var cond: Value?
    var step: Value?
    var body: Value
    var initIsDefinition: bool
    var succ: Value?
    const address: Address
    var metadata: Metadata

    function PartsOf(): Parts
      reads this
    {
      Parts(init, cond, step, body, initIsDefinition)
    }

    ghost function Slots(): set<Value>
      reads this
    {
      SlotSet(PartsOf())
    }

    /** The parts have the classes the source's static types demand. */
    ghost predicate WellTyped()
      reads this
    {
      (init != null ==> init.IsExpression()) &&
      (cond != null ==> cond.IsExpression()) &&
      (step != null ==> step.IsExpression()) &&
      body.IsStatement()
    }

    /** The loop observes every node it holds in a slot. */
    ghost predicate Valid()
      reads this, Slots()
    {
      WellTyped() &&
      (init != null ==> this in init.observers) && (cond != null ==> this in cond.observers) &&
      (step != null ==> this in step.observers) && this in body.observers
    }

    /** Among the nodes of U, the loop observes exactly those it holds in a
        slot. Valid() alone says only that every held node is observed. */
    ghost predicate ObservesExactly(U: set<Value>)
      reads this, U
    {
      forall v :: v in U ==> (this in v.observers <==> v == init || v == cond || v == step || v == body)
    }

    /** UForLoopStmt::create: init, cond and step may be absent; the loop
        registers as observer of every present part and of the body; the
        init part starts as not being a definition. */
    constructor Create(init: Value?, cond: Value?, step: Value?, body: Value, succ: Value?, a: Address)
      requires init != null ==> init.IsExpression()
      requires cond != null ==> cond.IsExpression()
      requires step != null ==> step.IsExpression()
      requires body.IsStatement()
      modifies init, cond, step, body
      ensures PartsOf() == Parts(init, cond, step, body, false)
      ensures this.succ == succ && address == a && metadata == NoMetadata
      ensures Valid()
      ensures forall v :: v in Slots() ==> v.observers == old(v.observers) + {this}
      ensures forall U: set<Value> :: old(allocated(U)) ==> ObservesExactly(U)
    {
      this.init := init;
      this.cond := cond;
      this.step := step;
      this.body := body;
      this.initIsDefinition := false;
      this.succ := succ;
      this.address := a;
      this.metadata := NoMetadata;
      new;
      if init != null {
        init.observers := init.observers + {this};
      }
      if cond != null {
        cond.observers := cond.observers + {this};
      }
      if step != null {
        step.observers := step.observers + {this};
      }
      body.observers := body.observers + {this};
    }

    /** setInit: the old init part (which must be present) stops being
        observed, the new one is observed and takes the slot. */
    method SetInit(newInit: Value)
      requires init != null && newInit.IsExpression()
      modifies this`init, init, newInit
      ensures PartsOf() == old(PartsOf()).(init := newInit)
      ensures newInit.observers == old(newInit.observers) + {this}
      ensures old(init) != newInit ==> old(init).observers == old(init.observers) - {this}
      ensures old(Valid()) && old(init) != old(cond) && old(init) != old(step) ==> Valid()
      ensures old(WellTyped()) && old(init) != old(cond) && old(init) != old(step) ==>
        forall U :: old(allocated(U)) && old(ObservesExactly(U)) ==> ObservesExactly(U)
    {
      init.observers := init.observers - {this};
      newInit.observers := newInit.observers + {this};
      init := newInit;
    }

    /** setCond, as setInit for the cond part. */
    method SetCond(newCond: Value)
      requires cond != null && newCond.IsExpression()
      modifies this`cond, cond, newCond
      ensures PartsOf() == old(PartsOf()).(cond := newCond)
      ensures newCond.observers == old(newCond.observers) + {this}
      ensures old(cond) != newCond ==> old(cond).observers == old(cond.observers) - {this}
      ensures old(Valid()) && old(cond) != old(init) && old(cond) != old(step) ==> Valid()
      ensures old(WellTyped()) && old(cond) != old(init) && old(cond) != old(step) ==>
        forall U :: old(allocated(U)) && old(ObservesExactly(U)) ==> ObservesExactly(U)
    {
      cond.observers := cond.observers - {this};
      newCond.observers := newCond.observers + {this};
      cond := newCond;
    }

    /** setStep, as setInit for the step part. */
    method SetStep(newStep: Value)
      requires step != null && newStep.IsExpression()
      modifies this`step, step, newStep
      ensures PartsOf() == old(PartsOf()).(step := newStep)
      ensures newStep.observers == old(newStep.observers) + {this}
      ensures old(step) != newStep ==> old(step).observers == old(step.observers) - {this}
      ensures old(Valid()) && old(step) != old(init) && old(step) != old(cond) ==> Valid()
      ensures old(WellTyped()) && old(step) != old(init) && old(step) != old(cond) ==>
        forall U :: old(allocated(U)) && old(ObservesExactly(U)) ==> ObservesExactly(U)
    {
      step.observers := step.observers - {this};
      newStep.observers := newStep.observers + {this};
      step := newStep;
    }

    /** setBody, as setInit for the body. */
    method SetBody(newBody: Value)
      requires newBody.IsStatement()
      modifies this`body, body, newBody
      ensures PartsOf() == old(PartsOf()).(body := newBody)
      ensures newBody.observers == old(newBody.observers) + {this}
      ensures old(body) != newBody ==> old(body).observers == old(body.observers) - {this}
      ensures old(Valid()) ==> Valid()
      ensures old(WellTyped()) ==>
        forall U :: old(allocated(U)) && old(ObservesExactly(U)) ==> ObservesExactly(U)
    {
      body.observers := body.observers - {this};
      newBody.observers := newBody.observers + {this};
      body := newBody;
    }

    /** isInitDefinition. */
    function IsInitDefinition(): (r: bool)
      reads this
      ensures r == PartsOf().initIsDefinition
    {
      initIsDefinition
    }

    /** markInitAsDefinition: sets the flag and changes nothing else, so a
        second call has no further effect. */
    method MarkInitAsDefinition()
      modifies this`initIsDefinition
      ensures PartsOf() == old(PartsOf()).(initIsDefinition := true)
      ensures IsInitDefinition()
    {
      initIsDefinition := true;
    }

    /** update(subject, arg): rewrites the slot UpdateTarget picks, through
        its setter, and otherwise does nothing. */
    method Update(subject: object, arg: Value?)
      modifies this`init, this`cond, this`step, this`body, init, cond, step, body, arg
      ensures var t := UpdateTarget(old(PartsOf()), subject, arg);
        PartsOf() == (if t.Some? then WithSlot(old(PartsOf()), t.value, arg) else old(PartsOf()))
      ensures var t := UpdateTarget(old(PartsOf()), subject, arg);
        t.Some? ==> arg.observers == old(arg.observers) + {this}
      ensures var t := UpdateTarget(old(PartsOf()), subject, arg);
        t.Some? && subject != arg ==>
          var v := SlotValue(old(PartsOf()), t.value); v.observers == old(v.observers) - {this}
      ensures var t := UpdateTarget(old(PartsOf()), subject, arg);
        t.Some? ==> forall v :: v in old(Slots()) && v != subject && v != arg ==> v.observers == old(v.observers)
      ensures var t := UpdateTarget(old(PartsOf()), subject, arg);
        t.None? ==> forall v :: v in old(Slots()) ==> v.observers == old(v.observers)
      ensures var t := UpdateTarget(old(PartsOf()), subject, arg);
        t.None? && arg != null ==> arg.observers == old(arg.observers)
      ensures var t := UpdateTarget(old(PartsOf()), subject, arg);
        old(Valid()) && (t.Some? && t.value != BodySlot ==> Occurrences(old(PartsOf()), subject) == 1)
        ==> Valid()
      ensures var t := UpdateTarget(old(PartsOf()), subject, arg);
        old(WellTyped()) && (t.Some? && t.value != BodySlot ==> Occurrences(old(PartsOf()), subject) == 1)
        ==> forall U :: old(allocated(U)) && old(ObservesExactly(U)) ==> ObservesExactly(U)
    {
      if subject == body && arg != null && arg.IsStatement() {
        SetBody(arg);
        return;
      }
      if arg == null || !arg.IsExpression() {
        return;
      }
      if subject == init {
        SetInit(arg);
      } else if subject == cond {
        SetCond(arg);
      } else if subject == step {
        SetStep(arg);
      }
    }

    /** replace(oldExpr, newExpr): the slots change as ReplacedParts says
        (cond keeps oldExpr, as written in the source); every part that is
        present and does not hold oldExpr is handed the request instead. What
        a part's own replace does beneath it is not modelled, so the observer
        sets stated here are the loop's own edges. */
    method Replace(oldExpr: Value?, newExpr: Value?) returns (ghost forwardedTo: seq<Value>)
      requires init == oldExpr ==> oldExpr != null && newExpr != null
      requires cond == oldExpr ==> oldExpr != null
      requires step == oldExpr ==> oldExpr != null && newExpr != null
      requires newExpr != null ==> newExpr.IsExpression()
      requires WellTyped()
      modifies this`init, this`cond, this`step, init, cond, step, newExpr
      ensures PartsOf() == ReplacedParts(old(PartsOf()), oldExpr, newExpr)
      ensures forwardedTo == ForwardedParts(old(PartsOf()), oldExpr)
      ensures oldExpr != null && oldExpr != newExpr ==>
        oldExpr.observers ==
          if oldExpr == old(step) then old(oldExpr.observers) - {this}
          else if oldExpr == old(cond) then old(oldExpr.observers) + {this}
          else if oldExpr == old(init) then old(oldExpr.observers) - {this}
          else old(oldExpr.observers)
      ensures newExpr != null && newExpr != oldExpr ==>
        newExpr.observers ==
          if oldExpr in {old(init), old(step)} then old(newExpr.observers) + {this}
          else old(newExpr.observers)
      ensures newExpr != null && newExpr == oldExpr ==>
        newExpr.observers ==
          if Occurrences(old(PartsOf()), oldExpr) > 0 then old(newExpr.observers) + {this}
          else old(newExpr.observers)
      ensures forall v :: v in forwardedTo && v != newExpr ==> v.observers == old(v.observers)
      ensures old(Valid()) && !(oldExpr == old(cond) && oldExpr == old(step) && oldExpr != newExpr) ==>
        Valid()
      ensures !(oldExpr == old(cond) && oldExpr == old(step) && oldExpr != newExpr) ==>
        forall U :: old(allocated(U)) && old(ObservesExactly(U)) ==> ObservesExactly(U)
    {
      forwardedTo := [];
      if oldExpr == init {
        SetInit(newExpr);
      } else if init != null {
        forwardedTo := forwardedTo + [init];
      }

      if oldExpr == cond {
        SetCond(cond);
      } else if cond != null {
        forwardedTo := forwardedTo + [cond];
      }

      if oldExpr == step {
        SetStep(newExpr);
      } else if step != null {
        forwardedTo := forwardedTo + [step];
      }
      forall U: set<Value> | old(allocated(U)) && old(ObservesExactly(U)) &&
        !(oldExpr == old(cond) && oldExpr == old(step) && oldExpr != newExpr)
        ensures ObservesExactly(U)
      {
        forall v | v in U
          ensures this in v.observers <==> v == init || v == cond || v == step || v == body
        {
          if v != oldExpr && v != newExpr {
            assert v.observers == old(v.observers);
            assert v == init <==> v == old(init);
            assert v == step <==> v == old(step);
          } else if v == oldExpr && v != newExpr {
            assert v != init && (v == step ==> v != cond);
          }
        }
      }
    }

    /** asExpression: a loop cannot be turned into an expression. */
    function AsExpression(): (r: Value?)
      ensures r == null
    {
      null
    }

    /** isEqualTo: equal only to another universal for loop whose init, cond,
        step and body are pairwise structurally equal; the successor, the
        flag, the address and the metadata are not compared. The init, cond
        and step of this loop are dereferenced, so they must be present. */
    function IsEqualTo(other: object?): (r: bool)
      requires init != null && cond != null && step != null
      reads this, other
      ensures r ==> other is UForLoopStmt
      ensures other == this ==> r
      ensures other is UForLoopStmt && WellTyped() && (other as UForLoopStmt).WellTyped() ==>
        var o := other as UForLoopStmt;
        (r <==>
          o.init != null && o.cond != null && o.step != null &&
          init.shape.expr == o.init.shape.expr && cond.shape.expr == o.cond.shape.expr &&
          step.shape.expr == o.step.shape.expr && body.shape.stmt == o.body.shape.stmt)
    {
      ShapeEqualReflexive(init.shape);
      ShapeEqualReflexive(cond.shape);
      ShapeEqualReflexive(step.shape);
      ShapeEqualReflexive(body.shape);
      other is UForLoopStmt &&
      var o := other as UForLoopStmt;
      PartEqual(init, o.init) && PartEqual(cond, o.cond) && PartEqual(step, o.step) && PartEqual(body, o.body)
    }

    /** clone: a fresh loop over fresh clones of all four parts, with no
        successor, the same address and metadata, and the flag cleared. */
    method Clone() returns (c: UForLoopStmt)
      requires init != null && cond != null && step != null && WellTyped()
      requires init.Coherent() && cond.Coherent() && step.Coherent() && body.Coherent()
      ensures fresh(c) && fresh(c.init) && fresh(c.cond) && fresh(c.step) && fresh(c.body)
      ensures c.succ == null && c.address == address && c.metadata == metadata
      ensures !c.initIsDefinition
      ensures c.Valid() && c.IsEqualTo(this) && IsEqualTo(c)
    {
      var ci := init.Clone();
      var cc := cond.Clone();
      var cs := step.Clone();
      var cb := body.Clone();
      c := new UForLoopStmt.Create(ci, cc, cs, cb, null, address);
      c.metadata := metadata;
      ShapeEqualReflexive(init.shape);
      ShapeEqualReflexive(cond.shape);
      ShapeEqualReflexive(step.shape);
      ShapeEqualReflexive(body.shape);
    }
  }

  /** The successor, the flag, the address and the metadata play no part in
      loop equality: two loops over the same parts are equal. */
  lemma IsEqualToIgnoresSuccessorAndFlag(a: UForLoopStmt, b: UForLoopStmt)
    requires a.init != null && a.cond != null && a.step != null
    requires a.init == b.init && a.cond == b.cond && a.step == b.step && a.body == b.body
    ensures a.IsEqualTo(b) && b.IsEqualTo(a)
  {
    ShapeEqualReflexive(a.init.shape);
    ShapeEqualReflexive(a.cond.shape);
    ShapeEqualReflexive(a.step.shape);
    ShapeEqualReflexive(a.body.shape);
  }
}
