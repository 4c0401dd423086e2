/** Plans are prepared, stored and pushed by separate commands; the commands interleave at their waits. */
module PlanSteps {
  import opened Rules
  import opened Comparer
  import opened PolicyGateway

  /** A pushed rule keeps the id of its policy, or the error of its request. */
  datatype RowStatus = Pending | Succeeded(sdwanRuleId: int) | Failed(error: string)

  /** One stored plan rule: its draft, how it compared when the plan was prepared, and what became of it. */
  datatype PlanRow = PlanRow(draft: Draft, verdict: CompareResult, status: RowStatus)

  datatype Plan = Plan(rows: seq<PlanRow>, executed: bool)

  /** How far a push command has come: status checked, rules listed, plan marked as pushed, ended. */
  datatype Stage = Checked | Listed | Marked | Ended

  /** A push command in progress: the rows it listed, the outcome of each one sent, how many of those are recorded. */
  datatype Push = Push(plan: nat, stage: Stage, rows: seq<nat>, outcomes: seq<RowStatus>, recorded: nat)

  datatype World = World(policies: seq<Policy>, plans: seq<Plan>, pushes: seq<Push>)

  datatype Step =
    | Prepare(catalog: Catalog, drafts: seq<Draft>) // the policies are read and compared, the plan is stored
    | Check(plan: nat)                              // a push starts and finds the plan not pushed yet
    | List(push: nat)                               // its new and pending rules are read
    | Mark(push: nat)                               // the guards passed, the plan is marked as pushed
    | Send(push: nat, target: Target, priority: Priority, reply: Reply)
    | Record(push: nat)                             // the outcome of one rule is stored
    | Abort(push: nat)                              // a guard fails, or an exception escapes
    | Foreign(policy: Policy, at: nat)              // someone else adds a policy

  ghost function PlanRows(prim: Primitives, c: Catalog, policies: seq<Policy>, drafts: seq<Draft>): (r: seq<PlanRow>)
    requires CatalogChecked(c)
    ensures |r| == |drafts|
  {
    seq(|drafts|, i requires 0 <= i < |drafts| =>
      PlanRow(drafts[i], Compare(prim, c, RulesOf(policies), drafts[i].body), Pending))
  }

  /** The positions of the rules that a push sends, in priority order. */
  function PushableRows(rows: seq<PlanRow>): (r: seq<nat>)
    ensures forall k: nat :: k in r <==> k < |rows| && rows[k].verdict.NewRule? && rows[k].status.Pending?
    ensures forall i :: 0 <= i < |r| ==> r[i] < |rows| && rows[r[i]].verdict.NewRule? && rows[r[i]].status.Pending?
    ensures forall i, j :: 0 <= i < j < |r| ==> r[i] < r[j]
  {
    if rows == [] then []
    else
      var n := |rows| - 1;
      var init := PushableRows(rows[..n]);
      if rows[n].verdict.NewRule? && rows[n].status.Pending? then init + [n] else init
  }

  predicate PushOk(w: World, p: Push) {
    && p.plan < |w.plans|
    && p.recorded <= |p.outcomes| <= |p.rows|
    && (forall i :: 0 <= i < |p.rows| ==>
          p.rows[i] < |w.plans[p.plan].rows| && w.plans[p.plan].rows[p.rows[i]].verdict.NewRule?)
    && (forall i, j :: 0 <= i < j < |p.rows| ==> p.rows[i] < p.rows[j])
    && (p.stage.Checked? ==> p.rows == [])
    && (forall i :: 0 <= i < |p.outcomes| ==> !p.outcomes[i].Pending?)
    && (p.stage.Checked? || p.stage.Listed? ==> p.outcomes == [])
    && (p.stage.Marked? ==> w.plans[p.plan].executed)
  }

  predicate WellFormed(w: World) {
    forall k :: 0 <= k < |w.pushes| ==> PushOk(w, w.pushes[k])
  }

  predicate InStage(w: World, k: nat, stage: Stage) { k < |w.pushes| && w.pushes[k].stage == stage }

  predicate Enabled(w: World, step: Step) {
    match step
    case Prepare(c, _) => CatalogChecked(c)
    case Check(p) => p < |w.plans| && !w.plans[p].executed
    case List(k) => InStage(w, k, Checked)
    case Mark(k) => InStage(w, k, Listed)
    case Send(k, _, _, _) => InStage(w, k, Marked) && |w.pushes[k].outcomes| < |w.pushes[k].rows|
    case Record(k) =>
      && InStage(w, k, Marked) && |w.pushes[k].outcomes| == |w.pushes[k].rows|
      && w.pushes[k].recorded < |w.pushes[k].rows|
    case Abort(k) => k < |w.pushes| && !w.pushes[k].stage.Ended?
    case Foreign(_, _) => true
  }

  /** The draft that the next request of a push carries. */
  function NextDraft(w: World, k: nat): Draft
    requires WellFormed(w) && InStage(w, k, Marked) && |w.pushes[k].outcomes| < |w.pushes[k].rows|
  {
    assert PushOk(w, w.pushes[k]);
    w.plans[w.pushes[k].plan].rows[w.pushes[k].rows[|w.pushes[k].outcomes|]].draft
  }

  /** What is stored for a rule: the id that the call returned, or the error it raised. */
  function OutcomeOf(reply: Reply): RowStatus {
    if reply.Created? then Succeeded(reply.id) else RowStatus.Failed(ErrorText(reply))
  }

  function SetPush(w: World, k: nat, p: Push): World
    requires k < |w.pushes|
  {
    w.(pushes := w.pushes[k := p])
  }

  function SetPlan(w: World, j: nat, p: Plan): World
    requires j < |w.plans|
  {
    w.(plans := w.plans[j := p])
  }

  ghost function Apply(prim: Primitives, w: World, step: Step): World
    requires WellFormed(w) && Enabled(w, step)
  {
    match step
    case Prepare(c, drafts) => w.(plans := w.plans + [Plan(PlanRows(prim, c, w.policies, drafts), false)])
    case Check(p) => w.(pushes := w.pushes + [Push(p, Checked, [], [], 0)])
    case List(k) =>
      var p := w.pushes[k];
      var rows := PushableRows(w.plans[p.plan].rows);
      SetPush(w, k, p.(stage := if rows == [] then Ended else Listed, rows := rows))
    case Mark(k) =>
      var p := w.pushes[k];
      SetPlan(SetPush(w, k, p.(stage := Marked)), p.plan, w.plans[p.plan].(executed := true))
    case Send(k, target, priority, reply) =>
      var p := w.pushes[k];
      SetPush(w, k, p.(outcomes := p.outcomes + [OutcomeOf(reply)])).(
        policies := Answered(w.policies, target, priority, NextDraft(w, k), reply))
    case Record(k) =>
      var p := w.pushes[k];
      var plan := w.plans[p.plan];
      var row := plan.rows[p.rows[p.recorded]].(status := p.outcomes[p.recorded]);
      SetPlan(
        SetPush(w, k, p.(recorded := p.recorded + 1)), p.plan,
        plan.(rows := plan.rows[p.rows[p.recorded] := row]))
    case Abort(k) => SetPush(w, k, w.pushes[k].(stage := Ended))
    case Foreign(policy, at) => w.(policies := InsertAt(w.policies, at, policy))
  }

  ghost predicate Follows(prim: Primitives, w: World, step: Step, v: World) {
    WellFormed(w) && Enabled(w, step) && v == Apply(prim, w, step)
  }

  // ----- what every step keeps

  lemma MarkExecutes(prim: Primitives, w: World, k: nat)
    requires WellFormed(w) && Enabled(w, Mark(k))
    ensures w.pushes[k].plan < |w.plans| == |Apply(prim, w, Mark(k)).plans|
    ensures Apply(prim, w, Mark(k)).plans[w.pushes[k].plan].executed
  {
    assert PushOk(w, w.pushes[k]);
  }

  /** The same plan later on: drafts and verdicts never change, and the mark is never taken back. */
  predicate SamePlan(a: Plan, b: Plan) {
    && |a.rows| == |b.rows| && (a.executed ==> b.executed)
    && forall i :: 0 <= i < |a.rows| ==> a.rows[i].draft == b.rows[i].draft && a.rows[i].verdict == b.rows[i].verdict
  }

  ghost predicate PlansKept(w: World, v: World) {
    |w.plans| <= |v.plans| && forall j :: 0 <= j < |w.plans| ==> SamePlan(w.plans[j], v.plans[j])
  }

  /** The same push later on: its rows stay once listed, and outcomes are only added. */
  predicate SamePush(a: Push, b: Push) {
    && a.plan == b.plan && (b.stage.Checked? ==> a.stage.Checked?)
    && (a.stage.Checked? || a.rows == b.rows) && a.outcomes <= b.outcomes
  }

  ghost predicate PushesKept(w: World, v: World) {
    |w.pushes| <= |v.pushes| && forall k :: 0 <= k < |w.pushes| ==> SamePush(w.pushes[k], v.pushes[k])
  }

  lemma CountsByStep(prim: Primitives, w: World, step: Step)
    requires WellFormed(w) && Enabled(w, step)
    ensures |Apply(prim, w, step).plans| == |w.plans| + if step.Prepare? then 1 else 0
    ensures |Apply(prim, w, step).pushes| == |w.pushes| + if step.Check? then 1 else 0
  {
    hide PlanRows, PushableRows, CatalogChecked;
  }

  lemma PlansKeptByStep(prim: Primitives, w: World, step: Step)
    requires WellFormed(w) && Enabled(w, step)
    ensures PlansKept(w, Apply(prim, w, step))
  {
    hide PlanRows, PushableRows, CatalogChecked;
  }

  lemma PushesKeptByStep(prim: Primitives, w: World, step: Step)
    requires WellFormed(w) && Enabled(w, step)
    ensures PushesKept(w, Apply(prim, w, step))
  {
    hide PlanRows, PushableRows, CatalogChecked;
  }

  lemma AnsweredGrows(policies: seq<Policy>, target: Target, priority: Priority, draft: Draft, reply: Reply)
    ensures multiset(policies) <= multiset(Answered(policies, target, priority, draft, reply))
  {
    if Stores(reply) {
      InsertAtMeaning(policies, reply.at, Policy(reply.id, RequestFor(target, priority, draft)));
    }
  }

  lemma PoliciesKeptByStep(prim: Primitives, w: World, step: Step)
    requires WellFormed(w) && Enabled(w, step)
    ensures multiset(w.policies) <= multiset(Apply(prim, w, step).policies)
  {
    hide PlanRows, PushableRows, CatalogChecked, InsertAt, Answered;
    match step
    case Send(k, target, priority, reply) =>
      AnsweredGrows(w.policies, target, priority, NextDraft(w, k), reply);
    case Foreign(policy, at) => InsertAtMeaning(w.policies, at, policy);
    case _ =>
  }

  lemma PushStaysOk(w: World, v: World, p: Push)
    requires PushOk(w, p) && PlansKept(w, v)
    ensures PushOk(v, p)
  {
    assert SamePlan(w.plans[p.plan], v.plans[p.plan]);
  }

  /** The push a step works on; steps without one work on none. */
  lemma TouchedPushOk(prim: Primitives, w: World, step: Step, k: nat)
    requires WellFormed(w) && Enabled(w, step) && k < |Apply(prim, w, step).pushes|
    ensures PushOk(Apply(prim, w, step), Apply(prim, w, step).pushes[k])
  {
    hide PlanRows, CatalogChecked, PlansKept, Answered;
    PlansKeptByStep(prim, w, step);
    if k < |w.pushes| {
      assert PushOk(w, w.pushes[k]);
      PushStaysOk(w, Apply(prim, w, step), w.pushes[k]);
    }
  }

  /** So the bounds hold in every state that the commands reach. */
  lemma StepKeepsWellFormed(prim: Primitives, w: World, step: Step)
    requires WellFormed(w) && Enabled(w, step)
    ensures WellFormed(Apply(prim, w, step))
  {
    hide Apply, PushOk, Enabled;
    forall k: nat | k < |Apply(prim, w, step).pushes|
      ensures PushOk(Apply(prim, w, step), Apply(prim, w, step).pushes[k])
    {
      TouchedPushOk(prim, w, step, k);
    }
  }
}
