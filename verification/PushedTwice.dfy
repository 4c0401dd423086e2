/** Inputs on which one body is stored twice: two plans, one plan pushed by overlapping commands, equal drafts. */
module PushedTwice {
  import opened Rules
  import opened Comparer
  import opened PolicyGateway
  import opened PlanSteps
  import opened PolicyRuns

  /** A run together with its steps. */
  datatype Trace = Trace(states: seq<World>, steps: seq<Step>)

  ghost predicate Traced(prim: Primitives, t: Trace, w: World) {
    IsRun(prim, t.states, t.steps) && t.states[|t.steps|] == w
  }

  /** A run that starts without policies and in which nobody else adds any. */
  ghost predicate OwnRun(prim: Primitives, t: Trace, w: World) {
    Traced(prim, t, w) && t.states[0].policies == [] && forall s | s in t.steps :: !s.Foreign?
  }

  const NOTHING := World([], [], [])

  lemma Begin(prim: Primitives) returns (t: Trace)
    ensures OwnRun(prim, t, NOTHING)
  {
    t := Trace([NOTHING], []);
  }

  lemma Continue(prim: Primitives, t: Trace, w: World, step: Step) returns (more: Trace)
    requires OwnRun(prim, t, w) && WellFormed(w) && Enabled(w, step) && !step.Foreign?
    ensures OwnRun(prim, more, Apply(prim, w, step)) && WellFormed(Apply(prim, w, step))
  {
    hide Apply, WellFormed, Enabled;
    StepKeepsWellFormed(prim, w, step);
    more := Trace(t.states + [Apply(prim, w, step)], t.steps + [step]);
    forall i | 0 <= i < |more.steps| ensures Follows(prim, more.states[i], more.steps[i], more.states[i + 1]) {
      if i < |t.steps| { assert Follows(prim, t.states[i], t.steps[i], t.states[i + 1]); }
    }
  }

  function NewRow(d: Draft): PlanRow { PlanRow(d, NewRule, Pending) }

  // ----- single steps, with the world they lead to

  lemma DoPrepare(prim: Primitives, t: Trace, w: World, c: Catalog, drafts: seq<Draft>, rows: seq<PlanRow>)
      returns (more: Trace, v: World)
    requires OwnRun(prim, t, w) && WellFormed(w) && CatalogChecked(c) && PlanRows(prim, c, w.policies, drafts) == rows
    ensures OwnRun(prim, more, v) && WellFormed(v) && v == w.(plans := w.plans + [Plan(rows, false)])
  {
    hide OwnRun, WellFormed, PlanRows, CatalogChecked;
    more := Continue(prim, t, w, Prepare(c, drafts));
    v := Apply(prim, w, Prepare(c, drafts));
  }

  lemma DoCheck(prim: Primitives, t: Trace, w: World, j: nat) returns (more: Trace, v: World)
    requires OwnRun(prim, t, w) && WellFormed(w) && j < |w.plans| && !w.plans[j].executed
    ensures OwnRun(prim, more, v) && WellFormed(v) && v == w.(pushes := w.pushes + [Push(j, Checked, [], [], 0)])
  {
    hide OwnRun, WellFormed;
    more := Continue(prim, t, w, Check(j));
    v := Apply(prim, w, Check(j));
  }

  lemma DoList(prim: Primitives, t: Trace, w: World, k: nat, j: nat, rows: seq<nat>) returns (more: Trace, v: World)
    requires OwnRun(prim, t, w) && WellFormed(w) && k < |w.pushes| && w.pushes[k] == Push(j, Checked, [], [], 0)
    requires j < |w.plans| && PushableRows(w.plans[j].rows) == rows && rows != []
    ensures OwnRun(prim, more, v) && WellFormed(v)
    ensures v == w.(pushes := w.pushes[k := Push(j, Listed, rows, [], 0)])
  {
    hide OwnRun, WellFormed, PushableRows;
    more := Continue(prim, t, w, List(k));
    v := Apply(prim, w, List(k));
  }

  lemma DoMark(prim: Primitives, t: Trace, w: World, k: nat, j: nat, rows: seq<nat>) returns (more: Trace, v: World)
    requires OwnRun(prim, t, w) && WellFormed(w) && k < |w.pushes| && w.pushes[k] == Push(j, Listed, rows, [], 0)
    requires j < |w.plans|
    ensures OwnRun(prim, more, v) && WellFormed(v)
    ensures v == World(
      w.policies, w.plans[j := w.plans[j].(executed := true)], w.pushes[k := Push(j, Marked, rows, [], 0)])
  {
    hide OwnRun, WellFormed;
    more := Continue(prim, t, w, Mark(k));
    v := Apply(prim, w, Mark(k));
  }

  lemma DoSend(
    prim: Primitives, t: Trace, w: World, k: nat, target: Target, priority: Priority, reply: Reply, d: Draft)
      returns (more: Trace, v: World)
    requires OwnRun(prim, t, w) && WellFormed(w) && InStage(w, k, Marked)
    requires |w.pushes[k].outcomes| < |w.pushes[k].rows| && NextDraft(w, k) == d
    ensures OwnRun(prim, more, v) && WellFormed(v)
    ensures v == World(
      Answered(w.policies, target, priority, d, reply), w.plans,
      w.pushes[k := w.pushes[k].(outcomes := w.pushes[k].outcomes + [OutcomeOf(reply)])])
  {
    hide OwnRun, WellFormed, Answered;
    more := Continue(prim, t, w, Send(k, target, priority, reply));
    v := Apply(prim, w, Send(k, target, priority, reply));
  }

  lemma OneRow(d: Draft)
    ensures PushableRows([NewRow(d)]) == [0]
  {
    assert [NewRow(d)][..0] == [];
  }

  /** A push from check to its one request, with nothing in between. */
  lemma PushOne(
    prim: Primitives, t: Trace, w: World, j: nat, d: Draft, target: Target, priority: Priority, reply: Reply)
      returns (more: Trace, v: World)
    requires OwnRun(prim, t, w) && WellFormed(w) && j < |w.plans| && w.plans[j] == Plan([NewRow(d)], false)
    ensures OwnRun(prim, more, v) && WellFormed(v)
    ensures v.policies == Answered(w.policies, target, priority, d, reply)
    ensures v.plans == w.plans[j := Plan([NewRow(d)], true)]
  {
    OneRow(d);
    hide OwnRun, WellFormed, Answered, Apply, PushableRows;
    var k := |w.pushes|;
    more, v := DoCheck(prim, t, w, j);
    more, v := DoList(prim, more, v, k, j, [0]);
    more, v := DoMark(prim, more, v, k, j, [0]);
    more, v := DoSend(prim, more, v, k, target, priority, reply, d);
  }

  // ----- the inputs

  lemma TwoAnswers(target: Target, priority: Priority, d: Draft, e: Draft)
    ensures var once := Answered([], target, priority, d, Created(1, 0));
      && Bodies(once) == multiset{d.body}
      && Bodies(Answered(once, target, priority, e, Created(2, 0))) == multiset{d.body, e.body}
  {
    var once := Answered([], target, priority, d, Created(1, 0));
    PushReadRoundTrip(target, priority, d, 1);
    PushReadRoundTrip(target, priority, e, 2);
    BodiesInsert([], 0, Policy(1, RequestFor(target, priority, d)));
    BodiesInsert(once, 0, Policy(2, RequestFor(target, priority, e)));
  }

  /**
   * Two plans prepared before either is pushed: both are pushed in full, although after the first push a comparison
   * would call the draft EXACT.
   */
  lemma TwoPlansStoreTwice(prim: Primitives, c: Catalog, d: Draft, target: Target, priority: Priority)
      returns (t: Trace, v: World)
    requires CatalogChecked(c) && Compare(prim, c, [], d.body).NewRule?
    ensures OwnRun(prim, t, v) && Bodies(v.policies) == multiset{d.body, d.body}
    ensures var once := Answered([], target, priority, d, Created(1, 0));
      Compare(prim, c, RulesOf(once), d.body).ExactMatch?
  {
    hide OwnRun, WellFormed, Answered, Apply, PlanRows, PushableRows, Compare, CatalogChecked, RulesOf, Bodies;
    ExactAfterPush(prim, c, d, target, priority);
    TwoAnswers(target, priority, d, d);
    NewRows(prim, c, [d]);
    t := Begin(prim);
    NothingWellFormed();
    t, v := DoPrepare(prim, t, NOTHING, c, [d], [NewRow(d)]);
    t, v := DoPrepare(prim, t, v, c, [d], [NewRow(d)]);
    assert v.plans == [Plan([NewRow(d)], false), Plan([NewRow(d)], false)];
    t, v := PushOne(prim, t, v, 0, d, target, priority, Created(1, 0));
    t, v := PushOne(prim, t, v, 1, d, target, priority, Created(2, 0));
  }

  /** On an empty server, drafts that compare as new give a plan of new rules. */
  lemma NewRows(prim: Primitives, c: Catalog, drafts: seq<Draft>)
    requires CatalogChecked(c) && forall d | d in drafts :: Compare(prim, c, [], d.body).NewRule?
    ensures |PlanRows(prim, c, [], drafts)| == |drafts|
    ensures PlanRows(prim, c, [], drafts) == seq(|drafts|, i requires 0 <= i < |drafts| => NewRow(drafts[i]))
  {
    hide Compare, CatalogChecked;
    assert RulesOf([]) == [];
  }

  lemma NothingWellFormed()
    ensures WellFormed(NOTHING)
  {
  }

  lemma ExactAfterPush(prim: Primitives, c: Catalog, d: Draft, target: Target, priority: Priority)
    requires CatalogChecked(c) && Compare(prim, c, [], d.body).NewRule?
    ensures Compare(prim, c, RulesOf(Answered([], target, priority, d, Created(1, 0))), d.body).ExactMatch?
  {
    hide Compare, CatalogChecked, ResolveIn;
    var p := Policy(1, RequestFor(target, priority, d));
    InsertAtMeaning([], 0, p);
    PushReadRoundTrip(target, priority, d, 1);
    hide InsertAt, RulesOf;
    StoredIsExactWhenResolved(prim, c, Answered([], target, priority, d, Created(1, 0)), p);
    NewIsResolved(prim, c, [], d.body);
  }

  /** Two pushes of one plan, both of which check it before either marks it: every rule is sent twice. */
  lemma OverlappingPushesStoreTwice(prim: Primitives, c: Catalog, d: Draft, target: Target, priority: Priority)
      returns (t: Trace, v: World)
    requires CatalogChecked(c) && Compare(prim, c, [], d.body).NewRule?
    ensures OwnRun(prim, t, v) && Bodies(v.policies) == multiset{d.body, d.body} && |v.plans| == 1
  {
    hide OwnRun, WellFormed, Answered, Apply, PlanRows, PushableRows, Compare, CatalogChecked, RulesOf, Bodies;
    TwoAnswers(target, priority, d, d);
    NewRows(prim, c, [d]);
    OneRow(d);
    t := Begin(prim);
    NothingWellFormed();
    t, v := DoPrepare(prim, t, NOTHING, c, [d], [NewRow(d)]);
    t, v := DoCheck(prim, t, v, 0);
    t, v := DoCheck(prim, t, v, 0);
    t, v := DoList(prim, t, v, 0, 0, [0]);
    t, v := DoList(prim, t, v, 1, 0, [0]);
    t, v := DoMark(prim, t, v, 0, 0, [0]);
    t, v := DoMark(prim, t, v, 1, 0, [0]);
    t, v := DoSend(prim, t, v, 0, target, priority, Created(1, 0), d);
    t, v := DoSend(prim, t, v, 1, target, priority, Created(2, 0), d);
  }

  /** Two drafts with one body in one plan: both are new and both are sent. */
  lemma EqualDraftsStoreTwice(
    prim: Primitives, c: Catalog, d: Draft, e: Draft, target: Target, priority: Priority) returns (t: Trace, v: World)
    requires CatalogChecked(c) && Compare(prim, c, [], d.body).NewRule? && d.body == e.body
    ensures OwnRun(prim, t, v) && Bodies(v.policies) == multiset{d.body, d.body}
  {
    hide OwnRun, WellFormed, Answered, Apply, PlanRows, PushableRows, Compare, CatalogChecked, RulesOf, Bodies;
    TwoAnswers(target, priority, d, e);
    NewRows(prim, c, [d, e]);
    BothRows(d, e);
    t := Begin(prim);
    NothingWellFormed();
    t, v := DoPrepare(prim, t, NOTHING, c, [d, e], [NewRow(d), NewRow(e)]);
    t, v := DoCheck(prim, t, v, 0);
    t, v := DoList(prim, t, v, 0, 0, [0, 1]);
    t, v := DoMark(prim, t, v, 0, 0, [0, 1]);
    t, v := DoSend(prim, t, v, 0, target, priority, Created(1, 0), d);
    t, v := DoSend(prim, t, v, 0, target, priority, Created(2, 0), e);
  }

  lemma BothRows(d: Draft, e: Draft)
    ensures PushableRows([NewRow(d), NewRow(e)]) == [0, 1]
  {
    OneRow(d);
    var rows := [NewRow(d), NewRow(e)];
    assert rows[..1] == [NewRow(d)];
    assert PushableRows(rows) == PushableRows(rows[..1]) + [1];
  }
}
