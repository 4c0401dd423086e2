/** Whole runs of prepare and push commands in any interleaving: what is stored, how often, and when twice. */
module PolicyRuns {
  import opened Rules
  import opened ExactSignature
  import opened Comparer
  import opened Verdicts
  import opened PolicyGateway
  import opened PlanSteps

  /** Every state follows from the one before; at the start there are policies, but no plans and no pushes. */
  ghost predicate IsRun(prim: Primitives, states: seq<World>, steps: seq<Step>) {
    && |states| == |steps| + 1
    && states[0].plans == [] && states[0].pushes == []
    && forall i :: 0 <= i < |steps| ==> Follows(prim, states[i], steps[i], states[i + 1])
  }

  lemma RunWellFormed(prim: Primitives, states: seq<World>, steps: seq<Step>, i: nat)
    requires IsRun(prim, states, steps) && i < |states|
    ensures WellFormed(states[i])
  {
    hide Apply, Enabled, PushOk;
    if i > 0 {
      assert Follows(prim, states[i - 1], steps[i - 1], states[i]);
      StepKeepsWellFormed(prim, states[i - 1], steps[i - 1]);
    }
  }

  /** Later in a run: plans, pushes and policies are still there. */
  ghost predicate Later(w: World, v: World) {
    PlansKept(w, v) && PushesKept(w, v) && multiset(w.policies) <= multiset(v.policies)
  }

  lemma LaterTransitive(w: World, v: World, x: World)
    requires Later(w, v) && Later(v, x)
    ensures Later(w, x)
  {
    forall j | 0 <= j < |w.plans| ensures SamePlan(w.plans[j], x.plans[j]) {
      assert SamePlan(w.plans[j], v.plans[j]) && SamePlan(v.plans[j], x.plans[j]);
    }
    forall k | 0 <= k < |w.pushes| ensures SamePush(w.pushes[k], x.pushes[k]) {
      assert SamePush(w.pushes[k], v.pushes[k]) && SamePush(v.pushes[k], x.pushes[k]);
    }
  }

  lemma {:induction false} RunKeeps(prim: Primitives, states: seq<World>, steps: seq<Step>, i: nat, j: nat)
    requires IsRun(prim, states, steps) && i <= j < |states|
    ensures Later(states[i], states[j])
    decreases j - i
  {
    hide Apply, Enabled, PushOk, WellFormed;
    if i < j {
      RunKeeps(prim, states, steps, i, j - 1);
      StepIsLater(prim, states, steps, j - 1);
      LaterTransitive(states[i], states[j - 1], states[j]);
    }
  }

  lemma StepIsLater(prim: Primitives, states: seq<World>, steps: seq<Step>, i: nat)
    requires IsRun(prim, states, steps) && i < |steps|
    ensures |states| == |steps| + 1 && Later(states[i], states[i + 1])
  {
    hide Apply, Enabled, PlansKept, PushesKept;
    assert Follows(prim, states[i], steps[i], states[i + 1]);
    PlansKeptByStep(prim, states[i], steps[i]);
    PushesKeptByStep(prim, states[i], steps[i]);
    PoliciesKeptByStep(prim, states[i], steps[i]);
  }

  // ----- where plans and pushes come from

  /** Plan `j` was prepared at step `p`. */
  ghost predicate PreparedAt(states: seq<World>, steps: seq<Step>, j: nat, p: nat) {
    p < |steps| && p < |states| && steps[p].Prepare? && |states[p].plans| == j
  }

  /** Push `k` checked its plan at step `q`. */
  ghost predicate CheckedAt(states: seq<World>, steps: seq<Step>, k: nat, q: nat) {
    q < |steps| && q < |states| && steps[q].Check? && |states[q].pushes| == k
  }

  ghost predicate MarkedAt(steps: seq<Step>, k: nat, m: nat) { m < |steps| && steps[m] == Mark(k) }

  lemma {:induction false} PlanOrigin(prim: Primitives, states: seq<World>, steps: seq<Step>, n: nat, j: nat)
      returns (p: nat)
    requires IsRun(prim, states, steps) && n < |states| && j < |states[n].plans|
    ensures p < n && PreparedAt(states, steps, j, p)
  {
    hide Apply, PushOk, WellFormed;
    assert Follows(prim, states[n - 1], steps[n - 1], states[n]);
    CountsByStep(prim, states[n - 1], steps[n - 1]);
    if j < |states[n - 1].plans| {
      p := PlanOrigin(prim, states, steps, n - 1, j);
    } else {
      p := n - 1;
    }
  }

  lemma {:induction false} PushOrigin(prim: Primitives, states: seq<World>, steps: seq<Step>, n: nat, k: nat)
      returns (q: nat)
    requires IsRun(prim, states, steps) && n < |states| && k < |states[n].pushes|
    ensures q < n && CheckedAt(states, steps, k, q)
  {
    hide Apply, PushOk, WellFormed;
    assert Follows(prim, states[n - 1], steps[n - 1], states[n]);
    CountsByStep(prim, states[n - 1], steps[n - 1]);
    if k < |states[n - 1].pushes| {
      q := PushOrigin(prim, states, steps, n - 1, k);
    } else {
      q := n - 1;
    }
  }

  /** A push that is marked got there by its own step. */
  lemma {:induction false} MarkOrigin(prim: Primitives, states: seq<World>, steps: seq<Step>, n: nat, k: nat)
      returns (m: nat)
    requires IsRun(prim, states, steps) && n < |states| && InStage(states[n], k, Marked)
    ensures m < n && MarkedAt(steps, k, m)
  {
    hide PlanRows, PushableRows, PushOk, WellFormed;
    assert Follows(prim, states[n - 1], steps[n - 1], states[n]);
    if InStage(states[n - 1], k, Marked) {
      m := MarkOrigin(prim, states, steps, n - 1, k);
    } else {
      m := n - 1;
    }
  }

  /** What a plan holds is what its preparation compared, against the policies of that moment. */
  lemma PlanContent(prim: Primitives, states: seq<World>, steps: seq<Step>, n: nat, j: nat, p: nat, i: nat)
    requires IsRun(prim, states, steps) && p < n < |states| && j < |states[n].plans| && i < |states[n].plans[j].rows|
    requires PreparedAt(states, steps, j, p)
    ensures CatalogChecked(steps[p].catalog) && i < |steps[p].drafts|
    ensures var row := states[n].plans[j].rows[i];
      && row.draft == steps[p].drafts[i]
      && row.verdict == Compare(prim, steps[p].catalog, RulesOf(states[p].policies), row.draft.body)
  {
    hide Compare, CatalogChecked, PushOk, WellFormed;
    assert Follows(prim, states[p], steps[p], states[p + 1]);
    RunKeeps(prim, states, steps, p + 1, n);
    assert SamePlan(states[p + 1].plans[j], states[n].plans[j]);
  }

  // ----- requests that store

  /** Step `s` is a request that stores a policy with this body. */
  ghost predicate StoresAt(states: seq<World>, steps: seq<Step>, s: nat, body: RuleBody) {
    && s < |steps| && s < |states| && steps[s].Send? && Stores(steps[s].reply)
    && WellFormed(states[s]) && Enabled(states[s], steps[s]) && NextDraft(states[s], steps[s].push).body == body
  }

  /** The plan whose rule is sent at step `s`, and that rule's position in it. */
  function PlanAt(states: seq<World>, steps: seq<Step>, s: nat): nat
    requires s < |steps| && s < |states| && steps[s].Send? && Enabled(states[s], steps[s])
  {
    states[s].pushes[steps[s].push].plan
  }

  function RowAt(states: seq<World>, steps: seq<Step>, s: nat): nat
    requires s < |steps| && s < |states| && steps[s].Send? && Enabled(states[s], steps[s])
  {
    states[s].pushes[steps[s].push].rows[|states[s].pushes[steps[s].push].outcomes|]
  }

  lemma SentRow(prim: Primitives, states: seq<World>, steps: seq<Step>, s: nat, body: RuleBody)
    requires IsRun(prim, states, steps) && StoresAt(states, steps, s, body)
    ensures var j, i := PlanAt(states, steps, s), RowAt(states, steps, s);
      && j < |states[s].plans| && i < |states[s].plans[j].rows|
      && states[s].plans[j].rows[i].draft.body == body && states[s].plans[j].rows[i].verdict.NewRule?
      && states[s].plans[j].executed
  {
    hide Apply;
    assert PushOk(states[s], states[s].pushes[steps[s].push]);
  }

  lemma StoredPolicy(prim: Primitives, states: seq<World>, steps: seq<Step>, s: nat, body: RuleBody)
      returns (p: Policy)
    requires IsRun(prim, states, steps) && StoresAt(states, steps, s, body)
    ensures p in multiset(states[s + 1].policies) && RuleOf(p).body == body
  {
    hide WellFormed, PlanRows, PushableRows, CatalogChecked;
    var step := steps[s];
    var draft := NextDraft(states[s], step.push);
    assert Follows(prim, states[s], step, states[s + 1]);
    p := Policy(step.reply.id, RequestFor(step.target, step.priority, draft));
    InsertAtMeaning(states[s].policies, step.reply.at, p);
    PushReadRoundTrip(step.target, step.priority, draft, step.reply.id);
  }

  /**
   * Whatever a later preparation compares with, and under whatever catalog: a body stored before it is not planned.
   * So when two requests of a run store one body, the later one's plan was prepared before the earlier request.
   */
  lemma PreparedBeforeStored(
    prim: Primitives, states: seq<World>, steps: seq<Step>, s: nat, t: nat, body: RuleBody) returns (p: nat)
    requires IsRun(prim, states, steps) && s < t
    requires StoresAt(states, steps, s, body) && StoresAt(states, steps, t, body)
    ensures PreparedAt(states, steps, PlanAt(states, steps, t), p) && p < s
  {
    hide Apply, WellFormed, Compare, PlanRows, CatalogChecked, RulesOf, RuleOf;
    var j, i := SentPosition(prim, states, steps, t, body);
    p := PlanOrigin(prim, states, steps, t, j);
    PlanContent(prim, states, steps, t, j, p, i);
    if s <= p {
      var stored := StoredPolicy(prim, states, steps, s, body);
      StoreIsNoPrepare(states, steps, s, p, body, j);
      RunKeeps(prim, states, steps, s + 1, p);
      assert stored in multiset(states[p].policies);
      StoredIsNeverNew(prim, steps[p].catalog, states[p].policies, stored);
    }
  }

  lemma SentPosition(prim: Primitives, states: seq<World>, steps: seq<Step>, s: nat, body: RuleBody)
      returns (j: nat, i: nat)
    requires IsRun(prim, states, steps) && StoresAt(states, steps, s, body)
    ensures j == PlanAt(states, steps, s) && i == RowAt(states, steps, s)
    ensures j < |states[s].plans| && i < |states[s].plans[j].rows|
    ensures states[s].plans[j].rows[i].draft.body == body && states[s].plans[j].rows[i].verdict.NewRule?
  {
    SentRow(prim, states, steps, s, body);
    j, i := PlanAt(states, steps, s), RowAt(states, steps, s);
  }

  lemma StoreIsNoPrepare(states: seq<World>, steps: seq<Step>, s: nat, p: nat, body: RuleBody, j: nat)
    requires StoresAt(states, steps, s, body) && PreparedAt(states, steps, j, p)
    ensures s != p
  {
  }

  /** A rule that is already there is never new, under any catalog. */
  lemma StoredIsNeverNew(prim: Primitives, c: Catalog, policies: seq<Policy>, p: Policy)
    requires CatalogChecked(c) && p in policies
    ensures !Compare(prim, c, RulesOf(policies), RuleOf(p).body).NewRule?
  {
    RulesOfMembers(policies, p);
    OwnBodyIsExact(prim, c, RulesOf(policies), RuleOf(p));
    NewIsResolved(prim, c, RulesOf(policies), RuleOf(p).body);
  }

  lemma StoredIsExactWhenResolved(prim: Primitives, c: Catalog, policies: seq<Policy>, p: Policy)
    requires CatalogChecked(c) && p in policies
    ensures Compare(prim, c, RulesOf(policies), RuleOf(p).body).ExactMatch? <==> ResolveIn(prim, c, RuleOf(p).body).Ok?
  {
    hide Compare, ResolveIn;
    RulesOfMembers(policies, p);
    OwnBodyIsExact(prim, c, RulesOf(policies), RuleOf(p));
  }

  lemma NewIsResolved(prim: Primitives, c: Catalog, rules: seq<SdwanRule>, draft: RuleBody)
    requires CatalogChecked(c)
    ensures Compare(prim, c, rules, draft).NewRule? ==> ResolveIn(prim, c, draft).Ok?
  {
    hide ResolveIn, ResolvedRules, WithSignature, FirstCover;
  }

  /** A stored body compares as EXACT in every later state, under every catalog in which it resolves. */
  lemma StoredStaysExact(
    prim: Primitives, states: seq<World>, steps: seq<Step>, s: nat, n: nat, body: RuleBody, c: Catalog)
    requires IsRun(prim, states, steps) && s < n < |states| && StoresAt(states, steps, s, body) && CatalogChecked(c)
    ensures Compare(prim, c, RulesOf(states[n].policies), body).ExactMatch? <==> ResolveIn(prim, c, body).Ok?
  {
    hide Apply, WellFormed, Compare, RulesOf, RuleOf, ResolveIn, CatalogChecked;
    var p := StoredPolicy(prim, states, steps, s, body);
    RunKeeps(prim, states, steps, s + 1, n);
    assert p in multiset(states[n].policies);
    StoredIsExactWhenResolved(prim, c, states[n].policies, p);
  }

  // ----- one plan pushed by several commands

  lemma ExecutedStays(prim: Primitives, states: seq<World>, steps: seq<Step>, i: nat, n: nat, j: nat)
    requires IsRun(prim, states, steps) && i <= n < |states|
    requires j < |states[i].plans| && states[i].plans[j].executed
    ensures j < |states[n].plans| && states[n].plans[j].executed
  {
    hide Follows;
    RunKeeps(prim, states, steps, i, n);
    assert SamePlan(states[i].plans[j], states[n].plans[j]);
  }

  /** A push that checks its plan finds it not marked: every mark of that plan comes after. */
  lemma CheckedBeforeMarked(prim: Primitives, states: seq<World>, steps: seq<Step>, k: nat, m: nat, l: nat, q: nat)
    requires IsRun(prim, states, steps) && MarkedAt(steps, k, m) && CheckedAt(states, steps, l, q)
    requires k < |states[m].pushes| && states[m].pushes[k].plan == steps[q].plan
    ensures q < m
  {
    hide Apply, PushOk, WellFormed;
    assert Follows(prim, states[m], steps[m], states[m + 1]);
    assert Follows(prim, states[q], steps[q], states[q + 1]);
    if m < q {
      MarkExecutes(prim, states[m], k);
      ExecutedStays(prim, states, steps, m + 1, q, steps[q].plan);
    }
  }

  /** Within one push, later requests carry later rows. */
  lemma RowsAdvance(prim: Primitives, states: seq<World>, steps: seq<Step>, s: nat, t: nat)
    requires IsRun(prim, states, steps) && s < t < |steps| && steps[s].Send? && steps[t].Send?
    requires Enabled(states[s], steps[s]) && Enabled(states[t], steps[t]) && steps[s].push == steps[t].push
    ensures RowAt(states, steps, s) < RowAt(states, steps, t) && PlanAt(states, steps, s) == PlanAt(states, steps, t)
  {
    hide PlanRows, PushableRows, PlansKept, CatalogChecked;
    var k := steps[s].push;
    assert Follows(prim, states[s], steps[s], states[s + 1]);
    assert Follows(prim, states[t], steps[t], states[t + 1]);
    RunKeeps(prim, states, steps, s + 1, t);
    assert SamePush(states[s + 1].pushes[k], states[t].pushes[k]);
    assert PushOk(states[t], states[t].pushes[k]);
  }

  /**
   * A plan rule sent twice was sent by two pushes of the plan, and each of them had checked the plan before the
   * other one marked it.
   */
  lemma RowSentTwice(prim: Primitives, states: seq<World>, steps: seq<Step>, s: nat, t: nat)
      returns (q: nat, m: nat)
    requires IsRun(prim, states, steps) && s < t < |steps| && steps[s].Send? && steps[t].Send?
    requires Enabled(states[s], steps[s]) && Enabled(states[t], steps[t])
    requires PlanAt(states, steps, s) == PlanAt(states, steps, t) && RowAt(states, steps, s) == RowAt(states, steps, t)
    ensures steps[s].push != steps[t].push
    ensures MarkedAt(steps, steps[s].push, m) && m < s && CheckedAt(states, steps, steps[t].push, q) && q < m
  {
    hide Apply, WellFormed, PlanRows, PushableRows;
    if steps[s].push == steps[t].push { RowsAdvance(prim, states, steps, s, t); }
    m := MarkOrigin(prim, states, steps, s, steps[s].push);
    q := PushOrigin(prim, states, steps, t, steps[t].push);
    PushPlanStays(prim, states, steps, m, s, steps[s].push);
    CheckGivesPlan(prim, states, steps, q, t, steps[t].push);
    CheckedBeforeMarked(prim, states, steps, steps[s].push, m, steps[t].push, q);
  }

  lemma PushPlanStays(prim: Primitives, states: seq<World>, steps: seq<Step>, m: nat, s: nat, k: nat)
    requires IsRun(prim, states, steps) && m < s < |states| && MarkedAt(steps, k, m)
    ensures k < |states[m].pushes| && k < |states[s].pushes| && states[m].pushes[k].plan == states[s].pushes[k].plan
  {
    hide Apply, WellFormed, PlansKept;
    assert Follows(prim, states[m], steps[m], states[m + 1]);
    RunKeeps(prim, states, steps, m, s);
    assert SamePush(states[m].pushes[k], states[s].pushes[k]);
  }

  lemma CheckGivesPlan(prim: Primitives, states: seq<World>, steps: seq<Step>, q: nat, t: nat, k: nat)
    requires IsRun(prim, states, steps) && q < t < |states| && CheckedAt(states, steps, k, q)
    ensures k < |states[t].pushes| && states[t].pushes[k].plan == steps[q].plan
  {
    hide PlanRows, PushableRows, WellFormed, PlansKept;
    assert Follows(prim, states[q], steps[q], states[q + 1]);
    RunKeeps(prim, states, steps, q + 1, t);
    assert SamePush(states[q + 1].pushes[k], states[t].pushes[k]);
  }

  // ----- what is recorded, and what a later push lists

  /** Each outcome of a push is that of one of its requests. */
  lemma {:induction false} OutcomeOrigin(
    prim: Primitives, states: seq<World>, steps: seq<Step>, n: nat, k: nat, i: nat) returns (s: nat)
    requires IsRun(prim, states, steps) && n < |states|
    requires k < |states[n].pushes| && i < |states[n].pushes[k].outcomes|
    ensures s < n && SentAs(states, steps, s, k, i)
    ensures states[n].pushes[k].outcomes[i] ==
      if steps[s].reply.Created? then Succeeded(steps[s].reply.id) else RowStatus.Failed(ErrorText(steps[s].reply))
  {
    hide PlanRows, PushableRows, PushOk, WellFormed, Answered;
    assert Follows(prim, states[n - 1], steps[n - 1], states[n]);
    if k < |states[n - 1].pushes| && i < |states[n - 1].pushes[k].outcomes| {
      s := OutcomeOrigin(prim, states, steps, n - 1, k, i);
      PushesKeptByStep(prim, states[n - 1], steps[n - 1]);
      assert SamePush(states[n - 1].pushes[k], states[n].pushes[k]);
    } else {
      s := n - 1;
    }
  }

  /** Step `s` sends the `i`-th listed rule of push `k`. */
  ghost predicate SentAs(states: seq<World>, steps: seq<Step>, s: nat, k: nat, i: nat) {
    && s < |steps| && s < |states| && steps[s].Send? && steps[s].push == k
    && Enabled(states[s], steps[s]) && |states[s].pushes[k].outcomes| == i
  }

  /**
   * What a push records: the row that one of its requests sent gets the id that the request returned, or its error,
   * and nothing else changes in any plan.
   */
  lemma RecordedOutcome(prim: Primitives, states: seq<World>, steps: seq<Step>, r: nat) returns (s: nat)
    requires IsRun(prim, states, steps) && r < |steps| && steps[r].Record?
    ensures s < r && steps[s].Send? && steps[s].push == steps[r].push && Enabled(states[s], steps[s])
    ensures var j, i := PlanAt(states, steps, s), RowAt(states, steps, s);
      && j < |states[r].plans| && i < |states[r].plans[j].rows|
      && var row := states[r].plans[j].rows[i].(status :=
           if steps[s].reply.Created? then Succeeded(steps[s].reply.id)
           else RowStatus.Failed(ErrorText(steps[s].reply)));
         && states[r + 1].plans == states[r].plans[j := states[r].plans[j].(rows := states[r].plans[j].rows[i := row])]
         && Enabled(states[r], steps[r]) && i == RecordedRow(states[r], steps[r].push)
  {
    hide WellFormed, PlanRows, PushableRows, PlansKept, CatalogChecked;
    var k := steps[r].push;
    assert Follows(prim, states[r], steps[r], states[r + 1]);
    s := OutcomeOrigin(prim, states, steps, r, k, states[r].pushes[k].recorded);
    RunKeeps(prim, states, steps, s, r);
    assert SamePush(states[s].pushes[k], states[r].pushes[k]);
    PushAt(states[r], k);
  }

  lemma PushAt(w: World, k: nat)
    requires WellFormed(w) && k < |w.pushes|
    ensures PushOk(w, w.pushes[k])
  {
  }

  /** A push lists exactly the rules that were new when prepared and are pending at that moment, in order. */
  lemma ListsPending(prim: Primitives, states: seq<World>, steps: seq<Step>, l: nat, i: nat)
    requires IsRun(prim, states, steps) && l < |steps| && steps[l].List?
    ensures var k := steps[l].push;
      && k < |states[l].pushes| && k < |states[l + 1].pushes| && states[l].pushes[k].plan < |states[l].plans|
      && var rows := states[l].plans[states[l].pushes[k].plan].rows;
         (i in states[l + 1].pushes[k].rows <==> i < |rows| && rows[i].verdict.NewRule? && rows[i].status.Pending?)
  {
    hide WellFormed, PlanRows, CatalogChecked;
    assert Follows(prim, states[l], steps[l], states[l + 1]);
    PushAt(states[l], steps[l].push);
  }

  predicate Settled(w: World, j: nat, i: nat) {
    j < |w.plans| && i < |w.plans[j].rows| && !w.plans[j].rows[i].status.Pending?
  }

  lemma SettledByStep(prim: Primitives, w: World, step: Step, j: nat, i: nat)
    requires WellFormed(w) && Enabled(w, step) && Settled(w, j, i)
    ensures Settled(Apply(prim, w, step), j, i)
  {
    hide PlanRows, PushableRows, CatalogChecked, WellFormed, Answered;
    match step
    case Record(k) => PushAt(w, k);
    case Mark(k) => PushAt(w, k);
    case _ =>
  }

  lemma {:induction false} SettledStays(
    prim: Primitives, states: seq<World>, steps: seq<Step>, m: nat, n: nat, j: nat, i: nat)
    requires IsRun(prim, states, steps) && m <= n < |states| && Settled(states[m], j, i)
    ensures Settled(states[n], j, i)
    decreases n - m
  {
    hide Apply, WellFormed, Enabled, Settled;
    if m < n {
      SettledStays(prim, states, steps, m, n - 1, j, i);
      assert Follows(prim, states[n - 1], steps[n - 1], states[n]);
      SettledByStep(prim, states[n - 1], steps[n - 1], j, i);
    }
  }

  /** A rule whose outcome was recorded, an id or an error, is listed by no later push of the plan. */
  lemma RecordedNotListed(prim: Primitives, states: seq<World>, steps: seq<Step>, r: nat, l: nat)
    requires IsRun(prim, states, steps) && r < l < |steps| && steps[r].Record? && steps[l].List?
    requires Enabled(states[r], steps[r]) && Enabled(states[l], steps[l])
    requires states[r].pushes[steps[r].push].plan == states[l].pushes[steps[l].push].plan
    ensures steps[l].push < |states[l + 1].pushes|
    ensures RecordedRow(states[r], steps[r].push) !in states[l + 1].pushes[steps[l].push].rows
  {
    hide PlanRows, PushableRows, CatalogChecked, WellFormed;
    var k := steps[r].push;
    var i := RecordedRow(states[r], k);
    assert Follows(prim, states[r], steps[r], states[r + 1]);
    PushAt(states[r], k);
    SettledStays(prim, states, steps, r + 1, l, states[r].pushes[k].plan, i);
    ListsPending(prim, states, steps, l, i);
  }

  /** The row that a push records next. */
  function RecordedRow(w: World, k: nat): nat
    requires Enabled(w, Record(k))
  {
    w.pushes[k].rows[w.pushes[k].recorded]
  }

  // ----- counting what is stored

  ghost function Bodies(policies: seq<Policy>): multiset<RuleBody> {
    multiset(seq(|policies|, i requires 0 <= i < |policies| => RuleOf(policies[i]).body))
  }

  lemma BodiesSplit(s: seq<Policy>, t: seq<Policy>)
    ensures Bodies(s + t) == Bodies(s) + Bodies(t)
  {
    var bodies := (x: seq<Policy>) => seq(|x|, i requires 0 <= i < |x| => RuleOf(x[i]).body);
    assert bodies(s + t) == bodies(s) + bodies(t);
  }

  lemma BodiesInsert(s: seq<Policy>, at: nat, p: Policy)
    ensures Bodies(InsertAt(s, at, p)) == Bodies(s) + multiset{RuleOf(p).body}
  {
    var k := if at <= |s| then at else |s|;
    assert s == s[..k] + s[k..];
    BodiesSplit(s[..k], s[k..]);
    BodiesSplit(s[..k], [p]);
    BodiesSplit(s[..k] + [p], s[k..]);
    assert Bodies([p]) == multiset{RuleOf(p).body};
    assert InsertAt(s, at, p) == s[..k] + [p] + s[k..];
  }

  /** The bodies that the requests among the first `n` steps stored. */
  ghost function SentBodies(states: seq<World>, steps: seq<Step>, n: nat): multiset<RuleBody>
    requires n <= |steps| < |states|
  {
    if n == 0 then multiset{}
    else
      var w, step := states[n - 1], steps[n - 1];
      SentBodies(states, steps, n - 1) +
      if step.Send? && Stores(step.reply) && WellFormed(w) && Enabled(w, step)
      then multiset{NextDraft(w, step.push).body} else multiset{}
  }

  /** The bodies that others added in the first `n` steps. */
  ghost function ForeignBodies(steps: seq<Step>, n: nat): multiset<RuleBody>
    requires n <= |steps|
  {
    if n == 0 then multiset{}
    else
      ForeignBodies(steps, n - 1) +
      if steps[n - 1].Foreign? then multiset{RuleOf(steps[n - 1].policy).body} else multiset{}
  }

  /** Policies are conserved: those of the start, one per storing request, and those others added. */
  lemma {:induction false} PoliciesConserved(prim: Primitives, states: seq<World>, steps: seq<Step>, n: nat)
    requires IsRun(prim, states, steps) && n <= |steps|
    ensures Bodies(states[n].policies) ==
      Bodies(states[0].policies) + SentBodies(states, steps, n) + ForeignBodies(steps, n)
  {
    hide Bodies, WellFormed, IsRun;
    if n > 0 {
      RunStates(prim, states, steps, n - 1);
      PoliciesConserved(prim, states, steps, n - 1);
      StepAdds(prim, states[n - 1], steps[n - 1]);
    }
  }

  lemma RunStates(prim: Primitives, states: seq<World>, steps: seq<Step>, i: nat)
    requires IsRun(prim, states, steps) && i < |steps|
    ensures |states| == |steps| + 1 && Follows(prim, states[i], steps[i], states[i + 1])
  {
  }

  lemma StepAdds(prim: Primitives, w: World, step: Step)
    requires WellFormed(w) && Enabled(w, step)
    ensures Bodies(Apply(prim, w, step).policies) == Bodies(w.policies) +
      (if step.Send? && Stores(step.reply) then multiset{NextDraft(w, step.push).body} else multiset{}) +
      (if step.Foreign? then multiset{RuleOf(step.policy).body} else multiset{})
  {
    hide PlanRows, PushableRows, CatalogChecked, Bodies, InsertAt;
    match step
    case Send(k, target, priority, reply) =>
      if Stores(reply) {
        BodiesInsert(w.policies, reply.at, Policy(reply.id, RequestFor(target, priority, NextDraft(w, k))));
        PushReadRoundTrip(target, priority, NextDraft(w, k), reply.id);
      }
    case Foreign(policy, at) => BodiesInsert(w.policies, at, policy);
    case _ =>
  }

  lemma {:induction false} SentOnce(states: seq<World>, steps: seq<Step>, n: nat, body: RuleBody)
    requires n <= |steps| < |states|
    ensures SentBodies(states, steps, n)[body] >= 1 <==> exists s: nat :: s < n && StoresAt(states, steps, s, body)
  {
    hide WellFormed, Enabled;
    if n > 0 {
      SentOnce(states, steps, n - 1, body);
      if exists s: nat :: s < n && StoresAt(states, steps, s, body) {
        var s: nat :| s < n && StoresAt(states, steps, s, body);
        assert s < n - 1 || s == n - 1;
      }
      if StoresAt(states, steps, n - 1, body) { assert n - 1 < n; }
    }
  }

  ghost predicate StoredPair(states: seq<World>, steps: seq<Step>, n: nat, body: RuleBody, s: nat, t: nat) {
    s < t < n && StoresAt(states, steps, s, body) && StoresAt(states, steps, t, body)
  }

  lemma {:induction false} SentTwice(states: seq<World>, steps: seq<Step>, n: nat, body: RuleBody)
    requires n <= |steps| < |states|
    ensures SentBodies(states, steps, n)[body] >= 2 <==>
      exists s: nat, t: nat :: StoredPair(states, steps, n, body, s, t)
  {
    if n > 0 {
      var m := n - 1;
      SentTwice(states, steps, m, body);
      SentOnce(states, steps, m, body);
      StoresLast(states, steps, n, body);
      hide StoresAt, SentBodies;
      PairsGrow(states, steps, m, n, body);
    }
  }

  lemma PairsGrow(states: seq<World>, steps: seq<Step>, m: nat, n: nat, body: RuleBody)
    requires n == m + 1
    ensures (exists s: nat, t: nat :: StoredPair(states, steps, n, body, s, t)) <==>
      || (exists s: nat, t: nat :: StoredPair(states, steps, m, body, s, t))
      || (StoresAt(states, steps, m, body) && exists s: nat :: s < m && StoresAt(states, steps, s, body))
  {
    hide StoresAt;
    if exists s: nat, t: nat :: StoredPair(states, steps, n, body, s, t) {
      var s: nat, t: nat :| StoredPair(states, steps, n, body, s, t);
      if t < m { assert StoredPair(states, steps, m, body, s, t); }
    }
    if exists s: nat, t: nat :: StoredPair(states, steps, m, body, s, t) {
      var s: nat, t: nat :| StoredPair(states, steps, m, body, s, t);
      assert StoredPair(states, steps, n, body, s, t);
    }
    if StoresAt(states, steps, m, body) && exists s: nat :: s < m && StoresAt(states, steps, s, body) {
      var s: nat :| s < m && StoresAt(states, steps, s, body);
      assert StoredPair(states, steps, n, body, s, m);
    }
  }

  lemma StoresLast(states: seq<World>, steps: seq<Step>, n: nat, body: RuleBody)
    requires 0 < n <= |steps| < |states|
    ensures SentBodies(states, steps, n)[body] ==
      SentBodies(states, steps, n - 1)[body] + if StoresAt(states, steps, n - 1, body) then 1 else 0
  {
  }

  // ----- when a body is stored twice, and when never

  /** The request at `t` comes from a plan that was prepared before the request at `s`. */
  ghost predicate PlannedBefore(states: seq<World>, steps: seq<Step>, s: nat, t: nat)
    requires t < |steps| && t < |states| && steps[t].Send? && Enabled(states[t], steps[t])
  {
    exists p: nat :: p < s && PreparedAt(states, steps, PlanAt(states, steps, t), p)
  }

  ghost predicate OverlappingPair(states: seq<World>, steps: seq<Step>, n: nat, body: RuleBody, s: nat, t: nat) {
    StoredPair(states, steps, n, body, s, t) && PlannedBefore(states, steps, s, t)
  }

  /**
   * A run stores a body twice exactly when two requests store it and the plan of the later one had been prepared
   * before the earlier one was answered.
   */
  lemma StoredTwiceExactly(prim: Primitives, states: seq<World>, steps: seq<Step>, n: nat, body: RuleBody)
    requires IsRun(prim, states, steps) && n <= |steps|
    ensures SentBodies(states, steps, n)[body] >= 2 <==>
      exists s: nat, t: nat :: OverlappingPair(states, steps, n, body, s, t)
  {
    SentTwice(states, steps, n, body);
    if SentBodies(states, steps, n)[body] >= 2 {
      var s: nat, t: nat :| StoredPair(states, steps, n, body, s, t);
      var p := PreparedBeforeStored(prim, states, steps, s, t, body);
      assert OverlappingPair(states, steps, n, body, s, t);
    }
  }

  /** Between the preparation of a plan and a storing request of it, no other push stores anything. */
  ghost predicate Exclusive(states: seq<World>, steps: seq<Step>, n: nat) {
    forall s: nat, t: nat, a, b |
      s < t < n && StoresAt(states, steps, s, a) && StoresAt(states, steps, t, b)
      && PlannedBefore(states, steps, s, t) ::
      steps[s].push == steps[t].push
  }

  /** In exclusive runs a body is stored twice only by two rules of one plan that carry it. */
  lemma ExclusiveStoresOnce(
    prim: Primitives, states: seq<World>, steps: seq<Step>, n: nat, body: RuleBody, s: nat, t: nat)
    requires IsRun(prim, states, steps) && n <= |steps| && Exclusive(states, steps, n)
    requires StoredPair(states, steps, n, body, s, t)
    ensures PlanAt(states, steps, s) == PlanAt(states, steps, t)
    ensures RowAt(states, steps, s) < RowAt(states, steps, t)
  {
    var p := PreparedBeforeStored(prim, states, steps, s, t, body);
    hide WellFormed, PlanRows;
    assert PlannedBefore(states, steps, s, t);
    RowsAdvance(prim, states, steps, s, t);
  }

  /** No preparation brings two drafts with one body. */
  ghost predicate DistinctDrafts(steps: seq<Step>) {
    forall i | 0 <= i < |steps| && steps[i].Prepare? :: DistinctBodies(steps[i].drafts)
  }

  predicate DistinctBodies(drafts: seq<Draft>) {
    forall i, j :: 0 <= i < j < |drafts| ==> drafts[i].body != drafts[j].body
  }

  /** So with distinct drafts an exclusive run adds at most one policy per body, besides those of others. */
  lemma AtMostOncePerBody(prim: Primitives, states: seq<World>, steps: seq<Step>, n: nat, body: RuleBody)
    requires IsRun(prim, states, steps) && n <= |steps| && Exclusive(states, steps, n) && DistinctDrafts(steps)
    ensures SentBodies(states, steps, n)[body] <= 1
    ensures Bodies(states[n].policies)[body] <= Bodies(states[0].policies)[body] + ForeignBodies(steps, n)[body] + 1
  {
    SentTwice(states, steps, n, body);
    PoliciesConserved(prim, states, steps, n);
    forall s: nat, t: nat ensures !StoredPair(states, steps, n, body, s, t) {
      if StoredPair(states, steps, n, body, s, t) {
        ExclusiveStoresOnce(prim, states, steps, n, body, s, t);
        TwoRowsOneBody(prim, states, steps, s, t, body);
      }
    }
  }

  lemma TwoRowsOneBody(prim: Primitives, states: seq<World>, steps: seq<Step>, s: nat, t: nat, body: RuleBody)
    requires IsRun(prim, states, steps) && s < t && StoresAt(states, steps, s, body) && StoresAt(states, steps, t, body)
    requires PlanAt(states, steps, s) == PlanAt(states, steps, t) && RowAt(states, steps, s) < RowAt(states, steps, t)
    ensures !DistinctDrafts(steps)
  {
    hide Compare, CatalogChecked, RulesOf, WellFormed, Apply;
    var j, i := SentPosition(prim, states, steps, s, body);
    var l, k := SentPosition(prim, states, steps, t, body);
    var p := PlanOrigin(prim, states, steps, s, j);
    PlanContent(prim, states, steps, s, j, p, i);
    PlanContent(prim, states, steps, t, j, p, k);
    assert steps[p].drafts[i].body == steps[p].drafts[k].body;
  }

  // ----- what a fresh comparison would say when a rule is sent

  /**
   * A draft that was new before is EXACT now exactly when a rule with its signature was added since, by whomever.
   */
  lemma ExactSince(
    prim: Primitives, c: Catalog, before: seq<Policy>, now: seq<Policy>, draft: RuleBody)
    requires CatalogChecked(c) && Compare(prim, c, RulesOf(before), draft).NewRule?
    requires multiset(before) <= multiset(now)
    ensures ResolveIn(prim, c, draft).Ok?
    ensures Compare(prim, c, RulesOf(now), draft).ExactMatch? <==>
      exists p :: p in now && p !in before
        && HasSignature(prim, c, RuleOf(p), ExactSignatureOf(prim, ResolveIn(prim, c, draft).value.normalized))
  {
    NewIsResolved(prim, c, RulesOf(before), draft);
    hide ResolveIn, ExactSignatureOf, ResolvedRules, FirstCover, HasSignature, RuleOf;
    var planned := ResolveIn(prim, c, draft).value;
    var signature := ExactSignatureOf(prim, planned.normalized);
    Candidates(prim, c, RulesOf(before), signature, planned);
    Candidates(prim, c, RulesOf(now), signature, planned);
    forall p | p in before ensures p in now { assert p in multiset(before); }
    SignedPolicies(prim, c, before, signature);
    SignedPolicies(prim, c, now, signature);
  }

  lemma SignedPolicies(prim: Primitives, c: Catalog, policies: seq<Policy>, signature: string)
    requires CatalogChecked(c)
    ensures SomeSigned(prim, c, RulesOf(policies), signature) <==>
      exists p :: p in policies && HasSignature(prim, c, RuleOf(p), signature)
  {
    hide HasSignature, RuleOf;
    forall p | p in policies ensures RuleOf(p) in RulesOf(policies) { RulesOfMembers(policies, p); }
    if SomeSigned(prim, c, RulesOf(policies), signature) {
      var r :| r in RulesOf(policies) && HasSignature(prim, c, r, signature);
      var i :| 0 <= i < |policies| && RulesOf(policies)[i] == r;
      assert policies[i] in policies && RuleOf(policies[i]) == r;
    }
  }

  /** Step `u` adds a policy that was not there. */
  ghost predicate AddedAt(states: seq<World>, u: nat, p: Policy) {
    u + 1 < |states| && p !in states[u].policies && p in states[u + 1].policies
  }

  lemma {:induction false} AddedBetween(
    prim: Primitives, states: seq<World>, steps: seq<Step>, i: nat, j: nat, p: Policy)
    requires IsRun(prim, states, steps) && i <= j < |states|
    ensures p in states[j].policies && p !in states[i].policies <==>
      exists u: nat :: i <= u < j && AddedAt(states, u, p)
    decreases j - i
  {
    hide Apply, WellFormed, Enabled, PlansKept, PushesKept;
    if i < j {
      AddedBetween(prim, states, steps, i, j - 1, p);
      RunKeeps(prim, states, steps, j - 1, j);
      RunKeeps(prim, states, steps, i, j);
      forall u: nat | i <= u < j && AddedAt(states, u, p) ensures p in states[j].policies && p !in states[i].policies {
        RunKeeps(prim, states, steps, u + 1, j);
        RunKeeps(prim, states, steps, i, u);
        assert p in multiset(states[u + 1].policies) && p !in multiset(states[u].policies);
        assert p in multiset(states[j].policies);
      }
      if p in states[j].policies && p !in states[j - 1].policies { assert AddedAt(states, j - 1, p); }
      if p in states[j - 1].policies { assert p in multiset(states[j - 1].policies); }
    }
  }

  /**
   * When a rule is sent, comparing it again would say EXACT exactly when a policy with its signature was added
   * between the preparation of its plan and the request: then a policy that is there already is stored again.
   */
  lemma SentAlthoughExact(prim: Primitives, states: seq<World>, steps: seq<Step>, t: nat, body: RuleBody)
      returns (p: nat)
    requires IsRun(prim, states, steps) && StoresAt(states, steps, t, body)
    ensures PreparedAt(states, steps, PlanAt(states, steps, t), p) && p < t
    ensures var c := steps[p].catalog;
      && CatalogChecked(c) && ResolveIn(prim, c, body).Ok?
      && (Compare(prim, c, RulesOf(states[t].policies), body).ExactMatch? <==>
          exists u: nat, q :: p <= u < t && AddedAt(states, u, q)
            && HasSignature(prim, c, RuleOf(q), ExactSignatureOf(prim, ResolveIn(prim, c, body).value.normalized)))
  {
    hide Apply, WellFormed, PlanRows, RulesOf, RuleOf, Compare, ResolveIn, ExactSignatureOf, HasSignature, AddedAt;
    var j, i := SentPosition(prim, states, steps, t, body);
    p := PlanOrigin(prim, states, steps, t, j);
    PlanContent(prim, states, steps, t, j, p, i);
    RunKeeps(prim, states, steps, p, t);
    var c := steps[p].catalog;
    ExactSince(prim, c, states[p].policies, states[t].policies, body);
    forall q ensures q in states[t].policies && q !in states[p].policies <==>
      exists u: nat :: p <= u < t && AddedAt(states, u, q)
    {
      AddedBetween(prim, states, steps, p, t, q);
    }
  }
}
