/** The deep-link filter: the rules an entity affects, found backwards, agree with the forward dependencies. */
module TraceDeepLink {
  import opened Collections
  import opened CatalogModels
  import opened Graphs
  import opened Levels
  import opened TraceGraph
  import opened TraceFilter

  ghost predicate Climbing(g: MemberGraph, id: int, pending: seq<int>, collected: set<int>) {
    && id in collected
    && (forall x | x in collected :: Reach(Edges(g), x, id))
    && (forall x | x in pending :: x in collected)
    && (forall e | e in Edges(g) && e.1 in collected && e.1 !in pending :: e.0 in collected)
  }

  lemma ClimbingStep(
      g: MemberGraph, id: int, pending: seq<int>, collected: set<int>, child: int, next: seq<int>, collected': set<int>)
    requires Consistent(g) && Climbing(g, id, pending + [child], collected)
    requires collected' == collected + ParentsOf(g.childToParents, child)
    requires forall x :: x in next <==> x in pending || x in ParentsOf(g.childToParents, child) - collected
    ensures Climbing(g, id, next, collected')
  {
    assert child in pending + [child];
    forall x | x in ParentsOf(g.childToParents, child) ensures Reach(Edges(g), x, id) {
      EdgeReach(Edges(g), x, child);
      ReachTransitive(Edges(g), x, child, id);
    }
    forall x | x in pending ensures x in collected { assert x in pending + [child]; }
    forall e | e in Edges(g) && e.1 in collected' && e.1 !in next ensures e.0 in collected' {
      assert e == (e.0, e.1);
      if e.1 != child { assert e.1 !in pending + [child]; }
    }
  }

  lemma ClimbingDone(g: MemberGraph, id: int, collected: set<int>)
    requires Climbing(g, id, [], collected)
    ensures forall x :: x in collected <==> Reach(Edges(g), x, id)
  {
    forall x | Reach(Edges(g), x, id) ensures x in collected {
      FlipReach(Edges(g), x, id);
      ReachInClosed(Flip(Edges(g)), collected, id, x);
    }
  }

  /** Some element: sets are iterated in no particular order. */
  method Pick<T>(s: set<T>) returns (x: T)
    requires s != {}
    ensures x in s
  {
    x :| x in s;
  }

  /** The backward worklist over the reverse map: the object itself and every group above it. */
  method AncestorObjectIds(g: MemberGraph, id: int) returns (collected: set<int>)
    requires Consistent(g)
    ensures forall x :: x in collected <==> Reach(Edges(g), x, id)
  {
    collected := {id};
    var pending := [id];
    ReachSelf(Edges(g), id);
    while pending != []
      invariant Climbing(g, id, pending, collected)
      invariant collected <= {id} + g.byParent.Keys
      decreases {id} + g.byParent.Keys - collected, |pending|
    {
      var child := pending[|pending| - 1];
      var parents := ParentsOf(g.childToParents, child);
      ParentsAreGroups(g, child);
      ghost var rest, before := pending[..|pending| - 1], collected;
      assert pending == rest + [child];
      hide Climbing, Edges;
      pending := pending[..|pending| - 1];
      var left := parents;
      while left != {}
        invariant left <= parents
        invariant collected == before + (parents - left)
        invariant forall x :: x in pending <==> x in rest || x in parents - left - before
        invariant collected == before ==> pending == rest
        decreases left
      {
        var parent := Pick(left);
        left := left - {parent};
        if parent in collected {
          continue;
        }
        collected := collected + {parent};
        pending := pending + [parent];
      }
      ClimbingStep(g, id, rest, before, child, pending, collected);
    }
    ClimbingDone(g, id, collected);
  }

  lemma ParentsAreGroups(g: MemberGraph, child: int)
    requires Consistent(g)
    ensures ParentsOf(g.childToParents, child) <= g.byParent.Keys
  {
    forall p | p in ParentsOf(g.childToParents, child) ensures p in g.byParent {
      assert (p, child) in Edges(g);
    }
  }

  // ----- the filter

  /** The rules of the scope that depend on an entity. */
  ghost predicate Affected(rules: seq<Rule>, g: MemberGraph, byRule: map<int, seq<Issue>>, e: Entity, r: int) {
    exists rule :: rule in rules && rule.id == r && rule.id in byRule && DependsOn(rule, g, byRule[rule.id], e)
  }

  /** Some operand of rule `r` targets an object reached upwards from one of `below`. */
  ghost predicate TargetsAbove(rules: seq<Rule>, g: MemberGraph, below: set<int>, r: int) {
    exists rule, t :: rule in rules && rule.id == r && t in Targeted(rule) && exists b ::
      b in below && Reach(Edges(g), t, b)
  }

  function FirstIssue(issues: seq<Issue>, id: int): (r: Option<Issue>)
    ensures r.None? <==> forall i | i in issues :: i.id != id
    ensures r.Some? ==> r.value.id == id && exists k ::
      0 <= k < |issues| && issues[k] == r.value && forall j :: 0 <= j < k ==> issues[j].id != id
  {
    if issues == [] then None
    else if issues[0].id == id then Some(issues[0])
    else
      var rest := FirstIssue(issues[1..], id);
      assert rest.Some? ==> forall k :: 0 <= k < |issues| - 1 ==> issues[1..][k] == issues[k + 1];
      rest
  }

  function Union(index: map<int, set<int>>, keys: set<int>): set<int> {
    set k, r | k in keys && k in index && r in index[k] :: r
  }

  lemma TargetIndex(rules: seq<Rule>, x: RuleIndexes, r: int, key: int)
    requires IndexesOf(x, AllOperands(rules))
    ensures r in ParentsOf(x.objectToRules, key) <==>
      exists rule :: rule in rules && rule.id == r && key in Targeted(rule)
    ensures r in ParentsOf(x.zoneToRules, key) <==>
      exists rule :: rule in rules && rule.id == r && HasZone(rule.operands, key)
  {
    var ops := AllOperands(rules);
    assert r in ParentsOf(x.objectToRules, key) <==> HasTarget(ops, ObjectField, key, r);
    assert r in ParentsOf(x.zoneToRules, key) <==> HasTarget(ops, ZoneField, key, r);
    forall o ensures (r, o) in ops <==>
      exists rule :: rule in rules && rule.id == r && o in rule.operands { AllOperandsMeaning(rules, r, o); }
    if HasTarget(ops, ObjectField, key, r) {
      var e :| e in ops && e.0 == r && ObjectField(e.1) == Some(key);
      assert (r, e.1) in ops;
      var rule :| rule in rules && rule.id == r && e.1 in rule.operands;
      assert e.1.object_.Some? && key in Targeted(rule);
    }
    forall rule | rule in rules && rule.id == r && key in Targeted(rule) ensures HasTarget(ops, ObjectField, key, r) {
      var o :| o in rule.operands && o.object_.Some? && o.object_.value == key;
      assert (r, o) in ops && (r, o).1.object_ == Some(key);
    }
    if HasTarget(ops, ZoneField, key, r) {
      var e :| e in ops && e.0 == r && ZoneField(e.1) == Some(key);
      assert (r, e.1) in ops;
      var rule :| rule in rules && rule.id == r && e.1 in rule.operands;
      assert HasZone(rule.operands, key);
    }
    forall rule | rule in rules && rule.id == r && HasZone(rule.operands, key)
      ensures HasTarget(ops, ZoneField, key, r)
    {
      var o :| o in rule.operands && o.zone == Some(key);
      assert (r, o) in ops;
    }
  }

  lemma UnionAbove(rules: seq<Rule>, x: RuleIndexes, g: MemberGraph, keys: set<int>, below: set<int>, r: int)
    requires IndexesOf(x, AllOperands(rules))
    requires forall k :: k in keys <==> exists b :: b in below && Reach(Edges(g), k, b)
    ensures r in Union(x.objectToRules, keys) <==> TargetsAbove(rules, g, below, r)
  {
    hide IndexesOf, Edges, Targeted;
    forall k ensures r in ParentsOf(x.objectToRules, k) <==>
      exists rule :: rule in rules && rule.id == r && k in Targeted(rule) {
      TargetIndex(rules, x, r, k);
    }
    if r in Union(x.objectToRules, keys) {
      var k :| k in keys && k in x.objectToRules && r in x.objectToRules[k];
      assert r in ParentsOf(x.objectToRules, k);
    }
    if TargetsAbove(rules, g, below, r) {
      var rule, t :| rule in rules && rule.id == r && t in Targeted(rule) && exists b ::
        b in below && Reach(Edges(g), t, b);
      assert t in keys && r in ParentsOf(x.objectToRules, t);
    }
  }

  lemma MemberAbove(rules: seq<Rule>, g: MemberGraph, byRule: map<int, seq<Issue>>, below: set<int>, e: Entity, r: int)
    requires forall rule | rule in rules :: rule.id in byRule
    requires e.ObjectE? ==> below == {e.id}
    requires e.MemberE? ==> forall p :: p in below <==> HasMember(g, p, e.id)
    requires e.ObjectE? || e.MemberE?
    ensures TargetsAbove(rules, g, below, r) <==> Affected(rules, g, byRule, e, r)
  {
    hide Edges, Targeted, HasMember, Reach;
    if TargetsAbove(rules, g, below, r) {
      var rule, t :| rule in rules && rule.id == r && t in Targeted(rule) && exists b ::
        b in below && Reach(Edges(g), t, b);
      var b :| b in below && Reach(Edges(g), t, b);
      assert ReachFrom(Edges(g), Targeted(rule), b);
      assert DependsOn(rule, g, byRule[rule.id], e);
    }
    if Affected(rules, g, byRule, e, r) {
      var rule :| rule in rules && rule.id == r && DependsOn(rule, g, byRule[rule.id], e);
      var b: int := e.id;
      if e.MemberE? { b :| ReachFrom(Edges(g), Targeted(rule), b) && HasMember(g, b, e.id); }
      assert b in below;
      var t := ReachWitness(Edges(g), Targeted(rule), b);
      assert TargetsAbove(rules, g, below, r);
    }
  }

  /** Issues indexed per rule: exactly those whose lines overlap the rule's own lines. */
  ghost predicate IssuesIndexed(
    rules: seq<Rule>, ranges: map<int, set<(int, int)>>, issues: seq<Issue>, byRule: map<int, seq<Issue>>) {
    forall r | r in rules :: r.id in byRule && byRule[r.id] == IssuesFor(RangesOf(ranges, r.id), issues)
  }

  /** The rules whose own lines the issue overlaps. */
  function HitRules(rules: seq<Rule>, ranges: map<int, set<(int, int)>>, issue: Issue): set<int> {
    set rule | rule in rules && Hits(RangesOf(ranges, rule.id), issue) :: rule.id
  }

  /**
   * When the filter's answer is right: the rule is in scope; the operand id belongs to one rule at most; the first
   * issue with the id hits every rule that any issue with the id hits.
   */
  ghost predicate Answerable(
    rules: seq<Rule>, ranges: map<int, set<(int, int)>>, issues: seq<Issue>, e: Entity)
  {
    match e
    case RuleE(id) => exists rule :: rule in rules && rule.id == id
    case OperandE(id) =>
      forall a, b | a in rules && b in rules && HasOperand(a.operands, id) && HasOperand(b.operands, id) :: a.id == b.id
    case IssueE(id) =>
      forall i | i in issues && i.id == id ::
        HitRules(rules, ranges, i) <= HitRules(rules, ranges, FirstIssue(issues, id).value)
    case _ => true
  }

  lemma AlwaysAnswerable(rules: seq<Rule>, ranges: map<int, set<(int, int)>>, issues: seq<Issue>, e: Entity)
    ensures e.ZoneE? || e.ObjectE? || e.MemberE? ==> Answerable(rules, ranges, issues, e)
  {
  }

  /** Distinct issue ids always make issue links answerable. */
  lemma UniqueIssuesAnswerable(rules: seq<Rule>, ranges: map<int, set<(int, int)>>, issues: seq<Issue>, id: int)
    requires forall a, b | a in issues && b in issues && a.id == id && b.id == id :: a == b
    ensures Answerable(rules, ranges, issues, IssueE(id))
  {
  }

  lemma IssueAffects(
    rules: seq<Rule>, g: MemberGraph, ranges: map<int, set<(int, int)>>, issues: seq<Issue>,
    byRule: map<int, seq<Issue>>, id: int, r: int)
    requires IssuesIndexed(rules, ranges, issues, byRule)
    ensures Affected(rules, g, byRule, IssueE(id), r) <==>
      exists i :: i in issues && i.id == id && r in HitRules(rules, ranges, i)
  {
    hide Hits;
    if Affected(rules, g, byRule, IssueE(id), r) {
      var rule :| rule in rules && rule.id == r && DependsOn(rule, g, byRule[rule.id], IssueE(id));
      var i :| i in byRule[rule.id] && i.id == id;
      assert r in HitRules(rules, ranges, i);
    }
    forall i | i in issues && i.id == id && r in HitRules(rules, ranges, i)
      ensures Affected(rules, g, byRule, IssueE(id), r)
    {
      var rule :| rule in rules && rule.id == r && Hits(RangesOf(ranges, rule.id), i);
    }
  }

  lemma OperandAffects(
      rules: seq<Rule>, g: MemberGraph, byRule: map<int, seq<Issue>>, x: RuleIndexes, id: int, r: int)
    requires IndexesOf(x, AllOperands(rules)) && forall rule | rule in rules :: rule.id in byRule
    ensures Affected(rules, g, byRule, OperandE(id), r) <==>
      exists rule :: rule in rules && rule.id == r && HasOperand(rule.operands, id)
    ensures id in x.operandToRule <==> exists rule :: rule in rules && HasOperand(rule.operands, id)
    ensures id in x.operandToRule ==>
      exists rule :: rule in rules && HasOperand(rule.operands, id) && rule.id == x.operandToRule[id]
  {
    var ops := AllOperands(rules);
    if Affected(rules, g, byRule, OperandE(id), r) {
      var rule :| rule in rules && rule.id == r && DependsOn(rule, g, byRule[rule.id], OperandE(id));
      assert HasOperand(rule.operands, id);
    }
    forall rule | rule in rules && rule.id == r && HasOperand(rule.operands, id)
      ensures Affected(rules, g, byRule, OperandE(id), r)
    {
      assert DependsOn(rule, g, byRule[rule.id], OperandE(id));
    }
    if id in x.operandToRule {
      var k :| LastOperand(ops, id, k) && ops[k].0 == x.operandToRule[id];
      var e := ops[k];
      AllOperandsMeaning(rules, e.0, e.1);
      assert e == (e.0, e.1);
      var rule :| rule in rules && rule.id == e.0 && e.1 in rule.operands;
      assert HasOperand(rule.operands, id);
    }
    forall rule | rule in rules && HasOperand(rule.operands, id) ensures id in x.operandToRule {
      var o :| o in rule.operands && o.id == id;
      AllOperandsMeaning(rules, rule.id, o);
      assert (rule.id, o) in ops && (rule.id, o).1.id == id;
    }
  }

  /** The groups that list the member. */
  function ParentsWith(g: MemberGraph, id: int): (r: set<int>)
    ensures forall p :: p in r <==> HasMember(g, p, id)
  {
    set p | p in g.byParent && HasMember(g, p, id)
  }

  ghost predicate Agrees(rules: seq<Rule>, g: MemberGraph, byRule: map<int, seq<Issue>>, e: Entity, found: set<int>) {
    forall r :: r in found <==> Affected(rules, g, byRule, e, r)
  }

  lemma RuleResult(
    rules: seq<Rule>, g: MemberGraph, ranges: map<int, set<(int, int)>>, issues: seq<Issue>,
      byRule: map<int, seq<Issue>>, id: int)
    requires forall rule | rule in rules :: rule.id in byRule
    ensures Agrees(rules, g, byRule, RuleE(id), {id}) <==> Answerable(rules, ranges, issues, RuleE(id))
  {
    forall r ensures Affected(rules, g, byRule, RuleE(id), r) <==>
      r == id && Answerable(rules, ranges, issues, RuleE(id)) {
      if r == id && Answerable(rules, ranges, issues, RuleE(id)) {
        var rule :| rule in rules && rule.id == id;
        assert DependsOn(rule, g, byRule[rule.id], RuleE(id));
      }
    }
    assert id in {id};
  }

  lemma OperandResult(
      rules: seq<Rule>, g: MemberGraph, ranges: map<int, set<(int, int)>>, issues: seq<Issue>,
        byRule: map<int, seq<Issue>>, x: RuleIndexes, id: int, found: set<int>)
    requires IndexesOf(x, AllOperands(rules)) && forall rule | rule in rules :: rule.id in byRule
    requires found == if id in x.operandToRule then {x.operandToRule[id]} else {}
    ensures Agrees(rules, g, byRule, OperandE(id), found) <==> Answerable(rules, ranges, issues, OperandE(id))
  {
    hide IndexesOf, AllOperands, HasOperand;
    forall r ensures Affected(rules, g, byRule, OperandE(id), r) <==>
      exists rule :: rule in rules && rule.id == r && HasOperand(rule.operands, id) {
      OperandAffects(rules, g, byRule, x, id, r);
    }
    OperandAffects(rules, g, byRule, x, id, 0);
    hide Affected;
    if Agrees(rules, g, byRule, OperandE(id), found) {
      forall a, b | a in rules && b in rules && HasOperand(a.operands, id) && HasOperand(b.operands, id)
        ensures a.id == b.id
      {
        assert Affected(rules, g, byRule, OperandE(id), a.id) && Affected(rules, g, byRule, OperandE(id), b.id);
        assert a.id in found && b.id in found;
      }
    }
  }

  lemma ZoneResult(rules: seq<Rule>, g: MemberGraph, byRule: map<int, seq<Issue>>, x: RuleIndexes, id: int)
    requires IndexesOf(x, AllOperands(rules)) && forall rule | rule in rules :: rule.id in byRule
    ensures Agrees(rules, g, byRule, ZoneE(id), ParentsOf(x.zoneToRules, id))
  {
    hide IndexesOf, AllOperands;
    forall r ensures r in ParentsOf(x.zoneToRules, id) <==> Affected(rules, g, byRule, ZoneE(id), r) {
      TargetIndex(rules, x, r, id);
      forall rule | rule in rules
        ensures DependsOn(rule, g, byRule[rule.id], ZoneE(id)) <==> HasZone(rule.operands, id) {}
    }
  }

  lemma ObjectResult(
      rules: seq<Rule>, g: MemberGraph, byRule: map<int, seq<Issue>>, x: RuleIndexes, keys: set<int>, below: set<int>,
        e: Entity)
    requires IndexesOf(x, AllOperands(rules)) && forall rule | rule in rules :: rule.id in byRule
    requires forall k :: k in keys <==> exists b :: b in below && Reach(Edges(g), k, b)
    requires e.ObjectE? ==> below == {e.id}
    requires e.MemberE? ==> forall p :: p in below <==> HasMember(g, p, e.id)
    requires e.ObjectE? || e.MemberE?
    ensures Agrees(rules, g, byRule, e, Union(x.objectToRules, keys))
  {
    hide IndexesOf, Reach, Edges, HasMember, Affected, TargetsAbove, Union;
    forall r ensures r in Union(x.objectToRules, keys) <==> Affected(rules, g, byRule, e, r) {
      UnionAbove(rules, x, g, keys, below, r);
      MemberAbove(rules, g, byRule, below, e, r);
    }
  }

  lemma IssueResult(
      rules: seq<Rule>, g: MemberGraph, ranges: map<int, set<(int, int)>>, issues: seq<Issue>,
        byRule: map<int, seq<Issue>>, id: int, found: set<int>)
    requires IssuesIndexed(rules, ranges, issues, byRule)
    requires found ==
      if FirstIssue(issues, id).Some? then HitRules(rules, ranges, FirstIssue(issues, id).value) else {}
    ensures Agrees(rules, g, byRule, IssueE(id), found) <==> Answerable(rules, ranges, issues, IssueE(id))
  {
    hide IssuesIndexed, Affected, HitRules;
    forall r ensures Affected(rules, g, byRule, IssueE(id), r) <==>
      exists i :: i in issues && i.id == id && r in HitRules(rules, ranges, i)
    {
      IssueAffects(rules, g, ranges, issues, byRule, id, r);
    }
    if Agrees(rules, g, byRule, IssueE(id), found) {
      forall i, r | i in issues && i.id == id && r in HitRules(rules, ranges, i) ensures r in found {
        assert Affected(rules, g, byRule, IssueE(id), r);
      }
    }
  }

  lemma AllIndexed(
    rules: seq<Rule>, ranges: map<int, set<(int, int)>>, issues: seq<Issue>, byRule: map<int, seq<Issue>>)
    requires IssuesIndexed(rules, ranges, issues, byRule)
    ensures forall rule | rule in rules :: rule.id in byRule
  {
  }

  /** The groups above any of the parents. */
  method ExpandParents(g: MemberGraph, parents: set<int>) returns (expanded: set<int>)
    requires Consistent(g)
    ensures forall k :: k in expanded <==> exists b :: b in parents && Reach(Edges(g), k, b)
  {
    hide Reach, Edges, Consistent;
    expanded := {};
    var left := parents;
    while left != {}
      invariant left <= parents
      invariant forall k :: k in expanded <==> exists b :: b in parents - left && Reach(Edges(g), k, b)
      decreases left
    {
      var parent := Pick(left);
      var ids := AncestorObjectIds(g, parent);
      expanded := expanded + ids;
      left := left - {parent};
    }
    assert parents - left == parents;
  }

  /**
   * The deep-link filter finds exactly the rules whose forward dependencies contain the entity,
   * if and only if the link is answerable.
   */
  method RuleIdsForDeepLink(
      link: Entity, rules: seq<Rule>, x: RuleIndexes, g: MemberGraph,
      issues: seq<Issue>, ranges: map<int, set<(int, int)>>, ghost byRule: map<int, seq<Issue>>)
    returns (found: set<int>)
    requires Consistent(g) && IndexesOf(x, AllOperands(rules)) && IssuesIndexed(rules, ranges, issues, byRule)
    ensures Agrees(rules, g, byRule, link, found) <==> Answerable(rules, ranges, issues, link)
  {
    hide IndexesOf, AllOperands, Edges, Consistent, IssuesIndexed, Agrees, Answerable;
    AllIndexed(rules, ranges, issues, byRule);
    AlwaysAnswerable(rules, ranges, issues, link);
    match link
    case RuleE(id) =>
      found := {id};
      RuleResult(rules, g, ranges, issues, byRule, id);
    case OperandE(id) =>
      found := if id in x.operandToRule then {x.operandToRule[id]} else {};
      OperandResult(rules, g, ranges, issues, byRule, x, id, found);
    case ZoneE(id) =>
      found := ParentsOf(x.zoneToRules, id);
      ZoneResult(rules, g, byRule, x, id);
    case ObjectE(id) =>
      var ids := AncestorObjectIds(g, id);
      found := Union(x.objectToRules, ids);
      ObjectResult(rules, g, byRule, x, ids, {id}, link);
    case MemberE(id) =>
      var parents := ParentsWith(g, id);
      var expanded := ExpandParents(g, parents);
      found := Union(x.objectToRules, expanded);
      ObjectResult(rules, g, byRule, x, expanded, parents, link);
    case IssueE(id) =>
      var issue := FirstIssue(issues, id);
      found := if issue.Some? then HitRules(rules, ranges, issue.value) else {};
      IssueResult(rules, g, ranges, issues, byRule, id, found);
  }
}
