/** Which rules an entity affects: backwards from the entity, and forwards from each rule. */
module TraceFilter {
  import opened Collections
  import opened CatalogModels
  import opened Graphs
  import opened Levels
  import opened TraceGraph

  // ----- issues

  predicate RangesOverlap(leftStart: int, leftEnd: int, rightStart: Option<int>, rightEnd: Option<int>) {
    rightStart.Some? &&
    var end := if rightEnd.Some? then rightEnd.value else rightStart.value;
    leftStart <= end && leftEnd >= rightStart.value
  }

  predicate OnLine(line: int, start: int, end: int) { start <= line <= end }

  /** The lines of an issue: none without a start line, one without an end line. */
  predicate IssueLine(line: int, start: Option<int>, end: Option<int>) {
    start.Some? && OnLine(line, start.value, if end.Some? then end.value else start.value)
  }

  /** A rule and an issue overlap exactly when they share a line, for ranges that are not inverted. */
  lemma OverlapIsSharedLine(leftStart: int, leftEnd: int, start: Option<int>, end: Option<int>)
    requires leftStart <= leftEnd && (start.Some? && end.Some? ==> start.value <= end.value)
    ensures RangesOverlap(leftStart, leftEnd, start, end) <==>
      exists line :: OnLine(line, leftStart, leftEnd) && IssueLine(line, start, end)
    ensures start.None? ==> !RangesOverlap(leftStart, leftEnd, start, end)
  {
    if RangesOverlap(leftStart, leftEnd, start, end) {
      var line := if leftStart >= start.value then leftStart else start.value;
      assert OnLine(line, leftStart, leftEnd) && IssueLine(line, start, end);
    }
  }

  predicate Hits(ranges: set<(int, int)>, issue: Issue) {
    exists r | r in ranges :: RangesOverlap(r.0, r.1, issue.start, issue.end)
  }

  function IssuesFor(ranges: set<(int, int)>, issues: seq<Issue>): (r: seq<Issue>)
    ensures forall i :: i in r <==> i in issues && Hits(ranges, i)
  {
    if issues == [] then []
    else (if Hits(ranges, issues[0]) then [issues[0]] else []) + IssuesFor(ranges, issues[1..])
  }

  function RangesOf(ranges: map<int, set<(int, int)>>, rule: int): set<(int, int)> {
    if rule in ranges then ranges[rule] else {}
  }

  /** One of the rule's own line ranges overlaps the issue. */
  ghost predicate HitsRule(ranges: map<int, set<(int, int)>>, rule: int, issue: Issue) {
    rule in ranges && exists r :: r in ranges[rule] && RangesOverlap(r.0, r.1, issue.start, issue.end)
  }

  method IndexIssuesByRule(rules: seq<Rule>, ranges: map<int, set<(int, int)>>, issues: seq<Issue>)
    returns (byRule: map<int, seq<Issue>>)
    ensures forall r | r in rules :: r.id in byRule && byRule[r.id] == IssuesFor(RangesOf(ranges, r.id), issues)
    ensures forall r, i | r in rules :: i in byRule[r.id] <==> i in issues && HitsRule(ranges, r.id, i)
  {
    byRule := map[];
    for i := 0 to |rules|
      invariant forall r | r in rules[..i] :: r.id in byRule
      invariant forall id | id in byRule :: byRule[id] == IssuesFor(RangesOf(ranges, id), issues)
    {
      assert rules[..i + 1] == rules[..i] + [rules[i]];
      byRule := byRule[rules[i].id := IssuesFor(RangesOf(ranges, rules[i].id), issues)];
    }
    assert rules[..|rules|] == rules;
  }

  // ----- forwards: everything a rule was built from

  ghost function Targeted(rule: Rule): set<int> {
    set o | o in rule.operands && o.object_.Some? :: o.object_.value
  }

  ghost predicate DependsOn(rule: Rule, g: MemberGraph, issues: seq<Issue>, e: Entity) {
    match e
    case RuleE(id) => id == rule.id
    case OperandE(id) => exists o :: o in rule.operands && o.id == id
    case ZoneE(id) => exists o :: o in rule.operands && o.zone == Some(id)
    case ObjectE(id) => ReachFrom(Edges(g), Targeted(rule), id)
    case MemberE(id) => exists p :: ReachFrom(Edges(g), Targeted(rule), p) && HasMember(g, p, id)
    case IssueE(id) => exists i :: i in issues && i.id == id
  }

  predicate HasMember(g: MemberGraph, p: int, id: int) {
    exists m :: m in MembersOf(g, p) && m.id == id
  }

  function MemberKeys(members: seq<Member>): (r: set<Entity>)
    ensures forall e :: e in r <==> e.MemberE? && exists m :: m in members && m.id == e.id
  {
    set m | m in members :: MemberE(m.id)
  }

  function ChildIds(members: seq<Member>): (r: seq<int>)
    ensures |r| == |members| && forall i :: 0 <= i < |r| ==> r[i] == members[i].child
  {
    seq(|members|, i requires 0 <= i < |members| => members[i].child)
  }

  ghost predicate Walking(g: MemberGraph, roots: set<int>, pending: seq<int>, seen: set<int>, keys: set<Entity>) {
    && (forall x | x in seen :: ReachFrom(Edges(g), roots, x))
    && (forall x | x in pending :: ReachFrom(Edges(g), roots, x))
    && (forall x | x in roots :: x in seen || x in pending)
    && (forall e | e in Edges(g) && e.0 in seen :: e.1 in seen || e.1 in pending)
    && (forall e :: e in keys <==>
      (e.ObjectE? && e.id in seen) || (e.MemberE? && exists p :: p in seen && HasMember(g, p, e.id)))
  }

  lemma WalkingStep(g: MemberGraph, roots: set<int>, pending: seq<int>, seen: set<int>, keys: set<Entity>, x: int)
    requires Walking(g, roots, pending + [x], seen, keys) && x !in seen
    ensures var members := MembersOf(g, x);
      Walking(g, roots, pending + ChildIds(members), seen + {x}, keys + {ObjectE(x)} + MemberKeys(members))
  {
    var members := MembersOf(g, x);
    var next, seen' := pending + ChildIds(members), seen + {x};
    assert x in pending + [x];
    forall y | y in next ensures ReachFrom(Edges(g), roots, y) {
      if y in pending { assert y in pending + [x]; } else { ChildReached(g, roots, x, y); }
    }
    forall y | y in roots ensures y in seen' || y in next {
      if y !in seen' { assert y in pending + [x]; }
    }
    forall e | e in Edges(g) && e.0 in seen' ensures e.1 in seen' || e.1 in next {
      if e.0 == x {
        var k := ChildPosition(g, x, e);
        assert ChildIds(members)[k] == e.1;
      } else if e.1 !in seen' { assert e.1 in pending + [x]; }
    }
    forall e: Entity | e.MemberE?
      ensures e in keys + {ObjectE(x)} + MemberKeys(members) <==> exists p :: p in seen' && HasMember(g, p, e.id)
    {
      assert e in MemberKeys(members) <==> HasMember(g, x, e.id);
      assert x in seen';
    }
  }

  lemma ChildReached(g: MemberGraph, roots: set<int>, x: int, y: int)
    requires ReachFrom(Edges(g), roots, x) && y in ChildIds(MembersOf(g, x))
    ensures ReachFrom(Edges(g), roots, y)
  {
    var members := MembersOf(g, x);
    var k :| 0 <= k < |members| && ChildIds(members)[k] == y;
    assert members[k] in members;
    EdgeMeaning(g, x, y);
    var a := ReachWitness(Edges(g), roots, x);
    ReachStep(Edges(g), a, x, y);
  }

  lemma ChildPosition(g: MemberGraph, x: int, e: (int, int)) returns (k: nat)
    requires e in Edges(g) && e.0 == x
    ensures k < |MembersOf(g, x)| && MembersOf(g, x)[k].child == e.1
  {
    assert e == (x, e.1);
    EdgeMeaning(g, x, e.1);
    var m :| m in g.byParent[x] && m.child == e.1;
    k :| 0 <= k < |MembersOf(g, x)| && MembersOf(g, x)[k] == m;
  }

  lemma WalkingSkip(g: MemberGraph, roots: set<int>, pending: seq<int>, seen: set<int>, keys: set<Entity>, x: int)
    requires Walking(g, roots, pending + [x], seen, keys) && x in seen
    ensures Walking(g, roots, pending, seen, keys)
  {
    assert forall y :: y in pending + [x] <==> y in pending || y == x;
  }

  lemma WalkingDone(g: MemberGraph, roots: set<int>, seen: set<int>, keys: set<Entity>)
    requires Walking(g, roots, [], seen, keys)
    ensures forall x :: x in seen <==> ReachFrom(Edges(g), roots, x)
    ensures forall e :: e in keys <==> ObjectSide(g, roots, e)
  {
    forall x | ReachFrom(Edges(g), roots, x) ensures x in seen {
      var a := ReachWitness(Edges(g), roots, x);
      ReachInClosed(Edges(g), seen, a, x);
    }
  }

  /** The object and member entities below some roots. */
  ghost predicate ObjectSide(g: MemberGraph, roots: set<int>, e: Entity) {
    || (e.ObjectE? && ReachFrom(Edges(g), roots, e.id))
    || (e.MemberE? && exists p :: ReachFrom(Edges(g), roots, p) && HasMember(g, p, e.id))
  }

  ghost function Universe(g: MemberGraph, roots: set<int>): set<int> { roots + set e | e in Edges(g) :: e.1 }

  lemma WalkingInUniverse(g: MemberGraph, roots: set<int>, pending: seq<int>, seen: set<int>, keys: set<Entity>, x: int)
    requires Walking(g, roots, pending, seen, keys) && x in pending
    ensures x in Universe(g, roots)
  {
    var a := ReachWitness(Edges(g), roots, x);
    var u := Universe(g, roots);
    assert ClosedUnder(Edges(g), u);
    ReachInClosed(Edges(g), u, a, x);
  }

  /** The forward worklist: object and member keys of everything below the roots. */
  method CollectObjectKeys(g: MemberGraph, roots: seq<int>) returns (keys: set<Entity>)
    ensures forall e :: e in keys <==> ObjectSide(g, SetOf(roots), e)
  {
    ghost var from := SetOf(roots);
    var pending, seen := roots, {};
    keys := {};
    assert Walking(g, from, pending, seen, keys) by {
      forall x | x in from ensures ReachFrom(Edges(g), from, x) { ReachSelf(Edges(g), x); }
    }
    while pending != []
      invariant Walking(g, from, pending, seen, keys)
      decreases Universe(g, from) - seen, |pending|
    {
      var x := pending[|pending| - 1];
      WalkingInUniverse(g, from, pending, seen, keys, x);
      hide Walking, Universe;
      assert pending == pending[..|pending| - 1] + [x];
      pending := pending[..|pending| - 1];
      if x in seen {
        WalkingSkip(g, from, pending, seen, keys, x);
        continue;
      }
      WalkingStep(g, from, pending, seen, keys, x);
      seen := seen + {x};
      keys := keys + {ObjectE(x)} + MemberKeys(MembersOf(g, x));
      pending := pending + ChildIds(MembersOf(g, x));
    }
    WalkingDone(g, from, seen, keys);
  }

  /** Every entity the rule depends on, and no other. */
  method CollectRuleEntityKeys(rule: Rule, g: MemberGraph, issues: seq<Issue>) returns (keys: set<Entity>)
    ensures forall e :: e in keys <==> DependsOn(rule, g, issues, e)
  {
    hide ReachFrom, HasMember;
    keys := {RuleE(rule.id)};
    var pending: seq<int> := [];
    for i := 0 to |rule.operands|
      invariant forall e :: e in keys <==> e == RuleE(rule.id) || OperandSide(rule.operands[..i], e)
      invariant forall x :: x in pending <==> exists o :: o in rule.operands[..i] && o.object_ == Some(x)
    {
      var o := rule.operands[i];
      OperandSideNext(rule.operands, i);
      keys := keys + {OperandE(o.id)};
      if o.zone.Some? {
        keys := keys + {ZoneE(o.zone.value)};
      }
      if o.object_.Some? {
        pending := pending + [o.object_.value];
      }
    }
    assert rule.operands[..|rule.operands|] == rule.operands;
    TargetedIs(rule, pending);
    var below := CollectObjectKeys(g, pending);
    keys := keys + below + set i | i in issues :: IssueE(i.id);
  }

  lemma TargetedIs(rule: Rule, pending: seq<int>)
    requires forall x :: x in pending <==> exists o :: o in rule.operands && o.object_ == Some(x)
    ensures Targeted(rule) == SetOf(pending)
  {
    forall x ensures x in Targeted(rule) <==> x in SetOf(pending) {
      if x in SetOf(pending) {
        var o :| o in rule.operands && o.object_ == Some(x);
        assert o.object_.Some?;
      }
    }
  }

  ghost predicate OperandSide(ops: seq<Operand>, e: Entity) {
    (e.OperandE? && HasOperand(ops, e.id)) || (e.ZoneE? && HasZone(ops, e.id))
  }

  ghost predicate HasOperand(ops: seq<Operand>, id: int) { exists o :: o in ops && o.id == id }

  ghost predicate HasZone(ops: seq<Operand>, zone: int) { exists o :: o in ops && o.zone == Some(zone) }

  lemma HasSnoc(ops: seq<Operand>, last: Operand, x: int)
    ensures HasOperand(ops + [last], x) <==> HasOperand(ops, x) || last.id == x
    ensures HasZone(ops + [last], x) <==> HasZone(ops, x) || last.zone == Some(x)
  {
    assert forall o :: o in ops + [last] <==> o in ops || o == last;
  }

  lemma OperandSideNext(ops: seq<Operand>, i: nat)
    requires i < |ops|
    ensures forall e :: OperandSide(ops[..i + 1], e) <==>
      OperandSide(ops[..i], e) || e == OperandE(ops[i].id) || (ops[i].zone.Some? && e == ZoneE(ops[i].zone.value))
    ensures forall o :: o in ops[..i + 1] <==> o in ops[..i] || o == ops[i]
  {
    assert ops[..i + 1] == ops[..i] + [ops[i]];
    forall e: Entity ensures OperandSide(ops[..i + 1], e) <==>
      OperandSide(ops[..i], e) || e == OperandE(ops[i].id) || (ops[i].zone.Some? && e == ZoneE(ops[i].zone.value))
    {
      HasSnoc(ops[..i], ops[i], e.id);
    }
  }
}
