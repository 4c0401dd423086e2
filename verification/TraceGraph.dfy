/** The trace view's member graph, rule indexes, and the two directions of entity filtering. */
module TraceGraph {
  import opened Collections
  import opened CatalogModels

  /** Ids are UUID texts; only equality matters. */
  datatype Member = Member(id: int, child: int, position: int)

  datatype TraceObject = TraceObject(name: string, isGroup: bool)

  datatype Operand = Operand(id: int, zone: Option<int>, object_: Option<int>)

  datatype Rule = Rule(id: int, operands: seq<Operand>)

  datatype Issue = Issue(id: int, start: Option<int>, end: Option<int>)

  datatype Entity =
    | RuleE(id: int) | OperandE(id: int) | ZoneE(id: int) | ObjectE(id: int) | MemberE(id: int) | IssueE(id: int)

  datatype MemberGraph = MemberGraph(byParent: map<int, seq<Member>>, childToParents: map<int, set<int>>)

  function MembersOf(g: MemberGraph, id: int): seq<Member> {
    if id in g.byParent then g.byParent[id] else []
  }

  /** From a group to each of its members. */
  ghost function Edges(g: MemberGraph): set<(int, int)> {
    set p, m | p in g.byParent && m in g.byParent[p] :: (p, m.child)
  }

  /** The two dictionaries describe the same edges. */
  ghost predicate Consistent(g: MemberGraph) {
    forall c, p :: p in ParentsOf(g.childToParents, c) <==> (p, c) in Edges(g)
  }

  // ----- building the graph

  function InsertByPosition(m: Member, members: seq<Member>): seq<Member> {
    if members == [] then [m]
    else if m.position <= members[0].position then [m] + members
    else [members[0]] + InsertByPosition(m, members[1..])
  }

  /** Stable sort by position. */
  function SortByPosition(members: seq<Member>): seq<Member> {
    if members == [] then [] else InsertByPosition(members[0], SortByPosition(members[1..]))
  }

  lemma {:induction false} InsertKeepsMembers(m: Member, members: seq<Member>)
    ensures multiset(InsertByPosition(m, members)) == multiset(members) + multiset{m}
  {
    if members != [] {
      assert members == [members[0]] + members[1..];
      if m.position > members[0].position { InsertKeepsMembers(m, members[1..]); }
    }
  }

  ghost predicate InOrder(members: seq<Member>) {
    forall i, j :: 0 <= i < j < |members| ==> members[i].position <= members[j].position
  }

  lemma {:induction false} InsertKeepsOrder(m: Member, members: seq<Member>)
    requires InOrder(members)
    ensures InOrder(InsertByPosition(m, members))
  {
    if members != [] && m.position > members[0].position {
      InsertKeepsOrder(m, members[1..]);
      InsertKeepsMembers(m, members[1..]);
      var rest := InsertByPosition(m, members[1..]);
      forall j | 0 <= j < |rest| ensures members[0].position <= rest[j].position {
        assert rest[j] in multiset(rest);
        assert rest[j] == m || rest[j] in members[1..];
      }
    }
  }

  lemma {:induction false} SortByPositionSorted(members: seq<Member>)
    ensures multiset(SortByPosition(members)) == multiset(members) && InOrder(SortByPosition(members))
  {
    if members != [] {
      assert members == [members[0]] + members[1..];
      SortByPositionSorted(members[1..]);
      InsertKeepsOrder(members[0], SortByPosition(members[1..]));
      InsertKeepsMembers(members[0], SortByPosition(members[1..]));
    }
  }

  /** The members at one position, in order. */
  function AtPosition(members: seq<Member>, position: int): seq<Member> {
    if members == [] then []
    else (if members[0].position == position then [members[0]] else []) + AtPosition(members[1..], position)
  }

  lemma AtPositionCons(m: Member, members: seq<Member>, position: int)
    ensures AtPosition([m] + members, position) ==
      if m.position == position then [m] + AtPosition(members, position) else AtPosition(members, position)
  {
    assert ([m] + members)[1..] == members;
  }

  lemma {:induction false} InsertStable(m: Member, members: seq<Member>, position: int)
    ensures AtPosition(InsertByPosition(m, members), position) ==
      if m.position == position then [m] + AtPosition(members, position) else AtPosition(members, position)
  {
    hide AtPosition;
    if members == [] {
      AtPositionCons(m, [], position);
      assert [m] + [] == [m];
    } else if m.position <= members[0].position {
      AtPositionCons(m, members, position);
    } else {
      InsertStable(m, members[1..], position);
      AtPositionCons(members[0], members[1..], position);
      AtPositionCons(members[0], InsertByPosition(m, members[1..]), position);
      assert members == [members[0]] + members[1..];
    }
  }

  /** Members at the same position keep their order. */
  lemma {:induction false} SortByPositionStable(members: seq<Member>, position: int)
    ensures AtPosition(SortByPosition(members), position) == AtPosition(members, position)
  {
    if members != [] {
      SortByPositionStable(members[1..], position);
      InsertStable(members[0], SortByPosition(members[1..]), position);
    }
  }

  method AddParents(parents: map<int, set<int>>, members: seq<Member>, parent: int) returns (r: map<int, set<int>>)
    ensures forall c, p :: p in ParentsOf(r, c) <==>
      p in ParentsOf(parents, c) || (p == parent && HasChild(members, c))
  {
    r := parents;
    for i := 0 to |members|
      invariant forall c, p :: p in ParentsOf(r, c) <==>
        p in ParentsOf(parents, c) || (p == parent && HasChild(members[..i], c))
    {
      assert members[..i + 1] == members[..i] + [members[i]];
      forall c ensures HasChild(members[..i + 1], c) <==> HasChild(members[..i], c) || c == members[i].child {
        HasChildSnoc(members[..i], members[i], c);
      }
      r := AddParent(r, members[i].child, parent);
    }
    assert members[..|members|] == members;
  }

  /** Members are read per group; a failing read counts as no members. */
  function ReadMembers(rows: map<int, seq<Member>>, id: int): seq<Member> { if id in rows then rows[id] else [] }

  /** One entry per group object, in position order, and the reverse map of exactly those entries. */
  method BuildMemberGraph(
    ids: seq<int>, objects: map<int, TraceObject>, rows: map<int, seq<Member>>) returns (g: MemberGraph)
    requires forall id :: id in ids <==> id in objects
    ensures forall id :: id in g.byParent <==> id in objects && objects[id].isGroup
    ensures forall id | id in g.byParent :: g.byParent[id] == SortByPosition(ReadMembers(rows, id))
    ensures forall id | id in g.byParent ::
      InOrder(g.byParent[id]) && multiset(g.byParent[id]) == if id in rows then multiset(rows[id]) else multiset{}
    ensures Consistent(g)
  {
    g := MemberGraph(map[], map[]);
    for i := 0 to |ids|
      invariant forall id :: id in g.byParent <==> id in ids[..i] && objects[id].isGroup
      invariant forall id | id in g.byParent :: g.byParent[id] == SortByPosition(ReadMembers(rows, id))
      invariant Consistent(g)
    {
      assert ids[..i + 1] == ids[..i] + [ids[i]];
      var id := ids[i];
      assert id in ids && id in objects;
      if !objects[id].isGroup {
        continue;
      }
      var members := ReadMembers(rows, id);
      var parents := AddParents(g.childToParents, members, id);
      var next := MemberGraph(g.byParent[id := SortByPosition(members)], parents);
      ConsistentNext(g, id, members, next);
      g := next;
    }
    assert ids[..|ids|] == ids;
    forall id | id in g.byParent ensures InOrder(g.byParent[id])
      && multiset(g.byParent[id]) == if id in rows then multiset(rows[id]) else multiset{}
    {
      SortByPositionSorted(ReadMembers(rows, id));
    }
  }

  lemma ConsistentNext(g: MemberGraph, id: int, members: seq<Member>, next: MemberGraph)
    requires Consistent(g) && (id in g.byParent ==> g.byParent[id] == SortByPosition(members))
    requires next.byParent == g.byParent[id := SortByPosition(members)]
    requires forall c, p :: p in ParentsOf(next.childToParents, c) <==>
      p in ParentsOf(g.childToParents, c) || (p == id && HasChild(members, c))
    ensures Consistent(next)
  {
    forall c, p ensures p in ParentsOf(next.childToParents, c) <==> (p, c) in Edges(next) {
      EdgeMeaning(g, p, c);
      EdgeMeaning(next, p, c);
      assert p in ParentsOf(g.childToParents, c) <==> (p, c) in Edges(g);
      if p == id { SortedHasChild(members, c); }
    }
  }

  ghost predicate HasChild(members: seq<Member>, c: int) { exists m :: m in members && m.child == c }

  lemma HasChildSnoc(members: seq<Member>, last: Member, c: int)
    ensures HasChild(members + [last], c) <==> HasChild(members, c) || c == last.child
  {
    assert forall m :: m in members + [last] <==> m in members || m == last;
  }

  lemma SortedHasChild(members: seq<Member>, c: int)
    ensures HasChild(SortByPosition(members), c) <==> HasChild(members, c)
  {
    SortByPositionSorted(members);
    forall m ensures m in SortByPosition(members) <==> m in members {
      assert m in multiset(SortByPosition(members)) <==> m in multiset(members);
    }
  }

  lemma EdgeMeaning(g: MemberGraph, p: int, c: int)
    ensures (p, c) in Edges(g) <==> p in g.byParent && HasChild(g.byParent[p], c)
  {
    if p in g.byParent && HasChild(g.byParent[p], c) {
      var m :| m in g.byParent[p] && m.child == c;
    }
  }

  // ----- rule indexes

  datatype RuleIndexes = RuleIndexes(operandToRule: map<int, int>, zoneToRules: map<int, set<int>>,
    objectToRules: map<int, set<int>>)

  function Add(index: map<int, set<int>>, key: Option<int>, rule: int): map<int, set<int>> {
    if key.None? then index else index[key.value := ParentsOf(index, key.value) + {rule}]
  }

  /** The flat list of operands with the id of the rule that holds each. */
  function AllOperands(rules: seq<Rule>): seq<(int, Operand)> {
    if rules == [] then []
    else
      var last := rules[|rules| - 1];
      AllOperands(rules[..|rules| - 1]) +
        seq(|last.operands|, i requires 0 <= i < |last.operands| => (last.id, last.operands[i]))
  }

  ghost predicate Targets(index: map<int, set<int>>, ops: seq<(int, Operand)>, field: Operand -> Option<int>) {
    forall key, r :: r in ParentsOf(index, key) <==> HasTarget(ops, field, key, r)
  }

  ghost predicate HasTarget(ops: seq<(int, Operand)>, field: Operand -> Option<int>, key: int, r: int) {
    exists o :: o in ops && o.0 == r && field(o.1) == Some(key)
  }

  lemma HasTargetSnoc(ops: seq<(int, Operand)>, field: Operand -> Option<int>, rule: int, o: Operand, key: int, r: int)
    ensures HasTarget(ops + [(rule, o)], field, key, r) <==>
      HasTarget(ops, field, key, r) || (rule == r && field(o) == Some(key))
  {
    var next := ops + [(rule, o)];
    assert forall e :: e in next <==> e in ops || e == (rule, o);
    assert (rule, o) in next;
  }

  /** Operand ids map to the rule of the last operand listed with the id. */
  ghost predicate Holds(index: map<int, int>, ops: seq<(int, Operand)>) {
    && (forall i :: i in index <==> exists o :: o in ops && o.1.id == i)
    && (forall i | i in index :: exists k :: LastOperand(ops, i, k) && ops[k].0 == index[i])
  }

  ghost predicate LastOperand(ops: seq<(int, Operand)>, id: int, k: int) {
    0 <= k < |ops| && ops[k].1.id == id && forall j :: k < j < |ops| ==> ops[j].1.id != id
  }

  function ZoneField(o: Operand): Option<int> { o.zone }

  function ObjectField(o: Operand): Option<int> { o.object_ }

  ghost predicate IndexesOf(x: RuleIndexes, ops: seq<(int, Operand)>) {
    Targets(x.zoneToRules, ops, ZoneField) && Targets(x.objectToRules, ops, ObjectField) && Holds(x.operandToRule, ops)
  }

  lemma TargetsNext(
    index: map<int, set<int>>, ops: seq<(int, Operand)>, field: Operand -> Option<int>, rule: int, o: Operand)
    requires Targets(index, ops, field)
    ensures Targets(Add(index, field(o), rule), ops + [(rule, o)], field)
  {
    var next := ops + [(rule, o)];
    forall key, r ensures r in ParentsOf(Add(index, field(o), rule), key) <==> HasTarget(next, field, key, r) {
      HasTargetSnoc(ops, field, rule, o, key, r);
    }
  }

  lemma HoldsNext(index: map<int, int>, ops: seq<(int, Operand)>, rule: int, o: Operand)
    requires Holds(index, ops)
    ensures Holds(index[o.id := rule], ops + [(rule, o)])
  {
    var next := ops + [(rule, o)];
    assert forall e :: e in next <==> e in ops || e == (rule, o);
    assert (rule, o) in next;
    var more := index[o.id := rule];
    forall i | i in more ensures exists k :: LastOperand(next, i, k) && next[k].0 == more[i] {
      if i != o.id {
        var k :| LastOperand(ops, i, k) && ops[k].0 == index[i];
        assert LastOperand(next, i, k) && next[k].0 == more[i];
      } else {
        assert LastOperand(next, i, |ops|);
      }
    }
  }

  lemma IndexesNext(x: RuleIndexes, ops: seq<(int, Operand)>, rule: int, o: Operand)
    requires IndexesOf(x, ops)
    ensures IndexesOf(
      RuleIndexes(x.operandToRule[o.id := rule], Add(x.zoneToRules, o.zone, rule),
        Add(x.objectToRules, o.object_, rule)),
      ops + [(rule, o)])
  {
    hide Targets, Holds;
    TargetsNext(x.zoneToRules, ops, ZoneField, rule, o);
    TargetsNext(x.objectToRules, ops, ObjectField, rule, o);
    HoldsNext(x.operandToRule, ops, rule, o);
  }

  /** Zone and object targets map to exactly the rules that name them; operands to a rule that holds them. */
  method BuildRuleIndexes(rules: seq<Rule>) returns (x: RuleIndexes)
    ensures IndexesOf(x, AllOperands(rules))
  {
    x := RuleIndexes(map[], map[], map[]);
    for i := 0 to |rules|
      invariant IndexesOf(x, AllOperands(rules[..i]))
    {
      assert rules[..i + 1][..i] == rules[..i];
      var rule := rules[i];
      ghost var before := AllOperands(rules[..i]);
      ghost var own := seq(|rule.operands|, k requires 0 <= k < |rule.operands| => (rule.id, rule.operands[k]));
      assert before + own[..0] == before;
      for j := 0 to |rule.operands|
        invariant IndexesOf(x, before + own[..j])
      {
        var o := rule.operands[j];
        assert before + own[..j + 1] == (before + own[..j]) + [(rule.id, o)];
        IndexesNext(x, before + own[..j], rule.id, o);
        hide IndexesOf;
        x := RuleIndexes(x.operandToRule[o.id := rule.id], Add(x.zoneToRules, o.zone, rule.id),
          Add(x.objectToRules, o.object_, rule.id));
      }
      assert own[..|rule.operands|] == own;
    }
    assert rules[..|rules|] == rules;
  }

  lemma {:induction false} AllOperandsMeaning(rules: seq<Rule>, r: int, o: Operand)
    ensures (r, o) in AllOperands(rules) <==> exists rule :: rule in rules && rule.id == r && o in rule.operands
  {
    if rules != [] {
      var init, last := rules[..|rules| - 1], rules[|rules| - 1];
      AllOperandsMeaning(init, r, o);
      assert rules == init + [last];
      var own := seq(|last.operands|, i requires 0 <= i < |last.operands| => (last.id, last.operands[i]));
      if last.id == r && o in last.operands {
        var k :| 0 <= k < |last.operands| && last.operands[k] == o;
        assert own[k] == (r, o);
      }
    }
  }
}
