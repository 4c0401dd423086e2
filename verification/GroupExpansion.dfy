/** Batched breadth-first expansion of canonical groups, over membership that may be cyclic. */
module GroupExpansion {
  import opened Collections
  import opened Graphs
  import opened Levels

  /** Object ids are UUIDs; only equality matters. */
  datatype Object = Object(id: int, isGroup: bool)

  datatype Member = Member(parent: int, child: int)

  /** The rows of one snapshot. */
  datatype Snapshot = Snapshot(objects: seq<Object>, members: seq<Member>)

  function SelectObjects(objects: seq<Object>, ids: set<int>): (r: seq<Object>)
    ensures forall o :: o in r <==> o in objects && o.id in ids
  {
    if objects == [] then []
    else (if objects[0].id in ids then [objects[0]] else []) + SelectObjects(objects[1..], ids)
  }

  function SelectMembers(members: seq<Member>, parents: set<int>): (r: seq<Member>)
    ensures forall m :: m in r <==> m in members && m.parent in parents
  {
    if members == [] then []
    else (if members[0].parent in parents then [members[0]] else []) + SelectMembers(members[1..], parents)
  }

  ghost function Groups(s: Snapshot): set<int> { set o | o in s.objects && o.isGroup :: o.id }

  ghost function Known(s: Snapshot): set<int> { set o | o in s.objects :: o.id }

  /** Membership edges out of the groups of the snapshot. */
  ghost function Edges(s: Snapshot): set<(int, int)> {
    set m | m in s.members && m.parent in Groups(s) :: (m.parent, m.child)
  }

  ghost predicate Reached(s: Snapshot, seeds: set<int>, id: int) { ReachFrom(Edges(s), seeds, id) }

  // ----- the state between two batches; `done` are the ids already fetched

  ghost predicate Expanding(
      s: Snapshot, seeds: set<int>, collected: map<int, Object>, parents: map<int, set<int>>,
      done: set<int>, pending: set<int>)
  {
    && done !! pending && seeds <= done + pending
    && (forall id | id in done + pending :: Reached(s, seeds, id))
    && (forall e | e in Edges(s) && e.0 in done :: e.1 in done + pending)
    && collected.Keys == done * Known(s)
    && (forall id | id in collected :: collected[id] in s.objects && collected[id].id == id)
    && ParentsRecorded(s, parents, done)
  }

  ghost predicate ParentsRecorded(s: Snapshot, parents: map<int, set<int>>, done: set<int>) {
    && (forall child, g :: g in ParentsOf(parents, child) <==> g in done && (g, child) in Edges(s))
    && (forall child | child in parents :: parents[child] != {})
  }

  /** Everything reachable is fetched once no id is pending. */
  lemma ExpansionComplete(
      s: Snapshot, seeds: set<int>, collected: map<int, Object>, parents: map<int, set<int>>, done: set<int>)
    requires Expanding(s, seeds, collected, parents, done, {})
    ensures forall id :: id in done <==> Reached(s, seeds, id)
  {
    forall id | Reached(s, seeds, id) ensures id in done {
      var a := ReachWitness(Edges(s), seeds, id);
      ReachInClosed(Edges(s), done, a, id);
    }
  }

  /** The parent map after some members: their parents on top of those known before. */
  ghost predicate ParentsAdded(after: map<int, set<int>>, before: map<int, set<int>>, members: seq<Member>) {
    && (forall child, g ::
          g in ParentsOf(after, child) <==> g in ParentsOf(before, child) || Member(g, child) in members)
    && (NoneEmpty(before) ==> NoneEmpty(after))
  }

  ghost predicate NoneEmpty(parents: map<int, set<int>>) {
    forall child | child in parents :: parents[child] != {}
  }

  /** The queue after some members: their children that were not seen before, each once. */
  ghost predicate Queued(seen': set<int>, seen: set<int>, pending: set<int>, members: seq<Member>) {
    && seen' == seen + pending && seen !! pending
    && forall c :: c in seen' <==> c in seen || HasMemberChild(members, c)
  }

  ghost predicate HasMemberChild(members: seq<Member>, c: int) { exists m :: m in members && m.child == c }

  lemma ParentsNext(after: map<int, set<int>>, before: map<int, set<int>>, members: seq<Member>, m: Member)
    requires ParentsAdded(after, before, members)
    ensures ParentsAdded(AddParent(after, m.child, m.parent), before, members + [m])
  {
    forall child, g
      ensures g in ParentsOf(AddParent(after, m.child, m.parent), child) <==>
        g in ParentsOf(after, child) || m == Member(g, child)
    {
    }
  }

  lemma QueuedNext(seen': set<int>, seen: set<int>, pending: set<int>, members: seq<Member>, m: Member)
    requires Queued(seen', seen, pending, members)
    ensures if m.child in seen' then Queued(seen', seen, pending, members + [m])
      else Queued(seen' + {m.child}, seen, pending + {m.child}, members + [m])
  {
    forall c ensures HasMemberChild(members + [m], c) <==> HasMemberChild(members, c) || c == m.child {
      if HasMemberChild(members, c) {
        var x :| x in members && x.child == c;
        assert x in members + [m];
      }
      assert m in members + [m];
    }
  }

  /** The loop over the members of one batch: parents recorded, unseen children queued. */
  method QueueChildren(members: seq<Member>, parents: map<int, set<int>>, seen: set<int>)
    returns (parents': map<int, set<int>>, seen': set<int>, pending: set<int>)
    ensures ParentsAdded(parents', parents, members) && Queued(seen', seen, pending, members)
  {
    hide ParentsAdded, Queued;
    parents', seen', pending := parents, seen, {};
    NothingQueued(parents, seen);
    for i := 0 to |members|
      invariant ParentsAdded(parents', parents, members[..i]) && Queued(seen', seen, pending, members[..i])
    {
      var m := members[i];
      assert members[..i + 1] == members[..i] + [m];
      ParentsNext(parents', parents, members[..i], m);
      QueuedNext(seen', seen, pending, members[..i], m);
      parents' := AddParent(parents', m.child, m.parent);
      if m.child in seen' {
        continue;
      }
      seen' := seen' + {m.child};
      pending := pending + {m.child};
    }
    assert members[..|members|] == members;
  }

  lemma NothingQueued(parents: map<int, set<int>>, seen: set<int>)
    ensures ParentsAdded(parents, parents, []) && Queued(seen, seen, {}, [])
  {
  }

  /** The loop that keeps the first object of each id. */
  method Collect(batch: seq<Object>, collected: map<int, Object>) returns (r: map<int, Object>)
    ensures r.Keys == collected.Keys + set o | o in batch :: o.id
    ensures forall id | id in r :: if id in collected then r[id] == collected[id] else r[id] in batch && r[id].id == id
  {
    r := collected;
    for i := 0 to |batch|
      invariant r.Keys == collected.Keys + set o | o in batch[..i] :: o.id
      invariant forall id | id in r ::
        if id in collected then r[id] == collected[id] else r[id] in batch && r[id].id == id
    {
      assert batch[..i + 1] == batch[..i] + [batch[i]];
      if batch[i].id !in r {
        r := r[batch[i].id := batch[i]];
      }
    }
    assert batch[..|batch|] == batch;
  }

  lemma BatchStep(
      s: Snapshot, seeds: set<int>, collected: map<int, Object>, parents: map<int, set<int>>, done: set<int>,
      batch: set<int>,
      collected': map<int, Object>, groupIds: set<int>, members: seq<Member>, parents': map<int, set<int>>,
      pending: set<int>)
    requires Expanding(s, seeds, collected, parents, done, batch)
    requires groupIds == batch * Groups(s)
    requires collected'.Keys == collected.Keys + batch * Known(s)
    requires forall id | id in collected' :: collected'[id] in s.objects && collected'[id].id == id
    requires forall m :: m in members <==> m in s.members && m.parent in groupIds
    requires forall child, g :: g in ParentsOf(parents', child) <==>
      g in ParentsOf(parents, child) || Member(g, child) in members
    requires forall child | child in parents' :: parents'[child] != {}
    requires pending !! done + batch
    requires forall c :: c in done + batch + pending <==> c in done + batch || exists m :: m in members && m.child == c
    ensures Expanding(s, seeds, collected', parents', done + batch, pending)
  {
    forall m | m in members ensures (m.parent, m.child) in Edges(s) {}
    forall id | id in pending ensures Reached(s, seeds, id) {
      var m :| m in members && m.child == id;
      assert Reached(s, seeds, m.parent);
      var a := ReachWitness(Edges(s), seeds, m.parent);
      ReachStep(Edges(s), a, m.parent, id);
    }
    forall e | e in Edges(s) && e.0 in done + batch ensures e.1 in done + batch + pending {
      if e.0 in batch { EdgeMember(s, members, groupIds, e); }
    }
    forall child, g ensures g in ParentsOf(parents', child) <==> g in done + batch && (g, child) in Edges(s) {
      if g in batch && (g, child) in Edges(s) { EdgeMember(s, members, groupIds, (g, child)); }
    }
  }

  lemma EdgeMember(s: Snapshot, members: seq<Member>, groupIds: set<int>, e: (int, int))
    requires e in Edges(s) && e.0 in groupIds
    requires forall m :: m in members <==> m in s.members && m.parent in groupIds
    ensures Member(e.0, e.1) in members
  {
    var m :| m in s.members && m.parent in Groups(s) && e == (m.parent, m.child);
    assert m == Member(e.0, e.1);
  }

  /** One batch: fetch the pending ids, then the members of the groups among them. */
  method ExpandBatch(
      s: Snapshot, ghost seeds: set<int>, ghost done: set<int>,
      collected: map<int, Object>, parents: map<int, set<int>>, seen: set<int>, batchIds: set<int>)
    returns (collected': map<int, Object>, parents': map<int, set<int>>, seen': set<int>, pending: set<int>)
    requires seen == done + batchIds && Expanding(s, seeds, collected, parents, done, batchIds)
    ensures Expanding(s, seeds, collected', parents', done + batchIds, pending)
    ensures seen' == done + batchIds + pending && pending <= Universe(s, seeds)
  {
    var batch := SelectObjects(s.objects, batchIds);
    collected' := Collect(batch, collected);
    var groupIds := set o | o in batch && o.isGroup :: o.id;
    if groupIds == {} {
      parents', seen', pending := parents, seen, {};
      BatchStep(s, seeds, collected, parents, done, batchIds, collected', groupIds, [], parents', pending);
      return;
    }
    var members := SelectMembers(s.members, groupIds);
    parents', seen', pending := QueueChildren(members, parents, seen);
    BatchStep(s, seeds, collected, parents, done, batchIds, collected', groupIds, members, parents', pending);
    forall c | c in pending ensures c in Universe(s, seeds) { assert c in seen'; }
  }

  /** Collected objects and parent map of everything the seeds reach; no id is fetched twice. */
  method ExpandObjectGroups(s: Snapshot, seeds: set<int>)
    returns (collected: map<int, Object>, parents: map<int, set<int>>, ghost fetches: seq<set<int>>)
    ensures forall id :: id in collected <==> Reached(s, seeds, id) && id in Known(s)
    ensures forall id | id in collected :: collected[id] in s.objects && collected[id].id == id
    ensures forall child, g :: g in ParentsOf(parents, child) <==> Reached(s, seeds, g) && (g, child) in Edges(s)
    ensures forall child | child in parents :: parents[child] != {}
    ensures forall i, j :: 0 <= i < j < |fetches| ==> fetches[i] !! fetches[j]
  {
    collected, parents, fetches := map[], map[], [];
    var pending, seen := seeds, seeds;
    ghost var done: set<int> := {};
    SeedsReached(s, seeds);
    while pending != {}
      invariant seen == done + pending && pending <= Universe(s, seeds)
      invariant Expanding(s, seeds, collected, parents, done, pending)
      invariant forall i :: 0 <= i < |fetches| ==> fetches[i] <= done
      invariant forall i, j :: 0 <= i < j < |fetches| ==> fetches[i] !! fetches[j]
      decreases Universe(s, seeds) - done
    {
      DoneNotPending(s, seeds, collected, parents, done, pending);
      hide Expanding, Universe, Reached, Edges, Known, ParentsOf;
      fetches := fetches + [pending];
      ghost var fetched := pending;
      collected, parents, seen, pending := ExpandBatch(s, seeds, done, collected, parents, seen, pending);
      done := done + fetched;
    }
    ExpansionComplete(s, seeds, collected, parents, done);
  }

  lemma DoneNotPending(
      s: Snapshot, seeds: set<int>, collected: map<int, Object>, parents: map<int, set<int>>, done: set<int>,
      pending: set<int>)
    requires Expanding(s, seeds, collected, parents, done, pending)
    ensures done !! pending
  {
  }

  ghost function Universe(s: Snapshot, seeds: set<int>): set<int> { seeds + set m | m in s.members :: m.child }

  lemma SeedsReached(s: Snapshot, seeds: set<int>)
    ensures Expanding(s, seeds, map[], map[], {}, seeds)
  {
    forall id | id in seeds ensures Reached(s, seeds, id) { ReachSelf(Edges(s), id); }
  }
}
