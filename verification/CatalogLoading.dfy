/** Level-by-level loading of address objects from the server, with a bound on group nesting. */
module CatalogLoading {
  import opened CatalogModels
  import opened Collections
  import opened Graphs
  import opened Levels
  import opened ParentQueries

  const MAX_GROUPS_DEPTH: nat := 3

  /** The number of nested groups the loader refuses. */
  const REFUSED_CHAIN: nat := MAX_GROUPS_DEPTH + 1

  // ----- rows as a graph; an object may come in several rows, with different parents

  /** The rows of one id are rows of one object: all are groups, or none is. */
  ghost predicate GroupsAgree(server: seq<RawObject>) {
    forall a, b | a in server && b in server && a.id == b.id :: a.data.RawGroup? == b.data.RawGroup?
  }

  ghost function GroupsIn(rows: seq<RawObject>): set<int> {
    set o | o in rows && o.data.RawGroup? :: o.id
  }

  /** Group-to-child edges among rows; a group may list itself. */
  ghost function EdgesIn(rows: seq<RawObject>): set<(int, int)> {
    set g, c | g in GroupsIn(rows) && c in rows && g in c.parents :: (g, c.id)
  }

  ghost function IdsOf(rows: seq<RawObject>): set<int> { set o | o in rows :: o.id }

  /** The ids requested first; no filter and an empty filter both select every row. */
  ghost function InitialIds(server: seq<RawObject>, ids: Option<seq<int>>): set<int> {
    set o | o in server && (ids.None? || ids.value == [] || o.id in ids.value) :: o.id
  }

  ghost predicate Reachable(server: seq<RawObject>, ids: Option<seq<int>>, id: int) {
    ReachFrom(EdgesIn(server), InitialIds(server, ids), id)
  }

  /** `id` ends a walk over four groups that starts at an initial object. */
  ghost predicate EndsRefusedChain(server: seq<RawObject>, ids: Option<seq<int>>, id: int) {
    ChainTo(EdgesIn(server), GroupsIn(server), InitialIds(server, ids), id, REFUSED_CHAIN)
  }

  /** Four groups in a row from an initial object: the nesting the loader refuses. */
  ghost predicate TooDeep(server: seq<RawObject>, ids: Option<seq<int>>) {
    exists id :: EndsRefusedChain(server, ids, id)
  }

  // ----- the dictionary of loaded rows, keyed by id and sorted parents

  predicate SameKey(a: RawObject, b: RawObject) { a.id == b.id && multiset(a.parents) == multiset(b.parents) }

  function PutRow(loaded: seq<RawObject>, o: RawObject): seq<RawObject> {
    if loaded == [] then [o]
    else if SameKey(loaded[0], o) then [o] + loaded[1..]
    else [loaded[0]] + PutRow(loaded[1..], o)
  }

  function PutRows(loaded: seq<RawObject>, rows: seq<RawObject>): seq<RawObject> {
    if rows == [] then loaded else PutRow(PutRows(loaded, rows[..|rows| - 1]), rows[|rows| - 1])
  }

  /** The ids of the groups of a batch, in order. */
  function GroupIds(rows: seq<RawObject>): seq<int> {
    if rows == [] then []
    else
      var init, last := GroupIds(rows[..|rows| - 1]), rows[|rows| - 1];
      if last.data.RawGroup? then init + [last.id] else init
  }

  /** The closure that stores a batch of rows and returns the ids of its groups. */
  method SaveObjects(loaded: seq<RawObject>, rows: seq<RawObject>) returns (saved: seq<RawObject>, groupIds: seq<int>)
    ensures saved == PutRows(loaded, rows) && groupIds == GroupIds(rows)
  {
    saved, groupIds := loaded, [];
    for i := 0 to |rows|
      invariant saved == PutRows(loaded, rows[..i]) && groupIds == GroupIds(rows[..i])
    {
      assert rows[..i + 1][..i] == rows[..i];
      saved := PutRow(saved, rows[i]);
      if rows[i].data.RawGroup? {
        groupIds := groupIds + [rows[i].id];
      }
    }
    assert rows[..|rows|] == rows;
  }

  ghost predicate DistinctKeys(rows: seq<RawObject>) {
    forall i, j :: 0 <= i < j < |rows| ==> !SameKey(rows[i], rows[j])
  }

  lemma {:induction false} PutRowMeaning(loaded: seq<RawObject>, o: RawObject)
    requires DistinctKeys(loaded)
    ensures DistinctKeys(PutRow(loaded, o))
    ensures forall x :: x in PutRow(loaded, o) <==> x == o || (x in loaded && !SameKey(x, o))
  {
    if loaded != [] {
      assert loaded == [loaded[0]] + loaded[1..];
      assert DistinctKeys(loaded[1..]);
      PutRowMeaning(loaded[1..], o);
      if SameKey(loaded[0], o) {
        forall x | x in loaded[1..] ensures !SameKey(x, o) {}
      } else {
        var rest := PutRow(loaded[1..], o);
        forall j | 0 <= j < |rest| ensures !SameKey(loaded[0], rest[j]) { assert rest[j] in rest; }
      }
    }
  }

  /** A row with the same id and the same parents is stored. */
  ghost predicate Stored(saved: seq<RawObject>, o: RawObject) {
    exists s :: s in saved && SameKey(s, o)
  }

  ghost predicate Keeps(saved: seq<RawObject>, rows: seq<RawObject>) {
    forall x | x in rows :: Stored(saved, x)
  }

  lemma StoredAfterPut(before: seq<RawObject>, last: RawObject, x: RawObject)
    requires DistinctKeys(before) && (Stored(before, x) || x == last)
    ensures Stored(PutRow(before, last), x)
  {
    PutRowMeaning(before, last);
    if x == last {
      assert last in PutRow(before, last) && SameKey(last, x);
    } else {
      var s :| s in before && SameKey(s, x);
      var kept := if SameKey(s, last) then last else s;
      assert kept in PutRow(before, last) && SameKey(kept, x);
    }
  }

  /** Storing keeps one row per key, invents none, and keeps the key of every old and new row. */
  lemma {:induction false} SavedRows(loaded: seq<RawObject>, rows: seq<RawObject>)
    requires DistinctKeys(loaded)
    ensures DistinctKeys(PutRows(loaded, rows))
    ensures forall x | x in PutRows(loaded, rows) :: x in loaded || x in rows
    ensures Keeps(PutRows(loaded, rows), loaded) && Keeps(PutRows(loaded, rows), rows)
  {
    hide DistinctKeys, SameKey, Stored;
    if rows == [] {
      forall x | x in loaded ensures Stored(loaded, x) { StoredItself(loaded, x); }
    } else {
      var init, last := rows[..|rows| - 1], rows[|rows| - 1];
      assert rows == init + [last];
      SavedRows(loaded, init);
      var before := PutRows(loaded, init);
      PutRowMeaning(before, last);
      forall x | x in loaded || x in rows ensures Stored(PutRow(before, last), x) {
        StoredAfterPut(before, last, x);
      }
    }
  }

  lemma StoredItself(rows: seq<RawObject>, x: RawObject)
    requires x in rows
    ensures Stored(rows, x)
  {
    assert SameKey(x, x);
  }

  /** The last of the rows with its id and parents. */
  ghost predicate LastKeyed(rows: seq<RawObject>, x: RawObject) {
    exists k :: 0 <= k < |rows| && rows[k] == x && forall j :: k < j < |rows| ==> !SameKey(rows[j], x)
  }

  lemma LastKeyedSnoc(rows: seq<RawObject>, last: RawObject, x: RawObject)
    ensures LastKeyed(rows + [last], x) <==> x == last || (LastKeyed(rows, x) && !SameKey(x, last))
  {
    var all := rows + [last];
    if x == last { assert all[|rows|] == x; }
    if LastKeyed(rows, x) && !SameKey(x, last) {
      var k :| 0 <= k < |rows| && rows[k] == x && forall j :: k < j < |rows| ==> !SameKey(rows[j], x);
      assert all[k] == x;
    }
    if LastKeyed(all, x) && x != last {
      var k :| 0 <= k < |all| && all[k] == x && forall j :: k < j < |all| ==> !SameKey(all[j], x);
      assert rows[k] == x && !SameKey(all[|rows|], x);
      forall j | k < j < |rows| ensures !SameKey(rows[j], x) { assert all[j] == rows[j]; }
    }
  }

  /** Of the rows with one id and the same parents, the last one is stored. */
  lemma {:induction false} SavedLast(loaded: seq<RawObject>, rows: seq<RawObject>, x: RawObject)
    requires DistinctKeys(loaded)
    ensures x in PutRows(loaded, rows) <==> LastKeyed(loaded + rows, x)
  {
    hide LastKeyed, SameKey;
    if rows == [] {
      assert loaded + rows == loaded;
      StoredIsLast(loaded, x);
    } else {
      var init, last := rows[..|rows| - 1], rows[|rows| - 1];
      SavedLast(loaded, init, x);
      SavedRows(loaded, init);
      PutRowMeaning(PutRows(loaded, init), last);
      LastKeyedSnoc(loaded + init, last, x);
      assert loaded + rows == (loaded + init) + [last];
    }
  }

  lemma StoredIsLast(loaded: seq<RawObject>, x: RawObject)
    requires DistinctKeys(loaded)
    ensures x in loaded <==> LastKeyed(loaded, x)
  {
    if x in loaded {
      var k :| 0 <= k < |loaded| && loaded[k] == x;
      forall j | k < j < |loaded| ensures !SameKey(loaded[j], x) { assert !SameKey(loaded[k], loaded[j]); }
    }
  }

  function KeyList(rows: seq<RawObject>): (r: seq<(int, multiset<int>)>)
    ensures |r| == |rows|
  {
    seq(|rows|, i requires 0 <= i < |rows| => KeyOf(rows[i]))
  }

  function KeyOf(o: RawObject): (int, multiset<int>) { (o.id, multiset(o.parents)) }

  lemma KeyListCons(x: RawObject, rows: seq<RawObject>)
    ensures KeyList([x] + rows) == [KeyOf(x)] + KeyList(rows)
  {
  }

  lemma {:induction false} PutRowOrder(loaded: seq<RawObject>, o: RawObject)
    ensures KeyList(PutRow(loaded, o)) ==
      if KeyOf(o) in KeyList(loaded) then KeyList(loaded) else KeyList(loaded) + [KeyOf(o)]
  {
    hide KeyList;
    if loaded == [] {
      KeyListCons(o, []);
      assert [o] + [] == [o] && KeyList([]) == [];
    } else {
      var head, rest := loaded[0], loaded[1..];
      assert loaded == [head] + rest;
      KeyListCons(head, rest);
      assert SameKey(head, o) <==> KeyOf(head) == KeyOf(o);
      if SameKey(head, o) {
        KeyListCons(o, rest);
      } else {
        PutRowOrder(rest, o);
        KeyListCons(head, PutRow(rest, o));
      }
    }
  }

  /** Stored rows stand where their id and parents came first. */
  lemma {:induction false} SavedPlaces(rows: seq<RawObject>)
    ensures KeyList(PutRows([], rows)) == Distinct(KeyList(rows))
  {
    if rows != [] {
      var init, last := rows[..|rows| - 1], rows[|rows| - 1];
      SavedPlaces(init);
      PutRowOrder(PutRows([], init), last);
      assert KeyList(rows)[..|rows| - 1] == KeyList(init);
    }
  }

  lemma {:induction false} SavedTogether(loaded: seq<RawObject>, rows: seq<RawObject>, more: seq<RawObject>)
    ensures PutRows(PutRows(loaded, rows), more) == PutRows(loaded, rows + more)
  {
    if more == [] {
      assert rows + more == rows;
    } else {
      SavedTogether(loaded, rows, more[..|more| - 1]);
      assert (rows + more)[..|rows + more| - 1] == rows + more[..|more| - 1];
    }
  }

  lemma {:induction false} GroupIdsMeaning(rows: seq<RawObject>)
    ensures SetOf(GroupIds(rows)) == GroupsIn(rows)
  {
    if rows != [] {
      var init, last := rows[..|rows| - 1], rows[|rows| - 1];
      assert rows == init + [last];
      GroupIdsMeaning(init);
      assert GroupsIn(rows) == GroupsIn(init) + if last.data.RawGroup? then {last.id} else {};
    }
  }

  /** Stored rows have the ids of all rows, and, when ids agree on being groups, all their edges. */
  lemma SavedEdges(loaded: seq<RawObject>, rows: seq<RawObject>)
    requires DistinctKeys(loaded)
    ensures IdsOf(PutRows(loaded, rows)) == IdsOf(loaded) + IdsOf(rows)
    ensures GroupsAgree(loaded + rows) ==> EdgesIn(PutRows(loaded, rows)) == EdgesIn(loaded + rows)
  {
    hide DistinctKeys, Stored, EdgesIn, GroupsIn, GroupsAgree, PutRows;
    var saved := PutRows(loaded, rows);
    SavedRows(loaded, rows);
    forall id | id in IdsOf(loaded) + IdsOf(rows) ensures id in IdsOf(saved) {
      var x :| (x in loaded || x in rows) && x.id == id;
      var s := StoredRow(saved, x);
    }
    if GroupsAgree(loaded + rows) {
      StoredEdges(loaded + rows, saved);
    }
  }

  lemma StoredRow(saved: seq<RawObject>, x: RawObject) returns (s: RawObject)
    requires Stored(saved, x)
    ensures s in saved && s.id == x.id && forall p :: p in s.parents <==> p in x.parents
  {
    s :| s in saved && SameKey(s, x);
    forall p ensures p in s.parents <==> p in x.parents {
      assert p in multiset(s.parents) <==> p in multiset(x.parents);
    }
  }

  lemma StoredEdges(rows: seq<RawObject>, saved: seq<RawObject>)
    requires GroupsAgree(rows) && (forall x | x in saved :: x in rows) && Keeps(saved, rows)
    ensures EdgesIn(saved) == EdgesIn(rows) && GroupsIn(saved) == GroupsIn(rows)
  {
    hide Stored;
    forall g | g in GroupsIn(rows) ensures g in GroupsIn(saved) {
      var o :| o in rows && o.data.RawGroup? && o.id == g;
      var s := StoredRow(saved, o);
      assert s in rows;
    }
    RowEdges(saved, rows);
    forall e | e in EdgesIn(rows) ensures e in EdgesIn(saved) {
      var c := EdgeRow(rows, e);
      var s := StoredRow(saved, c);
      EdgeFrom(saved, e.0, s);
      assert e == (e.0, s.id);
    }
  }

  lemma EdgeRow(rows: seq<RawObject>, e: (int, int)) returns (c: RawObject)
    requires e in EdgesIn(rows)
    ensures e.0 in GroupsIn(rows) && c in rows && c.id == e.1 && e.0 in c.parents
  {
    c :| c in rows && e.0 in c.parents && c.id == e.1;
  }

  lemma EdgeFrom(rows: seq<RawObject>, g: int, c: RawObject)
    requires g in GroupsIn(rows) && c in rows && g in c.parents
    ensures (g, c.id) in EdgesIn(rows)
  {
  }

  /** Some of the rows never show an edge or a group that all of them do not show. */
  lemma RowEdges(some: seq<RawObject>, rows: seq<RawObject>)
    requires forall o | o in some :: o in rows
    ensures EdgesIn(some) <= EdgesIn(rows) && GroupsIn(some) <= GroupsIn(rows)
  {
    forall e | e in EdgesIn(some) ensures e in EdgesIn(rows) {
      var c := EdgeRow(some, e);
      assert e.0 in GroupsIn(rows);
      EdgeFrom(rows, e.0, c);
      assert e == (e.0, c.id);
    }
  }

  // ----- the levels

  /** The loop over depths, from the groups of the last batch. */
  function ExpandFrom(server: seq<RawObject>, loaded: seq<RawObject>, current: seq<int>, depth: nat)
    : Result<seq<RawObject>, seq<int>>
    decreases REFUSED_CHAIN - depth
  {
    if depth > MAX_GROUPS_DEPTH || current == [] then Ok(loaded)
    else
      var children := GetAddrObjects(server, None, Some(current));
      if depth == MAX_GROUPS_DEPTH && GroupIds(children) != [] then Err(GroupIds(children))
      else ExpandFrom(server, PutRows(loaded, children), GroupIds(children), depth + 1)
  }

  function LoadExpanded(server: seq<RawObject>, ids: Option<seq<int>>): Result<seq<RawObject>, seq<int>> {
    var initial := GetAddrObjects(server, ids, None);
    ExpandFrom(server, PutRows([], initial), GroupIds(initial), 1)
  }

  method LoadExpandedGroups(server: seq<RawObject>, ids: Option<seq<int>>) returns (r: Result<seq<RawObject>, seq<int>>)
    ensures r == LoadExpanded(server, ids)
  {
    var initial := GetAddrObjects(server, ids, None);
    var loaded, current := SaveObjects([], initial);
    for depth := 1 to MAX_GROUPS_DEPTH + 1
      invariant ExpandFrom(server, loaded, current, depth) == LoadExpanded(server, ids)
    {
      if current == [] {
        break;
      }
      var children := GetAddrObjects(server, None, Some(current));
      var saved, childGroups := SaveObjects(loaded, children);
      if depth == MAX_GROUPS_DEPTH && childGroups != [] {
        return Err(childGroups);
      }
      loaded, current := saved, childGroups;
    }
    return Ok(loaded);
  }

  /** Exactly the reachable ids are loaded, in rows of the server, one per key, with all rows of the initial ids. */
  ghost predicate LoadedExactly(server: seq<RawObject>, ids: Option<seq<int>>, loaded: seq<RawObject>) {
    && DistinctKeys(loaded)
    && (forall o | o in loaded :: o in server)
    && (forall id :: id in IdsOf(loaded) <==> Reachable(server, ids, id))
    && Keeps(loaded, GetAddrObjects(server, ids, None))
  }

  ghost predicate LevelState(
    server: seq<RawObject>, ids: Option<seq<int>>, loaded: seq<RawObject>, current: seq<int>, d: nat)
  {
    && DistinctKeys(loaded)
    && (forall o | o in loaded :: o in server)
    && Keeps(loaded, GetAddrObjects(server, ids, None))
    && LevelInv(EdgesIn(server), GroupsIn(server), InitialIds(server, ids), IdsOf(loaded), SetOf(current), d)
  }

  lemma EdgeSourcesAreGroups(server: seq<RawObject>)
    ensures GroupSources(EdgesIn(server), GroupsIn(server))
  {
  }

  lemma InitialRows(server: seq<RawObject>, ids: Option<seq<int>>, o: RawObject)
    ensures o in GetAddrObjects(server, ids, None) <==> o in server && o.id in InitialIds(server, ids)
  {
    if ids.Some? { FilterIdsMeaning(server, ids.value, o); }
  }

  lemma InitialRowIds(server: seq<RawObject>, ids: Option<seq<int>>)
    ensures IdsOf(GetAddrObjects(server, ids, None)) == InitialIds(server, ids)
    ensures forall o | o in GetAddrObjects(server, ids, None) :: o in server
  {
    hide GetAddrObjects;
    forall o ensures o in GetAddrObjects(server, ids, None) <==> o in server && o.id in InitialIds(server, ids) {
      InitialRows(server, ids, o);
    }
  }

  lemma NothingStored()
    ensures IdsOf([]) == {} && DistinctKeys([])
  {
  }

  /** The rows of a level have exactly the ids listed under the groups of the level before. */
  lemma ChildIds(server: seq<RawObject>, current: seq<int>, x: int)
    requires current != [] && SetOf(current) <= GroupsIn(server)
    ensures x in IdsOf(GetAddrObjects(server, None, Some(current))) <==> HasParentIn(EdgesIn(server), SetOf(current), x)
  {
    var rows := GetAddrObjects(server, None, Some(current));
    ChunkedQueryIds(server, current);
    assert x in IdsOf(rows) <==> HasId(ByParents(server, current), x);
    forall c ensures c in ByParents(server, current) <==> c in server && exists g :: g in c.parents && g in current {
      ByParentsMeaning(server, current, c);
    }
    if HasId(ByParents(server, current), x) {
      var c :| c in ByParents(server, current) && c.id == x;
      var g :| g in c.parents && g in current;
      assert g in SetOf(current) && (g, c.id) in EdgesIn(server);
    }
    if HasParentIn(EdgesIn(server), SetOf(current), x) {
      var g :| g in SetOf(current) && (g, x) in EdgesIn(server);
      var c :| c in server && g in c.parents && c.id == x;
      assert c in ByParents(server, current);
    }
  }

  lemma ChildRowsAreServerRows(server: seq<RawObject>, current: seq<int>)
    requires current != []
    ensures forall c | c in GetAddrObjects(server, None, Some(current)) :: c in server
  {
    ChunkedQueryIds(server, current);
    forall c | c in ByParents(server, current) ensures c in server { ByParentsMeaning(server, current, c); }
  }

  lemma GroupsAmong(server: seq<RawObject>, rows: seq<RawObject>)
    requires GroupsAgree(server) && forall o | o in rows :: o in server
    ensures GroupsIn(rows) == GroupsIn(server) * IdsOf(rows)
  {
    forall x | x in GroupsIn(server) * IdsOf(rows) ensures x in GroupsIn(rows) {
      var o :| o in rows && o.id == x;
    }
  }

  lemma FirstLevel(server: seq<RawObject>, ids: Option<seq<int>>)
    requires GroupsAgree(server)
    ensures var initial := GetAddrObjects(server, ids, None);
      LevelState(server, ids, PutRows([], initial), GroupIds(initial), 1)
  {
    hide GetAddrObjects, LevelInv, GroupsIn, EdgesIn, GroupsAgree, DistinctKeys, Keeps, PutRows, GroupIds, InitialIds,
      IdsOf;
    var initial := GetAddrObjects(server, ids, None);
    InitialRowIds(server, ids);
    NothingStored();
    SavedRows([], initial);
    SavedEdges([], initial);
    GroupIdsMeaning(initial);
    GroupsAmong(server, initial);
    EdgeSourcesAreGroups(server);
    assert IdsOf(PutRows([], initial)) == InitialIds(server, ids);
    LevelStart(EdgesIn(server), GroupsIn(server), InitialIds(server, ids), SetOf(GroupIds(initial)));
  }

  lemma NextLevel(server: seq<RawObject>, ids: Option<seq<int>>, loaded: seq<RawObject>, current: seq<int>, d: nat)
    requires d > 0 && current != [] && GroupsAgree(server) && LevelState(server, ids, loaded, current, d)
    ensures var children := GetAddrObjects(server, None, Some(current));
      LevelState(server, ids, PutRows(loaded, children), GroupIds(children), d + 1)
  {
    var children := GetAddrObjects(server, None, Some(current));
    assert SetOf(current) <= GroupsIn(server);
    hide GetAddrObjects, LevelInv, GroupsIn, EdgesIn, HasParentIn, InitialIds, GroupsAgree, DistinctKeys, PutRows,
      GroupIds;
    forall x ensures x in IdsOf(children) <==> HasParentIn(EdgesIn(server), SetOf(current), x) {
      ChildIds(server, current, x);
    }
    ChildRowsAreServerRows(server, current);
    SavedRows(loaded, children);
    SavedEdges(loaded, children);
    GroupIdsMeaning(children);
    GroupsAmong(server, children);
    EdgeSourcesAreGroups(server);
    StillKept(loaded, PutRows(loaded, children), GetAddrObjects(server, ids, None));
    LevelNext(
      EdgesIn(server), GroupsIn(server), InitialIds(server, ids), IdsOf(loaded), SetOf(current), d,
      IdsOf(PutRows(loaded, children)), SetOf(GroupIds(children)));
  }

  lemma StillKept(loaded: seq<RawObject>, saved: seq<RawObject>, rows: seq<RawObject>)
    requires Keeps(loaded, rows) && Keeps(saved, loaded)
    ensures Keeps(saved, rows)
  {
    forall o | o in rows ensures Stored(saved, o) {
      var x :| x in loaded && SameKey(x, o);
      assert Stored(saved, x);
      var s :| s in saved && SameKey(s, x);
      assert SameKey(s, o);
    }
  }

  lemma LastLevel(server: seq<RawObject>, ids: Option<seq<int>>, loaded: seq<RawObject>, d: nat)
    requires 0 < d <= REFUSED_CHAIN && LevelState(server, ids, loaded, [], d)
    ensures LoadedExactly(server, ids, loaded) && !TooDeep(server, ids)
  {
    hide DistinctKeys, Keeps, EdgesIn, GroupsIn, InitialIds, GetAddrObjects;
    var e, groups, starts := EdgesIn(server), GroupsIn(server), InitialIds(server, ids);
    EdgeSourcesAreGroups(server);
    assert SetOf([]) == {};
    LevelsDone(e, groups, starts, IdsOf(loaded), d);
    forall x ensures !EndsRefusedChain(server, ids, x) {
      NoLongerChain(e, groups, starts, x, d, REFUSED_CHAIN);
    }
  }

  lemma RefusedChains(
    server: seq<RawObject>, ids: Option<seq<int>>, loaded: seq<RawObject>, current: seq<int>)
    requires LevelState(server, ids, loaded, current, REFUSED_CHAIN)
    ensures forall id :: id in current <==> EndsRefusedChain(server, ids, id)
    ensures current != [] ==> TooDeep(server, ids)
  {
    hide DistinctKeys, Keeps, EdgesIn, GroupsIn, InitialIds, GetAddrObjects;
    var level := SetOf(current);
    forall id ensures id in current <==> EndsRefusedChain(server, ids, id) { assert id in current <==> id in level; }
    if current != [] { assert EndsRefusedChain(server, ids, current[0]); }
  }

  /** How a load ends: refused exactly on four nested groups, otherwise complete. */
  ghost predicate Outcome(server: seq<RawObject>, ids: Option<seq<int>>, r: Result<seq<RawObject>, seq<int>>) {
    && (r.Err? <==> TooDeep(server, ids))
    && (r.Err? ==> forall id :: id in r.error <==> EndsRefusedChain(server, ids, id))
    && (r.Ok? ==> LoadedExactly(server, ids, r.value))
  }

  lemma {:induction false} ExpandsExactly(
    server: seq<RawObject>, ids: Option<seq<int>>, loaded: seq<RawObject>, current: seq<int>, d: nat)
    requires GroupsAgree(server) && 0 < d <= REFUSED_CHAIN && LevelState(server, ids, loaded, current, d)
    requires d == REFUSED_CHAIN ==> current == []
    ensures Outcome(server, ids, ExpandFrom(server, loaded, current, d))
    decreases REFUSED_CHAIN - d
  {
    hide LevelState, LoadedExactly, GroupsAgree, GetAddrObjects, EndsRefusedChain;
    if current == [] {
      LastLevel(server, ids, loaded, d);
    } else {
      var children := GetAddrObjects(server, None, Some(current));
      NextLevel(server, ids, loaded, current, d);
      if d == MAX_GROUPS_DEPTH && GroupIds(children) != [] {
        RefusedChains(server, ids, PutRows(loaded, children), GroupIds(children));
      } else {
        ExpandsExactly(server, ids, PutRows(loaded, children), GroupIds(children), d + 1);
      }
    }
  }

  /** Fails exactly on four nested groups; otherwise loads exactly the ids that the initial ids reach. */
  lemma LoadsExactly(server: seq<RawObject>, ids: Option<seq<int>>)
    requires GroupsAgree(server)
    ensures Outcome(server, ids, LoadExpanded(server, ids))
  {
    hide LevelState, Outcome, GetAddrObjects, ExpandFrom;
    FirstLevel(server, ids);
    var initial := GetAddrObjects(server, ids, None);
    ExpandsExactly(server, ids, PutRows([], initial), GroupIds(initial), 1);
  }

  // ----- which edges are loaded

  /** An edge into a requested object is loaded whenever its group is. */
  lemma RequestedEdgesSurvive(server: seq<RawObject>, ids: Option<seq<int>>, loaded: seq<RawObject>, e: (int, int))
    requires GroupsAgree(server) && LoadedExactly(server, ids, loaded)
    requires e in EdgesIn(server) && e.0 in IdsOf(loaded) && e.1 in InitialIds(server, ids)
    ensures e in EdgesIn(loaded)
  {
    hide DistinctKeys, Stored, EdgesIn, GroupsIn, GroupsAgree, InitialIds, GetAddrObjects;
    var c := EdgeRow(server, e);
    InitialRows(server, ids, c);
    var s := StoredRow(loaded, c);
    GroupsAmong(server, loaded);
    EdgeFrom(loaded, e.0, s);
    assert e == (e.0, s.id);
  }

  /** The full catalog, requested without a filter, loses no edge. */
  lemma FullLoadKeepsEdges(server: seq<RawObject>)
    requires GroupsAgree(server) && !TooDeep(server, None)
    ensures LoadExpanded(server, None).Ok? && EdgesIn(LoadExpanded(server, None).value) == EdgesIn(server)
  {
    hide LoadExpanded, DistinctKeys, Keeps, EdgesIn, TooDeep, GroupsAgree;
    LoadsExactly(server, None);
    StoredEdges(server, LoadExpanded(server, None).value);
  }

  /** With one row per id, the edges between loaded objects are all loaded. */
  lemma SingleRowsKeepEdges(server: seq<RawObject>, loaded: seq<RawObject>, e: (int, int))
    requires OneRowPerId(server) && (forall o | o in loaded :: o in server)
    requires e in EdgesIn(server) && e.0 in IdsOf(loaded) && e.1 in IdsOf(loaded)
    ensures e in EdgesIn(loaded)
  {
    var c := EdgeRow(server, e);
    var o :| o in loaded && o.id == e.1;
    var g :| g in loaded && g.id == e.0;
    assert e.0 in GroupsIn(loaded);
    EdgeFrom(loaded, e.0, c);
    assert e == (e.0, c.id);
  }

  /** The groups whose children the `d`-th query asks for; no group means no query. */
  function Level(server: seq<RawObject>, ids: Option<seq<int>>, d: nat): seq<int>
    requires d > 0
  {
    if d == 1 then GroupIds(GetAddrObjects(server, ids, None))
    else
      var above := Level(server, ids, d - 1);
      if above == [] then [] else GroupIds(GetAddrObjects(server, None, Some(above)))
  }

  /** Some row lists the edge's child under its group. */
  ghost predicate Listed(rows: seq<RawObject>, e: (int, int)) {
    exists x :: x in rows && x.id == e.1 && e.0 in x.parents
  }

  /** The query for these groups fetched the child last in a row that names the edge's group. */
  ghost predicate FetchedLast(server: seq<RawObject>, groups: seq<int>, e: (int, int)) {
    && groups != []
    && LastRow(Fetched(server, groups), e.1).Some?
    && e.0 in LastRow(Fetched(server, groups), e.1).value.parents
  }

  lemma ListedInSaved(loaded: seq<RawObject>, rows: seq<RawObject>, e: (int, int))
    requires DistinctKeys(loaded)
    ensures Listed(PutRows(loaded, rows), e) <==> Listed(loaded, e) || Listed(rows, e)
  {
    hide DistinctKeys, PutRows, Stored;
    SavedRows(loaded, rows);
    forall x | (x in loaded || x in rows) && x.id == e.1 && e.0 in x.parents ensures Listed(PutRows(loaded, rows), e) {
      ListedIfStored(PutRows(loaded, rows), x, e);
    }
  }

  lemma ListedIfStored(saved: seq<RawObject>, x: RawObject, e: (int, int))
    requires Stored(saved, x) && x.id == e.1 && e.0 in x.parents
    ensures Listed(saved, e)
  {
    var s :| s in saved && SameKey(s, x);
    assert e.0 in multiset(x.parents);
  }

  lemma {:induction false} NoLevelBelow(server: seq<RawObject>, ids: Option<seq<int>>, d: nat, k: nat)
    requires 0 < d <= k && Level(server, ids, d) == []
    ensures Level(server, ids, k) == []
  {
    hide GetAddrObjects, GroupIds;
    if d < k { NoLevelBelow(server, ids, d, k - 1); }
  }

  ghost predicate FetchedBelow(server: seq<RawObject>, ids: Option<seq<int>>, d: nat, e: (int, int))
    requires d > 0
  {
    exists k: nat :: d <= k <= MAX_GROUPS_DEPTH && FetchedLast(server, Level(server, ids, k), e)
  }

  lemma FetchedBelowStep(server: seq<RawObject>, ids: Option<seq<int>>, d: nat, e: (int, int))
    requires 0 < d <= MAX_GROUPS_DEPTH
    ensures FetchedBelow(server, ids, d, e) <==>
      FetchedLast(server, Level(server, ids, d), e) || FetchedBelow(server, ids, d + 1, e)
  {
    hide FetchedLast, Level;
    if FetchedBelow(server, ids, d, e) && !FetchedLast(server, Level(server, ids, d), e) {
      var k: nat :| d <= k <= MAX_GROUPS_DEPTH && FetchedLast(server, Level(server, ids, k), e);
      assert d + 1 <= k;
    }
  }

  lemma {:induction false} ListedByLevels(
    server: seq<RawObject>, ids: Option<seq<int>>, loaded: seq<RawObject>, d: nat, e: (int, int))
    requires 0 < d <= REFUSED_CHAIN && DistinctKeys(loaded)
    requires ExpandFrom(server, loaded, Level(server, ids, d), d).Ok?
    ensures Listed(ExpandFrom(server, loaded, Level(server, ids, d), d).value, e) <==>
      Listed(loaded, e) || FetchedBelow(server, ids, d, e)
    decreases REFUSED_CHAIN - d
  {
    hide DistinctKeys, Listed, PutRows, GroupIds, LastRow, Fetched, FetchedBelow;
    var current := Level(server, ids, d);
    if d > MAX_GROUPS_DEPTH {
      NothingBelow(server, ids, d, e);
    } else if current == [] {
      NothingBelow(server, ids, d, e);
    } else {
      var children := GetAddrObjects(server, None, Some(current));
      SavedRows(loaded, children);
      ListedInSaved(loaded, children, e);
      ListedByLevels(server, ids, PutRows(loaded, children), d + 1, e);
      FetchedBelowStep(server, ids, d, e);
      ChildListed(server, current, e);
    }
  }

  lemma NothingBelow(server: seq<RawObject>, ids: Option<seq<int>>, d: nat, e: (int, int))
    requires d > 0 && (d > MAX_GROUPS_DEPTH || Level(server, ids, d) == [])
    ensures !FetchedBelow(server, ids, d, e)
  {
    hide Level;
    forall k: nat | d <= k <= MAX_GROUPS_DEPTH ensures !FetchedLast(server, Level(server, ids, k), e) {
      NoLevelBelow(server, ids, d, k);
    }
  }

  lemma ChildListed(server: seq<RawObject>, current: seq<int>, e: (int, int))
    requires current != []
    ensures Listed(GetAddrObjects(server, None, Some(current)), e) <==> FetchedLast(server, current, e)
  {
    EdgeSurvivesMerge(server, current, e.1, e.0);
  }

  /**
   * Which edges survive: those into requested objects, and those whose group the child's last fetched row
   * names in some level's query.
   */
  lemma EdgeLoadedExactly(server: seq<RawObject>, ids: Option<seq<int>>, loaded: seq<RawObject>, e: (int, int))
    requires GroupsAgree(server) && LoadExpanded(server, ids) == Ok(loaded)
    requires e in EdgesIn(server) && e.0 in IdsOf(loaded)
    ensures e in EdgesIn(loaded) <==> e.1 in InitialIds(server, ids) || FetchedBelow(server, ids, 1, e)
  {
    hide DistinctKeys, PutRows, GroupIds, GetAddrObjects, FetchedBelow, EdgesIn, GroupsIn, GroupsAgree, InitialIds;
    var initial := GetAddrObjects(server, ids, None);
    NothingStored();
    SavedRows([], initial);
    ListedInSaved([], initial, e);
    ListedByLevels(server, ids, PutRows([], initial), 1, e);
    LoadsExactly(server, ids);
    if e.1 in InitialIds(server, ids) {
      RequestedEdgesSurvive(server, ids, loaded, e);
    } else {
      forall x | x in initial ensures x.id != e.1 { InitialRows(server, ids, x); }
    }
    var c := EdgeRow(server, e);
    GroupsAmong(server, loaded);
    EdgeListed(loaded, e);
  }

  lemma EdgeListed(rows: seq<RawObject>, e: (int, int))
    ensures e in EdgesIn(rows) <==> e.0 in GroupsIn(rows) && Listed(rows, e)
  {
    if e in EdgesIn(rows) { var c := EdgeRow(rows, e); }
    if e.0 in GroupsIn(rows) && Listed(rows, e) {
      var x :| x in rows && x.id == e.1 && e.0 in x.parents;
      EdgeFrom(rows, e.0, x);
      assert e == (e.0, x.id);
    }
  }

  /** Two requested groups list one object, each in its own row: the merge keeps one row, the other edge is lost. */
  lemma MergeHidesEdge()
    ensures var g, h := RawObject(1, [], "g", RawGroup(1)), RawObject(2, [], "h", RawGroup(2));
      var a, b := RawObject(7, [1], "o", RawHost(9)), RawObject(7, [2], "o", RawHost(9));
      && LoadExpanded([g, h, a, b], Some([1, 2])) == Ok([g, h, b])
      && (1, 7) in EdgesIn([g, h, a, b]) && (1, 7) !in EdgesIn([g, h, b])
  {
    var g, h := RawObject(1, [], "g", RawGroup(1)), RawObject(2, [], "h", RawGroup(2));
    var a, b := RawObject(7, [1], "o", RawHost(9)), RawObject(7, [2], "o", RawHost(9));
    var server, loaded := [g, h, a, b], [g, h, b];
    assert g.id in GroupsIn(server) && a in server;
    EdgeFrom(server, 1, a);
    if (1, 7) in EdgesIn(loaded) { var c := EdgeRow(loaded, (1, 7)); }
    hide FilterIds, PutRows, GroupIds, ByParents, Fetched, MergeById;
    FilterBoth(g, h, a, b);
    Batches(g, h);
    PutTwo(g, h);
    ByParentsOfBoth(g, h, a, b);
    assert Distinct([1, 2]) == [1, 2] by { assert [1, 2][..1] == [1] && [1][..0] == []; }
    OneChunk(server, [1, 2]);
    MergeTwo(a, b);
    assert GetAddrObjects(server, None, Some([1, 2])) == [b];
    LastBatch(g, h, b);
    assert ExpandFrom(server, [g, h], [1, 2], 1) == ExpandFrom(server, loaded, [], 2);
  }

  lemma FilterBoth(g: RawObject, h: RawObject, a: RawObject, b: RawObject)
    requires g.id == 1 && h.id == 2 && a.id == b.id == 7
    ensures FilterIds([g, h, a, b], [1, 2]) == [g, h]
  {
    assert [g, h, a, b][1..] == [h, a, b] && [h, a, b][1..] == [a, b] && [a, b][1..] == [b] && [b][1..] == [];
    assert FilterIds([b], [1, 2]) == [];
    assert FilterIds([a, b], [1, 2]) == [];
    assert FilterIds([h, a, b], [1, 2]) == [h];
  }

  lemma OneChunk(server: seq<RawObject>, ids: seq<int>)
    requires 0 < |ids| <= YAQL_FILTERS_LIMIT && Distinct(ids) == ids
    ensures Fetched(server, ids) == ByParents(server, ids)
  {
    hide ByParents, Distinct;
    assert Chunks(ids, YAQL_FILTERS_LIMIT) == [ids] && [ids][1..] == [];
    assert FetchChunks(server, [ids]) == ByParents(server, ids) + FetchChunks(server, []);
  }

  lemma MergeTwo(a: RawObject, b: RawObject)
    requires a.id == b.id
    ensures MergeById([a, b]) == [b]
  {
    assert [a, b][..1] == [a] && [a][..0] == [];
    assert MergeById([a]) == [a];
    assert [a][1..] == [];
  }

  lemma LastBatch(g: RawObject, h: RawObject, b: RawObject)
    requires b.id != g.id && b.id != h.id && !b.data.RawGroup?
    ensures PutRows([g, h], [b]) == [g, h, b] && GroupIds([b]) == []
  {
    assert [b][..0] == [] && [g, h][1..] == [h] && [h][1..] == [];
    assert PutRow([h], b) == [h] + PutRow([], b);
    assert PutRow([g, h], b) == [g] + PutRow([h], b);
  }

  lemma Batches(x: RawObject, y: RawObject)
    ensures GroupIds([x, y]) == (if x.data.RawGroup? then [x.id] else []) + if y.data.RawGroup? then [y.id] else []
  {
    assert [x, y][..1] == [x] && [x][..0] == [];
    assert GroupIds([x]) == if x.data.RawGroup? then [x.id] else [];
  }

  lemma PutTwo(x: RawObject, y: RawObject)
    requires x.id != y.id
    ensures PutRows([], [x, y]) == [x, y]
  {
    assert [x, y][..1] == [x] && [x][..0] == [];
    assert PutRows([], [x]) == [x];
    assert [x][1..] == [] && PutRow([x], y) == [x] + PutRow([], y);
  }

  lemma ByParentsOfBoth(g: RawObject, h: RawObject, a: RawObject, b: RawObject)
    requires g.parents == h.parents == [] && a.parents == [1] && b.parents == [2]
    ensures ByParents([g, h, a, b], [1, 2]) == [a, b]
  {
    assert 1 in a.parents && 1 in [1, 2] && 2 in b.parents && 2 in [1, 2];
    assert [g, h, a, b][1..] == [h, a, b] && [h, a, b][1..] == [a, b] && [a, b][1..] == [b] && [b][1..] == [];
    assert ByParents([b], [1, 2]) == [b];
    assert ByParents([a, b], [1, 2]) == [a, b];
  }

  /** Objects and the group edges between them. */
  datatype Graph = Graph(nodes: set<int>, edges: set<(int, int)>)

  ghost function GraphOf(rows: seq<RawObject>): Graph { Graph(IdsOf(rows), EdgesIn(rows)) }

  /** What a load will show, told from the server's rows and the requested ids alone. */
  ghost function Surviving(server: seq<RawObject>, ids: Option<seq<int>>): Graph {
    if ids == Some([]) then Graph({}, {})
    else Graph(
      set o | o in server && Reachable(server, ids, o.id) :: o.id,
      set e | e in EdgesIn(server) && Reachable(server, ids, e.0)
              && (e.1 in InitialIds(server, ids) || FetchedBelow(server, ids, 1, e)))
  }

  // ----- the gateway

  /** The gateway answers an empty list of ids without a request. */
  function Load(server: seq<RawObject>, ids: Option<seq<int>>): Result<seq<RawObject>, seq<int>> {
    if ids == Some([]) then Ok([]) else LoadExpanded(server, ids)
  }

  /** A successful load shows exactly the surviving objects and edges. */
  lemma LoadShowsSurviving(server: seq<RawObject>, ids: Option<seq<int>>, loaded: seq<RawObject>)
    requires GroupsAgree(server) && Load(server, ids) == Ok(loaded)
    ensures GraphOf(loaded) == Surviving(server, ids)
  {
    hide EdgesIn, GroupsIn, GroupsAgree, LoadExpanded, InitialIds, FetchedBelow, Reachable, DistinctKeys, Keeps;
    if ids == Some([]) {
      NothingStored();
      NoEdges();
    } else {
      LoadsExactly(server, ids);
      RowEdges(loaded, server);
      forall id ensures id in IdsOf(loaded) <==> id in Surviving(server, ids).nodes { }
      forall e ensures e in EdgesIn(loaded) <==> e in Surviving(server, ids).edges {
        if e in EdgesIn(loaded) { GroupIsLoaded(loaded, e); }
        if e in EdgesIn(server) && e.0 in IdsOf(loaded) { EdgeLoadedExactly(server, ids, loaded, e); }
      }
    }
  }

  lemma GroupIsLoaded(loaded: seq<RawObject>, e: (int, int))
    requires e in EdgesIn(loaded)
    ensures e.0 in IdsOf(loaded)
  {
    var c := EdgeRow(loaded, e);
  }

  lemma NoEdges()
    ensures EdgesIn([]) == {}
  {
    forall e | e in EdgesIn([]) ensures false { var c := EdgeRow([], e); }
  }

  /** The ids the gateway asks for are loaded whenever the server has them. */
  lemma RequestedIsLoaded(server: seq<RawObject>, ids: Option<seq<int>>, id: int)
    requires GroupsAgree(server) && Load(server, ids).Ok? && (ids.None? || id in ids.value)
    ensures id in IdsOf(Load(server, ids).value) <==> id in IdsOf(server)
  {
    hide DistinctKeys, Keeps, EdgesIn, GroupsAgree;
    LoadsExactly(server, ids);
    if id in IdsOf(server) { ReachSelf(EdgesIn(server), id); }
  }

  /** No walk over four groups starts at a loaded object. */
  ghost predicate Shallow(server: seq<RawObject>, loaded: seq<RawObject>) {
    forall p | IsWalk(EdgesIn(server), p) && |p| == REFUSED_CHAIN && p[0] in IdsOf(loaded) ::
      p[REFUSED_CHAIN - 1] !in GroupsIn(server)
  }

  /** The children of loaded groups are loaded. */
  ghost predicate ClosedRows(server: seq<RawObject>, loaded: seq<RawObject>) {
    forall e | e in EdgesIn(server) && e.0 in IdsOf(loaded) :: e.1 in IdsOf(loaded)
  }

  /** What a successful load hands over. */
  lemma LoadedShape(server: seq<RawObject>, ids: Option<seq<int>>)
    requires GroupsAgree(server) && Load(server, ids).Ok?
    ensures var loaded := Load(server, ids).value;
      (forall o | o in loaded :: o in server) && ClosedRows(server, loaded) && Shallow(server, loaded)
  {
    hide DistinctKeys, Keeps, EdgesIn, GroupsAgree, LoadExpanded, InitialIds, GroupsIn;
    if ids != Some([]) {
      LoadsExactly(server, ids);
      var loaded := LoadExpanded(server, ids).value;
      forall e | e in EdgesIn(server) && e.0 in IdsOf(loaded) ensures e.1 in IdsOf(loaded) {
        assert e == (e.0, e.1);
        ReachableClosed(server, ids, e.0, e.1);
      }
      forall p | IsWalk(EdgesIn(server), p) && |p| == REFUSED_CHAIN && p[0] in IdsOf(loaded)
        ensures p[REFUSED_CHAIN - 1] !in GroupsIn(server)
      {
        if p[REFUSED_CHAIN - 1] in GroupsIn(server) { DeepWalk(server, ids, p); }
      }
    }
  }

  lemma ReachableClosed(server: seq<RawObject>, ids: Option<seq<int>>, a: int, b: int)
    requires Reachable(server, ids, a) && (a, b) in EdgesIn(server)
    ensures Reachable(server, ids, b)
  {
    var s := ReachWitness(EdgesIn(server), InitialIds(server, ids), a);
    ReachStep(EdgesIn(server), s, a, b);
  }

  /** A walk over four groups from a reachable object makes a refused chain. */
  lemma DeepWalk(server: seq<RawObject>, ids: Option<seq<int>>, p: seq<int>)
    requires IsWalk(EdgesIn(server), p) && |p| == REFUSED_CHAIN && p[REFUSED_CHAIN - 1] in GroupsIn(server)
    requires Reachable(server, ids, p[0])
    ensures TooDeep(server, ids)
  {
    hide InitialIds, EdgesIn, GroupsIn;
    var e, groups, starts, last := EdgesIn(server), GroupsIn(server), InitialIds(server, ids), p[REFUSED_CHAIN - 1];
    var s := ReachWitness(e, starts, p[0]);
    var w :| Joins(e, w, s, p[0]);
    JoinWalks(e, w, p);
    var n := |w + p[1..]|;
    assert ChainTo(e, groups, starts, last, n);
    EdgeSourcesAreGroups(server);
    if !TooDeep(server, ids) {
      forall y ensures !ChainTo(e, groups, starts, y, REFUSED_CHAIN) { assert !EndsRefusedChain(server, ids, y); }
      NoLongerChain(e, groups, starts, last, REFUSED_CHAIN, n);
    }
  }
}
