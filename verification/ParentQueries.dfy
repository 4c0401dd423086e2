/** Parent-filtered queries of the HTTP client: split into chunks, then merged by object id. */
module ParentQueries {
  import opened CatalogModels
  import opened Collections

  const YAQL_FILTERS_LIMIT: nat := 50

  datatype RawData =
    | RawPrefix(net: Net)
    | RawNetwork(networkId: string)
    | RawHost(host: int)
    | RawFqdn(fqdn: string)
    | RawIpRange(rangeFrom: int, rangeTo: int)
    | RawGroup(addrGroup: int)

  datatype RawObject = RawObject(id: int, parents: seq<int>, name: string, data: RawData)

  /** The rows the server returns for one parent filter, in server order. */
  function ByParents(server: seq<RawObject>, ids: seq<int>): seq<RawObject> {
    if server == [] then []
    else (if exists p :: p in server[0].parents && p in ids then [server[0]] else []) + ByParents(server[1..], ids)
  }

  /** `list(dict.fromkeys(ids))`: duplicates dropped, first occurrences kept in order. */
  function Distinct<T(==)>(ids: seq<T>): seq<T> {
    if ids == [] then []
    else
      var rest := Distinct(ids[..|ids| - 1]);
      if ids[|ids| - 1] in rest then rest else rest + [ids[|ids| - 1]]
  }

  function Chunks(ids: seq<int>, size: nat): seq<seq<int>>
    requires size > 0
  {
    if ids == [] then []
    else if |ids| <= size then [ids]
    else [ids[..size]] + Chunks(ids[size..], size)
  }

  function FetchChunks(server: seq<RawObject>, chunks: seq<seq<int>>): seq<RawObject> {
    if chunks == [] then [] else ByParents(server, chunks[0]) + FetchChunks(server, chunks[1..])
  }

  /** Assignment to an ordered dictionary keyed by object id. */
  function PutById(rows: seq<RawObject>, o: RawObject): seq<RawObject> {
    if rows == [] then [o]
    else if rows[0].id == o.id then [o] + rows[1..]
    else [rows[0]] + PutById(rows[1..], o)
  }

  function MergeById(rows: seq<RawObject>): seq<RawObject> {
    if rows == [] then [] else PutById(MergeById(rows[..|rows| - 1]), rows[|rows| - 1])
  }

  /** The rows in the order in which the chunks deliver them. */
  function Fetched(server: seq<RawObject>, ids: seq<int>): seq<RawObject> {
    FetchChunks(server, Chunks(Distinct(ids), YAQL_FILTERS_LIMIT))
  }

  /** `get_addr_objects(parents_ids=...)` for a non-empty filter. */
  function ChunkedByParents(server: seq<RawObject>, ids: seq<int>): seq<RawObject> {
    MergeById(Fetched(server, ids))
  }

  function FilterIds(rows: seq<RawObject>, ids: seq<int>): seq<RawObject> {
    if rows == [] then []
    else (if rows[0].id in ids then [rows[0]] else []) + FilterIds(rows[1..], ids)
  }

  /** `get_addr_objects`: an absent and an empty filter both mean no filter. */
  function GetAddrObjects(server: seq<RawObject>, ids: Option<seq<int>>, parentIds: Option<seq<int>>): seq<RawObject> {
    var rows := if parentIds.Some? && parentIds.value != [] then ChunkedByParents(server, parentIds.value) else server;
    if ids.Some? && ids.value != [] then FilterIds(rows, ids.value) else rows
  }

  // ----- what the pieces mean

  lemma {:induction false} ByParentsMeaning(server: seq<RawObject>, ids: seq<int>, o: RawObject)
    ensures o in ByParents(server, ids) <==> o in server && exists p :: p in o.parents && p in ids
  {
    if server != [] {
      ByParentsMeaning(server[1..], ids, o);
    }
  }

  lemma {:induction false} FilterIdsMeaning(rows: seq<RawObject>, ids: seq<int>, o: RawObject)
    ensures o in FilterIds(rows, ids) <==> o in rows && o.id in ids
  {
    if rows != [] {
      FilterIdsMeaning(rows[1..], ids, o);
    }
  }

  lemma {:induction false} DistinctMeaning<T>(ids: seq<T>)
    ensures forall x :: x in Distinct(ids) <==> x in ids
    ensures forall i, j :: 0 <= i < j < |Distinct(ids)| ==> Distinct(ids)[i] != Distinct(ids)[j]
  {
    if ids != [] {
      DistinctMeaning(ids[..|ids| - 1]);
      assert ids == ids[..|ids| - 1] + [ids[|ids| - 1]];
    }
  }

  predicate FirstAt<T(==)>(ids: seq<T>, i: nat)
    requires i < |ids|
  {
    ids[i] !in ids[..i]
  }

  /** Increasing places of exactly the first occurrences, with the items kept. */
  ghost predicate FirstPlaces<T>(kept: seq<T>, ids: seq<T>, at: seq<nat>) {
    && |kept| == |at|
    && (forall k :: 0 <= k < |at| ==> at[k] < |ids| && kept[k] == ids[at[k]] && FirstAt(ids, at[k]))
    && (forall i, j :: 0 <= i < j < |at| ==> at[i] < at[j])
    && (forall i: nat :: i < |ids| && FirstAt(ids, i) ==> i in at)
  }

  lemma FirstPlacesNext<T>(kept: seq<T>, init: seq<T>, last: T, at: seq<nat>)
    requires FirstPlaces(kept, init, at)
    ensures if last in init then FirstPlaces(kept, init + [last], at)
      else FirstPlaces(kept + [last], init + [last], at + [|init|])
  {
    var ids := init + [last];
    forall i: nat | i < |init| ensures ids[i] == init[i] && (FirstAt(ids, i) <==> FirstAt(init, i)) {
      assert ids[..i] == init[..i];
    }
    assert ids[..|init|] == init;
  }

  /** The kept items are the first occurrences, in order. */
  lemma {:induction false} DistinctInOrder<T>(ids: seq<T>) returns (at: seq<nat>)
    ensures FirstPlaces(Distinct(ids), ids, at)
  {
    at := [];
    if ids != [] {
      hide FirstPlaces;
      var init, last := ids[..|ids| - 1], ids[|ids| - 1];
      assert ids == init + [last];
      at := DistinctInOrder(init);
      DistinctMeaning(init);
      FirstPlacesNext(Distinct(init), init, last, at);
      if last !in init { at := at + [|init|]; }
    }
  }

  /** Chunking loses nothing and never exceeds the filter limit; all chunks but the last are full. */
  lemma {:induction false} ChunksPartition(ids: seq<int>, size: nat)
    requires size > 0
    ensures Flatten(Chunks(ids, size)) == ids
    ensures forall c | c in Chunks(ids, size) :: 0 < |c| <= size
    ensures forall i :: 0 <= i < |Chunks(ids, size)| - 1 ==> |Chunks(ids, size)[i]| == size
  {
    if |ids| > size {
      var rest := Chunks(ids[size..], size);
      assert Chunks(ids, size) == [ids[..size]] + rest && ids[..size] + ids[size..] == ids;
      ChunksPartition(ids[size..], size);
      FlattenSplit([ids[..size]], rest);
      FlattenOne(ids[..size]);
      hide Chunks, Flatten;
    } else if ids != [] {
      FlattenOne(ids);
    }
  }

  lemma {:induction false} FetchChunksMeaning(server: seq<RawObject>, chunks: seq<seq<int>>, o: RawObject)
    ensures o in FetchChunks(server, chunks) <==> o in server && exists p :: p in o.parents && p in Flatten(chunks)
  {
    if chunks != [] {
      FetchChunksMeaning(server, chunks[1..], o);
      ByParentsMeaning(server, chunks[0], o);
    }
  }

  lemma ByParentsHead(server: seq<RawObject>, ids: seq<int>) returns (head: seq<RawObject>)
    requires server != []
    ensures head == if exists p :: p in server[0].parents && p in ids then [server[0]] else []
    ensures ByParents(server, ids) == head + ByParents(server[1..], ids)
  {
    head := if exists p :: p in server[0].parents && p in ids then [server[0]] else [];
  }

  /** A query returns rows in server order. */
  lemma {:induction false} ByParentsInOrder(a: seq<RawObject>, b: seq<RawObject>, ids: seq<int>)
    ensures ByParents(a + b, ids) == ByParents(a, ids) + ByParents(b, ids)
  {
    if a == [] {
      assert a + b == b;
    } else {
      hide ByParents;
      var whole := a + b;
      assert whole[0] == a[0] && whole[1..] == a[1..] + b;
      var head := ByParentsHead(a, ids);
      var first := ByParentsHead(whole, ids);
      ByParentsInOrder(a[1..], b, ids);
    }
  }

  /** The rows of the chunks are joined in chunk order. */
  lemma {:induction false} FetchedInOrder(server: seq<RawObject>, a: seq<seq<int>>, b: seq<seq<int>>)
    ensures FetchChunks(server, a + b) == FetchChunks(server, a) + FetchChunks(server, b)
    ensures |b| == 1 ==> FetchChunks(server, b) == ByParents(server, b[0])
  {
    hide ByParents;
    if |b| == 1 { assert FetchChunks(server, b[1..]) == []; }
    if a == [] {
      assert a + b == b;
    } else {
      assert (a + b)[1..] == a[1..] + b;
      FetchedInOrder(server, a[1..], b);
    }
  }

  ghost predicate DistinctIds(rows: seq<RawObject>) {
    forall i, j :: 0 <= i < j < |rows| ==> rows[i].id != rows[j].id
  }

  lemma {:induction false} PutByIdMeaning(rows: seq<RawObject>, o: RawObject)
    requires DistinctIds(rows)
    ensures DistinctIds(PutById(rows, o))
    ensures forall x :: x in PutById(rows, o) <==> x == o || (x in rows && x.id != o.id)
  {
    if rows != [] {
      assert rows == [rows[0]] + rows[1..];
      assert DistinctIds(rows[1..]);
      if rows[0].id != o.id {
        PutByIdMeaning(rows[1..], o);
        var rest := PutById(rows[1..], o);
        forall j | 0 <= j < |rest| ensures rest[j].id != rows[0].id { assert rest[j] in rest; }
      }
    }
  }

  lemma {:induction false} MergeByIdMeaning(rows: seq<RawObject>)
    ensures DistinctIds(MergeById(rows))
    ensures forall x | x in MergeById(rows) :: x in rows
    ensures rows != [] ==> rows[|rows| - 1] in MergeById(rows)
  {
    if rows != [] {
      MergeByIdMeaning(rows[..|rows| - 1]);
      PutByIdMeaning(MergeById(rows[..|rows| - 1]), rows[|rows| - 1]);
    }
  }

  lemma {:induction false} MergeByIdKeeps(rows: seq<RawObject>, x: RawObject) returns (y: RawObject)
    requires x in rows
    ensures y in MergeById(rows) && y.id == x.id
  {
    var init, last := rows[..|rows| - 1], rows[|rows| - 1];
    assert rows == init + [last] && MergeById(rows) == PutById(MergeById(init), last);
    hide MergeById, PutById, DistinctIds;
    MergeByIdMeaning(init);
    PutByIdMeaning(MergeById(init), last);
    if x.id == last.id {
      y := last;
    } else {
      y := MergeByIdKeeps(init, x);
    }
  }

  /** The row of an id that assignment to the dictionary leaves: the last one. */
  function LastRow(rows: seq<RawObject>, id: int): (r: Option<RawObject>)
    ensures r.Some? ==> r.value in rows && r.value.id == id
    ensures r.None? <==> forall o | o in rows :: o.id != id
  {
    if rows == [] then None
    else if rows[|rows| - 1].id == id then Some(rows[|rows| - 1])
    else
      assert rows == rows[..|rows| - 1] + [rows[|rows| - 1]];
      LastRow(rows[..|rows| - 1], id)
  }

  /** Merging keeps exactly the last row of each id. */
  lemma {:induction false} MergeKeepsLast(rows: seq<RawObject>, x: RawObject)
    ensures x in MergeById(rows) <==> LastRow(rows, x.id) == Some(x)
  {
    if rows != [] {
      var init, last := rows[..|rows| - 1], rows[|rows| - 1];
      MergeKeepsLast(init, x);
      MergeByIdMeaning(init);
      PutByIdMeaning(MergeById(init), last);
    }
  }

  function IdList(rows: seq<RawObject>): (r: seq<int>)
    ensures |r| == |rows|
  {
    seq(|rows|, i requires 0 <= i < |rows| => rows[i].id)
  }

  lemma IdListHead(first: RawObject, rest: seq<RawObject>)
    ensures IdList([first] + rest) == [first.id] + IdList(rest)
  {
  }

  lemma {:induction false} PutByIdOrder(rows: seq<RawObject>, o: RawObject)
    ensures IdList(PutById(rows, o)) == if o.id in IdList(rows) then IdList(rows) else IdList(rows) + [o.id]
  {
    if rows == [] {
      IdListHead(o, []);
    } else {
      assert rows == [rows[0]] + rows[1..];
      IdListHead(rows[0], rows[1..]);
      if rows[0].id == o.id {
        IdListHead(o, rows[1..]);
      } else {
        var rest := PutById(rows[1..], o);
        assert PutById(rows, o) == [rows[0]] + rest;
        IdListHead(rows[0], rest);
        PutByIdOrder(rows[1..], o);
        hide IdList, PutById;
      }
    }
  }

  /** Merged rows stand where their ids were fetched first. */
  lemma {:induction false} MergeKeepsPlaces(rows: seq<RawObject>)
    ensures IdList(MergeById(rows)) == Distinct(IdList(rows))
  {
    if rows != [] {
      var init, last := rows[..|rows| - 1], rows[|rows| - 1];
      MergeKeepsPlaces(init);
      PutByIdOrder(MergeById(init), last);
      hide PutById;
      assert IdList(rows) == IdList(init) + [last.id];
      assert (IdList(init) + [last.id])[..|init|] == IdList(init);
      DistinctMeaning(IdList(init));
    }
  }

  lemma FetchedMeaning(server: seq<RawObject>, ids: seq<int>, o: RawObject)
    ensures o in Fetched(server, ids) <==> o in ByParents(server, ids)
  {
    DistinctMeaning(ids);
    ChunksPartition(Distinct(ids), YAQL_FILTERS_LIMIT);
    FetchChunksMeaning(server, Chunks(Distinct(ids), YAQL_FILTERS_LIMIT), o);
    ByParentsMeaning(server, ids, o);
  }

  ghost predicate HasId(rows: seq<RawObject>, id: int) {
    exists o :: o in rows && o.id == id
  }

  /** Chunked and merged, the query returns only matching rows, and each matching id exactly once. */
  lemma ChunkedQueryIds(server: seq<RawObject>, ids: seq<int>)
    ensures DistinctIds(ChunkedByParents(server, ids))
    ensures forall o | o in ChunkedByParents(server, ids) :: o in ByParents(server, ids)
    ensures forall id :: HasId(ChunkedByParents(server, ids), id) <==> HasId(ByParents(server, ids), id)
  {
    var fetched := Fetched(server, ids);
    forall o ensures o in fetched <==> o in ByParents(server, ids) {
      FetchedMeaning(server, ids, o);
    }
    MergeByIdMeaning(fetched);
    forall id | HasId(ByParents(server, ids), id) ensures HasId(ChunkedByParents(server, ids), id) {
      var o :| o in ByParents(server, ids) && o.id == id;
      var y := MergeByIdKeeps(fetched, o);
    }
  }

  /** After the merge a child is listed under a parent exactly when its last fetched row names that parent. */
  lemma EdgeSurvivesMerge(server: seq<RawObject>, ids: seq<int>, child: int, parent: int)
    ensures (exists x :: x in ChunkedByParents(server, ids) && x.id == child && parent in x.parents) <==>
      LastRow(Fetched(server, ids), child).Some? && parent in LastRow(Fetched(server, ids), child).value.parents
  {
    forall x ensures x in ChunkedByParents(server, ids) <==> LastRow(Fetched(server, ids), x.id) == Some(x) {
      MergeKeepsLast(Fetched(server, ids), x);
    }
  }

  ghost predicate OneRowPerId(rows: seq<RawObject>) {
    forall a, b | a in rows && b in rows && a.id == b.id :: a == b
  }

  ghost predicate SameRows(s: seq<RawObject>, t: seq<RawObject>) {
    forall o :: o in s <==> o in t
  }

  /** Rows are kept exactly, not only ids, if and only if no two matching rows share an id. */
  lemma ChunkedQueryExact(server: seq<RawObject>, ids: seq<int>)
    ensures SameRows(ChunkedByParents(server, ids), ByParents(server, ids)) <==> OneRowPerId(ByParents(server, ids))
  {
    var merged, rows := ChunkedByParents(server, ids), ByParents(server, ids);
    if OneRowPerId(rows) {
      forall o ensures o in merged <==> o in rows {
        ChunkedRow(server, ids, o);
      }
    }
    if SameRows(merged, rows) {
      forall a, b | a in rows && b in rows && a.id == b.id ensures a == b {
        assert a in merged && b in merged;
        MergeByIdMeaning(Fetched(server, ids));
      }
    }
  }

  lemma ChunkedRow(server: seq<RawObject>, ids: seq<int>, o: RawObject)
    requires OneRowPerId(ByParents(server, ids))
    ensures o in ChunkedByParents(server, ids) <==> o in ByParents(server, ids)
  {
    var fetched := Fetched(server, ids);
    MergeByIdMeaning(fetched);
    FetchedMeaning(server, ids, o);
    if o in ByParents(server, ids) {
      var y := MergeByIdKeeps(fetched, o);
      FetchedMeaning(server, ids, y);
    }
  }

  /** One id listed under two parents in two rows: merging loses a matching row. */
  lemma MergeDropsARow()
    ensures var server := [RawObject(7, [1], "a", RawHost(0)), RawObject(7, [2], "a", RawHost(0))];
      !SameRows(ChunkedByParents(server, [1, 2]), ByParents(server, [1, 2]))
  {
    var a, b := RawObject(7, [1], "a", RawHost(0)), RawObject(7, [2], "a", RawHost(0));
    assert 1 in a.parents && 2 in b.parents;
    ByParentsMeaning([a, b], [1, 2], a);
    ByParentsMeaning([a, b], [1, 2], b);
    ChunkedQueryExact([a, b], [1, 2]);
  }
}
