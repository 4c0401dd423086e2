/** Small helpers on collections of ids, shared by several modules. */
module Collections {

  function SetOf(ids: seq<int>): set<int> { set id | id in ids }

  /** The set a dictionary of sets holds for a key; absent keys hold nothing. */
  function ParentsOf(parents: map<int, set<int>>, child: int): set<int> {
    if child in parents then parents[child] else {}
  }

  function AddParent(parents: map<int, set<int>>, child: int, parent: int): map<int, set<int>> {
    parents[child := ParentsOf(parents, child) + {parent}]
  }

  /** The item an id denotes in a list: the last one listed with it. */
  ghost predicate Denotes<T>(idOf: T -> int, items: seq<T>, id: int, x: T) {
    exists k :: LastAt(idOf, items, id, k) && items[k] == x
  }

  ghost predicate LastAt<T>(idOf: T -> int, items: seq<T>, id: int, k: int) {
    0 <= k < |items| && idOf(items[k]) == id && forall j :: k < j < |items| ==> idOf(items[j]) != id
  }

  /** `{item.id: item for item in items}`. */
  function ById<T>(idOf: T -> int, items: seq<T>): map<int, T> {
    if items == [] then map[]
    else ById(idOf, items[..|items| - 1])[idOf(items[|items| - 1]) := items[|items| - 1]]
  }

  /** The dictionary holds exactly what the ids denote. */
  lemma {:induction false} ByIdDenotes<T>(idOf: T -> int, items: seq<T>, id: int)
    ensures id in ById(idOf, items) <==> exists x :: x in items && idOf(x) == id
    ensures forall x :: id in ById(idOf, items) && ById(idOf, items)[id] == x <==> Denotes(idOf, items, id, x)
  {
    if items != [] {
      var n := |items| - 1;
      var init, last := items[..n], items[n];
      ByIdDenotes(idOf, init, id);
      assert items == init + [last];
      if idOf(last) == id {
        assert LastAt(idOf, items, id, n);
      } else {
        DenotesInit(idOf, items, id);
      }
    }
  }

  lemma AllDenoted<T>(idOf: T -> int, items: seq<T>)
    ensures var m := ById(idOf, items); forall id, x :: id in m && m[id] == x <==> Denotes(idOf, items, id, x)
  {
    var m := ById(idOf, items);
    forall id, x ensures id in m && m[id] == x <==> Denotes(idOf, items, id, x) { ByIdDenotes(idOf, items, id); }
  }

  lemma DenotesInit<T>(idOf: T -> int, items: seq<T>, id: int)
    requires items != [] && idOf(items[|items| - 1]) != id
    ensures forall x :: Denotes(idOf, items, id, x) <==> Denotes(idOf, items[..|items| - 1], id, x)
  {
    var init := items[..|items| - 1];
    forall k ensures LastAt(idOf, items, id, k) <==> LastAt(idOf, init, id, k) {
      assert forall j :: 0 <= j < |init| ==> init[j] == items[j];
    }
    forall x | Denotes(idOf, items, id, x) ensures Denotes(idOf, init, id, x) {
      var k :| LastAt(idOf, items, id, k) && items[k] == x;
      assert LastAt(idOf, init, id, k) && init[k] == x;
    }
    forall x | Denotes(idOf, init, id, x) ensures Denotes(idOf, items, id, x) {
      var k :| LastAt(idOf, init, id, k) && init[k] == x;
      assert LastAt(idOf, items, id, k) && items[k] == x;
    }
  }

  lemma DenotedIsListed<T>(idOf: T -> int, items: seq<T>, id: int, x: T)
    requires Denotes(idOf, items, id, x)
    ensures x in items && idOf(x) == id
  {
  }

  lemma DenotesOne<T>(idOf: T -> int, items: seq<T>, id: int, x: T, y: T)
    requires Denotes(idOf, items, id, x) && Denotes(idOf, items, id, y)
    ensures x == y
  {
    var i :| LastAt(idOf, items, id, i) && items[i] == x;
    var j :| LastAt(idOf, items, id, j) && items[j] == y;
    assert i == j;
  }

  // ----- joining lists

  function Flatten<T>(parts: seq<seq<T>>): seq<T> {
    if parts == [] then [] else parts[0] + Flatten(parts[1..])
  }

  lemma FlattenOne<T>(part: seq<T>)
    ensures Flatten([part]) == part
  {
    assert [part][1..] == [];
  }

  /** Parts are joined in order. */
  lemma {:induction false} FlattenSplit<T>(a: seq<seq<T>>, b: seq<seq<T>>)
    ensures Flatten(a + b) == Flatten(a) + Flatten(b)
  {
    if a == [] {
      assert a + b == b;
    } else {
      assert (a + b)[1..] == a[1..] + b;
      FlattenSplit(a[1..], b);
    }
  }
}
