/** Following pagination cursors until the last page, against a server whose answers may change over time. */
module Pagination {
  import opened CatalogModels

  datatype Page<T> = Page(data: seq<T>, total: int, next: Option<string>)

  datatype PageError = TotalChanged | RepeatedCursor | Incomplete

  /** The answer to the n-th request, for a cursor. */
  type Server<T> = (nat, Option<string>) -> Page<T>

  function Concat<T>(pages: seq<Page<T>>): seq<T> {
    if pages == [] then [] else Concat(pages[..|pages| - 1]) + pages[|pages| - 1].data
  }

  /** The items of the pages, in page order. */
  lemma {:induction false} ConcatSplit<T>(a: seq<Page<T>>, b: seq<Page<T>>)
    ensures Concat(a + b) == Concat(a) + Concat(b)
    ensures |b| == 1 ==> Concat(b) == b[0].data
  {
    if b == [] {
      assert a + b == a;
    } else {
      ConcatSplit(a, b[..|b| - 1]);
      assert (a + b)[..|a + b| - 1] == a + b[..|b| - 1];
    }
  }

  /** The pages in request order; each request after the first follows the cursor of the page before. */
  ghost predicate Followed<T(!new)>(server: Server<T>, requests: seq<Option<string>>, pages: seq<Page<T>>) {
    && |requests| == |pages| > 0 && requests[0] == None
    && (forall i :: 0 <= i < |pages| ==> pages[i] == server(i, requests[i]))
    && (forall i :: 0 < i < |pages| ==> requests[i].Some? && requests[i] == pages[i - 1].next)
  }

  ghost predicate SameTotals<T>(pages: seq<Page<T>>, total: int) {
    forall p | p in pages :: p.total == total
  }

  ghost predicate NoneRepeated(requests: seq<Option<string>>) {
    forall i, j :: 0 <= i < j < |requests| ==> requests[i] != requests[j]
  }

  /** Before a request: what was asked and answered, the cursor to ask next, and the cursors seen. */
  ghost predicate Fetching<T(!new)>(
      server: Server<T>, requests: seq<Option<string>>, pages: seq<Page<T>>, cursor: Option<string>, seen: set<string>)
  {
    && |requests| == |pages|
    && (pages == [] ==> cursor.None? && seen == {})
    && (pages != [] ==> Followed(server, requests, pages) && SameTotals(pages, pages[0].total)
                        && cursor.Some? && cursor == pages[|pages| - 1].next)
    && NoneRepeated(requests) && cursor !in requests
    && SeenRight(requests, cursor, seen)
  }

  ghost predicate SeenRight(requests: seq<Option<string>>, cursor: Option<string>, seen: set<string>) {
    forall c: string :: c in seen <==> Some(c) in requests || Some(c) == cursor
  }

  lemma Asked<T(!new)>(
      server: Server<T>, requests: seq<Option<string>>, pages: seq<Page<T>>, cursor: Option<string>, seen: set<string>)
    requires Fetching(server, requests, pages, cursor, seen)
    ensures var p := server(|pages|, cursor); var rs, ps := requests + [cursor], pages + [p];
      && Followed(server, rs, ps) && NoneRepeated(rs)
      && Concat(ps) == Concat(pages) + p.data
      && ps[..|ps| - 1] == pages && SameTotals(pages, ps[0].total)
      && (p.total == ps[0].total ==> SameTotals(ps, ps[0].total))
      && (p.next.Some? && p.next.value in seen ==> p.next in rs)
  {
    var p := server(|pages|, cursor);
    var rs, ps := requests + [cursor], pages + [p];
    assert ps[..|ps| - 1] == pages;
    ConcatSplit(pages, [p]);
    AskedFollows(server, requests, pages, cursor, seen);
    TotalsNext(pages, p);
    hide Concat, Followed, NoneRepeated, SameTotals;
    assert p.next.Some? && p.next.value in seen ==> p.next in rs;
  }

  lemma AskedFollows<T(!new)>(
      server: Server<T>, requests: seq<Option<string>>, pages: seq<Page<T>>, cursor: Option<string>, seen: set<string>)
    requires Fetching(server, requests, pages, cursor, seen)
    ensures Followed(server, requests + [cursor], pages + [server(|pages|, cursor)])
    ensures NoneRepeated(requests + [cursor])
  {
    hide SameTotals, SeenRight;
  }

  lemma TotalsNext<T>(pages: seq<Page<T>>, p: Page<T>)
    requires pages != [] ==> SameTotals(pages, pages[0].total)
    ensures var first := (pages + [p])[0].total;
      SameTotals(pages, first) && (p.total == first ==> SameTotals(pages + [p], first))
  {
  }

  lemma Continued<T(!new)>(
      server: Server<T>, requests: seq<Option<string>>, pages: seq<Page<T>>, cursor: Option<string>, seen: set<string>)
    requires Fetching(server, requests, pages, cursor, seen)
    requires var p := server(|pages|, cursor);
      p.next.Some? && p.next.value !in seen && (pages == [] || p.total == pages[0].total)
    ensures var p := server(|pages|, cursor);
      Fetching(server, requests + [cursor], pages + [p], p.next, seen + {p.next.value})
  {
    hide Followed, SameTotals, NoneRepeated, SeenRight, Concat;
    Asked(server, requests, pages, cursor, seen);
    SeenNext(requests, cursor, seen, server(|pages|, cursor).next.value);
  }

  lemma SeenNext(requests: seq<Option<string>>, cursor: Option<string>, seen: set<string>, next: string)
    requires SeenRight(requests, cursor, seen) && next !in seen
    ensures SeenRight(requests + [cursor], Some(next), seen + {next}) && Some(next) !in requests + [cursor]
  {
    assert forall c :: c in requests + [cursor] <==> c in requests || c == cursor;
  }

  /** How a fetch may end after these requests and pages. */
  ghost predicate EndsWith<T(!new)>(
      server: Server<T>, requests: seq<Option<string>>, pages: seq<Page<T>>, r: Result<seq<T>, PageError>)
  {
    && Followed(server, requests, pages) && NoneRepeated(requests)
    && var last := pages[|pages| - 1];
       match r
       case Ok(items) => items == Concat(pages) && last.next.None? && SameTotals(pages, |items|)
       case Err(TotalChanged) => SameTotals(pages[..|pages| - 1], pages[0].total) && last.total != pages[0].total
       case Err(RepeatedCursor) => SameTotals(pages, pages[0].total) && last.next.Some? && last.next in requests
       case Err(Incomplete) => SameTotals(pages, pages[0].total) && last.next.None? && |Concat(pages)| != pages[0].total
  }

  /**
   * Some chain of requests, none repeated, ends with this result. Success is the concatenation of its pages,
   * whose length is the total of every page.
   */
  ghost predicate Answers<T(!new)>(server: Server<T>, r: Result<seq<T>, PageError>) {
    exists requests, pages :: EndsWith(server, requests, pages, r)
  }

  /** With finitely many cursors the loop ends, and with the one result the server's answers allow. */
  method FetchAll<T(!new)>(server: Server<T>, ghost cursors: set<string>) returns (r: Result<seq<T>, PageError>)
    requires forall n: nat, c :: server(n, c).next.Some? ==> server(n, c).next.value in cursors
    ensures Answers(server, r)
  {
    hide Followed, SameTotals, NoneRepeated, Fetching, Concat;
    var items: seq<T> := [];
    var cursor: Option<string> := None;
    var expected: Option<int> := None;
    var seen: set<string> := {};
    ghost var requests, pages := [], [];
    var asked: nat := 0;
    NothingAsked(server);
    while true
      invariant asked == |pages| && items == Concat(pages) && seen <= cursors
      invariant expected == if pages == [] then None else Some(pages[0].total)
      invariant Fetching(server, requests, pages, cursor, seen)
      decreases cursors - seen
    {
      var page := server(asked, cursor);
      Asked(server, requests, pages, cursor, seen);
      ghost var requests0, pages0 := requests, pages;
      requests, pages := requests + [cursor], pages + [page];
      asked := asked + 1;
      if expected.None? {
        expected := Some(page.total);
      } else if page.total != expected.value {
        assert EndsWith(server, requests, pages, Err(TotalChanged));
        return Err(TotalChanged);
      }
      items := items + page.data;
      if page.next.None? {
        break;
      }
      if page.next.value in seen {
        assert EndsWith(server, requests, pages, Err(RepeatedCursor));
        return Err(RepeatedCursor);
      }
      Continued(server, requests0, pages0, cursor, seen);
      seen := seen + {page.next.value};
      cursor := page.next;
    }
    r := if |items| != expected.value then Err(Incomplete) else Ok(items);
    assert EndsWith(server, requests, pages, r);
  }

  lemma NothingAsked<T(!new)>(server: Server<T>)
    ensures Fetching(server, [], [], None, {}) && Concat<T>([]) == []
  {
  }

  /** Two chains of one server agree as far as both go. */
  lemma {:induction false} ChainsAgree<T(!new)>(
      server: Server<T>, rs: seq<Option<string>>, ps: seq<Page<T>>, qs: seq<Option<string>>, ts: seq<Page<T>>, k: nat)
    requires Followed(server, rs, ps) && Followed(server, qs, ts) && k < |ps| && k < |ts|
    ensures rs[k] == qs[k] && ps[k] == ts[k]
  {
    if k > 0 { ChainsAgree(server, rs, ps, qs, ts, k - 1); }
  }

  /** A chain that ended cannot be the beginning of a longer one. */
  lemma NotLonger<T(!new)>(
      server: Server<T>, rs: seq<Option<string>>, ps: seq<Page<T>>, r: Result<seq<T>, PageError>,
      qs: seq<Option<string>>, ts: seq<Page<T>>, s: Result<seq<T>, PageError>)
    requires EndsWith(server, rs, ps, r) && EndsWith(server, qs, ts, s)
    ensures |ts| <= |ps|
  {
    if |ps| < |ts| {
      var last := |ps| - 1;
      forall k | 0 <= k < |ps| ensures rs[k] == qs[k] && ps[k] == ts[k] { ChainsAgree(server, rs, ps, qs, ts, k); }
      assert qs[last + 1] == ts[last].next && qs[last + 1] !in rs;
      EarlierTotals(server, qs, ts, s, last);
    }
  }

  lemma EarlierTotals<T(!new)>(
    server: Server<T>, qs: seq<Option<string>>, ts: seq<Page<T>>, s: Result<seq<T>, PageError>, k: nat)
    requires EndsWith(server, qs, ts, s) && k < |ts| - 1
    ensures ts[k].total == ts[0].total
  {
    assert ts[..|ts| - 1][k] == ts[k];
    assert ts[0] in ts;
  }

  lemma TotalsAtEnds<T(!new)>(pages: seq<Page<T>>, total: int)
    requires pages != [] && SameTotals(pages, total)
    ensures pages[0].total == total == pages[|pages| - 1].total
  {
    assert pages[0] in pages && pages[|pages| - 1] in pages;
  }

  /** One chain ends in one way. */
  lemma OneEnding<T(!new)>(
      server: Server<T>, rs: seq<Option<string>>, ps: seq<Page<T>>,
      r: Result<seq<T>, PageError>, s: Result<seq<T>, PageError>)
    requires ps != [] && EndsWith(server, rs, ps, r) && EndsWith(server, rs, ps, s)
    ensures r == s
  {
    hide Followed, NoneRepeated, SameTotals, Concat;
    forall total | SameTotals(ps, total) ensures ps[0].total == total == ps[|ps| - 1].total { TotalsAtEnds(ps, total); }
  }

  /** The server's answers leave room for one result only. */
  lemma AnswerUnique<T(!new)>(server: Server<T>, r: Result<seq<T>, PageError>, s: Result<seq<T>, PageError>)
    requires Answers(server, r) && Answers(server, s)
    ensures r == s
  {
    hide NoneRepeated, SameTotals, Concat;
    var rs, ps :| EndsWith(server, rs, ps, r);
    var qs, ts :| EndsWith(server, qs, ts, s);
    NotLonger(server, rs, ps, r, qs, ts, s);
    NotLonger(server, qs, ts, s, rs, ps, r);
    SameChain(server, rs, ps, qs, ts);
    OneEnding(server, rs, ps, r, s);
  }

  lemma SameChain<T(!new)>(
    server: Server<T>, rs: seq<Option<string>>, ps: seq<Page<T>>, qs: seq<Option<string>>, ts: seq<Page<T>>)
    requires Followed(server, rs, ps) && Followed(server, qs, ts) && |ps| == |ts|
    ensures rs == qs && ps == ts
  {
    forall k | 0 <= k < |ps| ensures rs[k] == qs[k] && ps[k] == ts[k] { ChainsAgree(server, rs, ps, qs, ts, k); }
  }
}
