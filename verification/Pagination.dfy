/** Keyset pagination of `AssistantRepository.list_paginated`, newest first. */
module Pagination {
  import opened Common

  datatype Item = Item(createdAt: int, id: nat, visibility: nat, status: nat, owner: nat)
  datatype Filter = Filter(visibility: Option<nat>, status: Option<nat>, owner: Option<nat>)

  /** The parsed cursor; text that does not parse counts as no cursor. */
  datatype Cursor = Cursor(createdAt: int, id: nat)

  predicate Selects(f: Filter, x: Item) {
    && (f.visibility.Some? ==> x.visibility == f.visibility.value)
    && (f.status.Some? ==> x.status == f.status.value)
    && (f.owner.Some? ==> x.owner == f.owner.value)
  }

  /** The keyset condition of the WHERE clause. */
  predicate After(x: Item, cursor: Option<Cursor>) {
    match cursor
    case None => true
    case Some(c) => x.createdAt < c.createdAt || (x.createdAt == c.createdAt && x.id < c.id)
  }

  /** The ORDER BY clause: `x` is listed before `y`. */
  predicate Precedes(x: Item, y: Item) {
    x.createdAt > y.createdAt || (x.createdAt == y.createdAt && x.id > y.id)
  }

  function Where(table: seq<Item>, f: Filter, cursor: Option<Cursor>): seq<Item> {
    if table == [] then []
    else
      var rest := Where(table[1..], f, cursor);
      if Selects(f, table[0]) && After(table[0], cursor) then [table[0]] + rest else rest
  }

  function Insert(x: Item, s: seq<Item>): seq<Item> {
    if s == [] || Precedes(x, s[0]) then [x] + s else [s[0]] + Insert(x, s[1..])
  }

  function OrderBy(s: seq<Item>): seq<Item> {
    if s == [] then [] else Insert(s[0], OrderBy(s[1..]))
  }

  function Query(table: seq<Item>, f: Filter, cursor: Option<Cursor>): seq<Item> {
    OrderBy(Where(table, f, cursor))
  }

  /** One call: at most `size` rows, and a cursor when the extra row that was fetched shows that there are more. */
  function Page(table: seq<Item>, f: Filter, size: nat, cursor: Option<Cursor>): (seq<Item>, Option<Cursor>) {
    var all := Query(table, f, cursor);
    var rows := if |all| > size + 1 then all[..size + 1] else all;
    if |rows| > size then
      var last := if size == 0 then rows[|rows| - 1] else rows[size - 1];  // `rows[size - 1]` counts from the end for size 0
      (rows[..size], Some(Cursor(last.createdAt, last.id)))
    else (rows, None)
  }

  // ---- sorted sequences ----

  ghost predicate DistinctIds(table: seq<Item>) {
    forall i, j :: 0 <= i < j < |table| ==> table[i].id != table[j].id
  }

  ghost predicate Sorted(s: seq<Item>) {
    forall i, j :: 0 <= i < j < |s| ==> Precedes(s[i], s[j])
  }

  lemma {:induction false} InsertElements(x: Item, s: seq<Item>, y: Item)
    ensures y in Insert(x, s) <==> y == x || y in s
  {
    if s != [] && !Precedes(x, s[0]) {
      InsertElements(x, s[1..], y);
      assert s == [s[0]] + s[1..];
    }
  }

  lemma {:induction false} InsertSorted(x: Item, s: seq<Item>)
    requires Sorted(s) && forall y :: y in s ==> y.id != x.id
    ensures Sorted(Insert(x, s))
  {
    if s != [] && !Precedes(x, s[0]) {
      var rest := Insert(x, s[1..]);
      InsertSorted(x, s[1..]);
      forall y | y in rest ensures Precedes(s[0], y) {
        InsertElements(x, s[1..], y);
      }
      assert forall i :: 0 <= i < |rest| ==> rest[i] in rest;
    }
  }

  lemma {:induction false} OrderByElements(s: seq<Item>, y: Item)
    ensures y in OrderBy(s) <==> y in s
  {
    if s != [] {
      OrderByElements(s[1..], y);
      InsertElements(s[0], OrderBy(s[1..]), y);
      assert s == [s[0]] + s[1..];
    }
  }

  lemma {:induction false} OrderBySorted(s: seq<Item>)
    requires DistinctIds(s)
    ensures Sorted(OrderBy(s))
  {
    if s != [] {
      OrderBySorted(s[1..]);
      forall y | y in OrderBy(s[1..]) ensures y.id != s[0].id {
        OrderByElements(s[1..], y);
      }
      InsertSorted(s[0], OrderBy(s[1..]));
    }
  }

  lemma {:induction false} WhereElements(table: seq<Item>, f: Filter, cursor: Option<Cursor>, y: Item)
    ensures y in Where(table, f, cursor) <==> y in table && Selects(f, y) && After(y, cursor)
  {
    if table != [] {
      WhereElements(table[1..], f, cursor, y);
      assert table == [table[0]] + table[1..];
    }
  }

  lemma {:induction false} WhereDistinct(table: seq<Item>, f: Filter, cursor: Option<Cursor>)
    requires DistinctIds(table)
    ensures DistinctIds(Where(table, f, cursor))
  {
    if table != [] {
      var rest := Where(table[1..], f, cursor);
      WhereDistinct(table[1..], f, cursor);
      forall y | y in rest ensures y.id != table[0].id {
        WhereElements(table[1..], f, cursor, y);
      }
      assert forall i :: 0 <= i < |rest| ==> rest[i] in rest;
    }
  }

  lemma TailElements(s: seq<Item>, y: Item)
    requires Sorted(s) && s != []
    ensures y in s[1..] <==> y in s && y != s[0]
  {
  }

  /** A sorted sequence is determined by its elements. */
  lemma {:induction false} SortedUnique(a: seq<Item>, b: seq<Item>)
    requires Sorted(a) && Sorted(b) && forall y :: y in a <==> y in b
    ensures a == b
  {
    assert |a| > 0 ==> a[0] in a;
    assert |b| > 0 ==> b[0] in b;
    if a != [] {
      assert a[0] in b && b[0] in a;
      assert a[0] == b[0];
      forall y ensures y in a[1..] <==> y in b[1..] {
        TailElements(a, y);
        TailElements(b, y);
      }
      SortedUnique(a[1..], b[1..]);
    }
  }

  // ---- following the cursor ----

  /** What a query returns: the selected rows after the cursor, each once, in descending order. */
  lemma QueryResult(table: seq<Item>, f: Filter, cursor: Option<Cursor>)
    requires DistinctIds(table)
    ensures Sorted(Query(table, f, cursor))
    ensures forall y :: y in Query(table, f, cursor) <==> y in table && Selects(f, y) && After(y, cursor)
  {
    WhereDistinct(table, f, cursor);
    OrderBySorted(Where(table, f, cursor));
    forall y ensures y in Query(table, f, cursor) <==> y in table && Selects(f, y) && After(y, cursor) {
      OrderByElements(Where(table, f, cursor), y);
      WhereElements(table, f, cursor, y);
    }
  }

  /** The listing by its columns: newest first and, at one time, larger ids first; exactly the rows that have every given column value and lie after the cursor. */
  lemma QueryListing(table: seq<Item>, f: Filter, cursor: Option<Cursor>)
    requires DistinctIds(table)
    ensures var all := Query(table, f, cursor);
            forall i, j :: 0 <= i < j < |all| ==>
              all[i].createdAt > all[j].createdAt || (all[i].createdAt == all[j].createdAt && all[i].id > all[j].id)
    ensures forall y :: y in Query(table, f, cursor) <==>
              && y in table
              && (f.visibility == None || f.visibility == Some(y.visibility))
              && (f.status == None || f.status == Some(y.status))
              && (f.owner == None || f.owner == Some(y.owner))
              && (cursor.Some? ==> y.createdAt < cursor.value.createdAt
                                   || (y.createdAt == cursor.value.createdAt && y.id < cursor.value.id))
  {
    QueryResult(table, f, cursor);
  }

  /** The cursor after the first `k` rows of the listing. */
  function CursorAt(all: seq<Item>, k: nat): Option<Cursor>
    requires k <= |all|
  {
    if k == 0 then None else Some(Cursor(all[k - 1].createdAt, all[k - 1].id))
  }

  /** In a sorted listing, exactly the rows from position `k` on lie after the cursor of the first `k`. */
  lemma AfterCursorIff(all: seq<Item>, k: nat, i: nat)
    requires Sorted(all) && k <= |all| && i < |all|
    ensures After(all[i], CursorAt(all, k)) <==> i >= k
  {
    assert forall j :: 0 <= j < i ==> Precedes(all[j], all[i]);
    assert forall j :: i < j < |all| ==> Precedes(all[i], all[j]);
  }

  /** Resuming at a row's cursor returns exactly the rows listed after it, ties included. */
  lemma QueryResumes(table: seq<Item>, f: Filter, k: nat)
    requires DistinctIds(table) && k <= |Query(table, f, None)|
    ensures Query(table, f, CursorAt(Query(table, f, None), k)) == Query(table, f, None)[k..]
  {
    var all := Query(table, f, None);
    var cursor := CursorAt(all, k);
    QueryResult(table, f, None);
    QueryResult(table, f, cursor);
    forall y ensures y in all[k..] <==> y in all && After(y, cursor) {
      if y in all && After(y, cursor) {
        var i :| 0 <= i < |all| && all[i] == y;
        AfterCursorIff(all, k, i);
        assert all[k..][i - k] == y;
      }
      if y in all[k..] {
        var i :| 0 <= i < |all[k..]| && all[k..][i] == y;
        AfterCursorIff(all, k, k + i);
      }
    }
    SortedUnique(Query(table, f, cursor), all[k..]);
  }

  /** A page is the first `size` rows of the listing after the cursor, and has a next cursor, that of its last row, exactly when more rows follow. */
  lemma PageLaw(table: seq<Item>, f: Filter, size: nat, cursor: Option<Cursor>)
    requires size >= 1
    ensures var all, (rows, next) := Query(table, f, cursor), Page(table, f, size, cursor);
            && (|all| <= size ==> rows == all && next == None)
            && (|all| > size ==> rows == all[..size] && next == Some(Cursor(all[size - 1].createdAt, all[size - 1].id)))
  {
    var all := Query(table, f, cursor);
    if |all| > size + 1 { assert all[..size + 1][..size] == all[..size]; }
  }

  lemma PrefixGrows(all: seq<Item>, k: nat, size: nat)
    requires k + size <= |all|
    ensures all[..k] + all[k..][..size] == all[..k + size] && (size > 0 ==> all[k..][size - 1] == all[k + size - 1])
  {
  }

  /**
   The caller's loop: following `next_cursor` from none until none visits every selected row
   exactly once, in descending (created_at, id) order, for every page size of at least one.
   With size 0 each page is empty and its cursor skips a row, so nothing is ever visited.
   */
  method Traverse(table: seq<Item>, f: Filter, size: nat) returns (visited: seq<Item>, pages: nat)
    requires DistinctIds(table)
    ensures Sorted(visited) && forall y :: y in visited ==> y in table && Selects(f, y)
    ensures size >= 1 ==> forall y :: y in table && Selects(f, y) ==> y in visited
    ensures visited == (if size >= 1 then Query(table, f, None) else [])
    ensures 1 <= pages <= 1 + |Query(table, f, None)|
  {
    ghost var all := Query(table, f, None);
    ghost var k: nat := 0;
    QueryResult(table, f, None);
    visited, pages := [], 0;
    var cursor: Option<Cursor> := None;
    while true
      invariant k <= |all| && pages <= k
      invariant cursor == CursorAt(all, k)
      invariant visited == if size >= 1 then all[..k] else []
      decreases |all| - k
    {
      QueryResumes(table, f, k);
      var (rows, next) := Page(table, f, size, cursor);
      visited := visited + rows;
      pages := pages + 1;
      if next.None? {
        assert size >= 1 ==> all[..k] + all[k..] == all;
        return;
      }
      if size == 0 {
        k := k + 1;
      } else {
        PageLaw(table, f, size, CursorAt(all, k));
        PrefixGrows(all, k, size);
        k := k + size;
      }
      cursor := next;
    }
  }
}
