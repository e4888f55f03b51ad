/** Paging through a SCIM list (app/scim/router.py, section 3.4.2.4 of RFC 7644). */
module Pagination {
  import opened FilterSql

  const MAX_PAGE_SIZE := 200

  /** A query parameter: left out, not a number, or a number. */
  datatype Parameter = Absent | Malformed | Given(n: int)

  /** `_paginate` */
  function Paginate(startIndex: Parameter, count: Parameter): (r: (int, int))
    ensures r.0 >= 1 && 0 <= r.1 <= MAX_PAGE_SIZE
    ensures startIndex.Given? && startIndex.n >= 1 ==> r.0 == startIndex.n
    ensures count.Given? && 0 <= count.n <= MAX_PAGE_SIZE ==> r.1 == count.n
  {
    var start := match startIndex case Given(n) => if n > 1 then n else 1 case _ => 1;
    var size := match count case Given(n) => n case _ => MAX_PAGE_SIZE;
    (start, if size < 0 then 0 else if size > MAX_PAGE_SIZE then MAX_PAGE_SIZE else size)
  }

  /** Left out or not a number means the first record and as many as allowed; numbers out of range are brought into it. */
  lemma {:induction false} Defaults(startIndex: Parameter, count: Parameter)
    ensures var (start, size) := Paginate(startIndex, count);
            && (!startIndex.Given? || startIndex.n < 1 ==> start == 1)
            && (!count.Given? || count.n > 200 ==> size == 200)
            && (count.Given? && count.n < 0 ==> size == 0)
  {
  }

  datatype Page = Page(totalResults: nat, itemsPerPage: nat, startIndex: int, resources: seq<string>)

  /** ORDER BY user_name OFFSET start - 1 LIMIT size over the names of the matching rows. */
  function List(rows: seq<string>, startIndex: Parameter, count: Parameter): Page {
    var (start, size) := Paginate(startIndex, count);
    var from := if start - 1 < |rows| then start - 1 else |rows|;
    var to := if from + size < |rows| then from + size else |rows|;
    Page(|rows|, to - from, start, rows[from..to])
  }

  /** A page holds the records from startIndex on, counted from one, and no more than asked for; past the end it is empty. */
  lemma {:induction false} PageHolds(rows: seq<string>, startIndex: Parameter, count: Parameter)
    ensures var page, (start, size) := List(rows, startIndex, count), Paginate(startIndex, count);
            && page.totalResults == |rows| && page.startIndex == start && page.itemsPerPage == |page.resources|
            && |page.resources| == (if start > |rows| then 0 else if size < |rows| + 1 - start then size else |rows| + 1 - start)
            && forall i :: 0 <= i < |page.resources| ==> page.resources[i] == rows[start - 1 + i]
  {
  }

  /** Names in order, no name twice. */
  predicate InOrder(rows: seq<string>) {
    forall i, j :: 0 <= i < j < |rows| ==> Less(rows[i], rows[j])
  }

  /** Each request sorts again, but a set of names has only one order. */
  lemma {:induction false} OneOrder(a: seq<string>, b: seq<string>)
    requires InOrder(a) && InOrder(b)
    requires forall x :: x in a <==> x in b
    ensures a == b
  {
    assert a != [] ==> a[0] in b;
    assert b != [] ==> b[0] in a;
    if a != [] && b != [] {
      LessTotal(a[0], b[0]);
      LessTotal(b[0], a[0]);
      assert a[0] == b[0];
      forall x ensures x in a[1..] <==> x in b[1..] {
        SecondLater(a, x);
        SecondLater(b, x);
      }
      OneOrder(a[1..], b[1..]);
      assert a == [a[0]] + a[1..] && b == [b[0]] + b[1..];
    }
  }

  lemma {:induction false} SecondLater(a: seq<string>, x: string)
    requires a != [] && InOrder(a)
    ensures x in a[1..] <==> x in a && x != a[0]
  {
    if x == a[0] { LessTotal(x, x); }
    assert a == [a[0]] + a[1..];
  }

  /** Every page a client sees when it steps startIndex by itemsPerPage until a page is empty. */
  function Pages(rows: seq<string>, start: nat, count: Parameter): seq<Page>
    requires 1 <= start && Paginate(Absent, count).1 > 0
    decreases |rows| + 1 - start
  {
    var page := List(rows, Given(start), count);
    if page.itemsPerPage == 0 then [] else [page] + Pages(rows, start + page.itemsPerPage, count)
  }

  function Resources(pages: seq<Page>): seq<string> {
    if pages == [] then [] else pages[0].resources + Resources(pages[1..])
  }

  lemma {:induction false} PageIs(rows: seq<string>, start: nat, count: Parameter)
    requires 1 <= start <= |rows| + 1 && Paginate(Absent, count).1 > 0
    ensures var page := List(rows, Given(start), count);
            && page.totalResults == |rows| && (page.itemsPerPage == 0 <==> start == |rows| + 1)
            && start - 1 + page.itemsPerPage <= |rows|
            && page.resources == rows[start - 1..start - 1 + page.itemsPerPage]
  {
  }

  lemma {:induction false} PagesTileFrom(rows: seq<string>, start: nat, count: Parameter)
    requires 1 <= start <= |rows| + 1 && Paginate(Absent, count).1 > 0
    ensures Resources(Pages(rows, start, count)) == rows[start - 1..]
    ensures forall p :: p in Pages(rows, start, count) ==> p.totalResults == |rows|
    decreases |rows| + 1 - start
  {
    hide List;
    var page := List(rows, Given(start), count);
    PageIs(rows, start, count);
    if page.itemsPerPage > 0 {
      var next := start + page.itemsPerPage;
      var later := Pages(rows, next, count);
      PagesTileFrom(rows, next, count);
      assert Pages(rows, start, count) == [page] + later;
      assert ([page] + later)[1..] == later;
      assert rows[start - 1..next - 1] + rows[next - 1..] == rows[start - 1..];
    }
  }

  /** Stepping through any page size from 1 to 200 yields every record exactly once, in order. */
  lemma {:induction false} PagesTile(rows: seq<string>, count: Parameter)
    requires Paginate(Absent, count).1 > 0
    ensures Resources(Pages(rows, 1, count)) == rows
  {
    PagesTileFrom(rows, 1, count);
  }
}
