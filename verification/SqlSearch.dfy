/** `Search` of index/postgres/search.go as a whole: the statement it writes,
    the page it cuts out of what comes back, and that the page is the one the
    search in memory gives. */
module SqlSearch {
  import opened Options
  import opened Lexicographic
  import opened Ordering
  import opened Rows
  import opened Search
  import opened SqlBoundary
  import Clauses = Filter
  import FilterMeaning

  /** The statement: its filter with the arguments of the filter, if it has one,
      and its boundary with those of the boundary. */
  datatype Select = Select(
    filter: Option<Clauses.Expr>, args: seq<Clauses.Arg>, boundary: Option<seq<seq<Term>>>, texts: seq<string>)

  /** What is written for a query whose boundary, if any, is taken from a row. */
  ghost predicate WrittenFor(s: Select, base: seq<Clauses.Arg>, q: Query, b: Option<Row>)
  {
    var order := SearchOrder(q.sort);
    && Clauses.WriteFilter(base, q.filter) == Some((s.filter, s.args))
    && (s.boundary.Some? <==> b.Some?)
    && (b.Some? ==>
          var want := Want(SqlBoundaryOf(b.value, order));
          && |s.boundary.value| == |order| == |want|
          && forall i :: 0 <= i < |order| ==> ClauseIs(s.boundary.value[i], s.texts, order, want, q.backwards, i))
  }

  /** A row that the statement's conditions are all true of. */
  ghost function Chosen(s: Select, q: Query): Row -> bool
  {
    (r: Row) =>
      && Granted(r, q.tenants)
      && (s.filter.Some? ==> Clauses.Selects(s.filter.value, s.args, r))
      && (s.boundary.Some? ==> BoundarySelects(s.boundary.value, s.texts, r))
  }

  /** `orderSQL`: every direction turned round to read backwards. */
  ghost function Listed(order: seq<SortBy>, backwards: bool): Order<Row>
    requires Sortable(order)
  {
    (a: Row, b: Row) => Before(CellLess(), Directions(order, backwards), Cells(order, a), Cells(order, b))
  }

  /** What comes back: one row more than the limit, when there are so many. */
  ghost function Fetched(rows: seq<Row>, s: Select, q: Query): seq<Row>
    requires Sortable(SearchOrder(q.sort))
  {
    var all := Sort(Listed(SearchOrder(q.sort), q.backwards), Filter(Chosen(s, q), rows));
    if |all| > Limit(q.limit) + 1 then all[..Limit(q.limit) + 1] else all
  }

  /** The page cut out of it: the extra row dropped, turned round when it was read
      backwards, and a cursor from its last row and its first; an empty one keeps
      the cursor it was asked from. */
  method Assemble(fetched: seq<Row>, limit: nat, backwards: bool, order: seq<SortBy>, after: Option<Boundary>)
    returns (page: Result)
    requires order != []
    ensures page.rows == Assembled(fetched, limit, backwards) && (page.more <==> |fetched| > limit)
    ensures page.rows != [] ==>
              && page.next == Some(SqlBoundaryOf(page.rows[|page.rows| - 1], order))
              && page.prev == Some(SqlBoundaryOf(page.rows[0], order))
    ensures page.rows == [] ==> page.next == after && page.prev == None
  {
    var rows, more := fetched, false;
    if |rows| > limit {
      rows, more := rows[..limit], true;
    }
    if backwards {
      rows := Turn(rows);
    }
    var next, prev := after, None;
    if |rows| > 0 {
      next, prev := Some(SqlBoundaryOf(rows[|rows| - 1], order)), Some(SqlBoundaryOf(rows[0], order));
    }
    page := Result(rows, more, next, prev);
  }

  ghost function Assembled(fetched: seq<Row>, limit: nat, backwards: bool): seq<Row>
  {
    var cut := if |fetched| > limit then fetched[..limit] else fetched;
    if backwards then Reversed(cut) else cut
  }

  /** What the two searchers are compared on: rows that the filter can be asked
      of, and moments, of those the order sorts by, that sort alike, the
      boundary's among them. */
  ghost predicate Comparable(rows: seq<Row>, q: Query, b: Option<Row>)
  {
    && DistinctIds(rows) && Sortable(SearchOrder(q.sort))
    && (forall r :: r in rows ==> FilterMeaning.FilterOk(r, q.filter))
    && (forall x, y :: x in rows && y in rows ==> RowsSortAlike(SearchOrder(q.sort), x, y))
    && (b.Some? ==>
          var order := SearchOrder(q.sort);
          && NoIdYet(order[..|order| - 1]) && order[|order| - 1].field == SORT_ID
          && forall x :: x in rows ==> RowsSortAlike(order, b.value, x) && RowsSortAlike(order, x, b.value))
  }

  // ----- the same rows

  lemma FilterAgrees(rows: seq<Row>, s: Select, base: seq<Clauses.Arg>, q: Query, b: Option<Row>, r: Row)
    requires Comparable(rows, q, b) && WrittenFor(s, base, q, b) && r in rows
    ensures (s.filter.Some? ==> Clauses.Selects(s.filter.value, s.args, r)) <==> Matches(r, q.filter)
  {
    hide Clauses.WriteFilter, Clauses.Selects, Matches, FilterMeaning.FilterOk, RowsSortAlike, SearchOrder, ClauseIs;
    FilterMeaning.CompilationKeepsMeaning(base, q.filter, r);
  }

  lemma BoundaryAgrees(rows: seq<Row>, s: Select, base: seq<Clauses.Arg>, q: Query, b: Row, r: Row)
    requires Comparable(rows, q, Some(b)) && WrittenFor(s, base, q, Some(b)) && r in rows
    ensures var order := SearchOrder(q.sort);
            && |Want(BoundaryOf(b, order))| == |order|
            && (BoundarySelects(s.boundary.value, s.texts, r) <==>
               Beyond(order, Want(BoundaryOf(b, order)), q.backwards)(r))
  {
    hide Clauses.WriteFilter, FilterMeaning.FilterOk, RowsSortAlike, SearchOrder, ClauseIs, BoundarySelects, Before;
    hide Beyond, Want, BoundaryOf, SqlBoundaryOf, Sortable, NoIdYet, Cells, Keys;
    var order := SearchOrder(q.sort);
    BoundaryYears(order, b, r);
    EndsInId(order);
    ClauseIsStrictlyLater(s.boundary.value, s.texts, order, b, q.backwards, r);
    WantIsKeys(b, order);
    BeyondIsLater(b, order, r, q.backwards);
    SearchersAgree(order, b, r);
    SearchersAgree(order, r, b);
  }

  lemma BoundaryYears(order: seq<SortBy>, b: Row, r: Row)
    requires RowsSortAlike(order, b, r)
    ensures InYearsBy(order, b)
  {
  }

  lemma EndsInId(order: seq<SortBy>)
    requires order != [] && order[|order| - 1].field == SORT_ID
    ensures IdLast(order)
  {
    assert |SORT_ID| == 2 && |SORT_OCCURRED_AT| > 2 && |SORT_RECORDED_AT| > 2;
    assert |SORT_ACTION| > 2 && |SORT_TENANT_ID| > 2 && |SORT_SOURCE| > 2;
  }

  /** The query as it is put to the memory: with that searcher's cursor. */
  function Asked(q: Query, b: Option<Row>): Query
  {
    q.(after := if b.Some? then Some(BoundaryOf(b.value, SearchOrder(q.sort))) else None)
  }

  ghost predicate Beyonds(q: Query, b: Option<Row>, r: Row)
  {
    b.Some? ==>
      var want := Want(BoundaryOf(b.value, SearchOrder(q.sort)));
      |SearchOrder(q.sort)| <= |want| && Beyond(SearchOrder(q.sort), want, q.backwards)(r)
  }

  lemma ChosenIsWanted(rows: seq<Row>, s: Select, base: seq<Clauses.Arg>, q: Query, b: Option<Row>, r: Row)
    requires Comparable(rows, q, b) && WrittenFor(s, base, q, b) && r in rows
    ensures Chosen(s, q)(r) <==> Wanted(q)(r) && Beyonds(q, b, r)
  {
    hide Comparable, Granted, Matches, Beyond, Want, BoundaryOf, SearchOrder;
    FilterAgrees(rows, s, base, q, b, r);
    if b.Some? { BoundaryAgrees(rows, s, base, q, b.value, r); }
    WrittenBoundary(s, base, q, b);
    hide WrittenFor;
  }

  lemma WrittenBoundary(s: Select, base: seq<Clauses.Arg>, q: Query, b: Option<Row>)
    requires WrittenFor(s, base, q, b)
    ensures s.boundary.Some? <==> b.Some?
  {
  }

  // ----- in the same order

  lemma ListedIsSooner(order: seq<SortBy>, backwards: bool, x: Row, y: Row)
    requires Sortable(order) && RowsSortAlike(order, x, y) && RowsSortAlike(order, y, x)
    ensures Listed(order, backwards)(x, y) == if backwards then Sooner(order)(y, x) else Sooner(order)(x, y)
  {
    hide RowsSortAlike, Before, Cells, Keys;
    SearchersAgree(order, x, y);
    SearchersAgree(order, y, x);
    FlipTurns(CellLess(), Down(order), Cells(order, x), Cells(order, y));
    var k, l := Cells(order, x), Cells(order, y);
    assert Listed(order, backwards)(x, y) == Before(CellLess(), Directions(order, backwards), k, l);
    assert Sooner(order)(x, y) == Before(CellLess(), Down(order), k, l);
    assert Sooner(order)(y, x) == Before(CellLess(), Down(order), l, k);
  }

  lemma ListedIsStrict(order: seq<SortBy>, backwards: bool)
    requires Sortable(order)
    ensures Strict(Listed(order, backwards))
  {
    hide Before, Cells, Directions, CellLess;
    CellsAreLinear();
    var less, down := Listed(order, backwards), Directions(order, backwards);
    forall a ensures !less(a, a) { BeforeIrreflexive(CellLess(), down, Cells(order, a)); }
    forall a, b, c | less(a, b) && less(b, c) ensures less(a, c) {
      BeforeTransitive(CellLess(), down, Cells(order, a), Cells(order, b), Cells(order, c));
    }
  }

  /** Rows that sort alike are listed as they are sorted in memory, or in turn
      from the end when read backwards. */
  lemma SortsAgree(order: seq<SortBy>, backwards: bool, rows: seq<Row>)
    requires Sortable(order) && Names(order, SORT_ID) && DistinctIds(rows)
    requires forall x, y :: x in rows && y in rows ==> RowsSortAlike(order, x, y)
    ensures var sorted := Sort(Listed(order, backwards), rows);
            Ascending(Sooner(order), if backwards then Reversed(sorted) else sorted)
  {
    hide RowsSortAlike, Sooner, Listed, Sort, Reversed;
    var less := Listed(order, backwards);
    forall i, j | 0 <= i < j < |rows| ensures less(rows[i], rows[j]) || less(rows[j], rows[i]) {
      assert rows[i] in rows && rows[j] in rows;
      ListedIsSooner(order, backwards, rows[i], rows[j]);
      ListedIsSooner(order, backwards, rows[j], rows[i]);
      IdsSeparate(order, rows[i], rows[j]);
    }
    ListedIsStrict(order, backwards);
    SortAscends(less, rows);
    var sorted := Sort(less, rows);
    forall i, j | 0 <= i < j < |sorted|
      ensures if backwards then Sooner(order)(sorted[j], sorted[i]) else Sooner(order)(sorted[i], sorted[j])
    {
      assert sorted[i] in sorted && sorted[j] in sorted && less(sorted[i], sorted[j]);
      ListedIsSooner(order, backwards, sorted[i], sorted[j]);
    }
  }

  lemma ReversedMembers<T(!new)>(s: seq<T>)
    ensures forall x :: x in Reversed(s) <==> x in s
    ensures Reversed(Reversed(s)) == s
  {
    hide Reversed;
    forall x ensures x in Reversed(s) <==> x in s {
      if i :| 0 <= i < |s| && s[i] == x { assert Reversed(s)[|s| - 1 - i] == x; }
      if i :| 0 <= i < |s| && Reversed(s)[i] == x { assert s[|s| - 1 - i] == x; }
    }
  }

  lemma {:induction false} DistinctFilter(p: Row -> bool, rows: seq<Row>)
    requires DistinctIds(rows)
    ensures DistinctIds(Filter(p, rows))
  {
    if rows != [] {
      var n := |rows| - 1;
      DistinctFilter(p, rows[..n]);
      assert Filter(p, rows) == Filter(p, rows[..n]) + (if p(rows[n]) then [rows[n]] else []);
      hide Filter;
      assert forall i :: 0 <= i < |Filter(p, rows[..n])| ==> Filter(p, rows[..n])[i] in Filter(p, rows[..n]);
      forall x | x in Filter(p, rows[..n]) ensures x.id != rows[n].id {
        var i :| 0 <= i < n && rows[..n][i] == x;
        assert rows[i] == x;
      }
    }
  }

  /** What memory has left past its boundary. */
  lemma RestOf(rows: seq<Row>, q: Query, b: Option<Row>)
    requires DistinctIds(rows)
    ensures var asked := Asked(q, b);
            && (asked.after.Some? ==> |SearchOrder(asked.sort)| - 1 <= |asked.after.value.values|)
            && Ascending(Sooner(SearchOrder(q.sort)), PastBoundary(rows, asked))
            && forall r :: r in PastBoundary(rows, asked) <==> r in rows && Wanted(q)(r) && Beyonds(q, b, r)
  {
    hide Sort, Filter, SearchOrder, Sooner, Keys, Granted, Matches, Beyond;
    var order := SearchOrder(q.sort);
    var less := Sooner(order);
    SoonerIsStrict(order);
    OrderIsTotal(order, rows);
    var asked := Asked(q, b);
    FilterSeparates(less, Wanted(asked), rows);
    SortAscends(less, Filter(Wanted(asked), rows));
    if b.Some? {
      WantIsKeys(b.value, order);
      FilterAscends(less, Beyond(order, Want(BoundaryOf(b.value, order)), q.backwards),
          Sort(less, Filter(Wanted(asked), rows)));
    }
  }

  /** What the statement lists is what memory has left, from the end when it is
      read backwards. */
  lemma ListsTheRest(rows: seq<Row>, s: Select, base: seq<Clauses.Arg>, q: Query, b: Option<Row>)
    requires Comparable(rows, q, b) && WrittenFor(s, base, q, b)
    ensures var asked := Asked(q, b);
            && (asked.after.Some? ==> |SearchOrder(asked.sort)| - 1 <= |asked.after.value.values|)
            && var rest := PastBoundary(rows, asked);
               Sort(Listed(SearchOrder(q.sort), q.backwards), Filter(Chosen(s, q), rows))
               == if q.backwards then Reversed(rest) else rest
  {
    hide Sort, Filter, SearchOrder, Sooner, Listed, Chosen, Wanted;
    hide Beyonds, PastBoundary, WrittenFor, RowsSortAlike, Sortable;
    hide Reversed, NoIdYet, FilterMeaning.FilterOk;
    var order := SearchOrder(q.sort);
    var chosen := Filter(Chosen(s, q), rows);
    var sorted := Sort(Listed(order, q.backwards), chosen);
    DistinctFilter(Chosen(s, q), rows);
    SortsAgree(order, q.backwards, chosen);
    RestOf(rows, q, b);
    var rest := PastBoundary(rows, Asked(q, b));
    var forward := if q.backwards then Reversed(sorted) else sorted;
    ReversedMembers(sorted);
    forall r ensures r in forward <==> r in rest {
      if r in rows { ChosenIsWanted(rows, s, base, q, b, r); }
    }
    SoonerIsStrict(order);
    SameMembers(Sooner(order), forward, rest);
  }

  /** The page of the database is the page of the memory: the same rows, and the
      same answer to whether there are more. */
  lemma DatabaseIsMemory(rows: seq<Row>, s: Select, base: seq<Clauses.Arg>, q: Query, b: Option<Row>)
    requires Comparable(rows, q, b) && WrittenFor(s, base, q, b)
    ensures var asked := Asked(q, b);
            && (asked.after.Some? ==> |SearchOrder(asked.sort)| - 1 <= |asked.after.value.values|)
            && var fetched := Fetched(rows, s, q);
               && Assembled(fetched, Limit(q.limit), q.backwards) == Found(rows, asked).rows
               && (|fetched| > Limit(q.limit) <==> Found(rows, asked).more)
  {
    hide Sort, Filter, SearchOrder, Listed, Chosen, PastBoundary, WrittenFor;
    hide BoundaryOf, Limit, Comparable, Cut, Assembled;
    assert Sortable(SearchOrder(q.sort)) by { OrderIsSortable(rows, q, b); }
    ListsTheRest(rows, s, base, q, b);
    CutsAgree(PastBoundary(rows, Asked(q, b)), Limit(q.limit), q.backwards);
  }

  lemma OrderIsSortable(rows: seq<Row>, q: Query, b: Option<Row>)
    requires Comparable(rows, q, b)
    ensures Sortable(SearchOrder(q.sort))
  {
  }

  lemma CutsAgree(rest: seq<Row>, limit: nat, backwards: bool)
    ensures var all := if backwards then Reversed(rest) else rest;
            var fetched := if |all| > limit + 1 then all[..limit + 1] else all;
            && Assembled(fetched, limit, backwards) == Cut(rest, backwards, limit)
            && (|fetched| > limit <==> |rest| > limit)
  {
    hide Reversed;
    var all := if backwards then Reversed(rest) else rest;
    if |all| > limit + 1 { assert all[..limit + 1][..limit] == all[..limit]; }
  }
}
