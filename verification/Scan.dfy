/** index/s3scan/s3scan.go: a search that reads the archive a day at a time,
    under a budget, and hands back a cursor when it has spent it.

    An object is the rows of it that a query grants and matches; a row carries
    the ingest day its object's key names. A cursor is an ingest day and a place
    in the day's order; the moment zero in one is no place, which is what a
    budget that ran out before the day leaves. The clock is an oracle: whether
    the deadline had passed when a day was reached. */
module Scan {
  import opened Options
  import Lex
  import opened Ordering

  datatype ScanRow = ScanRow(day: int, occurred: int, id: string)

  datatype Object = Object(rows: seq<ScanRow>)

  /** What was asked, and of what: the days of the window, which way they are
      walked, the page's limit and the objects one request may read. */
  datatype Archive = Archive(objects: int -> seq<Object>, from: int, to: int, descending: bool, limit: nat, budget: nat)

  datatype Cursor = Cursor(day: int, occurred: int, id: string)

  const NO_MOMENT := 0

  datatype Answer =
    | Page(rows: seq<ScanRow>, more: bool, next: Option<Cursor>)
    | OverBudget(day: int)

  // ----- the order

  /** A day the walk reaches later. */
  predicate LaterDay(descending: bool, a: int, b: int)
  {
    if descending then b < a else a < b
  }

  predicate RowBefore(descending: bool, a: ScanRow, b: ScanRow)
  {
    if a.day != b.day then LaterDay(descending, a.day, b.day)
    else if a.occurred != b.occurred then (if descending then b.occurred < a.occurred else a.occurred < b.occurred)
    else Lex.Less(a.id, b.id)
  }

  function Walked(descending: bool): Order<ScanRow>
  {
    (a: ScanRow, b: ScanRow) => RowBefore(descending, a, b)
  }

  lemma WalkedIsStrict(descending: bool)
    ensures Strict(Walked(descending))
  {
    forall a: ScanRow ensures !RowBefore(descending, a, a) { Lex.Irreflexive(a.id); }
    forall a: ScanRow, b: ScanRow, c: ScanRow | RowBefore(descending, a, b) && RowBefore(descending, b, c)
      ensures RowBefore(descending, a, c)
    {
      if a.id != b.id && b.id != c.id && Lex.Less(a.id, b.id) && Lex.Less(b.id, c.id) {
        Lex.Transitive(a.id, b.id, c.id);
      }
    }
  }

  function Days(a: Archive): (d: seq<int>)
    requires a.from <= a.to + 1
    ensures |d| == a.to + 1 - a.from
    ensures forall i :: 0 <= i < |d| ==> d[i] == if a.descending then a.to - i else a.from + i
  {
    seq(a.to + 1 - a.from, i => if a.descending then a.to - i else a.from + i)
  }

  function Unsorted(objects: seq<Object>): seq<ScanRow>
  {
    if objects == [] then [] else Unsorted(objects[..|objects| - 1]) + objects[|objects| - 1].rows
  }

  function DayRows(a: Archive, day: int): seq<ScanRow>
  {
    Sort(Walked(a.descending), Unsorted(a.objects(day)))
  }

  /** All rows of some days, in the order they are walked. */
  function Listing(a: Archive, days: seq<int>): seq<ScanRow>
  {
    if days == [] then [] else Listing(a, days[..|days| - 1]) + DayRows(a, days[|days| - 1])
  }

  function Everything(a: Archive): seq<ScanRow>
    requires a.from <= a.to + 1
  {
    Listing(a, Days(a))
  }

  /** An archive as it is: every row is under its own day, and no identifier is
      twice in a day. */
  ghost predicate Sound(a: Archive)
  {
    && a.from <= a.to + 1 && 0 < a.limit
    && forall day ::
         && (forall r :: r in Unsorted(a.objects(day)) ==> r.day == day)
         && (forall i, j :: 0 <= i < j < |Unsorted(a.objects(day))| ==>
               Unsorted(a.objects(day))[i].id != Unsorted(a.objects(day))[j].id)
  }

  lemma HasDays(a: Archive)
    requires Sound(a)
    ensures a.from <= a.to + 1 && 0 < a.limit
  {
  }

  // ----- a cursor

  /** `beyond`: past the cursor within its day. */
  predicate Beyond(descending: bool, r: ScanRow, c: Cursor)
  {
    || c.occurred == NO_MOMENT
    || (if r.occurred != c.occurred then (if descending then r.occurred < c.occurred else c.occurred < r.occurred)
        else Lex.Less(c.id, r.id))
  }

  /** Still owed after a cursor: a later day's row, or one past it in its day. */
  function Owed(descending: bool, c: Option<Cursor>): ScanRow -> bool
  {
    (r: ScanRow) =>
        c.None? || LaterDay(descending, c.value.day, r.day) || (r.day == c.value.day && Beyond(descending, r, c.value))
  }

  function Remaining(a: Archive, c: Option<Cursor>): seq<ScanRow>
    requires a.from <= a.to + 1
  {
    Filter(Owed(a.descending, c), Everything(a))
  }

  function CursorOf(r: ScanRow): Cursor
  {
    Cursor(r.day, r.occurred, r.id)
  }

  function DayCursor(day: int): Cursor
  {
    Cursor(day, NO_MOMENT, "")
  }

  /** Days the walk has not passed. */
  function Ahead(descending: bool, c: Option<Cursor>): int -> bool
  {
    day => c.None? || !LaterDay(descending, day, c.value.day)
  }

  function DaysLeft(a: Archive, c: Option<Cursor>): nat
    requires a.from <= a.to + 1
  {
    |Filter(Ahead(a.descending, c), Days(a))|
  }

  /** The cursor an answer gives leaves exactly the rows it has not given, and
      less to do. */
  ghost predicate Resumes(a: Archive, c: Option<Cursor>, p: Answer)
    requires a.from <= a.to + 1 && p.Page? && p.rows <= Remaining(a, c)
  {
    && Remaining(a, p.next) == Remaining(a, c)[|p.rows|..]
    && DaysLeft(a, p.next) + |Remaining(a, p.next)| < DaysLeft(a, c) + |Remaining(a, c)|
  }

  /** An answer that stopped on its limit, at a row that happened at the moment
      that stands for none. */
  predicate EndsAtNoMoment(p: Answer)
    requires p.Page?
  {
    && p.more && p.rows != [] && p.rows[|p.rows| - 1].occurred == NO_MOMENT
    && p.next == Some(CursorOf(p.rows[|p.rows| - 1]))
  }

  /** What is owed when a whole day is, and all that follow. */
  ghost predicate OwesDay(a: Archive, c: Option<Cursor>, day: int)
    requires a.from <= a.to + 1
  {
    forall r :: r in Remaining(a, c) <==> r in Everything(a) && !LaterDay(a.descending, r.day, day)
  }

  /** What an answer owes its caller: the next rows in order and, when there are
      more, a cursor that resumes after them; or, from a row at the moment that
      stands for none, one that begins the row's day again. */
  ghost predicate Answers(a: Archive, c: Option<Cursor>, p: Answer)
    requires a.from <= a.to + 1
  {
    && p.Page?
    && p.rows <= Remaining(a, c)
    && (!p.more ==> p.rows == Remaining(a, c))
    && (p.more ==> p.next.Some?)
    && (p.more ==> if EndsAtNoMoment(p) then OwesDay(a, p.next, p.rows[|p.rows| - 1].day) else Resumes(a, c, p))
  }

  /** Where an answer with more to come stops: at the row its limit cuts off, or
      before a day with objects that follows one it read. */
  ghost predicate Stops(a: Archive, c: Option<Cursor>, p: Answer)
    requires p.Page? && a.from <= a.to + 1
  {
    || (|p.rows| == a.limit && p.rows != [] && p.next == Some(CursorOf(p.rows[|p.rows| - 1])))
    || exists i, j ::
         && 0 <= i < j < |Days(a)|
         && p.next == Some(DayCursor(Days(a)[j])) && Read(a, c, Days(a)[i], Days(a)[j])
  }

  predicate Read(a: Archive, c: Option<Cursor>, day: int, next: int)
  {
    Ahead(a.descending, c)(day) && a.objects(day) != [] && a.objects(next) != []
  }

  /** What a request gives. */
  ghost predicate Given(a: Archive, c: Option<Cursor>, p: Answer)
    requires a.from <= a.to + 1
  {
    Answers(a, c, p) && |p.rows| <= a.limit && (p.more ==> Stops(a, c, p))
  }

  // ----- the budget

  /** The objects of the first days of the walk that the cursor has not passed. */
  ghost function Spent(a: Archive, c: Option<Cursor>, i: nat): nat
    requires a.from <= a.to + 1 && i <= |Days(a)|
  {
    if i == 0 then 0
    else Spent(a, c, i - 1) + if Ahead(a.descending, c)(Days(a)[i - 1]) then |a.objects(Days(a)[i - 1])| else 0
  }

  /** A day the walk has not passed, with objects. */
  ghost predicate Due(a: Archive, c: Option<Cursor>, i: nat)
    requires a.from <= a.to + 1 && i < |Days(a)|
  {
    Ahead(a.descending, c)(Days(a)[i]) && a.objects(Days(a)[i]) != []
  }

  /** A day before which a request ends: it has read something, and the day would
      pass the budget or comes too late. */
  ghost predicate EndsBefore(a: Archive, c: Option<Cursor>, late: int -> bool, i: nat)
    requires a.from <= a.to + 1 && i < |Days(a)|
  {
    Due(a, c, i) && Spent(a, c, i) > 0 && (Spent(a, c, i + 1) > a.budget || late(Days(a)[i]))
  }

  /** The first day that a request would read holds more than the budget. */
  ghost predicate FirstIsTooBig(a: Archive, c: Option<Cursor>, i: nat)
    requires a.from <= a.to + 1 && i < |Days(a)|
  {
    Due(a, c, i) && |a.objects(Days(a)[i])| > a.budget && forall j :: 0 <= j < i ==> !Due(a, c, j)
  }

  /** A page that read the first days of the walk: no more objects than the budget,
      past no day it should have ended before, and stopped by one, by its limit on
      the last of them, or by the end of the walk. */
  ghost predicate ReadUpTo(a: Archive, c: Option<Cursor>, late: int -> bool, n: nat, p: Answer)
    requires a.from <= a.to + 1 && n <= |Days(a)| && p.Page?
  {
    && Spent(a, c, n) <= a.budget && (forall i :: 0 <= i < n ==> !EndsBefore(a, c, late, i))
    && (!p.more ==> n == |Days(a)|)
    && (p.more ==>
          || (n < |Days(a)| && EndsBefore(a, c, late, n) && p.next == Some(DayCursor(Days(a)[n])))
          || (n > 0 && Due(a, c, n - 1) && Overflows(a, c, n) && p.rows != []
              && p.next == Some(CursorOf(p.rows[|p.rows| - 1]))))
  }

  /** More is owed of the first days of the walk than a page takes. */
  ghost predicate Overflows(a: Archive, c: Option<Cursor>, n: nat)
    requires a.from <= a.to + 1 && n <= |Days(a)|
  {
    |Taken(a, c, n)| > a.limit
  }

  lemma {:induction false} NothingSpent(a: Archive, c: Option<Cursor>, i: nat)
    requires a.from <= a.to + 1 && i <= |Days(a)|
    ensures Spent(a, c, i) == 0 <==> forall j :: 0 <= j < i ==> !Due(a, c, j)
  {
    if i > 0 {
      NothingSpent(a, c, i - 1);
      SpentStep(a, c, i - 1);
      hide Spent, Due;
      if Due(a, c, i - 1) { HasObjects(a, c, i - 1); }
    }
  }

  lemma SpentStep(a: Archive, c: Option<Cursor>, i: nat)
    requires a.from <= a.to + 1 && i < |Days(a)|
    ensures Spent(a, c, i + 1) == Spent(a, c, i) + if Due(a, c, i) then |a.objects(Days(a)[i])| else 0
  {
  }

  lemma HasObjects(a: Archive, c: Option<Cursor>, i: nat)
    requires a.from <= a.to + 1 && i < |Days(a)| && Due(a, c, i)
    ensures |a.objects(Days(a)[i])| > 0
  {
  }

  // ----- listings are in order

  lemma DayIsSeparated(a: Archive, day: int)
    requires Sound(a)
    ensures Separates(Walked(a.descending), Unsorted(a.objects(day)))
  {
    var rows := Unsorted(a.objects(day));
    forall i, j | 0 <= i < j < |rows|
      ensures Walked(a.descending)(rows[i], rows[j]) || Walked(a.descending)(rows[j], rows[i])
    {
      assert rows[i] in rows && rows[j] in rows;
      Lex.Total(rows[i].id, rows[j].id);
    }
  }

  lemma DayAscends(a: Archive, day: int)
    requires Sound(a)
    ensures Ascending(Walked(a.descending), DayRows(a, day))
    ensures forall r :: r in DayRows(a, day) ==> r.day == day
  {
    hide Unsorted, Sort, Walked;
    WalkedIsStrict(a.descending);
    DayIsSeparated(a, day);
    SortAscends(Walked(a.descending), Unsorted(a.objects(day)));
  }

  lemma {:induction false} ListingAscends(a: Archive, days: seq<int>)
    requires Sound(a)
    requires forall i, j :: 0 <= i < j < |days| ==> LaterDay(a.descending, days[i], days[j])
    ensures Ascending(Walked(a.descending), Listing(a, days))
    ensures forall r :: r in Listing(a, days) ==> r.day in days
  {
    hide DayRows, Sound;
    if days != [] {
      var n := |days| - 1;
      var rest := Listing(a, days[..n]);
      assert Listing(a, days) == rest + DayRows(a, days[n]);
      hide Listing;
      ListingAscends(a, days[..n]);
      DayAscends(a, days[n]);
      assert days == days[..n] + [days[n]];
      forall i, j | 0 <= i < |rest| && 0 <= j < |DayRows(a, days[n])|
        ensures Walked(a.descending)(rest[i], DayRows(a, days[n])[j])
      {
        assert rest[i] in rest && DayRows(a, days[n])[j] in DayRows(a, days[n]);
        var k :| 0 <= k < n && days[..n][k] == rest[i].day;
        assert days[k] == rest[i].day;
      }
    }
  }

  lemma DaysInOrder(a: Archive)
    requires a.from <= a.to + 1
    ensures forall i, j :: 0 <= i < j < |Days(a)| ==> LaterDay(a.descending, Days(a)[i], Days(a)[j])
  {
  }

  lemma FilterLast<T(!new)>(p: T -> bool, s: seq<T>, x: T)
    ensures Filter(p, s + [x]) == Filter(p, s) + (if p(x) then [x] else [])
  {
    assert (s + [x])[..|s + [x]| - 1] == s;
  }

  lemma {:induction false} FilterConcat<T(!new)>(p: T -> bool, a: seq<T>, b: seq<T>)
    ensures Filter(p, a + b) == Filter(p, a) + Filter(p, b)
  {
    if b == [] {
      assert a + b == a;
    } else {
      hide Filter;
      var n := |b| - 1;
      var front, x := b[..n], b[n];
      assert b == front + [x] && a + b == (a + front) + [x];
      FilterConcat(p, a, front);
      FilterLast(p, front, x);
      FilterLast(p, a + front, x);
      Regroup(Filter(p, a), Filter(p, front), if p(x) then [x] else []);
    }
  }

  lemma Split<T>(x: seq<T>, y: seq<T>)
    ensures x <= x + y && (x + y)[|x|..] == y
  {
  }

  lemma ListingLast(a: Archive, days: seq<int>, day: int)
    ensures Listing(a, days + [day]) == Listing(a, days) + DayRows(a, day)
  {
    hide DayRows;
    assert (days + [day])[..|days + [day]| - 1] == days;
  }

  lemma {:induction false} ListingConcat(a: Archive, x: seq<int>, y: seq<int>)
    ensures Listing(a, x + y) == Listing(a, x) + Listing(a, y)
  {
    hide DayRows;
    if y == [] {
      assert x + y == x;
    } else {
      hide Listing;
      var n := |y| - 1;
      var front, day := y[..n], y[n];
      assert y == front + [day] && x + y == (x + front) + [day];
      ListingConcat(a, x, front);
      ListingLast(a, front, day);
      ListingLast(a, x + front, day);
      Regroup(Listing(a, x), Listing(a, front), DayRows(a, day));
    }
  }

  lemma {:induction false} FilterNone<T(!new)>(p: T -> bool, s: seq<T>)
    requires forall x :: x in s ==> !p(x)
    ensures Filter(p, s) == []
  {
    if s != [] {
      assert s == s[..|s| - 1] + [s[|s| - 1]];
      FilterNone(p, s[..|s| - 1]);
    }
  }

  lemma {:induction false} FilterEvery<T(!new)>(p: T -> bool, s: seq<T>)
    requires forall x :: x in s ==> p(x)
    ensures Filter(p, s) == s
  {
    if s != [] {
      assert s == s[..|s| - 1] + [s[|s| - 1]];
      FilterEvery(p, s[..|s| - 1]);
    }
  }

  lemma {:induction false} FilterFewer<T(!new)>(p: T -> bool, q: T -> bool, s: seq<T>)
    requires forall x :: x in s && p(x) ==> q(x)
    ensures |Filter(p, s)| <= |Filter(q, s)|
    ensures (exists x :: x in s && q(x) && !p(x)) ==> |Filter(p, s)| < |Filter(q, s)|
  {
    if s != [] {
      assert s == s[..|s| - 1] + [s[|s| - 1]];
      FilterFewer(p, q, s[..|s| - 1]);
    }
  }

  // ----- what a cursor leaves

  lemma RemainingAscends(a: Archive, c: Option<Cursor>)
    requires Sound(a)
    ensures Ascending(Walked(a.descending), Everything(a)) && Ascending(Walked(a.descending), Remaining(a, c))
  {
    hide Listing, Filter, DayRows, Unsorted, Walked;
    DaysInOrder(a);
    ListingAscends(a, Days(a));
    FilterAscends(Walked(a.descending), Owed(a.descending, c), Everything(a));
  }

  /** After a row of what remains, exactly the rest of it remains, if and only if
      the row did not happen at the moment that stands for none. */
  lemma AfterARow(a: Archive, c: Option<Cursor>, n: nat)
    requires Sound(a) && n < |Remaining(a, c)|
    ensures Remaining(a, Some(CursorOf(Remaining(a, c)[n]))) == Remaining(a, c)[n + 1..]
       <==> Remaining(a, c)[n].occurred != NO_MOMENT
  {
    HasDays(a);
    hide Sound, Listing, Filter, Everything, Walked, Owed;
    var r := Remaining(a, c)[n];
    assert r in Remaining(a, c);
    WalkedIsStrict(a.descending);
    RemainingAscends(a, c);
    if r.occurred == NO_MOMENT {
      NoMomentRepeats(r, a.descending);
      NotInTail(Walked(a.descending), Remaining(a, c), n);
    } else {
      AfterAMoment(a, c, n);
    }
  }

  lemma NotInTail<T(!new)>(less: Order<T>, s: seq<T>, n: nat)
    requires Strict(less) && Ascending(less, s) && n < |s|
    ensures s[n] !in s[n + 1..]
  {
    forall i | n < i < |s| ensures s[i] != s[n] { assert less(s[n], s[i]); }
  }

  lemma AfterAMoment(a: Archive, c: Option<Cursor>, n: nat)
    requires Sound(a) && n < |Remaining(a, c)| && Remaining(a, c)[n].occurred != NO_MOMENT
    ensures Remaining(a, Some(CursorOf(Remaining(a, c)[n]))) == Remaining(a, c)[n + 1..]
  {
    HasDays(a);
    hide Sound, Filter, Everything, Walked, Owed, CursorOf;
    WalkedIsStrict(a.descending);
    RemainingAscends(a, c);
    var r := Remaining(a, c)[n];
    assert r in Remaining(a, c);
    var p, q := Owed(a.descending, c), Owed(a.descending, Some(CursorOf(r)));
    forall x ensures (q(x) <==> Walked(a.descending)(r, x)) && (Walked(a.descending)(r, x) ==> p(x)) {
      OwedAfterRow(a.descending, c, r, x);
    }
    TailOfUpper(Walked(a.descending), p, q, Everything(a), n);
  }

  /** Of a listing that a predicate keeps the later part of, what follows one of
      its members is the rest of it. */
  lemma TailOfUpper<T(!new)>(less: Order<T>, p: T -> bool, q: T -> bool, all: seq<T>, n: nat)
    requires Strict(less) && Ascending(less, all) && n < |Filter(p, all)|
    requires forall x :: (q(x) <==> less(Filter(p, all)[n], x)) && (less(Filter(p, all)[n], x) ==> p(x))
    ensures Filter(q, all) == Filter(p, all)[n + 1..]
  {
    hide Filter;
    var rest, tail := Filter(p, all), Filter(q, all);
    FilterAscends(less, p, all);
    FilterAscends(less, q, all);
    forall x ensures x in tail <==> x in rest[n + 1..] {
      if x in tail {
        assert x in rest;
        var i :| 0 <= i < |rest| && rest[i] == x;
        assert n < i;
        assert rest[n + 1..][i - n - 1] == x;
      }
      if x in rest[n + 1..] {
        var i :| 0 <= i < |rest[n + 1..]| && rest[n + 1..][i] == x;
        assert rest[n + 1 + i] == x && x in rest;
      }
    }
    SameMembers(less, tail, rest[n + 1..]);
  }

  /** After a row at no moment, its whole day remains. */
  lemma AfterNoMoment(a: Archive, r: ScanRow)
    requires a.from <= a.to + 1 && r.occurred == NO_MOMENT
    ensures OwesDay(a, Some(CursorOf(r)), r.day)
  {
    hide Filter, Everything;
  }

  lemma OwedAfterRow(descending: bool, c: Option<Cursor>, r: ScanRow, x: ScanRow)
    requires r.occurred != NO_MOMENT && Owed(descending, c)(r)
    ensures Owed(descending, Some(CursorOf(r)))(x) <==> Walked(descending)(r, x)
    ensures Walked(descending)(r, x) ==> Owed(descending, c)(x)
  {
    if Walked(descending)(r, x) && c.Some? && x.day == r.day == c.value.day &&
        c.value.occurred == r.occurred == x.occurred {
      Lex.Transitive(c.value.id, r.id, x.id);
    }
  }

  lemma FrontIsPassed(a: Archive, i: nat)
    requires Sound(a) && i < |Days(a)|
    ensures forall r :: r in Listing(a, Days(a)[..i]) ==> LaterDay(a.descending, r.day, Days(a)[i])
  {
    HasDays(a);
    hide Sound, Listing;
    var days := Days(a);
    DaysInOrder(a);
    ListingAscends(a, days[..i]);
    forall r | r in Listing(a, days[..i]) ensures LaterDay(a.descending, r.day, days[i]) {
      var k :| 0 <= k < i && days[..i][k] == r.day;
      assert days[k] == r.day;
    }
  }

  lemma BackIsAhead(a: Archive, i: nat)
    requires Sound(a) && i < |Days(a)|
    ensures forall r :: r in Listing(a, Days(a)[i..]) ==>
            r.day == Days(a)[i] || LaterDay(a.descending, Days(a)[i], r.day)
  {
    HasDays(a);
    hide Sound, Listing;
    var days := Days(a);
    DaysInOrder(a);
    ListingAscends(a, days[i..]);
    forall r | r in Listing(a, days[i..]) ensures r.day == days[i] || LaterDay(a.descending, days[i], r.day) {
      var k :| 0 <= k < |days[i..]| && days[i..][k] == r.day;
      assert days[i + k] == r.day;
    }
  }

  lemma ListingIsBoth(a: Archive, i: nat, p: ScanRow -> bool)
    requires a.from <= a.to + 1 && i <= |Days(a)|
    ensures Filter(p, Everything(a)) == Filter(p, Listing(a, Days(a)[..i])) + Filter(p, Listing(a, Days(a)[i..]))
  {
    hide Listing, Filter, DayRows;
    var days := Days(a);
    assert days == days[..i] + days[i..];
    ListingConcat(a, days[..i], days[i..]);
    FilterConcat(p, Listing(a, days[..i]), Listing(a, days[i..]));
  }

  lemma OwedOfDay(descending: bool, c: Option<Cursor>, day: int, r: ScanRow)
    requires c.Some? ==> LaterDay(descending, c.value.day, day)
    ensures LaterDay(descending, r.day, day) ==> !Owed(descending, Some(DayCursor(day)))(r)
    ensures r.day == day || LaterDay(descending, day, r.day) ==>
            Owed(descending, Some(DayCursor(day)))(r) && Owed(descending, c)(r)
  {
  }

  /** Before a day that comes after the cursor's, the day and all that follow
      remain in full. */
  lemma BeforeADay(a: Archive, c: Option<Cursor>, i: nat)
    requires Sound(a) && i < |Days(a)| && (c.Some? ==> LaterDay(a.descending, c.value.day, Days(a)[i]))
    ensures Remaining(a, Some(DayCursor(Days(a)[i]))) == Listing(a, Days(a)[i..])
    ensures Remaining(a, c) == Filter(Owed(a.descending, c), Listing(a, Days(a)[..i])) + Listing(a, Days(a)[i..])
  {
    HasDays(a);
    hide Sound, Listing, Filter, Everything, Owed, Days, DayCursor, LaterDay;
    var day := Days(a)[i];
    var front, back := Listing(a, Days(a)[..i]), Listing(a, Days(a)[i..]);
    var p, q := Owed(a.descending, Some(DayCursor(day))), Owed(a.descending, c);
    FrontIsPassed(a, i);
    BackIsAhead(a, i);
    forall r | r in front ensures !p(r) { OwedOfDay(a.descending, c, day, r); }
    forall r | r in back ensures p(r) && q(r) { OwedOfDay(a.descending, c, day, r); }
    ListingIsBoth(a, i, p);
    ListingIsBoth(a, i, q);
    FilterNone(p, front);
    FilterEvery(p, back);
    FilterEvery(q, back);
  }

  lemma FewerDaysAfterRow(a: Archive, c: Option<Cursor>, n: nat)
    requires Sound(a) && n < |Remaining(a, c)|
    ensures DaysLeft(a, Some(CursorOf(Remaining(a, c)[n]))) <= DaysLeft(a, c)
  {
    hide Listing, Filter, Everything, Unsorted;
    var r := Remaining(a, c)[n];
    assert r in Remaining(a, c);
    FilterFewer(Ahead(a.descending, Some(CursorOf(r))), Ahead(a.descending, c), Days(a));
  }

  lemma FewerDaysAtDay(a: Archive, c: Option<Cursor>, j: nat, i: nat)
    requires a.from <= a.to + 1 && j < i < |Days(a)| && Ahead(a.descending, c)(Days(a)[j])
    ensures DaysLeft(a, Some(DayCursor(Days(a)[i]))) < DaysLeft(a, c)
  {
    hide Filter;
    DaysInOrder(a);
    var p, q := Ahead(a.descending, Some(DayCursor(Days(a)[i]))), Ahead(a.descending, c);
    assert LaterDay(a.descending, Days(a)[j], Days(a)[i]);
    assert Days(a)[j] in Days(a) && q(Days(a)[j]) && !p(Days(a)[j]);
    FilterFewer(p, q, Days(a));
  }

  // ----- the search

  /** What a cursor leaves owed of the first days of the walk. */
  ghost function Taken(a: Archive, c: Option<Cursor>, i: nat): seq<ScanRow>
    requires a.from <= a.to + 1 && i <= |Days(a)|
  {
    Filter(Owed(a.descending, c), Listing(a, Days(a)[..i]))
  }

  /** The rows of a day past the cursor, one by one, until the page overflows. */
  method TakeRows(rows: seq<ScanRow>, descending: bool, resume: Option<Cursor>, limit: nat, page: seq<ScanRow>)
    returns (out: seq<ScanRow>, full: bool)
    requires |page| <= limit
    requires resume.Some? ==> forall r :: r in rows ==>
              r.day == resume.value.day || LaterDay(descending, resume.value.day, r.day)
    ensures var all := page + Filter(Owed(descending, resume), rows);
            (full <==> |all| > limit) && out == if full then all[..limit] else all
  {
    hide Filter;
    out := page;
    ghost var p := Owed(descending, resume);
    assert rows[..0] == [];
    FilterNone(p, rows[..0]);
    var i := 0;
    while i < |rows|
      invariant 0 <= i <= |rows|
      invariant out == page + Filter(p, rows[..i]) && |out| <= limit
    {
      var r := rows[i];
      assert r in rows;
      assert rows[..i + 1] == rows[..i] + [r];
      FilterLast(p, rows[..i], r);
      if resume.Some? && r.day == resume.value.day && !Beyond(descending, r, resume.value) {
        i := i + 1;
        continue;
      }
      out := out + [r];
      if |out| > limit {
        assert rows == rows[..i + 1] + rows[i + 1..];
        FilterConcat(p, rows[..i + 1], rows[i + 1..]);
        return out[..limit], true;
      }
      i := i + 1;
    }
    assert rows[..i] == rows;
    full := false;
  }

  /** One request: days in turn, each read whole or not begun. */
  method Search(a: Archive, resume: Option<Cursor>, late: int -> bool) returns (p: Answer)
    requires Sound(a)
    ensures p.Page? ==> Given(a, resume, p)
    ensures p.Page? && !p.more ==> p.next == if p.rows == [] then resume else Some(CursorOf(p.rows[|p.rows| - 1]))
    ensures p.Page? ==> exists n :: 0 <= n <= |Days(a)| && ReadUpTo(a, resume, late, n, p)
    ensures p.OverBudget? <==> exists i :: 0 <= i < |Days(a)| && FirstIsTooBig(a, resume, i)
    ensures p.OverBudget? ==> exists i :: 0 <= i < |Days(a)| && FirstIsTooBig(a, resume, i) && p.day == Days(a)[i]
  {
    hide *;
    HasDays(a);
    var days := Days(a);
    var spent, rows := 0, [];
    ghost var read := 0;
    var i := 0;
    NothingYet(a, resume);
    NothingSpent(a, resume, 0);
    while i < |days|
      invariant 0 <= i <= |days| && |rows| <= a.limit
      invariant rows == Taken(a, resume, i)
      invariant spent == Spent(a, resume, i) <= a.budget
      invariant forall j :: 0 <= j < i ==> !EndsBefore(a, resume, late, j) && !FirstIsTooBig(a, resume, j)
      invariant spent > 0 ==> read < i && Ahead(a.descending, resume)(days[read]) && a.objects(days[read]) != []
    {
      var day := days[i];
      NextDay(a, resume, i);
      SpentStep(a, resume, i);
      DayIs(a, resume, late, i);
      NothingSpent(a, resume, i);
      if resume.Some? && LaterDay(a.descending, day, resume.value.day) {
        PassedDay(a, resume, day);
        i := i + 1;
        continue;
      }
      DayIsAhead(a, resume, day);
      var keys := a.objects(day);
      if |keys| == 0 {
        EmptyDay(a, Owed(a.descending, resume), day);
        i := i + 1;
        continue;
      }
      if spent > 0 && (spent + |keys| > a.budget || late(day)) {
        StopsAtDay(a, resume, read, i, rows);
        DayIsGiven(a, resume, read, i, rows);
        EndsAtDay(a, resume, late, i, rows);
        NoneTooBig(a, resume, i);
        return Answer.Page(rows, true, Some(DayCursor(day)));
      }
      if spent == 0 && |keys| > a.budget {
        return OverBudget(day);
      }
      spent := spent + |keys|;
      read := i;
      var full;
      rows, full := TakeRows(DayRows(a, day), a.descending, resume, a.limit, rows);
      if full {
        StopsFull(a, resume, i, rows);
        RowIsGiven(a, resume, rows);
        EndsAtRow(a, resume, late, i, rows);
        NoneTooBig(a, resume, i);
        return Answer.Page(rows, true, Some(CursorOf(rows[|rows| - 1])));
      }
      i := i + 1;
    }
    Finishes(a, resume, rows);
    EndIsGiven(a, resume, rows);
    EndsWalk(a, resume, late, rows);
    var next := if |rows| > 0 then Some(CursorOf(rows[|rows| - 1])) else resume;
    return Answer.Page(rows, false, next);
  }

  /** What a day is to a request that has come to it. */
  lemma DayIs(a: Archive, c: Option<Cursor>, late: int -> bool, i: nat)
    requires a.from <= a.to + 1 && i < |Days(a)|
    ensures Due(a, c, i) <==> Ahead(a.descending, c)(Days(a)[i]) && a.objects(Days(a)[i]) != []
    ensures EndsBefore(a, c, late, i) <==>
            Due(a, c, i) && Spent(a, c, i) > 0 && (Spent(a, c, i + 1) > a.budget || late(Days(a)[i]))
    ensures FirstIsTooBig(a, c, i) <==> Due(a, c, i) && |a.objects(Days(a)[i])| > a.budget && Spent(a, c, i) == 0
  {
    hide Spent, Ahead;
    NothingSpent(a, c, i);
  }

  lemma NoneTooBig(a: Archive, c: Option<Cursor>, k: nat)
    requires a.from <= a.to + 1 && k < |Days(a)| && Due(a, c, k) && forall j :: 0 <= j <= k ==> !FirstIsTooBig(a, c, j)
    ensures forall i :: 0 <= i < |Days(a)| ==> !FirstIsTooBig(a, c, i)
  {
    hide Due;
  }

  lemma EndsAtDay(a: Archive, c: Option<Cursor>, late: int -> bool, i: nat, rows: seq<ScanRow>)
    requires a.from <= a.to + 1 && i < |Days(a)| && EndsBefore(a, c, late, i) && Spent(a, c, i) <= a.budget
    requires forall j :: 0 <= j < i ==> !EndsBefore(a, c, late, j)
    ensures ReadUpTo(a, c, late, i, Answer.Page(rows, true, Some(DayCursor(Days(a)[i]))))
  {
    hide EndsBefore, Spent, Taken, Due;
  }

  lemma EndsAtRow(a: Archive, c: Option<Cursor>, late: int -> bool, i: nat, rows: seq<ScanRow>)
    requires a.from <= a.to + 1 && i < |Days(a)| && Due(a, c, i) && Spent(a, c, i + 1) <= a.budget && rows != []
    requires forall j :: 0 <= j <= i ==> !EndsBefore(a, c, late, j)
    requires |Taken(a, c, i + 1)| > a.limit
    ensures ReadUpTo(a, c, late, i + 1, Answer.Page(rows, true, Some(CursorOf(rows[|rows| - 1]))))
  {
    hide EndsBefore, Spent, Taken, Due;
  }

  lemma EndsWalk(a: Archive, c: Option<Cursor>, late: int -> bool, rows: seq<ScanRow>)
    requires a.from <= a.to + 1 && Spent(a, c, |Days(a)|) <= a.budget
    requires forall j :: 0 <= j < |Days(a)| ==> !EndsBefore(a, c, late, j)
    ensures forall next :: ReadUpTo(a, c, late, |Days(a)|, Answer.Page(rows, false, next))
  {
    hide EndsBefore, Spent, Taken, Due;
  }

  lemma DayIsGiven(a: Archive, c: Option<Cursor>, i: nat, j: nat, rows: seq<ScanRow>)
    requires a.from <= a.to + 1 && i < j < |Days(a)| && |rows| <= a.limit
    requires Ahead(a.descending, c)(Days(a)[i]) && a.objects(Days(a)[i]) != [] && a.objects(Days(a)[j]) != []
    requires Answers(a, c, Answer.Page(rows, true, Some(DayCursor(Days(a)[j]))))
    ensures Given(a, c, Answer.Page(rows, true, Some(DayCursor(Days(a)[j]))))
  {
    hide Answers, Ahead;
    assert Read(a, c, Days(a)[i], Days(a)[j]);
  }

  lemma RowIsGiven(a: Archive, c: Option<Cursor>, rows: seq<ScanRow>)
    requires a.from <= a.to + 1 && |rows| == a.limit > 0
    requires Answers(a, c, Answer.Page(rows, true, Some(CursorOf(rows[|rows| - 1]))))
    ensures Given(a, c, Answer.Page(rows, true, Some(CursorOf(rows[|rows| - 1]))))
  {
    hide Answers;
  }

  lemma EndIsGiven(a: Archive, c: Option<Cursor>, rows: seq<ScanRow>)
    requires a.from <= a.to + 1 && |rows| <= a.limit
    requires forall next :: Answers(a, c, Answer.Page(rows, false, next))
    ensures forall next :: Given(a, c, Answer.Page(rows, false, next))
  {
    hide Answers;
  }

  lemma TakenIs(a: Archive, c: Option<Cursor>, i: nat)
    requires a.from <= a.to + 1 && i <= |Days(a)|
    ensures Taken(a, c, i) == Filter(Owed(a.descending, c), Listing(a, Days(a)[..i]))
  {
  }

  /** The rows before a day are not of it. */
  lemma NotThatDay(a: Archive, c: Option<Cursor>, i: nat, rows: seq<ScanRow>)
    requires Sound(a) && i < |Days(a)| && rows == Taken(a, c, i)
    ensures !EndsAtNoMoment(Answer.Page(rows, true, Some(DayCursor(Days(a)[i]))))
  {
    hide Sound, Listing, Filter;
    FrontIsPassed(a, i);
    if rows != [] { assert rows[|rows| - 1] in Listing(a, Days(a)[..i]); }
  }

  lemma AnswersShort(a: Archive, c: Option<Cursor>, p: Answer)
    requires a.from <= a.to + 1 && p.Page? && p.more && p.next.Some? && !EndsAtNoMoment(p)
    requires Remaining(a, c) == p.rows + Remaining(a, p.next)
    requires DaysLeft(a, p.next) < DaysLeft(a, c)
    ensures Answers(a, c, p)
  {
    hide Remaining, DaysLeft;
    Split(p.rows, Remaining(a, p.next));
  }

  /** A request that stops before a day answers: the day is owed in full. */
  lemma StopsAtDay(a: Archive, c: Option<Cursor>, j: nat, i: nat, rows: seq<ScanRow>)
    requires Sound(a) && j < i < |Days(a)| && Ahead(a.descending, c)(Days(a)[j])
    requires rows == Taken(a, c, i)
    ensures Answers(a, c, Answer.Page(rows, true, Some(DayCursor(Days(a)[i]))))
  {
    hide *;
    HasDays(a);
    DayIsLater(a, c, j, i);
    BeforeADay(a, c, i);
    FewerDaysAtDay(a, c, j, i);
    TakenIs(a, c, i);
    NotThatDay(a, c, i, rows);
    AnswersShort(a, c, Answer.Page(rows, true, Some(DayCursor(Days(a)[i]))));
  }

  lemma AnswersBy(a: Archive, c: Option<Cursor>, p: Answer)
    requires a.from <= a.to + 1 && p.Page? && p.more && p.rows != [] && p.rows <= Remaining(a, c)
    requires var last := p.rows[|p.rows| - 1];
             && p.next == Some(CursorOf(last))
             && (last.occurred == NO_MOMENT ==> OwesDay(a, p.next, last.day))
             && (last.occurred != NO_MOMENT ==> Remaining(a, p.next) == Remaining(a, c)[|p.rows|..])
    requires DaysLeft(a, p.next) <= DaysLeft(a, c)
    ensures Answers(a, c, p)
  {
    hide Remaining, DaysLeft, OwesDay, Stops;
  }

  /** So does one that stops on its limit. */
  lemma StopsFull(a: Archive, c: Option<Cursor>, i: nat, rows: seq<ScanRow>)
    requires Sound(a) && i < |Days(a)|
    requires |Taken(a, c, i + 1)| > a.limit && rows == Taken(a, c, i + 1)[..a.limit]
    ensures Answers(a, c, Answer.Page(rows, true, Some(CursorOf(rows[|rows| - 1]))))
  {
    hide Sound, Taken, Remaining, DaysLeft, OwesDay, Answers, CursorOf, Days;
    HasDays(a);
    PageIsPrefix(a, c, i, rows);
    var last := rows[|rows| - 1];
    assert last == Remaining(a, c)[a.limit - 1];
    AfterARow(a, c, a.limit - 1);
    if last.occurred == NO_MOMENT { AfterNoMoment(a, last); }
    FewerDaysAfterRow(a, c, a.limit - 1);
    AnswersBy(a, c, Answer.Page(rows, true, Some(CursorOf(last))));
  }

  lemma Finishes(a: Archive, c: Option<Cursor>, rows: seq<ScanRow>)
    requires a.from <= a.to + 1 && rows == Taken(a, c, |Days(a)|)
    ensures forall next :: Answers(a, c, Answer.Page(rows, false, next))
  {
    assert Days(a)[..|Days(a)|] == Days(a);
    hide Filter, Listing, Owed;
  }

  lemma NothingYet(a: Archive, c: Option<Cursor>)
    requires a.from <= a.to + 1
    ensures Taken(a, c, 0) == []
  {
    assert Days(a)[..0] == [];
  }

  lemma NextDay(a: Archive, c: Option<Cursor>, i: nat)
    requires a.from <= a.to + 1 && i < |Days(a)|
    ensures Taken(a, c, i + 1) == Taken(a, c, i) + Filter(Owed(a.descending, c), DayRows(a, Days(a)[i]))
  {
    var p := Owed(a.descending, c);
    hide Filter, Listing, DayRows;
    var days := Days(a);
    assert days[..i + 1] == days[..i] + [days[i]];
    ListingLast(a, days[..i], days[i]);
    FilterConcat(p, Listing(a, days[..i]), DayRows(a, days[i]));
  }

  lemma PassedDay(a: Archive, c: Option<Cursor>, day: int)
    requires Sound(a) && c.Some? && LaterDay(a.descending, day, c.value.day)
    ensures Filter(Owed(a.descending, c), DayRows(a, day)) == [] && !Ahead(a.descending, c)(day)
  {
    hide Sound, DayRows;
    DayAscends(a, day);
    FilterNone(Owed(a.descending, c), DayRows(a, day));
  }

  lemma DayIsAhead(a: Archive, c: Option<Cursor>, day: int)
    requires Sound(a) && (c.Some? ==> !LaterDay(a.descending, day, c.value.day))
    ensures Ahead(a.descending, c)(day)
    ensures c.Some? ==> forall r :: r in DayRows(a, day) ==>
            r.day == c.value.day || LaterDay(a.descending, c.value.day, r.day)
  {
    hide Sound, DayRows;
    DayAscends(a, day);
  }

  lemma EmptyDay(a: Archive, p: ScanRow -> bool, day: int)
    requires a.objects(day) == []
    ensures Filter(p, DayRows(a, day)) == []
  {
  }

  lemma DayIsLater(a: Archive, c: Option<Cursor>, j: nat, i: nat)
    requires a.from <= a.to + 1 && j < i < |Days(a)| && Ahead(a.descending, c)(Days(a)[j])
    ensures c.Some? ==> LaterDay(a.descending, c.value.day, Days(a)[i])
  {
  }

  /** A page that overflowed is the beginning of what remained. */
  lemma PageIsPrefix(a: Archive, c: Option<Cursor>, i: nat, rows: seq<ScanRow>)
    requires Sound(a) && i < |Days(a)|
    requires |Taken(a, c, i + 1)| > a.limit && rows == Taken(a, c, i + 1)[..a.limit]
    ensures rows <= Remaining(a, c) && |rows| == a.limit < |Remaining(a, c)|
  {
    hide Filter, Listing, DayRows, Sound;
    var days := Days(a);
    assert days == days[..i + 1] + days[i + 1..];
    ListingConcat(a, days[..i + 1], days[i + 1..]);
    FilterConcat(Owed(a.descending, c), Listing(a, days[..i + 1]), Listing(a, days[i + 1..]));
  }

  // ----- following cursors to the end

  /** Requests, each from the cursor the one before gave, until there is no
      more; each may stop on its limit, its budget or its deadline. */
  ghost predicate Followed(a: Archive, c: Option<Cursor>, pages: seq<Answer>)
    requires a.from <= a.to + 1
    decreases |pages|
  {
    && pages != [] && Given(a, c, pages[0])
    && (if |pages| == 1 then !pages[0].more else pages[0].more && Followed(a, pages[0].next, pages[1..]))
  }

  function Joined(pages: seq<Answer>): seq<ScanRow>
    requires forall p :: p in pages ==> p.Page?
  {
    if pages == [] then [] else pages[0].rows + Joined(pages[1..])
  }

  lemma {:induction false} FollowedIsPages(a: Archive, c: Option<Cursor>, pages: seq<Answer>)
    requires a.from <= a.to + 1 && Followed(a, c, pages)
    ensures forall p :: p in pages ==> p.Page?
    decreases |pages|
  {
    hide Remaining, DaysLeft, OwesDay, Stops;
    if |pages| > 1 {
      FollowedIsPages(a, pages[0].next, pages[1..]);
      assert pages == [pages[0]] + pages[1..];
    } else {
      assert pages == [pages[0]];
    }
  }

  lemma {:induction false} FollowedGivesRemaining(a: Archive, c: Option<Cursor>, pages: seq<Answer>)
    requires a.from <= a.to + 1 && Followed(a, c, pages)
    requires forall p :: p in pages ==> p.Page? && !EndsAtNoMoment(p)
    ensures Joined(pages) == Remaining(a, c)
    ensures |pages| <= DaysLeft(a, c) + |Remaining(a, c)| + 1
    decreases |pages|
  {
    hide Remaining, DaysLeft, Answers, Stops, EndsAtNoMoment;
    var p, rest := pages[0], pages[1..];
    assert p in pages;
    PageThenRest(a, c, p);
    forall q | q in rest ensures q in pages { TailIn(pages, q); }
    assert Joined(pages) == p.rows + Joined(rest);
    if |pages| > 1 {
      FollowedGivesRemaining(a, p.next, rest);
    } else {
      assert Joined(rest) == [];
    }
  }

  lemma TailIn<T>(s: seq<T>, x: T)
    requires s != [] && x in s[1..]
    ensures x in s
  {
  }

  lemma PageThenRest(a: Archive, c: Option<Cursor>, p: Answer)
    requires a.from <= a.to + 1 && Answers(a, c, p) && !EndsAtNoMoment(p)
    ensures !p.more ==> p.rows == Remaining(a, c)
    ensures p.more ==> Remaining(a, c) == p.rows + Remaining(a, p.next)
    ensures p.more ==> DaysLeft(a, p.next) + |Remaining(a, p.next)| < DaysLeft(a, c) + |Remaining(a, c)|
  {
    hide Remaining, DaysLeft, OwesDay;
  }

  /** Whatever an answer leaves out is owed after it, begun again or not. */
  lemma NothingIsLost(a: Archive, c: Option<Cursor>, p: Answer, x: ScanRow)
    requires Sound(a) && a.from <= a.to + 1 && Answers(a, c, p) && p.more && x in Remaining(a, c) && x !in p.rows
    ensures x in Remaining(a, p.next)
  {
    hide Sound, Filter, Everything, DaysLeft, Walked;
    var rest := Remaining(a, c);
    var i :| 0 <= i < |rest| && rest[i] == x;
    InPrefix(p.rows, rest, i);
    if EndsAtNoMoment(p) {
      var n := |p.rows| - 1;
      RemainingAscends(a, c);
      assert Walked(a.descending)(rest[n], rest[i]) && rest[n] == p.rows[n];
      LaterRow(a.descending, rest[n], rest[i]);
    } else {
      assert rest[|p.rows|..][i - |p.rows|] == x;
    }
  }

  lemma LaterRow(descending: bool, r: ScanRow, x: ScanRow)
    requires Walked(descending)(r, x)
    ensures !LaterDay(descending, x.day, r.day)
  {
  }

  /** However the requests stop, every row that was owed is given. */
  lemma {:induction false} FollowedCovers(a: Archive, c: Option<Cursor>, pages: seq<Answer>, x: ScanRow)
    requires Sound(a) && a.from <= a.to + 1 && Followed(a, c, pages) && forall p :: p in pages ==> p.Page?
    requires x in Remaining(a, c)
    ensures x in Joined(pages)
    decreases |pages|
  {
    hide Sound, Remaining, DaysLeft, OwesDay, Stops;
    if |pages| > 1 && x !in pages[0].rows {
      NothingIsLost(a, c, pages[0], x);
      FollowedCovers(a, pages[0].next, pages[1..], x);
    }
  }

  lemma {:induction false} JoinedAt(pages: seq<Answer>, k: nat)
    requires (forall p :: p in pages ==> p.Page?) && k < |pages|
    ensures Joined(pages) == Joined(pages[..k]) + pages[k].rows + Joined(pages[k + 1..])
  {
    if k == 0 {
      assert pages[..0] == [];
    } else {
      var rest := pages[1..];
      JoinedAt(rest, k - 1);
      assert rest[k - 1] == pages[k] && rest[k..] == pages[k + 1..];
      var front := pages[..k];
      assert front != [] && front[0] == pages[0] && front[1..] == rest[..k - 1];
      assert Joined(front) == pages[0].rows + Joined(rest[..k - 1]);
      assert Joined(pages) == pages[0].rows + Joined(rest);
      hide Joined;
      Regroup(pages[0].rows, Joined(rest[..k - 1]), pages[k].rows);
      Regroup(pages[0].rows, Joined(rest[..k - 1]) + pages[k].rows, Joined(pages[k + 1..]));
    }
  }

  lemma {:induction false} FollowedOn(a: Archive, c: Option<Cursor>, pages: seq<Answer>, k: nat)
    requires a.from <= a.to + 1 && Followed(a, c, pages) && k < |pages| - 1
    ensures pages[k].Page? && pages[k].more && Followed(a, pages[k].next, pages[k + 1..])
    decreases |pages|
  {
    hide Remaining, DaysLeft, OwesDay, Stops;
    if k > 0 {
      FollowedOn(a, pages[0].next, pages[1..], k - 1);
      assert pages[1..][k - 1] == pages[k] && pages[1..][k..] == pages[k + 1..];
    }
  }

  /** A page that ends at a row of no moment is followed by that row again. */
  lemma GivenTwice(a: Archive, pages: seq<Answer>, k: nat)
    requires Sound(a) && a.from <= a.to + 1 && Followed(a, None, pages) && k < |pages| && pages[k].Page?
    requires EndsAtNoMoment(pages[k])
    ensures (forall p :: p in pages ==> p.Page?)
    ensures exists i, j :: 0 <= i < j < |Joined(pages)| && Joined(pages)[i] == Joined(pages)[j]
  {
    FollowedIsPages(a, None, pages);
    var last := |pages[k].rows| - 1;
    var r := pages[k].rows[last];
    LastHasNoMore(a, None, pages);
    FollowedOn(a, None, pages, k);
    RowIsOwed(a, None, pages, k, r);
    NoMomentRepeats(r, a.descending);
    hide Sound, Answers, Followed;
    var rest := pages[k + 1..];
    forall p | p in rest ensures p in pages {
      var i :| 0 <= i < |rest| && rest[i] == p;
      assert pages[k + 1 + i] == p;
    }
    FollowedCovers(a, pages[k].next, rest, r);
    JoinedAt(pages, k);
    TwiceIn(Joined(pages[..k]), pages[k].rows, Joined(rest), last);
  }

  lemma TwiceIn(x: seq<ScanRow>, y: seq<ScanRow>, z: seq<ScanRow>, n: nat)
    requires n < |y| && y[n] in z
    ensures exists i, j :: 0 <= i < j < |x + y + z| && (x + y + z)[i] == (x + y + z)[j]
  {
    var m :| 0 <= m < |z| && z[m] == y[n];
    assert (x + y + z)[|x| + n] == y[n] && (x + y + z)[|x| + |y| + m] == z[m];
  }

  lemma {:induction false} LastHasNoMore(a: Archive, c: Option<Cursor>, pages: seq<Answer>)
    requires a.from <= a.to + 1 && Followed(a, c, pages)
    ensures pages != [] && pages[|pages| - 1].Page? && !pages[|pages| - 1].more
    decreases |pages|
  {
    hide Remaining, DaysLeft, OwesDay, Stops;
    if |pages| > 1 {
      LastHasNoMore(a, pages[0].next, pages[1..]);
      assert pages[1..][|pages| - 2] == pages[|pages| - 1];
    }
  }

  /** A row that a page gives is one of the archive's. */
  lemma {:induction false} RowIsOwed(a: Archive, c: Option<Cursor>, pages: seq<Answer>, k: nat, r: ScanRow)
    requires a.from <= a.to + 1 && Followed(a, c, pages) && k < |pages| && pages[k].Page? && r in pages[k].rows
    ensures r in Everything(a)
    decreases |pages|
  {
    hide Filter, Everything, DaysLeft, OwesDay, Stops;
    if k > 0 {
      assert pages[1..][k - 1] == pages[k];
      RowIsOwed(a, pages[0].next, pages[1..], k - 1, r);
    } else {
      var i :| 0 <= i < |pages[0].rows| && pages[0].rows[i] == r;
      assert Remaining(a, c)[i] == r;
      assert r in Remaining(a, c);
    }
  }

  /** However the requests stop, following them to the end gives every row that
      was granted and matched, in the order of ingest day, moment and identifier
      and each exactly once, if and only if no request stopped on its limit at a
      row that happened at the moment that stands for none. */
  lemma PagingGivesEverything(a: Archive, pages: seq<Answer>)
    requires Sound(a) && a.from <= a.to + 1 && Followed(a, None, pages)
    ensures forall p :: p in pages ==> p.Page?
    ensures Joined(pages) == Everything(a) <==> forall p :: p in pages ==> !EndsAtNoMoment(p)
    ensures (forall p :: p in pages ==> !EndsAtNoMoment(p)) ==> |pages| <= |Days(a)| + |Everything(a)| + 1
  {
    hide Followed, Listing, Unsorted, Filter, DayRows, Sort;
    FollowedIsPages(a, None, pages);
    EverythingIsEach(a);
    if p :| p in pages && EndsAtNoMoment(p) {
      var k :| 0 <= k < |pages| && pages[k] == p;
      GivenTwice(a, pages, k);
    } else {
      FollowedGivesRemaining(a, None, pages);
      FilterEvery(Owed(a.descending, None), Everything(a));
      FilterEvery(Ahead(a.descending, None), Days(a));
    }
  }

  /** So it does, however the requests stop, wherever no row of the archive happened
      at that moment. */
  lemma PagingIsComplete(a: Archive, pages: seq<Answer>)
    requires Sound(a) && a.from <= a.to + 1 && Followed(a, None, pages)
    requires forall r :: r in Everything(a) ==> r.occurred != NO_MOMENT
    ensures forall p :: p in pages ==> p.Page?
    ensures Joined(pages) == Everything(a) && |pages| <= |Days(a)| + |Everything(a)| + 1
  {
    PagingGivesEverything(a, pages);
    hide Sound, Everything, Joined;
    forall p | p in pages ensures !EndsAtNoMoment(p) {
      var k :| 0 <= k < |pages| && pages[k] == p;
      if p.rows != [] {
        assert p.rows[|p.rows| - 1] in p.rows;
        RowIsOwed(a, None, pages, k, p.rows[|p.rows| - 1]);
      }
    }
  }

  /** And it can fail to end: with all objects on one day, and the row that the
      limit cuts off at that moment, the first page is all that requests give. */
  lemma {:induction false} NeverEnds(a: Archive, c: Option<Cursor>, day: int, pages: seq<Answer>)
    requires Sound(a) && a.from <= a.to + 1 && forall d :: d in Days(a) && a.objects(d) != [] ==> d == day
    requires a.limit < |Everything(a)| && Everything(a)[a.limit - 1].occurred == NO_MOMENT
    requires Remaining(a, c) == Everything(a)
    ensures !Followed(a, c, pages)
    decreases |pages|
  {
    if Followed(a, c, pages) {
      HasDays(a);
      var p := pages[0];
      assert p.more by { hide Remaining, DaysLeft, OwesDay; }
      OnlyTheFirst(a, c, day, p);
      hide Sound, Everything, Given;
      NeverEnds(a, p.next, day, pages[1..]);
    }
  }

  lemma OnlyTheFirst(a: Archive, c: Option<Cursor>, day: int, p: Answer)
    requires Sound(a) && a.from <= a.to + 1 && forall d :: d in Days(a) && a.objects(d) != [] ==> d == day
    requires a.limit < |Everything(a)| && Everything(a)[a.limit - 1].occurred == NO_MOMENT
    requires Remaining(a, c) == Everything(a) && Given(a, c, p) && p.more && a.limit > 0
    ensures Remaining(a, p.next) == Everything(a)
  {
    hide Sound, Filter, Everything, DaysLeft, Ahead, Walked;
    NoTwoDays(a, c, day, p);
    var last := p.rows[|p.rows| - 1];
    assert last == Everything(a)[a.limit - 1];
    RemainingAscends(a, p.next);
    WalkedIsStrict(a.descending);
    forall r | r in Everything(a) ensures r.day == day { OfTheDay(a, day, r); }
    assert last in Everything(a);
    assert forall r :: r in Remaining(a, p.next) <==> r in Everything(a);
    SameMembers(Walked(a.descending), Remaining(a, p.next), Everything(a));
  }

  /** With one day of objects, a request stops only at a row. */
  lemma NoTwoDays(a: Archive, c: Option<Cursor>, day: int, p: Answer)
    requires a.from <= a.to + 1 && p.Page? && Stops(a, c, p)
    requires forall d :: d in Days(a) && a.objects(d) != [] ==> d == day
    ensures |p.rows| == a.limit && p.rows != [] && p.next == Some(CursorOf(p.rows[|p.rows| - 1]))
  {
    hide Ahead, CursorOf, DayCursor;
    forall i, j | 0 <= i < j < |Days(a)| ensures !Read(a, c, Days(a)[i], Days(a)[j]) {
      assert Days(a)[i] in Days(a) && Days(a)[j] in Days(a);
    }
  }

  lemma OfTheDay(a: Archive, day: int, r: ScanRow)
    requires Sound(a) && a.from <= a.to + 1 && forall d :: d in Days(a) && a.objects(d) != [] ==> d == day
    requires r in Everything(a)
    ensures r.day == day
  {
    DaysInOrder(a);
    ListingAscends(a, Days(a));
    RowHasObjects(a, Days(a), r);
    hide Sound, Listing;
  }

  lemma {:induction false} RowHasObjects(a: Archive, days: seq<int>, r: ScanRow)
    requires Sound(a) && r in Listing(a, days)
    ensures r.day in days && a.objects(r.day) != []
  {
    hide Sound, DayRows;
    var n := |days| - 1;
    assert days == days[..n] + [days[n]];
    if r in DayRows(a, days[n]) {
      DayAscends(a, days[n]);
      NoObjectsNoRows(a, days[n]);
    } else {
      RowHasObjects(a, days[..n], r);
    }
  }

  lemma NoObjectsNoRows(a: Archive, day: int)
    ensures a.objects(day) == [] ==> DayRows(a, day) == []
  {
  }

  /** By day and within one by moment, both up or both down, and within a moment by
      identifier, up. */
  ghost predicate InTurn(descending: bool, x: ScanRow, y: ScanRow)
  {
    && (if descending then y.day <= x.day else x.day <= y.day)
    && (x.day == y.day ==> if descending then y.occurred <= x.occurred else x.occurred <= y.occurred)
    && (x.day == y.day && x.occurred == y.occurred ==> !Lex.Less(y.id, x.id))
  }

  lemma WalkedInTurn(descending: bool, x: ScanRow, y: ScanRow)
    requires Walked(descending)(x, y)
    ensures InTurn(descending, x, y)
  {
    if Lex.Less(x.id, y.id) { Lex.Asymmetric(x.id, y.id); }
  }

  /** Everything is every row of every day of the window, once, in order. */
  lemma EverythingIsEach(a: Archive)
    requires Sound(a) && a.from <= a.to + 1
    ensures Ascending(Walked(a.descending), Everything(a))
    ensures forall i, j :: 0 <= i < j < |Everything(a)| ==>
              InTurn(a.descending, Everything(a)[i], Everything(a)[j])
    ensures forall i, j :: 0 <= i < j < |Everything(a)| ==> Everything(a)[i] != Everything(a)[j]
    ensures forall day, r :: a.from <= day <= a.to && r in Unsorted(a.objects(day)) ==> r in Everything(a)
  {
    RemainingAscends(a, None);
    WalkedIsStrict(a.descending);
    hide Sound, Listing, Unsorted, DayRows, InTurn;
    forall i, j | 0 <= i < j < |Everything(a)| ensures InTurn(a.descending, Everything(a)[i], Everything(a)[j]) {
      WalkedInTurn(a.descending, Everything(a)[i], Everything(a)[j]);
    }
    forall day, r | a.from <= day <= a.to && r in Unsorted(a.objects(day)) ensures r in Everything(a) {
      var i := if a.descending then a.to - day else day - a.from;
      assert Days(a)[i] == day;
      RowIsListed(a, Days(a), i, r);
    }
  }

  lemma {:induction false} RowIsListed(a: Archive, days: seq<int>, i: nat, r: ScanRow)
    requires i < |days| && r in Unsorted(a.objects(days[i]))
    ensures r in Listing(a, days)
  {
    hide Unsorted;
    if i < |days| - 1 { RowIsListed(a, days[..|days| - 1], i, r); }
  }

  /** A row's cursor owes the row itself exactly when it happened at the moment
      that stands for none. */
  lemma NoMomentRepeats(r: ScanRow, descending: bool)
    ensures Owed(descending, Some(CursorOf(r)))(r) <==> r.occurred == NO_MOMENT
  {
    Lex.Irreflexive(r.id);
  }

  // ----- the days of a query

  const DAY := 86_400_000_000_000

  /** A period of a filter; the moment zero leaves an end open. */
  datatype Period = Period(from: int, to: int)

  /** `window`: the first and the last day to walk. */
  method Window(periods: seq<Period>, now: int, horizon: int, lateness: int) returns (from: int, to: int)
    requires 0 < horizon && 0 < lateness
    ensures to == now / DAY
    ensures from * DAY <= now - horizon && from <= to
    ensures forall w :: w in periods && w.from != NO_MOMENT ==> from <= w.from / DAY
    ensures from == (now - horizon) / DAY || exists w :: w in periods && w.from != NO_MOMENT && from == w.from / DAY
  {
    var first, last := now - horizon, now;
    for i := 0 to |periods|
      invariant first <= now - horizon && now <= last
      invariant forall k :: 0 <= k < i && periods[k].from != NO_MOMENT ==> first <= periods[k].from
      invariant first == now - horizon || exists w :: w in periods && w.from != NO_MOMENT && first == w.from
    {
      var w := periods[i];
      assert w in periods;
      if w.from != NO_MOMENT && w.from < first { first := w.from; }
      if w.to != NO_MOMENT && last < w.to { last := w.to; }
    }
    last := last + lateness;
    if now < last { last := now; }
    from, to := first / DAY, last / DAY;
    forall w | w in periods && w.from != NO_MOMENT ensures from <= w.from / DAY {
      assert first <= w.from;
    }
  }

  /** `days`: listed upwards and turned round in place. */
  method ListDays(a: Archive) returns (out: array<int>)
    requires a.from <= a.to + 1
    ensures out[..] == Days(a)
  {
    var n := a.to + 1 - a.from;
    out := new int[n];
    for i := 0 to n
      invariant forall k :: 0 <= k < i ==> out[k] == a.from + k
    {
      out[i] := a.from + i;
    }
    if a.descending {
      var x, z := 0, n - 1;
      while x < z
        invariant 0 <= x <= n && z == n - 1 - x && x <= z + 2
        invariant forall k :: 0 <= k < n ==> out[k] == if k < x || z < k then a.to - k else a.from + k
      {
        out[x], out[z] := out[z], out[x];
        x, z := x + 1, z - 1;
      }
    }
  }

  // ----- a cursor's text

  predicate NoBar(s: string)
  {
    '|' !in s
  }

  /** What is before the first bar, and what after it. */
  function Cut(s: string): Option<(string, string)>
  {
    if s == "" then None
    else if s[0] == '|' then Some(("", s[1..]))
    else
      var rest := Cut(s[1..]);
      if rest.None? then None else Some(([s[0]] + rest.value.0, rest.value.1))
  }

  lemma {:induction false} CutIsExact(s: string, a: string, b: string)
    ensures Cut(s) == Some((a, b)) <==> s == a + "|" + b && NoBar(a)
    ensures Cut(s).None? <==> NoBar(s)
  {
    if s != "" {
      assert s == [s[0]] + s[1..];
      if a == "" {
        assert a + "|" + b == "|" + b;
        CutIsExact(s[1..], a, b);
      } else {
        assert a == [a[0]] + a[1..];
        assert a + "|" + b == [a[0]] + (a[1..] + "|" + b);
        CutIsExact(s[1..], a[1..], b);
      }
    }
  }

  /** A cursor's three fields; anything but two bars is refused. */
  function Fields(raw: string): Option<(string, string, string)>
  {
    var first := Cut(raw);
    if first.None? then None
    else
      var second := Cut(first.value.1);
      if second.None? || Cut(second.value.1).Some? then None
      else Some((first.value.0, second.value.0, second.value.1))
  }

  /** The text of a cursor is read back as it was written exactly when the
      identifier holds no bar; otherwise the searcher refuses its own cursor. */
  lemma CursorTextIsRead(day: string, occurred: string, id: string)
    requires NoBar(day) && NoBar(occurred)
    ensures var raw := day + "|" + occurred + "|" + id;
            Fields(raw) == if NoBar(id) then Some((day, occurred, id)) else None
  {
    var rest := occurred + "|" + id;
    assert day + "|" + occurred + "|" + id == day + "|" + rest;
    CutIsExact(day + "|" + rest, day, rest);
    CutIsExact(rest, occurred, id);
    CutIsExact(id, "", "");
  }
}
