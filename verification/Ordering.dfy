/** Sorting by a strict order, and paging through what is sorted by a keyset:
    what a page is, apart from what its rows are. */
module Ordering {
  import opened Options

  type Order<!T> = (T, T) -> bool

  ghost predicate Strict<T(!new)>(less: Order<T>)
  {
    && (forall a :: !less(a, a))
    && forall a, b, c :: less(a, b) && less(b, c) ==> less(a, c)
  }

  /** No two members are the same, and the order tells any two apart. */
  ghost predicate Separates<T(!new)>(less: Order<T>, s: seq<T>)
  {
    forall i, j :: 0 <= i < j < |s| ==> less(s[i], s[j]) || less(s[j], s[i])
  }

  ghost predicate Ascending<T(!new)>(less: Order<T>, s: seq<T>)
  {
    forall i, j :: 0 <= i < j < |s| ==> less(s[i], s[j])
  }

  function Insert<T(!new)>(less: Order<T>, s: seq<T>, x: T): (r: seq<T>)
    ensures |r| == |s| + 1 && multiset(r) == multiset(s) + multiset{x}
    ensures forall y :: y in r <==> y == x || y in s
  {
    if s == [] then [x]
    else if less(x, s[0]) then [x] + s
    else
      assert s == [s[0]] + s[1..];
      [s[0]] + Insert(less, s[1..], x)
  }

  /** Rows in order: what Go's sort gives where the order leaves no ties. */
  function Sort<T(!new)>(less: Order<T>, s: seq<T>): (r: seq<T>)
    ensures |r| == |s| && multiset(r) == multiset(s)
    ensures forall y :: y in r <==> y in s
  {
    if s == [] then []
    else
      assert s == s[..|s| - 1] + [s[|s| - 1]];
      Insert(less, Sort(less, s[..|s| - 1]), s[|s| - 1])
  }

  lemma {:induction false} InsertAscends<T(!new)>(less: Order<T>, s: seq<T>, x: T)
    requires Strict(less) && Ascending(less, s)
    requires forall i :: 0 <= i < |s| ==> less(x, s[i]) || less(s[i], x)
    ensures Ascending(less, Insert(less, s, x))
  {
    if s != [] {
      if less(x, s[0]) {
        forall i | 0 < i < |s| ensures less(x, s[i]) { assert less(s[0], s[i]); }
      } else {
        var rest := Insert(less, s[1..], x);
        InsertAscends(less, s[1..], x);
        forall i | 0 <= i < |rest| ensures less(s[0], rest[i]) {
          assert rest[i] in rest;
          if rest[i] != x {
            var j :| 0 <= j < |s[1..]| && s[1..][j] == rest[i];
            assert less(s[0], s[j + 1]);
          }
        }
      }
    }
  }

  lemma {:induction false} SortAscends<T(!new)>(less: Order<T>, s: seq<T>)
    requires Strict(less) && Separates(less, s)
    ensures Ascending(less, Sort(less, s))
  {
    if s != [] {
      var n := |s| - 1;
      SortAscends(less, s[..n]);
      var rest := Sort(less, s[..n]);
      forall i | 0 <= i < |rest| ensures less(s[n], rest[i]) || less(rest[i], s[n]) {
        assert rest[i] in rest;
        var j :| 0 <= j < |s[..n]| && s[..n][j] == rest[i];
        assert s[j] == rest[i];
      }
      InsertAscends(less, rest, s[n]);
    }
  }

  /** Ascending sequences of the same members are one sequence. */
  lemma {:induction false} SameMembers<T(!new)>(less: Order<T>, a: seq<T>, b: seq<T>)
    requires Strict(less) && Ascending(less, a) && Ascending(less, b)
    requires forall x :: x in a <==> x in b
    ensures a == b
  {
    if a == [] {
      HasFirst(b);
    } else {
      assert a[0] in b && b[0] in a;
      var i :| 0 <= i < |b| && b[i] == a[0];
      var j :| 0 <= j < |a| && a[j] == b[0];
      assert i == 0;
      forall x ensures x in a[1..] <==> x in b[1..] {
        WithoutFirst(less, a, x);
        WithoutFirst(less, b, x);
      }
      SameMembers(less, a[1..], b[1..]);
      assert a == [a[0]] + a[1..] && b == [b[0]] + b[1..];
    }
  }

  lemma HasFirst<T(!new)>(b: seq<T>)
    ensures b != [] ==> b[0] in b
  {
  }

  lemma InPrefix<T(!new)>(a: seq<T>, b: seq<T>, i: nat)
    requires a <= b && i < |b|
    ensures i < |a| ==> b[i] in a
  {
    if i < |a| { assert a[i] == b[i]; }
  }

  lemma WithoutFirst<T(!new)>(less: Order<T>, a: seq<T>, x: T)
    requires Strict(less) && Ascending(less, a) && a != []
    ensures x in a[1..] <==> x in a && x != a[0]
  {
    if x in a[1..] {
      var i :| 0 <= i < |a[1..]| && a[1..][i] == x;
      assert less(a[0], a[i + 1]);
    }
    if x in a && x != a[0] {
      var i :| 0 <= i < |a| && a[i] == x;
      assert a[1..][i - 1] == x;
    }
  }

  lemma Regroup<T>(x: seq<T>, y: seq<T>, z: seq<T>)
    ensures (x + y) + z == x + (y + z)
  {
  }

  /** The members a predicate holds of, in place. */
  function Filter<T(!new)>(p: T -> bool, s: seq<T>): (r: seq<T>)
    ensures forall x :: x in r <==> x in s && p(x)
    ensures |r| <= |s|
  {
    if s == [] then []
    else
      assert s == s[..|s| - 1] + [s[|s| - 1]];
      Filter(p, s[..|s| - 1]) + (if p(s[|s| - 1]) then [s[|s| - 1]] else [])
  }

  lemma {:induction false} FilterAscends<T(!new)>(less: Order<T>, p: T -> bool, s: seq<T>)
    requires Ascending(less, s)
    ensures Ascending(less, Filter(p, s))
  {
    if s != [] {
      var n := |s| - 1;
      FilterAscends(less, p, s[..n]);
      var rest := Filter(p, s[..n]);
      forall i | 0 <= i < |rest| ensures less(rest[i], s[n]) {
        assert rest[i] in rest;
        var j :| 0 <= j < |s[..n]| && s[..n][j] == rest[i];
        assert less(s[j], s[n]);
      }
    }
  }

  lemma {:induction false} FilterSeparates<T(!new)>(less: Order<T>, p: T -> bool, s: seq<T>)
    requires Separates(less, s)
    ensures Separates(less, Filter(p, s))
  {
    if s != [] {
      var n := |s| - 1;
      FilterSeparates(less, p, s[..n]);
      var rest := Filter(p, s[..n]);
      forall i | 0 <= i < |rest| ensures less(rest[i], s[n]) || less(s[n], rest[i]) {
        assert rest[i] in rest;
        var j :| 0 <= j < |s[..n]| && s[..n][j] == rest[i];
        assert s[j] == rest[i];
      }
    }
  }

  // ----- pages

  datatype Page<T> = Page(rows: seq<T>, more: bool)

  /** Past a boundary row, if there is one. */
  function Past<T(!new)>(less: Order<T>, after: Option<T>): T -> bool
  {
    x => after.None? || less(after.value, x)
  }

  /** The page that follows a boundary: the first rows past it. */
  function Following<T(!new)>(less: Order<T>, rows: seq<T>, after: Option<T>, limit: nat): Page<T>
  {
    var rest := Filter(Past(less, after), Sort(less, rows));
    Page(if |rest| > limit then rest[..limit] else rest, |rest| > limit)
  }

  /** The last row of a page, which the next one follows. */
  function End<T(!new)>(p: Page<T>): Option<T>
  {
    if p.rows == [] then None else Some(p.rows[|p.rows| - 1])
  }

  lemma RestAscends<T(!new)>(less: Order<T>, rows: seq<T>, after: Option<T>)
    requires Strict(less) && Separates(less, rows)
    ensures Ascending(less, Filter(Past(less, after), Sort(less, rows)))
  {
    SortAscends(less, rows);
    FilterAscends(less, Past(less, after), Sort(less, rows));
  }

  /** A page is in order, past its boundary, and short of every row past it that
      it does not hold. */
  lemma PageIsNext<T(!new)>(less: Order<T>, rows: seq<T>, after: Option<T>, limit: nat)
    requires Strict(less) && Separates(less, rows) && 0 < limit
    ensures var p := Following(less, rows, after, limit);
            && Ascending(less, p.rows)
            && (forall x :: x in p.rows ==> x in rows && Past(less, after)(x))
            && (p.more ==> |p.rows| == limit)
            && (forall x :: x in rows && Past(less, after)(x) && x !in p.rows ==>
                  p.more && less(p.rows[|p.rows| - 1], x))
  {
    RestAscends(less, rows, after);
    var rest := Filter(Past(less, after), Sort(less, rows));
    var p := Following(less, rows, after, limit);
    forall x | x in rows && Past(less, after)(x) && x !in p.rows
      ensures p.more && less(p.rows[|p.rows| - 1], x)
    {
      var i :| 0 <= i < |rest| && rest[i] == x;
      InPrefix(p.rows, rest, i);
    }
  }

  ghost predicate Within<T(!new)>(a: seq<T>, b: seq<T>)
  {
    forall x :: x in a ==> x in b
  }

  /** A reading of a growing index to its end: each page follows the last row of
      the one before, over whatever rows are there by then. */
  ghost predicate Reads<T(!new)>(less: Order<T>, limit: nat, shots: seq<seq<T>>, pages: seq<Page<T>>)
  {
    && |shots| == |pages| > 0
    && (forall k :: 0 <= k < |shots| ==> Separates(less, shots[k]))
    && (forall j, k :: 0 <= j <= k < |shots| ==> Within(shots[j], shots[k]))
    && pages[0] == Following(less, shots[0], None, limit)
    && (forall k :: 0 <= k < |pages| - 1 ==>
          pages[k].more && pages[k + 1] == Following(less, shots[k + 1], End(pages[k]), limit))
  }

  function AllRows<T(!new)>(pages: seq<Page<T>>): seq<T>
  {
    if pages == [] then [] else AllRows(pages[..|pages| - 1]) + pages[|pages| - 1].rows
  }

  lemma ReadsPart<T(!new)>(less: Order<T>, limit: nat, shots: seq<seq<T>>, pages: seq<Page<T>>)
    requires Reads(less, limit, shots, pages) && 1 < |pages|
    ensures Reads(less, limit, shots[..|pages| - 1], pages[..|pages| - 1])
  {
  }

  /** However many pages were read, together they are in order, end with the
      last row of the last one, and no row that was there at the start has been
      passed over. */
  lemma {:induction false} ReadSoFar<T(!new)>(less: Order<T>, limit: nat, shots: seq<seq<T>>, pages: seq<Page<T>>)
    requires Strict(less) && 0 < limit && Reads(less, limit, shots, pages)
    ensures Ascending(less, AllRows(pages))
    ensures pages[|pages| - 1].more ==>
              AllRows(pages) != [] && End(pages[|pages| - 1]) == Some(AllRows(pages)[|AllRows(pages)| - 1])
    ensures forall x :: x in shots[0] && x !in AllRows(pages) ==>
              pages[|pages| - 1].more && less(AllRows(pages)[|AllRows(pages)| - 1], x)
    ensures Within(AllRows(pages), shots[|pages| - 1])
    decreases |pages|
  {
    hide Following;
    var n := |pages| - 1;
    if n == 0 {
      assert AllRows(pages[..0]) == [];
      PageIsNext(less, shots[0], None, limit);
    } else {
      ReadsPart(less, limit, shots, pages);
      ReadSoFar(less, limit, shots[..n], pages[..n]);
      assert pages[n - 1].more && pages[n] == Following(less, shots[n], End(pages[n - 1]), limit);
      PageIsNext(less, shots[n], End(pages[n - 1]), limit);
      assert Within(shots[0], shots[n]) && Within(shots[n - 1], shots[n]);
      hide Reads;
      OneMorePage(less, limit, shots[0], AllRows(pages[..n]), pages[n], shots[n]);
    }
  }

  /** What was read and the page that follows it, joined. */
  lemma OneMorePage<T(!new)>(less: Order<T>, limit: nat, start: seq<T>, read: seq<T>, p: Page<T>, now: seq<T>)
    requires Strict(less) && read != [] && Ascending(less, read) && Ascending(less, p.rows) && Within(start, now)
    requires 0 < limit && (p.more ==> |p.rows| == limit)
    requires forall x :: x in start && x !in read ==> less(read[|read| - 1], x)
    requires forall x :: x in p.rows ==> less(read[|read| - 1], x)
    requires forall x :: x in now && less(read[|read| - 1], x) && x !in p.rows ==>
              p.more && less(p.rows[|p.rows| - 1], x)
    ensures Ascending(less, read + p.rows)
    ensures p.more ==> End(p) == Some((read + p.rows)[|read + p.rows| - 1])
    ensures forall x :: x in start && x !in read + p.rows ==> p.more && less((read + p.rows)[|read + p.rows| - 1], x)
  {
    JoinAscends(less, read, p.rows);
  }

  lemma JoinAscends<T(!new)>(less: Order<T>, a: seq<T>, b: seq<T>)
    requires Strict(less) && Ascending(less, a) && Ascending(less, b) && a != []
    requires forall x :: x in b ==> less(a[|a| - 1], x)
    ensures Ascending(less, a + b)
  {
    forall i, j | 0 <= i < j < |a + b| ensures less((a + b)[i], (a + b)[j]) {
      if i < |a| <= j {
        assert b[j - |a|] in b;
        assert i < |a| - 1 ==> less(a[i], a[|a| - 1]);
      }
    }
  }

  /** Keyset paging over an index that grows between pages: read to the end, no
      row is given twice and every row that was there at the start is given. */
  lemma PagingIsComplete<T(!new)>(less: Order<T>, limit: nat, shots: seq<seq<T>>, pages: seq<Page<T>>)
    requires Strict(less) && 0 < limit && Reads(less, limit, shots, pages) && !pages[|pages| - 1].more
    ensures Ascending(less, AllRows(pages))
    ensures forall i, j :: 0 <= i < j < |AllRows(pages)| ==> AllRows(pages)[i] != AllRows(pages)[j]
    ensures forall x :: x in shots[0] ==> x in AllRows(pages)
    ensures Within(AllRows(pages), shots[|shots| - 1])
  {
    ReadSoFar(less, limit, shots, pages);
  }

  // ----- backwards

  function Reversed<T(!new)>(s: seq<T>): (r: seq<T>)
    ensures |r| == |s| && forall i :: 0 <= i < |s| ==> r[i] == s[|s| - 1 - i]
  {
    if s == [] then [] else Reversed(s[1..]) + [s[0]]
  }

  function Short<T(!new)>(less: Order<T>, before: T): T -> bool
  {
    x => less(x, before)
  }

  /** The page before a boundary, as it is reached: what is short of it, turned
      round, cut at the limit and turned back. */
  function Preceding<T(!new)>(less: Order<T>, rows: seq<T>, before: T, limit: nat): Page<T>
  {
    var rest := Reversed(Filter(Short(less, before), Sort(less, rows)));
    Page(Reversed(if |rest| > limit then rest[..limit] else rest), |rest| > limit)
  }

  /** That page is the rows immediately before the boundary, in forward order. */
  lemma PrecedingIsSuffix<T(!new)>(less: Order<T>, rows: seq<T>, before: T, limit: nat)
    ensures var short := Filter(Short(less, before), Sort(less, rows));
            Preceding(less, rows, before, limit).rows == if |short| > limit then short[|short| - limit..] else short
  {
    hide Filter, Sort, Reversed;
  }

  /** Over an index that does not change, going back from a page gives the full
      page it was reached from. */
  lemma BackAgain<T(!new)>(less: Order<T>, rows: seq<T>, after: Option<T>, limit: nat)
    requires Strict(less) && Separates(less, rows) && 0 < limit
    requires Following(less, rows, after, limit).more
    ensures var p := Following(less, rows, after, limit);
            var q := Following(less, rows, End(p), limit);
            q.rows != [] && Preceding(less, rows, q.rows[0], limit).rows == p.rows
  {
    hide Filter, Sort, Past, Short, Preceding;
    var all := Sort(less, rows);
    var rest := Filter(Past(less, after), all);
    var p := Following(less, rows, after, limit);
    SortAscends(less, rows);
    assert End(p) == Some(rest[limit - 1]);
    TailOf(less, all, after, limit - 1);
    PrecedingIsSuffix(less, rows, rest[limit], limit);
    ShortEnds(less, all, rest, after, limit);
  }

  /** Past a row of a listing is the rest of the listing. */
  lemma TailOf<T(!new)>(less: Order<T>, all: seq<T>, after: Option<T>, n: nat)
    requires Strict(less) && Ascending(less, all)
    requires n < |Filter(Past(less, after), all)|
    ensures var rest := Filter(Past(less, after), all);
            Filter(Past(less, Some(rest[n])), all) == rest[n + 1..]
  {
    hide Filter;
    var rest := Filter(Past(less, after), all);
    FilterAscends(less, Past(less, after), all);
    FilterAscends(less, Past(less, Some(rest[n])), all);
    var tail := Filter(Past(less, Some(rest[n])), all);
    forall x ensures x in tail <==> x in rest[n + 1..] {
      if x in tail {
        assert rest[n] in rest;
        assert x in rest;
        var i :| 0 <= i < |rest| && rest[i] == x;
        assert n < i;
        assert rest[n + 1..][i - n - 1] == x;
      }
      if x in rest[n + 1..] {
        var i :| 0 <= i < |rest[n + 1..]| && rest[n + 1..][i] == x;
        assert rest[n + 1 + i] == x && x in rest;
      }
    }
    SameMembers(less, tail, rest[n + 1..]);
  }

  /** What is short of a row of a listing ends with the listing up to it. */
  lemma ShortEnds<T(!new)>(less: Order<T>, all: seq<T>, rest: seq<T>, after: Option<T>, n: nat)
    requires Strict(less) && Ascending(less, all) && rest == Filter(Past(less, after), all) && n < |rest|
    ensures var short := Filter(Short(less, rest[n]), all);
            |short| >= n && short[|short| - n..] == rest[..n]
  {
    hide Filter;
    FilterAscends(less, Past(less, after), all);
    var short := Filter(Short(less, rest[n]), all);
    FilterAscends(less, Short(less, rest[n]), all);
    var early := x => !Past(less, after)(x);
    var front := Filter(early, all);
    FilterAscends(less, early, all);
    forall i, j | 0 <= i < |front| && 0 <= j < n ensures less(front[i], rest[j]) {
      assert front[i] in front && rest[j] in rest;
      FrontIsBefore(less, all, after, front[i], rest[j]);
    }
    var whole := front + rest[..n];
    assert Ascending(less, whole);
    hide Ascending;
    forall x ensures x in whole <==> x in short {
      if x in short && x !in front {
        assert x in rest;
        var i :| 0 <= i < |rest| && rest[i] == x;
        assert i < n;
        assert rest[..n][i] == x;
      }
      if x in front { assert rest[n] in rest; FrontIsBefore(less, all, after, x, rest[n]); }
      if x in rest[..n] {
        var i :| 0 <= i < |rest[..n]| && rest[..n][i] == x;
        assert rest[i] == x && x in rest;
      }
    }
    SameMembers(less, whole, short);
  }

  lemma FrontIsBefore<T(!new)>(less: Order<T>, all: seq<T>, after: Option<T>, x: T, y: T)
    requires Strict(less) && Ascending(less, all) && x in all && y in all
    requires !Past(less, after)(x) && Past(less, after)(y)
    ensures less(x, y)
  {
    var i :| 0 <= i < |all| && all[i] == x;
    var j :| 0 <= j < |all| && all[j] == y;
    if j < i { assert false; }
  }
}
