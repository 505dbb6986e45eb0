/** index/memsearch.go: the search that sorts what matches and cuts a page out
    of it at a keyset boundary. */
module Search {
  import opened Options
  import Lex
  import opened Lexicographic
  import opened Ordering
  import opened Rows
  import opened TimeText

  const SORT_OCCURRED_AT := "occurred_at"
  const SORT_RECORDED_AT := "recorded_at"
  const SORT_ID := "id"
  const SORT_ACTION := "action"
  const SORT_TENANT_ID := "tenant_id"
  const SORT_SOURCE := "source"

  datatype SortBy = SortBy(field: string, descending: bool)

  datatype Boundary = Boundary(values: seq<string>, id: string)

  datatype Query = Query(tenants: seq<string>, filter: seq<Conjunction>, sort: seq<SortBy>, limit: int,
                         after: Option<Boundary>, backwards: bool)

  datatype Result = Result(rows: seq<Row>, more: bool, next: Option<Boundary>, prev: Option<Boundary>)

  /** The terms of a sort that are kept: named, and not named before. */
  function Kept(sort: seq<SortBy>): (r: seq<SortBy>)
    ensures |r| <= |sort| && forall s :: s in r ==> s in sort && s.field != ""
    ensures forall s :: s in sort && s.field != "" ==> Names(r, s.field)
    ensures EachOnce(r)
  {
    if sort == [] then []
    else
      var n := |sort| - 1;
      assert sort == sort[..n] + [sort[n]];
      var before := Kept(sort[..n]);
      if sort[n].field == "" || Names(before, sort[n].field) then before else
        var r := before + [sort[n]];
        assert r[|before|] == sort[n];
        assert forall i :: 0 <= i < |before| ==> r[i] == before[i];
        r
  }

  /** No field is named twice. */
  ghost predicate EachOnce(order: seq<SortBy>)
  {
    forall i, j :: 0 <= i < j < |order| ==> order[i].field != order[j].field
  }

  predicate Names(order: seq<SortBy>, field: string)
  {
    exists i :: 0 <= i < |order| && order[i].field == field
  }

  /** `searchOrder`: what was asked, newest first when nothing was, and the
      identifier at the end unless it was named. */
  function SearchOrder(sort: seq<SortBy>): (order: seq<SortBy>)
    ensures order != [] && Names(order, SORT_ID) && EachOnce(order)
    ensures forall s :: s in sort && s.field != "" ==> Names(order, s.field)
  {
    assert |SORT_OCCURRED_AT| != |SORT_ID|;
    var kept := Kept(sort);
    var out := if kept == [] then [SortBy(SORT_OCCURRED_AT, true)] else kept;
    if Names(kept, SORT_ID) then out
    else
      var r := out + [SortBy(SORT_ID, false)];
      assert r[|out|].field == SORT_ID;
      assert forall i :: 0 <= i < |out| ==> r[i] == out[i];
      r
  }

  /** The order built term by term, as it is. */
  method BuildOrder(sort: seq<SortBy>) returns (out: seq<SortBy>)
    ensures out == SearchOrder(sort)
  {
    out := [];
    var seen: set<string> := {};
    var i := 0;
    while i < |sort|
      invariant 0 <= i <= |sort|
      invariant out == Kept(sort[..i])
      invariant forall f :: f in seen <==> Names(out, f)
    {
      assert sort[..i + 1][..i] == sort[..i];
      if sort[i].field != "" && sort[i].field !in seen {
        ghost var was := out;
        seen := seen + {sort[i].field};
        out := out + [sort[i]];
        NamesOneMore(was, sort[i]);
      }
      i := i + 1;
    }
    assert sort[..i] == sort;
    if |out| == 0 {
      out := [SortBy(SORT_OCCURRED_AT, true)];
    }
    if SORT_ID !in seen {
      out := out + [SortBy(SORT_ID, false)];
    }
  }

  lemma NamesOneMore(order: seq<SortBy>, s: SortBy)
    ensures forall f :: Names(order + [s], f) <==> Names(order, f) || f == s.field
  {
    forall f ensures Names(order + [s], f) <==> Names(order, f) || f == s.field {
      if i :| 0 <= i < |order| && order[i].field == f { assert (order + [s])[i].field == f; }
      if f == s.field { assert (order + [s])[|order|].field == f; }
    }
  }

  /** A row's key for a field; a field it does not know is the identifier. */
  function Key(r: Row, field: string): string
  {
    if field == SORT_OCCURRED_AT then Rfc3339Nano(r.occurredAt)
    else if field == SORT_RECORDED_AT then Rfc3339Nano(r.recordedAt)
    else if field == SORT_ACTION then r.action
    else if field == SORT_TENANT_ID then r.tenantId
    else if field == SORT_SOURCE then r.source
    else r.id
  }

  function Keys(order: seq<SortBy>, r: Row): (k: seq<string>)
    ensures |k| == |order|
  {
    seq(|order|, i requires 0 <= i < |order| => Key(r, order[i].field))
  }

  function Down(order: seq<SortBy>): (d: seq<bool>)
    ensures |d| == |order|
  {
    seq(|order|, i requires 0 <= i < |order| => order[i].descending)
  }

  function ByteLess(): Less<string>
  {
    (a: string, b: string) => Lex.Less(a, b)
  }

  /** The order rows are sorted in. */
  function Sooner(order: seq<SortBy>): Order<Row>
  {
    (a: Row, b: Row) => Before(ByteLess(), Down(order), Keys(order, a), Keys(order, b))
  }

  lemma BytesAreLinear()
    ensures Linear(ByteLess())
  {
    forall a: string ensures !ByteLess()(a, a) { Lex.Irreflexive(a); }
    forall a: string, b: string, c: string | ByteLess()(a, b) && ByteLess()(b, c) ensures ByteLess()(a, c) {
      Lex.Transitive(a, b, c);
    }
    forall a: string, b: string ensures a == b || ByteLess()(a, b) || ByteLess()(b, a) { Lex.Total(a, b); }
  }

  lemma SoonerIsStrict(order: seq<SortBy>)
    ensures Strict(Sooner(order))
  {
    BytesAreLinear();
    forall a ensures !Sooner(order)(a, a) { BeforeIrreflexive(ByteLess(), Down(order), Keys(order, a)); }
    forall a, b, c | Sooner(order)(a, b) && Sooner(order)(b, c) ensures Sooner(order)(a, c) {
      BeforeTransitive(ByteLess(), Down(order), Keys(order, a), Keys(order, b), Keys(order, c));
    }
  }

  /** Rows as a store has them: no two with one identifier. */
  ghost predicate DistinctIds(rows: seq<Row>)
  {
    forall i, j :: 0 <= i < j < |rows| ==> rows[i].id != rows[j].id
  }

  lemma IdsSeparate(order: seq<SortBy>, a: Row, b: Row)
    requires Names(order, SORT_ID) && a.id != b.id
    ensures Sooner(order)(a, b) || Sooner(order)(b, a)
  {
    var i :| 0 <= i < |order| && order[i].field == SORT_ID;
    assert Keys(order, a)[i] != Keys(order, b)[i];
    BytesAreLinear();
    BeforeTotal(ByteLess(), Down(order), Keys(order, a), Keys(order, b));
  }

  /** With the identifier in it the order is total on rows: that is what the
      last term is added for. */
  lemma OrderIsTotal(order: seq<SortBy>, rows: seq<Row>)
    requires Names(order, SORT_ID) && DistinctIds(rows)
    ensures Separates(Sooner(order), rows)
  {
    forall i, j | 0 <= i < j < |rows| ensures Sooner(order)(rows[i], rows[j]) || Sooner(order)(rows[j], rows[i]) {
      IdsSeparate(order, rows[i], rows[j]);
    }
  }

  // ----- the boundary

  /** `boundary`: the keys of all terms but the last, and the identifier. */
  function BoundaryOf(r: Row, order: seq<SortBy>): Boundary
    requires order != []
  {
    Boundary(Keys(order, r)[..|order| - 1], r.id)
  }

  function Want(at: Boundary): seq<string>
  {
    at.values + [at.id]
  }

  /** Past a boundary in the direction of the paging. Values a cursor has beyond
      the order's terms are not looked at. */
  function Beyond(order: seq<SortBy>, want: seq<string>, backwards: bool): Row -> bool
    requires |order| <= |want|
  {
    (r: Row) =>
      Before(ByteLess(), if backwards then Flipped(Down(order)) else Down(order), want[..|order|], Keys(order, r))
  }

  /** The loop of `after`, which finds each row's first difference. */
  method After(rows: seq<Row>, order: seq<SortBy>, at: Boundary, backwards: bool) returns (out: seq<Row>)
    requires |order| - 1 <= |at.values|
    ensures out == Filter(Beyond(order, Want(at), backwards), rows)
  {
    hide Before, Keys, Down, Flipped, Key;
    out := [];
    var i := 0;
    while i < |rows|
      invariant 0 <= i <= |rows|
      invariant out == Filter(Beyond(order, Want(at), backwards), rows[..i])
    {
      var down := if backwards then Flipped(Down(order)) else Down(order);
      var beyond := FirstDifference(ByteLess(), down, Want(at)[..|order|], Keys(order, rows[i]));
      assert rows[..i + 1][..i] == rows[..i];
      if beyond {
        out := out + [rows[i]];
      }
      i := i + 1;
    }
    assert rows[..i] == rows;
  }

  /** The identifier is the last term, or a name that reads as it. */
  predicate IdLast(order: seq<SortBy>)
    requires order != []
  {
    order[|order| - 1].field !in {SORT_OCCURRED_AT, SORT_RECORDED_AT, SORT_ACTION, SORT_TENANT_ID, SORT_SOURCE}
  }

  lemma WantIsKeys(b: Row, order: seq<SortBy>)
    requires order != []
    ensures |Want(BoundaryOf(b, order))| == |order|
    ensures Want(BoundaryOf(b, order)) == Keys(order, b)[..|order| - 1] + [b.id]
    ensures Want(BoundaryOf(b, order))[..|order|] == Want(BoundaryOf(b, order))
    ensures Key(b, order[|order| - 1].field) == b.id ==> Want(BoundaryOf(b, order)) == Keys(order, b)
  {
    hide Key;
    var keys := Keys(order, b);
    assert keys[|order| - 1] == Key(b, order[|order| - 1].field);
    assert keys == keys[..|order| - 1] + [keys[|order| - 1]];
  }

  /** With the identifier last, past the boundary of a row is later than the
      row, and backwards it is sooner. */
  lemma BeyondIsLater(b: Row, order: seq<SortBy>, r: Row, backwards: bool)
    requires order != [] && IdLast(order)
    ensures |Want(BoundaryOf(b, order))| == |order|
    ensures Beyond(order, Want(BoundaryOf(b, order)), backwards)(r)
         == if backwards then Sooner(order)(r, b) else Sooner(order)(b, r)
  {
    WantIsKeys(b, order);
    FlipTurns(ByteLess(), Down(order), Keys(order, b), Keys(order, r));
  }

  /** Past a row in the direction of the paging, as the order has it. */
  predicate Passes(order: seq<SortBy>, b: Row, r: Row, backwards: bool)
  {
    if backwards then Sooner(order)(r, b) else Sooner(order)(b, r)
  }

  /** When the identifier is named before the last term, every other row is
      still placed right, and the boundary row itself is given again exactly
      when its last key is past its identifier in the direction of the paging.
      So a page follows its boundary if and only if the identifier is last or
      that comparison fails, which backwards is the opposite comparison. */
  lemma BoundaryIsRight(b: Row, order: seq<SortBy>, backwards: bool)
    requires order != [] && Names(order, SORT_ID)
    ensures |Want(BoundaryOf(b, order))| == |order|
    ensures (forall r: Row :: r.id != b.id || r == b ==>
               Beyond(order, Want(BoundaryOf(b, order)), backwards)(r) == Passes(order, b, r, backwards))
       <==> IdLast(order) || !GivenAgain(b, order, backwards)
  {
    hide Before, Keys, Key, Down, Want, BoundaryOf, GivenAgain, Passes, Beyond;
    var want := Want(BoundaryOf(b, order));
    WantIsKeys(b, order);
    if IdLast(order) {
      forall r ensures Beyond(order, want, backwards)(r) == Passes(order, b, r, backwards) {
        PassesIs(order, b, r, backwards);
        BeyondIsLater(b, order, r, backwards);
      }
    } else {
      forall r: Row | r.id != b.id ensures Beyond(order, want, backwards)(r) == Passes(order, b, r, backwards) {
        OthersAreRight(b, order, r, backwards);
      }
      OwnRow(b, order, backwards);
    }
  }

  /** The last key of a row is past its own identifier. */
  predicate GivenAgain(b: Row, order: seq<SortBy>, backwards: bool)
    requires order != []
  {
    var last := order[|order| - 1];
    Ahead(ByteLess(), last.descending != backwards, b.id, Key(b, last.field))
  }

  lemma PassesIs(order: seq<SortBy>, b: Row, r: Row, backwards: bool)
    ensures Passes(order, b, r, backwards) == if backwards then Sooner(order)(r, b) else Sooner(order)(b, r)
  {
  }

  function Way(order: seq<SortBy>, backwards: bool): (d: seq<bool>)
    ensures |d| == |order| && forall i :: 0 <= i < |d| ==> d[i] == (order[i].descending != backwards)
  {
    if backwards then Flipped(Down(order)) else Down(order)
  }

  lemma PassesAlong(order: seq<SortBy>, b: Row, r: Row, backwards: bool)
    ensures Passes(order, b, r, backwards) == Before(ByteLess(), Way(order, backwards), Keys(order, b), Keys(order, r))
  {
    FlipTurns(ByteLess(), Down(order), Keys(order, b), Keys(order, r));
  }

  lemma OthersAreRight(b: Row, order: seq<SortBy>, r: Row, backwards: bool)
    requires order != [] && Names(order, SORT_ID) && !IdLast(order) && r.id != b.id
    ensures |Want(BoundaryOf(b, order))| == |order|
    ensures Beyond(order, Want(BoundaryOf(b, order)), backwards)(r) == Passes(order, b, r, backwards)
  {
    hide *;
    WantIsKeys(b, order);
    PassesAlong(order, b, r, backwards);
    BeyondAlong(order, b, r, backwards);
    var i := IdIsEarlier(order);
    KeyAtId(order, b, i);
    KeyAtId(order, r, i);
    var keys := Keys(order, b);
    SameFront(keys[..|order| - 1], b.id);
    DecidedEarly(Way(order, backwards), Want(BoundaryOf(b, order)), keys, Keys(order, r), i);
  }

  lemma SameFront(front: seq<string>, last: string)
    ensures (front + [last])[..|front|] == front
  {
  }

  lemma BeyondAlong(order: seq<SortBy>, b: Row, r: Row, backwards: bool)
    requires order != []
    ensures |Want(BoundaryOf(b, order))| == |order|
    ensures Beyond(order, Want(BoundaryOf(b, order)), backwards)(r)
         == Before(ByteLess(), Way(order, backwards), Want(BoundaryOf(b, order)), Keys(order, r))
  {
    hide Before, Keys, Want, BoundaryOf;
    WantIsKeys(b, order);
  }

  lemma IdIsEarlier(order: seq<SortBy>) returns (i: nat)
    requires order != [] && Names(order, SORT_ID) && !IdLast(order)
    ensures i < |order| - 1 && order[i].field == SORT_ID
  {
    i :| 0 <= i < |order| && order[i].field == SORT_ID;
  }

  lemma KeyAtId(order: seq<SortBy>, r: Row, i: nat)
    requires i < |order| && order[i].field == SORT_ID
    ensures Keys(order, r)[i] == r.id
  {
  }

  lemma OwnRow(b: Row, order: seq<SortBy>, backwards: bool)
    requires order != []
    ensures |Want(BoundaryOf(b, order))| == |order|
    ensures !Passes(order, b, b, backwards)
    ensures Beyond(order, Want(BoundaryOf(b, order)), backwards)(b) <==> GivenAgain(b, order, backwards)
  {
    hide Before, Key;
    WantIsKeys(b, order);
    assert Keys(order, b)[|order| - 1] == Key(b, order[|order| - 1].field);
    OnlyLastDiffers(Way(order, backwards), Want(BoundaryOf(b, order)), Keys(order, b));
    BeforeIrreflexive(ByteLess(), Down(order), Keys(order, b));
    Lex.Irreflexive(b.id);
  }

  /** Sorted by identifier and then by action, the row "a" of action "b" follows
      itself forwards, and the row "b" of action "a" precedes itself backwards. */
  lemma RowFollowsItself(r: Row, backwards: bool)
    requires if backwards then r.id == "b" && r.action == "a" else r.id == "a" && r.action == "b"
    ensures var order := SearchOrder([SortBy(SORT_ID, false), SortBy(SORT_ACTION, false)]);
            && |Want(BoundaryOf(r, order))| == |order|
            && Beyond(order, Want(BoundaryOf(r, order)), backwards)(r) && !Passes(order, r, r, backwards)
  {
    hide SearchOrder, Beyond, Passes, Want, BoundaryOf;
    IdThenAction();
    OwnRow(r, [SortBy(SORT_ID, false), SortBy(SORT_ACTION, false)], backwards);
    assert SORT_ACTION[0] == 'a' && SORT_OCCURRED_AT[0] == 'o' && SORT_RECORDED_AT[0] == 'r';
    assert Key(r, SORT_ACTION) == r.action;
  }

  lemma IdThenAction()
    ensures var sort := [SortBy(SORT_ID, false), SortBy(SORT_ACTION, false)]; SearchOrder(sort) == sort
  {
    var sort := [SortBy(SORT_ID, false), SortBy(SORT_ACTION, false)];
    assert sort[..1] == [SortBy(SORT_ID, false)] && sort[..1][..0] == [];
    assert |SORT_ID| != |SORT_ACTION|;
    assert Kept(sort[..1]) == sort[..1];
    assert sort[0].field == SORT_ID;
    assert Kept(sort) == sort;
  }

  /** What follows a difference does not matter. */
  lemma {:induction false} DecidedEarly(down: seq<bool>, w: seq<string>, a: seq<string>, b: seq<string>, i: nat)
    requires |w| == |a| == |b| == |down| && i < |down| - 1
    requires w[..|w| - 1] == a[..|a| - 1] && a[i] != b[i]
    ensures Before(ByteLess(), down, w, b) == Before(ByteLess(), down, a, b)
  {
    assert w[..|w| - 1][0] == a[..|a| - 1][0];
    if a[0] == b[0] {
      assert w[1..][..|w| - 2] == w[..|w| - 1][1..] && a[1..][..|a| - 2] == a[..|a| - 1][1..];
      DecidedEarly(down[1..], w[1..], a[1..], b[1..], i - 1);
    }
  }

  lemma {:induction false} OnlyLastDiffers(down: seq<bool>, w: seq<string>, a: seq<string>)
    requires |w| == |a| == |down| > 0 && w[..|w| - 1] == a[..|a| - 1]
    ensures Before(ByteLess(), down, w, a)
       <==> w[|w| - 1] != a[|a| - 1] && Ahead(ByteLess(), down[|down| - 1], w[|w| - 1], a[|a| - 1])
  {
    if |down| > 1 {
      assert w[..|w| - 1][0] == a[..|a| - 1][0];
      assert w[1..][..|w| - 2] == w[..|w| - 1][1..] && a[1..][..|a| - 2] == a[..|a| - 1][1..];
      OnlyLastDiffers(down[1..], w[1..], a[1..]);
    }
  }

  // ----- the search

  function Limit(limit: int): nat
  {
    if limit <= 0 then 100 else if limit > 1000 then 1000 else limit
  }

  function Wanted(q: Query): Row -> bool
  {
    (r: Row) => Granted(r, q.tenants) && Matches(r, q.filter)
  }

  /** Rows past the boundary of a query, in order. */
  function PastBoundary(rows: seq<Row>, q: Query): seq<Row>
    requires q.after.Some? ==> |SearchOrder(q.sort)| - 1 <= |q.after.value.values|
  {
    var order := SearchOrder(q.sort);
    var sorted := Sort(Sooner(order), Filter(Wanted(q), rows));
    match q.after
    case None => sorted
    case Some(at) => Filter(Beyond(order, Want(at), q.backwards), sorted)
  }

  /** A page cut out of them, read from the end when paging backwards. */
  function Cut(rest: seq<Row>, backwards: bool, limit: nat): seq<Row>
  {
    var turned := if backwards then Reversed(rest) else rest;
    var cut := if |turned| > limit then turned[..limit] else turned;
    if backwards then Reversed(cut) else cut
  }

  function Found(rows: seq<Row>, q: Query): Result
    requires q.after.Some? ==> |SearchOrder(q.sort)| - 1 <= |q.after.value.values|
  {
    var order := SearchOrder(q.sort);
    var rest := PastBoundary(rows, q);
    var page := Cut(rest, q.backwards, Limit(q.limit));
    Result(page, |rest| > Limit(q.limit),
           if page != [] then Some(BoundaryOf(page[|page| - 1], order)) else q.after,
           if page != [] then Some(BoundaryOf(page[0], order)) else None)
  }

  /** A slice turned round in place, from both ends inwards. */
  method Reverse(a: array<Row>)
    modifies a
    ensures a[..] == Reversed(old(a[..]))
  {
    hide Reversed;
    var i, z := 0, a.Length - 1;
    while i < z
      invariant 0 <= i && i + z == a.Length - 1 && i <= z + 1
      invariant forall k :: 0 <= k < i || z < k < a.Length ==> a[k] == old(a[a.Length - 1 - k])
      invariant forall k :: i <= k <= z ==> a[k] == old(a[k])
    {
      a[i], a[z] := a[z], a[i];
      i, z := i + 1, z - 1;
    }
    assert forall k :: 0 <= k < a.Length ==> a[k] == old(a[..])[a.Length - 1 - k];
  }

  method Select(rows: seq<Row>, q: Query) returns (matched: seq<Row>)
    ensures matched == Filter(Wanted(q), rows)
  {
    hide Granted, Matches;
    matched := [];
    var i := 0;
    while i < |rows|
      invariant 0 <= i <= |rows|
      invariant matched == Filter(Wanted(q), rows[..i])
    {
      assert rows[..i + 1][..i] == rows[..i];
      if Granted(rows[i], q.tenants) && Matches(rows[i], q.filter) {
        matched := matched + [rows[i]];
      }
      i := i + 1;
    }
    assert rows[..i] == rows;
  }

  method CutPage(rest: seq<Row>, backwards: bool, limit: nat) returns (page: seq<Row>, more: bool)
    ensures page == Cut(rest, backwards, limit) && more == (|rest| > limit)
  {
    page, more := rest, false;
    if backwards {
      page := Turn(page);
    }
    if |page| > limit {
      more := true;
      page := page[..limit];
    }
    if backwards {
      page := Turn(page);
    }
  }

  method Find(rows: seq<Row>, q: Query) returns (page: Result)
    requires q.after.Some? ==> |SearchOrder(q.sort)| - 1 <= |q.after.value.values|
    ensures page == Found(rows, q)
  {
    hide Filter, Sort, SearchOrder, Sooner, BoundaryOf, Limit, Cut;
    var limit := Limit(q.limit);
    var order := BuildOrder(q.sort);
    var matched := Select(rows, q);
    matched := Sort(Sooner(order), matched);
    if q.after.Some? {
      matched := After(matched, order, q.after.value, q.backwards);
    }
    var more;
    matched, more := CutPage(matched, q.backwards, limit);
    var next, prev := q.after, None;
    if |matched| > 0 {
      next := Some(BoundaryOf(matched[|matched| - 1], order));
      prev := Some(BoundaryOf(matched[0], order));
    }
    page := Result(matched, more, next, prev);
  }

  const MAX_CONJUNCTIONS := 4

  datatype Outcome = NoProfile | TooManyConjunctions(asked: nat) | Given(page: Result)

  /** `Search`: refused without a profile, then for more conjunctions than it
      takes, and answered otherwise. */
  method Ask(profile: string, rows: seq<Row>, q: Query) returns (r: Outcome)
    requires q.after.Some? ==> |SearchOrder(q.sort)| - 1 <= |q.after.value.values|
    ensures r.NoProfile? <==> profile == ""
    ensures r.TooManyConjunctions? <==> profile != "" && |q.filter| > MAX_CONJUNCTIONS
    ensures r.TooManyConjunctions? ==> r.asked == |q.filter|
    ensures r.Given? ==> r.page == Found(rows, q)
  {
    hide Found, SearchOrder;
    if profile == "" {
      return NoProfile;
    }
    if |q.filter| > MAX_CONJUNCTIONS {
      return TooManyConjunctions(|q.filter|);
    }
    var page := Find(rows, q);
    return Given(page);
  }

  method Turn(s: seq<Row>) returns (r: seq<Row>)
    ensures r == Reversed(s)
  {
    var a := new Row[|s|](i requires 0 <= i < |s| => s[i]);
    assert a[..] == s;
    Reverse(a);
    r := a[..];
  }

  // ----- what a page holds

  /** A page holds rows that are there, of a tenant that is granted where any is
      named, and that the filter matches. */
  lemma PageIsGranted(rows: seq<Row>, q: Query)
    requires q.after.Some? ==> |SearchOrder(q.sort)| - 1 <= |q.after.value.values|
    ensures forall r :: r in Found(rows, q).rows ==>
              && r in rows && Matches(r, q.filter)
              && (|q.tenants| > 0 ==> exists t :: t in q.tenants && t == r.tenantId)
  {
    hide SearchOrder, Matches, Sort, Filter, BoundaryOf, Reversed;
    forall r | r in Found(rows, q).rows ensures r in PastBoundary(rows, q) {
      CutHas(PastBoundary(rows, q), q.backwards, Limit(q.limit), r);
    }
  }

  lemma CutHas(rest: seq<Row>, backwards: bool, limit: nat, r: Row)
    ensures r in Cut(rest, backwards, limit) ==> r in rest
  {
    hide Reversed;
    var turned := if backwards then Reversed(rest) else rest;
    var cut := if |turned| > limit then turned[..limit] else turned;
    if i :| 0 <= i < |Cut(rest, backwards, limit)| && Cut(rest, backwards, limit)[i] == r {
      assert r == if backwards then cut[|cut| - 1 - i] else cut[i];
      assert r in turned;
      var j :| 0 <= j < |turned| && turned[j] == r;
      assert r == rest[if backwards then |rest| - 1 - j else j];
    }
  }

  /** A page is of what was asked, a hundred rows when nothing was and a thousand
      at most, and is full when there is more; an empty one keeps its place. */
  lemma PageIsBounded(rows: seq<Row>, q: Query)
    requires q.after.Some? ==> |SearchOrder(q.sort)| - 1 <= |q.after.value.values|
    ensures var p := Found(rows, q);
            && (q.limit <= 0 ==> |p.rows| <= 100 && (p.more ==> |p.rows| == 100))
            && (0 < q.limit <= 1000 ==> |p.rows| <= q.limit && (p.more ==> |p.rows| == q.limit))
            && (1000 < q.limit ==> |p.rows| <= 1000 && (p.more ==> |p.rows| == 1000))
            && (p.rows == [] ==> p.next == q.after && p.prev == None)
  {
    hide SearchOrder, PastBoundary, BoundaryOf, Reversed;
  }

  lemma CutIsPart(rest: seq<Row>, backwards: bool, limit: nat) returns (from: nat)
    ensures var page := Cut(rest, backwards, limit);
            && from + |page| <= |rest| && |page| == (if |rest| > limit then limit else |rest|)
            && page == rest[from..from + |page|]
  {
    hide Reversed;
    from := if backwards && |rest| > limit then |rest| - limit else 0;
  }

  lemma RestIsInOrder(rows: seq<Row>, q: Query)
    requires DistinctIds(rows) && (q.after.Some? ==> |SearchOrder(q.sort)| - 1 <= |q.after.value.values|)
    ensures Ascending(Sooner(SearchOrder(q.sort)), PastBoundary(rows, q))
  {
    hide SearchOrder, Sooner, Sort, Filter, Beyond;
    var order := SearchOrder(q.sort);
    var less := Sooner(order);
    SoonerIsStrict(order);
    OrderIsTotal(order, rows);
    FilterSeparates(less, Wanted(q), rows);
    SortAscends(less, Filter(Wanted(q), rows));
    if q.after.Some? {
      FilterAscends(less, Beyond(order, Want(q.after.value), q.backwards), Sort(less, Filter(Wanted(q), rows)));
    }
  }

  lemma PageIsPart(rows: seq<Row>, q: Query) returns (from: nat)
    requires q.after.Some? ==> |SearchOrder(q.sort)| - 1 <= |q.after.value.values|
    ensures var rest, p := PastBoundary(rows, q), Found(rows, q);
            && from + |p.rows| <= |rest| && p.rows == rest[from..from + |p.rows|] && (p.more <==> |p.rows| < |rest|)
  {
    hide SearchOrder, PastBoundary, Cut, BoundaryOf;
    from := CutIsPart(PastBoundary(rows, q), q.backwards, Limit(q.limit));
  }

  /** What is past a boundary: the rows that are granted, match and go beyond it. */
  ghost predicate IsPast(rows: seq<Row>, q: Query, r: Row)
    requires q.after.Some? ==> |SearchOrder(q.sort)| - 1 <= |q.after.value.values|
  {
    && r in rows && Granted(r, q.tenants) && Matches(r, q.filter)
    && (q.after.Some? ==> Beyond(SearchOrder(q.sort), Want(q.after.value), q.backwards)(r))
  }

  lemma PastIs(rows: seq<Row>, q: Query, r: Row)
    requires q.after.Some? ==> |SearchOrder(q.sort)| - 1 <= |q.after.value.values|
    ensures r in PastBoundary(rows, q) <==> IsPast(rows, q, r)
  {
    hide SearchOrder, Sooner, Sort, Filter, Beyond, Granted, Matches;
  }

  /** There is more exactly when a row that is granted and matches and is past the
      boundary is not on the page. */
  lemma MoreMeansMore(rows: seq<Row>, q: Query)
    requires DistinctIds(rows) && (q.after.Some? ==> |SearchOrder(q.sort)| - 1 <= |q.after.value.values|)
    ensures Found(rows, q).more <==> exists r :: IsPast(rows, q, r) && r !in Found(rows, q).rows
  {
    hide SearchOrder, PastBoundary, Found, IsPast, Sooner;
    var from := PageIsPart(rows, q);
    RestIsInOrder(rows, q);
    SoonerIsStrict(SearchOrder(q.sort));
    var rest, page := PastBoundary(rows, q), Found(rows, q).rows;
    forall r ensures r in rest <==> IsPast(rows, q, r) { PastIs(rows, q, r); }
    if |page| < |rest| {
      LeavesOne(Sooner(SearchOrder(q.sort)), rest, from, from + |page|);
    } else {
      assert page == rest;
    }
  }

  lemma LeavesOne(less: Order<Row>, rest: seq<Row>, from: nat, to: nat)
    requires Strict(less) && Ascending(less, rest) && from <= to <= |rest| && to - from < |rest|
    ensures exists r :: r in rest && r !in rest[from..to]
  {
    var k := if from > 0 then 0 else to;
    var r := rest[k];
    assert r in rest;
    assert forall i :: from <= i < to ==> i != k && rest[i] != r;
  }

  /** Two rows are not the wrong way round by a component: texts by their bytes,
      moments by their second. */
  ghost predicate InTurn(field: string, a: Row, b: Row)
  {
    && (field == "action" ==> !Lex.Less(b.action, a.action))
    && (field == "source" ==> !Lex.Less(b.source, a.source))
    && (field == "tenant_id" ==> !Lex.Less(b.tenantId, a.tenantId))
    && (field == "id" ==> !Lex.Less(b.id, a.id))
    && (field == "occurred_at" && InYears(a.occurredAt) && InYears(b.occurredAt) ==>
          a.occurredAt / 1_000_000_000 <= b.occurredAt / 1_000_000_000)
    && (field == "recorded_at" && InYears(a.recordedAt) && InYears(b.recordedAt) ==>
          a.recordedAt / 1_000_000_000 <= b.recordedAt / 1_000_000_000)
  }

  /** A page is in order by the component that is asked for first, up or down. */
  lemma PageIsSorted(rows: seq<Row>, q: Query, i: nat, j: nat)
    requires DistinctIds(rows) && (q.after.Some? ==> |SearchOrder(q.sort)| - 1 <= |q.after.value.values|)
    requires i < j < |Found(rows, q).rows|
    ensures var first, second, term := Found(rows, q).rows[i], Found(rows, q).rows[j], SearchOrder(q.sort)[0];
            if term.descending then InTurn(term.field, second, first) else InTurn(term.field, first, second)
  {
    hide PastBoundary, Found, InTurn, Sooner;
    var order := SearchOrder(q.sort);
    hide SearchOrder;
    var from := PageIsPart(rows, q);
    RestIsInOrder(rows, q);
    var rest, page := PastBoundary(rows, q), Found(rows, q).rows;
    assert page[i] == rest[from + i] && page[j] == rest[from + j];
    FirstKeys(order, page[i], page[j]);
  }

  lemma FirstKeys(order: seq<SortBy>, first: Row, second: Row)
    requires order != [] && Sooner(order)(first, second)
    ensures var field := order[0].field;
            if order[0].descending then InTurn(field, second, first) else InTurn(field, first, second)
  {
    hide Key, InTurn;
    var x, y := Key(first, order[0].field), Key(second, order[0].field);
    Lex.Irreflexive(x);
    if Lex.Less(x, y) { Lex.Asymmetric(x, y); }
    if Lex.Less(y, x) { Lex.Asymmetric(y, x); }
    assert Keys(order, first)[0] == Key(first, order[0].field) && Keys(order, second)[0] == Key(second, order[0].field);
    assert Down(order)[0] == order[0].descending;
    assert Before(ByteLess(), Down(order), Keys(order, first), Keys(order, second));
    assert x != y ==> Ahead(ByteLess(), order[0].descending, x, y);
    if order[0].descending {
      KeysTell(order[0].field, second, first);
    } else {
      KeysTell(order[0].field, first, second);
    }
  }

  lemma KeysTell(field: string, a: Row, b: Row)
    requires !Lex.Less(Key(b, field), Key(a, field))
    ensures InTurn(field, a, b)
  {
    hide Key, Rfc3339Nano, InYears, Lex.Less;
    KeysByName(a);
    KeysByName(b);
    if InYears(a.occurredAt) && InYears(b.occurredAt) { SecondsDecide(a.occurredAt, b.occurredAt); }
    if InYears(a.recordedAt) && InYears(b.recordedAt) { SecondsDecide(a.recordedAt, b.recordedAt); }
  }

  lemma KeysByName(r: Row)
    ensures Key(r, "action") == r.action && Key(r, "source") == r.source && Key(r, "tenant_id") == r.tenantId
    ensures Key(r, "id") == r.id && Key(r, "occurred_at") == Rfc3339Nano(r.occurredAt)
    ensures Key(r, "recorded_at") == Rfc3339Nano(r.recordedAt)
  {
    hide Rfc3339Nano;
    assert |"occurred_at"| == |"recorded_at"| == 11 && "occurred_at"[0] == 'o' && "recorded_at"[0] == 'r';
    assert |"action"| == |"source"| == 6 && "action"[0] == 'a' && "source"[0] == 's';
    assert |"tenant_id"| == 9 && |"id"| == 2;
  }

  lemma SecondsDecide(a: int, b: int)
    requires InYears(a) && InYears(b)
    ensures a / 1_000_000_000 > b / 1_000_000_000 ==> Lex.Less(Rfc3339Nano(b), Rfc3339Nano(a))
  {
    hide InYears, Rfc3339Nano, Lex.Less, Digits;
    if b < a { KeysAreChronological(b, a); }
  }

  /** A sort that asks nothing is newest first, and by identifier within a moment. */
  lemma DefaultOrder()
    ensures SearchOrder([]) == [SortBy("occurred_at", true), SortBy("id", false)]
  {
  }

  ghost predicate IsFirst(sort: seq<SortBy>, k: int)
  {
    0 <= k < |sort| && sort[k].field != "" && forall j :: 0 <= j < k ==> sort[j].field != sort[k].field
  }

  /** Some terms are the first that name each field, at these places of a sort. */
  ghost predicate AreFirst(sort: seq<SortBy>, kept: seq<SortBy>, at: seq<nat>)
  {
    && |at| == |kept| && (forall i :: 0 <= i < |at| ==> IsFirst(sort, at[i]) && kept[i] == sort[at[i]])
    && forall i, j :: 0 <= i < j < |at| ==> at[i] < at[j]
  }

  /** The terms kept of a sort are the first that name each field, with their
      directions and in the order they were asked. */
  lemma {:induction false} TermsKeepTheirPlace(sort: seq<SortBy>) returns (at: seq<nat>)
    ensures AreFirst(sort, Kept(sort), at)
  {
    if sort == [] {
      at := [];
    } else {
      var n := |sort| - 1;
      var was := TermsKeepTheirPlace(sort[..n]);
      NewTerm(sort);
      PlacesStay(sort, n, Kept(sort[..n]), was);
      at := if IsFirst(sort, n) then was + [n] else was;
    }
  }

  lemma PlacesStay(sort: seq<SortBy>, n: nat, kept: seq<SortBy>, at: seq<nat>)
    requires n < |sort| && AreFirst(sort[..n], kept, at)
    ensures AreFirst(sort, kept, at) && (IsFirst(sort, n) ==> AreFirst(sort, kept + [sort[n]], at + [n]))
  {
    forall i | 0 <= i < |at| ensures at[i] < n && IsFirst(sort, at[i]) && kept[i] == sort[at[i]] {
      FirstBefore(sort, n, at[i]);
    }
    hide IsFirst;
  }

  lemma FirstBefore(sort: seq<SortBy>, n: nat, k: nat)
    requires k < n <= |sort|
    ensures IsFirst(sort[..n], k) <==> IsFirst(sort, k)
  {
    assert forall j :: 0 <= j <= k ==> sort[..n][j] == sort[j];
  }

  lemma NewTerm(sort: seq<SortBy>)
    requires sort != []
    ensures var n := |sort| - 1;
            Kept(sort) == if IsFirst(sort, n) then Kept(sort[..n]) + [sort[n]] else Kept(sort[..n])
  {
    var n := |sort| - 1;
    var front := sort[..n];
    assert forall k :: 0 <= k < n ==> front[k] == sort[k] && front[k] in front;
    if i :| 0 <= i < |Kept(front)| && Kept(front)[i].field == sort[n].field {
      assert Kept(front)[i] in Kept(front);
      var k :| 0 <= k < n && front[k] == Kept(front)[i];
    }
  }

  // ----- a search is a page

  lemma {:induction false} SameFilter<T(!new)>(p: T -> bool, q: T -> bool, s: seq<T>)
    requires forall x :: x in s ==> p(x) == q(x)
    ensures Filter(p, s) == Filter(q, s)
  {
    if s != [] {
      assert s == s[..|s| - 1] + [s[|s| - 1]];
      SameFilter(p, q, s[..|s| - 1]);
    }
  }

  lemma FilterAll<T(!new)>(p: T -> bool, s: seq<T>)
    requires forall x :: x in s ==> p(x)
    ensures Filter(p, s) == s
  {
    if s != [] {
      assert s == s[..|s| - 1] + [s[|s| - 1]];
      FilterAll(p, s[..|s| - 1]);
    }
  }

  /** Forwards, with the identifier last, a search is the page that follows the
      row its boundary was taken from. */
  lemma ForwardIsFollowing(rows: seq<Row>, q: Query, b: Option<Row>)
    requires !q.backwards && IdLast(SearchOrder(q.sort))
    requires b.None? ==> q.after.None?
    requires b.Some? ==> q.after == Some(BoundaryOf(b.value, SearchOrder(q.sort)))
    ensures var p := Following(Sooner(SearchOrder(q.sort)), Filter(Wanted(q), rows), b, Limit(q.limit));
            Found(rows, q).rows == p.rows && Found(rows, q).more == p.more
  {
    hide Filter, Sort, SearchOrder;
    var order := SearchOrder(q.sort);
    var less := Sooner(order);
    var sorted := Sort(less, Filter(Wanted(q), rows));
    match b
    case None => FilterAll(Past(less, None), sorted);
    case Some(at) =>
      WantIsKeys(at, order);
      forall r | r in sorted ensures Beyond(order, Want(BoundaryOf(at, order)), false)(r) == Past(less, b)(r) {
        BeyondIsLater(at, order, r, false);
      }
      SameFilter(Beyond(order, Want(BoundaryOf(at, order)), false), Past(less, b), sorted);
  }

  /** Backwards it is the page immediately before that row. */
  lemma BackwardIsPreceding(rows: seq<Row>, q: Query, b: Row)
    requires q.backwards && IdLast(SearchOrder(q.sort)) && q.after == Some(BoundaryOf(b, SearchOrder(q.sort)))
    ensures var p := Preceding(Sooner(SearchOrder(q.sort)), Filter(Wanted(q), rows), b, Limit(q.limit));
            Found(rows, q).rows == p.rows && Found(rows, q).more == p.more
  {
    hide Filter, Sort, SearchOrder;
    var order := SearchOrder(q.sort);
    var less := Sooner(order);
    var sorted := Sort(less, Filter(Wanted(q), rows));
    WantIsKeys(b, order);
    forall r | r in sorted ensures Beyond(order, Want(BoundaryOf(b, order)), true)(r) == Short(less, b)(r) {
      BeyondIsLater(b, order, r, true);
    }
    SameFilter(Beyond(order, Want(BoundaryOf(b, order)), true), Short(less, b), sorted);
  }

  // ----- paging

  /** A query followed to its end, page by page, over an index that only grows
      between the pages. */
  ghost predicate Pages(q: Query, shots: seq<seq<Row>>, results: seq<Result>)
  {
    && |shots| == |results| > 0
    && (forall k :: 0 <= k < |shots| ==> DistinctIds(shots[k]))
    && (forall j, k :: 0 <= j <= k < |shots| ==> Ordering.Within(shots[j], shots[k]))
    && results[0] == Found(shots[0], q.(after := None))
    && (forall k :: 0 <= k < |results| - 1 ==>
          && results[k].more && results[k].next.Some?
          && |results[k].next.value.values| == |SearchOrder(q.sort)| - 1
          && results[k + 1] == Found(shots[k + 1], q.(after := results[k].next)))
  }

  function PageOf(r: Result): Page<Row>
  {
    Page(r.rows, r.more)
  }

  function PagesOf(results: seq<Result>): (p: seq<Page<Row>>)
    ensures |p| == |results| && forall i :: 0 <= i < |p| ==> p[i] == PageOf(results[i])
  {
    seq(|results|, i requires 0 <= i < |results| => PageOf(results[i]))
  }

  function Matching(q: Query, shots: seq<seq<Row>>): (m: seq<seq<Row>>)
    ensures |m| == |shots| && forall i :: 0 <= i < |m| ==> m[i] == Filter(Wanted(q), shots[i])
  {
    seq(|shots|, i requires 0 <= i < |shots| => Filter(Wanted(q), shots[i]))
  }

  lemma SameWanted(q: Query, after: Option<Boundary>, rows: seq<Row>)
    ensures Filter(Wanted(q.(after := after)), rows) == Filter(Wanted(q), rows)
  {
    SameFilter(Wanted(q.(after := after)), Wanted(q), rows);
  }

  lemma PagesAreRead(q: Query, shots: seq<seq<Row>>, results: seq<Result>)
    requires !q.backwards && IdLast(SearchOrder(q.sort)) && Pages(q, shots, results)
    ensures Reads(Sooner(SearchOrder(q.sort)), Limit(q.limit), Matching(q, shots), PagesOf(results))
  {
    hide SearchOrder, Sooner, Filter, Found, Following, Limit, Wanted;
    var order := SearchOrder(q.sort);
    var less := Sooner(order);
    var m, p := Matching(q, shots), PagesOf(results);
    forall k | 0 <= k < |m| ensures Separates(less, m[k]) {
      OrderIsTotal(order, shots[k]);
      FilterSeparates(less, Wanted(q), shots[k]);
    }
    forall j, k | 0 <= j <= k < |m| ensures Ordering.Within(m[j], m[k]) {
      assert Ordering.Within(shots[j], shots[k]);
    }
    FirstPage(q, shots[0], results[0]);
    forall k | 0 <= k < |p| - 1 ensures p[k].more && p[k + 1] == Following(less, m[k + 1], End(p[k]), Limit(q.limit)) {
      PageAfter(q, shots[k], if k == 0 then None else results[k - 1].next, results[k], shots[k + 1], results[k + 1]);
    }
  }

  lemma FirstPage(q: Query, rows: seq<Row>, r: Result)
    requires !q.backwards && IdLast(SearchOrder(q.sort)) && r == Found(rows, q.(after := None))
    ensures PageOf(r) == Following(Sooner(SearchOrder(q.sort)), Filter(Wanted(q), rows), None, Limit(q.limit))
  {
    hide SearchOrder, Found, Following, Limit, Filter;
    ForwardIsFollowing(rows, q.(after := None), None);
    SameWanted(q, None, rows);
  }

  lemma MoreHasRows(rows: seq<Row>, q: Query)
    requires q.after.Some? ==> |SearchOrder(q.sort)| - 1 <= |q.after.value.values|
    ensures var r := Found(rows, q);
            r.more ==> r.rows != [] && r.next == Some(BoundaryOf(r.rows[|r.rows| - 1], SearchOrder(q.sort)))
  {
    hide SearchOrder, PastBoundary, BoundaryOf;
  }

  lemma PageAfter(q: Query, rows: seq<Row>, after: Option<Boundary>, r: Result, next: seq<Row>, s: Result)
    requires !q.backwards && IdLast(SearchOrder(q.sort)) && r.more
    requires after.Some? ==> |after.value.values| == |SearchOrder(q.sort)| - 1
    requires r == Found(rows, q.(after := after)) && r.next.Some?
    requires |r.next.value.values| == |SearchOrder(q.sort)| - 1 && s == Found(next, q.(after := r.next))
    ensures PageOf(s) == Following(Sooner(SearchOrder(q.sort)), Filter(Wanted(q), next), End(PageOf(r)), Limit(q.limit))
  {
    hide SearchOrder, Found, Following, Limit, Filter;
    MoreHasRows(rows, q.(after := after));
    ForwardIsFollowing(next, q.(after := r.next), Some(r.rows[|r.rows| - 1]));
    SameWanted(q, r.next, next);
  }

  /** Every row that matches and was there when paging began is given exactly
      once, whatever rows arrive between the pages, and all of them in order. */
  lemma PagingGivesEachOnce(q: Query, shots: seq<seq<Row>>, results: seq<Result>)
    requires !q.backwards && IdLast(SearchOrder(q.sort)) && Pages(q, shots, results) && !results[|results| - 1].more
    ensures var all := AllRows(PagesOf(results));
            && Ascending(Sooner(SearchOrder(q.sort)), all)
            && (forall i, j :: 0 <= i < j < |all| ==> all[i] != all[j])
            && (forall r :: r in shots[0] && Wanted(q)(r) ==> r in all)
            && (forall r :: r in all ==> r in shots[|shots| - 1] && Wanted(q)(r))
  {
    hide SearchOrder, Sooner, Filter, Found, Following, Wanted;
    PagesAreRead(q, shots, results);
    SoonerIsStrict(SearchOrder(q.sort));
    PagingIsComplete(Sooner(SearchOrder(q.sort)), Limit(q.limit), Matching(q, shots), PagesOf(results));
  }

  /** Over an index that does not change, the page before the second is the
      first again. */
  lemma PagingBackReturns(q: Query, rows: seq<Row>, b: Option<Row>)
    requires !q.backwards && IdLast(SearchOrder(q.sort)) && DistinctIds(rows)
    requires b.None? ==> q.after.None?
    requires b.Some? ==> q.after == Some(BoundaryOf(b.value, SearchOrder(q.sort)))
    requires Found(rows, q).more
    ensures var p := Found(rows, q);
            p.next.Some? && |p.next.value.values| == |SearchOrder(q.sort)| - 1 &&
            var n := Found(rows, q.(after := p.next));
            n.prev.Some? && |n.prev.value.values| == |SearchOrder(q.sort)| - 1 &&
            Found(rows, q.(after := n.prev, backwards := true)).rows == p.rows
  {
    hide Sooner, Filter, Following, Preceding, PastBoundary, Cut, Granted, Matches;
    var order := SearchOrder(q.sort);
    var less := Sooner(order);
    var m := Filter(Wanted(q), rows);
    var p := Found(rows, q);
    ForwardIsFollowing(rows, q, b);
    MoreHasRows(rows, q);
    var last := p.rows[|p.rows| - 1];
    var q2 := q.(after := p.next);
    ForwardIsFollowing(rows, q2, Some(last));
    SameWanted(q, p.next, rows);
    SoonerIsStrict(order);
    OrderIsTotal(order, rows);
    FilterSeparates(less, Wanted(q), rows);
    BackAgain(less, m, b, Limit(q.limit));
    var n := Found(rows, q2);
    var q3 := q.(after := n.prev, backwards := true);
    BackwardIsPreceding(rows, q3, n.rows[0]);
    SameFilter(Wanted(q3), Wanted(q), rows);
  }
}
