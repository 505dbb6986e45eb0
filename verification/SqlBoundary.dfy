/** The keyset boundary of index/postgres/search.go, one conjunction for each
    sort term. Columns of moments compare to the microsecond; a text bound to
    one is read as the moment it was printed from, to the nearest microsecond. */
module SqlBoundary {
  import opened Options
  import Lex
  import opened Lexicographic
  import opened Rows
  import opened Calendar
  import opened TimeText
  import opened Timestamptz
  import opened Search

  datatype SortColumn = OccurredAtCol | RecordedAtCol | IdCol | ActionCol | TenantCol | SourceCol

  /** `column`: the six that can be sorted by. */
  function ColumnOf(field: string): Option<SortColumn>
  {
    if field == SORT_OCCURRED_AT then Some(OccurredAtCol)
    else if field == SORT_RECORDED_AT then Some(RecordedAtCol)
    else if field == SORT_ID then Some(IdCol)
    else if field == SORT_ACTION then Some(ActionCol)
    else if field == SORT_TENANT_ID then Some(TenantCol)
    else if field == SORT_SOURCE then Some(SourceCol)
    else None
  }

  predicate Sortable(order: seq<SortBy>)
  {
    forall i :: 0 <= i < |order| ==> ColumnOf(order[i].field).Some?
  }

  datatype Cell = TextCell(text: string) | TimeCell(micros: int)

  function CellOf(r: Row, c: SortColumn): Cell
  {
    match c
    case OccurredAtCol => TimeCell(Micros(r.occurredAt))
    case RecordedAtCol => TimeCell(Micros(r.recordedAt))
    case IdCol => TextCell(r.id)
    case ActionCol => TextCell(r.action)
    case TenantCol => TextCell(r.tenantId)
    case SourceCol => TextCell(r.source)
  }

  function Cells(order: seq<SortBy>, r: Row): (k: seq<Cell>)
    requires Sortable(order)
    ensures |k| == |order|
  {
    seq(|order|, i requires 0 <= i < |order| => CellOf(r, ColumnOf(order[i].field).value))
  }

  function CellLess(): Less<Cell>
  {
    (a: Cell, b: Cell) =>
      match (a, b)
      case (TextCell(x), TextCell(y)) => Lex.Less(x, y)
      case (TimeCell(x), TimeCell(y)) => x < y
      case (TextCell(_), TimeCell(_)) => true
      case (TimeCell(_), TextCell(_)) => false
  }

  lemma CellsAreLinear()
    ensures Linear(CellLess())
  {
    forall a: Cell ensures !CellLess()(a, a) { if a.TextCell? { Lex.Irreflexive(a.text); } }
    forall a: Cell, b: Cell, c: Cell | CellLess()(a, b) && CellLess()(b, c) ensures CellLess()(a, c) {
      if a.TextCell? && b.TextCell? && c.TextCell? { Lex.Transitive(a.text, b.text, c.text); }
    }
    forall a: Cell, b: Cell ensures a == b || CellLess()(a, b) || CellLess()(b, a) {
      if a.TextCell? && b.TextCell? { Lex.Total(a.text, b.text); }
    }
  }

  /** The nearest microsecond, the even one of two, which is what reading a text
      gives. */
  function Rounded(t: int): int
  {
    var over := 2 * (t % MICRO) - MICRO;
    Micros(t) + if over > 0 || (over == 0 && Micros(t) % 2 == 1) then 1 else 0
  }

  /** A text argument as its column reads it. */
  ghost function Cast(s: string, c: SortColumn): Cell
  {
    if (c.OccurredAtCol? || c.RecordedAtCol?) && exists t :: InYears(t) && Rfc3339Nano(t) == s then
      var t :| InYears(t) && Rfc3339Nano(t) == s;
      TimeCell(Rounded(t))
    else TextCell(s)
  }

  /** A printed moment is cast to the microsecond the column would hold it in
      exactly when it is in the first half of one, or in the middle of an even
      one, as every moment that was read from a column is. */
  lemma CastOfPrinted(t: int, c: SortColumn)
    requires InYears(t) && (c.OccurredAtCol? || c.RecordedAtCol?)
    ensures Cast(Rfc3339Nano(t), c) == TimeCell(Micros(t)) <==>
            t % MICRO < MICRO / 2 || (t % MICRO == MICRO / 2 && Micros(t) % 2 == 0)
    ensures InYears(Whole(t)) && Cast(Rfc3339Nano(Whole(t)), c) == TimeCell(Micros(t))
  {
    hide Rfc3339Nano, InYears, Cast;
    CastIs(t, c);
    WholeInYears(t);
    CastIs(Whole(t), c);
  }

  lemma CastIs(t: int, c: SortColumn)
    requires InYears(t) && (c.OccurredAtCol? || c.RecordedAtCol?)
    ensures Cast(Rfc3339Nano(t), c) == TimeCell(Rounded(t))
  {
    hide Rfc3339Nano, InYears;
    forall u | InYears(u) && Rfc3339Nano(u) == Rfc3339Nano(t) ensures u == t {
      if u < t { KeysAreChronological(u, t); }
      if t < u { KeysAreChronological(t, u); }
    }
  }

  lemma WholeInYears(t: int)
    requires InYears(t)
    ensures InYears(Whole(t))
  {
    hide FromHour;
    SameSecond(t);
  }

  lemma SameSecond(t: int)
    ensures Whole(t) / NANOS == t / NANOS
  {
    var s := t / NANOS;
    assert s * NANOS <= t < (s + 1) * NANOS;
    assert s * 1_000_000 <= t / MICRO < (s + 1) * 1_000_000;
  }

  // ----- the clause

  datatype Comparator = Equals | After' | Before'

  datatype Term = Term(column: SortColumn, op: Comparator, arg: nat)

  ghost predicate TermHolds(t: Term, args: seq<string>, r: Row)
  {
    t.arg < |args| &&
    var x, y := CellOf(r, t.column), Cast(args[t.arg], t.column);
    match t.op
    case Equals => x == y
    case After' => CellLess()(y, x)
    case Before' => CellLess()(x, y)
  }

  ghost predicate ClauseHolds(clause: seq<Term>, args: seq<string>, r: Row)
  {
    forall i :: 0 <= i < |clause| ==> TermHolds(clause[i], args, r)
  }

  /** The disjunction selects a row when one of its conjunctions holds. */
  ghost predicate BoundarySelects(clauses: seq<seq<Term>>, args: seq<string>, r: Row)
  {
    exists i :: 0 <= i < |clauses| && ClauseHolds(clauses[i], args, r)
  }

  function Directions(order: seq<SortBy>, backwards: bool): (d: seq<bool>)
    ensures |d| == |order|
  {
    if backwards then Flipped(Down(order)) else Down(order)
  }

  /** A term that names the right column and reaches the right argument. */
  ghost predicate TermIs(t: Term, args: seq<string>, field: string, op: Comparator, value: string)
  {
    ColumnOf(field) == Some(t.column) && t.op == op && t.arg < |args| && args[t.arg] == value
  }

  /** The conjunction for one position: equal before it and past at it. */
  ghost predicate ClauseIs(clause: seq<Term>, args: seq<string>, order: seq<SortBy>, want: seq<string>,
                           backwards: bool, i: nat)
    requires |want| == |order| && i < |order|
  {
    && |clause| == i + 1
    && (forall j :: 0 <= j < i ==> TermIs(clause[j], args, order[j].field, Equals, want[j]))
    && TermIs(clause[i], args, order[i].field, if Directions(order, backwards)[i] then Before' else After', want[i])
  }

  lemma ClauseStays(clause: seq<Term>, args: seq<string>, wider: seq<string>, order: seq<SortBy>, want: seq<string>,
                    backwards: bool, i: nat)
    requires |want| == |order| && i < |order| && ClauseIs(clause, args, order, want, backwards, i) && args <= wider
    ensures ClauseIs(clause, wider, order, want, backwards, i)
  {
  }

  /** The statement's arguments, and the clause as it is written into it. */
  class Statement {
    var args: seq<string>
    var clauses: seq<seq<Term>>

    constructor ()
      ensures args == [] && clauses == []
    {
      args, clauses := [], [];
    }

    method Arg(v: string) returns (n: nat)
      modifies this`args
      ensures args == old(args) + [v] && n == |old(args)|
    {
      n := |args|;
      args := args + [v];
    }

    /** The terms that hold every sort key before a position to the boundary's. */
    method Equalities(order: seq<SortBy>, at: Boundary, i: nat) returns (equals: Option<seq<Term>>)
      requires |at.values| == |order| - 1 && i < |order|
      modifies this`args
      ensures old(args) <= args
      ensures equals.None? ==> !Sortable(order)
      ensures equals.Some? ==> |equals.value| == i
      ensures equals.Some? ==>
                forall j :: 0 <= j < i ==> TermIs(equals.value[j], args, order[j].field, Equals, Want(at)[j])
    {
      var terms: seq<Term> := [];
      var j := 0;
      while j < i
        invariant 0 <= j <= i && |terms| == j && old(args) <= args
        invariant forall k :: 0 <= k < j ==> TermIs(terms[k], args, order[k].field, Equals, Want(at)[k])
      {
        var col := ColumnOf(order[j].field);
        if col.None? {
          return None;
        }
        var n := Arg(at.values[j]);
        terms := terms + [Term(col.value, Equals, n)];
        j := j + 1;
      }
      return Some(terms);
    }

    /** `writeBoundary`: refused when the cursor is of another sort, or a field
        cannot be sorted by. */
    method WriteBoundary(order: seq<SortBy>, at: Boundary, backwards: bool) returns (ok: bool)
      requires order != []
      modifies this
      ensures ok <==> |at.values| == |order| - 1 && Sortable(order)
      ensures ok ==> |clauses| == |order| && |Want(at)| == |order|
      ensures ok ==> forall i :: 0 <= i < |order| ==> ClauseIs(clauses[i], args, order, Want(at), backwards, i)
    {
      if |at.values| != |order| - 1 {
        return false;
      }
      var done: seq<seq<Term>> := [];
      var i := 0;
      while i < |order|
        invariant 0 <= i <= |order| && |done| == i
        invariant forall k :: 0 <= k < i ==> ColumnOf(order[k].field).Some?
        invariant forall k :: 0 <= k < i ==> ClauseIs(done[k], args, order, Want(at), backwards, k)
      {
        ghost var had := args;
        var equals := Equalities(order, at, i);
        if equals.None? {
          return false;
        }
        var col := ColumnOf(order[i].field);
        if col.None? {
          return false;
        }
        var descending := order[i].descending;
        if backwards {
          descending := !descending;
        }
        var value := if i < |at.values| then at.values[i] else at.id;
        ghost var equalArgs := args;
        var n := Arg(value);
        var clause := equals.value + [Term(col.value, if descending then Before' else After', n)];
        assert Directions(order, backwards)[i] == descending;
        assert ClauseIs(clause, args, order, Want(at), backwards, i);
        forall k | 0 <= k < i ensures ClauseIs(done[k], args, order, Want(at), backwards, k) {
          ClauseStays(done[k], had, args, order, Want(at), backwards, k);
        }
        done := done + [clause];
        i := i + 1;
      }
      clauses := done;
      return true;
    }
  }

  // ----- what the clause means

  ghost function WantCells(order: seq<SortBy>, want: seq<string>): (k: seq<Cell>)
    requires Sortable(order) && |want| == |order|
    ensures |k| == |order|
    ensures forall i :: 0 <= i < |k| ==> k[i] == Cast(want[i], ColumnOf(order[i].field).value)
  {
    seq(|order|, i requires 0 <= i < |order| => Cast(want[i], ColumnOf(order[i].field).value))
  }

  lemma ClauseMeans(clause: seq<Term>, args: seq<string>, order: seq<SortBy>, want: seq<string>, backwards: bool,
                    i: nat, r: Row)
    requires Sortable(order) && |want| == |order| && i < |order| && ClauseIs(clause, args, order, want, backwards, i)
    ensures ClauseHolds(clause, args, r)
       <==> DiffersAt(CellLess(), Directions(order, backwards), WantCells(order, want), Cells(order, r), i)
  {
    hide Cast, ColumnOf, CellOf, Directions;
    var w, k := WantCells(order, want), Cells(order, r);
    forall j | 0 <= j < i ensures TermHolds(clause[j], args, r) <==> w[j] == k[j] {
      assert TermIs(clause[j], args, order[j].field, Equals, want[j]);
    }
    assert TermHolds(clause[i], args, r) <==> Ahead(CellLess(), Directions(order, backwards)[i], w[i], k[i]);
    PrefixesEqual(w, k, i);
  }

  lemma PrefixesEqual<K>(a: seq<K>, b: seq<K>, i: nat)
    requires i <= |a| && i <= |b|
    ensures a[..i] == b[..i] <==> forall j :: 0 <= j < i ==> a[j] == b[j]
  {
    if a[..i] == b[..i] {
      forall j | 0 <= j < i ensures a[j] == b[j] { assert a[..i][j] == b[..i][j]; }
    }
  }

  /** The disjunction of conjunctions selects exactly the rows past the boundary
      in the mixed-direction order, forwards and backwards. */
  lemma DisjunctionIsBeyond(clauses: seq<seq<Term>>, args: seq<string>, order: seq<SortBy>, want: seq<string>,
                            backwards: bool, r: Row)
    requires Sortable(order) && |want| == |order| == |clauses|
    requires forall i :: 0 <= i < |order| ==> ClauseIs(clauses[i], args, order, want, backwards, i)
    ensures BoundarySelects(clauses, args, r)
       <==> Before(CellLess(), Directions(order, backwards), WantCells(order, want), Cells(order, r))
  {
    hide ClauseIs, ClauseHolds, Before, DiffersAt, Cells, WantCells, Directions;
    var down, w, k := Directions(order, backwards), WantCells(order, want), Cells(order, r);
    CellsAreLinear();
    DisjunctsAreOrder(CellLess(), down, w, k);
    forall i | 0 <= i < |order| ensures ClauseHolds(clauses[i], args, r) <==> DiffersAt(CellLess(), down, w, k, i) {
      ClauseMeans(clauses[i], args, order, want, backwards, i, r);
    }
  }

  // ----- boundaries taken from rows

  /** A row as it is read back: its moments are those of its columns. */
  function ReadBack(r: Row): Row
  {
    r.(occurredAt := Whole(r.occurredAt), recordedAt := Whole(r.recordedAt))
  }

  /** `boundaryOf`, of a row that was read: the printed sort values of all terms
      but the last; a term that is the identifier, or unknown, leaves nothing. */
  function SqlValues(r: Row, order: seq<SortBy>): seq<string>
  {
    if order == [] then []
    else
      var f := order[|order| - 1].field;
      SqlValues(r, order[..|order| - 1])
      + (if ColumnOf(f).None? || f == SORT_ID then [] else [Key(ReadBack(r), f)])
  }

  function SqlBoundaryOf(r: Row, order: seq<SortBy>): Boundary
    requires order != []
  {
    Boundary(SqlValues(r, order[..|order| - 1]), r.id)
  }

  predicate NoIdYet(order: seq<SortBy>)
  {
    forall i :: 0 <= i < |order| ==> ColumnOf(order[i].field).Some? && order[i].field != SORT_ID
  }

  lemma {:induction false} ValuesFit(r: Row, order: seq<SortBy>)
    ensures |SqlValues(r, order)| <= |order|
    ensures |SqlValues(r, order)| == |order| <==> NoIdYet(order)
    ensures NoIdYet(order) ==> SqlValues(r, order) == Keys(order, ReadBack(r))
  {
    hide Key, ColumnOf;
    if order != [] {
      var n := |order| - 1;
      ValuesFit(r, order[..n]);
      assert NoIdYet(order) <==> NoIdYet(order[..n]) && ColumnOf(order[n].field).Some? && order[n].field != SORT_ID;
    }
  }

  /** A cursor this searcher gives is accepted back exactly when every term can
      be sorted by and none before the last is the identifier: named earlier, it
      makes every second page an error. */
  lemma CursorIsAcceptedBack(r: Row, order: seq<SortBy>)
    requires order != []
    ensures |SqlBoundaryOf(r, order).values| == |order| - 1 && Sortable(order)
       <==> NoIdYet(order[..|order| - 1]) && ColumnOf(order[|order| - 1].field).Some?
  {
    hide ColumnOf, Key;
    var n := |order| - 1;
    ValuesFit(r, order[..n]);
    assert Sortable(order) <==> Sortable(order[..n]) && ColumnOf(order[n].field).Some?;
  }

  /** The moments an order sorts by are of years of four digits. */
  ghost predicate InYearsBy(order: seq<SortBy>, r: Row)
  {
    && (Names(order, SORT_OCCURRED_AT) ==> InYears(r.occurredAt))
    && (Names(order, SORT_RECORDED_AT) ==> InYears(r.recordedAt))
  }

  lemma WantIsCells(b: Row, order: seq<SortBy>)
    requires order != [] && NoIdYet(order[..|order| - 1]) && order[|order| - 1].field == SORT_ID && InYearsBy(order, b)
    ensures Sortable(order) && |Want(SqlBoundaryOf(b, order))| == |order|
    ensures WantCells(order, Want(SqlBoundaryOf(b, order))) == Cells(order, b)
    ensures SqlBoundaryOf(b, order) == BoundaryOf(ReadBack(b), order)
  {
    hide InYears, Rfc3339Nano, Cast;
    var n := |order| - 1;
    var front := order[..n];
    ValuesFit(b, front);
    var read := ReadBack(b);
    assert Keys(front, read) == Keys(order, read)[..n];
    assert forall i :: 0 <= i < n ==> order[i] == front[i];
    var want := Want(SqlBoundaryOf(b, order));
    forall i | 0 <= i < |order|
      ensures Cast(want[i], ColumnOf(order[i].field).value) == CellOf(b, ColumnOf(order[i].field).value)
    {
      var c := ColumnOf(order[i].field).value;
      if i < n { assert want[i] == Key(read, order[i].field); }
      if c.OccurredAtCol? {
        assert Names(order, SORT_OCCURRED_AT);
        CastOfPrinted(b.occurredAt, c);
      }
      if c.RecordedAtCol? {
        assert Names(order, SORT_RECORDED_AT);
        CastOfPrinted(b.recordedAt, c);
      }
      CastOfText(want[i], c);
    }
  }

  lemma CastOfText(s: string, c: SortColumn)
    ensures !c.OccurredAtCol? && !c.RecordedAtCol? ==> Cast(s, c) == TextCell(s)
  {
  }

  /** With the identifier last, the clause written for a row's boundary selects
      exactly the rows strictly later than it, or sooner backwards: the order
      the statement sorts by, with moments as its columns have them. */
  lemma ClauseIsStrictlyLater(clauses: seq<seq<Term>>, args: seq<string>, order: seq<SortBy>, b: Row, backwards: bool,
                              r: Row)
    requires order != [] && NoIdYet(order[..|order| - 1]) && order[|order| - 1].field == SORT_ID && InYearsBy(order, b)
    requires Sortable(order) && |clauses| == |order| == |Want(SqlBoundaryOf(b, order))|
    requires forall i :: 0 <= i < |order| ==>
              ClauseIs(clauses[i], args, order, Want(SqlBoundaryOf(b, order)), backwards, i)
    ensures BoundarySelects(clauses, args, r)
       <==> if backwards then Before(CellLess(), Down(order), Cells(order, r), Cells(order, b))
            else Before(CellLess(), Down(order), Cells(order, b), Cells(order, r))
  {
    hide ClauseIs, Before, Cells, WantCells, SqlBoundaryOf, BoundarySelects;
    WantIsCells(b, order);
    DisjunctionIsBeyond(clauses, args, order, Want(SqlBoundaryOf(b, order)), backwards, r);
    FlipTurns(CellLess(), Down(order), Cells(order, b), Cells(order, r));
  }

  // ----- the two searchers

  /** Two moments that differ in their microsecond, and whose printed forms sort
      as they do: not in one second with the fraction of the later going on from
      that of the earlier. */
  ghost predicate SortAlike(a: int, b: int)
  {
    || a == b
    || (&& Micros(a) != Micros(b)
        && !(a / NANOS == b / NANOS && if a < b then Digits(a) < Digits(b) else Digits(b) < Digits(a)))
  }

  /** Memory and database agree on two moments, on whether they are the same
      and on which comes first, exactly when they sort alike. */
  lemma MomentsAgree(a: int, b: int)
    requires InYears(a) && InYears(b)
    ensures SortAlike(a, b) <==>
            && (Micros(a) == Micros(b) <==> Rfc3339Nano(a) == Rfc3339Nano(b))
            && (Micros(a) < Micros(b) <==> Lex.Less(Rfc3339Nano(a), Rfc3339Nano(b)))
            && (Micros(b) < Micros(a) <==> Lex.Less(Rfc3339Nano(b), Rfc3339Nano(a)))
  {
    hide Rfc3339Nano, InYears, Digits;
    Lex.Irreflexive(Rfc3339Nano(a));
    if a < b { LaterAgrees(a, b); }
    if b < a { LaterAgrees(b, a); }
  }

  lemma LaterAgrees(a: int, b: int)
    requires InYears(a) && InYears(b) && a < b
    ensures Rfc3339Nano(a) != Rfc3339Nano(b)
    ensures Lex.Less(Rfc3339Nano(a), Rfc3339Nano(b)) <==> !(a / NANOS == b / NANOS && Digits(a) < Digits(b))
    ensures Lex.Less(Rfc3339Nano(b), Rfc3339Nano(a)) <==> (a / NANOS == b / NANOS && Digits(a) < Digits(b))
  {
    hide Rfc3339Nano, InYears, Digits;
    KeysAreChronological(a, b);
    Lex.Total(Rfc3339Nano(a), Rfc3339Nano(b));
    if Lex.Less(Rfc3339Nano(a), Rfc3339Nano(b)) { Lex.Asymmetric(Rfc3339Nano(a), Rfc3339Nano(b)); }
  }

  /** Within a microsecond, unless the printed forms are out of order too, memory
      puts the earlier row first, and the database, which takes the two moments
      for one, the row of the lesser identifier. */
  lemma WithinAMicrosecond(a: Row, b: Row)
    requires InYears(a.occurredAt) && InYears(b.occurredAt) && a.occurredAt < b.occurredAt && Lex.Less(b.id, a.id)
    requires Micros(a.occurredAt) == Micros(b.occurredAt) && !(Digits(a.occurredAt) < Digits(b.occurredAt))
    ensures var order := [SortBy(SORT_OCCURRED_AT, false), SortBy(SORT_ID, false)];
            && Sortable(order) && Sooner(order)(a, b)
            && Before(CellLess(), Down(order), Cells(order, b), Cells(order, a))
  {
    hide Rfc3339Nano, InYears, Digits, Lex.Less;
    var order := [SortBy(SORT_OCCURRED_AT, false), SortBy(SORT_ID, false)];
    assert |SORT_ID| != |SORT_OCCURRED_AT|;
    LaterAgrees(a.occurredAt, b.occurredAt);
    Lex.Irreflexive(a.id);
    var x, y := Keys(order, a), Keys(order, b);
    assert x[0] == Rfc3339Nano(a.occurredAt) && y[0] == Rfc3339Nano(b.occurredAt);
    assert ByteLess()(x[0], y[0]) && !Down(order)[0];
    assert Before(ByteLess(), Down(order), x, y);
    var k, l := Cells(order, b), Cells(order, a);
    assert Key(a, SORT_ID) == a.id;
    assert k[0] == l[0] && k[1] == TextCell(b.id) && l[1] == TextCell(a.id);
    assert Down(order)[1..][0] == false && k[1..][0] == k[1] && l[1..][0] == l[1];
  }

  /** The moments of two rows that an order sorts by sort alike. */
  ghost predicate RowsSortAlike(order: seq<SortBy>, a: Row, b: Row)
  {
    && InYearsBy(order, a) && InYearsBy(order, b)
    && (Names(order, SORT_OCCURRED_AT) ==> SortAlike(a.occurredAt, b.occurredAt))
    && (Names(order, SORT_RECORDED_AT) ==> SortAlike(a.recordedAt, b.recordedAt))
  }

  /** Where their moments sort alike, memory and database agree on which of two
      rows comes first, and so on what lies past a boundary. */
  lemma {:induction false} SearchersAgree(order: seq<SortBy>, a: Row, b: Row)
    requires Sortable(order) && RowsSortAlike(order, a, b)
    ensures Before(CellLess(), Down(order), Cells(order, a), Cells(order, b))
         == Before(ByteLess(), Down(order), Keys(order, a), Keys(order, b))
  {
    hide RowsSortAlike, Key, CellOf, ColumnOf, Lex.Less;
    if order != [] {
      FewerNames(order, a, b);
      SearchersAgree(order[1..], a, b);
      Tails(order, a);
      Tails(order, b);
      FieldsAgree(order, a, b);
    }
  }

  lemma Tails(order: seq<SortBy>, r: Row)
    requires order != [] && Sortable(order)
    ensures Cells(order, r)[1..] == Cells(order[1..], r) && Keys(order, r)[1..] == Keys(order[1..], r)
    ensures Down(order)[1..] == Down(order[1..])
  {
    hide Key, CellOf, ColumnOf;
  }

  lemma FewerNames(order: seq<SortBy>, a: Row, b: Row)
    requires order != [] && RowsSortAlike(order, a, b)
    ensures RowsSortAlike(order[1..], a, b)
  {
    hide SortAlike, InYears;
    forall f | Names(order[1..], f) ensures Names(order, f) {
      var i :| 0 <= i < |order[1..]| && order[1..][i].field == f;
      assert order[i + 1].field == f;
    }
  }

  lemma FieldsAgree(order: seq<SortBy>, a: Row, b: Row)
    requires order != [] && ColumnOf(order[0].field).Some? && RowsSortAlike(order, a, b)
    ensures var field := order[0].field;
            var c := ColumnOf(field).value;
            && (CellOf(a, c) == CellOf(b, c) <==> Key(a, field) == Key(b, field))
            && (CellLess()(CellOf(a, c), CellOf(b, c)) <==> Lex.Less(Key(a, field), Key(b, field)))
            && (CellLess()(CellOf(b, c), CellOf(a, c)) <==> Lex.Less(Key(b, field), Key(a, field)))
  {
    hide SortAlike, Rfc3339Nano, InYears, Micros, Lex.Less;
    assert Names(order, order[0].field);
    if order[0].field == SORT_OCCURRED_AT { MomentsAgree(a.occurredAt, b.occurredAt); }
    if order[0].field == SORT_RECORDED_AT { MomentsAgree(a.recordedAt, b.recordedAt); }
  }
}
