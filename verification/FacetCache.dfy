/** index/memory.go: rows and counts updated together, and whether the counts
    are still those of the rows. */
module FacetCache {
  import opened Ordering
  import opened Rows
  import opened Facets
  import Lex

  type Table = map<string, Row>
  type Counts = map<Key, int>

  function CountOf<K>(counts: map<K, int>, k: K): int
  {
    if k in counts then counts[k] else 0
  }

  // ----- what a batch brings

  /** The rows after a batch: one already there stays as it is. */
  function Held(rows: Table, batch: seq<Row>): Table
  {
    if batch == [] then rows
    else
      var held, r := Held(rows, batch[..|batch| - 1]), batch[|batch| - 1];
      if r.id in held then held else held[r.id := r]
  }

  /** The rows of a batch that were not there, one for each identifier. */
  function Newcomers(rows: Table, batch: seq<Row>): seq<Row>
  {
    if batch == [] then []
    else
      var r := batch[|batch| - 1];
      Newcomers(rows, batch[..|batch| - 1]) + (if r.id in Held(rows, batch[..|batch| - 1]) then [] else [r])
  }

  function AllMarks(rows: seq<Row>): seq<Key>
  {
    if rows == [] then [] else AllMarks(rows[..|rows| - 1]) + Marks(rows[|rows| - 1])
  }

  function Total(deltas: seq<Delta>, k: Key): int
  {
    if deltas == [] then 0
    else
      var d := deltas[|deltas| - 1];
      Total(deltas[..|deltas| - 1], k) + (if d.key == k then d.count else 0)
  }

  predicate Earlier(a: Delta, b: Delta)
  {
    if a.key.tenant != b.key.tenant then Lex.Less(a.key.tenant, b.key.tenant)
    else if a.key.hour != b.key.hour then a.key.hour < b.key.hour
    else if a.key.field != b.key.field then Lex.Less(a.key.field, b.key.field)
    else Lex.Less(a.key.value, b.key.value)
  }

  /** By tenant first, within one by hour, then by field and then by value. */
  ghost predicate InTurn(a: Key, b: Key)
  {
    && !Lex.Less(b.tenant, a.tenant) && (a.tenant == b.tenant ==> a.hour <= b.hour)
    && (a.tenant == b.tenant && a.hour == b.hour ==> !Lex.Less(b.field, a.field))
    && (a.tenant == b.tenant && a.hour == b.hour && a.field == b.field ==> !Lex.Less(b.value, a.value))
  }

  lemma EarlierIsInTurn(a: Delta, b: Delta)
    requires Earlier(a, b)
    ensures InTurn(a.key, b.key)
  {
    hide Lex.Less;
    Ordered(a.key.tenant, b.key.tenant);
    Ordered(a.key.field, b.key.field);
    Ordered(a.key.value, b.key.value);
  }

  lemma Ordered(x: string, y: string)
    ensures Lex.Less(x, y) || x == y ==> !Lex.Less(y, x)
  {
    Lex.Irreflexive(x);
    if Lex.Less(x, y) { Lex.Asymmetric(x, y); }
  }

  const EARLIER: Order<Delta> := (a: Delta, b: Delta) => Earlier(a, b)

  lemma EarlierIsStrict()
    ensures Strict(EARLIER)
  {
    forall a: Delta ensures !Earlier(a, a) { Lex.Irreflexive(a.key.value); }
    forall a: Delta, b: Delta, c: Delta | Earlier(a, b) && Earlier(b, c) ensures Earlier(a, c) {
      if Lex.Less(a.key.tenant, b.key.tenant) && Lex.Less(b.key.tenant, c.key.tenant) {
        Lex.Transitive(a.key.tenant, b.key.tenant, c.key.tenant);
        Lex.Irreflexive(a.key.tenant);
      }
      if Lex.Less(a.key.field, b.key.field) && Lex.Less(b.key.field, c.key.field) {
        Lex.Transitive(a.key.field, b.key.field, c.key.field);
        Lex.Irreflexive(a.key.field);
      }
      if Lex.Less(a.key.value, b.key.value) && Lex.Less(b.key.value, c.key.value) {
        Lex.Transitive(a.key.value, b.key.value, c.key.value);
      }
      StrictPair(a.key.tenant, b.key.tenant, c.key.tenant);
      StrictPair(a.key.field, b.key.field, c.key.field);
    }
  }

  lemma StrictPair(a: string, b: string, c: string)
    ensures Lex.Less(a, b) && Lex.Less(b, c) ==> a != c
  {
    if Lex.Less(a, b) && Lex.Less(b, c) { Lex.Transitive(a, b, c); Lex.Irreflexive(a); }
  }

  lemma EarlierIsTotal(a: Delta, b: Delta)
    requires a.key != b.key
    ensures Earlier(a, b) || Earlier(b, a)
  {
    Lex.Total(a.key.tenant, b.key.tenant);
    Lex.Total(a.key.field, b.key.field);
    Lex.Total(a.key.value, b.key.value);
  }

  predicate Has(deltas: seq<Delta>, k: Key)
  {
    exists i :: 0 <= i < |deltas| && deltas[i].key == k
  }

  lemma Grows(deltas: seq<Delta>, d: Delta, k: Key)
    ensures Total(deltas + [d], k) == Total(deltas, k) + (if d.key == k then d.count else 0)
    ensures Has(deltas + [d], k) <==> Has(deltas, k) || d.key == k
  {
    var more := deltas + [d];
    assert more[..|more| - 1] == deltas;
    assert more[|deltas|] == d;
    if i :| 0 <= i < |deltas| && deltas[i].key == k { assert more[i].key == k; }
  }

  method Accumulate(deltas: seq<Delta>) returns (totals: Counts)
    ensures forall k :: CountOf(totals, k) == Total(deltas, k)
    ensures forall k :: k in totals <==> Has(deltas, k)
  {
    hide Has, Total;
    totals := map[];
    Nothing();
    assert deltas[..0] == [];
    for i := 0 to |deltas|
      invariant forall k :: CountOf(totals, k) == Total(deltas[..i], k)
      invariant forall k :: k in totals <==> Has(deltas[..i], k)
    {
      var d := deltas[i];
      assert deltas[..i + 1] == deltas[..i] + [d];
      forall k ensures Total(deltas[..i + 1], k) == Total(deltas[..i], k) + (if d.key == k then d.count else 0) &&
                       (Has(deltas[..i + 1], k) <==> Has(deltas[..i], k) || d.key == k)
      {
        Grows(deltas[..i], d, k);
      }
      totals := totals[d.key := CountOf(totals, d.key) + d.count];
    }
    assert deltas[..|deltas|] == deltas;
  }

  lemma Nothing()
    ensures forall k :: Total([], k) == 0 && !Has([], k)
  {
  }

  /** `Merge`: one delta for each key, in order, with the key's total. */
  method Merge(deltas: seq<Delta>) returns (out: seq<Delta>)
    ensures Ascending(EARLIER, out) && forall i, j :: 0 <= i < j < |out| ==> InTurn(out[i].key, out[j].key)
    ensures forall i, j :: 0 <= i < j < |out| ==> out[i].key != out[j].key
    ensures forall d :: d in out ==> d.count == Total(deltas, d.key)
    ensures forall k :: Has(out, k) <==> Has(deltas, k)
    ensures forall k :: Total(out, k) == Total(deltas, k)
  {
    hide Total, Sort, Ascending;
    var totals := Accumulate(deltas);
    var listed := List(totals);
    out := Sort(EARLIER, listed);
    SortsKeys(listed);
    forall i, j | 0 <= i < j < |out| ensures InTurn(out[i].key, out[j].key) { InOrderAt(out, i, j); }
    hide InTurn;
    forall k ensures Has(out, k) <==> k in totals {
      if k in totals {
        assert Delta(k, totals[k]) in out;
      }
      if i :| 0 <= i < |out| && out[i].key == k { assert out[i] in listed; }
    }
    forall k ensures Total(out, k) == Total(deltas, k) {
      TotalOfDistinct(out, k);
    }
  }

  lemma {:induction false} TotalOfDistinct(out: seq<Delta>, k: Key)
    requires forall i, j :: 0 <= i < j < |out| ==> out[i].key != out[j].key
    ensures forall i :: 0 <= i < |out| && out[i].key == k ==> Total(out, k) == out[i].count
    ensures !Has(out, k) ==> Total(out, k) == 0
  {
    if out != [] {
      var n := |out| - 1;
      TotalOfDistinct(out[..n], k);
      Grows(out[..n], out[n], k);
      assert out == out[..n] + [out[n]];
      if Has(out[..n], k) {
        var i :| 0 <= i < n && out[..n][i].key == k;
        assert out[i].key == k;
      }
    }
  }

  lemma SortsKeys(listed: seq<Delta>)
    requires forall i, j :: 0 <= i < j < |listed| ==> listed[i].key != listed[j].key
    ensures Ascending(EARLIER, Sort(EARLIER, listed))
    ensures var out := Sort(EARLIER, listed); forall i, j :: 0 <= i < j < |out| ==> out[i].key != out[j].key
  {
    hide Sort;
    EarlierIsStrict();
    forall i, j | 0 <= i < j < |listed| ensures EARLIER(listed[i], listed[j]) || EARLIER(listed[j], listed[i]) {
      EarlierIsTotal(listed[i], listed[j]);
    }
    SortAscends(EARLIER, listed);
    var out := Sort(EARLIER, listed);
    forall i, j | 0 <= i < j < |out| ensures out[i].key != out[j].key {
      assert EARLIER(out[i], out[j]);
      Lex.Irreflexive(out[i].key.value);
    }
  }

  /** The entries of a map, in whatever order it gives them. */
  lemma InOrderAt(out: seq<Delta>, i: nat, j: nat)
    requires Ascending(EARLIER, out) && i < j < |out|
    ensures InTurn(out[i].key, out[j].key)
  {
    EarlierIsInTurn(out[i], out[j]);
  }

  method List(totals: Counts) returns (out: seq<Delta>)
    ensures forall i, j :: 0 <= i < j < |out| ==> out[i].key != out[j].key
    ensures forall d :: d in out <==> d.key in totals && d.count == totals[d.key]
  {
    out := [];
    var left := totals.Keys;
    while left != {}
      invariant left <= totals.Keys
      invariant forall i, j :: 0 <= i < j < |out| ==> out[i].key != out[j].key
      invariant forall d :: d in out <==> d.key in totals - left && d.count == totals[d.key]
    {
      var k :| k in left;
      assert forall i :: 0 <= i < |out| ==> out[i] in out && out[i].key != k;
      out := out + [Delta(k, totals[k])];
      left := left - {k};
    }
  }

  lemma {:induction false} TotalOfOnes(keys: seq<Key>, k: Key)
    ensures Total(Deltas(keys), k) == multiset(keys)[k]
  {
    if keys != [] {
      var n := |keys| - 1;
      TotalOfOnes(keys[..n], k);
      assert keys == keys[..n] + [keys[n]];
      assert Deltas(keys)[..n] == Deltas(keys[..n]);
    }
  }

  lemma DeltasConcat(x: seq<Key>, y: seq<Key>)
    ensures Deltas(x + y) == Deltas(x) + Deltas(y)
  {
  }

  // ----- the state and its steps

  datatype Shelf = Shelf(rows: Table, counts: Counts)

  const EMPTY := Shelf(map[], map[])

  /** What indexing a batch makes of a profile: each identifier's first row, and
      the counts those rows imply added to the ones there. */
  ghost predicate Indexes(s: Shelf, batch: seq<Row>, t: Shelf)
  {
    && t.rows == Held(s.rows, batch)
    && forall k :: CountOf(t.counts, k) == CountOf(s.counts, k) + multiset(AllMarks(Newcomers(s.rows, batch)))[k]
  }

  /** A row without what says who it happened to. */
  function Blank(r: Row): Row
  {
    r.(actorId := "", subjectId := "", clientAddress := "", requestId := "", traceId := "")
  }

  function Blanked(rows: Table, before: int): Table
  {
    map id | id in rows :: if rows[id].recordedAt < before then Blank(rows[id]) else rows[id]
  }

  function Emptied(rows: Table, before: int): Table
  {
    map id | id in rows && before <= rows[id].recordedAt :: rows[id]
  }

  class Memory {
    var rows: map<string, Table>
    var counts: map<string, Counts>
    var indexed: nat

    function Of(profile: string): Shelf
      reads this
    {
      Shelf(if profile in rows then rows[profile] else map[], if profile in counts then counts[profile] else map[])
    }

    constructor ()
      ensures indexed == 0 && forall p :: Of(p) == EMPTY
    {
      rows, counts, indexed := map[], map[], 0;
    }

    method Index(profile: string, batch: seq<Row>)
      modifies this
      ensures Indexes(old(Of(profile)), batch, Of(profile))
      ensures forall p :: p != profile ==> Of(p) == old(Of(p))
      ensures indexed == old(indexed) + |Newcomers(old(Of(profile)).rows, batch)|
    {
      hide Marks, Total, Deltas, Has, Ascending, AllMarks;
      var start := Of(profile);
      var held := start.rows;
      var deltas := [];
      NoMarks();
      assert batch[..0] == [];
      for i := 0 to |batch|
        modifies this
        invariant rows == old(rows) && counts == old(counts)
        invariant held == Held(start.rows, batch[..i])
        invariant deltas == Deltas(AllMarks(Newcomers(start.rows, batch[..i])))
        invariant indexed == old(indexed) + |Newcomers(start.rows, batch[..i])|
      {
        var r := batch[i];
        NextRow(start.rows, batch, i);
        if r.id in held { continue; }
        held := held[r.id := r];
        indexed := indexed + 1;
        var own := RowFacets(r);
        deltas := deltas + own;
      }
      assert batch[..|batch|] == batch;
      var merged := Merge(deltas);
      var sums := start.counts;
      sums := AddAll(sums, merged);
      rows, counts := rows[profile := held], counts[profile := sums];
      forall k
        ensures CountOf(sums, k) == CountOf(start.counts, k) + multiset(AllMarks(Newcomers(start.rows, batch)))[k]
      {
        TotalOfOnes(AllMarks(Newcomers(start.rows, batch)), k);
      }
    }

    /** Purges a profile's rows recorded before a moment, of everything or of
        what identifies somebody. The counts are not touched. */
    method Purge(profile: string, before: int, everything: bool)
      modifies this
      ensures Of(profile).rows ==
              var was := old(Of(profile)).rows; if everything then Emptied(was, before) else Blanked(was, before)
      ensures counts == old(counts) && indexed == old(indexed)
      ensures forall p :: p != profile ==> Of(p) == old(Of(p))
    {
      var was := Of(profile).rows;
      var now, left := was, was.Keys;
      while left != {}
        invariant left <= was.Keys
        invariant forall id :: id in now <==> id in was && (id in left || !everything || before <= was[id].recordedAt)
        invariant forall id :: id in now ==>
                  now[id] == if id !in left && was[id].recordedAt < before then Blank(was[id]) else was[id]
      {
        var id :| id in left;
        left := left - {id};
        var row := was[id];
        if before <= row.recordedAt { continue; }
        if everything {
          now := now - {id};
          continue;
        }
        now := now[id := Blank(row)];
      }
      assert now == if everything then Emptied(was, before) else Blanked(was, before);
      rows := rows[profile := now];
    }
  }

  lemma NoMarks()
    ensures Deltas(AllMarks([])) == []
  {
  }

  lemma NextRow(rows: Table, batch: seq<Row>, i: nat)
    requires i < |batch|
    ensures var held, r := Held(rows, batch[..i]), batch[i];
            var was, now := Newcomers(rows, batch[..i]), Newcomers(rows, batch[..i + 1]);
            && Held(rows, batch[..i + 1]) == (if r.id in held then held else held[r.id := r])
            && now == (if r.id in held then was else was + [r])
            && (r.id !in held ==> Deltas(AllMarks(now)) == Deltas(AllMarks(was)) + Deltas(Marks(r)))
  {
    hide Marks, Deltas;
    assert batch[..i + 1][..|batch[..i + 1]| - 1] == batch[..i];
    var came, r := Newcomers(rows, batch[..i]), batch[i];
    assert (came + [r])[..|came + [r]| - 1] == came;
    assert came + [] == came;
    DeltasConcat(AllMarks(came), Marks(r));
  }

  /** Each delta added to its count. */
  method AddAll(counts: Counts, deltas: seq<Delta>) returns (sums: Counts)
    ensures forall k :: CountOf(sums, k) == CountOf(counts, k) + Total(deltas, k)
  {
    hide Has, Total;
    Nothing();
    assert deltas[..0] == [];
    sums := counts;
    for i := 0 to |deltas|
      invariant forall k :: CountOf(sums, k) == CountOf(counts, k) + Total(deltas[..i], k)
    {
      var d := deltas[i];
      assert deltas[..i + 1] == deltas[..i] + [d];
      forall k ensures Total(deltas[..i + 1], k) == Total(deltas[..i], k) + (if d.key == k then d.count else 0) {
        Grows(deltas[..i], d, k);
      }
      sums := sums[d.key := CountOf(sums, d.key) + d.count];
    }
    assert deltas[..|deltas|] == deltas;
  }

  // ----- the counts are those of the rows

  ghost function Bearers(rows: Table, k: Key): set<string>
  {
    set id | id in rows && Carries(rows[id], k)
  }

  ghost predicate Cached(s: Shelf)
  {
    forall k :: CountOf(s.counts, k) == |Bearers(s.rows, k)|
  }

  lemma OneMoreRow(rows: Table, r: Row, k: Key)
    requires r.id !in rows && NoRepeats(r)
    ensures |Bearers(rows[r.id := r], k)| == |Bearers(rows, k)| + multiset(Marks(r))[k]
  {
    hide Carries, Marks;
    MarksAreCarried(r, k);
    OnceEach(r, k);
    assert Bearers(rows[r.id := r], k) == Bearers(rows, k) + (if Carries(r, k) then {r.id} else {});
  }

  lemma {:induction false} BatchAdds(rows: Table, batch: seq<Row>, k: Key)
    requires forall r :: r in batch ==> NoRepeats(r)
    ensures |Bearers(Held(rows, batch), k)| == |Bearers(rows, k)| + multiset(AllMarks(Newcomers(rows, batch)))[k]
  {
    hide NoRepeats, Marks, Bearers;
    if batch != [] {
      var n := |batch| - 1;
      var held, came, r := Held(rows, batch[..n]), Newcomers(rows, batch[..n]), batch[n];
      BatchAdds(rows, batch[..n], k);
      if r.id !in held {
        OneMoreRow(held, r, k);
        assert (came + [r])[..|came + [r]| - 1] == came;
      } else {
        assert came + [] == came;
      }
    }
  }

  lemma BlankCarries(r: Row, k: Key)
    ensures Carries(Blank(r), k) <==> Carries(r, k)
  {
  }

  lemma BlankedBearers(rows: Table, before: int, k: Key)
    ensures Bearers(Blanked(rows, before), k) == Bearers(rows, k)
  {
    hide Carries;
    forall id | id in rows ensures Carries(Blanked(rows, before)[id], k) <==> Carries(rows[id], k) {
      BlankCarries(rows[id], k);
    }
  }

  /** Who a row happened to, by any of what identifies somebody. */
  const IDENTIFYING := [ActorId, SubjectId, ClientAddress, RequestId, TraceId]

  /** After an identifying purge, no row recorded before the moment is found by an
      actor, a subject, an address, a request or a trace; by every other field,
      and by its moments, targets and data, it is found as it was; and a row
      recorded since is not touched. */
  lemma PurgeForgetsWho(rows: Table, before: int, id: string, value: string)
    requires id in rows && value != ""
    ensures var was, now := rows[id], Blanked(rows, before)[id];
            && (was.recordedAt >= before ==> now == was)
            && (was.recordedAt < before ==>
                  && (forall f :: f in IDENTIFYING ==> !Matches(now, Asking(f, value)))
                  && (forall f :: f !in IDENTIFYING ==>
                        (Matches(now, Asking(f, value)) <==> Matches(was, Asking(f, value))))
                  && now.occurredAt == was.occurredAt && now.recordedAt == was.recordedAt && now.data == was.data
                  && now.targetTypes == was.targetTypes && now.targetIds == was.targetIds)
    ensures id in Emptied(rows, before) <==> rows[id].recordedAt >= before
    ensures id in Emptied(rows, before) ==> Emptied(rows, before)[id] == rows[id]
  {
    hide Matches, Asking;
    if rows[id].recordedAt < before {
      forall f ensures if f in IDENTIFYING then !Matches(Blank(rows[id]), Asking(f, value))
                       else Matches(Blank(rows[id]), Asking(f, value)) <==> Matches(rows[id], Asking(f, value))
      {
        BlankIsFound(rows[id], f, value);
      }
    }
  }

  lemma BlankIsFound(r: Row, f: Field, value: string)
    requires value != ""
    ensures if f in IDENTIFYING then !Matches(Blank(r), Asking(f, value))
            else Matches(Blank(r), Asking(f, value)) <==> Matches(r, Asking(f, value))
  {
    AskingIs(Blank(r), f, value);
    AskingIs(r, f, value);
    OneOfFive(f);
    hide Matches, Asking;
  }

  lemma OneOfFive(f: Field)
    ensures f in IDENTIFYING <==> f.ActorId? || f.SubjectId? || f.ClientAddress? || f.RequestId? || f.TraceId?
  {
    if f.ActorId? { assert IDENTIFYING[0] == f; }
    if f.SubjectId? { assert IDENTIFYING[1] == f; }
    if f.ClientAddress? { assert IDENTIFYING[2] == f; }
    if f.RequestId? { assert IDENTIFYING[3] == f; }
    if f.TraceId? { assert IDENTIFYING[4] == f; }
  }

  datatype Op = IndexBatch(batch: seq<Row>) | PurgeIdentifying(before: int)

  ghost predicate Step(s: Shelf, op: Op, t: Shelf)
  {
    match op
    case IndexBatch(batch) => Indexes(s, batch, t)
    case PurgeIdentifying(before) => t == Shelf(Blanked(s.rows, before), s.counts)
  }

  ghost predicate IsRun(ops: seq<Op>, shelves: seq<Shelf>)
  {
    && |shelves| == |ops| + 1 && shelves[0] == EMPTY
    && forall i :: 0 <= i < |ops| ==> Step(shelves[i], ops[i], shelves[i + 1])
  }

  ghost predicate Plain(op: Op)
  {
    op.IndexBatch? ==> forall r :: r in op.batch ==> NoRepeats(r)
  }

  lemma StepKeepsCounts(s: Shelf, op: Op, t: Shelf)
    requires Cached(s) && Step(s, op, t) && Plain(op)
    ensures Cached(t)
  {
    hide Bearers, NoRepeats;
    forall k ensures CountOf(t.counts, k) == |Bearers(t.rows, k)| {
      match op
      case IndexBatch(batch) => BatchAdds(s.rows, batch, k);
      case PurgeIdentifying(before) => BlankedBearers(s.rows, before, k);
    }
  }

  /** Whatever is indexed, again or twice in a batch, and whatever is purged of
      what identifies somebody, each count is the number of rows it is of. */
  lemma {:induction false} CountsAreCorrect(ops: seq<Op>, shelves: seq<Shelf>, i: nat)
    requires IsRun(ops, shelves) && i <= |ops| && forall op :: op in ops ==> Plain(op)
    ensures Cached(shelves[i])
  {
    hide Plain, Step, Bearers;
    if i > 0 {
      CountsAreCorrect(ops, shelves, i - 1);
      assert ops[i - 1] in ops;
      hide Cached;
      assert Step(shelves[i - 1], ops[i - 1], shelves[i]);
      StepKeepsCounts(shelves[i - 1], ops[i - 1], shelves[i]);
    } else {
      NoBearers();
    }
  }

  lemma NoBearers()
    ensures forall k :: Bearers(map[], k) == {}
  {
  }

  /** A purge of everything leaves the counts right exactly when no row it
      removes carried anything that is counted. */
  lemma PurgeOfEverything(s: Shelf, before: int)
    requires Cached(s)
    ensures Cached(Shelf(Emptied(s.rows, before), s.counts)) <==>
            forall id :: id in s.rows && s.rows[id].recordedAt < before ==> Marks(s.rows[id]) == []
  {
    hide Carries, Marks;
    var left := Emptied(s.rows, before);
    if id :| id in s.rows && s.rows[id].recordedAt < before && Marks(s.rows[id]) != [] {
      var k := Marks(s.rows[id])[0];
      assert k in multiset(Marks(s.rows[id]));
      MarksAreCarried(s.rows[id], k);
      assert id in Bearers(s.rows, k) && id !in Bearers(left, k);
      Fewer(Bearers(left, k), Bearers(s.rows, k), id);
      assert CountOf(s.counts, k) != |Bearers(left, k)|;
    } else {
      forall k ensures Bearers(left, k) == Bearers(s.rows, k) {
        forall id | id in s.rows && s.rows[id].recordedAt < before ensures !Carries(s.rows[id], k) {
          MarksAreCarried(s.rows[id], k);
        }
      }
    }
  }

  lemma Fewer<T>(a: set<T>, b: set<T>, x: T)
    requires a <= b && x in b && x !in a
    ensures |a| < |b|
  {
    assert b == a + (b - a);
    assert x in b - a;
  }
}
