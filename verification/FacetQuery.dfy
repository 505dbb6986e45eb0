/** `Facets` of index/memsearch.go: how many of a query's rows carry each value
    of a field, and what that has to do with the stored counts. */
module FacetQuery {
  import opened Ordering
  import opened Rows
  import opened Facets
  import opened FacetCache
  import Lex

  predicate Asked(r: Row, tenants: seq<string>, filter: seq<Conjunction>)
  {
    Granted(r, tenants) && Matches(r, filter)
  }

  predicate CarriesField(r: Row, field: string, value: string)
  {
    Carries(r, KeyOf(r, field, value))
  }

  ghost function Carriers(rows: Table, tenants: seq<string>, filter: seq<Conjunction>, field: string,
                          value: string): set<string>
  {
    set id | id in rows && Asked(rows[id], tenants, filter) && CarriesField(rows[id], field, value)
  }

  /** One row's values of a field, each once. */
  method CountRow(counts: map<string, int>, r: Row, field: string) returns (more: map<string, int>)
    ensures forall v :: CountOf(more, v) == CountOf(counts, v) + if CarriesField(r, field, v) then 1 else 0
    ensures forall v :: v in more <==> v in counts || CarriesField(r, field, v)
  {
    hide Carries;
    more := counts;
    var seen: set<string> := {};
    var deltas := RowFacets(r);
    ghost var keys := Marks(r);
    hide Marks;
    for i := 0 to |deltas|
      invariant forall v :: v in seen <==> Among(keys[..i], KeyOf(r, field, v))
      invariant forall v :: CountOf(more, v) == CountOf(counts, v) + if v in seen then 1 else 0
      invariant forall v :: v in more <==> v in counts || v in seen
    {
      var k := deltas[i].key;
      assert keys[..i + 1] == keys[..i] + [keys[i]];
      IsOwn(r, i);
      if k.field == field && k.value !in seen {
        seen := seen + {k.value};
        more := more[k.value := CountOf(more, k.value) + 1];
      }
    }
    assert keys[..|keys|] == keys;
    forall v ensures v in seen <==> CarriesField(r, field, v) {
      MarksAreCarried(r, KeyOf(r, field, v));
    }
  }

  ghost predicate Among(keys: seq<Key>, k: Key)
  {
    k in multiset(keys)
  }

  /** Every count a row implies is of its own tenant and hour. */
  lemma IsOwn(r: Row, i: nat)
    requires i < |Marks(r)|
    ensures Marks(r)[i] == KeyOf(r, Marks(r)[i].field, Marks(r)[i].value)
  {
    hide Marks, Carries;
    assert Marks(r)[i] in multiset(Marks(r));
    MarksAreCarried(r, Marks(r)[i]);
    assert Carries(r, Marks(r)[i]);
    OwnKey(r, Marks(r)[i]);
  }

  lemma OwnKey(r: Row, k: Key)
    ensures Carries(r, k) ==> k == KeyOf(r, k.field, k.value)
  {
  }

  /** The number of rows that carry each value: rows are visited in any order. */
  method CountField(rows: Table, tenants: seq<string>, filter: seq<Conjunction>, field: string)
    returns (counts: map<string, int>)
    ensures forall v :: CountOf(counts, v) == |Carriers(rows, tenants, filter, field, v)|
    ensures forall v :: v in counts <==> Carriers(rows, tenants, filter, field, v) != {}
  {
    hide CarriesField, Asked, Carriers;
    counts := map[];
    forall v ensures Carriers(map[], tenants, filter, field, v) == {} { NoCarriers(tenants, filter, field, v); }
    var left := rows.Keys;
    ghost var done: Table := map[];
    while left != {}
      invariant left <= rows.Keys
      invariant done == map id | id in rows && id !in left :: rows[id]
      invariant forall v :: CountOf(counts, v) == |Carriers(done, tenants, filter, field, v)|
      invariant forall v :: v in counts <==> Carriers(done, tenants, filter, field, v) != {}
    {
      var id :| id in left;
      left := left - {id};
      forall v ensures
        var more := Asked(rows[id], tenants, filter) && CarriesField(rows[id], field, v);
        && |Carriers(done[id := rows[id]], tenants, filter, field, v)| ==
           |Carriers(done, tenants, filter, field, v)| + (if more then 1 else 0)
        && (Carriers(done[id := rows[id]], tenants, filter, field, v) != {} <==>
           Carriers(done, tenants, filter, field, v) != {} || more)
      {
        OneMoreCarrier(done, id, rows[id], tenants, filter, field, v);
      }
      done := done[id := rows[id]];
      if Asked(rows[id], tenants, filter) {
        counts := CountRow(counts, rows[id], field);
      }
    }
    assert done == rows;
  }

  lemma NoCarriers(tenants: seq<string>, filter: seq<Conjunction>, field: string, v: string)
    ensures Carriers(map[], tenants, filter, field, v) == {}
  {
  }

  lemma OneMoreCarrier(done: Table, id: string, r: Row, tenants: seq<string>, filter: seq<Conjunction>, field: string,
                       v: string)
    requires id !in done
    ensures var was := Carriers(done, tenants, filter, field, v);
            var now := Carriers(done[id := r], tenants, filter, field, v);
            var more := Asked(r, tenants, filter) && CarriesField(r, field, v);
            |now| == |was| + (if more then 1 else 0) && (now != {} <==> was != {} || more)
  {
    hide CarriesField, Asked;
    var was, now := Carriers(done, tenants, filter, field, v), Carriers(done[id := r], tenants, filter, field, v);
    var more := Asked(r, tenants, filter) && CarriesField(r, field, v);
    if more {
      assert now == was + {id};
    } else {
      assert now == was;
    }
  }

  // ----- the most frequent values

  datatype FacetValue = FacetValue(value: string, count: int)

  predicate MoreFrequent(a: FacetValue, b: FacetValue)
  {
    if a.count != b.count then b.count < a.count else Lex.Less(a.value, b.value)
  }

  const FREQUENT: Order<FacetValue> := (a: FacetValue, b: FacetValue) => MoreFrequent(a, b)

  lemma FrequentIsStrict()
    ensures Strict(FREQUENT)
  {
    forall a: FacetValue ensures !MoreFrequent(a, a) { Lex.Irreflexive(a.value); }
    forall a: FacetValue, b: FacetValue, c: FacetValue | MoreFrequent(a, b) && MoreFrequent(b, c)
      ensures MoreFrequent(a, c)
    {
      if a.count == b.count == c.count { Lex.Transitive(a.value, b.value, c.value); }
    }
  }

  /** A field's values, most frequent first, cut at the limit: every value left
      out is less frequent, or as frequent and later, than every one given. */
  method Top(counts: map<string, int>, limit: int) returns (out: seq<FacetValue>)
    ensures var most := if limit <= 0 then 20 else limit; |out| == if |counts| > most then most else |counts|
    ensures Ascending(FREQUENT, out)
    ensures forall i, j :: 0 <= i < j < |out| ==>
              out[j].count < out[i].count || (out[i].count == out[j].count && Lex.Less(out[i].value, out[j].value))
    ensures forall v, f :: v in counts && f in out ==> FacetValue(v, counts[v]) in out || counts[v] <= f.count
    ensures forall f :: f in out ==> f.value in counts && f.count == counts[f.value]
    ensures forall v :: v in counts ==>
              FacetValue(v, counts[v]) in out || forall f :: f in out ==> MoreFrequent(f, FacetValue(v, counts[v]))
  {
    hide Sort, Ascending, MoreFrequent;
    var most := if limit <= 0 then 20 else limit;
    var all := ListValues(counts);
    Sorted(all);
    var sorted := Sort(FREQUENT, all);
    out := if |sorted| > most then sorted[..most] else sorted;
    Beginning(sorted, out);
    CountsFall(sorted);
    forall v, f | v in counts && f in out ensures FacetValue(v, counts[v]) in out || counts[v] <= f.count {
      CutLeavesLess(sorted, out, FacetValue(v, counts[v]));
      NoMoreThan(out, f, FacetValue(v, counts[v]));
    }
    forall v | v in counts
      ensures FacetValue(v, counts[v]) in out || forall f :: f in out ==> MoreFrequent(f, FacetValue(v, counts[v]))
    {
      assert FacetValue(v, counts[v]) in sorted;
      CutLeavesLess(sorted, out, FacetValue(v, counts[v]));
    }
  }

  lemma Beginning(sorted: seq<FacetValue>, out: seq<FacetValue>)
    requires Ascending(FREQUENT, sorted) && out <= sorted
    ensures Ascending(FREQUENT, out)
    ensures forall f :: f in out ==> f in sorted
  {
    forall f | f in out ensures f in sorted {
      var i :| 0 <= i < |out| && out[i] == f;
      assert sorted[i] == f;
    }
  }

  lemma Sorted(all: seq<FacetValue>)
    requires forall i, j :: 0 <= i < j < |all| ==> all[i].value != all[j].value
    ensures Ascending(FREQUENT, Sort(FREQUENT, all))
  {
    hide Sort;
    FrequentIsStrict();
    forall i, j | 0 <= i < j < |all| ensures FREQUENT(all[i], all[j]) || FREQUENT(all[j], all[i]) {
      Lex.Total(all[i].value, all[j].value);
    }
    SortAscends(FREQUENT, all);
  }

  lemma CountsFall(sorted: seq<FacetValue>)
    requires Ascending(FREQUENT, sorted)
    ensures forall i, j :: 0 <= i < j < |sorted| ==>
              || sorted[j].count < sorted[i].count
              || (sorted[i].count == sorted[j].count && Lex.Less(sorted[i].value, sorted[j].value))
  {
    assert forall i, j :: 0 <= i < j < |sorted| ==> FREQUENT(sorted[i], sorted[j]);
    hide Lex.Less;
  }

  lemma NoMoreThan(out: seq<FacetValue>, f: FacetValue, g: FacetValue)
    requires f in out && (g in out || forall x :: x in out ==> MoreFrequent(x, g))
    ensures g in out || g.count <= f.count
  {
  }

  lemma CutLeavesLess(sorted: seq<FacetValue>, out: seq<FacetValue>, f: FacetValue)
    requires Ascending(FREQUENT, sorted) && f in sorted && out <= sorted
    ensures f in out || (forall g :: g in out ==> MoreFrequent(g, f))
  {
    var i :| 0 <= i < |sorted| && sorted[i] == f;
    if i < |out| {
      assert out[i] == f;
    } else {
      forall g | g in out ensures MoreFrequent(g, f) {
        var j :| 0 <= j < |out| && out[j] == g;
        assert sorted[j] == g && FREQUENT(sorted[j], sorted[i]);
      }
    }
  }

  method ListValues(counts: map<string, int>) returns (out: seq<FacetValue>)
    ensures |out| == |counts| && forall i, j :: 0 <= i < j < |out| ==> out[i].value != out[j].value
    ensures forall f :: f in out <==> f.value in counts && f.count == counts[f.value]
  {
    out := [];
    var left := counts.Keys;
    while left != {}
      invariant left <= counts.Keys && |out| + |left| == |counts|
      invariant forall i, j :: 0 <= i < j < |out| ==> out[i].value != out[j].value
      invariant forall f :: f in out <==> f.value in counts - left && f.count == counts[f.value]
    {
      var v :| v in left;
      assert forall i :: 0 <= i < |out| ==> out[i] in out && out[i].value != v;
      out := out + [FacetValue(v, counts[v])];
      left := left - {v};
    }
  }

  // ----- counting and the counts

  ghost function Sum(counts: Counts, keys: set<Key>): int
  {
    if keys == {} then 0
    else
      var k :| k in keys;
      CountOf(counts, k) + Sum(counts, keys - {k})
  }

  /** The stored counts of a value of a field, for whichever tenants are granted
      and in whatever hour. */
  ghost function Stored(counts: Counts, tenants: seq<string>, field: string, value: string): set<Key>
  {
    set k | k in counts && k.field == field && k.value == value && (tenants == [] || k.tenant in tenants)
  }

  ghost function UnionOf(rows: Table, keys: set<Key>): set<string>
  {
    set id, k | k in keys && id in Bearers(rows, k) :: id
  }

  /** A row is under one tenant and one hour, so for a value of a field the rows
      of different counts are different rows. */
  lemma {:induction false} SumIsUnion(s: Shelf, keys: set<Key>, field: string, value: string)
    requires Cached(s) && forall k :: k in keys ==> k.field == field && k.value == value
    ensures Sum(s.counts, keys) == |UnionOf(s.rows, keys)|
  {
    hide Carries;
    if keys != {} {
      var k :| k in keys && Sum(s.counts, keys) == CountOf(s.counts, k) + Sum(s.counts, keys - {k});
      SumIsUnion(s, keys - {k}, field, value);
      var one, rest := Bearers(s.rows, k), UnionOf(s.rows, keys - {k});
      forall id | id in one ensures id !in rest {
        OwnKey(s.rows[id], k);
        forall j | j in keys - {k} ensures id !in Bearers(s.rows, j) { OwnKey(s.rows[id], j); }
      }
      assert UnionOf(s.rows, keys) == one + rest;
      assert one !! rest;
    }
  }

  /** Counting the rows of a query without a filter gives, for every value of
      every field, the stored counts added over the hours. */
  lemma FacetsAreTheCounts(s: Shelf, tenants: seq<string>, field: string, value: string)
    requires Cached(s)
    ensures |Carriers(s.rows, tenants, [], field, value)| == Sum(s.counts, Stored(s.counts, tenants, field, value))
  {
    hide Carries;
    var keys := Stored(s.counts, tenants, field, value);
    SumIsUnion(s, keys, field, value);
    forall id ensures id in Carriers(s.rows, tenants, [], field, value) <==> id in UnionOf(s.rows, keys) {
      if id in Carriers(s.rows, tenants, [], field, value) {
        var k := KeyOf(s.rows[id], field, value);
        assert id in Bearers(s.rows, k);
        assert CountOf(s.counts, k) == |Bearers(s.rows, k)|;
        assert k in keys;
      }
      if id in UnionOf(s.rows, keys) {
        var k :| k in keys && id in Bearers(s.rows, k);
        OwnKey(s.rows[id], k);
      }
    }
    assert Carriers(s.rows, tenants, [], field, value) == UnionOf(s.rows, keys);
  }
}
