/** Facet counts: index/memory.go keeps, beside the rows, how many of them carry
    each value of each field in each hour; index/index.go says what a row
    carries; `Facets` of index/memsearch.go counts the rows themselves. */
module Facets {
  import opened Ordering
  import opened Rows
  import Text
  import TimeText
  import Lex

  const HOUR := 3_600_000_000_000

  datatype Key = Key(tenant: string, hour: int, field: string, value: string)

  datatype Delta = Delta(key: Key, count: int)

  /** A value as a facet counts it: to the second, when it is a moment. */
  function Printed(v: Value): string
  {
    match v.kind
    case IntKind => Text.PadInt(v.int', 1)
    case TimeKind => TimeText.Clock(v.at / TimeText.NANOS) + "Z"
    case BoolKind => if v.int' != 0 then "true" else "false"
    case TextKind => v.text
  }

  function KeyOf(r: Row, field: string, value: string): Key
  {
    Key(r.tenantId, r.recordedAt / HOUR, field, value)
  }

  // ----- what a row carries

  predicate CoreCarries(r: Row, field: string, value: string)
  {
    || (field == "action" && value == r.action)
    || (field == "operation" && value == r.operation)
    || (field == "outcome" && value == r.outcome)
    || (field == "source" && value == r.source)
    || (field == "actor_kind" && value == r.actorKind)
  }

  predicate DataCarries(v: Value, field: string, value: string)
  {
    v.facet && field == "data:" + v.path && value == Printed(v)
  }

  /** A row is one of those a count is of. */
  predicate Carries(r: Row, k: Key)
  {
    && k == KeyOf(r, k.field, k.value) && k.value != ""
    && (|| CoreCarries(r, k.field, k.value)
        || (k.field == "target_type" && k.value in r.targetTypes)
        || exists v :: v in r.data && DataCarries(v, k.field, k.value))
  }

  function Mark(r: Row, field: string, value: string): seq<Key>
  {
    if value == "" then [] else [KeyOf(r, field, value)]
  }

  function CoreMarks(r: Row): seq<Key>
  {
    Mark(r, "action", r.action) + Mark(r, "operation", r.operation) + Mark(r, "outcome", r.outcome)
    + Mark(r, "source", r.source) + Mark(r, "actor_kind", r.actorKind)
  }

  function TargetMarks(r: Row, n: nat): seq<Key>
    requires n <= |r.targetTypes|
  {
    if n == 0 then []
    else
      var t := r.targetTypes[n - 1];
      TargetMarks(r, n - 1) + (if t in r.targetTypes[..n - 1] then [] else Mark(r, "target_type", t))
  }

  function DataMark(r: Row, v: Value): seq<Key>
  {
    if v.facet then Mark(r, "data:" + v.path, Printed(v)) else []
  }

  function DataMarks(r: Row, n: nat): seq<Key>
    requires n <= |r.data|
  {
    if n == 0 then [] else DataMarks(r, n - 1) + DataMark(r, r.data[n - 1])
  }

  /** The keys of the counts a row implies, each for one more. */
  function Marks(r: Row): seq<Key>
  {
    CoreMarks(r) + TargetMarks(r, |r.targetTypes|) + DataMarks(r, |r.data|)
  }

  function Deltas(keys: seq<Key>): (d: seq<Delta>)
    ensures |d| == |keys| && forall i :: 0 <= i < |keys| ==> d[i] == Delta(keys[i], 1)
  {
    seq(|keys|, i requires 0 <= i < |keys| => Delta(keys[i], 1))
  }

  /** `Row.Facets`, as it goes through a row's fields. */
  method RowFacets(r: Row) returns (out: seq<Delta>)
    ensures out == Deltas(Marks(r))
  {
    hide CoreMarks, Mark, DataMark;
    var keys := CoreMarks(r);
    var seen: set<string> := {};
    for i := 0 to |r.targetTypes|
      invariant seen == set t | t in r.targetTypes[..i]
      invariant keys == CoreMarks(r) + TargetMarks(r, i)
    {
      var t := r.targetTypes[i];
      assert r.targetTypes[..i + 1] == r.targetTypes[..i] + [t];
      Regroup(CoreMarks(r), TargetMarks(r, i), Mark(r, "target_type", t));
      if t !in seen {
        seen := seen + {t};
        keys := keys + Mark(r, "target_type", t);
      }
    }
    for i := 0 to |r.data|
      invariant keys == CoreMarks(r) + TargetMarks(r, |r.targetTypes|) + DataMarks(r, i)
    {
      Regroup(CoreMarks(r) + TargetMarks(r, |r.targetTypes|), DataMarks(r, i), DataMark(r, r.data[i]));
      keys := keys + DataMark(r, r.data[i]);
    }
    out := Deltas(keys);
  }

  /** No two facet values of a row have a pointer and a text in common. A row
      taken from a record has each pointer once. */
  ghost predicate NoRepeats(r: Row)
  {
    forall i, j :: 0 <= i < j < |r.data| && DataMark(r, r.data[i]) != [] ==>
        DataMark(r, r.data[i]) != DataMark(r, r.data[j])
  }

  lemma CoreCount(r: Row, k: Key)
    ensures multiset(CoreMarks(r))[k] ==
            if k == KeyOf(r, k.field, k.value) && k.value != "" && CoreCarries(r, k.field, k.value) then 1 else 0
  {
    MarkCount(r, "action", r.action, k);
    MarkCount(r, "operation", r.operation, k);
    MarkCount(r, "outcome", r.outcome, k);
    MarkCount(r, "source", r.source, k);
    MarkCount(r, "actor_kind", r.actorKind, k);
    CoreParts(r, k);
    NamesDiffer();
    hide CoreMarks, Mark, KeyOf;
  }

  lemma CoreParts(r: Row, k: Key)
    ensures multiset(CoreMarks(r))[k] ==
            multiset(Mark(r, "action", r.action))[k] + multiset(Mark(r, "operation", r.operation))[k]
            + multiset(Mark(r, "outcome", r.outcome))[k] + multiset(Mark(r, "source", r.source))[k]
            + multiset(Mark(r, "actor_kind", r.actorKind))[k]
  {
    hide Mark;
  }

  lemma NamesDiffer()
    ensures "action" != "operation" && "action" != "outcome" && "action" != "source" && "action" != "actor_kind"
    ensures "operation" != "outcome" && "operation" != "source" && "operation" != "actor_kind"
    ensures "outcome" != "source" && "outcome" != "actor_kind" && "source" != "actor_kind"
  {
    assert |"action"| == 6 && |"source"| == 6 && "action"[0] == 'a' && "source"[0] == 's';
    assert |"operation"| == 9 && |"outcome"| == 7 && |"actor_kind"| == 10;
  }

  lemma MarkCount(r: Row, field: string, value: string, k: Key)
    ensures multiset(Mark(r, field, value))[k] ==
            if k == KeyOf(r, k.field, k.value) && k.field == field && k.value == value && value != "" then 1 else 0
  {
  }

  lemma {:induction false} TargetCount(r: Row, n: nat, k: Key)
    requires n <= |r.targetTypes|
    ensures multiset(TargetMarks(r, n))[k] ==
            if k == KeyOf(r, "target_type", k.value) && k.value != "" && k.value in r.targetTypes[..n] then 1 else 0
  {
    hide Mark;
    if n > 0 {
      TargetCount(r, n - 1, k);
      var t := r.targetTypes[n - 1];
      var rest := r.targetTypes[..n - 1];
      assert r.targetTypes[..n] == rest + [t];
      assert k.value in r.targetTypes[..n] <==> k.value in rest || k.value == t;
      MarkCount(r, "target_type", t, k);
      TargetPart(r, n, k);
      hide TargetMarks, KeyOf;
    }
  }

  lemma TargetPart(r: Row, n: nat, k: Key)
    requires 0 < n <= |r.targetTypes|
    ensures var t := r.targetTypes[n - 1];
            multiset(TargetMarks(r, n))[k] == multiset(TargetMarks(r, n - 1))[k]
            + if t in r.targetTypes[..n - 1] then 0 else multiset(Mark(r, "target_type", t))[k]
  {
    hide Mark;
  }

  lemma DataMarkIs(r: Row, v: Value, k: Key)
    ensures multiset(DataMark(r, v))[k] == if DataMark(r, v) == [k] then 1 else 0
    ensures DataMark(r, v) == [k] <==>
            k == KeyOf(r, k.field, k.value) && k.value != "" && DataCarries(v, k.field, k.value)
  {
  }

  lemma {:induction false} DataCount(r: Row, n: nat, k: Key)
    requires n <= |r.data|
    ensures multiset(DataMarks(r, n))[k] > 0 <==> exists i :: 0 <= i < n && DataMark(r, r.data[i]) == [k]
    ensures multiset(DataMarks(r, n))[k] > 1 <==>
            exists i, j :: 0 <= i < j < n && DataMark(r, r.data[i]) == DataMark(r, r.data[j]) == [k]
  {
    hide DataMark;
    if n > 0 {
      DataCount(r, n - 1, k);
      DataMarkIs(r, r.data[n - 1], k);
      assert multiset(DataMarks(r, n))[k] == multiset(DataMarks(r, n - 1))[k] + multiset(DataMark(r, r.data[n - 1]))[k];
      hide DataMarks;
      if i, j :| 0 <= i < j < n && DataMark(r, r.data[i]) == DataMark(r, r.data[j]) == [k] {
        assert i < n - 1;
      }
    }
  }

  /** A row implies a count exactly when it carries the value. */
  lemma MarksAreCarried(r: Row, k: Key)
    ensures multiset(Marks(r))[k] > 0 <==> Carries(r, k)
  {
    hide CoreMarks, TargetMarks, DataMarks, DataMark;
    Parts(r, k);
    if exists v :: v in r.data && DataCarries(v, k.field, k.value) {
      var v :| v in r.data && DataCarries(v, k.field, k.value);
      var i :| 0 <= i < |r.data| && r.data[i] == v;
      DataMarkIs(r, r.data[i], k);
    }
    if i :| 0 <= i < |r.data| && DataMark(r, r.data[i]) == [k] {
      DataMarkIs(r, r.data[i], k);
      assert r.data[i] in r.data;
    }
  }

  lemma Parts(r: Row, k: Key)
    ensures multiset(Marks(r))[k] ==
            multiset(CoreMarks(r))[k] + multiset(TargetMarks(r, |r.targetTypes|))[k]
            + multiset(DataMarks(r, |r.data|))[k]
    ensures multiset(CoreMarks(r))[k] ==
            if k == KeyOf(r, k.field, k.value) && k.value != "" && CoreCarries(r, k.field, k.value) then 1 else 0
    ensures multiset(TargetMarks(r, |r.targetTypes|))[k] ==
            if k == KeyOf(r, "target_type", k.value) && k.value != "" && k.value in r.targetTypes then 1 else 0
    ensures multiset(DataMarks(r, |r.data|))[k] > 0 <==> exists i :: 0 <= i < |r.data| && DataMark(r, r.data[i]) == [k]
    ensures multiset(DataMarks(r, |r.data|))[k] > 1 <==>
            exists i, j :: 0 <= i < j < |r.data| && DataMark(r, r.data[i]) == DataMark(r, r.data[j]) == [k]
  {
    hide CoreMarks, TargetMarks, DataMarks, DataMark, CoreCarries;
    CoreCount(r, k);
    TargetCount(r, |r.targetTypes|, k);
    assert r.targetTypes[..|r.targetTypes|] == r.targetTypes;
    DataCount(r, |r.data|, k);
  }

  /** No count is implied twice by a row exactly when no facet value repeats:
      the fields' names keep the three kinds of mark apart. */
  lemma ImpliedOnce(r: Row)
    ensures NoRepeats(r) <==> forall k :: multiset(Marks(r))[k] <= 1
  {
    hide CoreMarks, TargetMarks, DataMarks, Marks;
    if NoRepeats(r) {
      forall k ensures multiset(Marks(r))[k] <= 1 { OnceEach(r, k); }
    } else {
      var i, j :| 0 <= i < j < |r.data| && DataMark(r, r.data[i]) != [] &&
          DataMark(r, r.data[i]) == DataMark(r, r.data[j]);
      var k := DataMark(r, r.data[i])[0];
      assert DataMark(r, r.data[i]) == DataMark(r, r.data[j]) == [k];
      Parts(r, k);
    }
  }

  lemma OnceEach(r: Row, k: Key)
    requires NoRepeats(r)
    ensures multiset(Marks(r))[k] <= 1
  {
    hide CoreMarks, TargetMarks, DataMarks, Marks;
    Parts(r, k);
    assert "target_type"[0] == 't' && "data:"[0] == 'd';
    if i :| 0 <= i < |r.data| && DataMark(r, r.data[i]) == [k] {
      assert k.field[0] == 'd';
    }
    assert CoreCarries(r, k.field, k.value) ==> k.field[0] != 'd' && k.field[0] != 't' by {
      assert "action"[0] == 'a' && "operation"[0] == 'o' && "outcome"[0] == 'o' && "source"[0] == 's' &&
          "actor_kind"[0] == 'a';
    }
  }

  /** A count is of the tenant of its rows and of the hour they were recorded in. */
  lemma CountedWhereRecorded(r: Row, k: Key)
    requires Carries(r, k)
    ensures k.tenant == r.tenantId && k.hour * 3_600_000_000_000 <= r.recordedAt < (k.hour + 1) * 3_600_000_000_000
  {
  }

  /** Values of one kind are counted together exactly when they are the same number,
      flag, text or, to the second, moment. */
  lemma PrintedTells(v: Value, w: Value)
    requires v.kind == w.kind && (v.kind.TimeKind? ==> TimeText.InYears(v.at) && TimeText.InYears(w.at))
    ensures Printed(v) == Printed(w) <==>
            match v.kind
            case IntKind => v.int' == w.int'
            case BoolKind => (v.int' == 0) == (w.int' == 0)
            case TextKind => v.text == w.text
            case TimeKind => v.at / 1_000_000_000 == w.at / 1_000_000_000
    ensures v.kind.BoolKind? ==> (Printed(v) == "true" <==> v.int' != 0)
  {
    assert "true"[0] == 't' && "false"[0] == 'f';
    match v.kind
    case IntKind => IntsDiffer(v.int', w.int');
    case TimeKind => SecondsDiffer(v.at, w.at);
    case BoolKind =>
    case TextKind =>
  }

  lemma IntsDiffer(m: int, n: int)
    ensures Text.PadInt(m, 1) == Text.PadInt(n, 1) <==> m == n
  {
    if m < 0 { assert Text.PadInt(m, 1)[0] == '-' && Text.PadInt(m, 1)[1..] == Text.Pad(-m, 1); }
    if n < 0 { assert Text.PadInt(n, 1)[0] == '-' && Text.PadInt(n, 1)[1..] == Text.Pad(-n, 1); }
    if m >= 0 { NoSign(m); }
    if n >= 0 { NoSign(n); }
  }

  lemma NoSign(n: nat)
    ensures Text.Pad(n, 1) != "" && Text.Pad(n, 1)[0] != '-'
  {
    Text.PadLength(n, 1);
    assert Text.IsDigit(Text.Pad(n, 1)[0]);
  }

  lemma SecondsDiffer(a: int, b: int)
    requires TimeText.InYears(a) && TimeText.InYears(b)
    ensures TimeText.Clock(a / TimeText.NANOS) + "Z" == TimeText.Clock(b / TimeText.NANOS) + "Z" <==>
            a / TimeText.NANOS == b / TimeText.NANOS
  {
    var x, y := a / TimeText.NANOS * TimeText.NANOS, b / TimeText.NANOS * TimeText.NANOS;
    WholeSecond(a);
    WholeSecond(b);
    hide TimeText.Clock, TimeText.Digits, TimeText.InYears, Lex.Less;
    if x < y { TimeText.KeysAreChronological(x, y); }
    if y < x { TimeText.KeysAreChronological(y, x); }
  }

  lemma WholeSecond(a: int)
    ensures var x := a / TimeText.NANOS * TimeText.NANOS;
            && x / TimeText.NANOS == a / TimeText.NANOS && (TimeText.InYears(a) ==> TimeText.InYears(x))
            && TimeText.Rfc3339Nano(x) == TimeText.Clock(a / TimeText.NANOS) + "Z"
  {
    var x := a / TimeText.NANOS * TimeText.NANOS;
    assert x % TimeText.NANOS == 0 && x / TimeText.NANOS == a / TimeText.NANOS;
    ZerosTrim(9);
    assert TimeText.Fraction(x) + "Z" == "Z";
  }

  lemma {:induction false} ZerosTrim(w: nat)
    ensures TimeText.Trim(Text.Pad(0, w)) == ""
  {
    var s := Text.Pad(0, w);
    Zeros(w);
    hide Text.Pad;
    TrimZeros(s);
  }

  lemma {:induction false} Zeros(w: nat)
    ensures forall i :: 0 <= i < |Text.Pad(0, w)| ==> Text.Pad(0, w)[i] == '0'
  {
    if w > 0 {
      Zeros(w - 1);
      assert Text.Pad(0, w) == Text.Pad(0, w - 1) + "0";
    }
  }

  lemma {:induction false} TrimZeros(s: string)
    requires forall i :: 0 <= i < |s| ==> s[i] == '0'
    ensures TimeText.Trim(s) == ""
  {
    if s != "" { TrimZeros(s[1..]); }
  }

  /** Each of a row's five counted components is counted under its own name, once
      and only where it says something. */
  lemma CountedByName(r: Row, value: string)
    ensures Carries(r, KeyOf(r, "action", value)) <==> value != "" && value == r.action
    ensures Carries(r, KeyOf(r, "operation", value)) <==> value != "" && value == r.operation
    ensures Carries(r, KeyOf(r, "outcome", value)) <==> value != "" && value == r.outcome
    ensures Carries(r, KeyOf(r, "source", value)) <==> value != "" && value == r.source
    ensures Carries(r, KeyOf(r, "actor_kind", value)) <==> value != "" && value == r.actorKind
    ensures Carries(r, KeyOf(r, "target_type", value)) <==> value != "" && value in r.targetTypes
  {
    assert "target_type"[0] == 't' && "data:"[0] == 'd' && "actor_kind"[3] == 'o' && "action"[3] == 'i';
    assert "operation"[1] == 'p' && "outcome"[1] == 'u' && "source"[0] == 's';
    forall v, field | v in r.data && DataCarries(v, field, value) ensures field[0] == 'd' {
    }
  }
}
