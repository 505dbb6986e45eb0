/** That the SQL a filter compiles to selects the rows the filter matches. */
module FilterMeaning {
  import opened Options
  import opened Lex
  import opened Rows
  import opened Filter
  import opened Timestamptz

  // ----- an argument keeps its place

  predicate Placed(e: Expr, n: nat)
  {
    match e
    case Comparison(_, _, a) => a < n
    case IsAny(_, a) => a < n
    case Contains(_, a) => a < n
    case Overlaps(_, a) => a < n
    case Not(f) => Placed(f, n)
    case And(es) => forall f :: f in es ==> Placed(f, n)
    case Or(es) => forall f :: f in es ==> Placed(f, n)
    case ExistsData(a, f) => a < n && Placed(f, n)
  }

  lemma {:induction false} PlacedWider(e: Expr, m: nat, n: nat)
    requires Placed(e, m) && m <= n
    ensures Placed(e, n)
  {
    match e
    case Not(f) => PlacedWider(f, m, n);
    case And(es) => forall f | f in es ensures Placed(f, n) { PlacedWider(f, m, n); }
    case Or(es) => forall f | f in es ensures Placed(f, n) { PlacedWider(f, m, n); }
    case ExistsData(_, f) => PlacedWider(f, m, n);
    case _ =>
  }

  /** What a clause means does not change as arguments are added after its own. */
  lemma {:induction false} MeaningStays(e: Expr, args: seq<Arg>, wider: seq<Arg>, r: Row, v: Option<Value>)
    requires Placed(e, |args|) && args <= wider
    ensures Eval(e, wider, r, v) == Eval(e, args, r, v)
  {
    match e
    case Not(f) => MeaningStays(f, args, wider, r, v);
    case And(es) =>
      forall f | f in es ensures Eval(f, wider, r, v) == Eval(f, args, r, v) {
        MeaningStays(f, args, wider, r, v);
      }
    case Or(es) =>
      forall f | f in es ensures Eval(f, wider, r, v) == Eval(f, args, r, v) {
        MeaningStays(f, args, wider, r, v);
      }
    case ExistsData(_, f) =>
      forall d | d in r.data ensures Eval(f, wider, r, Some(d)) == Eval(f, args, r, Some(d)) {
        MeaningStays(f, args, wider, r, Some(d));
      }
    case _ =>
  }

  /** Clauses joined by `and`. */
  ghost predicate AllTrue(clauses: seq<Expr>, args: seq<Arg>, r: Row, v: Option<Value>)
  {
    forall e :: e in clauses ==> Eval(e, args, r, v).True?
  }

  ghost predicate AllPlaced(clauses: seq<Expr>, n: nat)
  {
    forall e :: e in clauses ==> Placed(e, n)
  }

  lemma AllTrueStays(clauses: seq<Expr>, args: seq<Arg>, wider: seq<Arg>, r: Row, v: Option<Value>)
    requires AllPlaced(clauses, |args|) && args <= wider
    ensures AllTrue(clauses, wider, r, v) == AllTrue(clauses, args, r, v)
    ensures AllPlaced(clauses, |wider|)
  {
    forall e | e in clauses ensures Eval(e, wider, r, v) == Eval(e, args, r, v) && Placed(e, |wider|) {
      MeaningStays(e, args, wider, r, v);
      PlacedWider(e, |args|, |wider|);
    }
  }

  lemma AndIsAllTrue(clauses: seq<Expr>, args: seq<Arg>, r: Row, v: Option<Value>)
    ensures Eval(And(clauses), args, r, v).True? <==> AllTrue(clauses, args, r, v)
  {
  }

  // ----- one predicate

  /** A predicate on text that its range can stand for. */
  ghost predicate RangeOk(value: string, p: Predicate)
  {
    p.op.Prefix? ==> Bytes(p.value) && Bytes(value) && CanBeRaised(p.value)
  }

  /** What a comparison compiles to is true of a text exactly when it holds. */
  lemma ComparisonMeans(args: seq<Arg>, c: Column, p: Predicate, r: Row, v: Option<Value>, value: string)
    requires ComparisonOf(args, c, p).Some? && Held(r, v, c) == Text(value) && RangeOk(value, p)
    ensures var k := ComparisonOf(args, c, p).value;
            && args <= k.args && AllPlaced(k.clauses, |k.args|)
            && (AllTrue(k.clauses, k.args, r, v) <==> Compare(value, p))
  {
    hide UpperBound, Less, HasPrefix, Held;
    var k := ComparisonOf(args, c, p).value;
    if p.op.Prefix? {
      RangeIsPrefix(p.value, value);
      var ge, lt := Comparison(c, Ge, |args|), Comparison(c, Lt, |args| + 1);
      assert Eval(ge, k.args, r, v) == Known(AtMost(p.value, value));
      assert Eval(lt, k.args, r, v) == Known(Less(value, UpperBound(p.value)));
      AndIsAllTrue([ge, lt], k.args, r, v);
      assert k.clauses == [And([ge, lt])];
      assert ge in [ge, lt] && lt in [ge, lt];
      assert forall f :: f in [ge, lt] ==> Placed(f, |k.args|);
      OneClause(And([ge, lt]), k.args, r, v);
    } else {
      OneClause(k.clauses[0], k.args, r, v);
    }
  }

  lemma OneClause(e: Expr, args: seq<Arg>, r: Row, v: Option<Value>)
    ensures AllTrue([e], args, r, v) <==> Eval(e, args, r, v).True?
    ensures AllPlaced([e], |args|) <==> Placed(e, |args|)
  {
    assert e in [e];
  }

  /** For a prefix the compiled range selects a value as `Matches` does exactly
      when the prefix has a byte to raise or the value does not begin with it:
      an empty prefix, or one of nothing but 0xff, selects nothing. */
  lemma PrefixIsRightWhenRaisable(args: seq<Arg>, f: Field, p: Predicate, r: Row)
    requires p.op.Prefix? && Bytes(p.value) && Bytes(TextOf(r, f))
    ensures var k := ComparisonOf(args, Core(f), p).value;
            (AllTrue(k.clauses, k.args, r, None) <==> Compare(TextOf(r, f), p)) <==>
            (CanBeRaised(p.value) || !HasPrefix(TextOf(r, f), p.value))
  {
    var k := ComparisonOf(args, Core(f), p).value;
    if CanBeRaised(p.value) {
      ComparisonMeans(args, Core(f), p, r, None, TextOf(r, f));
    } else {
      NoUpperBound(p.value, TextOf(r, f));
      var ge, lt := Comparison(Core(f), Ge, |args|), Comparison(Core(f), Lt, |args| + 1);
      assert Eval(lt, k.args, r, None) == Known(Less(TextOf(r, f), UpperBound(p.value)));
      assert lt in [ge, lt];
      AndIsAllTrue([ge, lt], k.args, r, None);
      OneClause(k.clauses[0], k.args, r, None);
    }
  }

  /** The column tells a moment from both ends of a period. */
  predicate PeriodTold(at: int, w: TimePredicate)
  {
    (w.from.Some? ==> Tells(at, w.from.value)) && (w.to.Some? ==> Tells(at, w.to.value))
  }

  /** A period as the database reads it: every moment in it a microsecond. */
  predicate WithinMicros(at: int, w: TimePredicate)
  {
    && (w.from.Some? ==> Micros(w.from.value) <= Micros(at))
    && (w.to.Some? ==> Micros(at) < Micros(w.to.value))
  }

  lemma BetweenMeans(args: seq<Arg>, c: Column, w: TimePredicate, r: Row, at: int)
    requires Held(r, None, c) == Moment(Micros(at))
    ensures var k := BetweenOf(args, c, w);
            && args <= k.args && AllPlaced(k.clauses, |k.args|)
            && (AllTrue(k.clauses, k.args, r, None) <==> WithinMicros(at, w))
  {
    hide Micros;
    var k := BetweenOf(args, c, w);
    var ge, lt := Comparison(c, Ge, |args|), Comparison(c, Lt, if w.from.Some? then |args| + 1 else |args|);
    if w.from.Some? {
      assert Eval(ge, k.args, r, None) == Known(Micros(w.from.value) <= Micros(at));
      assert ge in k.clauses;
    }
    if w.to.Some? {
      assert Eval(lt, k.args, r, None) == Known(Micros(at) < Micros(w.to.value));
      assert lt in k.clauses;
    }
    assert forall e :: e in k.clauses ==> (w.from.Some? && e == ge) || (w.to.Some? && e == lt);
  }

  /** A compiled period selects as `Matches` does unless its start is missed,
      while the end is not passed in the database, or its end is missed, while
      the start is passed. For a period with one end that is exactly when the
      column tells the moment from the end. */
  lemma PeriodIsRightWhenTold(args: seq<Arg>, c: Column, w: TimePredicate, r: Row, at: int)
    requires Held(r, None, c) == Moment(Micros(at))
    ensures var k := BetweenOf(args, c, w);
            (AllTrue(k.clauses, k.args, r, None) <==> Within(at, w)) <==>
            && !(w.from.Some? && !Tells(at, w.from.value) && (w.to.Some? ==> Micros(at) < Micros(w.to.value)))
            && !(w.to.Some? && !Tells(at, w.to.value) && (w.from.Some? ==> w.from.value <= at))
    ensures w.from.None? || w.to.None? ==>
            var k := BetweenOf(args, c, w);
            (AllTrue(k.clauses, k.args, r, None) <==> Within(at, w)) <==> PeriodTold(at, w)
  {
    hide BetweenOf, AllTrue;
    BetweenMeans(args, c, w, r, at);
  }

  /** What `greater_than` and `less_than_or_equal` become: bounds a nanosecond
      past the moment asked. The database takes the row at that moment for one
      after it, and loses it from those up to it, unless the moment is the last
      nanosecond of a microsecond. */
  lemma ANanosecondIsLost(args: seq<Arg>, c: Column, r: Row, at: int)
    requires Held(r, None, c) == Moment(Micros(at))
    ensures var after, upTo := TimePredicate(Some(at + 1), None), TimePredicate(None, Some(at + 1));
            var j, k := BetweenOf(args, c, after), BetweenOf(args, c, upTo);
            && !Within(at, after) && (AllTrue(j.clauses, j.args, r, None) <==> at % MICRO != MICRO - 1)
            && Within(at, upTo) && (AllTrue(k.clauses, k.args, r, None) <==> at % MICRO == MICRO - 1)
  {
    hide BetweenOf, AllTrue;
    BetweenMeans(args, c, TimePredicate(Some(at + 1), None), r, at);
    BetweenMeans(args, c, TimePredicate(None, Some(at + 1)), r, at);
  }

  lemma ToldPeriod(at: int, w: TimePredicate)
    requires PeriodTold(at, w)
    ensures WithinMicros(at, w) <==> Within(at, w)
  {
  }

  lemma ArrayMeans(args: seq<Arg>, c: Column, p: Predicate, r: Row, values: seq<string>)
    requires ArrayOf(args, c, p).Some? && Held(r, None, c) == List(values)
    ensures var k := ArrayOf(args, c, p).value;
            && args <= k.args && AllPlaced(k.clauses, |k.args|)
            && (AllTrue(k.clauses, k.args, r, None) <==> AnyOf(values, p))
  {
    var k := ArrayOf(args, c, p).value;
    OneClause(k.clauses[0], k.args, r, None);
  }

  /** A property asked for as it is stored: a number or a flag as a number, a
      moment as a moment, and text of a text or of a moment, which is kept as it
      was written too. */
  ghost predicate KindStored(asked: Kind, stored: Kind)
  {
    match asked
    case TimeKind => stored.TimeKind?
    case TextKind => stored.TextKind? || stored.TimeKind?
    case _ => stored.IntKind? || stored.BoolKind?
  }

  ghost predicate DataOk(r: Row, p: PathPredicate)
  {
    forall v :: v in r.data && v.path == p.path ==>
      && KindStored(p.kind, v.kind) && (p.kind.TextKind? ==> RangeOk(v.text, TextPredicate(p)))
      && (p.kind.TimeKind? ==> Tells(v.at, p.at) && Tells(p.at, v.at))
  }

  lemma DataValueMeans(args: seq<Arg>, p: PathPredicate, r: Row, v: Value)
    requires DataValueOf(args, p).Some? && v.path == p.path && KindStored(p.kind, v.kind)
    requires p.kind.TextKind? ==> RangeOk(v.text, TextPredicate(p))
    requires p.kind.TimeKind? ==> Tells(v.at, p.at) && Tells(p.at, v.at)
    ensures var k := DataValueOf(args, p).value;
            && args <= k.args && AllPlaced(k.clauses, |k.args|)
            && (AllTrue(k.clauses, k.args, r, Some(v)) <==> ValueHolds(v, p))
  {
    if p.kind.TextKind? {
      ComparisonMeans(args, DataText, TextPredicate(p), r, Some(v), v.text);
    } else {
      var k := DataValueOf(args, p).value;
      EqualIsRightWhenTold(v.at, p.at);
      OneClause(k.clauses[0], k.args, r, Some(v));
    }
  }

  lemma DataValuePlaced(args: seq<Arg>, p: PathPredicate)
    requires DataValueOf(args, p).Some?
    ensures var k := DataValueOf(args, p).value; args <= k.args && AllPlaced(k.clauses, |k.args|)
  {
  }

  lemma DataMeans(args: seq<Arg>, p: PathPredicate, r: Row)
    requires DataOf(args, p).Some? && DistinctPaths(r.data) && DataOk(r, p)
    ensures var k := DataOf(args, p).value;
            args <= k.args && AllPlaced(k.clauses, |k.args|) && (AllTrue(k.clauses, k.args, r, None) <==> HasData(r, p))
  {
    hide DataValueOf, ValueHolds, Eval;
    var u := DataValueOf(args, p).value;
    var k := DataOf(args, p).value;
    DataValuePlaced(args, p);
    forall v | v in r.data && v.path == p.path
      ensures Eval(And(u.clauses), k.args, r, Some(v)).True? <==> ValueHolds(v, p)
    {
      DataValueMeans(args, p, r, v);
      AllTrueStays(u.clauses, u.args, k.args, r, Some(v));
      AndIsAllTrue(u.clauses, k.args, r, Some(v));
    }
    AllTrueStays(u.clauses, u.args, k.args, r, None);
    var e := k.clauses[0];
    OneClause(e, k.args, r, None);
    ExistsMeans(|u.args|, And(u.clauses), k.args, r, p);
  }

  /** The subquery finds a value of the path that the clause is true of. */
  lemma ExistsMeans(n: nat, e: Expr, args: seq<Arg>, r: Row, p: PathPredicate)
    requires n < |args| && args[n] == TextArg(p.path) && DistinctPaths(r.data)
    requires forall v :: v in r.data && v.path == p.path ==> (Eval(e, args, r, Some(v)).True? <==> ValueHolds(v, p))
    ensures Eval(ExistsData(n, e), args, r, None).True? <==> HasData(r, p)
  {
    AllStored(r.data);
    ExistsUnfold(n, e, args, r);
    hide Eval, StoredData, DistinctPaths;
    if HasData(r, p) {
      var v :| v in r.data && ValueHolds(v, p);
      assert Eval(e, args, r, Some(v)).True?;
    }
  }

  ghost predicate Finds(e: Expr, args: seq<Arg>, r: Row, path: string)
  {
    exists d :: d in StoredData(r.data) && d.path == path && Eval(e, args, r, Some(d)).True?
  }

  lemma ExistsUnfold(n: nat, e: Expr, args: seq<Arg>, r: Row)
    requires n < |args| && args[n].TextArg?
    ensures Eval(ExistsData(n, e), args, r, None).True? <==> Finds(e, args, r, args[n].text)
  {
    hide StoredData;
  }

  // ----- a conjunction

  predicate ItemHolds(r: Row, i: Item)
  {
    match i
    case OnText(f, p) => Compare(TextOf(r, f), p)
    case OnTime(c, w) => Within(if c.OccurredAt? then r.occurredAt else r.recordedAt, w)
    case OnArray(c, p) => AnyOf(if c.TargetTypes? then r.targetTypes else r.targetIds, p)
    case OnData(d) => HasData(r, d)
  }

  /** What the compilation is faithful to: prefixes with a byte to raise, moments
      the columns tell from those asked, data asked for as it is stored. */
  ghost predicate ItemOk(r: Row, i: Item)
  {
    match i
    case OnText(f, p) => RangeOk(TextOf(r, f), p)
    case OnTime(c, w) =>
      (c.OccurredAt? || c.RecordedAt?) && PeriodTold(if c.OccurredAt? then r.occurredAt else r.recordedAt, w)
    case OnArray(c, _) => c.TargetTypes? || c.TargetIds?
    case OnData(d) => DistinctPaths(r.data) && DataOk(r, d)
  }

  lemma ItemMeans(args: seq<Arg>, i: Item, r: Row)
    requires ItemOf(args, i).Some? && ItemOk(r, i)
    ensures var k := ItemOf(args, i).value;
            && args <= k.args && AllPlaced(k.clauses, |k.args|)
            && (AllTrue(k.clauses, k.args, r, None) <==> ItemHolds(r, i))
  {
    hide ComparisonOf, BetweenOf, ArrayOf, DataOf, Compare, AnyOf, HasData, DataOk;
    match i
    case OnText(f, p) => ComparisonMeans(args, Core(f), p, r, None, TextOf(r, f));
    case OnTime(c, w) =>
      var at := if c.OccurredAt? then r.occurredAt else r.recordedAt;
      BetweenMeans(args, c, w, r, at);
      ToldPeriod(at, w);
    case OnArray(c, p) => ArrayMeans(args, c, p, r, if c.TargetTypes? then r.targetTypes else r.targetIds);
    case OnData(d) => DataMeans(args, d, r);
  }

  lemma {:induction false} ItemsMean(args: seq<Arg>, items: seq<Item>, r: Row)
    requires ItemsOf(args, items).Some? && forall i :: i in items ==> ItemOk(r, i)
    ensures var k := ItemsOf(args, items).value;
            && args <= k.args && AllPlaced(k.clauses, |k.args|)
            && (AllTrue(k.clauses, k.args, r, None) <==> forall i :: i in items ==> ItemHolds(r, i))
  {
    hide ItemOf, ItemHolds, ItemOk;
    if items != [] {
      var n := |items| - 1;
      var rest, i := items[..n], items[n];
      assert items == rest + [i];
      ItemsMean(args, rest, r);
      var a := ItemsOf(args, rest).value;
      ItemMeans(a.args, i, r);
      var b := ItemOf(a.args, i).value;
      AllTrueStays(a.clauses, a.args, b.args, r, None);
      assert forall e :: e in a.clauses + b.clauses <==> e in a.clauses || e in b.clauses;
      assert forall x :: x in items <==> x in rest || x == i;
    }
  }

  lemma {:induction false} TextItemsHold(c: Conjunction, fields: seq<Field>, r: Row)
    ensures (forall i :: i in TextItems(c, fields) ==> ItemHolds(r, i))
       <==> forall f :: f in fields ==> forall p :: p in On(c, f) ==> Compare(TextOf(r, f), p)
  {
    if fields != [] {
      var n := |fields| - 1;
      var g := fields[n];
      assert fields == fields[..n] + [g];
      TextItemsHold(c, fields[..n], r);
      var m := Map(p => OnText(g, p), On(c, g));
      MappedHold(m, On(c, g), r, p => OnText(g, p));
      assert forall i :: i in TextItems(c, fields) <==> i in TextItems(c, fields[..n]) || i in m;
    }
  }

  lemma MappedHold<A(!new)>(m: seq<Item>, s: seq<A>, r: Row, f: A -> Item)
    requires |m| == |s| && forall i :: 0 <= i < |s| ==> m[i] == f(s[i])
    ensures (forall i :: i in m ==> ItemHolds(r, i)) <==> forall x :: x in s ==> ItemHolds(r, f(x))
  {
    hide ItemHolds;
    forall x | x in s && (forall i :: i in m ==> ItemHolds(r, i)) ensures ItemHolds(r, f(x)) {
      var i :| 0 <= i < |s| && s[i] == x;
      assert m[i] in m;
    }
    forall i | i in m && (forall x :: x in s ==> ItemHolds(r, f(x))) ensures ItemHolds(r, i) {
      var j :| 0 <= j < |m| && m[j] == i;
      assert s[j] in s;
    }
  }

  /** A conjunction holds when each of the predicates compiled from it does. */
  lemma HoldsIsItems(c: Conjunction, r: Row)
    ensures Holds(r, c) <==> forall i :: i in Items(c) ==> ItemHolds(r, i)
  {
    hide Compare, AnyOf, HasData, Rows.Within;
    TextItemsHold(c, FIELDS, r);
    MappedHold(Map(w => OnTime(OccurredAt, w), c.occurredAt), c.occurredAt, r, w => OnTime(OccurredAt, w));
    MappedHold(Map(w => OnTime(RecordedAt, w), c.recordedAt), c.recordedAt, r, w => OnTime(RecordedAt, w));
    MappedHold(Map(p => OnArray(TargetTypes, p), c.targetType), c.targetType, r, p => OnArray(TargetTypes, p));
    MappedHold(Map(p => OnArray(TargetIds, p), c.targetId), c.targetId, r, p => OnArray(TargetIds, p));
    MappedHold(Map(d => OnData(d), c.data), c.data, r, d => OnData(d));
  }

  // ----- the filter

  ghost predicate FilterOk(r: Row, filter: seq<Conjunction>)
  {
    forall c, i :: c in filter && i in Items(c) ==> ItemOk(r, i)
  }

  ghost predicate AnyTrue(ors: seq<Expr>, args: seq<Arg>, r: Row)
  {
    exists e :: e in ors && Eval(e, args, r, None).True?
  }

  lemma AnyTrueStays(ors: seq<Expr>, args: seq<Arg>, wider: seq<Arg>, r: Row)
    requires AllPlaced(ors, |args|) && args <= wider
    ensures AnyTrue(ors, wider, r) == AnyTrue(ors, args, r) && AllPlaced(ors, |wider|)
  {
    forall e | e in ors ensures Eval(e, wider, r, None) == Eval(e, args, r, None) && Placed(e, |wider|) {
      MeaningStays(e, args, wider, r, None);
      PlacedWider(e, |args|, |wider|);
    }
  }

  lemma {:induction false} DisjunctsMean(args: seq<Arg>, filter: seq<Conjunction>, r: Row)
    requires FilterOf(args, filter).Some? && FilterOk(r, filter)
    ensures match FilterOf(args, filter).value
            case Everything(_) => exists c :: c in filter && Holds(r, c)
            case Disjuncts(ors, a) =>
              && args <= a && AllPlaced(ors, |a|)
              && (AnyTrue(ors, a, r) <==> exists c :: c in filter && Holds(r, c))
  {
    hide ItemsOf, Items, Holds, ItemOk;
    if filter != [] {
      var n := |filter| - 1;
      var rest, c := filter[..n], filter[n];
      assert filter == rest + [c];
      DisjunctsMean(args, rest, r);
      var before := FilterOf(args, rest).value;
      if before.Disjuncts? {
        var k := ItemsOf(before.args, Items(c)).value;
        ItemsMean(before.args, Items(c), r);
        HoldsIsItems(c, r);
        AnyTrueStays(before.ors, before.args, k.args, r);
        AndIsAllTrue(k.clauses, k.args, r, None);
        OneMoreDisjunct(before.ors, And(k.clauses), k.args, r);
      }
    }
  }

  lemma OneMoreDisjunct(ors: seq<Expr>, e: Expr, args: seq<Arg>, r: Row)
    requires AllPlaced(ors, |args|) && Placed(e, |args|)
    ensures AnyTrue(ors + [e], args, r) <==> AnyTrue(ors, args, r) || Eval(e, args, r, None).True?
    ensures AllPlaced(ors + [e], |args|)
  {
    if Eval(e, args, r, None).True? { assert (ors + [e])[|ors|] == e; }
    if d :| d in ors && Eval(d, args, r, None).True? { assert d in ors + [e]; }
  }

  /** Whenever a filter compiles, the row is selected by the clause with its
      arguments exactly when the filter matches the row: for prefixes with a
      byte below 0xff, moments told apart to the microsecond, and data asked for
      as it is stored. */
  lemma CompilationKeepsMeaning(args: seq<Arg>, filter: seq<Conjunction>, r: Row)
    requires WriteFilter(args, filter).Some? && FilterOk(r, filter)
    ensures var (clause, all) := WriteFilter(args, filter).value;
            (clause.None? || Selects(clause.value, all, r)) <==> Matches(r, filter)
  {
    hide Holds, ItemsOf, Items, FilterOk;
    DisjunctsMean(args, filter, r);
  }

  // ----- refusals, and arguments left over

  predicate ItemCompiles(i: Item)
  {
    match i
    case OnText(_, p) => !p.op.Unknown?
    case OnTime(_, _) => true
    case OnArray(_, p) => !p.op.Unknown? && !p.op.Prefix?
    case OnData(d) => !d.kind.TextKind? || !d.op.Unknown?
  }

  /** A conjunction is refused exactly when it asks an operator there is none
      for, or a prefix of a list. */
  lemma {:induction false} ItemsCompile(args: seq<Arg>, items: seq<Item>)
    ensures ItemsOf(args, items).Some? <==> forall i :: i in items ==> ItemCompiles(i)
  {
    if items != [] {
      var n := |items| - 1;
      assert items == items[..n] + [items[n]];
      ItemsCompile(args, items[..n]);
      forall a ensures ItemOf(a, items[n]).Some? <==> ItemCompiles(items[n]) {}
      assert forall i :: i in items <==> i in items[..n] || i == items[n];
    }
  }

  lemma {:induction false} ClausesBringArgs(args: seq<Arg>, items: seq<Item>)
    requires ItemsOf(args, items).Some?
    ensures var k := ItemsOf(args, items).value;
            args <= k.args && (k.clauses == [] <==> k.args == args)
  {
    if items != [] {
      var n := |items| - 1;
      ClausesBringArgs(args, items[..n]);
      var a := ItemsOf(args, items[..n]).value.args;
      ItemBringsArgs(a, items[n]);
    }
  }

  lemma ItemBringsArgs(args: seq<Arg>, i: Item)
    requires ItemOf(args, i).Some?
    ensures var k := ItemOf(args, i).value; args <= k.args && (k.clauses == [] <==> k.args == args)
  {
  }

  lemma {:induction false} ArgsGrow(args: seq<Arg>, filter: seq<Conjunction>)
    requires FilterOf(args, filter).Some?
    ensures args <= FilterOf(args, filter).value.args
    ensures FilterOf(args, filter).value.Disjuncts? && filter != [] ==> FilterOf(args, filter).value.args != args
  {
    hide Items, ItemsOf;
    if filter != [] {
      var n := |filter| - 1;
      ArgsGrow(args, filter[..n]);
      var before := FilterOf(args, filter[..n]).value;
      if before.Disjuncts? { ClausesBringArgs(before.args, Items(filter[n])); }
    }
  }

  /** When a conjunction that asks nothing makes the clause unnecessary, the
      arguments of the conjunctions before it stay behind with no placeholder to
      use them; there are none exactly when it is the first. */
  lemma {:induction false} StrayArguments(args: seq<Arg>, filter: seq<Conjunction>)
    requires FilterOf(args, filter).Some? && FilterOf(args, filter).value.Everything?
    ensures filter != [] && ItemsOf(args, Items(filter[0])).Some?
    ensures FilterOf(args, filter).value.args == args <==> ItemsOf(args, Items(filter[0])).value.clauses == []
  {
    hide Items, ItemsOf;
    var n := |filter| - 1;
    var rest := filter[..n];
    var before := FilterOf(args, rest).value;
    if before.Everything? {
      StrayArguments(args, rest);
    } else {
      ArgsGrow(args, rest);
      ClausesBringArgs(before.args, Items(filter[n]));
      if n > 0 { FirstHasClauses(args, rest); }
    }
  }

  lemma {:induction false} FirstHasClauses(args: seq<Arg>, filter: seq<Conjunction>)
    requires filter != [] && FilterOf(args, filter).Some? && FilterOf(args, filter).value.Disjuncts?
    ensures ItemsOf(args, Items(filter[0])).Some? && ItemsOf(args, Items(filter[0])).value.clauses != []
  {
    hide Items, ItemsOf;
    if |filter| > 1 {
      FirstHasClauses(args, filter[..|filter| - 1]);
    } else {
      assert filter[..0] == [];
    }
  }
}
