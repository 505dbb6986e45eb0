/** index/postgres/filter.go: a filter compiled to SQL, and what the SQL means.

    A clause is modelled by its syntax tree and not by its text. Every value a
    caller supplied is an argument, named by its place among the arguments, as
    `$1` names the first. The meaning is SQL's three-valued one: a comparison
    with a column that holds nothing is unknown, and a row is selected when the
    clause is true. Text compares by bytes, as the schema's collation has it,
    and moments to the microsecond, as its columns have them. */
module Filter {
  import opened Options
  import opened Lex
  import opened Rows
  import opened Timestamptz

  datatype Column =
    | Core(field: Field)
    | OccurredAt | RecordedAt | TargetTypes | TargetIds
    | DataText | DataInt | DataTime

  datatype Arg = TextArg(text: string) | ListArg(list: seq<string>) | TimeArg(at: int) | IntArg(n: int)

  datatype Operator = Eq | Ne | Ge | Lt

  datatype Expr =
    | Comparison(column: Column, op: Operator, arg: nat)
    | IsAny(column: Column, arg: nat)
    | Contains(column: Column, arg: nat)
    | Overlaps(column: Column, arg: nat)
    | Not(e: Expr)
    | And(all: seq<Expr>)
    | Or(any: seq<Expr>)
    | ExistsData(path: nat, e: Expr)

  // ----- what SQL means

  datatype Truth = True | False | Unknown'

  datatype Stored = Null | Text(text: string) | Moment(micros: int) | Number(n: int) | List(list: seq<string>)

  /** What a row of `events_data` holds for a value: which of its columns are
      filled depends on the value's kind. */
  function DataColumn(v: Value, c: Column): Stored
  {
    match c
    case DataInt => if v.kind.IntKind? || v.kind.BoolKind? then Number(v.int') else Null
    case DataTime => if v.kind.TimeKind? then Moment(Micros(v.at)) else Null
    case DataText => if v.kind.TextKind? || v.kind.TimeKind? then Text(v.text) else Null
    case _ => Null
  }

  /** The column that indexing writes each component of a row to, and that a
      predicate on the field names: those of `events_core`, and of the context
      row that is stored with it. */
  function CoreColumn(r: Row, f: Field): string
  {
    match f
    case Id => r.id
    case TenantId => r.tenantId
    case Source => r.source
    case Action => r.action
    case Operation => r.operation
    case Outcome => r.outcome
    case ActorKind => r.actorKind
    case ActorId => r.actorId
    case SubjectKind => r.subjectKind
    case SubjectId => r.subjectId
    case ClientAddress => r.clientAddress
    case RequestId => r.requestId
    case TraceId => r.traceId
    case ObserverId => r.observerId
  }

  function Held(r: Row, v: Option<Value>, c: Column): Stored
  {
    match c
    case Core(f) => Text(CoreColumn(r, f))
    case OccurredAt => Moment(Micros(r.occurredAt))
    case RecordedAt => Moment(Micros(r.recordedAt))
    case TargetTypes => List(r.targetTypes)
    case TargetIds => List(r.targetIds)
    case _ => if v.Some? then DataColumn(v.value, c) else Null
  }

  function Known(b: bool): Truth
  {
    if b then True else False
  }

  function Compared(s: Stored, op: Operator, a: Arg): Truth
  {
    match (s, a)
    case (Text(x), TextArg(y)) =>
      Known(match op case Eq => x == y case Ne => x != y case Ge => AtMost(y, x) case Lt => Less(x, y))
    case (Moment(x), TimeArg(at)) =>
      var y := Micros(at);
      Known(match op case Eq => x == y case Ne => x != y case Ge => y <= x case Lt => x < y)
    case (Number(x), IntArg(y)) =>
      Known(match op case Eq => x == y case Ne => x != y case Ge => y <= x case Lt => x < y)
    case _ => Unknown'
  }

  function Negated(t: Truth): Truth
  {
    match t case True => False case False => True case Unknown' => Unknown'
  }

  ghost function Eval(e: Expr, args: seq<Arg>, r: Row, v: Option<Value>): Truth
  {
    match e
    case Comparison(c, op, n) => if n < |args| then Compared(Held(r, v, c), op, args[n]) else Unknown'
    case IsAny(c, n) =>
      var s := Held(r, v, c);
      if n < |args| && s.Text? && args[n].ListArg? then Known(s.text in args[n].list) else Unknown'
    case Contains(c, n) =>
      var s := Held(r, v, c);
      if n < |args| && s.List? && args[n].TextArg? then Known(args[n].text in s.list) else Unknown'
    case Overlaps(c, n) =>
      var s := Held(r, v, c);
      if n < |args| && s.List? && args[n].ListArg? then
        Known(exists x :: x in s.list && x in args[n].list)
      else Unknown'
    case Not(f) => Negated(Eval(f, args, r, v))
    case And(es) =>
      if exists f :: f in es && Eval(f, args, r, v).False? then False
      else if exists f :: f in es && Eval(f, args, r, v).Unknown'? then Unknown' else True
    case Or(es) =>
      if exists f :: f in es && Eval(f, args, r, v).True? then True
      else if exists f :: f in es && Eval(f, args, r, v).Unknown'? then Unknown' else False
    case ExistsData(n, f) =>
      Known(n < |args| && args[n].TextArg? &&
            exists d :: d in StoredData(r.data) && d.path == args[n].text && Eval(f, args, r, Some(d)).True?)
  }

  /** The values the table keeps: its key holds the path, so a second value of
      one path is not stored. */
  function StoredData(data: seq<Value>): (r: seq<Value>)
    ensures forall v :: v in r ==> v in data
  {
    if data == [] then []
    else
      var n := |data| - 1;
      assert data == data[..n] + [data[n]];
      var rest := StoredData(data[..n]);
      if HasPath(rest, data[n].path) then rest else rest + [data[n]]
  }

  predicate HasPath(values: seq<Value>, path: string)
  {
    exists v :: v in values && v.path == path
  }

  ghost predicate DistinctPaths(data: seq<Value>)
  {
    forall i, j :: 0 <= i < j < |data| ==> data[i].path != data[j].path
  }

  ghost predicate FirstAtPath(data: seq<Value>, i: int)
  {
    0 <= i < |data| && forall j :: 0 <= j < i ==> data[j].path != data[i].path
  }

  ghost predicate IsFirst(data: seq<Value>, v: Value)
  {
    exists i :: FirstAtPath(data, i) && data[i] == v
  }

  /** What is stored of a row's values is the first at each path. */
  lemma {:induction false} StoresTheFirst(data: seq<Value>)
    ensures DistinctPaths(StoredData(data))
    ensures forall v :: v in StoredData(data) <==> IsFirst(data, v)
    ensures forall path :: HasPath(StoredData(data), path) <==> HasPath(data, path)
  {
    if data != [] {
      var n := |data| - 1;
      StoresTheFirst(data[..n]);
      var rest := StoredData(data[..n]);
      FirstsGrow(data, n);
      PathsGrow(data, n);
      StoredGrows(rest, data[n]);
      hide HasPath, IsFirst, DistinctPaths;
    }
  }

  lemma StoredGrows(rest: seq<Value>, v: Value)
    requires DistinctPaths(rest)
    ensures !HasPath(rest, v.path) ==> DistinctPaths(rest + [v])
    ensures forall path :: HasPath(rest + [v], path) <==> HasPath(rest, path) || path == v.path
  {
    assert forall i :: 0 <= i < |rest| ==> rest[i] in rest;
    forall path ensures HasPath(rest + [v], path) <==> HasPath(rest, path) || path == v.path {
      assert v in rest + [v];
    }
  }

  lemma PathsGrow(data: seq<Value>, n: nat)
    requires n == |data| - 1
    ensures forall path :: HasPath(data, path) <==> HasPath(data[..n], path) || path == data[n].path
  {
    assert data == data[..n] + [data[n]];
    forall path ensures HasPath(data, path) <==> HasPath(data[..n], path) || path == data[n].path {
      assert data[n] in data;
    }
  }

  lemma FirstsGrow(data: seq<Value>, n: nat)
    requires n == |data| - 1
    ensures forall v :: IsFirst(data, v) <==> IsFirst(data[..n], v) || (v == data[n] && !HasPath(data[..n], v.path))
  {
    var front := data[..n];
    assert forall k :: 0 <= k < n ==> front[k] == data[k] && front[k] in front;
    forall v ensures IsFirst(data, v) <==> IsFirst(front, v) || (v == data[n] && !HasPath(front, v.path)) {
      if i :| FirstAtPath(front, i) && front[i] == v { assert FirstAtPath(data, i); }
      if i :| FirstAtPath(data, i) && data[i] == v {
        if i < n { assert FirstAtPath(front, i); }
      }
      if v == data[n] && !HasPath(front, v.path) { assert FirstAtPath(data, n); }
    }
  }

  lemma {:induction false} AllStored(data: seq<Value>)
    requires DistinctPaths(data)
    ensures StoredData(data) == data
  {
    if data != [] {
      var n := |data| - 1;
      assert data == data[..n] + [data[n]];
      AllStored(data[..n]);
      forall v | v in data[..n] ensures v.path != data[n].path {
        var i :| 0 <= i < n && data[i] == v;
      }
    }
  }

  /** Whether a row is selected by a clause and its arguments. */
  ghost predicate Selects(e: Expr, args: seq<Arg>, r: Row)
  {
    Eval(e, args, r, None).True?
  }

  // ----- the range that stands for a prefix

  ghost predicate Bytes(s: string)
  {
    forall i :: 0 <= i < |s| ==> s[i] as int <= 0xff
  }

  /** Some byte of the prefix can be raised. */
  predicate CanBeRaised(p: string)
  {
    exists i :: 0 <= i < |p| && p[i] as int < 0xff
  }

  /** The first string after every string with a prefix, or none: the last byte
      that can be raised is, and what follows it is dropped. */
  function UpperBound(p: string): string
  {
    if p == "" then ""
    else
      var n := |p| - 1;
      if p[n] as int < 0xff then p[..n] + [(p[n] as int + 1) as char] else UpperBound(p[..n])
  }

  method UpperBoundInPlace(prefix: string) returns (bound: string)
    ensures bound == UpperBound(prefix)
  {
    var b := new char[|prefix|](i requires 0 <= i < |prefix| => prefix[i]);
    assert b[..] == prefix;
    var i := b.Length - 1;
    assert prefix[..i + 1] == prefix;
    while i >= 0
      invariant -1 <= i < b.Length == |prefix|
      invariant b[..] == prefix
      invariant UpperBound(prefix) == UpperBound(prefix[..i + 1])
    {
      assert prefix[..i + 1][..i] == prefix[..i];
      if b[i] as int < 0xff {
        b[i] := (b[i] as int + 1) as char;
        assert b[..i + 1] == prefix[..i] + [b[i]];
        return b[..i + 1];
      }
      i := i - 1;
    }
    return "";
  }

  lemma {:induction false} RangeIsPrefix(p: string, s: string)
    requires Bytes(p) && Bytes(s) && CanBeRaised(p)
    ensures HasPrefix(s, p) <==> AtMost(p, s) && Less(s, UpperBound(p))
  {
    var n := |p| - 1;
    var q, c := p[..n], p[n];
    assert p == q + [c];
    if c as int < 0xff {
      var d := (c as int + 1) as char;
      RaisedRange(q, c, d, s);
    } else {
      assert CanBeRaised(q) by {
        var i :| 0 <= i < |p| && p[i] as int < 0xff;
        assert q[i] as int < 0xff;
      }
      RangeIsPrefix(q, s);
      FullByte(q, c, s);
    }
  }

  lemma RaisedRange(q: string, c: char, d: char, s: string)
    requires d as int == c as int + 1
    ensures HasPrefix(s, q + [c]) <==> AtMost(q + [c], s) && Less(s, q + [d])
  {
    var p := q + [c];
    if HasPrefix(s, q) {
      var t := s[|q|..];
      assert s == q + t;
      CommonPrefix(q, [c], t);
      CommonPrefix(q, t, [d]);
      assert HasPrefix(s, p) <==> t != "" && t[0] == c by { if t != "" && t[0] == c { assert s[..|p|] == p; } }
      if t != "" && t[0] == c {
        assert AtMost([c], t) by {
          if t != [c] {
            assert t == [c] + t[1..];
            Extension([c], t[1..]);
          }
        }
      }
      assert p == s <==> t == [c];
    } else {
      NotBetween(q, c, d, s);
      ShorterPrefix(s, q, [c]);
    }
  }

  lemma ShorterPrefix(s: string, q: string, x: string)
    ensures HasPrefix(s, q + x) ==> HasPrefix(s, q)
  {
    if HasPrefix(s, q + x) { assert s[..|q|] == (q + x)[..|q|]; }
  }

  lemma {:induction false} NotBetween(q: string, c: char, d: char, s: string)
    requires !HasPrefix(s, q)
    ensures !(AtMost(q + [c], s) && Less(s, q + [d]))
  {
    if s != "" && q[0] == s[0] {
      assert (q + [c])[1..] == q[1..] + [c] && (q + [d])[1..] == q[1..] + [d];
      assert s == [s[0]] + s[1..] && q == [q[0]] + q[1..];
      NotBetween(q[1..], c, d, s[1..]);
    }
  }

  lemma FullByte(q: string, c: char, s: string)
    requires Bytes(s) && c as int == 0xff
    ensures HasPrefix(s, q) && AtMost(q + [c], s) ==> HasPrefix(s, q + [c])
    ensures HasPrefix(s, q + [c]) ==> HasPrefix(s, q) && AtMost(q + [c], s)
    ensures AtMost(q + [c], s) ==> AtMost(q, s)
  {
    var p := q + [c];
    Extension(q, [c]);
    if AtMost(p, s) && s != p { Transitive(q, p, s); }
    if HasPrefix(s, p) {
      assert s == p + s[|p|..];
      assert s[..|q|] == p[..|q|];
      if s != p { Extension(p, s[|p|..]); }
    }
    if HasPrefix(s, q) && AtMost(p, s) {
      var t := s[|q|..];
      assert s == q + t;
      CommonPrefix(q, [c], t);
      if t != "" { assert s[|q|] as int <= 0xff; assert t[0] == c; assert s[..|p|] == p; }
    }
  }

  /** A prefix with no byte to raise gets the empty bound, which is before
      everything: the range it stands for is empty. */
  lemma {:induction false} NoUpperBound(p: string, s: string)
    requires Bytes(p)
    ensures !CanBeRaised(p) ==> UpperBound(p) == "" && !Less(s, UpperBound(p))
  {
    if p != "" && !CanBeRaised(p) {
      assert !CanBeRaised(p[..|p| - 1]);
      NoUpperBound(p[..|p| - 1], s);
    }
  }

  // ----- the compilation

  /** Clauses to be joined by `and`, and the arguments so far. */
  datatype Compiled = Compiled(clauses: seq<Expr>, args: seq<Arg>)

  function ComparisonOf(args: seq<Arg>, c: Column, p: Predicate): Option<Compiled>
  {
    var n := |args|;
    match p.op
    case Equal => Some(Compiled([Comparison(c, Eq, n)], args + [TextArg(p.value)]))
    case NotEqual => Some(Compiled([Comparison(c, Ne, n)], args + [TextArg(p.value)]))
    case In => Some(Compiled([IsAny(c, n)], args + [ListArg(p.values)]))
    case NotIn => Some(Compiled([Not(IsAny(c, n))], args + [ListArg(p.values)]))
    case Prefix =>
      Some(Compiled([And([Comparison(c, Ge, n), Comparison(c, Lt, n + 1)])],
                    args + [TextArg(p.value), TextArg(UpperBound(p.value))]))
    case Unknown => None
  }

  function BetweenOf(args: seq<Arg>, c: Column, w: TimePredicate): Compiled
  {
    var from :=
      if w.from.Some? then Compiled([Comparison(c, Ge, |args|)], args + [TimeArg(w.from.value)])
      else Compiled([], args);
    if w.to.Some? then Compiled(from.clauses + [Comparison(c, Lt, |from.args|)], from.args + [TimeArg(w.to.value)])
    else from
  }

  function ArrayOf(args: seq<Arg>, c: Column, p: Predicate): Option<Compiled>
  {
    var n := |args|;
    match p.op
    case Equal => Some(Compiled([Contains(c, n)], args + [TextArg(p.value)]))
    case NotEqual => Some(Compiled([Not(Contains(c, n))], args + [TextArg(p.value)]))
    case In => Some(Compiled([Overlaps(c, n)], args + [ListArg(p.values)]))
    case NotIn => Some(Compiled([Not(Overlaps(c, n))], args + [ListArg(p.values)]))
    case _ => None
  }

  function DataValueOf(args: seq<Arg>, p: PathPredicate): Option<Compiled>
  {
    match p.kind
    case TextKind => ComparisonOf(args, DataText, TextPredicate(p))
    case TimeKind => Some(Compiled([Comparison(DataTime, Eq, |args|)], args + [TimeArg(p.at)]))
    case _ => Some(Compiled([Comparison(DataInt, Eq, |args|)], args + [IntArg(p.int')]))
  }

  function DataOf(args: seq<Arg>, p: PathPredicate): Option<Compiled>
  {
    match DataValueOf(args, p)
    case None => None
    case Some(v) => Some(Compiled([ExistsData(|v.args|, And(v.clauses))], v.args + [TextArg(p.path)]))
  }

  /** One predicate of a conjunction, of whichever kind. */
  datatype Item =
    | OnText(f: Field, p: Predicate)
    | OnTime(column: Column, w: TimePredicate)
    | OnArray(column: Column, p: Predicate)
    | OnData(d: PathPredicate)

  function ItemOf(args: seq<Arg>, i: Item): Option<Compiled>
  {
    match i
    case OnText(f, p) => ComparisonOf(args, Core(f), p)
    case OnTime(c, w) => Some(BetweenOf(args, c, w))
    case OnArray(c, p) => ArrayOf(args, c, p)
    case OnData(d) => DataOf(args, d)
  }

  function Map<A, B>(f: A -> B, s: seq<A>): (r: seq<B>)
    ensures |r| == |s| && forall i :: 0 <= i < |s| ==> r[i] == f(s[i])
  {
    seq(|s|, i requires 0 <= i < |s| => f(s[i]))
  }

  function TextItems(c: Conjunction, fields: seq<Field>): seq<Item>
  {
    if fields == [] then []
    else
      var f := fields[|fields| - 1];
      TextItems(c, fields[..|fields| - 1]) + Map(p => OnText(f, p), On(c, f))
  }

  /** The predicates of a conjunction, in the order they are compiled. */
  function Items(c: Conjunction): seq<Item>
  {
    TextItems(c, FIELDS)
    + Map(w => OnTime(OccurredAt, w), c.occurredAt) + Map(w => OnTime(RecordedAt, w), c.recordedAt)
    + Map(p => OnArray(TargetTypes, p), c.targetType) + Map(p => OnArray(TargetIds, p), c.targetId)
    + Map(d => OnData(d), c.data)
  }

  function ItemsOf(args: seq<Arg>, items: seq<Item>): Option<Compiled>
  {
    if items == [] then Some(Compiled([], args))
    else
      match ItemsOf(args, items[..|items| - 1])
      case None => None
      case Some(before) =>
        match ItemOf(before.args, items[|items| - 1])
        case None => None
        case Some(last) => Some(Compiled(before.clauses + last.clauses, last.args))
  }

  /** The disjuncts, or that some conjunction asks nothing and so all rows pass. */
  datatype Filtered = Everything(args: seq<Arg>) | Disjuncts(ors: seq<Expr>, args: seq<Arg>)

  function FilterOf(args: seq<Arg>, filter: seq<Conjunction>): Option<Filtered>
  {
    if filter == [] then Some(Disjuncts([], args))
    else
      match FilterOf(args, filter[..|filter| - 1])
      case None => None
      case Some(Everything(a)) => Some(Everything(a))
      case Some(Disjuncts(ors, a)) =>
        match ItemsOf(a, Items(filter[|filter| - 1]))
        case None => None
        case Some(c) => Some(if c.clauses == [] then Everything(c.args) else Disjuncts(ors + [And(c.clauses)], c.args))
  }

  /** `writeFilter`: a clause to add, if any, and the arguments. */
  function WriteFilter(args: seq<Arg>, filter: seq<Conjunction>): Option<(Option<Expr>, seq<Arg>)>
  {
    match FilterOf(args, filter)
    case None => None
    case Some(Everything(a)) => Some((None, a))
    case Some(Disjuncts(ors, a)) => Some((if filter == [] then None else Some(Or(ors)), a))
  }

  /** The statement being built, as its methods change it. */
  class Builder {
    var args: seq<Arg>
    var clauses: seq<Expr>

    constructor ()
      ensures args == [] && clauses == []
    {
      args, clauses := [], [];
    }

    method Conjunct(c: Conjunction) returns (out: Option<seq<Expr>>)
      modifies this`args
      ensures match ItemsOf(old(args), Items(c))
              case None => out.None?
              case Some(r) => out == Some(r.clauses) && args == r.args
    {
      hide Items, ItemOf;
      var items := Items(c);
      var done: seq<Expr> := [];
      var i := 0;
      while i < |items|
        invariant 0 <= i <= |items|
        invariant ItemsOf(old(args), items[..i]) == Some(Compiled(done, args))
      {
        assert items[..i + 1][..i] == items[..i];
        var one := ItemOf(args, items[i]);
        if one.None? {
          StaysRefused(old(args), items, i + 1);
          return None;
        }
        done, args := done + one.value.clauses, one.value.args;
        i := i + 1;
      }
      assert items[..i] == items;
      return Some(done);
    }

    method Write(filter: seq<Conjunction>) returns (ok: bool)
      modifies this
      ensures match WriteFilter(old(args), filter)
              case None => !ok
              case Some(r) => ok && args == r.1 && clauses == old(clauses) + (if r.0.Some? then [r.0.value] else [])
    {
      hide ItemsOf, Items;
      if |filter| == 0 {
        return true;
      }
      var ors: seq<Expr> := [];
      var i := 0;
      while i < |filter|
        invariant 0 <= i <= |filter| && clauses == old(clauses)
        invariant FilterOf(old(args), filter[..i]) == Some(Disjuncts(ors, args))
      {
        assert filter[..i + 1][..i] == filter[..i];
        var c := Conjunct(filter[i]);
        if c.None? {
          FilterStaysRefused(old(args), filter, i + 1);
          return false;
        }
        if |c.value| == 0 {
          StaysEverything(old(args), filter, i + 1);
          return true;
        }
        ors := ors + [And(c.value)];
        i := i + 1;
      }
      assert filter[..i] == filter;
      clauses := clauses + [Or(ors)];
      return true;
    }
  }

  lemma {:induction false} StaysRefused(args: seq<Arg>, items: seq<Item>, i: nat)
    requires i <= |items| && ItemsOf(args, items[..i]).None?
    ensures ItemsOf(args, items).None?
    decreases |items| - i
  {
    if i == |items| { assert items[..i] == items; }
    else {
      assert items[..i + 1][..i] == items[..i];
      StaysRefused(args, items, i + 1);
    }
  }

  lemma {:induction false} FilterStaysRefused(args: seq<Arg>, filter: seq<Conjunction>, i: nat)
    requires i <= |filter| && FilterOf(args, filter[..i]).None?
    ensures FilterOf(args, filter).None?
    decreases |filter| - i
  {
    if i == |filter| { assert filter[..i] == filter; }
    else {
      assert filter[..i + 1][..i] == filter[..i];
      FilterStaysRefused(args, filter, i + 1);
    }
  }

  lemma {:induction false} StaysEverything(args: seq<Arg>, filter: seq<Conjunction>, i: nat)
    requires i <= |filter| && FilterOf(args, filter[..i]).Some? && FilterOf(args, filter[..i]).value.Everything?
    ensures FilterOf(args, filter) == FilterOf(args, filter[..i])
    decreases |filter| - i
  {
    if i == |filter| { assert filter[..i] == filter; }
    else {
      assert filter[..i + 1][..i] == filter[..i];
      StaysEverything(args, filter, i + 1);
    }
  }
}
