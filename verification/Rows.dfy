/** Rows of the index, and when a filter matches one: the types of index/index.go
    and index/search.go, and `Matches` of index/memsearch.go. Moments are in
    nanoseconds; Go's zero time is no bound. */
module Rows {
  import opened Options
  import opened Lex

  datatype Kind = TextKind | IntKind | TimeKind | BoolKind

  /** One indexed extension property. */
  datatype Value = Value(path: string, kind: Kind, text: string, int': int, at: int, facet: bool)

  datatype Row = Row(
    id: string, tenantId: string, occurredAt: int, recordedAt: int,
    source: string, action: string, operation: string, outcome: string,
    targetTypes: seq<string>, targetIds: seq<string>,
    actorKind: string, actorId: string, subjectKind: string, subjectId: string,
    clientAddress: string, requestId: string, traceId: string, observerId: string,
    data: seq<Value>)

  /** The text fields a predicate may name, in the order they are compared. */
  datatype Field =
    | Id | Source | Action | Operation | Outcome | TenantId | ActorKind | ActorId
    | SubjectKind | SubjectId | RequestId | TraceId | ClientAddress | ObserverId

  const FIELDS: seq<Field> :=
    [Id, Source, Action, Operation, Outcome, TenantId, ActorKind, ActorId,
     SubjectKind, SubjectId, RequestId, TraceId, ClientAddress, ObserverId]

  function TextOf(r: Row, f: Field): string
  {
    match f
    case Id => r.id
    case Source => r.source
    case Action => r.action
    case Operation => r.operation
    case Outcome => r.outcome
    case TenantId => r.tenantId
    case ActorKind => r.actorKind
    case ActorId => r.actorId
    case SubjectKind => r.subjectKind
    case SubjectId => r.subjectId
    case RequestId => r.requestId
    case TraceId => r.traceId
    case ClientAddress => r.clientAddress
    case ObserverId => r.observerId
  }

  datatype Op = Equal | NotEqual | In | NotIn | Prefix | Unknown

  datatype Predicate = Predicate(op: Op, value: string, values: seq<string>)

  datatype TimePredicate = TimePredicate(from: Option<int>, to: Option<int>)

  datatype PathPredicate = PathPredicate(
    path: string, op: Op, text: string, values: seq<string>, int': int, at: int, kind: Kind)

  datatype Conjunction = Conjunction(
    text: map<Field, seq<Predicate>>, occurredAt: seq<TimePredicate>, recordedAt: seq<TimePredicate>,
    targetType: seq<Predicate>, targetId: seq<Predicate>, data: seq<PathPredicate>)

  function On(c: Conjunction, f: Field): seq<Predicate>
  {
    if f in c.text then c.text[f] else []
  }

  // ----- what a query means

  predicate Compare(value: string, p: Predicate)
  {
    match p.op
    case Equal => value == p.value
    case NotEqual => value != p.value
    case In => value in p.values
    case NotIn => value !in p.values
    case Prefix => HasPrefix(value, p.value)
    case Unknown => false
  }

  predicate AnyOf(values: seq<string>, p: Predicate)
  {
    match p.op
    case Equal => p.value in values
    case NotEqual => p.value !in values
    case In => exists v :: v in values && v in p.values
    case NotIn => forall v :: v in values ==> v !in p.values
    case _ => false
  }

  predicate Within(at: int, w: TimePredicate)
  {
    (w.from.Some? ==> w.from.value <= at) && (w.to.Some? ==> at < w.to.value)
  }

  function TextPredicate(p: PathPredicate): Predicate
  {
    Predicate(p.op, p.text, p.values)
  }

  predicate ValueHolds(v: Value, p: PathPredicate)
  {
    v.path == p.path &&
    match p.kind
    case IntKind => v.int' == p.int'
    case BoolKind => v.int' == p.int'
    case TimeKind => v.at == p.at
    case TextKind => Compare(v.text, TextPredicate(p))
  }

  predicate HasData(r: Row, p: PathPredicate)
  {
    exists v :: v in r.data && ValueHolds(v, p)
  }

  predicate Holds(r: Row, c: Conjunction)
  {
    && (forall f :: f in FIELDS ==> forall p :: p in On(c, f) ==> Compare(TextOf(r, f), p))
    && (forall w :: w in c.occurredAt ==> Within(r.occurredAt, w))
    && (forall w :: w in c.recordedAt ==> Within(r.recordedAt, w))
    && (forall p :: p in c.targetType ==> AnyOf(r.targetTypes, p))
    && (forall p :: p in c.targetId ==> AnyOf(r.targetIds, p))
    && (forall p :: p in c.data ==> HasData(r, p))
  }

  predicate Matches(r: Row, filter: seq<Conjunction>)
  {
    filter == [] || exists c :: c in filter && Holds(r, c)
  }

  predicate Granted(r: Row, tenants: seq<string>)
  {
    tenants == [] || r.tenantId in tenants
  }

  /** The same, searched value by value as it is. */
  method AnyOfSearch(values: seq<string>, p: Predicate) returns (yes: bool)
    ensures yes <==> AnyOf(values, p)
  {
    match p.op {
      case Equal => return p.value in values;
      case NotEqual => return p.value !in values;
      case In | NotIn =>
        var i := 0;
        while i < |values|
          invariant 0 <= i <= |values|
          invariant forall v :: v in values[..i] ==> v !in p.values
        {
          if values[i] in p.values {
            return p.op.In?;
          }
          assert values[..i + 1] == values[..i] + [values[i]];
          i := i + 1;
        }
        assert values[..i] == values;
        return p.op.NotIn?;
      case _ => return false;
    }
  }

  // ----- a filter of one equality

  /** A filter that asks one field to be a value. */
  function Asking(f: Field, value: string): seq<Conjunction>
  {
    [Conjunction(map[f := [Predicate(Equal, value, [])]], [], [], [], [], [])]
  }

  lemma AskingIs(r: Row, f: Field, value: string)
    ensures Matches(r, Asking(f, value)) <==> TextOf(r, f) == value
  {
    var c := Asking(f, value)[0];
    assert On(c, f) == [Predicate(Equal, value, [])];
    assert f in FIELDS by { EveryField(f); }
    assert Predicate(Equal, value, []) in On(c, f);
    assert c in Asking(f, value);
  }

  lemma EveryField(f: Field)
    ensures f in FIELDS
  {
    match f
    case Id => assert FIELDS[0] == f;
    case Source => assert FIELDS[1] == f;
    case Action => assert FIELDS[2] == f;
    case Operation => assert FIELDS[3] == f;
    case Outcome => assert FIELDS[4] == f;
    case TenantId => assert FIELDS[5] == f;
    case ActorKind => assert FIELDS[6] == f;
    case ActorId => assert FIELDS[7] == f;
    case SubjectKind => assert FIELDS[8] == f;
    case SubjectId => assert FIELDS[9] == f;
    case RequestId => assert FIELDS[10] == f;
    case TraceId => assert FIELDS[11] == f;
    case ClientAddress => assert FIELDS[12] == f;
    case ObserverId => assert FIELDS[13] == f;
  }

  /** Asking a field to be a value gives exactly the rows whose own component of
      that name is the value. */
  lemma FieldsAreTheirOwn(r: Row, value: string)
    ensures Matches(r, Asking(Id, value)) <==> r.id == value
    ensures Matches(r, Asking(Source, value)) <==> r.source == value
    ensures Matches(r, Asking(Action, value)) <==> r.action == value
    ensures Matches(r, Asking(Operation, value)) <==> r.operation == value
    ensures Matches(r, Asking(Outcome, value)) <==> r.outcome == value
    ensures Matches(r, Asking(TenantId, value)) <==> r.tenantId == value
    ensures Matches(r, Asking(ActorKind, value)) <==> r.actorKind == value
    ensures Matches(r, Asking(ActorId, value)) <==> r.actorId == value
    ensures Matches(r, Asking(SubjectKind, value)) <==> r.subjectKind == value
    ensures Matches(r, Asking(SubjectId, value)) <==> r.subjectId == value
    ensures Matches(r, Asking(RequestId, value)) <==> r.requestId == value
    ensures Matches(r, Asking(TraceId, value)) <==> r.traceId == value
    ensures Matches(r, Asking(ClientAddress, value)) <==> r.clientAddress == value
    ensures Matches(r, Asking(ObserverId, value)) <==> r.observerId == value
  {
    hide Matches, Asking;
    forall f ensures Matches(r, Asking(f, value)) <==> TextOf(r, f) == value { AskingIs(r, f, value); }
  }

  // ----- the other things a filter asks

  const NOTHING := Conjunction(map[], [], [], [], [], [])

  /** A period is from its start, and up to and without its end, of the moment it
      is asked of. */
  lemma PeriodIs(r: Row, from: int, to: int)
    ensures var w := TimePredicate(Some(from), Some(to));
            && (Matches(r, [NOTHING.(occurredAt := [w])]) <==> from <= r.occurredAt < to)
            && (Matches(r, [NOTHING.(recordedAt := [w])]) <==> from <= r.recordedAt < to)
  {
    var w := TimePredicate(Some(from), Some(to));
    One(r, NOTHING.(occurredAt := [w]));
    One(r, NOTHING.(recordedAt := [w]));
    assert w in [w];
    hide Matches;
  }

  lemma One(r: Row, c: Conjunction)
    ensures Matches(r, [c]) <==> Holds(r, c)
  {
    assert c in [c];
  }

  /** A target is asked of every target of the row. */
  lemma TargetsAre(r: Row, value: string)
    ensures var same, other := Predicate(Equal, value, []), Predicate(NotEqual, value, []);
            && (Matches(r, [NOTHING.(targetType := [same])]) <==> exists t :: t in r.targetTypes && t == value)
            && (Matches(r, [NOTHING.(targetId := [same])]) <==> exists t :: t in r.targetIds && t == value)
            && (Matches(r, [NOTHING.(targetType := [other])]) <==> forall t :: t in r.targetTypes ==> t != value)
            && (Matches(r, [NOTHING.(targetId := [other])]) <==> forall t :: t in r.targetIds ==> t != value)
  {
    var same, other := Predicate(Equal, value, []), Predicate(NotEqual, value, []);
    One(r, NOTHING.(targetType := [same]));
    One(r, NOTHING.(targetId := [same]));
    One(r, NOTHING.(targetType := [other]));
    One(r, NOTHING.(targetId := [other]));
    assert same in [same] && other in [other];
    hide Matches;
  }

  /** A value is asked of what is recorded at its path, by the kind it is asked as. */
  lemma DataIs(r: Row, p: PathPredicate)
    requires p.op.Equal?
    ensures Matches(r, [NOTHING.(data := [p])]) <==>
            exists v :: && v in r.data && v.path == p.path
                        && match p.kind
                           case TextKind => v.text == p.text
                           case TimeKind => v.at == p.at
                           case _ => v.int' == p.int'
  {
    One(r, NOTHING.(data := [p]));
    assert p in [p];
    hide Matches;
    if v :| && v in r.data && v.path == p.path
            && match p.kind
               case TextKind => v.text == p.text
               case TimeKind => v.at == p.at
               case _ => v.int' == p.int'
    {
      assert ValueHolds(v, p);
    }
  }

  /** A conjunction asks everything it names, and a filter any one of its
      conjunctions. */
  lemma AllAreAsked(r: Row, c: Conjunction)
    ensures Matches(r, [c]) <==>
            && Matches(r, [NOTHING.(text := c.text)])
            && Matches(r, [NOTHING.(occurredAt := c.occurredAt)]) && Matches(r, [NOTHING.(recordedAt := c.recordedAt)])
            && Matches(r, [NOTHING.(targetType := c.targetType)]) && Matches(r, [NOTHING.(targetId := c.targetId)])
            && Matches(r, [NOTHING.(data := c.data)])
    ensures forall filter :: filter != [] && c in filter && Matches(r, [c]) ==> Matches(r, filter)
  {
    hide Compare, Within, AnyOf, HasData;
    One(r, c);
    One(r, NOTHING.(text := c.text));
    One(r, NOTHING.(occurredAt := c.occurredAt));
    One(r, NOTHING.(recordedAt := c.recordedAt));
    One(r, NOTHING.(targetType := c.targetType));
    One(r, NOTHING.(targetId := c.targetId));
    One(r, NOTHING.(data := c.data));
    assert forall f :: On(NOTHING.(text := c.text), f) == On(c, f);
  }
}
